# Verified model of a DNS and proxy gateway

This Dafny project models the logic of a home gateway and proves properties of
it. Five components are covered: the FakeDNS allocator, the rule engine, the DNS
wire code with its cache and handler, the Shadowsocks stream, and the
grant-based parental control; and then the handler and the proxy that share them. Code that the program writes as expressions is
modelled by functions; objects that the program updates in place are classes
whose methods are proved against functions on values, and the theorems are about
those functions and about whole runs of them.

Text is ASCII throughout. Machine widths are written out where they matter:
bytes, 16- and 32-bit fields, the 64-bit nonce counter, the cut of a length to 8
or 16 bits.

## What is modelled

**FakeDNS** (`FakeDns.dfy`, `FakeDnsRuns.dfy`, `FakeDnsConcurrent.dfy`,
`FakeDnsExclusive.dfy`, `FakeDnsProgress.dfy`, `LeastRecent.dfy`). Two maps, an
LRU order and a ring pointer change together. The sequential allocator is a
class; runs of `allocate`, `lookup` and `clear` are sequences of operations. The
concurrent version has one step for every
access to a shared map inside and outside the lock, and any number of threads;
a further layer adds the guards that a hit keeps on a shard of a map.
The `lru` and `dashmap` libraries are represented by their contracts: a
recency sequence and atomic map operations. The source's comment calls an
address that is still in use when the ring reaches it something that should not
happen; the model shows exactly when it does.

**Rule engine** (`Ascii.dfy`, `DomainSuffix.dfy`, `SuffixTrie.dfy`,
`KeywordScan.dfy`, `DomainMatcher.dfy`, `RuleTypes.dfy`, `RuleEngine.dfy`,
`FirstMatch.dfy`, `RuleMeaning.dfy`, `SuffixAgreement.dfy`, `NetText.dfy`,
`RuleText.dfy`). The source documents "first match wins"
(`src/rule/engine.rs:11`), but answers from indexes that lose rules. The engine is modelled as it is, with heap-allocated
trie nodes and the leftmost-first, non-overlapping keyword search; the scan is a
separate definition; and the theorem says for which requests the two agree. The
country lookup is a function parameter. Rules also have a text form: the parser
and printer are modelled with an IPv4 codec, and an IPv6 codec as a parameter.

**DNS wire code** (`Numbers.dfy`, `DnsWire.dfy`, `DnsMessage.dfy`,
`DnsLayout.dfy`, `TtlPatch.dfy`, `DnsCache.dfy`, `DnsHandler.dfy`). The byte
walker patches TTLs in an array; structured messages in the format of RFC 1035
sections 4.1.1 to 4.1.4 have an encoder and a decoder; the patch is shown to be the structured
update. The cache is compared with a map that has no capacity, and the handler
is a class over the cache and the allocator. Times are in nanoseconds. What
`simple_dns` makes of a query and what the upstream resolver answers are inputs;
what the filters decide is an input of the handler, and computed in the whole.

**Shadowsocks** (`SsAddress.dfy`, `SsCipher.dfy`, `SsStream.dfy`,
`SsSession.dfy`, `SsHonestWire.dfy`). Framing, nonces, the leftover read buffer
and the address codec (section 5 of RFC 1928; SIP004, section "TCP"). The AEAD,
the key derivation and MD5 are function parameters with the laws the source relies on: a 16-byte tag,
and opening undoes sealing. The nonce counter wraps at 2^64, as it does in a
release build.

**Parental control** (`Timestamps.dfy`, `Grants.dfy`, `GrantRuns.dfy`,
`Blocklist.dfy`, `Controller.dfy`, `ControllerRuns.dfy`). A table of expiring,
revocable grants, a cache rebuilt from it now and then, and an ordered decision
on top. The clock is a calendar stamp that does not go back; SQLite's comparison
is the byte order of texts; `chrono`'s two format parsers are parameters known
to read both written forms. The field comment of the cache speaks of the
earliest expiry (`src/control/grant.rs:37`); the code keeps the latest, and so
does the model.

**The whole** (`ProxyHandler.dfy`, `Gateway.dfy`, `GatewayReplies.dfy`). The proxy's connection handler
is a class over the allocator, the controller and the engine. A history
interleaves the queries and connections of any clients with what the parent
changes and with clears and clean-ups; the DNS handler and the proxy share one
allocator, one engine and one controller, as `src/main.rs:286-370` wires them, and
the theorems say what a query's answer means for a later connection. The cache's
clock and the calendar of the grants move on independently.

## Properties that fail, and when they hold

- First match wins fails when a general suffix precedes a more specific one
  (`FirstMatch.GeneralSuffixFirstFails`) or when keywords overlap
  (`FirstMatch.OverlapFails`); `FirstMatch.FirstMatchIff` is the exact condition
  for a request, `FirstMatch.OrderedKeywordsAreFirstMatch` a condition on the list.
- With several threads one name can end up with two addresses
  (`FakeDnsConcurrent.RaceLeavesTwoAddresses`); `FakeDnsConcurrent.LateMissKeepsIff`
  is the exact condition for one call, and
  `FakeDnsExclusive.ScheduleKeepsIff` for whole schedules.
- A hit and an allocation can wait for each other
  (`FakeDnsProgress.StuckIsReachable`); `FakeDnsProgress.ReachableStuckIff` is the
  exact condition.
- An allocator pool for a /31 or /32 hands out addresses that it does not
  recognise (`FakeDns.PoolNonEmptyIffPrefix30`).
- A refusal for the root name is not cut to header and question
  (`DnsHandler.NxdomainExactIff`).
- An address with flow or scope, or a domain of 0 or more than 255 bytes, does
  not survive its encoding (`SsAddress.DecodeEncodedIff`); a payload over 0x3FFF
  bytes does not survive its frame (`SsSession.FrameReadsBackIff`).
- A live grant whose expiry is written with a signed year never counts
  (`GrantRuns.SignedYearNeverCounts`); `GrantRuns.ActiveIff` is the exact condition.
- A mere refresh can block a request when a revoke was still unseen
  (`ControllerRuns.RefreshBlocks`); `ControllerRuns.AddingNeverBlocksIff` is the
  exact condition.

## Model

| member | source | states |
|---|---|---|
| LeastRecent.UsedLast | src/dns/fake_dns.rs:102-190 | using a key puts it last, leaves the others in their order, and what was used after it is what stood behind it |
| FakeDns.NewPoolIs | src/dns/fake_dns.rs:50-89 | the pool's addresses are those between network and broadcast address; the capacity is the configured one but at most their number, and 1000 if that is 0 |
| FakeDns.PoolNonEmptyIffPrefix30 | src/dns/fake_dns.rs:50-89 | every address the ring can hand out is one `is_fake_ip` accepts exactly for prefixes up to /30, where the pool has 2^(32-prefix) - 2 addresses; the capacity is never 0 |
| FakeDns.EvictRemovesIff | src/dns/fake_dns.rs:126-134 | eviction removes a mapping, from both maps, exactly when all capacity - 1 other addresses were used after it, and changes no other mapping |
| FakeDns.OverwriteKeeps | src/dns/fake_dns.rs:158-168 | clearing a slot that is still in use leaves the address free and the invariant intact |
| FakeDns.AllocateNewKeeps | src/dns/fake_dns.rs:122-176 | a fresh allocation keeps the invariant, hands out the ring pointer, and its `put` pushes nothing out |
| FakeDns.AllocateKeeps | src/dns/fake_dns.rs:102-119 | after `allocate` the address looks up to the lower-cased name without trailing dots, is the most recent one and lies on the ring |
| FakeDns.AllocateTwice | src/dns/fake_dns.rs:102-113 | asking again for the same name, however spelled, gives the same address and changes nothing |
| FakeDns.LookupKeeps | src/dns/fake_dns.rs:182-190 | a lookup changes recency only and keeps the invariant |
| FakeDns.LookupIs | src/dns/fake_dns.rs:182-190 | a lookup of a mapped address gives its name and makes it the most recent, the others keeping their order; any other changes nothing |
| FakeDns.Allocator.constructor | src/dns/fake_dns.rs:50-89 | a new allocator is empty, starts at the first address and meets the invariant |
| FakeDns.Allocator.AllocateNewIp | src/dns/fake_dns.rs:122-176 | the in-place updates of both maps, the LRU and the ring are the specified step |
| FakeDns.Allocator.Allocate | src/dns/fake_dns.rs:102-119 | the new state and the address are those of the specified step, and the name is bound afterwards |
| FakeDns.Allocator.Lookup | src/dns/fake_dns.rs:182-190 | the new state and the name are those of the specified step |
| FakeDns.Allocator.Clear | src/dns/fake_dns.rs:214-218 | empties maps and LRU and keeps the ring pointer |
| FakeDnsRuns.RunKeepsInvariant | src/dns/fake_dns.rs:102-190 | in every reachable state the maps are mutual inverses, the LRU keys are the mapped addresses, at most capacity of them, all on the ring |
| FakeDnsRuns.FreshIpsFollowRing | src/dns/fake_dns.rs:136-154 | the addresses of all fresh allocations of a run, across evictions and clears, are consecutive on the ring |
| FakeDnsRuns.ReuseDistance | src/dns/fake_dns.rs:136-154 | two fresh allocations return the same address if and only if their numbers differ by a multiple of the pool size |
| FakeDnsRuns.FreshRemovesIff | src/dns/fake_dns.rs:122-168 | a fresh allocation takes a live mapping away exactly when it is the least recent of a full cache or the ring pointer is at it |
| FakeDnsRuns.WorkingSet | src/dns/fake_dns.rs:102-190 | a mapping survives a run in which fewer than capacity - 1 other addresses are touched or handed out and the ring is never at it |
| FakeDnsRuns.QuietRun | src/dns/fake_dns.rs:156-168 | without hits and successful lookups, and with the capacity within the pool, LRU order is ring order and the still-in-use branch is never taken |
| FakeDnsRuns.OverwriteUnreachableIff | src/dns/fake_dns.rs:156-168 | that branch is unreachable in all such runs if and only if the capacity fits the pool |
| FakeDnsRuns.CapacityFitsIff | src/dns/fake_dns.rs:67-71 | for the pools `new` builds, the capacity fits unless the configured one is 0 and the pool has fewer than 1000 addresses |
| FakeDnsConcurrent.HolderStepKeeps | src/dns/fake_dns.rs:122-176 | each micro-step under the lock keeps the invariant of its program point; the compare-and-swap succeeds and the last `put` evicts nothing |
| FakeDnsConcurrent.EveryScheduleKeeps | src/dns/fake_dns.rs:102-190 | for any threads and any interleaving, whenever the lock is free each name's address maps back to it, the LRU holds the mapped addresses and there are at most capacity of them |
| FakeDnsConcurrent.FreeLockIsConsistent | src/dns/fake_dns.rs:102-190 | the same for every schedule of calls that starts from an empty allocator |
| FakeDnsConcurrent.FinishIsAllocateNew | src/dns/fake_dns.rs:122-176 | run without interference, the micro-steps are the sequential operation |
| FakeDnsConcurrent.LookupAlone | src/dns/fake_dns.rs:182-190 | a lookup that nobody interrupts is the sequential one |
| FakeDnsConcurrent.AllocateAlone | src/dns/fake_dns.rs:102-119 | an allocation that nobody interrupts is the sequential one |
| FakeDnsConcurrent.LateMissKeepsIff | src/dns/fake_dns.rs:106-119 | the locked part keeps the two maps inverse exactly when the name is still unmapped, or its address is removed by this very call |
| FakeDnsConcurrent.RaceLeavesTwoAddresses | src/dns/fake_dns.rs:106-119 | a schedule of two racing misses that ends with two addresses for one name |
| FakeDnsExclusive.ExclusiveScheduleKeeps | src/dns/fake_dns.rs:102-190 | for every schedule in which no call misses on a name that another thread is allocating, the state the lock holder is heading for meets the sequential invariant at every step |
| FakeDnsExclusive.ExclusiveIsSequential | src/dns/fake_dns.rs:102-190 | so, from an empty allocator on, the sequential invariant holds whenever the lock is free |
| FakeDnsExclusive.ScheduleKeepsIff | src/dns/fake_dns.rs:102-176 | for any threads and schedule: the sequential invariant holds all along, once the thread in the lock is through, if and only if every thread that takes the lock finds its name unmapped, or the name's address least recent of a full cache, or the ring pointer at it |
| FakeDnsExclusive.ScheduleFromStartKeepsIff | src/dns/fake_dns.rs:102-176 | the same for every schedule from an empty allocator |
| FakeDnsProgress.WritesWhatChanges | src/dns/fake_dns.rs:126-173 | the shard a step writes to is that of every map entry it makes, changes or removes |
| FakeDnsProgress.GuardedIsUnguarded | src/dns/fake_dns.rs:107-113 | what a schedule with map guards reaches, the same schedule reaches without them, so every invariant carries over |
| FakeDnsProgress.ReachableStuckIff | src/dns/fake_dns.rs:107-131 | in every reachable state, calls are under way and none can go on if and only if the lock holder is about to write to a shard that a waiting hit guards |
| FakeDnsProgress.StuckForever | src/dns/fake_dns.rs:107-131 | from such a state on, whatever calls begin, the maps stay as they are and no call that waits ever goes on |
| FakeDnsProgress.FullCacheCanStick | src/dns/fake_dns.rs:126-131 | from every state with a full cache and nobody inside, a lookup and an allocation lead there, however the maps are sharded |
| FakeDnsProgress.StuckIsReachable | src/dns/fake_dns.rs:102-190 | for every pool whose capacity fits it, however the maps are sharded, an allocator that starts empty can get there |
| Ascii.SameCaseIff | src/rule/matcher/domain.rs:183-183 | two texts have one lower case, or one upper case, if and only if they differ only in the case of letters |
| Ascii.TrimIs | src/rule/parser.rs:41-48 | trimming takes off the white space at both ends and nothing else |
| SuffixTrie.Trie.Insert | src/rule/matcher/domain.rs:46-57 | inserting through the moving cursor sets the index of one label path and changes no other |
| SuffixTrie.Trie.MatchDomain | src/rule/matcher/domain.rs:61-81 | the walk returns the index stored for the longest stored prefix of the reversed labels |
| SuffixTrie.LongestMatchMeaning | src/rule/matcher/domain.rs:59-81 | it fails exactly when no stored pattern is a prefix, else names the longest one |
| DomainSuffix.PathPrefixIsSuffix | src/rule/matcher/domain.rs:46-81 | a pattern's trie path is a prefix of a name's path exactly when the name equals the pattern or ends with a dot and the pattern, ignoring case |
| KeywordScan.ScanReportsIffOccurs | src/rule/matcher/domain.rs:198-206 | the keyword search reports something exactly when some keyword occurs |
| KeywordScan.ScanReportsAll | src/rule/matcher/domain.rs:128-131 | without empty keywords and overlaps every occurrence is reported |
| KeywordScan.AllHitsAreUnhidden | src/rule/matcher/domain.rs:198-206 | with overlaps, repetitions and empty keywords: an occurrence is reported exactly when no earlier-listed keyword matches at its start and no unhidden occurrence that starts before reaches over it |
| KeywordScan.ApartIff | src/rule/matcher/domain.rs:128-131 | non-empty keywords overlap in no text if and only if none contains another or begins where another, or itself, has not ended |
| KeywordScan.NoneReachesBackIff | src/rule/matcher/domain.rs:123-209 | in no text does a later-listed keyword reach from before into an earlier-listed one, if and only if no such pair can overlap so |
| DomainMatcher.Matcher.constructor | src/rule/matcher/domain.rs:106-139 | building gives the exact map, the trie and the keyword index of the three lists, later equal patterns overwriting earlier ones |
| DomainMatcher.Matcher.AddExact | src/rule/matcher/domain.rs:142-144 | sets the index of the lower-cased name only |
| DomainMatcher.Matcher.MatchAll | src/rule/matcher/domain.rs:182-209 | returns exactly the rule indices that the three indexes report |
| RuleEngine.Engine.constructor | src/rule/engine.rs:48-99 | the index of each rule kind holds that kind's rules with their positions; the last FINAL gives the default |
| RuleEngine.Engine.IpMatchesMeaning | src/rule/matcher/ip.rs:79-102 | the IP candidates are exactly the CIDR and country rules that match the address |
| RuleEngine.Engine.MatchRequest | src/rule/engine.rs:142-174 | returns the lowest candidate of the indexes, skipping no-resolve IP rules when a domain is known, else FINAL |
| RuleEngine.Engine.MatchDomain | src/rule/engine.rs:104-115 | the request with a domain and no address |
| RuleEngine.Engine.MatchIp | src/rule/engine.rs:120-134 | the request with an address and no domain |
| RuleEngine.Engine.IsBlocked | src/rule/engine.rs:214-220 | blocks exactly when the answer for the name without trailing dots is REJECT |
| RuleEngine.CandidateMatches | src/rule/engine.rs:104-174 | every candidate of the indexes is a rule of the list that really matches |
| RuleTypes.ContainsIffInBlock | src/rule/matcher/ip.rs:78-95 | a network contains exactly the 2^(width - prefix) addresses of its block, which starts at a multiple of that size |
| RuleMeaning.FitsIff | src/rule/types.rs:13-40 | what the proofs call matching, in plain terms for each rule type: names compared in any case, suffixes at a label boundary, blocks of addresses, countries in any case, `no-resolve` only without a name |
| RuleMeaning.AnswerMeaning | src/rule/engine.rs:142-179 | for every list and request: an answer by a rule names one that fits, no IP rule that fits stands before it, FINAL is answered if and only if none fits, and is the last FINAL rule or else DIRECT |
| RuleMeaning.CidrRuleAnswers | src/rule/matcher/ip.rs:78-95 | an eligible IPv4 rule answers, or an earlier one does, for each address of its block, and answers for no other |
| FirstMatch.SoundAndComplete | src/rule/engine.rs:104-174 | for every rule list: a non-FINAL answer names a matching, eligible rule, and FINAL is answered if and only if no rule matches |
| FirstMatch.CandidateIffVisible | src/rule/matcher/domain.rs:46-209 | a matching rule is reported exactly when no later equal pattern and no more specific covering suffix hides it, and, for a keyword, when it occurs where no earlier-listed keyword matches and no unhidden occurrence reaches over it |
| FirstMatch.FirstMatchIff | src/rule/engine.rs:142-174 | for every rule list and request the engine equals the first-match scan if and only if the scan's winner is visible |
| FirstMatch.WellOrderedIsFirstMatch | config/rules.list:11-13 | for rules ordered as advised the engine is the first-match scan on every domain in which no later rule's keyword reaches from before into an earlier rule's |
| FirstMatch.OrderedKeywordsAreFirstMatch | config/rules.list:11-13 | for rules ordered as advised, none of whose keywords can begin before an earlier-listed one and reach into it, the engine is the first-match scan for every request; a longer keyword may stand above one it contains |
| FirstMatch.OverlapFails | src/rule/matcher/domain.rs:128-131 | a two-rule list of overlapping keywords on which engine and scan differ |
| FirstMatch.GeneralSuffixFirstFails | src/rule/matcher/domain.rs:61-80 | a two-rule list on which engine and scan differ |
| SuffixAgreement.SuffixSearchesAgree | src/control/blocklist.rs:244-264 | trie, parent loop and "equal, or ends with a dot and the pattern" agree for every name and every pattern list |
| SuffixAgreement.TrieAnswersLongestLast | src/rule/matcher/domain.rs:46-81 | the trie's answer is the index last inserted for the longest pattern that covers the name |
| NetText.NetReadsBack | src/rule/types.rs:42-42 | the printed form of an IPv4 network parses back to it, host bits included |
| NetText.DottedNet | src/rule/parser.rs:96-104 | four decimal octets and a prefix mean the network with the first octet most significant |
| RuleText.ParseOptions | src/rule/parser.rs:82-87 | the flag is set exactly when some option is no-resolve, ignoring case |
| RuleText.LineAcceptedIff | src/rule/parser.rs:40-127 | which lines are rules, said of their trimmed text and comma-separated fields in any case of letters, and which rule each is |
| RuleText.ParsedIsCarried | src/rule/parser.rs:40-127 | every parsed rule has trimmed, comma-free, normalised fields |
| RuleText.PrintParseIff | src/rule/types.rs:36-193 | over all rules: printing and parsing gives the rule back if and only if it is one text can carry |
| RuleText.ParsePrintParse | src/rule/parser.rs:40-127 | whatever line was accepted, the printed rule is accepted as the same rule |
| RuleText.AcceptedIff | src/rule/parser.rs:130-154 | a list is accepted exactly when every line is skipped or a rule, else the error names the first line that is neither |
| RuleText.RulesInOrder | src/rule/parser.rs:130-154 | an accepted list yields one rule for each line that is not skipped, in order |
| RuleText.ParseRules | src/rule/parser.rs:130-154 | the loop returns the rules of the lines in order, or that error |
| RuleText.ListPrintParse | src/rule/parser.rs:130-154 | an accepted list, printed, is accepted as the same list |
| DnsWire.SkipName | src/dns/cache.rs:238-264 | the loop ends where the name ends, stops at a pointer, and gives 0 on bad or missing bytes |
| DnsLayout.WalkerReadsNames | src/dns/cache.rs:238-264 | on any bytes the walker finds the end of a name where a decoder does, and otherwise gives 0 or an offset past the bytes |
| DnsLayout.WalkerReadsRecords | src/dns/cache.rs:210-233 | on any bytes it takes for a record exactly a decodable name with ten more bytes, of which it finds TTL and length where they are |
| DnsLayout.WalkerIsDecoder | src/dns/cache.rs:183-235 | on any bytes, cut or malformed, the TTL fields patched are those of the records that a decoder finds one after another, and none if the questions cannot be decoded |
| DnsWire.UpdateResponseTtl | src/dns/cache.rs:189-235 | on any bytes the array ends up as the specified patch, all accesses in bounds |
| DnsWire.PatchedBytes | src/dns/cache.rs:211-234 | byte by byte: inside a visited TTL field the new value's byte, elsewhere the old byte |
| DnsWire.PatchKeepsFields | src/dns/cache.rs:189-235 | patching does not move the fields: no later read meets a written byte |
| DnsWire.PatchLastWins | src/dns/cache.rs:189-235 | patching twice is patching with the second value |
| DnsLayout.HeaderLayout | src/dns/cache.rs:189-199 | ID, flags and the four counts stand where the standard has them |
| DnsLayout.NameLayout | src/dns/cache.rs:238-264 | a label is its length and its bytes, a name ends with a zero or a pointer |
| DnsLayout.QuestionLayout | src/dns/cache.rs:200-208 | behind its name a question has its type and its class |
| DnsLayout.RecordLayout | src/dns/cache.rs:210-233 | behind its name a record has type, class, TTL, length and data |
| DnsMessage.DecodeEncoded | src/dns/cache.rs:183-188 | encoding a structured message and decoding gives it back, whatever follows |
| DnsMessage.EncodeDecoded | src/dns/cache.rs:183-188 | whatever decodes is the encoding of what it decodes to |
| TtlPatch.NameEndOfEncoded | src/dns/cache.rs:238-264 | the walker skips every encoded name, wherever it stands |
| TtlPatch.PatchRefines | src/dns/cache.rs:189-235 | patching an encoded message is encoding the message with every record's TTL set, in all three sections |
| TtlPatch.PatchOfDecoded | src/dns/cache.rs:189-235 | for any bytes that parse, the patched bytes parse to the message with the TTLs set, and what follows is untouched |
| TtlPatch.WalkEndOfEncoded | src/dns/cache.rs:202-234 | the walk ends exactly behind the message |
| DnsCache.KeyIff | src/dns/cache.rs:65-70 | two queries share an entry exactly when their types agree and their names differ at most in the case of letters |
| DnsCache.ClampIsNearest | src/dns/cache.rs:116-116 | the clamped TTL is the nearest within the bounds, the TTL itself when it lies within them |
| DnsCache.GetIs | src/dns/cache.rs:65-100 | looking an unexpired key up makes it the most recent and changes nothing else; an expired one goes, the others keeping their order |
| DnsCache.CleanupIs | src/dns/cache.rs:159-180 | a clean-up keeps exactly the unexpired entries, as they are, in their order |
| DnsCache.RunKeeps | src/dns/cache.rs:65-180 | over any run entries and recency order agree, capacity holds, and every entry is the ideal map's entry |
| DnsCache.HitsAreIdeal | src/dns/cache.rs:65-132 | a hit is the latest insert for the lower-cased name and type not since removed or cleared, unexpired, patched with the whole seconds left |
| DnsCache.WorkingSetIsExact | src/dns/cache.rs:65-132 | after an insert, while fewer than capacity other keys are used, hits and misses are both those of the unbounded TTL map |
| DnsCache.Cache.Get | src/dns/cache.rs:65-100 | the new state and the answer are those of the specified step; an expired entry is dropped |
| DnsCache.Cache.Insert | src/dns/cache.rs:109-132 | stores the response until now plus the clamped TTL, evicting the least recent key of a full cache |
| DnsCache.Cache.Remove | src/dns/cache.rs:135-141 | removes one key |
| DnsCache.Cache.Clear | src/dns/cache.rs:144-146 | empties the cache |
| DnsCache.Cache.CleanupExpired | src/dns/cache.rs:159-180 | exactly the expired entries go, recency of the others is kept, and the count is returned |
| DnsHandler.BuildAResponse | src/dns/handler.rs:229-303 | the pushed bytes, with the offset loop over the question, are the specified reply |
| DnsHandler.AResponseParses | src/dns/handler.rs:229-303 | for one uncompressed question the reply decodes to the same ID and question and one A record with the address and TTL, its pointer resolves to the name, and the cache's walk ends at its last byte |
| DnsHandler.BuildNxdomainResponse | src/dns/handler.rs:195-226 | the overwritten and truncated copy is the specified refusal |
| DnsHandler.NxdomainExactIff | src/dns/handler.rs:214-223 | for ASCII labels the refusal is exactly header and question if and only if the name has a label or nothing follows the question |
| DnsHandler.RefusalFlagsAre | src/dns/handler.rs:201-204 | the refusal's flags: response, recursion desired, the query's middle bits, code 3 |
| DnsHandler.ErrorReplyParses | src/dns/handler.rs:173-192 | the reply to a query that does not parse is a message with its ID, the response bit, code 1 and nothing else |
| DnsHandler.CachedReplyIsMessage | src/dns/handler.rs:130-140 | a hit on a stored message that parses is that message with the query's ID and every TTL set to the seconds left |
| DnsHandler.AddressQueryAllocates | src/dns/handler.rs:130-152 | with FakeDNS on, an A query that is not turned away never meets the cache, and is answered with the address its name is bound to right then |
| DnsHandler.Handler.HandleQuery | src/dns/handler.rs:84-170 | new state and reply are those of the specified order of steps, whose every path has its theorem: refusals, FakeDNS answers, cache hits, upstream answers |
| ProxyHandler.ConnectionHandler.ResolveDomain | src/proxy/handler.rs:162-179 | name and allocator are those of the specified step: a lookup for an IPv4 address of the pool, nothing otherwise |
| ProxyHandler.ConnectionHandler.Route | src/proxy/handler.rs:115-160 | a connection is dropped exactly when the controller blocks its name for the client, and otherwise gets the engine's answer for the name and the original destination together |
| ProxyHandler.ConnectionHandler.Handle | src/proxy/handler.rs:96-160 | both together, from the original destination on |
| ProxyHandler.SpellingIrrelevant | src/rule/matcher/domain.rs:182-209 | the engine answers alike for names that differ in case only |
| ProxyHandler.AddressIrrelevantIff | src/rule/engine.rs:142-174 | asking by name and address gives the answer for the name alone if and only if every IP rule that matches the address, and has no `no-resolve`, stands behind the rule that answers for the name |
| ProxyHandler.OnlyAddressRulesReject | src/rule/engine.rs:142-179 | where the name alone is not rejected, name and address are rejected only by an IP rule that matches the address |
| Gateway.HistoryKeeps | src/dns/handler.rs:130-166 | in every history of queries, connections, edits, clears and clean-ups, cache and allocator keep their invariants, and with FakeDNS on no A entry enters the cache |
| Gateway.ConnectionMeaning | src/proxy/handler.rs:112-160 | a connection is dropped if and only if it has a name that the controller blocks for the client; otherwise a rule that answers fits name and address together, an IP rule that fits before all others is the answer, and FINAL answers if and only if no rule fits both |
| Gateway.RefusedLeavesNoTrace | src/dns/handler.rs:84-128 | a query that the controller or the rules refuse where it stands, or that does not parse, taken out of any history changes neither the later state nor what is seen of any other query or connection; its own reply is the same whatever came before |
| Gateway.HardListedIsOutOfReach | src/proxy/handler.rs:112-132 | after any history, a device's query for a name in one of its hard categories, however spelled, is refused and changes nothing, and its connection to an address bound to the name, whoever was given that address, is dropped |
| Gateway.AllocatorRunsAlone | src/main.rs:286-370 | the allocator shared by handler and proxies runs as it does alone on the operations they ask of it |
| Gateway.AnswersLeadBack | src/proxy/handler.rs:96-139 | at any point of any history an unrefused A query gets an address, and while that address stays in use a connection of any client to it is taken to be for the name asked, dropped if the controller blocks the name for that client by then, and otherwise routed by name and address |
| Gateway.FilterAndProxyAgree | src/rule/engine.rs:142-219 | where the filter lets a name through, the rules reject a connection to an address bound to it only by an IP rule that matches the address |
| GatewayReplies.UpstreamOrCache | src/dns/handler.rs:130-169 | a query past refusals and FakeDNS: stored bytes patched and under its own ID, or exactly the upstream bytes, which are cached for the TTL if they parse and not otherwise |
| GatewayReplies.CacheRunsAlone | src/dns/handler.rs:130-166 | the cache inside the gateway changes as it does alone on the operations it is asked |
| GatewayReplies.ServedUntilExpiry | src/dns/handler.rs:130-169 | an upstream answer that parses, got on a miss at any point of any history, answers every later unrefused query for the same name and type until the TTL (the first answer's or the configured one, clamped) has run out, patched and under that query's ID, while fewer than capacity other keys are asked for and it is not dropped |
| GatewayReplies.AskedAnewAfterExpiry | src/dns/cache.rs:76-82 | once the TTL has run out the next query goes upstream again, whatever else happened |
| GatewayReplies.RepliesAreAnswers | src/dns/handler.rs:130-169 | over any history, every such reply is the query's own upstream answer or one that parsed for an earlier query for the same name and type; one that does not parse is never served again |
| SsAddress.Encode | src/outbound/shadowsocks/address.rs:91-115 | the pushed buffer is the encoding, the length byte cut to 8 bits |
| SsAddress.WireForm | src/outbound/shadowsocks/address.rs:91-115 | the bytes of section 5 of RFC 1928: type 1, 3 or 4, address or length and name, port with the more significant byte first |
| SsAddress.DecodeEncodedIff | src/outbound/shadowsocks/address.rs:91-193 | decoding an encoding gives the address and `encoded_len`, for every tail, if and only if flow and scope are zero or the domain has 1 to 255 bytes |
| SsAddress.EncodeDecoded | src/outbound/shadowsocks/address.rs:120-184 | a successful decode consumed exactly the encoding of what it returned |
| SsAddress.DecodeAcceptsIff | src/outbound/shadowsocks/address.rs:120-184 | the decoder accepts exactly the inputs that start with a carried address |
| SsAddress.ErrorsAre | src/outbound/shadowsocks/address.rs:120-184 | which error is reported for which bytes |
| SsAddress.PrefixFree | src/outbound/shadowsocks/address.rs:91-193 | no carried address's encoding starts another's |
| SsAddress.TruncatedIsIncomplete | src/outbound/shadowsocks/address.rs:120-184 | every cut-off encoding is reported as empty or incomplete |
| SsCipher.EvpBytesToKey | src/outbound/shadowsocks/cipher.rs:256-274 | the loop yields the first bytes of the chain of digests, as many as asked |
| SsCipher.KeysAgree | src/outbound/shadowsocks/cipher.rs:256-274 | keys of one password agree: a shorter one starts a longer one |
| SsCipher.KeyBlocks | src/outbound/shadowsocks/cipher.rs:256-274 | each 16-byte block of the key digests the block before it and the password, the first the password alone |
| SsCipher.NonceIs | src/outbound/shadowsocks/cipher.rs:204-209 | the nonce is the counter's eight base-256 digits, the least significant first, and four zero bytes |
| SsCipher.NonceRepeatsIff | src/outbound/shadowsocks/cipher.rs:204-209 | two uses of a session share a nonce if and only if their numbers differ by a multiple of 2^64 |
| SsCipher.FrameOpens | src/outbound/shadowsocks/cipher.rs:187-201 | a frame's first 18 bytes open under its nonce to the payload's length, more significant byte first, the rest under the next nonce to the payload |
| SsCipher.Encryptor.EncryptPayload | src/outbound/shadowsocks/cipher.rs:187-201 | a length frame and a payload frame under the next two nonces, the length cut to 16 bits |
| SsCipher.Decryptor.Decrypt | src/outbound/shadowsocks/cipher.rs:225-242 | opens under the next nonce, taken also when opening fails, not taken for a text shorter than a tag |
| SsStream.Stream.constructor | src/outbound/shadowsocks/mod.rs:176-202 | the wire holds the salt and the target address as first frame; two nonces are used |
| SsStream.Stream.ReadChunk | src/outbound/shadowsocks/mod.rs:221-249 | salt once, length frame, limit check and payload are the specified step, with every error case |
| SsStream.Stream.Read | src/outbound/shadowsocks/mod.rs:347-372 | new state, count and caller's buffer are those of the specified read; bytes beyond the count are untouched |
| SsStream.Stream.WriteAll | src/outbound/shadowsocks/mod.rs:252-262 | appends the frames of the data's chunks and advances the nonces by two per chunk |
| SsStream.Chunks | src/outbound/shadowsocks/mod.rs:252-259 | chunks have 1 to 0x3FFF bytes, all but the last exactly 0x3FFF, and concatenate to the data |
| SsSession.ReadOutcome | src/outbound/shadowsocks/mod.rs:221-249 | what a read does on any bytes at all: end of stream, error, or the opened chunk as far as there is room |
| SsSession.FrameReadsBackIff | src/outbound/shadowsocks/mod.rs:221-249 | a frame reads back and leaves what follows if and only if its payload is at most 0x3FFF bytes |
| SsSession.ReadKeeps | src/outbound/shadowsocks/mod.rs:347-372 | a read of a matched pair never fails and returns as much of the leftover or next chunk as there is room for |
| SsSession.RunKeeps | src/outbound/shadowsocks/mod.rs:221-262 | after any run of writes and reads of any sizes: bytes read, then the read buffer, then the chunks in flight are the bytes written; both nonce counters are twice a count of chunks |
| SsSession.StreamRefinesBytes | src/outbound/shadowsocks/mod.rs:176-262 | the same from the handshake on, the address being the first bytes written |
| SsSession.HandshakeNamesTarget | src/outbound/shadowsocks/mod.rs:181-192 | the far end's first bytes decode to the target as soon as there are enough of them |
| SsSession.EmptyReadIffDrained | src/outbound/shadowsocks/mod.rs:347-372 | with room, a read returns nothing exactly when everything written was delivered |
| SsSession.AnyInputYieldsPrefix | src/outbound/shadowsocks/mod.rs:221-249 | whatever bytes follow the salt, cut, repeated, reordered or altered, as long as no stretch of them is a forgery: up to the first error the reader has returned a prefix of what was written |
| SsHonestWire.HonestWireIsAuthentic | src/outbound/shadowsocks/mod.rs:221-249 | what that asks holds together: a lawful cipher and a writer whose own wire holds no forgery, and whose byte the first read returns |
| Timestamps.TextIs | src/storage/config_store.rs:674-674 | a stamp's text is its decimal fields in the written form |
| Timestamps.GregorianYears | src/control/grant.rs:131-138 | the days before a year are those of the Gregorian calendar, in closed form |
| Timestamps.GregorianMonths | src/control/grant.rs:131-138 | the days before a month are those of the calendar's table |
| Timestamps.DateOrder | src/control/grant.rs:131-138 | valid dates are ordered by their day numbers, leap years included |
| Timestamps.TextBeforeIff | src/storage/config_store.rs:674-674 | text order is that of the first character in which two texts differ, a proper start coming first |
| Timestamps.TextAfterClockIff | src/storage/config_store.rs:674-674 | when the text of a stamp is after the clock's text: a later date, or the same date and the T form or a later time |
| Timestamps.FutureTextIsKept | src/storage/config_store.rs:670-694 | the SQL text comparison never drops a stamp in the future, in either form |
| Timestamps.CanonicalTextIsTimeOrder | src/storage/config_store.rs:670-694 | in the canonical form it is the comparison of times |
| Grants.BothFormsRead | src/control/grant.rs:131-138 | a stamp's text is parsed as the stamp, in both written forms |
| Grants.CacheMeaning | src/control/grant.rs:76-96 | keeping the maximum is enough: the cache says yes at a time exactly when some parsed row does |
| Grants.OrderIrrelevant | src/storage/config_store.rs:675-675 | the order in which the rows are listed does not matter |
| Grants.ConfigStore.InsertGrant | src/storage/config_store.rs:650-665 | appends an unrevoked row under a new id, or nothing when the device is unknown |
| Grants.ConfigStore.ListActiveGrants | src/storage/config_store.rs:670-694 | lists exactly the rows neither revoked nor textually expired |
| Grants.ConfigStore.RevokeGrant | src/storage/config_store.rs:729-736 | revokes the row with the id and reports whether one was unrevoked |
| Grants.GrantStore.Refresh | src/control/grant.rs:70-109 | replaces the cache by that of the current table, or keeps it when the query fails |
| Grants.GrantStore.HasActive | src/control/grant.rs:59-66 | true exactly when the cached expiry is after the clock |
| GrantRuns.ActiveIff | src/control/grant.rs:59-109 | with any texts in the table: the exact condition for a yes at any point of any run |
| GrantRuns.CacheIsExact | src/control/grant.rs:59-109 | with both forms mixed: yes if and only if the table at the last successful refresh had an unrevoked row for the pair whose text, in one form or the other, is that of a stamp after now |
| GrantRuns.SignedYearNeverCounts | src/control/grant.rs:131-138 | where the parser takes a signed year, the row is live and yet counts at no point of any run |
| GrantRuns.RevokeTakesEffect | src/storage/config_store.rs:729-736 | after a revoke, with any steps before and any between, from the next successful refresh on the pair is granted exactly when another live row of the table last seen covers it |
| GrantRuns.AddingNeverTakesAwayIff | src/control/grant.rs:70-109 | no sequence of inserts and refreshes takes a granted pair away, if and only if the table still holds a live row for it |
| GrantRuns.IdsStayInOrder | src/storage/config_store.rs:650-665 | row ids stay distinct in every run |
| Blocklist.LineMeans | src/control/blocklist.rs:77-96 | a line is an entry unless empty or a comment; which names it covers, said of its trimmed text |
| Blocklist.EntriesIs | src/control/blocklist.rs:60-111 | the count is the number of lines that are entries |
| Blocklist.CoversIffSomeLine | src/control/blocklist.rs:60-111 | a loaded list covers a name exactly when it did before or the text of one of the lines says so |
| Blocklist.BlocklistManager.LoadLines | src/control/blocklist.rs:60-111 | the line loop adds every entry to the chosen list, touches no other and counts the entries |
| Blocklist.BlocklistManager.AddGlobal | src/control/blocklist.rs:267-269 | adds the lower-cased name to the global names and touches no category |
| Blocklist.BlocklistManager.AddToCategory | src/control/blocklist.rs:272-277 | adds the lower-cased name to one category and touches no other list |
| Blocklist.MatchesSuffix | src/control/blocklist.rs:244-264 | the loop over parents finds exactly the names that fall under some suffix |
| Blocklist.BlocklistManager.IsBlockedGlobally | src/control/blocklist.rs:205-215 | true exactly when the global list covers the lower-cased name |
| Blocklist.BlocklistManager.IsInCategory | src/control/blocklist.rs:218-236 | true exactly when the category's list covers the lower-cased name |
| Blocklist.BlocklistManager.IsInAnyCategory | src/control/blocklist.rs:239-241 | true exactly when one of the categories does |
| Controller.NormalizedIs | src/control/controller.rs:150-151 | names are compared without their trailing dots and in lower case |
| Controller.DecisionIs | src/control/controller.rs:150-228 | each decision and reason has its own condition on the fields of the setup: global list, global category, first hard category, first grantable category and its grant, unknown device |
| Controller.AllowedIff | src/control/controller.rs:150-228 | when a request is allowed, said of the setup's fields without the order of the checks |
| Controller.DependsOnOwnFirstGrant | src/control/controller.rs:193-214 | a request hangs on the grant of at most one pair, the device's own id and its first grantable category listing the name; there Allow is that grant, and two grant caches decide alike exactly when they agree on it |
| Controller.ParentalController.CheckAccess | src/control/controller.rs:150-214 | the early returns are the specified decision |
| Controller.ParentalController.ApplyDefaultPolicy | src/control/controller.rs:217-228 | an unknown device is blocked only under block-all |
| ControllerRuns.HardBlockIsForever | src/control/controller.rs:186-191 | a name that a category in the hard list of a known non-adult device has stays blocked in every run of grants, refreshes, list additions and settings |
| ControllerRuns.AddToMeans | src/control/blocklist.rs:98-110 | an added entry covers its names in its own list and changes nothing elsewhere |
| ControllerRuns.DecidedByLiveGrant | src/control/controller.rs:193-210 | a request that hangs on a grant is allowed exactly when the table at the last successful refresh had a live row for the pair |
| ControllerRuns.AddingNeverBlocksIff | src/control/controller.rs:193-214 | adding grants and refreshing never turns Allow into Block, if and only if the request hangs on no grant or a live row for it is still in the table |
| ControllerRuns.RefreshBlocks | src/control/grant.rs:70-109 | a run (grant, refresh, revoke) after which the request is allowed and a mere refresh blocks it |
| ControllerRuns.RevokedUnlessCovered | src/control/controller.rs:193-210 | after a revoke, with any steps before and any between, from the next successful refresh on a request that hangs on the pair is allowed exactly when another live row covers it |

## Left out

- Sockets, tasks, relays and the packet-filter lookup: I/O. A read that would wait for the peer is a read of all that the peer will have sent.
- `poll_read` and `poll_write` of the stream: they only report that the asynchronous methods must be used.
- The internals of AEAD, HKDF and MD5, and the choice of the salt: functions with laws, and a parameter.
- FakeDns.Allocator.AllocateNewIp: the compare-and-swap loop has one turn here, because the lock is held; the swap is a step of its own in `FakeDnsConcurrent`.
- FakeDnsConcurrent.EveryScheduleKeeps: schedules of `allocate` and `lookup` only; `clear` beside other threads is not modelled.
- FakeDnsProgress.ReachableStuckIff: a reader that queues behind a waiting writer of its shard is not modelled; the first look-up of a call never waits.
- Non-ASCII text: case mapping that changes lengths, and Unicode white space.
- `matched_rule` of a result is represented by the rule itself; its text is that of `RuleText.ShowRule`.
- Failure to build the keyword automaton, and loading of the country database: construction always succeeds here.
- NetText.NetReadsBack: the accepted IPv4 spelling (one to three digits a part, leading zeros allowed) is that of the `ipnet` library, which is not part of this model.
- GrantRuns.CacheIsExact: rows whose text `chrono` accepts beside the two written forms (signs, missing zeros, extra spaces) are covered by `GrantRuns.ActiveIff` only, since the text comparison can drop them.
- Sub-second parts of the clock: every expiry is a whole second, so they cannot change a comparison.
- The `granted_at` and `note` columns, the ordering clause of the grant query, and cascading deletes.
- DnsWire.UpdateResponseTtl: the TTL field of an OPT record is overwritten like any other, as the code does; its meaning is not modelled.
- DnsHandler.Handler.HandleQuery: parsing by `simple_dns`, the parental and filter decisions and the upstream answer are inputs; `Gateway` computes the decisions.
- Gateway.AnswersLeadBack: each query and connection is one step of a history; their interleaving inside a step is the subject of `FakeDnsConcurrent` for the allocator alone.
- `load_rules`, `load_ruleset` and reading of blocklist files and directories: only the handling of lines.
- `DomainMatcher::match_domain`, `match_exact`, `match_suffix`, `match_keyword`: the engine does not use them.
- Building the address table of devices from their configured addresses: the table is a field.
- Proxy groups, configuration files, logging, schema migration and the other tables.
