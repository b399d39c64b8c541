/**
 The rule engine (src/rule/engine.rs): indexes that stand for the documented
 "rules are matched in their original order, first match wins". The engine is
 proved against its indexes; module `FirstMatch` compares them with the scan.
 */
module RuleEngine {
  import opened Ascii
  import opened DomainMatcher
  import opened DomainSuffix
  import opened KeywordScan
  import opened Numbers
  import opened RuleTypes
  import opened SuffixTrie

  datatype Request = Request(domain: Option<string>, ip: Option<IpAddr>)

  /** The country database: `lookup_country`, or always `None` without one. */
  type Geo = IpAddr -> Option<string>

  // ----- collecting rules by kind -----

  function PickDomain(k: RuleType): Option<string> {
    if k.Domain? then Some(k.domain) else None
  }
  function PickSuffix(k: RuleType): Option<string> {
    if k.DomainSuffix? then Some(k.suffix) else None
  }
  function PickKeyword(k: RuleType): Option<string> {
    if k.DomainKeyword? then Some(k.keyword) else None
  }
  function PickNet4(k: RuleType): Option<Net> {
    if k.IpCidr? then Some(k.net) else None
  }
  function PickNet6(k: RuleType): Option<Net> {
    if k.IpCidr6? then Some(k.net6) else None
  }
  function PickCountry(k: RuleType): Option<string> {
    if k.GeoIp? then Some(k.country) else None
  }

  /** The rules of one kind with their positions, in rule order. */
  function Collect<T>(rules: seq<Rule>, pick: RuleType -> Option<T>): seq<(T, nat)> {
    if rules == [] then []
    else
      var n := |rules| - 1;
      var earlier := Collect(rules[..n], pick);
      if pick(rules[n].kind).Some? then earlier + [(pick(rules[n].kind).value, n)] else earlier
  }

  lemma {:induction false} CollectMeaning<T>(rules: seq<Rule>, pick: RuleType -> Option<T>)
    ensures forall x, i: nat :: (x, i) in Collect(rules, pick) <==> i < |rules| && pick(rules[i].kind) == Some(x)
  {
    if rules == [] {
    } else {
      var n := |rules| - 1;
      CollectMeaning(rules[..n], pick);
      var earlier := Collect(rules[..n], pick);
      forall x, i: nat
        ensures (x, i) in Collect(rules, pick) <==> i < |rules| && pick(rules[i].kind) == Some(x)
      {
        assert (x, i) in Collect(rules, pick) <==>
               (x, i) in earlier || (pick(rules[n].kind) == Some(x) && i == n);
        assert i < n ==> rules[..n][i] == rules[i];
      }
    }
  }

  /** `index` holds the rules of one kind by key, and for each key the last one. */
  ghost predicate IndexMeans<K(!new)>(rules: seq<Rule>, pick: RuleType -> Option<string>, key: string -> K,
                                      index: map<K, nat>) {
    && (forall k :: k in index ==>
          && index[k] < |rules| && pick(rules[index[k]].kind).Some?
          && key(pick(rules[index[k]].kind).value) == k)
    && (forall i :: 0 <= i < |rules| && pick(rules[i].kind).Some? ==>
          var k := key(pick(rules[i].kind).value);
          k in index && i <= index[k])
  }

  lemma {:induction false} IndexMeansNext<K(!new)>(rules: seq<Rule>, pick: RuleType -> Option<string>,
                                                   key: string -> K, index: map<K, nat>)
    requires rules != [] && IndexMeans(rules[..|rules| - 1], pick, key, index)
    ensures var n := |rules| - 1;
            var last := pick(rules[n].kind);
            IndexMeans(rules, pick, key, if last.Some? then index[key(last.value) := n] else index)
  {
  }

  /** Indexing one kind of rule by a key keeps, for each key, the last rule. */
  lemma {:induction false} LastIndexMeaning<K(!new)>(rules: seq<Rule>, pick: RuleType -> Option<string>,
                                                     key: string -> K)
    ensures IndexMeans(rules, pick, key, LastIndex(Collect(rules, pick), key))
  {
    hide IndexMeans;
    if rules == [] {
      NothingIndexed(pick, key);
    } else {
      var n := |rules| - 1;
      LastIndexMeaning(rules[..n], pick, key);
      IndexMeansNext(rules, pick, key, LastIndex(Collect(rules[..n], pick), key));
      var earlier := Collect(rules[..n], pick);
      if pick(rules[n].kind).Some? {
        assert Collect(rules, pick)[..|earlier|] == earlier;
      }
    }
  }

  lemma NothingIndexed<K(!new)>(pick: RuleType -> Option<string>, key: string -> K)
    ensures IndexMeans([], pick, key, LastIndex(Collect([], pick), key))
  {
  }

  /** `country.to_uppercase()` to the positions of its rules, in order. */
  function ByCountry(pairs: Pairs): map<string, seq<nat>> {
    if pairs == [] then map[]
    else
      var (country, i) := pairs[|pairs| - 1];
      AddCountry(ByCountry(pairs[..|pairs| - 1]), country, i)
  }

  function AddCountry(m: map<string, seq<nat>>, country: string, i: nat): map<string, seq<nat>> {
    var code := ToUpper(country);
    m[code := (if code in m then m[code] else []) + [i]]
  }

  lemma {:induction false} ByCountryMeaning(pairs: Pairs, code: string, i: nat)
    ensures code in ByCountry(pairs) && i in ByCountry(pairs)[code]
            <==> exists c :: (c, i) in pairs && ToUpper(c) == code
  {
    if pairs == [] {
    } else {
      var n := |pairs| - 1;
      ByCountryMeaning(pairs[..n], code, i);
      var (country, at) := pairs[n];
      assert pairs == pairs[..n] + [pairs[n]];
      if code in ByCountry(pairs) && i in ByCountry(pairs)[code] {
        if i == at && ToUpper(country) == code {
          assert (country, i) in pairs;
        } else {
          var c :| (c, i) in pairs[..n] && ToUpper(c) == code;
          assert (c, i) in pairs;
        }
      }
      if c :| (c, i) in pairs && ToUpper(c) == code {
        assert (c, i) in pairs[..n] || (c, i) == pairs[n];
      }
    }
  }

  // ----- what the engine considers -----

  /** A rule without `no-resolve`, or a request without a domain. */
  predicate Eligible(rule: Rule, req: Request) {
    !rule.noResolve || req.domain.None?
  }

  /** A non-FINAL rule that really matches the request and may be used. */
  ghost predicate Matches(rule: Rule, geo: Geo, req: Request) {
    match rule.kind
    case Domain(p) => req.domain.Some? && ToLower(req.domain.value) == ToLower(p)
    case DomainSuffix(p) => req.domain.Some? && UnderSuffix(ToLower(req.domain.value), ToLower(p))
    case DomainKeyword(k) => req.domain.Some? && Occurs(ToLower(req.domain.value), k)
    case IpCidr(net) => req.ip.Some? && req.ip.value.V4? && Contains(net, 32, req.ip.value.v4) && Eligible(rule, req)
    case IpCidr6(net) => req.ip.Some? && req.ip.value.V6? && Contains(net, 128, req.ip.value.v6) && Eligible(rule, req)
    case GeoIp(c) => req.ip.Some? && geo(req.ip.value).Some? && ToUpper(geo(req.ip.value).value) == ToUpper(c)
                     && Eligible(rule, req)
    case Final => false
  }

  ghost predicate IsIpRule(rule: Rule) {
    rule.kind.IpCidr? || rule.kind.IpCidr6? || rule.kind.GeoIp?
  }

  /** The rules the engine's indexes yield for a request. */
  ghost predicate Candidate(rules: seq<Rule>, geo: Geo, req: Request, i: nat) {
    || (req.domain.Some? && Reports(Collect(rules, PickDomain), Collect(rules, PickSuffix),
                                    Collect(rules, PickKeyword), req.domain.value, i))
    || (i < |rules| && IsIpRule(rules[i]) && Matches(rules[i], geo, req))
  }

  /** The least index below `n` that satisfies `p`. */
  ghost function Least(n: nat, p: nat -> bool): (r: Option<nat>)
    ensures r.Some? ==> r.value < n && p(r.value) && forall j :: 0 <= j < r.value ==> !p(j)
    ensures r.None? ==> forall j :: 0 <= j < n ==> !p(j)
  {
    if n == 0 then None
    else
      var r := Least(n - 1, p);
      if r.Some? then r else if p(n - 1) then Some(n - 1) else None
  }

  /** Position of the last FINAL rule, or the length of the list. */
  function FinalIndex(rules: seq<Rule>): (r: nat)
    ensures r <= |rules|
  {
    LastFinal(rules, |rules|)
  }

  function LastFinal(rules: seq<Rule>, n: nat): (r: nat)
    requires n <= |rules|
    ensures (r < n && rules[r].kind.Final?) || r == |rules|
    ensures forall i :: 0 <= i < n && rules[i].kind.Final? ==> i <= r < |rules|
  {
    if n == 0 then |rules| else if rules[n - 1].kind.Final? then n - 1 else LastFinal(rules, n - 1)
  }

  function FinalPolicy(rules: seq<Rule>): Policy {
    var i := FinalIndex(rules);
    if i < |rules| then rules[i].policy else Direct
  }

  function Answer(rules: seq<Rule>, best: Option<nat>): MatchResult
    requires best.Some? ==> best.value < |rules|
  {
    if best.Some? then MatchResult(rules[best.value].policy, best.value, ByRule(rules[best.value]))
    else MatchResult(FinalPolicy(rules), FinalIndex(rules), ByFinal)
  }

  /** The engine's answer: the lowest candidate, else FINAL. */
  ghost function EngineResult(rules: seq<Rule>, geo: Geo, req: Request): MatchResult {
    Answer(rules, Least(|rules|, (i: nat) => Candidate(rules, geo, req, i)))
  }

  lemma EngineResultIs(rules: seq<Rule>, geo: Geo, req: Request, best: Option<nat>)
    requires best.None? ==> forall i :: 0 <= i < |rules| ==> !Candidate(rules, geo, req, i)
    requires best.Some? ==> best.value < |rules| && Candidate(rules, geo, req, best.value)
                            && forall i :: 0 <= i < best.value ==> !Candidate(rules, geo, req, i)
    ensures EngineResult(rules, geo, req) == Answer(rules, best)
  {
    var p := (i: nat) => Candidate(rules, geo, req, i);
    var least := Least(|rules|, p);
    if best.Some? {
      assert p(best.value);
    }
    if least.Some? {
      assert p(least.value);
    }
  }

  lemma NoEmptySuffixKey(rules: seq<Rule>)
    ensures [] !in SuffixIndex(Collect(rules, PickSuffix))
  {
    LastIndexMeaning(rules, PickSuffix, Path);
  }

  lemma {:induction false} ExactCandidateMatches(rules: seq<Rule>, geo: Geo, req: Request, i: nat)
    requires req.domain.Some?
    requires var index := ExactIndex(Collect(rules, PickDomain));
             ToLower(req.domain.value) in index && index[ToLower(req.domain.value)] == i
    ensures i < |rules| && Matches(rules[i], geo, req)
  {
    LastIndexMeaning(rules, PickDomain, ToLower);
    hide LastIndex, Collect;
  }

  lemma {:induction false} SuffixCandidateMatches(rules: seq<Rule>, geo: Geo, req: Request, i: nat)
    requires req.domain.Some?
    requires LongestMatch(SuffixIndex(Collect(rules, PickSuffix)), Path(req.domain.value)) == Some(i)
    ensures i < |rules| && Matches(rules[i], geo, req)
  {
    var d, index := req.domain.value, SuffixIndex(Collect(rules, PickSuffix));
    LastIndexMeaning(rules, PickSuffix, Path);
    NoEmptySuffixKey(rules);
    LongestMatchMeaning(index, Path(d));
    hide LastIndex, Collect, LongestMatch, Path;
    assert i < |rules| && PickSuffix(rules[i].kind).Some?;
    PathPrefixIsSuffix(d, rules[i].kind.suffix);
  }

  lemma {:induction false} KeywordCandidateMatches(rules: seq<Rule>, geo: Geo, req: Request, i: nat)
    requires req.domain.Some?
    requires KeywordReported(Collect(rules, PickKeyword), req.domain.value, i)
    ensures i < |rules| && Matches(rules[i], geo, req)
  {
    var d, keywords := req.domain.value, Collect(rules, PickKeyword);
    CollectMeaning(rules, PickKeyword);
    ScanSound(ToLower(d), Patterns(keywords), 0, false);
    hide Scan, AllHits, Collect;
    var h :| h in AllHits(ToLower(d), Patterns(keywords)) && h.pattern < |keywords| && keywords[h.pattern].1 == i;
    assert IsHit(ToLower(d), Patterns(keywords), h);
    assert keywords[h.pattern] in keywords;
    assert (keywords[h.pattern].0, i) in keywords;
    assert Occurs(ToLower(d), keywords[h.pattern].0);
  }

  /** Every candidate is a rule of the list that really matches. */
  lemma {:induction false} CandidateMatches(rules: seq<Rule>, geo: Geo, req: Request, i: nat)
    requires Candidate(rules, geo, req, i)
    ensures i < |rules| && Matches(rules[i], geo, req)
  {
    hide Matches, KeywordReported, LastIndex, Collect, LongestMatch, Path;
    if !(i < |rules| && IsIpRule(rules[i]) && Matches(rules[i], geo, req)) {
      if KeywordReported(Collect(rules, PickKeyword), req.domain.value, i) {
        KeywordCandidateMatches(rules, geo, req, i);
      } else if LongestMatch(SuffixIndex(Collect(rules, PickSuffix)), Path(req.domain.value)) == Some(i) {
        SuffixCandidateMatches(rules, geo, req, i);
      } else {
        ExactCandidateMatches(rules, geo, req, i);
      }
    }
  }

  /** For an IP rule, matching is matching without the option, plus eligibility. */
  lemma IpRuleMatches(rule: Rule, geo: Geo, req: Request)
    requires IsIpRule(rule)
    ensures Matches(rule, geo, req) <==>
            req.ip.Some? && Eligible(rule, req) && Matches(rule.(noResolve := false), geo, Request(None, req.ip))
  {
  }

  // ----- the engine -----

  lemma NothingCollected(rules: seq<Rule>)
    ensures Collect(rules[..0], PickDomain) == [] && Collect(rules[..0], PickSuffix) == []
    ensures Collect(rules[..0], PickKeyword) == [] && Collect(rules[..0], PickCountry) == []
    ensures Collect(rules[..0], PickNet4) == [] && Collect(rules[..0], PickNet6) == []
    ensures LastFinal(rules, 0) == |rules|
  {
  }

  lemma {:induction false} CollectNext<T>(rules: seq<Rule>, n: nat, pick: RuleType -> Option<T>)
    requires n < |rules|
    ensures Collect(rules[..n + 1], pick) == Collect(rules[..n], pick)
              + if pick(rules[n].kind).Some? then [(pick(rules[n].kind).value, n)] else []
  {
    assert rules[..n + 1][..n] == rules[..n];
  }

  lemma {:induction false} LastFinalNext(rules: seq<Rule>, n: nat)
    requires n < |rules|
    ensures LastFinal(rules, n + 1) == if rules[n].kind.Final? then n else LastFinal(rules, n)
  {
  }

  method GroupByCountry(countries: Pairs) returns (byCountry: map<string, seq<nat>>)
    ensures byCountry == ByCountry(countries)
  {
    byCountry := map[];
    for n := 0 to |countries|
      invariant byCountry == ByCountry(countries[..n])
    {
      assert countries[..n + 1][..n] == countries[..n];
      byCountry := AddCountry(byCountry, countries[n].0, countries[n].1);
    }
    assert countries[..|countries|] == countries;
  }

  method Minimum(xs: seq<nat>) returns (r: Option<nat>)
    ensures r.None? <==> xs == []
    ensures r.Some? ==> r.value in xs && forall x :: x in xs ==> r.value <= x
  {
    r := None;
    for i := 0 to |xs|
      invariant r.None? <==> i == 0
      invariant r.Some? ==> r.value in xs[..i] && forall x :: x in xs[..i] ==> r.value <= x
    {
      assert xs[..i + 1] == xs[..i] + [xs[i]];
      if r.None? || xs[i] < r.value {
        r := Some(xs[i]);
      }
    }
    assert xs[..|xs|] == xs;
  }

  class Engine {
    const rules: seq<Rule>
    const geo: Geo
    const domainMatcher: Matcher
    const ipv4Cidrs: seq<(Net, nat)>
    const ipv6Cidrs: seq<(Net, nat)>
    const countryRules: map<string, seq<nat>>
    const finalPolicy: Policy
    const finalIndex: nat

    ghost predicate Valid()
      reads domainMatcher, domainMatcher.suffixTrie, domainMatcher.suffixTrie.nodes.Values
    {
      && domainMatcher.Valid()
      && domainMatcher.exactPairs == Collect(rules, PickDomain)
      && domainMatcher.suffixPairs == Collect(rules, PickSuffix)
      && domainMatcher.keywordPairs == Collect(rules, PickKeyword)
      && ipv4Cidrs == Collect(rules, PickNet4)
      && ipv6Cidrs == Collect(rules, PickNet6)
      && countryRules == ByCountry(Collect(rules, PickCountry))
      && finalPolicy == FinalPolicy(rules) && finalIndex == FinalIndex(rules)
    }

    /** `new`: sorts the rules into the indexes, remembering their positions. */
    constructor (rules: seq<Rule>, geo: Geo)
      ensures Valid() && this.rules == rules && this.geo == geo
    {
      var exact: Pairs, suffix: Pairs, keywords: Pairs := [], [], [];
      var v4: seq<(Net, nat)>, v6: seq<(Net, nat)> := [], [];
      var countries: Pairs := [];
      var policy, final := Direct, |rules|;
      hide Collect, LastFinal, ByCountry;
      NothingCollected(rules);
      for n := 0 to |rules|
        invariant exact == Collect(rules[..n], PickDomain) && suffix == Collect(rules[..n], PickSuffix)
        invariant keywords == Collect(rules[..n], PickKeyword)
        invariant v4 == Collect(rules[..n], PickNet4) && v6 == Collect(rules[..n], PickNet6)
        invariant countries == Collect(rules[..n], PickCountry)
        invariant final == LastFinal(rules, n)
        invariant policy == if final < |rules| then rules[final].policy else Direct
      {
        CollectNext(rules, n, PickDomain);
        CollectNext(rules, n, PickSuffix);
        CollectNext(rules, n, PickKeyword);
        CollectNext(rules, n, PickNet4);
        CollectNext(rules, n, PickNet6);
        CollectNext(rules, n, PickCountry);
        LastFinalNext(rules, n);
        match rules[n].kind
        case Domain(d) => exact := exact + [(d, n)];
        case DomainSuffix(d) => suffix := suffix + [(d, n)];
        case DomainKeyword(k) => keywords := keywords + [(k, n)];
        case IpCidr(net) => v4 := v4 + [(net, n)];
        case IpCidr6(net) => v6 := v6 + [(net, n)];
        case GeoIp(c) => countries := countries + [(c, n)];
        case Final => policy, final := rules[n].policy, n;
      }
      assert rules[..|rules|] == rules;
      var byCountry := GroupByCountry(countries);
      this.rules, this.geo := rules, geo;
      ipv4Cidrs, ipv6Cidrs, countryRules := v4, v6, byCountry;
      finalPolicy, finalIndex := policy, final;
      domainMatcher := new Matcher(exact, suffix, keywords);
    }

    /** `match_all` of the IP matcher followed by `match_all` of the GeoIP matcher. */
    function IpMatches(ip: IpAddr): seq<nat> {
      var nets := if ip.V4? then NetMatches(ipv4Cidrs, 32, ip.v4) else NetMatches(ipv6Cidrs, 128, ip.v6);
      nets + CountryMatches(ip)
    }

    function CountryMatches(ip: IpAddr): seq<nat> {
      var country := geo(ip);
      if country.None? then []
      else
        var code := ToUpper(country.value);
        if code in countryRules then countryRules[code] else []
    }

    lemma NetsMeaning(ip: IpAddr, i: nat)
      requires Valid()
      ensures i in (if ip.V4? then NetMatches(ipv4Cidrs, 32, ip.v4) else NetMatches(ipv6Cidrs, 128, ip.v6)) <==>
              i < |rules| && (rules[i].kind.IpCidr? || rules[i].kind.IpCidr6?)
              && Matches(rules[i].(noResolve := false), geo, Request(None, Some(ip)))
    {
      hide Contains, NetMatches, Collect;
      if ip.V4? {
        NetMatchesMeaning(ipv4Cidrs, 32, ip.v4, i);
        CollectMeaning(rules, PickNet4);
      } else {
        NetMatchesMeaning(ipv6Cidrs, 128, ip.v6, i);
        CollectMeaning(rules, PickNet6);
      }
    }

    lemma CountriesMeaning(ip: IpAddr, i: nat)
      requires Valid()
      ensures i in CountryMatches(ip) <==>
              i < |rules| && rules[i].kind.GeoIp?
              && Matches(rules[i].(noResolve := false), geo, Request(None, Some(ip)))
    {
      if geo(ip).Some? {
        var code := ToUpper(geo(ip).value);
        ByCountryMeaning(Collect(rules, PickCountry), code, i);
        CollectMeaning(rules, PickCountry);
      }
    }

    lemma IpMatchesMeaning(ip: IpAddr, i: nat)
      requires Valid()
      ensures i in IpMatches(ip) <==>
              i < |rules| && IsIpRule(rules[i]) && Matches(rules[i].(noResolve := false), geo, Request(None, Some(ip)))
    {
      NetsMeaning(ip, i);
      CountriesMeaning(ip, i);
    }

    /** Appends the hits that may be used for the request. */
    method AddEligible(candidates: seq<nat>, hits: seq<nat>, domain: Option<string>) returns (r: seq<nat>)
      requires forall i :: i in hits ==> i < |rules|
      ensures forall i: nat :: i in r <==>
                i in candidates || (i in hits && i < |rules| && (!rules[i].noResolve || domain.None?))
    {
      r := candidates;
      for j := 0 to |hits|
        invariant forall i: nat :: i in r <==>
                    i in candidates || (i in hits[..j] && i < |rules| && (!rules[i].noResolve || domain.None?))
      {
        assert hits[..j + 1] == hits[..j] + [hits[j]];
        assert hits[j] in hits;
        if !rules[hits[j]].noResolve || domain.None? {
          r := r + [hits[j]];
        }
      }
      assert hits[..|hits|] == hits;
    }

    /** `match_request`: the lowest candidate of the indexes, else FINAL. */
    method MatchRequest(domain: Option<string>, ip: Option<IpAddr>) returns (r: MatchResult)
      requires Valid()
      ensures r == EngineResult(rules, geo, Request(domain, ip))
    {
      hide Collect, Matches, Reports, EngineResult, IpMatches, ByCountry;
      ghost var req := Request(domain, ip);
      var candidates: seq<nat> := [];
      if domain.Some? {
        candidates := domainMatcher.MatchAll(domain.value);
      }
      if ip.Some? {
        var hits := IpMatches(ip.value);
        forall i: nat ensures i in hits <==>
            i < |rules| && IsIpRule(rules[i]) && Matches(rules[i].(noResolve := false), geo, Request(None, ip))
        {
          IpMatchesMeaning(ip.value, i);
        }
        candidates := AddEligible(candidates, hits, domain);
      }
      forall i: nat ensures i in candidates <==> Candidate(rules, geo, req, i) {
        if i < |rules| && IsIpRule(rules[i]) {
          IpRuleMatches(rules[i], geo, req);
        }
      }
      forall i: nat | Candidate(rules, geo, req, i) ensures i < |rules| {
        CandidateMatches(rules, geo, req, i);
      }
      var best := Minimum(candidates);
      EngineResultIs(rules, geo, req, best);
      if best.Some? {
        assert Candidate(rules, geo, req, best.value);
        r := MatchResult(rules[best.value].policy, best.value, ByRule(rules[best.value]));
      } else {
        r := MatchResult(finalPolicy, finalIndex, ByFinal);
      }
    }

    /** `match_domain`: the request with a domain and no address. */
    method MatchDomain(domain: string) returns (r: MatchResult)
      requires Valid()
      ensures r == EngineResult(rules, geo, Request(Some(domain), None))
    {
      r := MatchRequest(Some(domain), None);
    }

    /** `match_ip`: the request with an address and no domain. */
    method MatchIp(ip: IpAddr) returns (r: MatchResult)
      requires Valid()
      ensures r == EngineResult(rules, geo, Request(None, Some(ip)))
    {
      r := MatchRequest(None, Some(ip));
    }

    /** `DnsFilterTrait::is_blocked` */
    method IsBlocked(domain: string) returns (blocked: bool)
      requires Valid()
      ensures blocked <==> EngineResult(rules, geo, Request(Some(TrimEndChar(domain, '.')), None)).policy == Reject
    {
      var r := MatchDomain(TrimEndChar(domain, '.'));
      blocked := r.policy == Reject;
    }
  }

  function NetMatches(nets: seq<(Net, nat)>, width: nat, ip: nat): seq<nat> {
    if nets == [] then []
    else
      var rest := NetMatches(nets[1..], width, ip);
      if Contains(nets[0].0, width, ip) then [nets[0].1] + rest else rest
  }

  lemma {:induction false} NetMatchesMeaning(nets: seq<(Net, nat)>, width: nat, ip: nat, i: nat)
    ensures i in NetMatches(nets, width, ip) <==> exists net :: (net, i) in nets && Contains(net, width, ip)
  {
    if nets == [] {
    } else {
      NetMatchesMeaning(nets[1..], width, ip, i);
      assert nets == [nets[0]] + nets[1..];
    }
  }
}
