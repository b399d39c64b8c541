/**
 The replies that come from the upstream resolver and from the cache, over whole
 histories of the gateway: what a query that goes upstream is answered with, how
 long later queries are answered with the same bytes, and that nothing else is
 ever served (src/dns/handler.rs:130-169).
 */
module GatewayReplies {
  import opened DnsCache
  import DnsHandler
  import opened DnsWire
  import opened Gateway
  import opened LeastRecent
  import opened Numbers

  type Key = DnsCache.Key

  function KeyAsked(a: Action): Key
    requires a.Ask? && a.parsed.Some?
  {
    KeyOf(a.parsed.value.domain, a.parsed.value.qtype)
  }

  /** Not refused, and not a query that FakeDNS answers. */
  ghost predicate GoesPast(c: Setting, s: Gateway.State, a: Action) {
    a.Ask? && !Refused(c, s.world, a) && !(c.dns.pool.Some? && a.parsed.value.qtype == 1)
  }

  predicate Unexpired(s: Gateway.State, k: Key, now: nat) {
    k in s.dns.cache.entries && now < s.dns.cache.entries[k].expiresAt
  }

  /** The bytes under the transaction ID of the query. */
  function UnderId(bytes: Bytes, query: Bytes): Bytes {
    if |bytes| >= 2 && |query| >= 2 then query[..2] + bytes[2..] else bytes
  }

  // ----- the cache inside the gateway -----

  /** What an action asks of the cache, at the time it runs. */
  ghost function OpsOn(c: Setting, s: Gateway.State, a: Action, now: nat): seq<Timed>
    requires DnsHandler.Consistent(c.dns, s.dns)
  {
    match a
    case Ask(_, _, p, u, at) =>
      if Refused(c, s.world, a) then []
      else
        var look := Timed(Get(p.value.domain, p.value.qtype), at);
        if Unexpired(s, KeyAsked(a), at) || !GoesPast(c, s, a) || u.None? || !u.value.parses then [look]
        else [look, Timed(Insert(p.value.domain, p.value.qtype, u.value.response, TtlOf(c, u.value)), at)]
    case DropReply(d, q) => [Timed(Forget(d, q), now)]
    case ClearReplies => [Timed(Clear, now)]
    case CleanUp(at) => [Timed(Cleanup, at)]
    case _ => []
  }

  /** The first answer's TTL, or the configured one. */
  function TtlOf(c: Setting, u: DnsHandler.Upstream): nat {
    if u.firstTtl.Some? then u.firstTtl.value else c.dns.cacheTtl % 0x1_0000_0000
  }

  lemma RunOfFew(c: Config, s: DnsCache.State, ops: seq<Timed>)
    requires |ops| <= 2
    ensures Run(c, s, ops) == match |ops|
            case 0 => s
            case 1 => Step(c, s, ops[0])
            case _ => Step(c, Step(c, s, ops[0]), ops[1])
  {
    if |ops| == 1 {
      assert ops[..0] == [];
    } else if |ops| == 2 {
      assert ops[..1] == [ops[0]] && [ops[0]][..0] == [];
      assert Run(c, s, [ops[0]]) == Step(c, s, ops[0]);
    }
  }

  lemma DoOnCache(c: Setting, s: Gateway.State, a: Action, now: nat)
    requires DnsHandler.Consistent(c.dns, s.dns)
    requires c.dns.pool.Some? ==> DnsHandler.NoAddressEntries(s.dns.cache)
    ensures |OpsOn(c, s, a, now)| <= 2
    ensures Do(c, s, a).0.dns.cache == Run(c.dns.cache, s.dns.cache, OpsOn(c, s, a, now))
  {
    hide Run, Put, Touch, LeastRecent.Remove, Clamp, Blocked, Filtered, Patched;
    RunOfFew(c.dns.cache, s.dns.cache, OpsOn(c, s, a, now));
  }

  /** The cache inside the gateway changes as it does alone, by the operations it is asked. */
  lemma {:induction false} CacheRunsAlone(c: Setting, s: Gateway.State, acts: seq<Action>, start: nat)
    requires DnsHandler.HandlerInv(c.dns, s.dns, start) && ClockOk(start, acts)
    ensures History(c, s, acts).dns.cache == Run(c.dns.cache, s.dns.cache, CacheOps(c, s, acts, start))
  {
    assert DnsHandler.Consistent(c.dns, s.dns);
    hide DnsHandler.HandlerInv, Do, OpsOn, DnsHandler.Consistent, Step;
    if acts == [] {
    } else {
      var front, a := acts[..|acts| - 1], acts[|acts| - 1];
      CacheRunsAlone(c, s, front, start);
      HistoryKeeps(c, s, front, start);
      NoAddressesCached(c, History(c, s, front), LastTime(start, front));
      DoOnCache(c, History(c, s, front), a, LastTime(start, front));
      RunSplits(c.dns.cache, s.dns.cache, CacheOps(c, s, front, start),
                OpsOn(c, History(c, s, front), a, LastTime(start, front)));
    }
  }

  lemma NoAddressesCached(c: Setting, s: Gateway.State, now: nat)
    requires DnsHandler.HandlerInv(c.dns, s.dns, now)
    ensures DnsHandler.Consistent(c.dns, s.dns) && Inv(c.dns.cache, s.dns.cache, now)
    ensures c.dns.pool.Some? ==> DnsHandler.NoAddressEntries(s.dns.cache)
  {
  }

  ghost function CacheOps(c: Setting, s: Gateway.State, acts: seq<Action>, start: nat): seq<Timed>
    requires DnsHandler.Consistent(c.dns, s.dns)
  {
    if acts == [] then []
    else
      var front := acts[..|acts| - 1];
      CacheOps(c, s, front, start) + OpsOn(c, History(c, s, front), acts[|acts| - 1], LastTime(start, front))
  }

  lemma {:induction false} RunSplits(c: Config, s: DnsCache.State, a: seq<Timed>, b: seq<Timed>)
    ensures Run(c, s, a + b) == Run(c, Run(c, s, a), b)
    decreases |b|
  {
    hide Step;
    if b == [] {
      assert a + b == a;
    } else {
      assert (a + b)[..|a + b| - 1] == a + b[..|b| - 1];
      RunSplits(c, s, a, b[..|b| - 1]);
    }
  }

  // ----- how long an entry is served -----

  /** The cache holds `e` for `k`, and only keys in `others` were used after it. */
  ghost predicate Keeps(s: DnsCache.State, k: Key, e: Entry, others: set<Key>) {
    k in s.entries && s.entries[k] == e && After(s.order, k) <= others
  }

  lemma OpKeeps(c: Config, s: DnsCache.State, k: Key, e: Entry, others: set<Key>, t: Timed, now: nat)
    requires Inv(c, s, now) && now <= t.at < e.expiresAt && Keeps(s, k, e, others)
    requires !t.op.Clear? && (t.op.Forget? || t.op.Insert? ==> KeyOf(t.op.domain, t.op.qtype) != k)
    requires |others + (KeyUsed(t.op) - {k})| < c.cap
    ensures Keeps(Step(c, s, t), k, e, others + (KeyUsed(t.op) - {k})) && Inv(c, Step(c, s, t), t.at)
  {
    hide Inv, After, Clamp;
    HeldStep(c, s, map[k := e], k, t, others, now);
    StepKeeps(c, s, s.entries, t, now);
    hide Step, KeyOf;
  }

  /** The keys other than `k` that unrefused queries ask for. */
  ghost function OthersAsked(c: Setting, s: Gateway.State, acts: seq<Action>, k: Key): set<Key>
    requires DnsHandler.Consistent(c.dns, s.dns)
  {
    if acts == [] then {}
    else
      var front, a := acts[..|acts| - 1], acts[|acts| - 1];
      OthersAsked(c, s, front, k) + KeyOfAsk(c, History(c, s, front), a) - {k}
  }

  ghost function KeyOfAsk(c: Setting, s: Gateway.State, a: Action): set<Key> {
    if a.Ask? && !Refused(c, s.world, a) then {KeyAsked(a)} else {}
  }

  /** The entry of `k` is neither dropped nor cleared. */
  predicate SparesReply(acts: seq<Action>, k: Key) {
    forall a :: a in acts ==> !a.ClearReplies? && !(a.DropReply? && KeyOf(a.domain, a.qtype) == k)
  }

  /** The operation leaves `k`'s entry alone and uses no key outside `all`. */
  predicate Harmless(t: Timed, k: Key, at: nat, all: set<Key>) {
    t.at == at && !t.op.Clear? && (t.op.Forget? || t.op.Insert? ==> KeyOf(t.op.domain, t.op.qtype) != k)
    && KeyUsed(t.op) - {k} <= all
  }

  lemma HarmlessKeeps(c: Config, s: DnsCache.State, k: Key, e: Entry, all: set<Key>, t: Timed, at: nat, now: nat)
    requires Inv(c, s, now) && now <= at < e.expiresAt && Keeps(s, k, e, all)
    requires Harmless(t, k, at, all) && |all| < c.cap
    ensures Keeps(Step(c, s, t), k, e, all) && Inv(c, Step(c, s, t), at)
  {
    assert all + (KeyUsed(t.op) - {k}) == all;
    hide Keeps, Inv, Step, KeyOf, KeyUsed;
    OpKeeps(c, s, k, e, all, t, now);
  }

  lemma FewKeep(c: Config, s: DnsCache.State, k: Key, e: Entry, all: set<Key>, ops: seq<Timed>, at: nat, now: nat)
    requires Inv(c, s, now) && now <= at < e.expiresAt && Keeps(s, k, e, all) && |all| < c.cap
    requires |ops| <= 2 && forall i :: 0 <= i < |ops| ==> Harmless(ops[i], k, at, all)
    ensures Keeps(Run(c, s, ops), k, e, all)
  {
    hide Keeps, Inv, Step, Harmless, Run;
    RunOfFew(c, s, ops);
    if |ops| >= 1 {
      HarmlessKeeps(c, s, k, e, all, ops[0], at, now);
      if |ops| == 2 {
        HarmlessKeeps(c, Step(c, s, ops[0]), k, e, all, ops[1], at, at);
      }
    }
  }

  /** While `k`'s entry is unexpired, no action but a drop or a clear touches it. */
  lemma OpsAreHarmless(c: Setting, s: Gateway.State, a: Action, k: Key, now: nat, all: set<Key>)
    requires DnsHandler.Consistent(c.dns, s.dns) && SparesReply([a], k) && Unexpired(s, k, TimeAfter(now, a))
    requires KeyOfAsk(c, s, a) - {k} <= all
    ensures var ops := OpsOn(c, s, a, now);
            |ops| <= 2 && forall i :: 0 <= i < |ops| ==> Harmless(ops[i], k, TimeAfter(now, a), all)
  {
    assert a in [a];
    hide Refused, DnsCache.Unexpired;
  }

  lemma ActKeeps(c: Setting, s: Gateway.State, a: Action, k: Key, e: Entry, others: set<Key>, now: nat)
    requires DnsHandler.HandlerInv(c.dns, s.dns, now) && now <= TimeAfter(now, a) < e.expiresAt
    requires Keeps(s.dns.cache, k, e, others) && SparesReply([a], k)
    requires k !in others && |others + KeyOfAsk(c, s, a) - {k}| < c.dns.cache.cap
    ensures Keeps(Do(c, s, a).0.dns.cache, k, e, others + KeyOfAsk(c, s, a) - {k})
  {
    var all := others + KeyOfAsk(c, s, a) - {k};
    assert others <= all;
    NoAddressesCached(c, s, now);
    OpsAreHarmless(c, s, a, k, now, all);
    DoOnCache(c, s, a, now);
    hide Do, Inv, After, DnsHandler.HandlerInv, Refused, GoesPast, KeyOf, Run, OpsOn, Harmless, KeyOfAsk;
    FewKeep(c.dns.cache, s.dns.cache, k, e, all, OpsOn(c, s, a, now), TimeAfter(now, a), now);
  }

  lemma {:induction false} EntryStays(c: Setting, s: Gateway.State, acts: seq<Action>, k: Key, e: Entry, now: nat)
    requires DnsHandler.HandlerInv(c.dns, s.dns, now) && ClockOk(now, acts) && LastTime(now, acts) < e.expiresAt
    requires Keeps(s.dns.cache, k, e, {}) && SparesReply(acts, k) && |OthersAsked(c, s, acts, k)| < c.dns.cache.cap
    ensures Keeps(History(c, s, acts).dns.cache, k, e, OthersAsked(c, s, acts, k))
  {
    assert DnsHandler.Consistent(c.dns, s.dns);
    hide DnsHandler.HandlerInv, Do, Keeps, DnsHandler.Consistent, KeyOfAsk, KeyOf;
    if acts == [] {
    } else {
      var front, a := acts[..|acts| - 1], acts[|acts| - 1];
      var u := History(c, s, front);
      assert SparesReply(front, k) && SparesReply([a], k) by {
        assert forall x :: x in front ==> x in acts;
        assert a in acts;
      }
      assert k !in OthersAsked(c, s, front, k) by {
        NotItself(c, s, front, k);
      }
      assert OthersAsked(c, s, front, k) <= OthersAsked(c, s, acts, k);
      SubsetSize(OthersAsked(c, s, front, k), OthersAsked(c, s, acts, k));
      EntryStays(c, s, front, k, e, now);
      HistoryKeeps(c, s, front, now);
      ActKeeps(c, u, a, k, e, OthersAsked(c, s, front, k), LastTime(now, front));
    }
  }

  lemma NotItself(c: Setting, s: Gateway.State, acts: seq<Action>, k: Key)
    requires DnsHandler.Consistent(c.dns, s.dns)
    ensures k !in OthersAsked(c, s, acts, k)
  {
  }

  // ----- what is answered -----

  /** A query that is not refused and not for FakeDNS. With an unexpired entry it is
      answered with the stored bytes, patched to the whole seconds left, under its
      own ID. Otherwise it is answered with exactly the upstream bytes, or fails
      without them; they are then cached if they parse, and nothing is if not. */
  lemma UpstreamOrCache(c: Setting, s: Gateway.State, a: Action)
    requires DnsHandler.Consistent(c.dns, s.dns) && GoesPast(c, s, a)
    ensures var (t, seen), k := Do(c, s, a), KeyAsked(a);
            && t.dns.fake == s.dns.fake && t.world == s.world
            && (Unexpired(s, k, a.now) ==>
                  var e := s.dns.cache.entries[k];
                  seen == Reply(Some(UnderId(Patched(e.response, SecondsLeft(e, a.now) % 0x1_0000_0000), a.query))))
            && (!Unexpired(s, k, a.now) ==>
                  seen == Reply(if a.upstream.None? then None else Some(a.upstream.value.response)))
            && (!Unexpired(s, k, a.now) && a.upstream.Some? && a.upstream.value.parses ==>
                  k in t.dns.cache.entries && t.dns.cache.entries[k] == Cached(c, a))
            && (!Unexpired(s, k, a.now) && (a.upstream.None? || !a.upstream.value.parses) ==>
                  k !in t.dns.cache.entries)
  {
    hide Clamp, Put, Touch, LeastRecent.Remove, Blocked, Filtered, Patched;
  }

  /** The whole seconds until the entry expires. */
  function SecondsLeft(e: Entry, now: nat): (left: nat)
    requires now <= e.expiresAt
    ensures left * 1_000_000_000 <= e.expiresAt - now < (left + 1) * 1_000_000_000
  {
    (e.expiresAt - now) / 1_000_000_000
  }

  /** The entry made of a query's upstream answer. */
  function Cached(c: Setting, a: Action): Entry
    requires a.Ask? && a.upstream.Some?
  {
    Entry(a.upstream.value.response,
          a.now + DnsCache.Clamp(c.dns.cache, TtlOf(c, a.upstream.value)) * 1_000_000_000)
  }

  lemma FreshIsLast(c: Setting, s: Gateway.State, a: Action, now: nat)
    requires DnsHandler.HandlerInv(c.dns, s.dns, now) && GoesPast(c, s, a) && now <= a.now
    requires !Unexpired(s, KeyAsked(a), a.now) && a.upstream.Some? && a.upstream.value.parses
    ensures Keeps(Do(c, s, a).0.dns.cache, KeyAsked(a), Cached(c, a), {})
  {
    var k, look := KeyAsked(a), Timed(Get(a.parsed.value.domain, a.parsed.value.qtype), a.now);
    UpstreamOrCache(c, s, a);
    NoAddressesCached(c, s, now);
    DoOnCache(c, s, a, now);
    RunOfFew(c.dns.cache, s.dns.cache, OpsOn(c, s, a, now));
    StepKeeps(c.dns.cache, s.dns.cache, s.dns.cache.entries, look, now);
    PutLast(c.dns.cache.cap, Step(c.dns.cache, s.dns.cache, look).order, k);
    hide Do, Clamp, Put, Touch, LeastRecent.Remove, Refused, GetStep, DnsHandler.HandlerInv, Run;
  }

  /** `after` follows the answer to `first`: the clock goes on, the entry is not
      dropped or cleared, and fewer than capacity other keys are asked for. */
  ghost predicate Undisturbed(c: Setting, s: Gateway.State, first: Action, after: seq<Action>, until: nat)
    requires DnsHandler.Consistent(c.dns, s.dns) && GoesPast(c, s, first)
  {
    && ClockOk(first.now, after) && LastTime(first.now, after) <= until
    && SparesReply(after, KeyAsked(first))
    && |OthersAsked(c, Do(c, s, first).0, after, KeyAsked(first))| < c.dns.cache.cap
  }

  lemma {:induction false} StillHeld(c: Setting, s: Gateway.State, first: Action, after: seq<Action>, until: nat,
                                     start: nat)
    requires DnsHandler.HandlerInv(c.dns, s.dns, start) && GoesPast(c, s, first) && start <= first.now
    requires !Unexpired(s, KeyAsked(first), first.now) && first.upstream.Some? && first.upstream.value.parses
    requires Undisturbed(c, s, first, after, until) && until < Cached(c, first).expiresAt
    ensures var u, k := History(c, Do(c, s, first).0, after), KeyAsked(first);
            && k in u.dns.cache.entries && u.dns.cache.entries[k] == Cached(c, first)
            && Cached(c, first).response == first.upstream.value.response
            && SecondsLeft(Cached(c, first), until) < 0x1_0000_0000
  {
    var k, e, t := KeyAsked(first), Cached(c, first), Do(c, s, first).0;
    assert e.response == first.upstream.value.response;
    hide Do, DnsHandler.HandlerInv, OthersAsked, SparesReply, GoesPast, History, Cached, KeyAsked;
    FreshIsLast(c, s, first, start);
    DoKeeps(c, s, first, start);
    EntryStays(c, t, after, k, e, first.now);
    HistoryKeeps(c, t, after, first.now);
    LeftFits(c, History(c, t, after), k, until, LastTime(first.now, after));
  }

  lemma HitIsServed(c: Setting, s: Gateway.State, a: Action, e: Entry)
    requires DnsHandler.Consistent(c.dns, s.dns) && GoesPast(c, s, a)
    requires KeyAsked(a) in s.dns.cache.entries && s.dns.cache.entries[KeyAsked(a)] == e
    requires a.now < e.expiresAt && SecondsLeft(e, a.now) < 0x1_0000_0000
    ensures Do(c, s, a).1 == Reply(Some(UnderId(Patched(e.response, SecondsLeft(e, a.now)), a.query)))
  {
    hide Do, GoesPast, Patched, KeyAsked, SecondsLeft;
    UpstreamOrCache(c, s, a);
  }

  /** How long an answer is served. At any point of any history an upstream answer
      that parses, got on a miss, answers every later query for the same name and
      type that is not refused, until its TTL has run out: with the same bytes,
      patched to the whole seconds left and under the later query's ID. Between the
      two, fewer than capacity other keys are asked for, and the entry is not
      dropped or cleared. */
  lemma {:induction false} ServedUntilExpiry(c: Setting, s: Gateway.State, first: Action, after: seq<Action>,
                                             again: Action, start: nat)
    requires DnsHandler.HandlerInv(c.dns, s.dns, start) && GoesPast(c, s, first) && start <= first.now
    requires !Unexpired(s, KeyAsked(first), first.now) && first.upstream.Some? && first.upstream.value.parses
    requires GoesPast(c, History(c, Do(c, s, first).0, after), again) && KeyAsked(again) == KeyAsked(first)
    requires Undisturbed(c, s, first, after, again.now) && again.now < Cached(c, first).expiresAt
    ensures var left := SecondsLeft(Cached(c, first), again.now);
            left < 0x1_0000_0000
            && Do(c, History(c, Do(c, s, first).0, after), again).1
               == Reply(Some(UnderId(Patched(first.upstream.value.response, left), again.query)))
  {
    assert again.Ask? && again.parsed.Some?;
    assert DnsHandler.Consistent(c.dns, s.dns);
    hide *;
    StillHeld(c, s, first, after, again.now, start);
    HitIsServed(c, History(c, Do(c, s, first).0, after), again, Cached(c, first));
  }

  /** The seconds left fit the field. */
  lemma LeftFits(c: Setting, s: Gateway.State, k: Key, at: nat, now: nat)
    requires DnsHandler.HandlerInv(c.dns, s.dns, now) && now <= at && Unexpired(s, k, at)
    ensures SecondsLeft(s.dns.cache.entries[k], at) < 0x1_0000_0000
  {
    NoAddressesCached(c, s, now);
    QuotientBound(s.dns.cache.entries[k].expiresAt - at, c.dns.cache.maxTtl, 1_000_000_000);
  }

  predicate AsksFor(a: Action, k: Key) {
    a.Ask? && a.parsed.Some? && KeyAsked(a) == k
  }

  /** Only a query for `k` makes or changes an entry of `k`. */
  lemma DoOther(c: Setting, s: Gateway.State, a: Action, k: Key)
    requires DnsHandler.Consistent(c.dns, s.dns) && !AsksFor(a, k)
    ensures var t := Do(c, s, a).0;
            k in t.dns.cache.entries ==> k in s.dns.cache.entries && t.dns.cache.entries[k] == s.dns.cache.entries[k]
  {
    hide Clamp, Put, Touch, LeastRecent.Remove, Blocked, Filtered, Patched;
  }

  lemma {:induction false} HistoryOther(c: Setting, s: Gateway.State, acts: seq<Action>, k: Key)
    requires DnsHandler.Consistent(c.dns, s.dns) && forall a :: a in acts ==> !AsksFor(a, k)
    ensures var t := History(c, s, acts);
            k in t.dns.cache.entries ==> k in s.dns.cache.entries && t.dns.cache.entries[k] == s.dns.cache.entries[k]
  {
    hide Do, AsksFor, DnsHandler.Consistent;
    if acts == [] {
    } else {
      var front, a := acts[..|acts| - 1], acts[|acts| - 1];
      assert a in acts;
      HistoryOther(c, s, front, k);
      DoOther(c, History(c, s, front), a, k);
    }
  }

  /** Once its TTL has run out, the next query for the same name and type goes
      upstream again, whatever else happened. */
  lemma {:induction false} AskedAnewAfterExpiry(c: Setting, s: Gateway.State, first: Action, after: seq<Action>,
                                                again: Action)
    requires DnsHandler.Consistent(c.dns, s.dns) && GoesPast(c, s, first)
    requires !Unexpired(s, KeyAsked(first), first.now) && first.upstream.Some? && first.upstream.value.parses
    requires forall a :: a in after ==> !AsksFor(a, KeyAsked(first))
    requires GoesPast(c, History(c, Do(c, s, first).0, after), again) && KeyAsked(again) == KeyAsked(first)
    requires again.now >= Cached(c, first).expiresAt
    ensures Do(c, History(c, Do(c, s, first).0, after), again).1
            == Reply(if again.upstream.None? then None else Some(again.upstream.value.response))
  {
    UpstreamOrCache(c, s, first);
    HistoryOther(c, Do(c, s, first).0, after, KeyAsked(first));
    hide Do, GoesPast, History;
    UpstreamOrCache(c, History(c, Do(c, s, first).0, after), again);
  }

  // ----- nothing else is served -----

  /** Some query of the history for `k` had this upstream answer, and it parsed. */
  ghost predicate Answered(acts: seq<Action>, k: Key, response: Bytes) {
    exists a :: a in acts && AsksFor(a, k) && a.upstream.Some? && a.upstream.value.parses
                && a.upstream.value.response == response
  }

  lemma {:induction false} CachedWasAnswered(c: Setting, s: Gateway.State, acts: seq<Action>, k: Key)
    requires DnsHandler.Consistent(c.dns, s.dns) && s.dns.cache.entries == map[]
    ensures var t := History(c, s, acts);
            k in t.dns.cache.entries ==> Answered(acts, k, t.dns.cache.entries[k].response)
  {
    hide Do, AsksFor, DnsHandler.Consistent;
    if acts == [] {
    } else {
      var front, a := acts[..|acts| - 1], acts[|acts| - 1];
      var u := History(c, s, front);
      CachedWasAnswered(c, s, front, k);
      assert a in acts && forall x :: x in front ==> x in acts;
      if AsksFor(a, k) {
        DoSame(c, u, a, k);
      } else {
        DoOther(c, u, a, k);
      }
    }
  }

  lemma DoSame(c: Setting, s: Gateway.State, a: Action, k: Key)
    requires DnsHandler.Consistent(c.dns, s.dns) && AsksFor(a, k)
    ensures var t := Do(c, s, a).0;
            k in t.dns.cache.entries ==>
              (k in s.dns.cache.entries && t.dns.cache.entries[k] == s.dns.cache.entries[k])
              || (a.upstream.Some? && a.upstream.value.parses
                  && t.dns.cache.entries[k].response == a.upstream.value.response)
  {
    hide Clamp, Put, Touch, LeastRecent.Remove, Blocked, Filtered, Patched;
  }

  /** With a cache that starts empty: at any point of any history, what a query past
      refusals and FakeDNS is answered with is its own upstream answer, or one that
      an earlier query for the same name and type had and that parsed, patched and
      under the query's ID. A response that does not parse is never served again. */
  lemma {:induction false} RepliesAreAnswers(c: Setting, s: Gateway.State, acts: seq<Action>, a: Action)
    requires DnsHandler.Consistent(c.dns, s.dns) && s.dns.cache.entries == map[]
    requires GoesPast(c, History(c, s, acts), a)
    ensures var reply := Do(c, History(c, s, acts), a).1;
            || reply == Reply(if a.upstream.None? then None else Some(a.upstream.value.response))
            || exists response: Bytes, left: nat :: left < 0x1_0000_0000 && Answered(acts, KeyAsked(a), response)
                 && reply == Reply(Some(UnderId(Patched(response, left), a.query)))
  {
    var t, k := History(c, s, acts), KeyAsked(a);
    CachedWasAnswered(c, s, acts, k);
    hide Do, GoesPast, History, Answered, Patched;
    UpstreamOrCache(c, t, a);
    if Unexpired(t, k, a.now) {
      var left := SecondsLeft(t.dns.cache.entries[k], a.now) % 0x1_0000_0000;
      assert Answered(acts, k, t.dns.cache.entries[k].response);
    }
  }
}
