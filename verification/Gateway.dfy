/**
 The gateway as a whole: clients ask the DNS handler for names and open
 connections to the addresses they got, through one FakeDNS allocator, one rule
 engine and one parental controller (src/main.rs:286-370), while the parent edits
 grants and lists, names are cleared and the cache is tidied. What the parental
 check and the filter say of a query is computed here from the controller's
 world and the rules, at the moment of the query.
 */
module Gateway {
  import opened Ascii
  import opened Controller
  import ControllerRuns
  import DnsCache
  import opened DnsHandler
  import opened DnsWire
  import FakeDns
  import FakeDnsRuns
  import opened Grants
  import LeastRecent
  import opened Numbers
  import opened ProxyHandler
  import opened RuleEngine
  import opened RuleMeaning
  import opened RuleTypes

  datatype Setting = Setting(dns: HandlerConfig, parental: bool, chrono: Chrono, rules: seq<Rule>, geo: Geo)

  datatype State = State(dns: HandlerState, world: ControllerRuns.World)

  datatype Action =
    | Ask(client: IpAddr, query: Bytes, parsed: Option<Parsed>, upstream: Option<Upstream>, now: nat)
    | Connect(client: IpAddr, to: IpAddr)
    | Parent(event: ControllerRuns.Event)
    | ClearNames
    | DropReply(domain: string, qtype: nat)
    | ClearReplies
    | CleanUp(now: nat)

  /** What the outside sees of an action. */
  datatype Seen = Reply(bytes: Option<Bytes>) | Opened(outcome: Outcome) | Nothing

  /** The parental check on a name, for a client. */
  ghost predicate Blocked(c: Setting, w: ControllerRuns.World, client: IpAddr, name: string) {
    c.parental && ControllerRuns.DecisionIn(w, client, name).Block?
  }

  /** `DnsFilterTrait::is_blocked` */
  ghost predicate Filtered(c: Setting, name: string) {
    EngineResult(c.rules, c.geo, Request(Some(TrimEndChar(name, '.')), None)).policy == Reject
  }

  /** The query as the handler takes it, with the answers of both checks. */
  ghost function Posed(c: Setting, w: ControllerRuns.World, a: Action): Input
    requires a.Ask?
  {
    Input(a.query, a.parsed,
          a.parsed.Some? && Blocked(c, w, a.client, a.parsed.value.domain),
          a.parsed.Some? && Filtered(c, a.parsed.value.domain),
          a.upstream, a.now)
  }

  ghost predicate Refused(c: Setting, w: ControllerRuns.World, a: Action)
    requires a.Ask?
  {
    a.parsed.None? || Blocked(c, w, a.client, a.parsed.value.domain) || Filtered(c, a.parsed.value.domain)
  }

  /** The reply to a query that is refused. */
  function RefusalOf(a: Action): Option<Bytes>
    requires a.Ask?
  {
    if a.parsed.None? then ErrorResponse(a.query) else Refuse(a.query, a.parsed.value)
  }

  /** The name that a connection to the address would be taken to be for. */
  function NameBehind(c: Setting, s: State, to: IpAddr): Option<string>
    requires Consistent(c.dns, s.dns)
  {
    ResolveStep(c.dns.pool, s.dns.fake, to).1
  }

  ghost function Do(c: Setting, s: State, a: Action): (r: (State, Seen))
    requires Consistent(c.dns, s.dns)
    ensures Consistent(c.dns, r.0.dns)
  {
    match a
    case Ask(_, _, _, _, _) =>
      var (dns, reply) := Handle(c.dns, s.dns, Posed(c, s.world, a));
      (s.(dns := dns), Reply(reply))
    case Connect(client, to) =>
      var (fake, name) := ResolveStep(c.dns.pool, s.dns.fake, to);
      var blocked := name.Some? && Blocked(c, s.world, client, name.value);
      var outcome := if blocked then Dropped else Routed(name, EngineResult(c.rules, c.geo, Request(name, Some(to))));
      (s.(dns := s.dns.(fake := fake)), Opened(outcome))
    case Parent(e) => (s.(world := ControllerRuns.Happen(c.chrono, s.world, e)), Nothing)
    case ClearNames =>
      var fake := if s.dns.fake.None? then None else Some(FakeDns.ClearStep(s.dns.fake.value));
      (s.(dns := s.dns.(fake := fake)), Nothing)
    case DropReply(d, q) => (s.(dns := s.dns.(cache := DnsCache.Pop(s.dns.cache, DnsCache.KeyOf(d, q)))), Nothing)
    case ClearReplies => (s.(dns := s.dns.(cache := DnsCache.State(map[], []))), Nothing)
    case CleanUp(now) => (s.(dns := s.dns.(cache := DnsCache.CleanupStep(s.dns.cache, now))), Nothing)
  }

  /** The state after a sequence of actions. */
  ghost function History(c: Setting, s: State, acts: seq<Action>): (r: State)
    requires Consistent(c.dns, s.dns)
    ensures Consistent(c.dns, r.dns)
  {
    if acts == [] then s else Do(c, History(c, s, acts[..|acts| - 1]), acts[|acts| - 1]).0
  }

  /** What is seen of each action. */
  ghost function Sights(c: Setting, s: State, acts: seq<Action>): (r: seq<Seen>)
    requires Consistent(c.dns, s.dns)
    ensures |r| == |acts|
  {
    if acts == [] then []
    else
      var front := acts[..|acts| - 1];
      Sights(c, s, front) + [Do(c, History(c, s, front), acts[|acts| - 1]).1]
  }

  lemma {:induction false} Split(c: Setting, s: State, a: seq<Action>, b: seq<Action>)
    requires Consistent(c.dns, s.dns)
    ensures History(c, s, a + b) == History(c, History(c, s, a), b)
    ensures Sights(c, s, a + b) == Sights(c, s, a) + Sights(c, History(c, s, a), b)
    decreases |b|
  {
    hide Do, Consistent;
    if b == [] {
      assert a + b == a;
    } else {
      var front := b[..|b| - 1];
      assert (a + b)[..|a + b| - 1] == a + front;
      Split(c, s, a, front);
    }
  }

  lemma Alone(c: Setting, s: State, a: Action)
    requires Consistent(c.dns, s.dns)
    ensures History(c, s, [a]) == Do(c, s, a).0 && Sights(c, s, [a]) == [Do(c, s, a).1]
  {
    hide Do;
    assert [a][..0] == [];
    assert History(c, s, []) == s;
  }

  // ----- the clock and the invariant -----

  function TimeAfter(now: nat, a: Action): nat {
    if a.Ask? || a.CleanUp? then a.now else now
  }

  function LastTime(start: nat, acts: seq<Action>): nat {
    if acts == [] then start else TimeAfter(LastTime(start, acts[..|acts| - 1]), acts[|acts| - 1])
  }

  /** The clock does not go back. */
  predicate ClockOk(start: nat, acts: seq<Action>) {
    acts == []
    || (var front := acts[..|acts| - 1]; ClockOk(start, front) && LastTime(start, front) <= LastTime(start, acts))
  }

  lemma {:induction false} ClockSplits(start: nat, a: seq<Action>, b: seq<Action>)
    ensures LastTime(start, a + b) == LastTime(LastTime(start, a), b)
    ensures ClockOk(start, a + b) <==> ClockOk(start, a) && ClockOk(LastTime(start, a), b)
    decreases |b|
  {
    if b == [] {
      assert a + b == a;
    } else {
      var front := b[..|b| - 1];
      assert (a + b)[..|a + b| - 1] == a + front;
      ClockSplits(start, a, front);
    }
  }

  lemma ConnectKeeps(c: HandlerConfig, s: HandlerState, to: IpAddr, now: nat)
    requires HandlerInv(c, s, now)
    ensures HandlerInv(c, s.(fake := ResolveStep(c.pool, s.fake, to).0), now)
  {
    hide FakeDns.Inv, DnsCache.Inv, FakeDns.LookupStep;
    if to.V4? && c.pool.Some? {
      FakeDns.LookupKeeps(c.pool.value, s.fake.value, to.v4);
    }
  }

  lemma TidyKeeps(c: HandlerConfig, s: HandlerState, k: DnsCache.Key, now: nat)
    requires HandlerInv(c, s, now)
    ensures HandlerInv(c, s.(cache := DnsCache.Pop(s.cache, k)), now)
    ensures HandlerInv(c, s.(cache := DnsCache.State(map[], [])), now)
    ensures HandlerInv(c, s.(cache := DnsCache.CleanupStep(s.cache, now)), now)
  {
    hide FakeDns.Inv;
    DnsCache.PopKeeps(c.cache, s.cache, k, now);
    DnsCache.CleanupKeeps(c.cache, s.cache, now);
    hide DnsCache.KeepOrder, LeastRecent.Remove;
  }

  lemma InvAtLaterTime(c: HandlerConfig, s: HandlerState, now: nat, later: nat)
    requires HandlerInv(c, s, now) && now <= later
    ensures HandlerInv(c, s, later)
  {
    hide FakeDns.Inv;
    InvLater(c.cache, s.cache, now, later);
  }

  lemma DoKeeps(c: Setting, s: State, a: Action, now: nat)
    requires HandlerInv(c.dns, s.dns, now) && now <= TimeAfter(now, a)
    ensures HandlerInv(c.dns, Do(c, s, a).0.dns, TimeAfter(now, a))
  {
    InvAtLaterTime(c.dns, s.dns, now, TimeAfter(now, a));
    hide HandlerInv, Handle, ResolveStep, Posed, EngineResult, Blocked, FakeDns.Inv;
    match a
    case Ask(_, _, _, _, _) => HandleKeeps(c.dns, s.dns, Posed(c, s.world, a), now);
    case Connect(_, to) => ConnectKeeps(c.dns, s.dns, to, now);
    case Parent(_) =>
    case ClearNames => ClearKeeps(c.dns, s.dns, now);
    case DropReply(d, q) => TidyKeeps(c.dns, s.dns, DnsCache.KeyOf(d, q), now);
    case ClearReplies => TidyKeeps(c.dns, s.dns, DnsCache.KeyOf("", 0), now);
    case CleanUp(later) => TidyKeeps(c.dns, s.dns, DnsCache.KeyOf("", 0), later);
  }

  lemma ClearKeeps(c: HandlerConfig, s: HandlerState, now: nat)
    requires HandlerInv(c, s, now)
    ensures s.fake.Some? ==> HandlerInv(c, s.(fake := Some(FakeDns.ClearStep(s.fake.value))), now)
    ensures s.fake.None? ==> s.(fake := None) == s
  {
    hide DnsCache.Inv;
  }

  /** In every history, cache and allocator keep their invariants, and with
      FakeDNS on no A entry ever enters the cache. */
  lemma {:induction false} HistoryKeeps(c: Setting, s: State, acts: seq<Action>, start: nat)
    requires HandlerInv(c.dns, s.dns, start) && ClockOk(start, acts)
    ensures HandlerInv(c.dns, History(c, s, acts).dns, LastTime(start, acts))
  {
    assert Consistent(c.dns, s.dns);
    hide HandlerInv, Do;
    if acts == [] {
    } else {
      var front := acts[..|acts| - 1];
      HistoryKeeps(c, s, front, start);
      DoKeeps(c, History(c, s, front), acts[|acts| - 1], LastTime(start, front));
    }
  }

  // ----- connections -----

  /** What becomes of a connection. Its name is what the allocator has for the
      address, if that is an IPv4 address of the pool. It is dropped if and only if
      it has a name that the controller blocks for the client. Otherwise a rule that
      answers fits name and address together, an IP rule that fits and has no
      fitting rule before it is the answer, and FINAL answers if and only if no
      rule fits both. */
  lemma ConnectionMeaning(c: Setting, s: State, client: IpAddr, to: IpAddr)
    requires Consistent(c.dns, s.dns)
    ensures var seen, name := Do(c, s, Connect(client, to)).1, NameBehind(c, s, to);
            var req := Request(name, Some(to));
            && seen.Opened?
            && (name.Some? ==>
                  && to.V4? && c.dns.pool.Some? && c.dns.pool.value.start <= to.v4 <= c.dns.pool.value.end
                  && to.v4 in s.dns.fake.value.ipToDomain && name.value == s.dns.fake.value.ipToDomain[to.v4])
            && (seen.outcome.Dropped? <==> name.Some? && Blocked(c, s.world, client, name.value))
            && (seen.outcome.Routed? ==>
                  var r := seen.outcome.route;
                  && seen.outcome.name == name
                  && (r.matched.ByRule? ==>
                        && r.ruleIndex < |c.rules| && r.matched.rule == c.rules[r.ruleIndex]
                        && r.policy == c.rules[r.ruleIndex].policy && Fits(c.rules[r.ruleIndex], c.geo, req))
                  && (forall i :: 0 <= i < |c.rules| && IsIpRule(c.rules[i]) && Fits(c.rules[i], c.geo, req)
                                  && (forall j :: 0 <= j < i ==> !Fits(c.rules[j], c.geo, req)) ==>
                        r.matched.ByRule? && r.ruleIndex == i)
                  && (r.matched.ByFinal? <==> forall i :: 0 <= i < |c.rules| ==> !Fits(c.rules[i], c.geo, req))
                  && (r.matched.ByFinal? ==> IsFinalAnswer(c.rules, r)))
  {
    AnswerMeaning(c.rules, c.geo, Request(NameBehind(c, s, to), Some(to)));
    hide EngineResult, Fits, IsFinalAnswer, Blocked;
  }

  // ----- refused queries -----

  lemma RefusedAlone(c: Setting, s: State, a: Action)
    requires Consistent(c.dns, s.dns) && a.Ask? && Refused(c, s.world, a)
    ensures Do(c, s, a) == (s, Reply(RefusalOf(a)))
  {
    hide Blocked, Filtered, ErrorResponse, Refuse;
  }

  /** A refused query leaves no trace. Taken out of any history in which, where it
      stands, the controller or the rules refuse it, it changes neither the state
      afterwards nor what is seen of any other action; and its own reply is the
      same whatever came before it. */
  lemma {:induction false} RefusedLeavesNoTrace(c: Setting, s: State, before: seq<Action>, a: Action,
                                                after: seq<Action>)
    requires Consistent(c.dns, s.dns) && a.Ask? && Refused(c, History(c, s, before).world, a)
    ensures History(c, s, before + [a] + after) == History(c, s, before + after)
    ensures var others := Sights(c, s, before + after);
            Sights(c, s, before + [a] + after) == others[..|before|] + [Reply(RefusalOf(a))] + others[|before|..]
  {
    var t := History(c, s, before);
    RefusedAlone(c, t, a);
    hide Do, Refused, RefusalOf, Consistent;
    Alone(c, t, a);
    Split(c, s, before + [a], after);
    Split(c, s, before, [a]);
    Split(c, s, before, after);
    var others := Sights(c, s, before + after);
    assert others[..|before|] == Sights(c, s, before) && others[|before|..] == Sights(c, t, after);
  }

  // ----- one name, three spellings -----

  lemma {:induction false} TrimLower(s: string)
    ensures TrimEndChar(ToLower(s), '.') == ToLower(TrimEndChar(s, '.'))
  {
    if s != [] && s[|s| - 1] == '.' {
      TrimLower(s[..|s| - 1]);
      assert ToLower(s)[..|s| - 1] == ToLower(s[..|s| - 1]);
    } else {
      assert s != [] ==> (ToLower(s)[|s| - 1] == '.' <==> s[|s| - 1] == '.');
    }
  }

  /** The allocator and the controller normalise alike, and once is enough. */
  lemma OneForm(name: string)
    ensures FakeDns.Normalize(name) == Normalized(name) == Normalized(Normalized(name))
    ensures ToLower(TrimEndChar(name, '.')) == ToLower(Normalized(name))
  {
    TrimLower(name);
    ToLowerIdempotent(TrimEndChar(name, '.'));
    TrimLower(TrimEndChar(name, '.'));
    assert TrimEndChar(Normalized(name), '.') == Normalized(name);
  }

  /** Whoever hears a name back from the allocator is checked as for the name asked. */
  lemma BlockedAsAsked(c: Setting, w: ControllerRuns.World, client: IpAddr, name: string)
    ensures Blocked(c, w, client, FakeDns.Normalize(name)) <==> Blocked(c, w, client, name)
  {
    OneForm(name);
    hide Normalized;
  }

  lemma FilteredAsAsked(c: Setting, name: string)
    ensures Filtered(c, name)
            <==> EngineResult(c.rules, c.geo, Request(Some(FakeDns.Normalize(name)), None)).policy == Reject
  {
    OneForm(name);
    SpellingIrrelevant(c.rules, c.geo, TrimEndChar(name, '.'), FakeDns.Normalize(name), None);
    hide EngineResult;
  }

  // ----- a hard block holds at both doors -----

  function ParentEvents(acts: seq<Action>): seq<ControllerRuns.Event> {
    if acts == [] then []
    else
      var earlier := ParentEvents(acts[..|acts| - 1]);
      var a := acts[|acts| - 1];
      if a.Parent? then earlier + [a.event] else earlier
  }

  lemma {:induction false} WorldIs(c: Setting, s: State, acts: seq<Action>)
    requires Consistent(c.dns, s.dns)
    ensures History(c, s, acts).world == ControllerRuns.History(c.chrono, s.world, ParentEvents(acts))
  {
    hide Consistent, Handle, ResolveStep, Posed, EngineResult, Blocked, ControllerRuns.Happen;
    if acts == [] {
    } else {
      WorldIs(c, s, acts[..|acts| - 1]);
    }
  }

  /** A name that one of a device's hard categories lists is out of the device's
      reach for good. After any history of queries and connections of any clients,
      grants, list additions and settings: the device's query for it, however
      spelled, is refused and changes nothing, and its connection to an address
      bound to it, whoever was given that address, is dropped. */
  lemma {:induction false} HardListedIsOutOfReach(c: Setting, s: State, acts: seq<Action>, client: IpAddr, name: string)
    requires Consistent(c.dns, s.dns) && c.parental && ControllerRuns.HardListed(s.world, client, name)
    ensures var t := History(c, s, acts);
            && (forall a: Action | a.Ask? && a.client == client && a.parsed.Some?
                                   && Normalized(a.parsed.value.domain) == Normalized(name) ::
                  Do(c, t, a) == (t, Reply(RefusalOf(a))))
            && (forall to: IpAddr | NameBehind(c, t, to).Some?
                                    && Normalized(NameBehind(c, t, to).value) == Normalized(name) ::
                  Do(c, t, Connect(client, to)).1 == Opened(Dropped))
  {
    hide Consistent, History, Normalized, ResolveStep, Handle, EngineResult, RefusalOf;
    var t := History(c, s, acts);
    WorldIs(c, s, acts);
    ControllerRuns.HardBlockIsForever(c.chrono, s.world, ParentEvents(acts), client, name);
    forall a: Action | a.Ask? && a.client == client && a.parsed.Some?
                       && Normalized(a.parsed.value.domain) == Normalized(name)
      ensures Do(c, t, a) == (t, Reply(RefusalOf(a)))
    {
      SameForm(t.world, client, name, a.parsed.value.domain);
      RefusedAlone(c, t, a);
    }
    forall to: IpAddr | NameBehind(c, t, to).Some? && Normalized(NameBehind(c, t, to).value) == Normalized(name)
      ensures Do(c, t, Connect(client, to)).1 == Opened(Dropped)
    {
      SameForm(t.world, client, name, NameBehind(c, t, to).value);
    }
  }

  lemma SameForm(w: ControllerRuns.World, client: IpAddr, d: string, e: string)
    requires Normalized(d) == Normalized(e)
    ensures ControllerRuns.DecisionIn(w, client, d) == ControllerRuns.DecisionIn(w, client, e)
  {
    hide Normalized;
  }

  // ----- how long an answered address leads back to its name -----

  /** What an action asks of the allocator. */
  ghost function OpsOf(c: Setting, w: ControllerRuns.World, a: Action): seq<FakeDnsRuns.Op>
    requires c.dns.pool.Some?
  {
    match a
    case Ask(_, _, p, _, _) =>
      if !Refused(c, w, a) && p.value.qtype == QTYPE_A then [FakeDnsRuns.Allocate(p.value.domain)] else []
    case Connect(_, to) => if to.V4? && c.dns.pool.value.Contains(to.v4) then [FakeDnsRuns.Lookup(to.v4)] else []
    case ClearNames => [FakeDnsRuns.Clear]
    case _ => []
  }

  ghost function AllocatorOps(c: Setting, s: State, acts: seq<Action>): seq<FakeDnsRuns.Op>
    requires Consistent(c.dns, s.dns) && c.dns.pool.Some?
  {
    if acts == [] then []
    else
      var front := acts[..|acts| - 1];
      AllocatorOps(c, s, front) + OpsOf(c, History(c, s, front).world, acts[|acts| - 1])
  }

  lemma RunOfOne(p: FakeDns.Pool, s: FakeDns.State, ops: seq<FakeDnsRuns.Op>, more: seq<FakeDnsRuns.Op>)
    requires |more| <= 1
    ensures FakeDnsRuns.Run(p, s, ops + more).0
            == if more == [] then FakeDnsRuns.Run(p, s, ops).0
               else FakeDnsRuns.Step(p, FakeDnsRuns.Run(p, s, ops).0, more[0]).0
  {
    hide FakeDnsRuns.Step;
    if more == [] {
      assert ops + more == ops;
    } else {
      assert (ops + more)[..|ops|] == ops;
    }
  }

  lemma DoOnAllocator(c: Setting, s: State, a: Action, now: nat)
    requires HandlerInv(c.dns, s.dns, now) && c.dns.pool.Some?
    ensures var ops := OpsOf(c, s.world, a);
            |ops| <= 1
            && Do(c, s, a).0.dns.fake == if ops == [] then s.dns.fake
                 else Some(FakeDnsRuns.Step(c.dns.pool.value, s.dns.fake.value, ops[0]).0)
  {
    hide FakeDns.AllocateStep, FakeDns.LookupStep, FakeDns.ClearStep, FakeDns.Normalize, FakeDns.Evict;
    hide Blocked, Filtered, DnsCache.GetStep, DnsCache.InsertStep, AResponse, NxdomainResponse, FakeDns.Inv;
    if a.Ask? && !Refused(c, s.world, a) && a.parsed.value.qtype == QTYPE_A {
      AddressQueryAllocates(c.dns, s.dns, Posed(c, s.world, a), now);
    }
  }

  /** The allocator inside the gateway runs as it does alone, on the operations it is asked. */
  lemma {:induction false} AllocatorRunsAlone(c: Setting, s: State, acts: seq<Action>, start: nat)
    requires HandlerInv(c.dns, s.dns, start) && ClockOk(start, acts) && c.dns.pool.Some?
    ensures History(c, s, acts).dns.fake
            == Some(FakeDnsRuns.Run(c.dns.pool.value, s.dns.fake.value, AllocatorOps(c, s, acts)).0)
  {
    assert Consistent(c.dns, s.dns);
    hide HandlerInv, Do, OpsOf, FakeDnsRuns.Step;
    if acts == [] {
    } else {
      var front := acts[..|acts| - 1];
      AllocatorRunsAlone(c, s, front, start);
      HistoryKeeps(c, s, front, start);
      var t := History(c, s, front);
      DoOnAllocator(c, t, acts[|acts| - 1], LastTime(start, front));
      RunOfOne(c.dns.pool.value, s.dns.fake.value, AllocatorOps(c, s, front), OpsOf(c, t.world, acts[|acts| - 1]));
    }
  }

  /** After the answer to `ask`, fewer than capacity - 1 other addresses are
      touched or handed out before the last use of the allocator, the ring never
      comes round to the answered address, and names are not cleared. */
  ghost predicate StaysInUse(c: Setting, t: State, ask: Action, after: seq<Action>)
    requires Consistent(c.dns, t.dns) && c.dns.pool.Some? && ask.Ask? && ask.parsed.Some?
  {
    var ip, u := AnswerAddress(c.dns, t.dns, Posed(c, t.world, ask)), Do(c, t, ask).0;
    var events := FakeDnsRuns.Run(c.dns.pool.value, u.dns.fake.value, AllocatorOps(c, u, after)).1;
    && FakeDnsRuns.SparesRing(events, ip)
    && (events != [] ==> |FakeDnsRuns.Others(events[..|events| - 1], ip)| < c.dns.pool.value.cap - 1)
  }

  lemma AnsweredAddress(c: Setting, t: State, ask: Action, now: nat)
    requires HandlerInv(c.dns, t.dns, now) && c.dns.pool.Some? && ask.Ask? && |ask.query| >= 12
    requires !Refused(c, t.world, ask) && ask.parsed.value.qtype == QTYPE_A
    ensures var ip, u := AnswerAddress(c.dns, t.dns, Posed(c, t.world, ask)), Do(c, t, ask).0;
            && Do(c, t, ask).1 == Reply(Some(AResponse(ask.query, ip, c.dns.cacheTtl % DnsCache.U32_LIMIT)))
            && c.dns.pool.value.InRing(ip)
            && ip in u.dns.fake.value.ipToDomain
            && u.dns.fake.value.ipToDomain[ip] == FakeDns.Normalize(ask.parsed.value.domain)
            && LeastRecent.After(u.dns.fake.value.lru, ip) == {}
  {
    hide AResponse, FakeDns.AllocateStep, FakeDns.Normalize, LeastRecent.After, Blocked, Filtered;
    hide FakeDns.Inv, DnsCache.Inv, DnsCache.GetStep, DnsCache.InsertStep;
    AddressQueryAllocates(c.dns, t.dns, Posed(c, t.world, ask), now);
    AllocatedIsLast(c.dns.pool.value, t.dns.fake.value, ask.parsed.value.domain);
  }

  lemma AllocatedIsLast(p: FakeDns.Pool, s: FakeDns.State, domain: string)
    requires FakeDns.Inv(p, s)
    ensures var (t, ip) := FakeDns.AllocateStep(p, s, domain);
            && ip in t.ipToDomain && t.ipToDomain[ip] == FakeDns.Normalize(domain)
            && LeastRecent.After(t.lru, ip) == {}
  {
    hide FakeDns.AllocateStep, FakeDns.Normalize, LeastRecent.After;
    FakeDns.AllocateKeeps(p, s, domain);
    LastHasNoneAfter(FakeDns.AllocateStep(p, s, domain).0.lru);
  }

  lemma LastHasNoneAfter(s: seq<nat>)
    requires LeastRecent.NoDup(s) && s != []
    ensures LeastRecent.After(s, s[|s| - 1]) == {}
  {
    var front, last := s[..|s| - 1], s[|s| - 1];
    assert s == front + [last];
    LeastRecent.AfterAppendSelf(front, last);
  }

  /** From a state in which `ask` is answered, the address stays bound to its name. */
  lemma {:induction false} AnswerStaysBound(c: Setting, t: State, ask: Action, after: seq<Action>, now: nat)
    requires HandlerInv(c.dns, t.dns, now) && c.dns.pool.Some? && ask.Ask? && |ask.query| >= 12
    requires !Refused(c, t.world, ask) && ask.parsed.value.qtype == QTYPE_A
    requires now <= ask.now && ClockOk(ask.now, after) && StaysInUse(c, t, ask, after)
    ensures var ip := AnswerAddress(c.dns, t.dns, Posed(c, t.world, ask));
            var z := History(c, Do(c, t, ask).0, after);
            FakeDns.LookupStep(z.dns.fake.value, ip).1 == Some(FakeDns.Normalize(ask.parsed.value.domain))
  {
    var p, ip, u := c.dns.pool.value, AnswerAddress(c.dns, t.dns, Posed(c, t.world, ask)), Do(c, t, ask).0;
    AnsweredAddress(c, t, ask, now);
    DoKeeps(c, t, ask, now);
    AllocatorRunsAlone(c, u, after, ask.now);
    var ops := AllocatorOps(c, u, after);
    assert FakeDns.Inv(p, u.dns.fake.value);
    hide HandlerInv, Do, FakeDns.Inv, AnswerAddress, FakeDnsRuns.SparesRing, FakeDnsRuns.Others, Refused, AllocatorOps;
    FakeDnsRuns.WorkingSet(p, u.dns.fake.value, ops, ip);
  }

  /** What became of an answer. At any point of any history a client's A query
      that is not refused gets an address, and while that address stays in use,
      whatever else happens, a connection of any client to it is taken to be for
      the name that was asked (unless the pool is that of a /31 or /32, whose
      addresses are not recognised): it is dropped if the controller blocks the
      name for that client by then, and otherwise routed by name and address. */
  lemma {:induction false} AnswersLeadBack(c: Setting, s: State, before: seq<Action>, ask: Action, after: seq<Action>,
                                           start: nat) returns (ip: nat)
    requires HandlerInv(c.dns, s.dns, start) && ClockOk(start, before + [ask] + after) && c.dns.pool.Some?
    requires ask.Ask? && |ask.query| >= 12 && ask.parsed.Some? && ask.parsed.value.qtype == QTYPE_A
    requires !Refused(c, History(c, s, before).world, ask) && StaysInUse(c, History(c, s, before), ask, after)
    ensures ip < DnsCache.U32_LIMIT
            && Sights(c, s, before + [ask] + after)[|before|]
               == Reply(Some(AResponse(ask.query, ip, c.dns.cacheTtl % DnsCache.U32_LIMIT)))
    ensures var z, d := History(c, s, before + [ask] + after), ask.parsed.value.domain;
            var name := if c.dns.pool.value.start <= c.dns.pool.value.end then Some(FakeDns.Normalize(d)) else None;
            && NameBehind(c, z, V4(ip)) == name
            && forall client ::
                 Do(c, z, Connect(client, V4(ip))).1
                 == Opened(if name.Some? && Blocked(c, z.world, client, d) then Dropped
                           else Routed(name, EngineResult(c.rules, c.geo, Request(name, Some(V4(ip))))))
  {
    var t, d := History(c, s, before), ask.parsed.value.domain;
    ClockSplits(start, before + [ask], after);
    ClockSplits(start, before, [ask]);
    ClockAlone(LastTime(start, before), ask);
    HistoryKeeps(c, s, before, start);
    ip := AnswerAddress(c.dns, t.dns, Posed(c, t.world, ask));
    AnsweredAddress(c, t, ask, LastTime(start, before));
    AnswerStaysBound(c, t, ask, after, LastTime(start, before));
    Whole(c, s, before, ask, after);
    var z := History(c, s, before + [ask] + after);
    hide HandlerInv, StaysInUse, AnswerAddress, AResponse, History, Refused, EngineResult, FakeDns.Normalize;
    forall client { BlockedAsAsked(c, z.world, client, d); }
    hide Blocked;
  }

  /** The two checks agree. Where the filter lets a query for the name through, the
      rules reject a connection to an address bound to the name only by an IP rule
      that matches the address. */
  lemma FilterAndProxyAgree(c: Setting, s: State, name: string, to: IpAddr)
    requires Consistent(c.dns, s.dns) && !Filtered(c, name)
    requires NameBehind(c, s, to) == Some(FakeDns.Normalize(name))
    ensures forall client ::
              var seen := Do(c, s, Connect(client, to)).1;
              seen.outcome.Routed? && seen.outcome.route.policy == Reject ==>
                seen.outcome.route.matched.ByRule? && AddressRule(c.rules, c.geo, to, seen.outcome.route.ruleIndex)
  {
    FilteredAsAsked(c, name);
    OnlyAddressRulesReject(c.rules, c.geo, FakeDns.Normalize(name), to);
    hide EngineResult, Blocked, ResolveStep, FakeDns.Normalize, AddressRule, Consistent;
  }

  lemma ClockAlone(now: nat, a: Action)
    requires a.Ask? && ClockOk(now, [a])
    ensures now <= a.now == LastTime(now, [a])
  {
    assert [a][..0] == [];
  }

  lemma Whole(c: Setting, s: State, before: seq<Action>, a: Action, after: seq<Action>)
    requires Consistent(c.dns, s.dns)
    ensures var t := History(c, s, before);
            && History(c, s, before + [a] + after) == History(c, Do(c, t, a).0, after)
            && Sights(c, s, before + [a] + after)[|before|] == Do(c, t, a).1
  {
    hide Do, Consistent;
    Alone(c, History(c, s, before), a);
    Split(c, s, before + [a], after);
    Split(c, s, before, [a]);
  }
}
