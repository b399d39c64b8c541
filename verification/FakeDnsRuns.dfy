/**
 Whole runs of the FakeDNS allocator: the invariant, how soon an address is
 reused, which mapping a fresh allocation can remove, and when the "still in
 use" branch of the allocator can be reached.
 */
module FakeDnsRuns {
  import opened LeastRecent
  import opened FakeDns
  import opened Numbers

  datatype Op = Allocate(domain: string) | Lookup(ip: nat) | Clear

  /** What a caller sees, plus whether a fresh allocation took the safety branch. */
  datatype Event = Fresh(ip: nat, overwrote: bool) | Reused(ip: nat) | Found(ip: nat) | Missing | Cleared

  function Step(p: Pool, s: State, op: Op): (State, Event) {
    match op
    case Allocate(domain) =>
      var (t, ip) := AllocateStep(p, s, domain);
      (t, if Normalize(domain) in s.domainToIp then Reused(ip) else Fresh(ip, ip in Evict(p, s).ipToDomain))
    case Lookup(ip) =>
      var (t, found) := LookupStep(s, ip);
      (t, if found.Some? then Found(ip) else Missing)
    case Clear => (ClearStep(s), Cleared)
  }

  /** The state and the events after a sequence of operations. */
  function Run(p: Pool, s: State, ops: seq<Op>): (r: (State, seq<Event>))
    ensures |r.1| == |ops|
  {
    if ops == [] then (s, [])
    else
      var (t, events) := Run(p, s, ops[..|ops| - 1]);
      var (u, e) := Step(p, t, ops[|ops| - 1]);
      (u, events + [e])
  }

  lemma {:induction false} StepKeeps(p: Pool, s: State, op: Op)
    requires Inv(p, s)
    ensures Inv(p, Step(p, s, op).0)
  {
    match op
    case Allocate(domain) => AllocateKeeps(p, s, domain);
    case Lookup(ip) => LookupKeeps(p, s, ip);
    case Clear =>
  }

  /** In every reachable state the maps are mutual inverses, the LRU holds
      exactly the mapped addresses and stays within capacity, and every address
      is on the ring. */
  lemma {:induction false} RunKeepsInvariant(p: Pool, s: State, ops: seq<Op>)
    requires Inv(p, s)
    ensures Inv(p, Run(p, s, ops).0)
  {
    if ops == [] {
    } else {
      RunKeepsInvariant(p, s, ops[..|ops| - 1]);
      StepKeeps(p, Run(p, s, ops[..|ops| - 1]).0, ops[|ops| - 1]);
    }
  }

  // ----- ring order and reuse distance -----

  /** The address the ring hands out at its `k`-th advance. */
  function RingAt(p: Pool, k: nat): nat {
    p.start + k % p.Size()
  }

  lemma {:induction false} NextOnRing(p: Pool, k: nat)
    ensures p.Next(RingAt(p, k)) == RingAt(p, k + 1)
  {
    ModSucc(k, p.Size());
  }

  /** The addresses handed out by fresh allocations, in order. */
  function FreshIps(events: seq<Event>): seq<nat> {
    if events == [] then []
    else
      var earlier := FreshIps(events[..|events| - 1]);
      var e := events[|events| - 1];
      if e.Fresh? then earlier + [e.ip] else earlier
  }

  lemma StepAdvances(p: Pool, s: State, op: Op)
    ensures var (t, e) := Step(p, s, op);
            if e.Fresh? then e.ip == s.next && t.next == p.Next(s.next) else t.next == s.next
  {
  }

  lemma {:induction false} FreshIpsFollowRing(p: Pool, s: State, k: nat, ops: seq<Op>)
    requires s.next == RingAt(p, k)
    ensures var (t, events) := Run(p, s, ops);
            var handed := FreshIps(events);
            && t.next == RingAt(p, k + |handed|)
            && forall i :: 0 <= i < |handed| ==> handed[i] == RingAt(p, k + i)
  {
    hide Step, RingAt;
    if ops == [] {
    } else {
      var n := |ops| - 1;
      FreshIpsFollowRing(p, s, k, ops[..n]);
      var (t, events) := Run(p, s, ops[..n]);
      StepAdvances(p, t, ops[n]);
      NextOnRing(p, k + |FreshIps(events)|);
      assert (events + [Step(p, t, ops[n]).1])[..n] == events;
    }
  }

  /** Across hits, evictions and clears, two fresh allocations return the same
      address exactly when the number of fresh allocations between them is a
      multiple of the pool size. */
  lemma ReuseDistance(p: Pool, ops: seq<Op>, i: nat, j: nat)
    requires i <= j < |FreshIps(Run(p, Initial(p), ops).1)|
    ensures var handed := FreshIps(Run(p, Initial(p), ops).1);
            handed[i] == handed[j] <==> (j - i) % p.Size() == 0
  {
    ModUnique(0, p.Size(), 0, 0);
    FreshIpsFollowRing(p, Initial(p), 0, ops);
    SameResidue(i, j, p.Size());
    hide Run, FreshIps;
  }

  // ----- which mapping a fresh allocation removes -----

  /** A fresh allocation takes a mapping away exactly when its address is the
      least recent of a full cache (all capacity - 1 others were used after it)
      or the ring pointer is at it. */
  lemma FreshRemovesIff(p: Pool, s: State, d: string, ip: nat)
    requires Inv(p, s) && d !in s.domainToIp && ip in s.ipToDomain
    ensures var t := AllocateNew(p, s, d).0;
            (ip in t.ipToDomain && t.ipToDomain[ip] == s.ipToDomain[ip])
            <==> !(|After(s.lru, ip)| == p.cap - 1 || s.next == ip)
  {
    AllocateNewKeeps(p, s, d);
    EvictKeeps(p, s);
    EvictRemovesIff(p, s, ip);
    OverwriteRemovesIff(Evict(p, s), s.next, ip);
  }

  lemma OverwriteRemovesIff(s: State, x: nat, ip: nat)
    ensures ip in Overwrite(s, x).ipToDomain <==> ip in s.ipToDomain && ip != x
    ensures ip in Overwrite(s, x).ipToDomain ==> Overwrite(s, x).ipToDomain[ip] == s.ipToDomain[ip]
  {
  }

  /** The addresses other than `ip` that were touched or handed out. */
  function Others(events: seq<Event>, ip: nat): set<nat> {
    if events == [] then {}
    else Others(events[..|events| - 1], ip) + OtherAddress(events[|events| - 1], ip)
  }

  function OtherAddress(e: Event, ip: nat): set<nat> {
    if (e.Fresh? || e.Reused? || e.Found?) && e.ip != ip then {e.ip} else {}
  }

  /** No clear, and the ring pointer is never at `ip` when a fresh allocation is made. */
  predicate SparesRing(events: seq<Event>, ip: nat) {
    forall e :: e in events ==> e != Cleared && !(e.Fresh? && e.ip == ip)
  }

  lemma EvictSpares(p: Pool, s: State, ip: nat)
    requires Inv(p, s) && ip in s.ipToDomain && |After(s.lru, ip)| < p.cap - 1
    ensures var v := Evict(p, s);
            && ip in v.ipToDomain && v.ipToDomain[ip] == s.ipToDomain[ip]
            && After(v.lru, ip) == After(s.lru, ip)
  {
    assert ip in Elems(s.lru);
    FirstHasAllAfter(s.lru);
  }

  lemma OverwriteSpares(p: Pool, v: State, x: nat, ip: nat)
    requires Inv(p, v) && |v.lru| < p.cap && ip in v.ipToDomain && x != ip
    ensures var o := Overwrite(v, x);
            && ip in o.ipToDomain && o.ipToDomain[ip] == v.ipToDomain[ip]
            && After(o.lru + [x], ip) <= After(v.lru, ip) + {x}
  {
    var o := Overwrite(v, x);
    OverwriteKeeps(p, v, x);
    AfterRemove(v.lru, ip, x);
    assert ip in Elems(o.lru);
    AfterAppend(o.lru, ip, x);
  }

  lemma FreshKeepsMapping(p: Pool, s: State, d: string, ip: nat)
    requires Inv(p, s) && ip in s.ipToDomain && d !in s.domainToIp
    requires |After(s.lru, ip)| < p.cap - 1 && s.next != ip
    ensures var t := AllocateNew(p, s, d).0;
            && ip in t.ipToDomain && t.ipToDomain[ip] == s.ipToDomain[ip]
            && After(t.lru, ip) <= After(s.lru, ip) + {s.next}
  {
    AllocateNewKeeps(p, s, d);
    EvictKeeps(p, s);
    EvictSpares(p, s, ip);
    OverwriteSpares(p, Evict(p, s), s.next, ip);
  }

  /** One step of the working-set argument. */
  lemma StepKeepsMapping(p: Pool, s: State, op: Op, ip: nat)
    requires Inv(p, s) && ip in s.ipToDomain
    requires |After(s.lru, ip)| < p.cap - 1 || !Step(p, s, op).1.Fresh?
    requires SparesRing([Step(p, s, op).1], ip)
    ensures var (t, e) := Step(p, s, op);
            && ip in t.ipToDomain && t.ipToDomain[ip] == s.ipToDomain[ip]
            && After(t.lru, ip) <= After(s.lru, ip) + OtherAddress(e, ip)
  {
    var e := Step(p, s, op).1;
    assert e in [e];
    assert ip in Elems(s.lru);
    match op
    case Allocate(domain) =>
      var d := Normalize(domain);
      if d in s.domainToIp {
        AfterTouch(s.lru, ip, s.domainToIp[d]);
      } else {
        FreshKeepsMapping(p, s, d, ip);
      }
    case Lookup(x) => AfterTouch(s.lru, ip, x);
    case Clear =>
  }

  /** LRU working-set guarantee: a mapping that was just used survives a run as
      long as, before the last operation, fewer than capacity - 1 other addresses
      were touched or handed out, and the ring never lands on it. */
  lemma {:induction false} WorkingSet(p: Pool, s: State, ops: seq<Op>, ip: nat)
    requires Inv(p, s) && ip in s.ipToDomain && After(s.lru, ip) == {}
    requires var events := Run(p, s, ops).1;
             SparesRing(events, ip) && (ops != [] ==> |Others(events[..|events| - 1], ip)| < p.cap - 1)
    ensures var (t, events) := Run(p, s, ops);
            && ip in t.ipToDomain && t.ipToDomain[ip] == s.ipToDomain[ip]
            && After(t.lru, ip) <= Others(events, ip)
  {
    if ops == [] {
    } else {
      var n := |ops| - 1;
      var (t, events) := Run(p, s, ops[..n]);
      var (u, e) := Step(p, t, ops[n]);
      var all := events + [e];
      assert all == Run(p, s, ops).1;
      assert all[..n] == events && e == all[n];
      assert SparesRing(events, ip) && SparesRing([e], ip) by {
        assert forall x :: x in events ==> x in all;
        assert e in all;
      }
      if n > 0 {
        SubsetSize(Others(events[..n - 1], ip), Others(events, ip));
      }
      WorkingSet(p, s, ops[..n], ip);
      RunKeepsInvariant(p, s, ops[..n]);
      SubsetSize(After(t.lru, ip), Others(events, ip));
      StepKeepsMapping(p, t, ops[n], ip);
    }
  }

  // ----- when the "still in use" branch is reachable -----

  /** Only fresh allocations, failed lookups and clears. */
  predicate Quiet(events: seq<Event>) {
    forall e :: e in events ==> !e.Reused? && !e.Found?
  }

  predicate NoOverwrite(events: seq<Event>) {
    forall e :: e in events ==> !(e.Fresh? && e.overwrote)
  }

  /** The LRU holds the last addresses the ring handed out, in ring order. */
  predicate RingOrdered(p: Pool, s: State, k: nat) {
    && |s.lru| <= k && s.next == RingAt(p, k)
    && forall j :: 0 <= j < |s.lru| ==> s.lru[j] == RingAt(p, k - |s.lru| + j)
  }

  /** In ring order, the ring pointer meets a stored address only after a whole turn. */
  lemma {:induction false} RingNotYetBack(p: Pool, s: State, k: nat)
    requires RingOrdered(p, s, k) && |s.lru| < p.Size()
    ensures s.next !in s.lru
  {
    if s.next in s.lru {
      var j :| 0 <= j < |s.lru| && s.lru[j] == s.next;
      var back := |s.lru| - j;
      SameResidue(k - back, k, p.Size());
      ModUnique(back, p.Size(), 0, back);
      assert false;
    }
  }

  lemma EvictKeepsRing(p: Pool, s: State, k: nat)
    requires RingOrdered(p, s, k)
    ensures RingOrdered(p, Evict(p, s), k)
  {
    hide RingAt;
  }

  lemma {:induction false} QuietFresh(p: Pool, s: State, d: string, k: nat)
    requires Inv(p, s) && p.cap <= p.Size() && RingOrdered(p, s, k) && d !in s.domainToIp
    ensures s.next !in Evict(p, s).ipToDomain
    ensures RingOrdered(p, AllocateNew(p, s, d).0, k + 1)
  {
    hide Evict, AllocateNew, NoDup;
    var v := Evict(p, s);
    EvictKeeps(p, s);
    EvictKeepsRing(p, s, k);
    RingNotYetBack(p, v, k);
    assert s.next !in Elems(v.lru);
    assert Overwrite(v, s.next) == v;
    AllocateNewKeeps(p, s, d);
    NextOnRing(p, k);
    hide RingAt, Inv, Overwrite;
  }

  lemma {:induction false} QuietStep(p: Pool, s: State, op: Op, k: nat)
    requires Inv(p, s) && p.cap <= p.Size() && RingOrdered(p, s, k)
    requires Quiet([Step(p, s, op).1])
    ensures NoOverwrite([Step(p, s, op).1])
    ensures RingOrdered(p, Step(p, s, op).0, if Step(p, s, op).1.Fresh? then k + 1 else k)
  {
    var e := Step(p, s, op).1;
    assert e in [e];
    if e.Fresh? {
      QuietFresh(p, s, Normalize(op.domain), k);
    }
  }

  lemma {:induction false} QuietRun(p: Pool, ops: seq<Op>) returns (k: nat)
    requires 1 <= p.cap <= p.Size()
    requires Quiet(Run(p, Initial(p), ops).1)
    ensures NoOverwrite(Run(p, Initial(p), ops).1)
    ensures RingOrdered(p, Run(p, Initial(p), ops).0, k)
  {
    ModUnique(0, p.Size(), 0, 0);
    if ops == [] {
      k := 0;
    } else {
      var n := |ops| - 1;
      var (t, events) := Run(p, Initial(p), ops[..n]);
      var (u, e) := Step(p, t, ops[n]);
      var all := events + [e];
      assert all == Run(p, Initial(p), ops).1;
      assert Quiet(events) && Quiet([e]) by {
        assert forall x :: x in events ==> x in all;
        assert e in all;
      }
      k := QuietRun(p, ops[..n]);
      RunKeepsInvariant(p, Initial(p), ops[..n]);
      QuietStep(p, t, ops[n], k);
      assert e in [e];
      k := if e.Fresh? then k + 1 else k;
    }
  }

  /** Pairwise distinct names: the letter 'a' repeated. */
  function Name(i: nat): (r: string)
    ensures |r| == i
  {
    seq(i, _ => 'a')
  }

  function DistinctNames(m: nat): seq<Op> {
    seq(m, i requires 0 <= i < m => Allocate(Name(i)))
  }

  lemma NameIsNormal(i: nat)
    ensures Normalize(Name(i)) == Name(i)
  {
  }

  /** `m` addresses handed out from the start of the ring, to names shorter than `m`. */
  ghost predicate Filled(p: Pool, s: State, m: nat) {
    && |s.lru| == m && s.next == RingAt(p, m)
    && (forall d :: d in s.domainToIp ==> |d| < m)
    && (forall ip :: ip in s.ipToDomain ==> ip < p.start + m)
    && (m > 0 ==> p.start in s.ipToDomain)
  }

  lemma {:induction false} FillStep(p: Pool, s: State, m: nat)
    requires Inv(p, s) && Filled(p, s, m) && m < p.Size() < p.cap
    ensures var (t, e) := Step(p, s, Allocate(Name(m)));
            Filled(p, t, m + 1) && e == Fresh(p.start + m, false)
  {
    hide NoDup, Elems, Normalize, Name, Put, LeastRecent.Remove, After;
    NameIsNormal(m);
    NextOnRing(p, m);
    ModUnique(m, p.Size(), 0, m);
    AllocateNewKeeps(p, s, Name(m));
    assert Evict(p, s) == s;
    assert Overwrite(s, s.next) == s;
    hide AllocateNew, Evict, Overwrite, Inv;
  }

  /** Filling an allocator whose capacity exceeds its pool. */
  lemma {:induction false} FillPool(p: Pool, m: nat)
    requires p.Size() < p.cap && m <= p.Size()
    ensures var (s, events) := Run(p, Initial(p), DistinctNames(m));
            Quiet(events) && Filled(p, s, m)
  {
    hide Inv, Filled, Step, Name;
    if m > 0 {
      FillPool(p, m - 1);
      var ops := DistinctNames(m);
      assert ops[..m - 1] == DistinctNames(m - 1);
      var t := Run(p, Initial(p), ops[..m - 1]).0;
      InitialKeeps(p);
      RunKeepsInvariant(p, Initial(p), ops[..m - 1]);
      FillStep(p, t, m - 1);
    } else {
      NothingFilled(p);
    }
  }

  lemma InitialKeeps(p: Pool)
    requires p.cap >= 1
    ensures Inv(p, Initial(p))
  {
    assert Initial(p).ipToDomain.Keys == {};
  }

  lemma NothingFilled(p: Pool)
    ensures Filled(p, Initial(p), 0)
  {
    ModUnique(0, p.Size(), 0, 0);
  }

  lemma FullRingOverwrites(p: Pool, s: State)
    requires Inv(p, s) && Filled(p, s, p.Size()) && p.Size() < p.cap
    ensures Step(p, s, Allocate(Name(p.Size()))).1 == Fresh(p.start, true)
  {
    var n := p.Size();
    NameIsNormal(n);
    ModUnique(n, n, 1, 0);
    assert Evict(p, s) == s;
    hide Inv, NoDup, Elems, Normalize, Name, Bind, Overwrite;
  }

  /** A capacity larger than the pool brings the ring round to a live address. */
  lemma OverwriteReached(p: Pool) returns (ops: seq<Op>)
    requires p.Size() < p.cap
    ensures Quiet(Run(p, Initial(p), ops).1) && !NoOverwrite(Run(p, Initial(p), ops).1)
  {
    hide Inv, Filled, Step, Name;
    var n := p.Size();
    FillPool(p, n);
    ops := DistinctNames(n + 1);
    assert ops[..n] == DistinctNames(n);
    var (t, events) := Run(p, Initial(p), ops[..n]);
    InitialKeeps(p);
    RunKeepsInvariant(p, Initial(p), ops[..n]);
    FullRingOverwrites(p, t);
    var e := Step(p, t, ops[n]).1;
    assert Run(p, Initial(p), ops).1 == events + [e];
    assert e in events + [e];
  }

  /** With no hits and no successful lookups the branch for an address that is
      still mapped is unreachable exactly when the capacity fits the pool. */
  lemma OverwriteUnreachableIff(p: Pool)
    requires p.cap >= 1
    ensures (forall ops: seq<Op> :: Quiet(Run(p, Initial(p), ops).1) ==> NoOverwrite(Run(p, Initial(p), ops).1))
            <==> p.cap <= p.Size()
  {
    if p.cap <= p.Size() {
      forall ops: seq<Op> | Quiet(Run(p, Initial(p), ops).1) ensures NoOverwrite(Run(p, Initial(p), ops).1) {
        var k := QuietRun(p, ops);
      }
    } else {
      var ops := OverwriteReached(p);
    }
  }

  /** For the pools `new` builds, the capacity fits unless the configured
      capacity is 0 (which falls back to 1000) and the pool is smaller than that. */
  lemma CapacityFitsIff(network: nat, prefix: nat, capacity: nat)
    requires prefix <= 32
    requires network + Pow2(32 - prefix) >= 2
    ensures var p := NewPool(network, prefix, capacity);
            p.cap <= p.Size() <==> capacity > 0 || p.Size() >= DEFAULT_CAPACITY
  {
  }
}
