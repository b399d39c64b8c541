/**
 Progress of the FakeDNS allocator under threads. A hit keeps a read guard on one
 shard of a map while it waits for the LRU lock (src/dns/fake_dns.rs:107-113 and
 183-186), and the thread in the lock writes to the maps. Guards take
 interleavings away, so every invariant of `FakeDnsConcurrent` stays; but they can
 take all of them away. The module says exactly when.
 */
module FakeDnsProgress {
  import opened LeastRecent
  import opened FakeDns
  import opened FakeDnsConcurrent
  import opened FakeDnsRuns
  import opened Numbers

  /** One shard of one of the two maps. */
  datatype Shard = NameShard(n: nat) | IpShard(m: nat)

  /** How the two maps spread their keys over shards. */
  datatype Sharding = Sharding(ofName: string -> nat, ofIp: nat -> nat)

  /** The system, and for each thread that waits with a hit the shard it guards. */
  datatype Guarded = Guarded(y: System, guards: map<Tid, Shard>)

  /** The shard that the next step of the thread in the lock writes to. */
  function Writes(sh: Sharding, pc: Pc): Option<Shard> {
    match pc
    case EvictIp(_, e) => Some(IpShard(sh.ofIp(e)))
    case EvictName(_, prev) => Some(NameShard(sh.ofName(prev)))
    case OverwriteIp(_, ip) => Some(IpShard(sh.ofIp(ip)))
    case OverwriteName(_, _, prev) => Some(NameShard(sh.ofName(prev)))
    case InsertIp(_, ip) => Some(IpShard(sh.ofIp(ip)))
    case InsertName(d, _) => Some(NameShard(sh.ofName(d)))
    case _ => None
  }

  /** The shard is that of every map entry the step makes, changes or removes; a
      step for which there is none leaves both maps alone. */
  lemma WritesWhatChanges(p: Pool, sh: Sharding, s: State, pc: Pc)
    requires pc.Holding()
    ensures var t := HolderStep(p, s, pc).0;
            && (forall d: string ::
                  (d in s.domainToIp) != (d in t.domainToIp)
                  || (d in s.domainToIp && s.domainToIp[d] != t.domainToIp[d]) ==>
                    Writes(sh, pc) == Some(NameShard(sh.ofName(d))))
            && (forall ip: nat ::
                  (ip in s.ipToDomain) != (ip in t.ipToDomain)
                  || (ip in s.ipToDomain && s.ipToDomain[ip] != t.ipToDomain[ip]) ==>
                    Writes(sh, pc) == Some(IpShard(sh.ofIp(ip))))
  {
    hide Put, LeastRecent.Remove;
  }

  /** A write waits until no thread guards its shard. */
  predicate Blocked(sh: Sharding, g: Guarded, pc: Pc) {
    Writes(sh, pc).Some? && exists u | u in g.guards :: g.guards[u] == Writes(sh, pc).value
  }

  predicate Possible(sh: Sharding, g: Guarded, a: Action) {
    Enabled(g.y, a) && (a.Continue? ==> !Blocked(sh, g, g.y.PcOf(a.t)))
  }

  /** The guard that a call takes with a hit, and lets go of with its next step. */
  function GuardsAfter(sh: Sharding, g: Guarded, a: Action): map<Tid, Shard> {
    match a
    case CallAllocate(t, domain) =>
      var d := Normalize(domain);
      if d in g.y.s.domainToIp then g.guards[t := NameShard(sh.ofName(d))] else g.guards
    case CallLookup(t, ip) => if ip in g.y.s.ipToDomain then g.guards[t := IpShard(sh.ofIp(ip))] else g.guards
    case Continue(t) => g.guards - {t}
  }

  function Do(p: Pool, sh: Sharding, g: Guarded, a: Action): Guarded
    requires Possible(sh, g, a)
  {
    Guarded(Apply(p, g.y, a), GuardsAfter(sh, g, a))
  }

  function DoAll(p: Pool, sh: Sharding, g: Guarded, schedule: seq<Action>): Option<Guarded>
    decreases |schedule|
  {
    if schedule == [] then Some(g)
    else if Possible(sh, g, schedule[0]) then DoAll(p, sh, Do(p, sh, g, schedule[0]), schedule[1..])
    else None
  }

  /** A guard only removes interleavings: what a guarded schedule reaches, the
      same schedule without guards reaches. */
  lemma {:induction false} GuardedIsUnguarded(p: Pool, sh: Sharding, g: Guarded, schedule: seq<Action>)
    ensures DoAll(p, sh, g, schedule).Some? ==>
              Execute(p, g.y, schedule) == Some(DoAll(p, sh, g, schedule).value.y)
    decreases |schedule|
  {
    if schedule == [] {
    } else if Possible(sh, g, schedule[0]) {
      GuardedIsUnguarded(p, sh, Do(p, sh, g, schedule[0]), schedule[1..]);
    }
  }

  /** Exactly the threads that wait with a hit hold a guard; only the thread in
      the lock is past it. */
  ghost predicate GuardInv(g: Guarded) {
    && (forall t :: t in g.guards <==> g.y.PcOf(t).WantTouch?)
    && (forall t :: t in g.y.threads && g.y.threads[t].Holding() ==> g.y.holder == Some(t))
    && (g.y.holder.Some? ==> g.y.PcOf(g.y.holder.value).Holding())
  }

  lemma DoKeeps(p: Pool, sh: Sharding, g: Guarded, a: Action)
    requires GuardInv(g) && Possible(sh, g, a)
    ensures GuardInv(Do(p, sh, g, a))
  {
    hide Normalize, Touch, Put, LeastRecent.Remove;
  }

  lemma {:induction false} DoAllKeeps(p: Pool, sh: Sharding, g: Guarded, schedule: seq<Action>)
    requires GuardInv(g) && DoAll(p, sh, g, schedule).Some?
    ensures GuardInv(DoAll(p, sh, g, schedule).value)
    decreases |schedule|
  {
    hide GuardInv, Possible, Do;
    if schedule == [] {
    } else {
      DoKeeps(p, sh, g, schedule[0]);
      DoAllKeeps(p, sh, Do(p, sh, g, schedule[0]), schedule[1..]);
    }
  }

  function Beginning(p: Pool): Guarded {
    Guarded(Start(p), map[])
  }

  predicate Busy(g: Guarded) {
    exists t | t in g.y.threads :: !g.y.threads[t].Idle?
  }

  /** Some call is under way and no call can go on. */
  ghost predicate Stuck(sh: Sharding, g: Guarded) {
    Busy(g) && forall t :: !Possible(sh, g, Continue(t))
  }

  /** The thread in the lock is about to write to a shard that a waiting hit guards. */
  predicate WriteMeetsGuard(sh: Sharding, g: Guarded) {
    g.y.holder.Some? && Blocked(sh, g, g.y.PcOf(g.y.holder.value))
  }

  lemma StuckIff(sh: Sharding, g: Guarded)
    requires GuardInv(g)
    ensures Stuck(sh, g) <==> WriteMeetsGuard(sh, g)
  {
    if g.y.holder.Some? {
      var t := g.y.holder.value;
      assert t in g.y.threads && !g.y.threads[t].Idle?;
      assert Enabled(g.y, Continue(t));
    } else if Busy(g) {
      var t :| t in g.y.threads && !g.y.threads[t].Idle?;
      assert !g.y.PcOf(t).Holding();
      assert Possible(sh, g, Continue(t));
    }
  }

  /** In every reachable state: calls under way but none able to go on means
      exactly that the thread in the lock is about to write where a hit waits. */
  lemma {:induction false} ReachableStuckIff(p: Pool, sh: Sharding, schedule: seq<Action>)
    ensures var r := DoAll(p, sh, Beginning(p), schedule);
            r.Some? ==> (Stuck(sh, r.value) <==> WriteMeetsGuard(sh, r.value))
  {
    hide DoAll, Stuck, WriteMeetsGuard;
    if DoAll(p, sh, Beginning(p), schedule).Some? {
      DoAllKeeps(p, sh, Beginning(p), schedule);
      StuckIff(sh, DoAll(p, sh, Beginning(p), schedule).value);
    }
  }

  /** And then it stays so: new calls can begin, and a lookup that misses ends at
      once, but no call that waits ever goes on, and the maps never change again. */
  lemma {:induction false} StuckForever(p: Pool, sh: Sharding, g: Guarded, schedule: seq<Action>)
    requires GuardInv(g) && Stuck(sh, g) && DoAll(p, sh, g, schedule).Some?
    ensures var z := DoAll(p, sh, g, schedule).value;
            && Stuck(sh, z) && z.y.s == g.y.s && z.y.holder == g.y.holder
            && forall t :: !g.y.PcOf(t).Idle? ==> z.y.PcOf(t) == g.y.PcOf(t)
    decreases |schedule|
  {
    if schedule == [] {
    } else {
      var a := schedule[0];
      var z := Do(p, sh, g, a);
      assert !a.Continue?;
      DoKeeps(p, sh, g, a);
      StuckIff(sh, g);
      CallKeepsMeeting(p, sh, g, a);
      StuckIff(sh, z);
      StuckForever(p, sh, z, schedule[1..]);
    }
  }

  lemma CallKeepsMeeting(p: Pool, sh: Sharding, g: Guarded, a: Action)
    requires GuardInv(g) && WriteMeetsGuard(sh, g) && Possible(sh, g, a) && !a.Continue?
    ensures var z := Do(p, sh, g, a);
            && WriteMeetsGuard(sh, z) && z.y.s == g.y.s && z.y.holder == g.y.holder
            && forall t :: !g.y.PcOf(t).Idle? ==> z.y.PcOf(t) == g.y.PcOf(t)
  {
    hide Normalize;
    var h := g.y.holder.value;
    var u :| u in g.guards && g.guards[u] == Writes(sh, g.y.PcOf(h)).value;
    var z := Do(p, sh, g, a);
    assert g.y.PcOf(u).WantTouch?;
    assert z.y.PcOf(h) == g.y.PcOf(h);
    assert u in z.guards && z.guards[u] == g.guards[u];
  }

  /** It can happen: with the cache full and nobody inside, a lookup of the least
      recent address and an allocation for a new name wait for each other,
      however the maps are sharded. */
  lemma FullCacheCanStick(p: Pool, sh: Sharding, g: Guarded, domain: string) returns (schedule: seq<Action>)
    requires GuardInv(g) && !Busy(g) && g.y.holder == None && p.cap >= 1
    requires |g.y.s.lru| >= p.cap && g.y.s.lru[0] in g.y.s.ipToDomain
    requires Normalize(domain) !in g.y.s.domainToIp
    ensures DoAll(p, sh, g, schedule).Some? && Stuck(sh, DoAll(p, sh, g, schedule).value)
  {
    var oldest := g.y.s.lru[0];
    var a, b, c, d := CallLookup(0, oldest), CallAllocate(1, domain), Continue(1), Continue(1);
    hide Normalize, Stuck, WriteMeetsGuard, DoAll;
    var g1 := Do(p, sh, g, a);
    DoKeeps(p, sh, g, a);
    var g2 := Do(p, sh, g1, b);
    DoKeeps(p, sh, g1, b);
    var g3 := Do(p, sh, g2, c);
    DoKeeps(p, sh, g2, c);
    var g4 := Do(p, sh, g3, d);
    DoKeeps(p, sh, g3, d);
    assert g4.y.PcOf(1) == EvictIp(Normalize(domain), oldest);
    assert g4.guards[0] == IpShard(sh.ofIp(oldest));
    StuckIff(sh, g4);
    schedule := [a, b, c, d];
    DoFour(p, sh, g, a, b, c, d);
  }

  lemma DoFour(p: Pool, sh: Sharding, g: Guarded, a: Action, b: Action, c: Action, d: Action)
    requires Possible(sh, g, a) && Possible(sh, Do(p, sh, g, a), b)
    requires Possible(sh, Do(p, sh, Do(p, sh, g, a), b), c)
    requires Possible(sh, Do(p, sh, Do(p, sh, Do(p, sh, g, a), b), c), d)
    ensures DoAll(p, sh, g, [a, b, c, d]) == Some(Do(p, sh, Do(p, sh, Do(p, sh, Do(p, sh, g, a), b), c), d))
  {
    hide Possible, Do;
    assert [a, b, c, d][1..] == [b, c, d] && [b, c, d][1..] == [c, d] && [c, d][1..] == [d] && [d][1..] == [];
    assert DoAll(p, sh, Do(p, sh, Do(p, sh, g, a), b), [c, d])
        == DoAll(p, sh, Do(p, sh, Do(p, sh, Do(p, sh, g, a), b), c), [d]);
  }

  // ----- a full cache is reached, so getting stuck is -----

  lemma {:induction false} DoAllConcat(p: Pool, sh: Sharding, g: Guarded, a: seq<Action>, b: seq<Action>)
    requires DoAll(p, sh, g, a).Some?
    ensures DoAll(p, sh, g, a + b) == DoAll(p, sh, DoAll(p, sh, g, a).value, b)
    decreases |a|
  {
    hide Possible, Do;
    if a == [] {
      assert a + b == b;
    } else {
      assert (a + b)[1..] == a[1..] + b;
      DoAllConcat(p, sh, Do(p, sh, g, a[0]), a[1..], b);
    }
  }

  lemma DoOne(p: Pool, sh: Sharding, g: Guarded, a: Action)
    requires Possible(sh, g, a)
    ensures DoAll(p, sh, g, [a]) == Some(Do(p, sh, g, a))
  {
    assert [a][1..] == [];
    assert DoAll(p, sh, Do(p, sh, g, a), []) == Some(Do(p, sh, g, a));
  }

  /** Where nothing is guarded the thread in the lock runs through. */
  lemma {:induction false} HolderRunsThrough(p: Pool, sh: Sharding, g: Guarded, t: Tid) returns (schedule: seq<Action>)
    requires g.guards == map[] && g.y.holder == Some(t) && g.y.PcOf(t).Holding()
    requires CasWillSucceed(g.y.s, g.y.PcOf(t))
    ensures DoAll(p, sh, g, schedule)
            == Some(Guarded(System(Finish(p, g.y.s, g.y.PcOf(t)), None, g.y.threads[t := Idle]), map[]))
    decreases Rank(g.y.PcOf(t))
  {
    var a := Continue(t);
    assert Possible(sh, g, a);
    var z := Do(p, sh, g, a);
    DoOne(p, sh, g, a);
    var (s, pc') := HolderStep(p, g.y.s, g.y.PcOf(t));
    assert z == Guarded(System(s, if pc'.Idle? then None else Some(t), g.y.threads[t := pc']), map[]);
    if pc'.Idle? {
      schedule := [a];
    } else {
      var rest := HolderRunsThrough(p, sh, z, t);
      schedule := [a] + rest;
      DoAllConcat(p, sh, g, [a], rest);
      assert z.y.threads[t := Idle] == g.y.threads[t := Idle];
    }
  }

  /** A thread alone allocates for a new name. */
  lemma AllocatesAlone(p: Pool, sh: Sharding, g: Guarded, t: Tid, domain: string) returns (schedule: seq<Action>)
    requires g.guards == map[] && g.y.holder == None && g.y.PcOf(t).Idle?
    requires Normalize(domain) !in g.y.s.domainToIp
    ensures DoAll(p, sh, g, schedule)
            == Some(Guarded(System(AllocateNew(p, g.y.s, Normalize(domain)).0, None, g.y.threads[t := Idle]), map[]))
  {
    hide Normalize, AllocateNew, Finish;
    var d := Normalize(domain);
    var g1 := Do(p, sh, g, CallAllocate(t, domain));
    DoOne(p, sh, g, CallAllocate(t, domain));
    assert Possible(sh, g1, Continue(t));
    var g2 := Do(p, sh, g1, Continue(t));
    DoOne(p, sh, g1, Continue(t));
    DoAllConcat(p, sh, g, [CallAllocate(t, domain)], [Continue(t)]);
    assert g2 == Guarded(System(g.y.s, Some(t), g1.y.threads[t := Locked(d)]), map[]);
    FinishIsAllocateNew(p, g.y.s, d);
    var rest := HolderRunsThrough(p, sh, g2, t);
    var start := [CallAllocate(t, domain)] + [Continue(t)];
    DoAllConcat(p, sh, g, start, rest);
    schedule := start + rest;
    assert g2.y.threads[t := Idle] == g.y.threads[t := Idle];
  }

  /** `m` addresses handed out to names shorter than `m`, and nobody inside. */
  ghost predicate Filling(p: Pool, g: Guarded, m: nat) {
    && g.guards == map[] && g.y.holder == None && !Busy(g)
    && FakeDns.Inv(p, g.y.s) && RingOrdered(p, g.y.s, m) && |g.y.s.lru| == m
    && forall d :: d in g.y.s.domainToIp ==> |d| < m
  }

  lemma FillOne(p: Pool, s: State, m: nat)
    requires FakeDns.Inv(p, s) && RingOrdered(p, s, m) && |s.lru| == m < p.cap <= p.Size()
    requires forall d :: d in s.domainToIp ==> |d| < m
    ensures var t := AllocateNew(p, s, Name(m)).0;
            && FakeDns.Inv(p, t) && RingOrdered(p, t, m + 1) && |t.lru| == m + 1
            && forall d :: d in t.domainToIp ==> |d| < m + 1
  {
    QuietFresh(p, s, Name(m), m);
    AllocateNewKeeps(p, s, Name(m));
    assert Evict(p, s) == s;
    assert Overwrite(s, s.next) == s;
    hide FakeDns.Inv, RingOrdered, Name;
  }

  lemma NothingYet(p: Pool)
    requires 1 <= p.cap
    ensures Filling(p, Beginning(p), 0)
  {
    InitialKeeps(p);
    ModUnique(0, p.Size(), 0, 0);
  }

  lemma FillNext(p: Pool, sh: Sharding, g: Guarded, m: nat) returns (schedule: seq<Action>)
    requires Filling(p, g, m) && m < p.cap <= p.Size()
    ensures DoAll(p, sh, g, schedule).Some? && Filling(p, DoAll(p, sh, g, schedule).value, m + 1)
  {
    NameIsNormal(m);
    FillOne(p, g.y.s, m);
    hide DoAll, AllocateNew, FakeDns.Inv, RingOrdered, Normalize, Name;
    schedule := AllocatesAlone(p, sh, g, 0, Name(m));
  }

  lemma {:induction false} FillUp(p: Pool, sh: Sharding, m: nat) returns (schedule: seq<Action>)
    requires m <= p.cap <= p.Size() && 1 <= p.cap
    ensures DoAll(p, sh, Beginning(p), schedule).Some?
    ensures Filling(p, DoAll(p, sh, Beginning(p), schedule).value, m)
  {
    hide Filling;
    if m == 0 {
      schedule := [];
      NothingYet(p);
    } else {
      var before := FillUp(p, sh, m - 1);
      var step := FillNext(p, sh, DoAll(p, sh, Beginning(p), before).value, m - 1);
      DoAllConcat(p, sh, Beginning(p), before, step);
      schedule := before + step;
    }
  }

  /** For every pool whose capacity fits it, and however the maps are sharded,
      an allocator that starts empty can get stuck. */
  lemma StuckIsReachable(p: Pool, sh: Sharding) returns (schedule: seq<Action>)
    requires 1 <= p.cap <= p.Size()
    ensures DoAll(p, sh, Beginning(p), schedule).Some? && Stuck(sh, DoAll(p, sh, Beginning(p), schedule).value)
  {
    var filling := FillUp(p, sh, p.cap);
    var g := DoAll(p, sh, Beginning(p), filling).value;
    DoAllKeeps(p, sh, Beginning(p), filling);
    NameIsNormal(p.cap);
    assert g.y.s.lru[0] in Elems(g.y.s.lru);
    hide DoAll, Stuck, Normalize, Name;
    var last := FullCacheCanStick(p, sh, g, Name(p.cap));
    DoAllConcat(p, sh, Beginning(p), filling, last);
    schedule := filling + last;
  }
}
