/**
 When an interleaving of `allocate` and `lookup` keeps the sequential invariant
 of the FakeDNS allocator: the exact condition for a schedule, and threads that
 never miss on one name at once, which meet it.
 */
module FakeDnsExclusive {
  import opened LeastRecent
  import opened FakeDns
  import opened FakeDnsConcurrent
  import opened Numbers

  /** The name a thread is allocating an address for: from its miss to its unlock. */
  function Allocating(pc: Pc): Option<string> {
    if pc.WantLock? || pc.Holding() then Some(pc.d) else None
  }

  /** Along the schedule, no call misses on a name that another thread is allocating. */
  predicate Exclusive(p: Pool, y: System, schedule: seq<Action>)
    decreases |schedule|
  {
    schedule == []
    || (var a := schedule[0];
        && Enabled(y, a)
        && (a.CallAllocate? && Normalize(a.domain) !in y.s.domainToIp ==> NotAllocated(y, Normalize(a.domain)))
        && Exclusive(p, Apply(p, y, a), schedule[1..]))
  }

  predicate NotAllocated(y: System, d: string) {
    forall t | t in y.threads :: Allocating(y.threads[t]) != Some(d)
  }

  /** The state once the thread in the lock, if any, is through. */
  function Settled(p: Pool, y: System): State
    requires CasWillSucceed(y.s, HolderPc(y))
  {
    Finish(p, y.s, HolderPc(y))
  }

  function HolderPc(y: System): Pc {
    if y.holder.Some? then y.PcOf(y.holder.value) else Idle
  }

  /** Exactly the holder is inside the lock, and its compare-and-swap will succeed. */
  ghost predicate LockInv(y: System) {
    && (forall t :: t in y.threads && y.threads[t].Holding() ==> y.holder == Some(t))
    && (y.holder.Some? ==> HolderPc(y).Holding())
    && CasWillSucceed(y.s, HolderPc(y))
  }

  ghost predicate ExclusiveInv(p: Pool, y: System) {
    && LockInv(y)
    && FakeDns.Inv(p, Settled(p, y))
    && (forall t :: t in y.threads && y.threads[t].WantLock? ==> y.threads[t].d !in Settled(p, y).domainToIp)
    && (forall t, u :: t in y.threads && u in y.threads && t != u && Allocating(y.threads[t]).Some? ==>
          Allocating(y.threads[t]) != Allocating(y.threads[u]))
  }

  /** A step of the holder does not change where it is going. */
  lemma StepSettles(p: Pool, s: State, pc: Pc)
    requires pc.Holding() && CasWillSucceed(s, pc)
    ensures var (t, pc') := HolderStep(p, s, pc);
            CasWillSucceed(t, pc') && Finish(p, t, pc') == Finish(p, s, pc)
            && (pc'.Idle? || (pc'.Holding() && pc'.d == pc.d))
  {
  }

  /** The holder adds no name but its own. */
  lemma {:induction false} FinishNames(p: Pool, s: State, pc: Pc)
    requires pc.Holding() && CasWillSucceed(s, pc)
    ensures Finish(p, s, pc).domainToIp.Keys <= s.domainToIp.Keys + {pc.d}
    decreases Rank(pc)
  {
    var (t, pc') := HolderStep(p, s, pc);
    StepSettles(p, s, pc);
    if pc'.Holding() {
      FinishNames(p, t, pc');
    } else {
      assert Finish(p, t, pc') == t;
    }
  }

  lemma AllocateNewNames(p: Pool, s: State, d: string)
    ensures AllocateNew(p, s, d).0.domainToIp.Keys <= s.domainToIp.Keys + {d}
  {
  }

  lemma CallKeeps(p: Pool, y: System, t: Tid, domain: string)
    requires ExclusiveInv(p, y) && y.PcOf(t).Idle?
    requires Normalize(domain) !in y.s.domainToIp ==> NotAllocated(y, Normalize(domain))
    ensures ExclusiveInv(p, Apply(p, y, CallAllocate(t, domain)))
  {
    var d, z := Normalize(domain), Apply(p, y, CallAllocate(t, domain));
    hide Normalize, FakeDns.Inv, Finish;
    assert y.holder != Some(t);
    assert HolderPc(z) == HolderPc(y);
    if d !in y.s.domainToIp {
      if y.holder.Some? {
        FinishNames(p, y.s, HolderPc(y));
        assert y.holder.value in y.threads;
      } else {
        assert Settled(p, y) == y.s by {
          FinishOfIdle(p, y.s);
        }
      }
    }
  }

  lemma FinishOfIdle(p: Pool, s: State)
    ensures Finish(p, s, Idle) == s
  {
  }

  lemma LookupCallKeeps(p: Pool, y: System, t: Tid, ip: nat)
    requires ExclusiveInv(p, y) && y.PcOf(t).Idle?
    ensures ExclusiveInv(p, Apply(p, y, CallLookup(t, ip)))
  {
    hide FakeDns.Inv, Finish;
    assert y.holder != Some(t);
    assert HolderPc(Apply(p, y, CallLookup(t, ip))) == HolderPc(y);
  }

  lemma TouchKeepsInv(p: Pool, s: State, ip: nat)
    requires FakeDns.Inv(p, s)
    ensures FakeDns.Inv(p, s.(lru := Touch(s.lru, ip)))
  {
    TouchKeeps(s.lru, ip);
  }

  lemma TouchStepKeeps(p: Pool, y: System, t: Tid)
    requires ExclusiveInv(p, y) && y.PcOf(t).WantTouch? && y.holder == None
    ensures ExclusiveInv(p, Apply(p, y, Continue(t)))
  {
    hide FakeDns.Inv, Finish, Touch, HolderStep;
    FinishOfIdle(p, y.s);
    FinishOfIdle(p, Apply(p, y, Continue(t)).s);
    TouchKeepsInv(p, y.s, y.PcOf(t).hit);
  }

  /** Taking the lock: the call will run as `AllocateNew`, on a name not yet mapped. */
  lemma LockStepKeeps(p: Pool, y: System, t: Tid)
    requires ExclusiveInv(p, y) && y.PcOf(t).WantLock? && y.holder == None
    ensures ExclusiveInv(p, Apply(p, y, Continue(t)))
  {
    hide FakeDns.Inv, Finish, AllocateNew, HolderStep;
    var d := y.PcOf(t).d;
    FinishOfIdle(p, y.s);
    FinishIsAllocateNew(p, y.s, d);
    AllocateNewKeeps(p, y.s, d);
    AllocateNewNames(p, y.s, d);
  }

  lemma HolderStepSettles(p: Pool, y: System, t: Tid)
    requires ExclusiveInv(p, y) && y.PcOf(t).Holding()
    ensures ExclusiveInv(p, Apply(p, y, Continue(t)))
  {
    hide FakeDns.Inv, Finish, HolderStep;
    FinishOfIdle(p, Apply(p, y, Continue(t)).s);
    StepSettles(p, y.s, y.PcOf(t));
  }

  lemma ContinueKeeps(p: Pool, y: System, t: Tid)
    requires ExclusiveInv(p, y) && Enabled(y, Continue(t))
    ensures ExclusiveInv(p, Apply(p, y, Continue(t)))
  {
    hide ExclusiveInv, Apply;
    if y.PcOf(t).WantTouch? {
      TouchStepKeeps(p, y, t);
    } else if y.PcOf(t).WantLock? {
      LockStepKeeps(p, y, t);
    } else {
      HolderStepSettles(p, y, t);
    }
  }

  /** For any threads and any schedule in which no call misses on a name that
      another thread is allocating: whenever the lock is free, the sequential
      invariant holds, and so the maps are inverse to each other. */
  lemma {:induction false} ExclusiveScheduleKeeps(p: Pool, y: System, schedule: seq<Action>)
    requires ExclusiveInv(p, y) && Exclusive(p, y, schedule)
    ensures Execute(p, y, schedule).Some? && ExclusiveInv(p, Execute(p, y, schedule).value)
    decreases |schedule|
  {
    hide ExclusiveInv;
    if schedule == [] {
    } else {
      var a := schedule[0];
      match a {
        case CallAllocate(t, domain) => CallKeeps(p, y, t, domain);
        case CallLookup(t, ip) => LookupCallKeeps(p, y, t, ip);
        case Continue(t) => ContinueKeeps(p, y, t);
      }
      ExclusiveScheduleKeeps(p, Apply(p, y, a), schedule[1..]);
    }
  }

  lemma {:induction false} ExclusiveIsSequential(p: Pool, schedule: seq<Action>)
    requires p.cap >= 1 && Exclusive(p, Start(p), schedule)
    ensures Execute(p, Start(p), schedule).Some?
    ensures var z := Execute(p, Start(p), schedule).value;
            z.holder == None ==> FakeDns.Inv(p, z.s)
  {
    assert Initial(p).ipToDomain.Keys == {};
    ExclusiveScheduleKeeps(p, Start(p), schedule);
    hide FakeDns.Inv;
    FinishOfIdle(p, Execute(p, Start(p), schedule).value.s);
  }

  // ----- which schedules keep the sequential invariant -----

  /** The sequential invariant, once the thread in the lock is through. */
  ghost predicate SettledInv(p: Pool, y: System) {
    LockInv(y) && FakeDns.Inv(p, Settled(p, y))
  }

  /** A thread that takes the lock finds its name unmapped, or the name's address
      least recent of a full cache, or the ring pointer at it. */
  predicate TakesLockSafely(p: Pool, y: System, a: Action) {
    a.Continue? && y.PcOf(a.t).WantLock? ==>
      var s, d := y.s, y.PcOf(a.t).d;
      d !in s.domainToIp || |After(s.lru, s.domainToIp[d])| == p.cap - 1 || s.next == s.domainToIp[d]
  }

  ghost predicate KeepsThroughout(p: Pool, y: System, schedule: seq<Action>) {
    forall n | 0 <= n <= |schedule| ::
      Execute(p, y, schedule[..n]).Some? && SettledInv(p, Execute(p, y, schedule[..n]).value)
  }

  ghost predicate SafeThroughout(p: Pool, y: System, schedule: seq<Action>) {
    forall n | 0 <= n < |schedule| ::
      Execute(p, y, schedule[..n]).Some? && TakesLockSafely(p, Execute(p, y, schedule[..n]).value, schedule[n])
  }

  /** One step changes the settled state by a touch, by a whole allocation when it
      takes the lock, or not at all. */
  lemma StepSettled(p: Pool, y: System, a: Action)
    requires LockInv(y) && Enabled(y, a)
    ensures LockInv(Apply(p, y, a))
    ensures var z, pc := Apply(p, y, a), y.PcOf(a.t);
            if a.Continue? && pc.WantTouch? then
              Settled(p, y) == y.s && Settled(p, z) == y.s.(lru := Touch(y.s.lru, pc.hit))
            else if a.Continue? && pc.WantLock? then
              Settled(p, y) == y.s && Settled(p, z) == AllocateNew(p, y.s, pc.d).0
            else
              Settled(p, z) == Settled(p, y)
  {
    hide Normalize, Finish, AllocateNew, Touch, HolderStep;
    var z, pc := Apply(p, y, a), y.PcOf(a.t);
    FinishOfIdle(p, y.s);
    FinishOfIdle(p, z.s);
    if !a.Continue? {
      assert HolderPc(z) == HolderPc(y);
    } else if pc.WantLock? {
      FinishIsAllocateNew(p, y.s, pc.d);
    } else if pc.Holding() {
      StepSettles(p, y.s, pc);
    }
  }

  lemma StepKeepsIff(p: Pool, y: System, a: Action)
    requires SettledInv(p, y) && Enabled(y, a)
    ensures SettledInv(p, Apply(p, y, a)) <==> TakesLockSafely(p, y, a)
  {
    hide FakeDns.Inv, LockInv, Settled, AllocateNew, Touch;
    StepSettled(p, y, a);
    var pc := y.PcOf(a.t);
    if a.Continue? && pc.WantTouch? {
      TouchKeepsInv(p, y.s, pc.hit);
    } else if a.Continue? && pc.WantLock? {
      LateMissKeepsIff(p, y.s, pc.d);
    }
  }

  lemma KeepsFromFirst(p: Pool, y: System, schedule: seq<Action>)
    requires schedule != [] && Enabled(y, schedule[0])
    ensures KeepsThroughout(p, y, schedule)
            <==> SettledInv(p, y) && KeepsThroughout(p, Apply(p, y, schedule[0]), schedule[1..])
  {
    hide SettledInv, Enabled, Apply;
    var z, rest := Apply(p, y, schedule[0]), schedule[1..];
    assert Execute(p, y, schedule[..0]) == Some(y);
    forall n | 0 <= n <= |rest| ensures Execute(p, y, schedule[..n + 1]) == Execute(p, z, rest[..n]) {
      assert schedule[..n + 1][1..] == rest[..n];
    }
    if SettledInv(p, y) && KeepsThroughout(p, z, rest) {
      forall n | 0 <= n <= |schedule|
        ensures Execute(p, y, schedule[..n]).Some? && SettledInv(p, Execute(p, y, schedule[..n]).value)
      {
        if n > 0 {
          assert Execute(p, y, schedule[..n]) == Execute(p, z, rest[..n - 1]);
        }
      }
    }
  }

  lemma SafeFromFirst(p: Pool, y: System, schedule: seq<Action>)
    requires schedule != [] && Enabled(y, schedule[0])
    ensures SafeThroughout(p, y, schedule)
            <==> TakesLockSafely(p, y, schedule[0]) && SafeThroughout(p, Apply(p, y, schedule[0]), schedule[1..])
  {
    hide TakesLockSafely, Enabled, Apply;
    var z, rest := Apply(p, y, schedule[0]), schedule[1..];
    assert Execute(p, y, schedule[..0]) == Some(y);
    forall n | 0 <= n < |rest| ensures Execute(p, y, schedule[..n + 1]) == Execute(p, z, rest[..n]) {
      assert schedule[..n + 1][1..] == rest[..n];
    }
    if TakesLockSafely(p, y, schedule[0]) && SafeThroughout(p, z, rest) {
      forall n | 0 <= n < |schedule|
        ensures Execute(p, y, schedule[..n]).Some?
        ensures TakesLockSafely(p, Execute(p, y, schedule[..n]).value, schedule[n])
      {
        if n > 0 {
          assert Execute(p, y, schedule[..n]) == Execute(p, z, rest[..n - 1]) && schedule[n] == rest[n - 1];
        }
      }
    }
  }

  /** For any threads and any schedule: the sequential invariant holds all along,
      once the thread in the lock is through, if and only if every thread that
      takes the lock finds its name unmapped, or the name's address least recent
      of a full cache, or the ring pointer at it. */
  lemma {:induction false} ScheduleKeepsIff(p: Pool, y: System, schedule: seq<Action>)
    requires SettledInv(p, y) && Execute(p, y, schedule).Some?
    ensures KeepsThroughout(p, y, schedule) <==> SafeThroughout(p, y, schedule)
    decreases |schedule|
  {
    hide SettledInv, TakesLockSafely, Apply;
    if schedule == [] {
      assert schedule[..0] == [];
    } else {
      var z := Apply(p, y, schedule[0]);
      KeepsFromFirst(p, y, schedule);
      SafeFromFirst(p, y, schedule);
      StepKeepsIff(p, y, schedule[0]);
      if SettledInv(p, z) {
        ScheduleKeepsIff(p, z, schedule[1..]);
      } else {
        assert Execute(p, z, schedule[1..][..0]) == Some(z);
      }
    }
  }

  /** So it is for every schedule from an empty allocator on. */
  lemma {:induction false} ScheduleFromStartKeepsIff(p: Pool, schedule: seq<Action>)
    requires p.cap >= 1 && Execute(p, Start(p), schedule).Some?
    ensures KeepsThroughout(p, Start(p), schedule) <==> SafeThroughout(p, Start(p), schedule)
  {
    assert Initial(p).ipToDomain.Keys == {};
    FinishOfIdle(p, Initial(p));
    assert SettledInv(p, Start(p));
    ScheduleKeepsIff(p, Start(p), schedule);
  }
}
