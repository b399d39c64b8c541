/**
 The FakeDNS allocator under threads (src/dns/fake_dns.rs). `allocate` looks the
 name up without the lock and only then takes the LRU lock; everything after
 that is a sequence of single map, LRU and atomic operations, each one step
 here, interleaved in any order with the steps of other threads. The guards of
 the sharded maps are the subject of `FakeDnsProgress`.
 */
module FakeDnsConcurrent {
  import opened LeastRecent
  import opened FakeDns
  import opened Numbers

  type Tid = nat

  /** Where a thread is. The states from `Locked` on are inside the lock. */
  datatype Pc =
    | Idle
    | WantTouch(hit: nat)                          // lines 110, 185: lock, lru.get, unlock
    | WantLock(d: string)                          // line 123
    | Locked(d: string)                            // lines 126-128
    | EvictIp(d: string, evicted: nat)             // line 129
    | EvictName(d: string, prev: string)            // line 130
    | RingLoad(d: string)                          // line 138
    | RingCas(d: string, current: nat)             // lines 145-151
    | Check(d: string, ip: nat)                    // line 158
    | OverwriteIp(d: string, ip: nat)              // line 160
    | OverwriteName(d: string, ip: nat, prev: string) // line 161
    | OverwriteLru(d: string, ip: nat)             // line 162
    | InsertIp(d: string, ip: nat)                 // line 171
    | InsertName(d: string, ip: nat)               // line 172
    | InsertLru(d: string, ip: nat)                // line 173
  {
    predicate Holding() {
      !Idle? && !WantTouch? && !WantLock?
    }
  }

  /** One step of the thread that holds the lock; `Idle` means it let go. */
  function HolderStep(p: Pool, s: State, pc: Pc): (State, Pc)
    requires pc.Holding()
  {
    match pc
    case Locked(d) =>
      if |s.lru| >= p.cap && s.lru != [] then (s.(lru := s.lru[1..]), EvictIp(d, s.lru[0]))
      else (s, RingLoad(d))
    case EvictIp(d, e) =>
      if e in s.ipToDomain then (s.(ipToDomain := s.ipToDomain - {e}), EvictName(d, s.ipToDomain[e]))
      else (s, RingLoad(d))
    case EvictName(d, prev) => (s.(domainToIp := s.domainToIp - {prev}), RingLoad(d))
    case RingLoad(d) => (s, RingCas(d, s.next))
    case RingCas(d, current) =>
      if s.next == current then (s.(next := p.Next(current)), Check(d, current)) else (s, RingLoad(d))
    case Check(d, ip) => (s, if ip in s.ipToDomain then OverwriteIp(d, ip) else InsertIp(d, ip))
    case OverwriteIp(d, ip) =>
      if ip in s.ipToDomain then (s.(ipToDomain := s.ipToDomain - {ip}), OverwriteName(d, ip, s.ipToDomain[ip]))
      else (s, InsertIp(d, ip))
    case OverwriteName(d, ip, prev) => (s.(domainToIp := s.domainToIp - {prev}), OverwriteLru(d, ip))
    case OverwriteLru(d, ip) => (s.(lru := Remove(s.lru, ip)), InsertIp(d, ip))
    case InsertIp(d, ip) => (s.(ipToDomain := s.ipToDomain[ip := d]), InsertName(d, ip))
    case InsertName(d, ip) => (s.(domainToIp := s.domainToIp[d := ip]), InsertLru(d, ip))
    case InsertLru(d, ip) => (s.(lru := Put(p.cap, s.lru, ip)), Idle)
  }

  /** Shared state, the lock, and the threads that are inside a call. */
  datatype System = System(s: State, holder: Option<Tid>, threads: map<Tid, Pc>) {
    function PcOf(t: Tid): Pc {
      if t in threads then threads[t] else Idle
    }
  }

  datatype Action = CallAllocate(t: Tid, domain: string) | CallLookup(t: Tid, ip: nat) | Continue(t: Tid)

  predicate Enabled(y: System, a: Action) {
    match a
    case CallAllocate(t, _) => y.PcOf(t).Idle?
    case CallLookup(t, _) => y.PcOf(t).Idle?
    case Continue(t) => if y.PcOf(t).Holding() then true else !y.PcOf(t).Idle? && y.holder == None
  }

  function Apply(p: Pool, y: System, a: Action): System
    requires Enabled(y, a)
  {
    match a
    case CallAllocate(t, domain) =>
      var d := Normalize(domain);
      y.(threads := y.threads[t := if d in y.s.domainToIp then WantTouch(y.s.domainToIp[d]) else WantLock(d)])
    case CallLookup(t, ip) =>
      y.(threads := y.threads[t := if ip in y.s.ipToDomain then WantTouch(ip) else Idle])
    case Continue(t) =>
      var pc := y.PcOf(t);
      if pc.WantTouch? then System(y.s.(lru := Touch(y.s.lru, pc.hit)), None, y.threads[t := Idle])
      else if pc.WantLock? then System(y.s, Some(t), y.threads[t := Locked(pc.d)])
      else
        var (s, pc') := HolderStep(p, y.s, pc);
        System(s, if pc'.Idle? then None else y.holder, y.threads[t := pc'])
  }

  function Start(p: Pool): System {
    System(Initial(p), None, map[])
  }

  /** The system after a schedule; `None` if a step of it was not enabled. */
  function Execute(p: Pool, y: System, schedule: seq<Action>): Option<System>
    decreases |schedule|
  {
    if schedule == [] then Some(y)
    else if Enabled(y, schedule[0]) then Execute(p, Apply(p, y, schedule[0]), schedule[1..])
    else None
  }

  // ----- the invariant -----

  /** What holds whenever the lock is free. Unlike the sequential invariant it
      lets two addresses map to one name. */
  ghost predicate Consistent(p: Pool, s: State) {
    NamesBacked(s, {}) && LruHolds(p, s, s.ipToDomain.Keys)
  }

  /** Every stored name outside `pending` maps to an address that maps back. */
  ghost predicate NamesBacked(s: State, pending: set<string>) {
    forall d :: d in s.domainToIp && d !in pending ==>
      s.domainToIp[d] in s.ipToDomain && s.ipToDomain[s.domainToIp[d]] == d
  }

  ghost predicate LruHolds(p: Pool, s: State, keys: set<nat>) {
    NoDup(s.lru) && Elems(s.lru) == keys && |s.lru| <= p.cap
  }

  ghost predicate HolderInv(p: Pool, s: State, pc: Pc) {
    var keys := s.ipToDomain.Keys;
    var room := |s.lru| < p.cap;
    match pc
    case Idle => Consistent(p, s)
    case WantTouch(_) => Consistent(p, s)
    case WantLock(_) => Consistent(p, s)
    case Locked(d) => Consistent(p, s)
    case EvictIp(d, e) => NamesBacked(s, {}) && e in keys && LruHolds(p, s, keys - {e}) && room
    case EvictName(d, prev) => NamesBacked(s, {prev}) && LruHolds(p, s, keys) && room
    case RingLoad(d) => Consistent(p, s) && room
    case RingCas(d, current) => Consistent(p, s) && room && s.next == current
    case Check(d, ip) => Consistent(p, s) && room
    case OverwriteIp(d, ip) => Consistent(p, s) && room && ip in keys
    case OverwriteName(d, ip, prev) => NamesBacked(s, {prev}) && ip !in keys && LruHolds(p, s, keys + {ip}) && room
    case OverwriteLru(d, ip) => NamesBacked(s, {}) && ip !in keys && LruHolds(p, s, keys + {ip}) && room
    case InsertIp(d, ip) => Consistent(p, s) && room && ip !in keys
    case InsertName(d, ip) =>
      NamesBacked(s, {}) && ip in keys && s.ipToDomain[ip] == d && LruHolds(p, s, keys - {ip}) && room
    case InsertLru(d, ip) => NamesBacked(s, {}) && ip in keys && LruHolds(p, s, keys - {ip}) && room
  }

  /** Every micro-step under the lock keeps the invariant of its program point;
      in particular the compare-and-swap always succeeds and the final `put`
      never evicts. */
  lemma HolderStepKeeps(p: Pool, s: State, pc: Pc)
    requires p.cap >= 1 && pc.Holding() && HolderInv(p, s, pc)
    ensures var (t, pc') := HolderStep(p, s, pc);
            && HolderInv(p, t, pc')
            && (pc.RingCas? ==> pc'.Check?)
            && (pc.EvictIp? ==> pc'.EvictName?)
            && (pc.OverwriteIp? ==> pc'.OverwriteName?)
            && (pc.InsertLru? ==> t.lru == s.lru + [pc.ip])
  {
    match pc
    case Locked(d) =>
      if |s.lru| >= p.cap {
        DropFirst(s.lru);
        assert s.lru[0] in Elems(s.lru);
      }
    case OverwriteLru(d, ip) => RemoveElems(s.lru, ip);
    case InsertLru(d, ip) =>
      assert ip !in Elems(s.lru);
      NoDupAppend(s.lru, ip);
    case _ =>
  }

  /** Exactly the holder is inside the lock, and its program point's invariant holds. */
  ghost predicate SystemInv(p: Pool, y: System) {
    && (forall t :: t in y.threads && y.threads[t].Holding() ==> y.holder == Some(t))
    && (y.holder.Some? ==> y.PcOf(y.holder.value).Holding())
    && HolderInv(p, y.s, if y.holder.Some? then y.PcOf(y.holder.value) else Idle)
  }

  lemma ApplyKeeps(p: Pool, y: System, a: Action)
    requires p.cap >= 1 && SystemInv(p, y) && Enabled(y, a)
    ensures SystemInv(p, Apply(p, y, a))
  {
    match a
    case CallAllocate(t, _) =>
    case CallLookup(t, _) =>
    case Continue(t) =>
      var pc := y.PcOf(t);
      if pc.WantTouch? {
        TouchKeeps(y.s.lru, pc.hit);
      } else if pc.Holding() {
        HolderStepKeeps(p, y.s, pc);
      }
  }

  /** For any number of threads and any interleaving of `allocate` and `lookup`:
      whenever the lock is free, every name's address maps back to the name, the
      LRU holds exactly the mapped addresses, and there are at most `cap` of them. */
  lemma {:induction false} EveryScheduleKeeps(p: Pool, y: System, schedule: seq<Action>)
    requires p.cap >= 1 && SystemInv(p, y) && Execute(p, y, schedule).Some?
    ensures var z := Execute(p, y, schedule).value;
            SystemInv(p, z) && (z.holder == None ==> Consistent(p, z.s) && |z.s.ipToDomain.Keys| <= p.cap)
    decreases |schedule|
  {
    if schedule == [] {
      if y.holder == None {
        ElemsSize(y.s.lru);
      }
    } else {
      ApplyKeeps(p, y, schedule[0]);
      EveryScheduleKeeps(p, Apply(p, y, schedule[0]), schedule[1..]);
    }
  }

  lemma StartInv(p: Pool)
    requires p.cap >= 1
    ensures SystemInv(p, Start(p))
  {
    assert Elems(Initial(p).lru) == Initial(p).ipToDomain.Keys;
  }

  /** So it is from an empty allocator on, at every point of every schedule at
      which the lock is free. */
  lemma {:induction false} FreeLockIsConsistent(p: Pool, schedule: seq<Action>)
    requires p.cap >= 1 && Execute(p, Start(p), schedule).Some?
    ensures var z := Execute(p, Start(p), schedule).value;
            z.holder == None ==> Consistent(p, z.s) && |z.s.ipToDomain.Keys| <= p.cap
  {
    hide SystemInv, Start, Execute, Consistent;
    StartInv(p);
    EveryScheduleKeeps(p, Start(p), schedule);
  }

  // ----- the micro-steps, run undisturbed, are the sequential operation -----

  function Rank(pc: Pc): nat {
    match pc
    case Locked(_) => 12
    case EvictIp(_, _) => 11
    case EvictName(_, _) => 10
    case RingLoad(_) => 9
    case RingCas(_, _) => 8
    case Check(_, _) => 7
    case OverwriteIp(_, _) => 6
    case OverwriteName(_, _, _) => 5
    case OverwriteLru(_, _) => 4
    case InsertIp(_, _) => 3
    case InsertName(_, _) => 2
    case InsertLru(_, _) => 1
    case _ => 0
  }

  predicate CasWillSucceed(s: State, pc: Pc) {
    pc.RingCas? ==> s.next == pc.current
  }

  /** The state once the holder has run to the end. */
  function Finish(p: Pool, s: State, pc: Pc): State
    requires CasWillSucceed(s, pc)
    decreases Rank(pc)
  {
    if pc.Holding() then
      var (t, pc') := HolderStep(p, s, pc);
      Finish(p, t, pc')
    else s
  }

  lemma FinishInsert(p: Pool, s: State, d: string, ip: nat)
    ensures Finish(p, s, InsertIp(d, ip)) == Bind(p, s, ip, d)
  {
    var s1 := s.(ipToDomain := s.ipToDomain[ip := d]);
    var s2 := s1.(domainToIp := s1.domainToIp[d := ip]);
    assert Finish(p, s, InsertIp(d, ip)) == Finish(p, s1, InsertName(d, ip));
    assert Finish(p, s1, InsertName(d, ip)) == Finish(p, s2, InsertLru(d, ip));
    assert Finish(p, s2, InsertLru(d, ip)) == Finish(p, Bind(p, s, ip, d), Idle);
  }

  lemma FinishCheck(p: Pool, s: State, d: string, ip: nat)
    ensures Finish(p, s, Check(d, ip)) == Bind(p, Overwrite(s, ip), ip, d)
  {
    FinishInsert(p, Overwrite(s, ip), d, ip);
    if ip in s.ipToDomain {
      var s1 := s.(ipToDomain := s.ipToDomain - {ip});
      var s2 := s1.(domainToIp := s1.domainToIp - {s.ipToDomain[ip]});
      assert Finish(p, s, Check(d, ip)) == Finish(p, s, OverwriteIp(d, ip));
      assert Finish(p, s, OverwriteIp(d, ip)) == Finish(p, s1, OverwriteName(d, ip, s.ipToDomain[ip]));
      assert Finish(p, s1, OverwriteName(d, ip, s.ipToDomain[ip])) == Finish(p, s2, OverwriteLru(d, ip));
      assert Finish(p, s2, OverwriteLru(d, ip)) == Finish(p, Overwrite(s, ip), InsertIp(d, ip));
    }
  }

  lemma FinishRing(p: Pool, s: State, d: string)
    ensures Finish(p, s, RingLoad(d)) == Bind(p, Overwrite(s.(next := p.Next(s.next)), s.next), s.next, d)
  {
    var advanced := s.(next := p.Next(s.next));
    FinishCheck(p, advanced, d, s.next);
    assert Finish(p, s, RingLoad(d)) == Finish(p, s, RingCas(d, s.next));
    assert Finish(p, s, RingCas(d, s.next)) == Finish(p, advanced, Check(d, s.next));
  }

  /** Without interference the locked part of `allocate` is the sequential `AllocateNew`. */
  lemma FinishIsAllocateNew(p: Pool, s: State, d: string)
    ensures Finish(p, s, Locked(d)) == AllocateNew(p, s, d).0
  {
    FinishRing(p, Evict(p, s), d);
    if |s.lru| >= p.cap && s.lru != [] {
      var e := s.lru[0];
      var s1 := s.(lru := s.lru[1..]);
      assert Finish(p, s, Locked(d)) == Finish(p, s1, EvictIp(d, e));
      if e in s1.ipToDomain {
        var s2 := s1.(ipToDomain := s1.ipToDomain - {e});
        assert Finish(p, s1, EvictIp(d, e)) == Finish(p, s2, EvictName(d, s1.ipToDomain[e]));
        assert Finish(p, s2, EvictName(d, s1.ipToDomain[e])) == Finish(p, Evict(p, s), RingLoad(d));
      }
    }
  }

  /** The holder can always be scheduled to the end of its call. */
  lemma {:induction false} RunHolder(p: Pool, y: System, t: Tid) returns (schedule: seq<Action>)
    requires y.holder == Some(t) && y.PcOf(t).Holding() && CasWillSucceed(y.s, y.PcOf(t))
    ensures Execute(p, y, schedule) == Some(System(Finish(p, y.s, y.PcOf(t)), None, y.threads[t := Idle]))
    decreases Rank(y.PcOf(t))
  {
    var z := Apply(p, y, Continue(t));
    assert Enabled(y, Continue(t));
    var (s, pc') := HolderStep(p, y.s, y.PcOf(t));
    if pc'.Idle? {
      schedule := [Continue(t)];
      assert schedule[1..] == [];
      assert Execute(p, z, []) == Some(z);
    } else {
      var rest := RunHolder(p, z, t);
      schedule := [Continue(t)] + rest;
      assert schedule[1..] == rest;
      assert z.threads[t := Idle] == y.threads[t := Idle];
    }
  }

  lemma {:induction false} ExecuteConcat(p: Pool, y: System, a: seq<Action>, b: seq<Action>)
    requires Execute(p, y, a).Some?
    ensures Execute(p, y, a + b) == Execute(p, Execute(p, y, a).value, b)
    decreases |a|
  {
    if a == [] {
      assert a + b == b;
    } else {
      assert (a + b)[1..] == a[1..] + b;
      ExecuteConcat(p, Apply(p, y, a[0]), a[1..], b);
    }
  }

  /** A waiting thread takes the free lock and runs to the end. */
  lemma RunWaiter(p: Pool, y: System, t: Tid) returns (schedule: seq<Action>)
    requires y.holder == None && y.PcOf(t).WantLock?
    ensures Execute(p, y, schedule) == Some(System(AllocateNew(p, y.s, y.PcOf(t).d).0, None, y.threads[t := Idle]))
  {
    var d := y.PcOf(t).d;
    var z := Apply(p, y, Continue(t));
    var rest := RunHolder(p, z, t);
    FinishIsAllocateNew(p, y.s, d);
    schedule := [Continue(t)] + rest;
    assert schedule[1..] == rest;
    assert z.threads[t := Idle] == y.threads[t := Idle];
  }

  /** A call that nobody interrupts is the sequential operation. */
  lemma LookupAlone(p: Pool, y: System, t: Tid, ip: nat) returns (schedule: seq<Action>)
    requires y.holder == None && y.PcOf(t).Idle?
    ensures Execute(p, y, schedule) == Some(System(LookupStep(y.s, ip).0, None, y.threads[t := Idle]))
  {
    hide Touch;
    var call := CallLookup(t, ip);
    var z := Apply(p, y, call);
    assert [call][1..] == [] && [call, Continue(t)][1..] == [Continue(t)] && [Continue(t)][1..] == [];
    if ip in y.s.ipToDomain {
      schedule := [call, Continue(t)];
      var last := Apply(p, z, Continue(t));
      assert Execute(p, z, [Continue(t)]) == Execute(p, last, []) == Some(last);
      assert last.threads == y.threads[t := Idle];
    } else {
      schedule := [call];
      assert Execute(p, z, []) == Some(z);
    }
  }

  lemma AllocateAlone(p: Pool, y: System, t: Tid, domain: string) returns (schedule: seq<Action>)
    requires y.holder == None && y.PcOf(t).Idle?
    ensures Execute(p, y, schedule) == Some(System(AllocateStep(p, y.s, domain).0, None, y.threads[t := Idle]))
  {
    hide Touch, Normalize, AllocateNew;
    var call := CallAllocate(t, domain);
    var z := Apply(p, y, call);
    if Normalize(domain) in y.s.domainToIp {
      schedule := [call, Continue(t)];
      assert [call, Continue(t)][1..] == [Continue(t)] && [Continue(t)][1..] == [];
      var last := Apply(p, z, Continue(t));
      assert Execute(p, z, [Continue(t)]) == Execute(p, last, []) == Some(last);
      assert last.threads == y.threads[t := Idle];
    } else {
      var rest := RunWaiter(p, z, t);
      schedule := [call] + rest;
      assert schedule[1..] == rest;
      assert z.threads[t := Idle] == y.threads[t := Idle];
    }
  }

  // ----- the race the unlocked check allows -----

  /** The locked part keeps the sequential invariant exactly when the name is
      still unmapped once the lock is held, or the address it has meanwhile been
      given is removed by this very call. */
  lemma {:induction false} LateMissKeepsIff(p: Pool, s: State, d: string)
    requires Inv(p, s)
    ensures Inv(p, AllocateNew(p, s, d).0)
            <==> || d !in s.domainToIp
                 || |After(s.lru, s.domainToIp[d])| == p.cap - 1
                 || s.next == s.domainToIp[d]
  {
    var e := Evict(p, s);
    EvictKeeps(p, s);
    var advanced := e.(next := p.Next(s.next));
    OverwriteKeeps(p, advanced, s.next);
    var o := Overwrite(advanced, s.next);
    if d !in o.domainToIp {
      BindKeeps(p, o, s.next, d);
    } else {
      var mapped := o.domainToIp[d];
      var t := Bind(p, o, s.next, d);
      assert t.ipToDomain[mapped] == d && t.domainToIp[d] != mapped;
    }
    if d in s.domainToIp {
      MappedNameSurvivesIff(p, s, d);
    }
  }

  lemma MappedNameSurvivesIff(p: Pool, s: State, d: string)
    requires Inv(p, s) && d in s.domainToIp
    ensures d in Overwrite(Evict(p, s).(next := p.Next(s.next)), s.next).domainToIp
            <==> |After(s.lru, s.domainToIp[d])| != p.cap - 1 && s.next != s.domainToIp[d]
  {
    EvictRemovesIff(p, s, s.domainToIp[d]);
    EvictKeeps(p, s);
  }

  /** Both threads look the name up before either takes the lock. */
  lemma BothWait(p: Pool, domain: string)
    ensures var d := Normalize(domain);
            Execute(p, Start(p), [CallAllocate(0, domain), CallAllocate(1, domain)])
            == Some(System(Initial(p), None, map[0 := WantLock(d), 1 := WantLock(d)]))
  {
    hide Normalize;
    var d, a, b := Normalize(domain), CallAllocate(0, domain), CallAllocate(1, domain);
    var y1 := Apply(p, Start(p), a);
    var y2 := Apply(p, y1, b);
    assert y2.threads == map[0 := WantLock(d), 1 := WantLock(d)];
    assert [a, b][1..] == [b] && [b][1..] == [];
    assert Execute(p, y1, [b]) == Execute(p, y2, []);
  }

  /** With room and at a free address, an allocation only adds. */
  lemma OnlyAdds(p: Pool, s: State, d: string)
    requires |s.lru| < p.cap && s.next !in s.ipToDomain && s.next !in s.lru
    ensures AllocateNew(p, s, d).0
            == State(s.ipToDomain[s.next := d], s.domainToIp[d := s.next], s.lru + [s.next], p.Next(s.next))
  {
    assert Evict(p, s) == s;
    var advanced := s.(next := p.Next(s.next));
    assert Overwrite(advanced, s.next) == advanced;
    hide Evict, Overwrite;
  }

  /** Two allocations in a row for one name, the second unaware of the first. */
  lemma FirstTwo(p: Pool, d: string)
    requires p.cap >= 2 && p.Size() >= 2
    ensures var s := AllocateNew(p, AllocateNew(p, Initial(p), d).0, d).0;
            && s.ipToDomain == map[p.start := d, p.start + 1 := d]
            && s.domainToIp == map[d := p.start + 1] && !Inv(p, s)
  {
    hide AllocateNew, NoDup, Elems;
    OnlyAdds(p, Initial(p), d);
    var s := AllocateNew(p, Initial(p), d).0;
    assert s == State(map[p.start := d], map[d := p.start], [p.start], p.start + 1);
    OnlyAdds(p, s, d);
    var t := AllocateNew(p, s, d).0;
    assert t.ipToDomain == map[p.start := d, p.start + 1 := d] && t.domainToIp == map[d := p.start + 1];
    assert t.ipToDomain[p.start] == d && t.domainToIp[d] != p.start;
  }

  /** Two racing misses on one name: there is a schedule after which, with the
      lock free, two addresses map to that name. */
  lemma RaceLeavesTwoAddresses(p: Pool, domain: string) returns (schedule: seq<Action>)
    requires p.cap >= 2 && p.Size() >= 2
    ensures Execute(p, Start(p), schedule).Some?
    ensures var z := Execute(p, Start(p), schedule).value;
            var d := Normalize(domain);
            && z.holder == None
            && z.s.ipToDomain == map[p.start := d, p.start + 1 := d]
            && z.s.domainToIp == map[d := p.start + 1]
            && !Inv(p, z.s)
  {
    var d := Normalize(domain);
    var y0 := Start(p);
    var calls := [CallAllocate(0, domain), CallAllocate(1, domain)];
    var y2 := System(Initial(p), None, map[0 := WantLock(d), 1 := WantLock(d)]);
    BothWait(p, domain);
    hide Normalize, Execute, AllocateNew, Inv;
    var first := RunWaiter(p, y2, 0);
    var y3 := Execute(p, y2, first).value;
    var second := RunWaiter(p, y3, 1);
    var y4 := Execute(p, y3, second).value;
    ExecuteConcat(p, y0, calls, first + second);
    ExecuteConcat(p, y2, first, second);
    schedule := calls + (first + second);
    FirstTwo(p, d);
  }
}
