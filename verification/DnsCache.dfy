/**
 The DNS response cache (src/dns/cache.rs): an LRU of responses with expiry
 times, whose answers are patched to the time that remains. The clock is passed
 in, in nanoseconds.
 */
module DnsCache {
  import opened Ascii
  import opened DnsWire
  import opened LeastRecent
  import opened Numbers

  const NANOS := 1_000_000_000
  const U32_LIMIT := 0x1_0000_0000

  datatype Key = Key(domain: string, qtype: nat)

  datatype Entry = Entry(response: Bytes, expiresAt: nat)

  datatype Config = Config(cap: nat, minTtl: nat, maxTtl: nat) {
    /** `clamp` panics unless min <= max; both are u32. */
    predicate Valid() {
      cap >= 1 && minTtl <= maxTtl < U32_LIMIT
    }
  }

  datatype State = State(entries: map<Key, Entry>, order: seq<Key>)

  ghost predicate Inv(c: Config, s: State, now: nat) {
    && c.Valid() && NoDup(s.order) && Elems(s.order) == s.entries.Keys && |s.order| <= c.cap
    && forall k :: k in s.entries ==> s.entries[k].expiresAt <= now + c.maxTtl * NANOS
  }

  function KeyOf(domain: string, qtype: nat): Key {
    Key(ToLower(domain), qtype)
  }

  /** Two queries share an entry exactly when they ask for the same type and their
      names differ at most in the case of letters. */
  lemma KeyIff(d: string, q: nat, e: string, r: nat)
    ensures KeyOf(d, q) == KeyOf(e, r) <==> SpelledAlike(d, e) && q == r
  {
    SameCaseIff(d, e);
  }

  function Clamp(c: Config, ttl: nat): nat {
    if ttl < c.minTtl then c.minTtl else if ttl > c.maxTtl then c.maxTtl else ttl
  }

  /** The answer for an entry that is still valid: TTLs are the whole seconds left, as a u32. */
  function Served(e: Entry, now: nat): Bytes
    requires now < e.expiresAt
  {
    Patched(e.response, ((e.expiresAt - now) / NANOS) % U32_LIMIT)
  }

  function Pop(s: State, k: Key): State {
    State(s.entries - {k}, Remove(s.order, k))
  }

  function GetStep(s: State, k: Key, now: nat): (State, Option<Bytes>) {
    if k !in s.entries then (s, None)
    else
      var used := s.(order := Touch(s.order, k));
      if now >= s.entries[k].expiresAt then (Pop(used, k), None)
      else (used, Some(Served(s.entries[k], now)))
  }

  /** `put`: replaces the entry of a present key; for an absent key a full cache
      first drops its least recent one. */
  function InsertStep(c: Config, s: State, k: Key, response: Bytes, ttl: nat, now: nat): State {
    var e := Entry(response, now + Clamp(c, ttl) * NANOS);
    var kept := if k !in s.entries && |s.order| >= c.cap && s.order != [] then s.entries - {s.order[0]} else s.entries;
    State(kept[k := e], Put(c.cap, s.order, k))
  }

  function Unexpired(entries: map<Key, Entry>, now: nat): map<Key, Entry> {
    map k | k in entries && now < entries[k].expiresAt :: entries[k]
  }

  /** The keys of `order` whose entries have not expired. */
  function KeepOrder(s: State, order: seq<Key>, now: nat): seq<Key> {
    if order == [] then []
    else if order[0] in s.entries && now >= s.entries[order[0]].expiresAt then KeepOrder(s, order[1..], now)
    else [order[0]] + KeepOrder(s, order[1..], now)
  }

  function CleanupStep(s: State, now: nat): State {
    State(Unexpired(s.entries, now), KeepOrder(s, s.order, now))
  }

  // ----- every operation keeps the invariant -----

  lemma PopKeeps(c: Config, s: State, k: Key, now: nat)
    requires Inv(c, s, now)
    ensures Inv(c, Pop(s, k), now)
  {
    RemoveElems(s.order, k);
  }

  lemma GetKeeps(c: Config, s: State, k: Key, now: nat)
    requires Inv(c, s, now)
    ensures Inv(c, GetStep(s, k, now).0, now)
  {
    TouchKeeps(s.order, k);
    PopKeeps(c, s.(order := Touch(s.order, k)), k, now);
  }

  lemma ClampBounds(c: Config, ttl: nat)
    requires c.Valid()
    ensures c.minTtl <= Clamp(c, ttl) <= c.maxTtl
    ensures Clamp(c, ttl) * NANOS <= c.maxTtl * NANOS
  {
  }

  function Distance(a: nat, b: nat): nat {
    if a <= b then b - a else a - b
  }

  /** The clamped TTL is the nearest one within the bounds: the TTL itself when it
      lies within them. */
  lemma ClampIsNearest(c: Config, ttl: nat)
    requires c.Valid()
    ensures c.minTtl <= Clamp(c, ttl) <= c.maxTtl
    ensures forall t: nat | c.minTtl <= t <= c.maxTtl :: Distance(Clamp(c, ttl), ttl) <= Distance(t, ttl)
    ensures c.minTtl <= ttl <= c.maxTtl ==> Clamp(c, ttl) == ttl
  {
  }

  lemma Position(s: seq<Key>, k: Key) returns (a: seq<Key>, b: seq<Key>)
    requires k in s
    ensures s == a + [k] + b
  {
    var i :| 0 <= i < |s| && s[i] == k;
    a, b := s[..i], s[i + 1..];
  }

  /** Looking a key up makes an unexpired one the most recent and changes nothing
      else; an expired one goes, and the others keep their order. */
  lemma GetIs(c: Config, s: State, k: Key, now: nat) returns (a: seq<Key>, b: seq<Key>)
    requires Inv(c, s, now) && k in s.entries
    ensures s.order == a + [k] + b
    ensures now < s.entries[k].expiresAt ==>
              GetStep(s, k, now).0 == State(s.entries, a + b + [k]) && GetStep(s, k, now).1.Some?
    ensures now >= s.entries[k].expiresAt ==> GetStep(s, k, now) == (State(s.entries - {k}, a + b), None)
  {
    assert k in Elems(s.order);
    a, b := Position(s.order, k);
    UsedLast(a, k, b);
    assert a + b + [k] == (a + b) + [k] + [];
    NoDupMoved(a, k, b);
    UsedLast(a + b, k, []);
    assert a + b + [] == a + b;
    hide Served, Inv, NoDup;
  }

  lemma NoDupMoved(a: seq<Key>, k: Key, b: seq<Key>)
    requires NoDup(a + [k] + b)
    ensures NoDup((a + b) + [k] + [])
  {
    UsedLast(a, k, b);
    var s := a + [k] + b;
    assert s[|a|] == k;
    TouchKeeps(s, k);
    assert (a + b) + [k] + [] == a + b + [k];
  }

  ghost predicate Before(order: seq<Key>, x: Key, y: Key) {
    exists i, j :: 0 <= i < j < |order| && order[i] == x && order[j] == y
  }

  /** A clean-up keeps exactly the unexpired entries, as they are, in their order. */
  lemma {:induction false} CleanupIs(c: Config, s: State, now: nat)
    requires Inv(c, s, now)
    ensures var t := CleanupStep(s, now);
            && (forall k :: k in t.entries <==> k in s.entries && now < s.entries[k].expiresAt)
            && (forall k :: k in t.entries ==> t.entries[k] == s.entries[k])
            && (forall k :: k in t.order <==> k in t.entries)
            && (forall x, y :: Before(t.order, x, y) ==> Before(s.order, x, y))
  {
    KeepOrderElems(s, s.order, now);
    assert forall k :: k in s.order <==> k in Elems(s.order);
    assert forall k :: k in KeepOrder(s, s.order, now) <==> k in Elems(KeepOrder(s, s.order, now));
    forall x, y | Before(KeepOrder(s, s.order, now), x, y) ensures Before(s.order, x, y) {
      KeepOrderBefore(s, s.order, now, x, y);
    }
  }

  lemma {:induction false} KeepOrderBefore(s: State, order: seq<Key>, now: nat, x: Key, y: Key)
    requires Before(KeepOrder(s, order, now), x, y)
    ensures Before(order, x, y)
  {
    var kept := KeepOrder(s, order, now);
    var i, j :| 0 <= i < j < |kept| && kept[i] == x && kept[j] == y;
    var rest := KeepOrder(s, order[1..], now);
    KeepOrderWithin(s, order[1..], now);
    if kept == [order[0]] + rest && i == 0 {
      assert kept[j] == rest[j - 1] && y in Elems(rest);
      var m :| 0 <= m < |order[1..]| && order[1..][m] == y;
      assert order[m + 1] == y;
    } else {
      var shift := if kept == [order[0]] + rest then 1 else 0;
      assert rest[i - shift] == x && rest[j - shift] == y;
      KeepOrderBefore(s, order[1..], now, x, y);
      var m, n :| 0 <= m < n < |order[1..]| && order[1..][m] == x && order[1..][n] == y;
      assert order[m + 1] == x && order[n + 1] == y;
    }
  }

  lemma InsertKeeps(c: Config, s: State, k: Key, response: Bytes, ttl: nat, now: nat)
    requires Inv(c, s, now)
    ensures Inv(c, InsertStep(c, s, k, response, ttl, now), now)
  {
    PutElems(c.cap, s.order, k);
    ClampBounds(c, ttl);
    assert k in s.entries <==> k in Elems(s.order);
  }

  lemma {:induction false} KeepOrderElems(s: State, order: seq<Key>, now: nat)
    requires NoDup(order) && Elems(order) <= s.entries.Keys
    ensures NoDup(KeepOrder(s, order, now)) && |KeepOrder(s, order, now)| <= |order|
    ensures Elems(KeepOrder(s, order, now)) == (set k | k in order && now < s.entries[k].expiresAt)
    ensures forall k :: k in KeepOrder(s, order, now) ==> k in order
  {
    if order == [] {
    } else {
      DropFirst(order);
      assert order[0] in Elems(order);
      KeepOrderElems(s, order[1..], now);
      var rest := KeepOrder(s, order[1..], now);
      assert order[0] !in rest;
      assert order == [order[0]] + order[1..];
      if now < s.entries[order[0]].expiresAt {
        assert Elems([order[0]] + rest) == {order[0]} + Elems(rest);
      }
    }
  }

  lemma CleanupKeeps(c: Config, s: State, now: nat)
    requires Inv(c, s, now)
    ensures Inv(c, CleanupStep(s, now), now)
  {
    KeepOrderElems(s, s.order, now);
    var t := CleanupStep(s, now);
    assert forall k :: k in s.order <==> k in Elems(s.order);
    assert Elems(t.order) == t.entries.Keys;
  }

  // ----- runs, and the unbounded TTL map they refine -----

  datatype Op =
    | Get(domain: string, qtype: nat)
    | Insert(domain: string, qtype: nat, response: Bytes, ttl: nat)
    | Forget(domain: string, qtype: nat)
    | Clear
    | Cleanup

  /** An operation and the time at which it runs. */
  datatype Timed = Timed(op: Op, at: nat)

  function Last(start: nat, ops: seq<Timed>): nat {
    if ops == [] then start else ops[|ops| - 1].at
  }

  /** The clock does not go back. */
  predicate ClockRuns(start: nat, ops: seq<Timed>) {
    ops == [] || (var n := |ops| - 1; ClockRuns(start, ops[..n]) && Last(start, ops[..n]) <= ops[n].at)
  }

  function Step(c: Config, s: State, t: Timed): State {
    match t.op
    case Get(d, q) => GetStep(s, KeyOf(d, q), t.at).0
    case Insert(d, q, r, ttl) => InsertStep(c, s, KeyOf(d, q), r, ttl, t.at)
    case Forget(d, q) => Pop(s, KeyOf(d, q))
    case Clear => State(map[], [])
    case Cleanup => CleanupStep(s, t.at)
  }

  function Run(c: Config, s: State, ops: seq<Timed>): State {
    if ops == [] then s else Step(c, Run(c, s, ops[..|ops| - 1]), ops[|ops| - 1])
  }

  /** A map without capacity that forgets nothing by itself: the latest insert of
      every key that was not removed or cleared since. */
  type Ideal = map<Key, Entry>

  function IdealStep(c: Config, m: Ideal, t: Timed): Ideal {
    match t.op
    case Insert(d, q, r, ttl) => m[KeyOf(d, q) := Entry(r, t.at + Clamp(c, ttl) * NANOS)]
    case Forget(d, q) => m - {KeyOf(d, q)}
    case Clear => map[]
    case _ => m
  }

  function IdealRun(c: Config, m: Ideal, ops: seq<Timed>): Ideal {
    if ops == [] then m else IdealStep(c, IdealRun(c, m, ops[..|ops| - 1]), ops[|ops| - 1])
  }

  /** What the ideal map answers: the latest insert, while it lasts, with the
      whole seconds that remain. */
  function IdealGet(m: Ideal, k: Key, now: nat): Option<Bytes> {
    if k in m && now < m[k].expiresAt && (m[k].expiresAt - now) / NANOS < U32_LIMIT then
      Some(Patched(m[k].response, (m[k].expiresAt - now) / NANOS))
    else None
  }

  /** The cache holds only what the ideal map holds. */
  ghost predicate Within(s: State, m: Ideal) {
    forall k :: k in s.entries ==> k in m && m[k] == s.entries[k]
  }

  lemma StepKeeps(c: Config, s: State, m: Ideal, t: Timed, now: nat)
    requires Inv(c, s, now) && now <= t.at && Within(s, m)
    ensures Inv(c, Step(c, s, t), t.at) && Within(Step(c, s, t), IdealStep(c, m, t))
  {
    assert Inv(c, s, t.at);
    match t.op
    case Get(d, q) => GetKeeps(c, s, KeyOf(d, q), t.at);
    case Insert(d, q, r, ttl) => InsertKeeps(c, s, KeyOf(d, q), r, ttl, t.at);
    case Forget(d, q) => PopKeeps(c, s, KeyOf(d, q), t.at);
    case Clear =>
    case Cleanup => CleanupKeeps(c, s, t.at);
  }

  lemma {:induction false} RunKeeps(c: Config, start: nat, ops: seq<Timed>)
    requires c.Valid() && ClockRuns(start, ops)
    ensures Inv(c, Run(c, State(map[], []), ops), Last(start, ops))
    ensures Within(Run(c, State(map[], []), ops), IdealRun(c, map[], ops))
  {
    if ops == [] {
    } else {
      var front := ops[..|ops| - 1];
      RunKeeps(c, start, front);
      StepKeeps(c, Run(c, State(map[], []), front), IdealRun(c, map[], front), ops[|ops| - 1], Last(start, front));
    }
  }

  lemma QuotientBound(a: nat, b: nat, n: nat)
    requires n >= 1 && a <= b * n
    ensures a / n <= b
  {
    var q := a / n;
    assert a == q * n + a % n;
    assert (q - b) * n == q * n - b * n;
    if q > b {
      MultipleAtLeast(q - b, n);
      assert false;
    }
  }

  /** The seconds served never exceed the u32 range, so the cast loses nothing. */
  lemma ServedIsIdeal(c: Config, s: State, m: Ideal, k: Key, now: nat)
    requires Inv(c, s, now) && Within(s, m) && k in s.entries && now < s.entries[k].expiresAt
    ensures IdealGet(m, k, now) == Some(Served(s.entries[k], now))
  {
    var left := s.entries[k].expiresAt - now;
    QuotientBound(left, c.maxTtl, NANOS);
    var secs := left / NANOS;
    assert secs < U32_LIMIT;
    assert secs % U32_LIMIT == secs;
  }

  /** Over any run with a clock that does not go back: a hit is exactly what the
      unbounded TTL map answers, and the cache never exceeds its capacity. */
  lemma HitsAreIdeal(c: Config, start: nat, ops: seq<Timed>, domain: string, qtype: nat, now: nat)
    requires c.Valid() && ClockRuns(start, ops) && Last(start, ops) <= now
    ensures var s := Run(c, State(map[], []), ops);
            var hit := GetStep(s, KeyOf(domain, qtype), now).1;
            && (hit.Some? ==> hit == IdealGet(IdealRun(c, map[], ops), KeyOf(domain, qtype), now))
            && |s.entries| <= c.cap
  {
    var s := Run(c, State(map[], []), ops);
    var k := KeyOf(domain, qtype);
    RunKeeps(c, start, ops);
    if GetStep(s, k, now).1.Some? {
      assert Inv(c, s, now);
      ServedIsIdeal(c, s, IdealRun(c, map[], ops), k, now);
    }
    ElemsSize(s.order);
    assert |s.entries| == |s.entries.Keys|;
  }

  // ----- when the cache answers all the ideal map answers -----

  function KeyUsed(op: Op): set<Key> {
    if op.Get? || op.Insert? then {KeyOf(op.domain, op.qtype)} else {}
  }

  /** The keys other than `k` that the operations look up or insert. */
  function OtherKeys(ops: seq<Timed>, k: Key): set<Key> {
    if ops == [] then {} else OtherKeys(ops[..|ops| - 1], k) + (KeyUsed(ops[|ops| - 1].op) - {k})
  }

  predicate Spares(ops: seq<Timed>, k: Key) {
    forall t :: t in ops ==> !t.op.Clear? && !(t.op.Forget? && KeyOf(t.op.domain, t.op.qtype) == k)
  }

  /** Either `k`'s entry is the ideal one and only keys in `others` are more
      recent, or `k` has expired. */
  ghost predicate Held(s: State, m: Ideal, k: Key, others: set<Key>, now: nat) {
    k in m && ((k in s.entries && s.entries[k] == m[k] && After(s.order, k) <= others) || m[k].expiresAt <= now)
  }

  lemma GetHolds(c: Config, s: State, m: Ideal, k: Key, x: Key, others: set<Key>, at: nat)
    requires Inv(c, s, at) && Held(s, m, k, others, at)
    ensures Held(GetStep(s, x, at).0, m, k, others + ({x} - {k}), at)
  {
    if m[k].expiresAt > at && x in s.entries {
      assert k in Elems(s.order);
      TouchKeeps(s.order, x);
      AfterTouch(s.order, k, x);
      if at >= s.entries[x].expiresAt {
        AfterRemove(Touch(s.order, x), k, x);
      }
    }
  }

  lemma InsertHolds(c: Config, s: State, m: Ideal, k: Key, t: Timed, others: set<Key>)
    requires t.op.Insert? && Inv(c, s, t.at) && Held(s, m, k, others, t.at)
    requires |others + (KeyUsed(t.op) - {k})| < c.cap
    ensures Held(Step(c, s, t), IdealStep(c, m, t), k, others + (KeyUsed(t.op) - {k}), t.at)
  {
    var x := KeyOf(t.op.domain, t.op.qtype);
    assert forall y :: y in s.entries <==> y in Elems(s.order);
    assert forall y :: y in s.order <==> y in Elems(s.order);
    if x == k {
      PutLast(c.cap, s.order, k);
    } else if m[k].expiresAt > t.at {
      SubsetSize(After(s.order, k) + {x}, others + {x});
      assert others + (KeyUsed(t.op) - {k}) == others + {x};
      PutSpares(c.cap, s.order, k, x);
      PutElems(c.cap, s.order, x);
      assert k in Elems(Put(c.cap, s.order, x));
    }
  }

  lemma PutLast(cap: nat, s: seq<Key>, k: Key)
    requires NoDup(s)
    ensures After(Put(cap, s, k), k) == {}
  {
    RemoveElems(s, k);
    if k in s {
      AfterAppendSelf(LeastRecent.Remove(s, k), k);
    } else if |s| >= cap && s != [] {
      assert k !in s[1..];
      AfterAppendSelf(s[1..], k);
    } else {
      AfterAppendSelf(s, k);
    }
  }

  lemma {:induction false} KeepOrderAfter(s: State, order: seq<Key>, k: Key, now: nat)
    requires k in s.entries && now < s.entries[k].expiresAt
    ensures After(KeepOrder(s, order, now), k) <= After(order, k)
  {
    if order == [] {
    } else {
      KeepOrderAfter(s, order[1..], k, now);
      var rest := KeepOrder(s, order[1..], now);
      KeepOrderWithin(s, order[1..], now);
      if KeepOrder(s, order, now) != rest {
        assert ([order[0]] + rest)[1..] == rest;
      }
    }
  }

  lemma {:induction false} KeepOrderWithin(s: State, order: seq<Key>, now: nat)
    ensures Elems(KeepOrder(s, order, now)) <= Elems(order)
  {
    if order == [] {
    } else {
      KeepOrderWithin(s, order[1..], now);
      forall k | k in KeepOrder(s, order, now) ensures k in order {
        assert k == order[0] || k in Elems(order[1..]);
      }
    }
  }

  lemma HeldStep(c: Config, s: State, m: Ideal, k: Key, t: Timed, others: set<Key>, now: nat)
    requires Inv(c, s, now) && now <= t.at && Held(s, m, k, others, now) && Spares([t], k)
    requires |others + (KeyUsed(t.op) - {k})| < c.cap
    ensures Held(Step(c, s, t), IdealStep(c, m, t), k, others + (KeyUsed(t.op) - {k}), t.at)
  {
    assert t in [t];
    assert Inv(c, s, t.at) && Held(s, m, k, others, t.at);
    match t.op
    case Get(d, q) => GetHolds(c, s, m, k, KeyOf(d, q), others, t.at);
    case Insert(_, _, _, _) => InsertHolds(c, s, m, k, t, others);
    case Forget(d, q) => AfterRemove(s.order, k, KeyOf(d, q));
    case Clear =>
    case Cleanup =>
      if m[k].expiresAt > t.at {
        KeepOrderAfter(s, s.order, k, t.at);
      }
  }

  lemma {:induction false} HeldRun(c: Config, s: State, m: Ideal, k: Key, ops: seq<Timed>, now: nat)
    requires Inv(c, s, now) && Within(s, m) && ClockRuns(now, ops) && Spares(ops, k)
    requires Held(s, m, k, {}, now) && |OtherKeys(ops, k)| < c.cap
    ensures Inv(c, Run(c, s, ops), Last(now, ops)) && Within(Run(c, s, ops), IdealRun(c, m, ops))
    ensures Held(Run(c, s, ops), IdealRun(c, m, ops), k, OtherKeys(ops, k), Last(now, ops))
  {
    if ops == [] {
    } else {
      var n := |ops| - 1;
      var front := ops[..n];
      assert Spares(front, k) && Spares([ops[n]], k) by {
        assert forall t :: t in front ==> t in ops;
        assert ops[n] in ops;
      }
      SubsetSize(OtherKeys(front, k), OtherKeys(ops, k));
      HeldRun(c, s, m, k, front, now);
      StepKeeps(c, Run(c, s, front), IdealRun(c, m, front), ops[n], Last(now, front));
      HeldStep(c, Run(c, s, front), IdealRun(c, m, front), k, ops[n], OtherKeys(front, k), Last(now, front));
    }
  }

  /** After an insert, as long as fewer than `cap` other keys are looked up or
      inserted and the key is not removed, the cache answers for it exactly as the
      unbounded TTL map does, hit or miss. */
  lemma {:induction false} WorkingSetIsExact(c: Config, s: State, m: Ideal, domain: string, qtype: nat,
        response: Bytes, ttl: nat,
                          at: nat, ops: seq<Timed>, now: nat)
    requires Inv(c, s, at) && Within(s, m)
    requires ClockRuns(at, ops) && Last(at, ops) <= now
    requires var k := KeyOf(domain, qtype); Spares(ops, k) && |OtherKeys(ops, k)| < c.cap
    ensures var k := KeyOf(domain, qtype);
            var insert := Timed(Insert(domain, qtype, response, ttl), at);
            var t := Run(c, Step(c, s, insert), ops);
            GetStep(t, k, now).1 == IdealGet(IdealRun(c, IdealStep(c, m, insert), ops), k, now)
  {
    var k := KeyOf(domain, qtype);
    var insert := Timed(Insert(domain, qtype, response, ttl), at);
    var s1, m1 := Step(c, s, insert), IdealStep(c, m, insert);
    StepKeeps(c, s, m, insert, at);
    PutLast(c.cap, s.order, k);
    HeldRun(c, s1, m1, k, ops, at);
    var t, ideal := Run(c, s1, ops), IdealRun(c, m1, ops);
    assert Inv(c, t, now);
    if k in t.entries && now < t.entries[k].expiresAt {
      ServedIsIdeal(c, t, ideal, k, now);
    }
  }

  // ----- the cache object -----

  /** Clones the stored response and patches the clone in place. */
  method PatchedCopy(response: Bytes, ttl: nat) returns (r: Bytes)
    requires ttl < U32_LIMIT
    ensures r == Patched(response, ttl)
  {
    var copy := new Byte[|response|](i requires 0 <= i < |response| => response[i]);
    assert copy[..] == response;
    UpdateResponseTtl(copy, ttl);
    r := copy[..];
  }

  class Cache {
    var entries: map<Key, Entry>
    var order: seq<Key>
    const config: Config

    function View(): State
      reads this
    {
      State(entries, order)
    }

    /** A capacity of 0 falls back to 1000. */
    constructor (capacity: nat, minTtl: nat, maxTtl: nat)
      requires minTtl <= maxTtl < U32_LIMIT
      ensures config == Config(if capacity == 0 then 1000 else capacity, minTtl, maxTtl)
      ensures View() == State(map[], []) && forall now :: Inv(config, View(), now)
    {
      config := Config(if capacity == 0 then 1000 else capacity, minTtl, maxTtl);
      entries, order := map[], [];
    }

    method Get(domain: string, qtype: nat, now: nat) returns (response: Option<Bytes>)
      requires Inv(config, View(), now)
      modifies this
      ensures View() == GetStep(old(View()), KeyOf(domain, qtype), now).0
      ensures response == GetStep(old(View()), KeyOf(domain, qtype), now).1
      ensures Inv(config, View(), now)
    {
      hide Patched, Touch, LeastRecent.Remove, NoDup, Elems;
      var key := Key(ToLower(domain), qtype);
      GetKeeps(config, View(), key, now);
      if key !in entries {
        return None;
      }
      order := Touch(order, key);
      var entry := entries[key];
      if now >= entry.expiresAt {
        entries := entries - {key};
        order := LeastRecent.Remove(order, key);
        return None;
      }
      var remaining := ((entry.expiresAt - now) / NANOS) % U32_LIMIT;
      var patched := PatchedCopy(entry.response, remaining);
      return Some(patched);
    }

    method Insert(domain: string, qtype: nat, response: Bytes, ttl: nat, now: nat)
      requires Inv(config, View(), now)
      modifies this
      ensures View() == InsertStep(config, old(View()), KeyOf(domain, qtype), response, ttl, now)
      ensures Inv(config, View(), now)
    {
      var key := Key(ToLower(domain), qtype);
      InsertKeeps(config, View(), key, response, ttl, now);
      var entry := Entry(response, now + Clamp(config, ttl) * NANOS);
      if key !in entries && |order| >= config.cap && order != [] {
        entries := entries - {order[0]};
      }
      entries := entries[key := entry];
      order := Put(config.cap, order, key);
    }

    method Remove(domain: string, qtype: nat, ghost now: nat)
      requires Inv(config, View(), now)
      modifies this
      ensures View() == Pop(old(View()), KeyOf(domain, qtype))
      ensures Inv(config, View(), now)
    {
      PopKeeps(config, View(), KeyOf(domain, qtype), now);
      var key := Key(ToLower(domain), qtype);
      entries := entries - {key};
      order := LeastRecent.Remove(order, key);
    }

    method Clear()
      modifies this
      ensures View() == State(map[], [])
    {
      entries, order := map[], [];
    }

    /** Pops every key of `expired`. */
    method PopAll(expired: set<Key>)
      requires NoDup(order)
      modifies this
      ensures entries == old(entries) - expired && order == Without(old(order), expired)
    {
      var left := expired;
      WithoutNothing(order);
      assert expired - left == {};
      while left != {}
        invariant left <= expired
        invariant entries == old(entries) - (expired - left)
        invariant order == Without(old(order), expired - left)
        decreases |left|
      {
        var key :| key in left;
        WithoutOneMore(old(order), expired - left, key);
        assert expired - (left - {key}) == expired - left + {key};
        entries := entries - {key};
        order := LeastRecent.Remove(order, key);
        left := left - {key};
      }
      assert expired - left == expired;
    }

    /** `cleanup_expired`: exactly the expired entries go, and are counted. */
    method CleanupExpired(now: nat) returns (removed: nat)
      requires Inv(config, View(), now)
      modifies this
      ensures View() == CleanupStep(old(View()), now)
      ensures removed == |old(entries)| - |entries|
      ensures Inv(config, View(), now)
    {
      ghost var s := View();
      CleanupKeeps(config, s, now);
      var before := |entries|;
      var expired := set k | k in entries && now >= entries[k].expiresAt;
      PopAll(expired);
      KeepOrderIsWithout(s, s.order, now, expired);
      assert entries == Unexpired(s.entries, now);
      UnexpiredSize(s.entries, now);
      removed := before - |entries|;
    }
  }

  lemma UnexpiredSize(entries: map<Key, Entry>, now: nat)
    ensures |Unexpired(entries, now)| <= |entries|
  {
    SubsetSize(Unexpired(entries, now).Keys, entries.Keys);
    assert |entries.Keys| == |entries|;
    assert |Unexpired(entries, now).Keys| == |Unexpired(entries, now)|;
  }

  lemma {:induction false} WithoutNothing(order: seq<Key>)
    ensures Without(order, {}) == order
  {
    if order == [] {
    } else {
      WithoutNothing(order[1..]);
    }
  }

  /** The order without the keys in `gone`. */
  function Without(order: seq<Key>, gone: set<Key>): seq<Key> {
    if order == [] then []
    else if order[0] in gone then Without(order[1..], gone)
    else [order[0]] + Without(order[1..], gone)
  }

  lemma {:induction false} WithoutOneMore(order: seq<Key>, gone: set<Key>, k: Key)
    requires NoDup(order)
    ensures LeastRecent.Remove(Without(order, gone), k) == Without(order, gone + {k})
    ensures NoDup(Without(order, gone + {k}))
    ensures forall x :: x in Without(order, gone + {k}) ==> x in order
  {
    if order == [] {
    } else {
      DropFirst(order);
      WithoutOneMore(order[1..], gone, k);
      var rest := Without(order[1..], gone);
      if order[0] !in gone {
        assert ([order[0]] + rest)[1..] == rest;
      }
      assert order[0] !in order[1..];
    }
  }

  lemma {:induction false} KeepOrderIsWithout(s: State, order: seq<Key>, now: nat, gone: set<Key>)
    requires gone == set k | k in s.entries && now >= s.entries[k].expiresAt
    ensures KeepOrder(s, order, now) == Without(order, gone)
  {
    if order == [] {
    } else {
      KeepOrderIsWithout(s, order[1..], now, gone);
    }
  }
}
