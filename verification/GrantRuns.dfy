/**
 Runs of the grant store: the parent inserts and revokes rows, the clock moves on,
 the background task refreshes (or fails to), and `has_active` is asked at any point.
 */
module GrantRuns {
  import opened Grants
  import opened Numbers
  import opened Timestamps

  datatype State = State(clock: Stamp, table: seq<Row>, lastId: nat, active: Cache)

  datatype Op =
    | Tick(to: Stamp)
    | Insert(device: string, category: string, expiresAt: string, known: bool)
    | Revoke(id: nat)
    | Refresh(answers: bool)

  function Rebuilt(c: Chrono, s: State): Cache {
    CacheOf(c, ActiveRows(s.table, s.clock))
  }

  /** `GrantStore::open` on a table: the cache is primed. */
  function Open(c: Chrono, clock: Stamp, table: seq<Row>, lastId: nat): State {
    State(clock, table, lastId, CacheOf(c, ActiveRows(table, clock)))
  }

  /** The clock never goes back. */
  function Step(c: Chrono, s: State, op: Op): State {
    match op
    case Tick(to) => if IsClock(to) && Seconds(to) >= Seconds(s.clock) then s.(clock := to) else s
    case Insert(d, g, e, known) =>
      if known then s.(table := s.table + [Row(s.lastId + 1, d, g, e, false)], lastId := s.lastId + 1) else s
    case Revoke(id) => s.(table := WithRevoked(s.table, id))
    case Refresh(answers) => if answers then s.(active := Rebuilt(c, s)) else s
  }

  function Run(c: Chrono, s: State, ops: seq<Op>): State
    decreases |ops|
  {
    if ops == [] then s else Step(c, Run(c, s, ops[..|ops| - 1]), ops[|ops| - 1])
  }

  /** How many steps were done when the last successful refresh began; none, when
      only the opening one happened. */
  function LastRefresh(ops: seq<Op>): (n: nat)
    ensures n <= |ops|
    decreases |ops|
  {
    if ops == [] then 0
    else if ops[|ops| - 1] == Refresh(true) then |ops| - 1
    else LastRefresh(ops[..|ops| - 1])
  }

  /** The state whose table the cache was last built from. */
  function Seen(c: Chrono, s: State, ops: seq<Op>): State {
    Run(c, s, ops[..LastRefresh(ops)])
  }

  function Asked(s: State, device: string, category: string): bool {
    HasActiveIn(s.active, device, category, Seconds(s.clock))
  }

  predicate Primed(c: Chrono, s: State) {
    IsClock(s.clock) && s.active == Rebuilt(c, s)
  }

  lemma {:induction false} CacheIsOfSeen(c: Chrono, s: State, ops: seq<Op>)
    requires Primed(c, s)
    ensures Run(c, s, ops).active == Rebuilt(c, Seen(c, s, ops))
    ensures IsClock(Run(c, s, ops).clock) && IsClock(Seen(c, s, ops).clock)
    ensures Seconds(Seen(c, s, ops).clock) <= Seconds(Run(c, s, ops).clock)
  {
    hide CacheOf, ActiveRows, Seconds;
    if ops == [] {
    } else {
      var init := ops[..|ops| - 1];
      CacheIsOfSeen(c, s, init);
      if ops[|ops| - 1] != Refresh(true) {
        assert init[..LastRefresh(init)] == ops[..LastRefresh(ops)];
      }
    }
  }

  /** With no assumption on the texts in the table: the cache says yes exactly
      when the table at the last successful refresh held an unrevoked row for the
      pair whose expiry parses and is still ahead, and whose text came after the
      clock's text at that refresh. */
  lemma {:induction false} ActiveIff(c: Chrono, s: State, ops: seq<Op>, device: string, category: string)
    requires Primed(c, s)
    ensures var now, seen := Run(c, s, ops), Seen(c, s, ops);
            Asked(now, device, category)
            <==> exists r :: r in seen.table && Live(c, r, device, category, Seconds(now.clock))
                             && TextBefore(ClockText(seen.clock), r.expiresAt)
  {
    var now, seen := Run(c, s, ops), Seen(c, s, ops);
    var rows := ActiveRows(seen.table, seen.clock);
    CacheIsOfSeen(c, s, ops);
    CacheMeaning(c, rows, device, category, Seconds(now.clock));
    hide Run, CacheOf, ActiveRows, Seconds, TextBefore, ParseSqliteUtc;
    if Asked(now, device, category) {
      var r :| r in rows && Unexpired(c, r, device, category, Seconds(now.clock));
      assert Live(c, r, device, category, Seconds(now.clock));
    }
    if r :| r in seen.table && Live(c, r, device, category, Seconds(now.clock))
            && TextBefore(ClockText(seen.clock), r.expiresAt) {
      assert r in rows && Unexpired(c, r, device, category, Seconds(now.clock));
    }
  }

  /** Every expiry is written in one of the two forms, or is read by neither parser. */
  ghost predicate PlainTexts(c: Chrono, table: seq<Row>) {
    forall r :: r in table ==> WellWritten(c, r.expiresAt)
  }

  ghost predicate WellWritten(c: Chrono, text: string) {
    InPlainForm(text) || (c.spaced(text) == None && c.tee(text) == None)
  }

  ghost predicate InPlainForm(text: string) {
    exists t: Stamp, sep: char :: IsStamp(t) && IsSeparator(sep) && text == Text(t, sep)
  }

  lemma {:induction false} PlainFutureIsSelected(clock: Stamp, text: string, now: int)
    requires IsClock(clock) && Seconds(clock) <= now && Ahead(text, now)
    ensures TextBefore(ClockText(clock), text)
  {
    var t: Stamp, sep: char :| IsStamp(t) && IsSeparator(sep) && text == Text(t, sep) && Seconds(t) > now;
    hide Seconds, Text, TextBefore;
    FutureTextIsKept(clock, t, sep);
  }

  ghost predicate SomeLive(c: Chrono, table: seq<Row>, device: string, category: string, now: int) {
    exists r :: r in table && Live(c, r, device, category, now)
  }

  ghost predicate SomeInForce(table: seq<Row>, device: string, category: string, now: int) {
    exists r :: r in table && InForce(r, device, category, now)
  }

  /** For a well-written row the parser says what its text says. */
  lemma {:induction false} LiveIffInForce(c: Chrono, r: Row, device: string, category: string, now: int)
    requires ReadsBothForms(c) && WellWritten(c, r.expiresAt)
    ensures Live(c, r, device, category, now) <==> InForce(r, device, category, now)
  {
    forall t: Stamp, sep: char | IsStamp(t) && IsSeparator(sep) && r.expiresAt == Text(t, sep)
      ensures ParseSqliteUtc(c, r.expiresAt) == Some(Seconds(t))
    {
      BothFormsRead(c, t, sep);
    }
    hide Text, Seconds, ReadsBothForms;
  }

  lemma {:induction false} SomeLiveIffInForce(c: Chrono, table: seq<Row>, device: string, category: string, now: int)
    requires ReadsBothForms(c) && PlainTexts(c, table)
    ensures SomeLive(c, table, device, category, now) <==> SomeInForce(table, device, category, now)
  {
    hide Live, InForce, ReadsBothForms, WellWritten;
    forall r | r in table ensures Live(c, r, device, category, now) <==> InForce(r, device, category, now) {
      LiveIffInForce(c, r, device, category, now);
    }
  }

  /** The grant cache is exact, in tables that mix both written forms: at any
      point of any run it says yes exactly when the table at the last successful
      refresh had an unrevoked row for the pair whose text, in one form or the
      other, is that of a stamp after now. */
  lemma {:induction false} CacheIsExact(c: Chrono, s: State, ops: seq<Op>, device: string, category: string)
    requires ReadsBothForms(c) && Primed(c, s)
    requires PlainTexts(c, Seen(c, s, ops).table)
    ensures Asked(Run(c, s, ops), device, category)
            <==> SomeInForce(Seen(c, s, ops).table, device, category, Seconds(Run(c, s, ops).clock))
  {
    var now, seen := Run(c, s, ops), Seen(c, s, ops);
    ActiveIff(c, s, ops, device, category);
    CacheIsOfSeen(c, s, ops);
    SomeLiveIffInForce(c, seen.table, device, category, Seconds(now.clock));
    hide Run, Seconds, TextBefore, ParseSqliteUtc, ClockText, WellWritten, ReadsBothForms, Live, Ahead;
    forall r | r in seen.table && Live(c, r, device, category, Seconds(now.clock))
      ensures TextBefore(ClockText(seen.clock), r.expiresAt)
    {
      LiveIffInForce(c, r, device, category, Seconds(now.clock));
      PlainFutureIsSelected(seen.clock, r.expiresAt, Seconds(now.clock));
    }
  }

  const SIGNED_YEAR := "+9999-12-31 23:59:59"

  /** The two forms are needed. Where the parser takes a signed year, this text is
      a date thousands of years ahead: the row is live, and yet, its text being
      before every clock text, it counts at no point of any run. */
  lemma SignedYearNeverCounts(c: Chrono, clock: Stamp, id: nat, ops: seq<Op>, device: string, category: string)
    requires IsClock(clock) && (forall op :: op in ops ==> !op.Insert?)
    requires ParseSqliteUtc(c, SIGNED_YEAR).Some? && ParseSqliteUtc(c, SIGNED_YEAR).value > Seconds(clock)
    ensures var table := [Row(id, device, category, SIGNED_YEAR, false)];
            && SomeLive(c, table, device, category, Seconds(clock))
            && !Asked(Run(c, Open(c, clock, table, id), ops), device, category)
  {
    var row := Row(id, device, category, SIGNED_YEAR, false);
    var s := Open(c, clock, [row], id);
    assert row in [row];
    ActiveIff(c, s, ops, device, category);
    CacheIsOfSeen(c, s, ops);
    ClockTextStart(Seen(c, s, ops).clock);
    SameTexts(c, s, ops[..LastRefresh(ops)], SIGNED_YEAR);
    hide Run, Seconds, ParseSqliteUtc, ClockText;
  }

  /** Without inserts the texts in the table stay what they are. */
  lemma {:induction false} SameTexts(c: Chrono, s: State, ops: seq<Op>, text: string)
    requires (forall r :: r in s.table ==> r.expiresAt == text) && (forall op :: op in ops ==> !op.Insert?)
    ensures forall r :: r in Run(c, s, ops).table ==> r.expiresAt == text
    decreases |ops|
  {
    if ops == [] {
    } else {
      var before := Run(c, s, ops[..|ops| - 1]);
      SameTexts(c, s, ops[..|ops| - 1], text);
      assert ops[|ops| - 1] in ops;
      forall r | r in Run(c, s, ops).table ensures r.expiresAt == text {
        var i :| 0 <= i < |Run(c, s, ops).table| && Run(c, s, ops).table[i] == r;
        assert before.table[i] in before.table;
      }
    }
  }

  lemma ClockTextStart(clock: Stamp)
    ensures ClockText(clock) != [] && ClockText(clock)[0] >= '0'
  {
    assert Text(clock, ' ')[0] == Two(clock.year / 100)[0];
  }

  /** Every row with the id is revoked, and the id will not be given out again. */
  ghost predicate RevokedIn(s: State, id: nat) {
    id <= s.lastId && forall r :: r in s.table && r.id == id ==> r.revoked
  }

  lemma RevokeRevokes(c: Chrono, s: State, id: nat)
    requires id <= s.lastId
    ensures RevokedIn(Step(c, s, Revoke(id)), id)
  {
  }

  lemma StepKeepsRevoked(c: Chrono, s: State, op: Op, id: nat)
    requires RevokedIn(s, id)
    ensures RevokedIn(Step(c, s, op), id)
  {
    if op.Revoke? {
      forall r | r in WithRevoked(s.table, op.id) && r.id == id ensures r.revoked {
        var i :| 0 <= i < |s.table| && WithRevoked(s.table, op.id)[i] == r;
        assert s.table[i] in s.table;
      }
    }
  }

  lemma {:induction false} RevokedStays(c: Chrono, s: State, ops: seq<Op>, id: nat)
    requires RevokedIn(s, id)
    ensures RevokedIn(Run(c, s, ops), id)
    decreases |ops|
  {
    hide RevokedIn, Step;
    if ops == [] {
    } else {
      RevokedStays(c, s, ops[..|ops| - 1], id);
      StepKeepsRevoked(c, Run(c, s, ops[..|ops| - 1]), ops[|ops| - 1], id);
    }
  }

  /** A revoke, with anything before it and anything after it, takes effect with
      the first successful refresh that follows: from then on the pair is granted
      exactly when another live row of the table last seen covers it. */
  lemma RevokeTakesEffect(c: Chrono, s: State, before: seq<Op>, id: nat, after: seq<Op>,
                          device: string, category: string)
    requires ReadsBothForms(c) && Primed(c, s) && id <= Run(c, s, before).lastId
    requires LastRefresh(before + [Revoke(id)] + after) > |before|
    requires PlainTexts(c, Seen(c, s, before + [Revoke(id)] + after).table)
    ensures var ops := before + [Revoke(id)] + after;
            Asked(Run(c, s, ops), device, category)
            <==> exists r :: r in Seen(c, s, ops).table && r.id != id
                             && InForce(r, device, category, Seconds(Run(c, s, ops).clock))
  {
    var ops := before + [Revoke(id)] + after;
    var n := LastRefresh(ops);
    var between := after[..n - |before| - 1];
    assert ops[..n] == (before + [Revoke(id)]) + between;
    RunSplits(c, s, before + [Revoke(id)], between);
    assert (before + [Revoke(id)])[..|before|] == before;
    var revoked := Step(c, Run(c, s, before), Revoke(id));
    assert Run(c, s, before + [Revoke(id)]) == revoked;
    RevokeRevokes(c, Run(c, s, before), id);
    RevokedStays(c, revoked, between, id);
    CacheIsExact(c, s, ops, device, category);
    hide Run, Seconds, Ahead;
  }

  /** Right after a successful refresh the cache is the table. */
  lemma RefreshedIff(c: Chrono, s: State, device: string, category: string)
    requires ReadsBothForms(c) && IsClock(s.clock) && PlainTexts(c, s.table)
    ensures Asked(Step(c, s, Refresh(true)), device, category)
            <==> SomeInForce(s.table, device, category, Seconds(s.clock))
  {
    var primed := Open(c, s.clock, s.table, s.lastId);
    CacheIsExact(c, primed, [], device, category);
  }

  // ---------- inserting and refreshing only ----------

  predicate OnlyAdds(ops: seq<Op>) {
    forall op :: op in ops ==> op.Insert? || op.Refresh?
  }

  lemma {:induction false} AddsKeepRows(c: Chrono, s: State, ops: seq<Op>)
    requires OnlyAdds(ops)
    ensures Run(c, s, ops).clock == s.clock
    ensures s.table <= Run(c, s, ops).table
  {
    if ops == [] {
    } else {
      assert ops[|ops| - 1] in ops;
      AddsKeepRows(c, s, ops[..|ops| - 1]);
    }
  }

  lemma AheadIsWellWritten(c: Chrono, text: string, now: int)
    requires Ahead(text, now)
    ensures WellWritten(c, text)
  {
    hide Text, Seconds;
  }

  /** A row in force is counted after every refresh that sees it. */
  lemma {:induction false} LiveIsAsked(c: Chrono, s: State, ops: seq<Op>, r: Row)
    requires ReadsBothForms(c) && Primed(c, s)
    requires r in Seen(c, s, ops).table && InForce(r, r.device, r.category, Seconds(Run(c, s, ops).clock))
    ensures Asked(Run(c, s, ops), r.device, r.category)
  {
    ActiveIff(c, s, ops, r.device, r.category);
    CacheIsOfSeen(c, s, ops);
    var now := Seconds(Run(c, s, ops).clock);
    AheadIsWellWritten(c, r.expiresAt, now);
    LiveIffInForce(c, r, r.device, r.category, now);
    hide Run, Seconds, ParseSqliteUtc, TextBefore, ReadsBothForms, WellWritten, Ahead;
    PlainFutureIsSelected(Seen(c, s, ops).clock, r.expiresAt, now);
  }

  lemma {:induction false} AddingKeepsLive(c: Chrono, s: State, before: seq<Op>, adds: seq<Op>, r: Row)
    requires ReadsBothForms(c) && Primed(c, s) && OnlyAdds(adds)
    requires r in Run(c, s, before).table && InForce(r, r.device, r.category, Seconds(Run(c, s, before).clock))
    requires Asked(Run(c, s, before), r.device, r.category)
    ensures Asked(Run(c, s, before + adds), r.device, r.category)
    decreases |adds|
  {
    if adds == [] {
      assert before + adds == before;
    } else {
      var init, last := adds[..|adds| - 1], adds[|adds| - 1];
      assert last in adds;
      assert (before + adds)[..|before + adds| - 1] == before + init;
      RunSplits(c, s, before, init);
      RunSplits(c, s, before, adds);
      AddsKeepRows(c, Run(c, s, before), init);
      AddsKeepRows(c, Run(c, s, before), adds);
      AddingKeepsLive(c, s, before, init, r);
      assert Run(c, s, before + adds) == Step(c, Run(c, s, before + init), last);
      hide Run, Seconds, ParseSqliteUtc, InForce, ReadsBothForms, Rebuilt;
      if last == Refresh(true) {
        LiveIsAsked(c, s, before + adds, r);
      }
    }
  }

  /** Adding grants and refreshing can never take a granted pair away, however
      long it goes on, if and only if the table still holds a live row for it:
      the only thing a refresh takes away is a revoke the cache had not seen. */
  lemma {:induction false} AddingNeverTakesAwayIff(c: Chrono, s: State, before: seq<Op>, device: string,
        category: string)
    requires ReadsBothForms(c) && Primed(c, s)
    requires PlainTexts(c, Run(c, s, before).table) && Asked(Run(c, s, before), device, category)
    ensures (forall adds :: OnlyAdds(adds) ==> Asked(Run(c, s, before + adds), device, category))
            <==> SomeInForce(Run(c, s, before).table, device, category, Seconds(Run(c, s, before).clock))
  {
    var now := Run(c, s, before);
    CacheIsOfSeen(c, s, before);
    RefreshedIff(c, now, device, category);
    RunNext(c, s, before, Refresh(true));
    hide Seconds, ParseSqliteUtc, Step, Rebuilt, ReadsBothForms, WellWritten, Ahead;
    if SomeInForce(now.table, device, category, Seconds(now.clock)) {
      var r :| r in now.table && InForce(r, device, category, Seconds(now.clock));
      forall adds | OnlyAdds(adds) ensures Asked(Run(c, s, before + adds), device, category) {
        AddingKeepsLive(c, s, before, adds, r);
      }
    } else {
      assert OnlyAdds([Refresh(true)]);
      assert !Asked(Run(c, s, before + [Refresh(true)]), device, category);
    }
  }

  lemma RunNext(c: Chrono, s: State, ops: seq<Op>, op: Op)
    ensures Run(c, s, ops + [op]) == Step(c, Run(c, s, ops), op)
  {
    assert (ops + [op])[..|ops|] == ops;
  }

  lemma {:induction false} RunSplits(c: Chrono, s: State, a: seq<Op>, b: seq<Op>)
    ensures Run(c, s, a + b) == Run(c, Run(c, s, a), b)
    decreases |b|
  {
    if b == [] {
      assert a + b == a;
    } else {
      assert (a + b)[..|a + b| - 1] == a + b[..|b| - 1];
      RunSplits(c, s, a, b[..|b| - 1]);
    }
  }

  lemma StepKeepsIds(c: Chrono, s: State, op: Op)
    requires IdsInOrder(s.table, s.lastId)
    ensures IdsInOrder(Step(c, s, op).table, Step(c, s, op).lastId)
  {
    if op.Insert? && op.known {
      assert forall i :: 0 <= i < |s.table| ==> s.table[i] in s.table;
    } else if op.Revoke? {
      var table := WithRevoked(s.table, op.id);
      forall r | r in table ensures r.id <= s.lastId {
        var i :| 0 <= i < |table| && table[i] == r;
        assert s.table[i] in s.table;
      }
    }
  }

  /** Row ids stay distinct, so a revoke touches at most one row. */
  lemma {:induction false} IdsStayInOrder(c: Chrono, s: State, ops: seq<Op>)
    requires IdsInOrder(s.table, s.lastId)
    ensures IdsInOrder(Run(c, s, ops).table, Run(c, s, ops).lastId)
  {
    hide IdsInOrder, Step;
    if ops == [] {
    } else {
      IdsStayInOrder(c, s, ops[..|ops| - 1]);
      StepKeepsIds(c, Run(c, s, ops[..|ops| - 1]), ops[|ops| - 1]);
    }
  }
}
