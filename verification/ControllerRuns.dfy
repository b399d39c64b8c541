/**
 Safety of the parental decision over runs in which the parent edits grants, lists
 grow, settings change, the clock moves on and the grant cache refreshes or fails to.
 */
module ControllerRuns {
  import opened Blocklist
  import opened Controller
  import opened DomainSuffix
  import opened GrantRuns
  import opened Grants
  import opened Numbers
  import opened RuleTypes
  import opened Timestamps

  datatype World = World(setup: Setup, blocks: Blocks, grants: State)

  datatype Event =
    | Granting(op: Op)
    | AddEntry(entry: Entry, category: Option<string>)
    | SetGlobalCategories(categories: seq<string>)
    | SetDefaultPolicy(policy: ParentalPolicy)

  function AddTo(b: Blocks, e: Entry, category: Option<string>): Blocks {
    match category
    case None => b.(global := Added(b.global, e))
    case Some(c) =>
      var lists := Added(ListOf(b.domains, b.suffixes, c), e);
      if e.isSuffix then b.(suffixes := b.suffixes[c := lists.suffixes])
      else b.(domains := b.domains[c := lists.domains])
  }

  function Happen(c: Chrono, w: World, e: Event): World {
    match e
    case Granting(op) => w.(grants := GrantRuns.Step(c, w.grants, op))
    case AddEntry(entry, category) => w.(blocks := AddTo(w.blocks, entry, category))
    case SetGlobalCategories(categories) => w.(setup := w.setup.(globalCategories := categories))
    case SetDefaultPolicy(policy) => w.(setup := w.setup.(defaultPolicy := policy))
  }

  function History(c: Chrono, w: World, events: seq<Event>): World
    decreases |events|
  {
    if events == [] then w
    else Happen(c, History(c, w, events[..|events| - 1]), events[|events| - 1])
  }

  function Answers(s: State): (string, string) -> bool {
    CacheAnswers(s.active, Seconds(s.clock))
  }

  ghost function DecisionIn(w: World, ip: IpAddr, name: string): Decision {
    Decide(w.setup, w.blocks, Answers(w.grants), ip, name)
  }

  // ---------- hard blocks ----------

  /** A known device that is not an adult's, and a name in one of its hard categories. */
  ghost predicate HardListed(w: World, ip: IpAddr, name: string) {
    var ids, devices := w.setup.ipToDevice, w.setup.devices;
    && ip in ids && ids[ip] in devices && devices[ids[ip]].kind != Adult
    && exists c :: c in devices[ids[ip]].hard && InCategory(w.blocks, Normalized(name), c)
  }

  /** An added entry covers its names in its category, or in the global list, and
      changes nothing elsewhere. */
  lemma AddToMeans(b: Blocks, e: Entry, category: Option<string>, domain: string, c: string)
    ensures var named := if e.isSuffix then UnderSuffix(domain, e.domain) else domain == e.domain;
            && (Covers(AddTo(b, e, category).global, domain)
                <==> Covers(b.global, domain) || (category.None? && named))
            && (InCategory(AddTo(b, e, category), domain, c)
                <==> InCategory(b, domain, c) || (category == Some(c) && named))
  {
    var lists, after := ListOf(b.domains, b.suffixes, c), AddTo(b, e, category);
    assert ListOf(after.domains, after.suffixes, c) == if category == Some(c) then Added(lists, e) else lists;
    CoversAdded(lists, e, domain);
    CoversAdded(b.global, e, domain);
    hide Covers;
  }

  lemma AddingKeepsListed(b: Blocks, e: Entry, category: Option<string>, domain: string, c: string)
    requires InCategory(b, domain, c)
    ensures InCategory(AddTo(b, e, category), domain, c)
  {
    var lists := ListOf(b.domains, b.suffixes, c);
    var after := AddTo(b, e, category);
    var lists' := ListOf(after.domains, after.suffixes, c);
    assert lists' == if category == Some(c) then Added(lists, e) else lists;
    CoversAdded(lists, e, domain);
  }

  /** Nothing that can happen unblocks a hard-listed name: not a grant, not a
      refresh, not a list growing, not a setting. */
  lemma {:induction false} HardBlockIsForever(c: Chrono, w: World, events: seq<Event>, ip: IpAddr, name: string)
    requires HardListed(w, ip, name)
    ensures HardListed(History(c, w, events), ip, name)
    ensures DecisionIn(History(c, w, events), ip, name).Block?
    decreases |events|
  {
    hide InCategory, Normalized;
    if events == [] {
    } else {
      var init := events[..|events| - 1];
      HardBlockIsForever(c, w, init, ip, name);
      var before, e := History(c, w, init), events[|events| - 1];
      var hard := before.setup.devices[before.setup.ipToDevice[ip]].hard;
      var hit :| hit in hard && InCategory(before.blocks, Normalized(name), hit);
      if e.AddEntry? {
        AddingKeepsListed(before.blocks, e.entry, e.category, Normalized(name), hit);
      }
      var after := History(c, w, events);
      assert after.setup.devices == before.setup.devices && after.setup.ipToDevice == before.setup.ipToDevice;
      assert InCategory(after.blocks, Normalized(name), hit);
    }
    HardListedIsBlocked(History(c, w, events), ip, name);
  }

  lemma HardListedIsBlocked(w: World, ip: IpAddr, name: string)
    requires HardListed(w, ip, name)
    ensures DecisionIn(w, ip, name).Block?
  {
    hide InCategory, Normalized;
    var hard := w.setup.devices[w.setup.ipToDevice[ip]].hard;
    var hit :| hit in hard && InCategory(w.blocks, Normalized(name), hit);
    assert FirstListed(w.blocks, Normalized(name), hard).Some?;
  }

  // ---------- grants ----------

  /** A controller whose grant store was opened on `s` and then ran `ops`. */
  function At(c: Chrono, setup: Setup, b: Blocks, s: State, ops: seq<Op>): World {
    World(setup, b, Run(c, s, ops))
  }

  /** While only grants change, a request that hangs on a grant is decided by the
      table as the last successful refresh saw it. */
  lemma {:induction false} DecidedByLiveGrant(c: Chrono, setup: Setup, b: Blocks, s: State, ops: seq<Op>,
                                              ip: IpAddr, name: string, id: string, category: string)
    requires ReadsBothForms(c) && Primed(c, s) && PlainTexts(c, Seen(c, s, ops).table)
    requires HangsOn(setup, b, ip, name, id, category)
    ensures DecisionIn(At(c, setup, b, s, ops), ip, name) == Allow
            <==> SomeInForce(Seen(c, s, ops).table, id, category, Seconds(Run(c, s, ops).clock))
  {
    CacheIsExact(c, s, ops, id, category);
    AllowedIsAsked(setup, b, Run(c, s, ops), ip, name, id, category);
  }

  lemma AllowedIsAsked(setup: Setup, b: Blocks, s: State, ip: IpAddr, name: string, id: string, category: string)
    requires HangsOn(setup, b, ip, name, id, category)
    ensures DecisionIn(World(setup, b, s), ip, name) == Allow <==> Asked(s, id, category)
  {
    DependsOnOwnFirstGrant(setup, b, ip, name, Answers(s), Answers(s));
    hide HangsOn, Decide, Seconds;
    assert Answers(s)(id, category) == Asked(s, id, category);
  }

  /** Adding grants and refreshing never turns Allow into Block, if and only if the
      decision hangs on no grant, or the table still holds a live row for the one
      it hangs on. */
  lemma {:induction false} AddingNeverBlocksIff(c: Chrono, setup: Setup, b: Blocks, s: State, before: seq<Op>,
                                                ip: IpAddr, name: string)
    requires ReadsBothForms(c) && Primed(c, s) && PlainTexts(c, Run(c, s, before).table)
    requires DecisionIn(At(c, setup, b, s, before), ip, name) == Allow
    ensures (forall adds :: OnlyAdds(adds) ==>
               DecisionIn(At(c, setup, b, s, before + adds), ip, name) == Allow)
            <==> forall id, category :: HangsOn(setup, b, ip, name, id, category) ==>
                   SomeInForce(Run(c, s, before).table, id, category, Seconds(Run(c, s, before).clock))
  {
    if id, category :| HangsOn(setup, b, ip, name, id, category) {
      forall other, category' | HangsOn(setup, b, ip, name, other, category')
        ensures other == id && category' == category
      {
        HangsOnOne(setup, b, ip, name, id, category, other, category');
      }
      forall adds: seq<Op>
        ensures DecisionIn(At(c, setup, b, s, before + adds), ip, name) == Allow
                <==> Asked(Run(c, s, before + adds), id, category)
      {
        AllowedIsAsked(setup, b, Run(c, s, before + adds), ip, name, id, category);
      }
      AllowedIsAsked(setup, b, Run(c, s, before), ip, name, id, category);
      AddingNeverTakesAwayIff(c, s, before, id, category);
      hide DecisionIn, Run, Asked, SomeInForce, OnlyAdds, HangsOn;
      AddsIff(c, setup, b, s, before, ip, name, id, category);
    } else {
      forall adds: seq<Op>
        ensures DecisionIn(At(c, setup, b, s, before + adds), ip, name) == Allow
      {
        DependsOnOwnFirstGrant(setup, b, ip, name, Answers(Run(c, s, before + adds)), Answers(Run(c, s, before)));
      }
    }
  }

  lemma {:induction false} AddsIff(c: Chrono, setup: Setup, b: Blocks, s: State, before: seq<Op>,
                                   ip: IpAddr, name: string, id: string, category: string)
    requires forall adds: seq<Op> ::
               DecisionIn(At(c, setup, b, s, before + adds), ip, name) == Allow
               <==> Asked(Run(c, s, before + adds), id, category)
    ensures (forall adds :: OnlyAdds(adds) ==> DecisionIn(At(c, setup, b, s, before + adds), ip, name) == Allow)
            <==> (forall adds :: OnlyAdds(adds) ==> Asked(Run(c, s, before + adds), id, category))
  {
    hide DecisionIn, Run, Asked, OnlyAdds;
    if forall adds :: OnlyAdds(adds) ==> DecisionIn(At(c, setup, b, s, before + adds), ip, name) == Allow {
      forall adds | OnlyAdds(adds) ensures Asked(Run(c, s, before + adds), id, category) {
        assert DecisionIn(At(c, setup, b, s, before + adds), ip, name) == Allow;
      }
    }
    if forall adds :: OnlyAdds(adds) ==> Asked(Run(c, s, before + adds), id, category) {
      forall adds | OnlyAdds(adds) ensures DecisionIn(At(c, setup, b, s, before + adds), ip, name) == Allow {
        assert Asked(Run(c, s, before + adds), id, category);
      }
    }
  }

  /** The steps after which a mere refresh blocks: a grant, its refresh, and its revoke. */
  function UnseenRevoke(id: string, category: string, expiry: Stamp): seq<Op> {
    [Insert(id, category, Text(expiry, ' '), true), Refresh(true), Revoke(1)]
  }

  /** An unseen revoke: the request is allowed, and adding nothing but a refresh blocks it. */
  lemma RefreshBlocks(c: Chrono, setup: Setup, b: Blocks, ip: IpAddr, name: string, id: string, category: string,
                      clock: Stamp, expiry: Stamp)
    requires ReadsBothForms(c) && IsClock(clock) && IsStamp(expiry) && Seconds(expiry) > Seconds(clock)
    requires HangsOn(setup, b, ip, name, id, category)
    ensures var s, before := Open(c, clock, [], 0), UnseenRevoke(id, category, expiry);
            && DecisionIn(At(c, setup, b, s, before), ip, name) == Allow
            && OnlyAdds([Refresh(true)])
            && DecisionIn(At(c, setup, b, s, before + [Refresh(true)]), ip, name).Block?
  {
    var s, ops := Open(c, clock, [], 0), UnseenRevoke(id, category, expiry);
    GrantedThenGone(c, clock, id, category, expiry);
    AllowedIsAsked(setup, b, Run(c, s, ops), ip, name, id, category);
    AllowedIsAsked(setup, b, Run(c, s, ops + [Refresh(true)]), ip, name, id, category);
  }

  lemma RunOfThree(c: Chrono, s: State, x: Op, y: Op, z: Op)
    ensures Run(c, s, [x, y, z]) == GrantRuns.Step(c, GrantRuns.Step(c, GrantRuns.Step(c, s, x), y), z)
  {
    hide Run, GrantRuns.Step;
    assert [x, y, z] == (([] + [x]) + [y]) + [z];
    RunNext(c, s, [], x);
    RunNext(c, s, [] + [x], y);
    RunNext(c, s, ([] + [x]) + [y], z);
    RunOfNone(c, s);
  }

  lemma RevokedOne(row: Row)
    ensures WithRevoked([row], row.id) == [row.(revoked := true)]
  {
  }

  lemma UnseenRevokeIs(c: Chrono, clock: Stamp, id: string, category: string, expiry: Stamp)
    ensures var row := Row(1, id, category, Text(expiry, ' '), false);
            Run(c, Open(c, clock, [], 0), UnseenRevoke(id, category, expiry))
            == State(clock, [row.(revoked := true)], 1, CacheOf(c, ActiveRows([row], clock)))
  {
    hide Run, CacheOf, ActiveRows, Text, ClockText, TextBefore;
    var s := Open(c, clock, [], 0);
    var row := Row(1, id, category, Text(expiry, ' '), false);
    var insert := Insert(id, category, Text(expiry, ' '), true);
    var s1 := State(clock, [row], 1, s.active);
    var s2 := State(clock, [row], 1, CacheOf(c, ActiveRows([row], clock)));
    RunOfThree(c, s, insert, Refresh(true), Revoke(1));
    assert s.table + [row] == [row];
    assert GrantRuns.Step(c, s, insert) == s1;
    assert GrantRuns.Step(c, s1, Refresh(true)) == s2;
    RevokedOne(row);
  }

  lemma GrantedThenGone(c: Chrono, clock: Stamp, id: string, category: string, expiry: Stamp)
    requires ReadsBothForms(c) && IsClock(clock) && IsStamp(expiry) && Seconds(expiry) > Seconds(clock)
    ensures var s, ops := Open(c, clock, [], 0), UnseenRevoke(id, category, expiry);
            Asked(Run(c, s, ops), id, category) && !Asked(Run(c, s, ops + [Refresh(true)]), id, category)
  {
    hide Open, UnseenRevoke, CacheOf, ActiveRows, Run, Seconds, Text, TextBefore;
    var row := Row(1, id, category, Text(expiry, ' '), false);
    UnseenRevokeIs(c, clock, id, category, expiry);
    RunNext(c, Open(c, clock, [], 0), UnseenRevoke(id, category, expiry), Refresh(true));
    FutureTextIsKept(clock, expiry, ' ');
    OneRow(c, row, clock);
    OneRow(c, row.(revoked := true), clock);
  }

  lemma RunOfNone(c: Chrono, s: State)
    ensures Run(c, s, []) == s
  {
  }

  /** The cache of a table with one row. */
  lemma OneRow(c: Chrono, row: Row, clock: Stamp)
    ensures HasActiveIn(CacheOf(c, ActiveRows([row], clock)), row.device, row.category, Seconds(clock))
            <==> Selected(row, clock) && Live(c, row, row.device, row.category, Seconds(clock))
  {
    hide Seconds, ParseSqliteUtc, TextBefore, CacheOf;
    var rows := ActiveRows([row], clock);
    CacheMeaning(c, rows, row.device, row.category, Seconds(clock));
    assert row in [row];
    assert Selected(row, clock) ==> row in rows;
    assert forall r :: r in rows ==> r == row && Selected(row, clock);
  }

  /** A revoke, whatever happened before it, and whatever grants, ticks, refreshes
      and other revokes follow: once a successful refresh has seen it, a request
      that hangs on the pair is allowed exactly when another live row covers the pair. */
  lemma {:induction false} RevokedUnlessCovered(c: Chrono, setup: Setup, b: Blocks, s: State, before: seq<Op>,
                                                id: nat, after: seq<Op>,
                                                ip: IpAddr, name: string, device: string, category: string)
    requires ReadsBothForms(c) && Primed(c, s) && id <= Run(c, s, before).lastId
    requires LastRefresh(before + [Revoke(id)] + after) > |before|
    requires PlainTexts(c, Seen(c, s, before + [Revoke(id)] + after).table)
    requires HangsOn(setup, b, ip, name, device, category)
    ensures var ops := before + [Revoke(id)] + after;
            DecisionIn(At(c, setup, b, s, ops), ip, name) == Allow
            <==> exists r :: r in Seen(c, s, ops).table && r.id != id
                             && InForce(r, device, category, Seconds(Run(c, s, ops).clock))
  {
    RevokeTakesEffect(c, s, before, id, after, device, category);
    AllowedIsAsked(setup, b, Run(c, s, before + [Revoke(id)] + after), ip, name, device, category);
  }
}
