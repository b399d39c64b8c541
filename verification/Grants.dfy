/**
 Time-bounded grants: the `grants` table (src/storage/config_store.rs) and the
 cache that is rebuilt from it from time to time (src/control/grant.rs).
 `chrono`'s two format parsers are parameters; what is known of them is that they
 read both written forms.
 */
module Grants {
  import opened Numbers
  import opened Timestamps

  /** The parsers for "%Y-%m-%d %H:%M:%S" and "%Y-%m-%dT%H:%M:%S". */
  datatype Chrono = Chrono(spaced: string -> Option<int>, tee: string -> Option<int>)

  ghost predicate ReadsBothForms(c: Chrono) {
    forall t: Stamp :: IsStamp(t) ==>
      && c.spaced(Text(t, ' ')) == Some(Seconds(t))
      && c.spaced(Text(t, 'T')) == None
      && c.tee(Text(t, 'T')) == Some(Seconds(t))
  }

  function ParseSqliteUtc(c: Chrono, s: string): Option<int> {
    if c.spaced(s).Some? then c.spaced(s) else c.tee(s)
  }

  /** A stamp's text is read as the stamp, in both forms. */
  lemma BothFormsRead(c: Chrono, t: Stamp, sep: char)
    requires ReadsBothForms(c) && IsStamp(t) && IsSeparator(sep)
    ensures ParseSqliteUtc(c, Text(t, sep)) == Some(Seconds(t))
  {
    hide Text, Seconds;
  }

  /** The text is that of a stamp after `now`, in one of the two forms. */
  ghost predicate Ahead(text: string, now: int) {
    exists t: Stamp, sep: char :: IsStamp(t) && IsSeparator(sep) && text == Text(t, sep) && Seconds(t) > now
  }

  // ---------- the table ----------

  datatype Row = Row(id: nat, device: string, category: string, expiresAt: string, revoked: bool)

  function Key(r: Row): (string, string) {
    (r.device, r.category)
  }

  /** `revoked_at IS NULL AND expires_at > datetime('now')` */
  predicate Selected(r: Row, clock: Stamp) {
    !r.revoked && TextBefore(ClockText(clock), r.expiresAt)
  }

  function ActiveRows(table: seq<Row>, clock: Stamp): (rows: seq<Row>)
    ensures forall r :: r in rows <==> r in table && Selected(r, clock)
  {
    if table == [] then []
    else
      var n := |table| - 1;
      assert table == table[..n] + [table[n]];
      ActiveRows(table[..n], clock) + if Selected(table[n], clock) then [table[n]] else []
  }

  function WithRevoked(table: seq<Row>, id: nat): (rows: seq<Row>)
    ensures |rows| == |table|
    ensures forall i :: 0 <= i < |table| ==>
                          rows[i] == if table[i].id == id then table[i].(revoked := true) else table[i]
  {
    seq(|table|, i requires 0 <= i < |table| =>
      if table[i].id == id then table[i].(revoked := true) else table[i])
  }

  /** Row ids are distinct and none is above the last one given out. */
  predicate IdsInOrder(table: seq<Row>, lastId: nat) {
    && (forall i, j :: 0 <= i < j < |table| ==> table[i].id < table[j].id)
    && (forall r :: r in table ==> r.id <= lastId)
  }

  // ---------- the cache ----------

  type Cache = map<(string, string), int>

  /** Puts an expiry into the cache, keeping the later of two for one key. */
  function Keep(m: Cache, key: (string, string), ts: int): Cache {
    if key in m && ts <= m[key] then m else m[key := ts]
  }

  function CacheOf(c: Chrono, rows: seq<Row>): Cache {
    if rows == [] then map[]
    else
      var n := |rows| - 1;
      var before := CacheOf(c, rows[..n]);
      match ParseSqliteUtc(c, rows[n].expiresAt)
      case None => before
      case Some(ts) => Keep(before, Key(rows[n]), ts)
  }

  function HasActiveIn(m: Cache, device: string, category: string, now: int): bool {
    (device, category) in m && m[(device, category)] > now
  }

  /** The row gives the device the category at `now`. */
  predicate Live(c: Chrono, r: Row, device: string, category: string, now: int) {
    && !r.revoked && r.device == device && r.category == category
    && ParseSqliteUtc(c, r.expiresAt).Some? && ParseSqliteUtc(c, r.expiresAt).value > now
  }

  /** The row gives the device the category at `now`, said of its text. */
  ghost predicate InForce(r: Row, device: string, category: string, now: int) {
    !r.revoked && r.device == device && r.category == category && Ahead(r.expiresAt, now)
  }

  /** Parsed and later than `now`, whether or not revoked. */
  predicate Unexpired(c: Chrono, r: Row, device: string, category: string, now: int) {
    Key(r) == (device, category)
    && ParseSqliteUtc(c, r.expiresAt).Some? && ParseSqliteUtc(c, r.expiresAt).value > now
  }

  ghost predicate SomeUnexpired(c: Chrono, rows: seq<Row>, device: string, category: string, now: int) {
    exists r :: r in rows && Unexpired(c, r, device, category, now)
  }

  /** Keeping the maximum is enough: the cache says yes exactly when a row does, at every time. */
  lemma {:induction false} CacheMeaning(c: Chrono, rows: seq<Row>, device: string, category: string, now: int)
    ensures HasActiveIn(CacheOf(c, rows), device, category, now)
            <==> SomeUnexpired(c, rows, device, category, now)
  {
    if rows == [] {
    } else {
      var n := |rows| - 1;
      CacheMeaning(c, rows[..n], device, category, now);
      assert rows == rows[..n] + [rows[n]];
      if Unexpired(c, rows[n], device, category, now) {
        assert rows[n] in rows;
      }
    }
  }

  /** The order in which the query lists the rows does not matter. */
  lemma OrderIrrelevant(c: Chrono, a: seq<Row>, b: seq<Row>, device: string, category: string, now: int)
    requires forall r :: r in a <==> r in b
    ensures HasActiveIn(CacheOf(c, a), device, category, now)
            <==> HasActiveIn(CacheOf(c, b), device, category, now)
  {
    CacheMeaning(c, a, device, category, now);
    CacheMeaning(c, b, device, category, now);
  }

  class ConfigStore {
    var grants: seq<Row>
    var lastId: nat

    ghost predicate Valid()
      reads this
    {
      IdsInOrder(grants, lastId)
    }

    constructor ()
      ensures Valid() && grants == [] && lastId == 0
    {
      grants, lastId := [], 0;
    }

    /** `known`: the device exists, as the foreign key demands. */
    method InsertGrant(device: string, category: string, expiresAt: string, known: bool) returns (id: Option<nat>)
      requires Valid()
      modifies this
      ensures Valid()
      ensures !known ==> id == None && grants == old(grants) && lastId == old(lastId)
      ensures known ==> id == Some(old(lastId) + 1) && lastId == old(lastId) + 1
                        && grants == old(grants) + [Row(lastId, device, category, expiresAt, false)]
    {
      if !known {
        return None;
      }
      lastId := lastId + 1;
      grants := grants + [Row(lastId, device, category, expiresAt, false)];
      id := Some(lastId);
    }

    method ListActiveGrants(clock: Stamp) returns (rows: seq<Row>)
      ensures rows == ActiveRows(grants, clock)
    {
      rows := [];
      for i := 0 to |grants|
        invariant rows == ActiveRows(grants[..i], clock)
      {
        assert grants[..i + 1][..i] == grants[..i];
        if Selected(grants[i], clock) {
          rows := rows + [grants[i]];
        }
      }
      assert grants[..|grants|] == grants;
    }

    /** Only a row not yet revoked is touched, and at most one. */
    method RevokeGrant(id: nat) returns (changed: bool)
      requires Valid()
      modifies this`grants
      ensures Valid() && grants == WithRevoked(old(grants), id)
      ensures changed <==> exists r :: r in old(grants) && r.id == id && !r.revoked
    {
      changed := exists i :: 0 <= i < |grants| && grants[i].id == id && !grants[i].revoked;
      grants := seq(|grants|, i requires 0 <= i < |grants| reads this =>
        if grants[i].id == id && !grants[i].revoked then grants[i].(revoked := true) else grants[i]);
    }
  }

  class GrantStore {
    const chrono: Chrono
    const store: ConfigStore
    var active: Cache

    constructor (chrono: Chrono, store: ConfigStore, clock: Stamp)
      ensures this.chrono == chrono && this.store == store
      ensures active == CacheOf(chrono, ActiveRows(store.grants, clock))
    {
      this.chrono := chrono;
      this.store := store;
      active := map[];
      new;
      var _ := Refresh(clock, true);
    }

    /** `answers`: the database query succeeds. */
    method Refresh(clock: Stamp, answers: bool) returns (count: Option<nat>)
      modifies this
      ensures answers ==> active == CacheOf(chrono, ActiveRows(store.grants, clock)) && count == Some(|active|)
      ensures !answers ==> active == old(active) && count == None
    {
      if !answers {
        return None;
      }
      var grants := store.ListActiveGrants(clock);
      var newMap: Cache := map[];
      for i := 0 to |grants|
        invariant newMap == CacheOf(chrono, grants[..i])
      {
        assert grants[..i + 1][..i] == grants[..i];
        var parsed := ParseSqliteUtc(chrono, grants[i].expiresAt);
        if parsed.Some? {
          var key := (grants[i].device, grants[i].category);
          if key in newMap {
            if parsed.value > newMap[key] {
              newMap := newMap[key := parsed.value];
            }
          } else {
            newMap := newMap[key := parsed.value];
          }
        }
      }
      assert grants[..|grants|] == grants;
      active := newMap;
      count := Some(|newMap|);
    }

    method HasActive(device: string, category: string, clock: Stamp) returns (r: bool)
      ensures r <==> HasActiveIn(active, device, category, Seconds(clock))
    {
      var key := (device, category);
      r := key in active && active[key] > Seconds(clock);
    }
  }
}
