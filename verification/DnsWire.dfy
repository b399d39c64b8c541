/**
 The TTL patcher of the DNS cache (src/dns/cache.rs:183-264): a walker over raw
 response bytes that overwrites every record's TTL field in place. The functions
 say which fields the walk visits; the methods do the walk on an array.
 */
module DnsWire {
  import opened Numbers

  /** `skip_name`: the offset just after the name at `offset`, or 0. A length
      byte with both top bits set is a compression pointer. */
  function NameEnd(data: Bytes, offset: nat): (r: nat)
    ensures r == 0 || r > offset
    decreases |data| - offset
  {
    if offset >= |data| then 0
    else if data[offset] == 0 then offset + 1
    else if data[offset] >= 0xC0 then offset + 2
    else if data[offset] > 63 then 0
    else NameEnd(data, offset + 1 + data[offset])
  }

  /** The offset after `n` questions, or 0. */
  function QuestionsEnd(data: Bytes, offset: nat, n: nat): (r: nat)
    ensures r == 0 || r >= offset
    decreases n
  {
    if n == 0 then offset
    else
      var o := NameEnd(data, offset);
      if o == 0 then 0 else QuestionsEnd(data, o + 4, n - 1)
  }

  /** Where a record's TTL field is and where the next record starts. */
  datatype Record = Record(ttlAt: nat, next: nat)

  /** The record at `offset`, if its name can be skipped and a whole record header follows. */
  function RecordAt(data: Bytes, offset: nat): (r: Option<Record>)
    ensures r.Some? ==> offset + 5 <= r.value.ttlAt && r.value.ttlAt + 6 <= |data| && r.value.ttlAt + 6 <= r.value.next
  {
    var o := NameEnd(data, offset);
    if o == 0 || o + 10 > |data| then None else Some(Record(o + 4, o + 10 + ReadU16(data, o + 8)))
  }

  /** The TTL fields of up to `n` records starting at `offset`, as far as the bytes reach. */
  function RecordFields(data: Bytes, offset: nat, n: nat): seq<nat>
    decreases n
  {
    if n == 0 then []
    else
      var r := RecordAt(data, offset);
      if r.None? then [] else [r.value.ttlAt] + RecordFields(data, r.value.next, n - 1)
  }

  lemma {:induction false} RecordFieldsBounds(data: Bytes, offset: nat, n: nat)
    ensures forall f :: f in RecordFields(data, offset, n) ==> offset + 5 <= f && f + 6 <= |data|
    ensures Within(data, RecordFields(data, offset, n))
    decreases n
  {
    if n > 0 && RecordAt(data, offset).Some? {
      RecordFieldsBounds(data, RecordAt(data, offset).value.next, n - 1);
    }
  }

  lemma TtlFieldsBounds(data: Bytes)
    ensures forall f :: f in TtlFields(data) ==> 12 <= f && f + 6 <= |data|
    ensures Within(data, TtlFields(data))
  {
    if |data| >= 12 {
      RecordFieldsBounds(data, QuestionsEnd(data, 12, ReadU16(data, 4)), RecordCount(data));
    }
  }

  function RecordCount(data: Bytes): nat
    requires |data| >= 12
  {
    ReadU16(data, 6) + ReadU16(data, 8) + ReadU16(data, 10)
  }

  /** Every TTL field the walker visits. */
  function TtlFields(data: Bytes): seq<nat> {
    if |data| < 12 then []
    else
      var q := QuestionsEnd(data, 12, ReadU16(data, 4));
      if q == 0 then [] else RecordFields(data, q, RecordCount(data))
  }

  /** The first of `fields` whose four bytes include position `i`. */
  function Covering(fields: seq<nat>, i: nat): (r: Option<nat>)
    ensures r.Some? ==> r.value in fields && r.value <= i < r.value + 4
    ensures r.None? ==> forall f :: f in fields ==> !(f <= i < f + 4)
  {
    if fields == [] then None
    else if fields[0] <= i < fields[0] + 4 then Some(fields[0])
    else
      assert forall f :: f in fields ==> f == fields[0] || f in fields[1..];
      Covering(fields[1..], i)
  }

  function Written(data: Bytes, at: nat, ttl: nat): (r: Bytes)
    requires ttl < 0x1_0000_0000 && at + 4 <= |data|
    ensures |r| == |data|
  {
    data[..at] + U32(ttl) + data[at + 4..]
  }

  predicate Within(data: Bytes, fields: seq<nat>) {
    forall j :: 0 <= j < |fields| ==> fields[j] + 4 <= |data|
  }

  /** `data` with the four bytes of every field set to `ttl`, field after field. */
  function Overlay(data: Bytes, fields: seq<nat>, ttl: nat): (r: Bytes)
    requires ttl < 0x1_0000_0000 && Within(data, fields)
    ensures |r| == |data|
    decreases |fields|
  {
    if fields == [] then data else Overlay(Written(data, fields[0], ttl), fields[1..], ttl)
  }

  /** `update_response_ttl` */
  function Patched(data: Bytes, ttl: nat): (r: Bytes)
    requires ttl < 0x1_0000_0000
    ensures |r| == |data|
  {
    TtlFieldsBounds(data);
    Overlay(data, TtlFields(data), ttl)
  }

  /** Fields do not overlap. */
  predicate Spaced(fields: seq<nat>) {
    forall i, j :: 0 <= i < j < |fields| ==> fields[i] + 4 <= fields[j]
  }

  lemma {:induction false} RecordFieldsSpaced(data: Bytes, offset: nat, n: nat)
    ensures Spaced(RecordFields(data, offset, n))
    decreases n
  {
    if n > 0 && RecordAt(data, offset).Some? {
      var r := RecordAt(data, offset).value;
      RecordFieldsSpaced(data, r.next, n - 1);
      RecordFieldsBounds(data, r.next, n - 1);
      var rest := RecordFields(data, r.next, n - 1);
      forall j | 0 <= j < |rest| ensures r.ttlAt + 4 <= rest[j] {
        assert rest[j] in rest;
      }
    }
  }

  lemma TtlFieldsSpaced(data: Bytes)
    ensures Spaced(TtlFields(data))
  {
    if |data| >= 12 {
      RecordFieldsSpaced(data, QuestionsEnd(data, 12, ReadU16(data, 4)), RecordCount(data));
    }
  }

  lemma {:induction false} OverlayUncovered(data: Bytes, fields: seq<nat>, ttl: nat, i: nat)
    requires ttl < 0x1_0000_0000 && Within(data, fields) && i < |data| && Covering(fields, i).None?
    ensures Overlay(data, fields, ttl)[i] == data[i]
    decreases |fields|
  {
    if fields == [] {
    } else {
      assert fields[0] in fields;
      OverlayUncovered(Written(data, fields[0], ttl), fields[1..], ttl, i);
    }
  }

  lemma {:induction false} OverlayCovered(data: Bytes, fields: seq<nat>, ttl: nat, i: nat)
    requires ttl < 0x1_0000_0000 && Within(data, fields) && Spaced(fields) && i < |data| && Covering(fields, i).Some?
    ensures Overlay(data, fields, ttl)[i] == U32(ttl)[i - Covering(fields, i).value]
    decreases |fields|
  {
    var f, rest := fields[0], fields[1..];
    if f <= i < f + 4 {
      forall g | g in rest ensures !(g <= i < g + 4) {
        var j :| 0 <= j < |rest| && rest[j] == g;
        assert fields[j + 1] == g;
      }
      assert Covering(rest, i).None?;
      OverlayUncovered(Written(data, f, ttl), rest, ttl, i);
    } else {
      OverlayCovered(Written(data, f, ttl), rest, ttl, i);
    }
  }

  /** What the patch means byte by byte: a byte of a visited TTL field gets the
      new TTL's byte, every other byte is kept. */
  lemma PatchedBytes(data: Bytes, ttl: nat, i: nat)
    requires ttl < 0x1_0000_0000 && i < |data|
    ensures (forall f :: f in TtlFields(data) ==> !(f <= i < f + 4)) ==> Patched(data, ttl)[i] == data[i]
    ensures forall f :: f in TtlFields(data) && f <= i < f + 4 ==> Patched(data, ttl)[i] == U32(ttl)[i - f]
  {
    TtlFieldsBounds(data);
    TtlFieldsSpaced(data);
    var fields := TtlFields(data);
    var c := Covering(fields, i);
    if c.None? {
      OverlayUncovered(data, fields, ttl, i);
    } else {
      OverlayCovered(data, fields, ttl, i);
      var a :| 0 <= a < |fields| && fields[a] == c.value;
      forall f | f in fields && f <= i < f + 4 ensures f == c.value {
        var b :| 0 <= b < |fields| && fields[b] == f;
        assert a == b;
      }
    }
  }

  // ----- no read touches a written byte -----

  /** `a` and `b` have the same length and the same bytes from `lo` up to `hi`. */
  predicate Same(a: Bytes, b: Bytes, lo: nat, hi: nat) {
    |a| == |b| && forall i :: lo <= i < hi && i < |a| ==> a[i] == b[i]
  }

  /** A name is found again in bytes that agree up to its end. */
  lemma {:induction false} NameEndLocal(a: Bytes, b: Bytes, offset: nat)
    requires Same(a, b, offset, if NameEnd(a, offset) == 0 then |a| else NameEnd(a, offset))
    ensures NameEnd(b, offset) == NameEnd(a, offset)
    decreases |a| - offset
  {
    if offset < |a| && 0 < a[offset] <= 63 {
      NameEndLocal(a, b, offset + 1 + a[offset]);
    }
  }

  lemma {:induction false} QuestionsEndLocal(a: Bytes, b: Bytes, offset: nat, n: nat)
    requires Same(a, b, offset, if QuestionsEnd(a, offset, n) == 0 then |a| else QuestionsEnd(a, offset, n))
    ensures QuestionsEnd(b, offset, n) == QuestionsEnd(a, offset, n)
    decreases n
  {
    if n == 0 {
    } else {
      NameEndLocal(a, b, offset);
      var o := NameEnd(a, offset);
      if o != 0 {
        QuestionsEndLocal(a, b, o + 4, n - 1);
      }
    }
  }

  /** `a` and `b` agree from `offset` on except inside `fields`. */
  predicate SameOutside(a: Bytes, b: Bytes, offset: nat, fields: seq<nat>) {
    && |a| == |b|
    && forall i :: offset <= i < |a| && Covering(fields, i).None? ==> a[i] == b[i]
  }

  /** A record is found again in bytes that agree around its TTL field. */
  lemma RecordAtLocal(a: Bytes, b: Bytes, offset: nat)
    requires |a| == |b|
    requires forall i :: offset <= i < |a| && a[i] != b[i] ==>
               RecordAt(a, offset).Some? && (RecordAt(a, offset).value.ttlAt <= i < RecordAt(a, offset).value.ttlAt + 4
                                             || RecordAt(a, offset).value.ttlAt + 6 <= i)
    ensures RecordAt(b, offset) == RecordAt(a, offset)
  {
    var o := NameEnd(a, offset);
    assert Same(a, b, offset, if o == 0 then |a| else o);
    NameEndLocal(a, b, offset);
  }

  /** What agreeing outside the fields gives for the first record, and for the rest. */
  lemma FirstRecordSame(a: Bytes, b: Bytes, offset: nat, n: nat)
    requires n > 0 && SameOutside(a, b, offset, RecordFields(a, offset, n))
    ensures RecordAt(b, offset) == RecordAt(a, offset)
    ensures RecordAt(a, offset).Some? ==>
              var next := RecordAt(a, offset).value.next;
              SameOutside(a, b, next, RecordFields(a, next, n - 1))
  {
    var r := RecordAt(a, offset);
    if r.Some? {
      var rest := RecordFields(a, r.value.next, n - 1);
      var fields := RecordFields(a, offset, n);
      RecordFieldsBounds(a, r.value.next, n - 1);
      assert fields == [r.value.ttlAt] + rest && fields[1..] == rest;
      assert forall i :: r.value.next <= i ==> Covering(fields, i) == Covering(rest, i);
      forall i | offset <= i < |a| && a[i] != b[i]
        ensures r.value.ttlAt <= i < r.value.ttlAt + 4 || r.value.ttlAt + 6 <= i
      {
        assert Covering(fields, i).Some?;
      }
    }
    RecordAtLocal(a, b, offset);
  }

  lemma {:induction false} RecordFieldsLocal(a: Bytes, b: Bytes, offset: nat, n: nat)
    requires SameOutside(a, b, offset, RecordFields(a, offset, n))
    ensures RecordFields(b, offset, n) == RecordFields(a, offset, n)
    decreases n
  {
    if n == 0 {
    } else {
      FirstRecordSame(a, b, offset, n);
      if RecordAt(a, offset).Some? {
        RecordFieldsLocal(a, b, RecordAt(a, offset).value.next, n - 1);
      }
    }
  }

  /** The patch leaves every byte before the first TTL field alone. */
  lemma PatchSparesFront(data: Bytes, ttl: nat, hi: nat)
    requires ttl < 0x1_0000_0000
    requires forall f :: f in TtlFields(data) ==> hi <= f
    ensures Same(data, Patched(data, ttl), 0, hi)
  {
    forall i | 0 <= i < hi && i < |data| ensures data[i] == Patched(data, ttl)[i] {
      PatchedBytes(data, ttl, i);
    }
  }

  /** Patching does not change where the TTL fields are. */
  lemma PatchKeepsFields(data: Bytes, ttl: nat)
    requires ttl < 0x1_0000_0000
    ensures TtlFields(Patched(data, ttl)) == TtlFields(data)
  {
    if |data| >= 12 {
      var p := Patched(data, ttl);
      TtlFieldsBounds(data);
      PatchSparesFront(data, ttl, 12);
      assert ReadU16(p, 4) == ReadU16(data, 4) && RecordCount(p) == RecordCount(data);
      var q := QuestionsEnd(data, 12, ReadU16(data, 4));
      RecordFieldsBounds(data, q, RecordCount(data));
      PatchSparesFront(data, ttl, if q == 0 then |data| else q);
      QuestionsEndLocal(data, p, 12, ReadU16(data, 4));
      if q != 0 {
        forall i | q <= i < |data| && Covering(RecordFields(data, q, RecordCount(data)), i).None?
          ensures data[i] == p[i]
        {
          PatchedBytes(data, ttl, i);
        }
        RecordFieldsLocal(data, p, q, RecordCount(data));
      }
    }
  }

  /** On arbitrary bytes, the last patch wins. */
  lemma PatchLastWins(data: Bytes, first: nat, second: nat)
    requires first < 0x1_0000_0000 && second < 0x1_0000_0000
    ensures Patched(Patched(data, first), second) == Patched(data, second)
  {
    PatchKeepsFields(data, first);
    forall i | 0 <= i < |data| ensures Patched(Patched(data, first), second)[i] == Patched(data, second)[i] {
      PatchedBytes(data, first, i);
      PatchedBytes(data, second, i);
      PatchedBytes(Patched(data, first), second, i);
      if f :| f in TtlFields(data) && f <= i < f + 4 {
        assert f in TtlFields(Patched(data, first));
      }
    }
  }

  // ----- the walk on an array -----

  method SkipName(data: array<Byte>, start: nat) returns (r: nat)
    ensures r == NameEnd(data[..], start)
  {
    var offset := start;
    if offset >= data.Length {
      return 0;
    }
    while true
      invariant NameEnd(data[..], start) == NameEnd(data[..], offset)
      decreases data.Length - offset
    {
      if offset >= data.Length {
        return 0;
      }
      var len: nat := data[offset];
      if len == 0 {
        return offset + 1;
      } else if len >= 0xC0 {
        return offset + 2;
      } else if len > 63 {
        return 0;
      } else {
        offset := offset + 1 + len;
      }
    }
  }

  method WriteU32(data: array<Byte>, at: nat, x: nat)
    requires at + 4 <= data.Length && x < 0x1_0000_0000
    modifies data
    ensures data[..] == Written(old(data[..]), at, x)
  {
    var b := U32(x);
    data[at], data[at + 1], data[at + 2], data[at + 3] := b[0], b[1], b[2], b[3];
  }

  method ReadU16At(data: array<Byte>, at: nat) returns (r: nat)
    requires at + 2 <= data.Length
    ensures r == ReadU16(data[..], at)
  {
    r := (data[at] as int) * 0x100 + data[at + 1];
  }

  method SkipQuestions(data: array<Byte>, qdcount: nat) returns (offset: nat)
    ensures offset == QuestionsEnd(data[..], 12, qdcount)
  {
    offset := 12;
    var left := qdcount;
    while left > 0
      invariant QuestionsEnd(data[..], 12, qdcount) == QuestionsEnd(data[..], offset, left)
    {
      offset := SkipName(data, offset);
      if offset == 0 {
        return;
      }
      offset := offset + 4;
      left := left - 1;
    }
  }

  /** The record loop's invariant, on bytes `now` that from `offset` on are still
      as received: overlaying the fields of the `left` records to come gives `goal`. */
  ghost predicate Pending(data: Bytes, now: Bytes, offset: nat, left: nat, ttl: nat, goal: Bytes)
    requires ttl < 0x1_0000_0000
  {
    && Same(data, now, offset, |data|)
    && Within(now, RecordFields(data, offset, left))
    && Overlay(now, RecordFields(data, offset, left), ttl) == goal
  }

  /** One turn of the loop on byte sequences: the walk sees the record it would
      have seen in the original bytes, and writing its field keeps the invariant. */
  lemma PendingStep(data: Bytes, now: Bytes, offset: nat, left: nat, ttl: nat, goal: Bytes)
    requires ttl < 0x1_0000_0000 && left > 0 && Pending(data, now, offset, left, ttl, goal)
    ensures var r := RecordAt(now, offset);
            if r.None? then now == goal
            else Pending(data, Written(now, r.value.ttlAt, ttl), r.value.next, left - 1, ttl, goal)
  {
    RecordAtLocal(data, now, offset);
    var r := RecordAt(data, offset);
    if r.Some? {
      RecordFieldsBounds(data, r.value.next, left - 1);
      var rest := RecordFields(data, r.value.next, left - 1);
      assert ([r.value.ttlAt] + rest)[1..] == rest;
    }
  }

  /** Skips the name at `offset` and reads the record header behind it. */
  method ReadRecord(response: array<Byte>, offset: nat) returns (r: Option<Record>)
    ensures r == RecordAt(response[..], offset)
  {
    var o := SkipName(response, offset);
    if o == 0 || o + 10 > response.Length {
      return None;
    }
    var rdlength := ReadU16At(response, o + 8);
    return Some(Record(o + 4, o + 10 + rdlength));
  }

  /** One turn: writes the record's TTL and moves on by RDLENGTH. RDLENGTH lies
      behind the TTL field, so reading it first makes no difference. */
  method PatchRecord(response: array<Byte>, offset: nat, left: nat, newTtl: nat, ghost data: Bytes, ghost goal: Bytes)
    returns (stop: bool, next: nat)
    requires newTtl < 0x1_0000_0000 && left > 0 && Pending(data, response[..], offset, left, newTtl, goal)
    modifies response
    ensures if stop then response[..] == goal else Pending(data, response[..], next, left - 1, newTtl, goal)
  {
    ghost var now := response[..];
    PendingStep(data, now, offset, left, newTtl, goal);
    var r := ReadRecord(response, offset);
    assert response[..] == now;
    if r.None? {
      return true, 0;
    }
    WriteU32(response, r.value.ttlAt, newTtl);
    return false, r.value.next;
  }

  method PatchRecords(response: array<Byte>, start: nat, total: nat, newTtl: nat, ghost goal: Bytes)
    requires newTtl < 0x1_0000_0000 && Pending(response[..], response[..], start, total, newTtl, goal)
    modifies response
    ensures response[..] == goal
  {
    ghost var data := response[..];
    var offset: nat, left: nat, stop := start, total, false;
    while left > 0
      invariant Pending(data, response[..], offset, left, newTtl, goal)
    {
      stop, offset := PatchRecord(response, offset, left, newTtl, data, goal);
      if stop {
        return;
      }
      left := left - 1;
    }
  }

  method ReadCounts(data: array<Byte>) returns (qdcount: nat, total: nat)
    requires data.Length >= 12
    ensures qdcount == ReadU16(data[..], 4) && total == RecordCount(data[..])
  {
    qdcount := (data[4] as int) * 0x100 + data[5];
    var ancount := (data[6] as int) * 0x100 + data[7];
    var nscount := (data[8] as int) * 0x100 + data[9];
    var arcount := (data[10] as int) * 0x100 + data[11];
    total := ancount + nscount + arcount;
  }

  /** `update_response_ttl`: the array ends up patched as specified, for any bytes. */
  method UpdateResponseTtl(response: array<Byte>, newTtl: nat)
    requires newTtl < 0x1_0000_0000
    modifies response
    ensures response[..] == Patched(old(response[..]), newTtl)
  {
    ghost var data := response[..];
    if response.Length < 12 {
      assert TtlFields(data) == [];
      return;
    }
    var qdcount, total := ReadCounts(response);
    assert response[..] == data;
    var offset := SkipQuestions(response, qdcount);
    assert response[..] == data;
    if offset == 0 {
      assert TtlFields(data) == [];
      return;
    }
    assert TtlFields(data) == RecordFields(data, offset, total);
    RecordFieldsBounds(data, offset, total);
    PatchRecords(response, offset, total, newTtl, Patched(data, newTtl));
  }
}
