/**
 The byte-level TTL patcher refines the structured update: patching the wire
 form of a message gives the wire form of the message with every TTL set. Also
 where the walker stops, and where a compression pointer leads.
 */
module TtlPatch {
  import opened DnsMessage
  import opened DnsWire
  import opened Numbers

  /** The bytes of `d` from `at` on. */
  predicate From(d: Bytes, at: nat, rest: Bytes) {
    at <= |d| && d[at..] == rest
  }

  lemma FromLater(d: Bytes, at: nat, rest: Bytes, k: nat)
    requires From(d, at, rest) && k <= |rest|
    ensures From(d, at + k, rest[k..])
  {
  }

  lemma FromU16(d: Bytes, at: nat, x: nat, tail: Bytes)
    requires x < 0x1_0000 && From(d, at, PutU16(x, tail))
    ensures ReadU16(d, at) == x && From(d, at + 2, tail)
  {
    assert d[at] == d[at..][0] && d[at + 1] == d[at..][1];
    FromLater(d, at, PutU16(x, tail), 2);
    assert PutU16(x, tail)[2..] == tail;
  }

  /** The first label of an encoded name, and where the rest of the name is. */
  lemma LabelAt(d: Bytes, at: nat, n: Name, tail: Bytes)
    requires ValidName(n) && n.labels != [] && From(d, at, PutName(n, tail))
    ensures var l := n.labels[0];
            && at + 1 + |l| <= |d| && d[at] == |l| && d[at + 1..at + 1 + |l|] == l
            && ValidName(n.Rest()) && From(d, at + 1 + |l|, PutName(n.Rest(), tail))
  {
    var l, next := n.labels[0], PutName(n.Rest(), tail);
    assert d[at] == d[at..][0];
    FromLater(d, at, [|l|] + (l + next), 1);
    assert ([|l|] + (l + next))[1..] == l + next;
    FromLater(d, at + 1, l + next, |l|);
    assert (l + next)[|l|..] == next;
    assert d[at + 1..at + 1 + |l|] == d[at + 1..][..|l|];
  }

  lemma FromFirst(d: Bytes, at: nat, rest: Bytes)
    requires From(d, at, rest) && rest != []
    ensures |d| == at + |rest| && d[at] == rest[0]
  {
    assert d[at] == d[at..][0];
  }

  lemma LastPartOfEncoded(d: Bytes, at: nat, n: Name, tail: Bytes)
    requires ValidName(n) && n.labels == [] && From(d, at, PutName(n, tail))
    ensures NameEnd(d, at) == |d| - |tail| && From(d, NameEnd(d, at), tail)
  {
    hide From;
    var b, size := PutName(n, tail), if n.ending.Root? then 1 else 2;
    FromFirst(d, at, b);
    FromLater(d, at, b, size);
    assert b[size..] == tail;
  }

  /** The walker skips an encoded name wherever it stands. */
  lemma {:induction false} NameEndOfEncoded(d: Bytes, at: nat, n: Name, tail: Bytes)
    requires ValidName(n) && From(d, at, PutName(n, tail))
    ensures NameEnd(d, at) == |d| - |tail| && From(d, NameEnd(d, at), tail)
    decreases |n.labels|
  {
    if n.labels == [] {
      LastPartOfEncoded(d, at, n, tail);
    } else {
      hide PutName, From;
      var l := n.labels[0];
      LabelAt(d, at, n, tail);
      NameEndOfEncoded(d, at + 1 + |l|, n.Rest(), tail);
      assert NameEnd(d, at) == NameEnd(d, at + 1 + |l|);
    }
  }

  lemma {:induction false} QuestionsEndOfEncoded(d: Bytes, at: nat, qs: seq<Question>, n: nat, tail: Bytes)
    requires n == |qs| && ValidQuestions(qs) && at > 0 && From(d, at, PutQuestions(qs, tail))
    ensures |d| - |tail| >= at && From(d, |d| - |tail|, tail)
    ensures QuestionsEnd(d, at, n) == |d| - |tail|
    decreases n
  {
    hide NameEnd, PutName, U16, PutU16, ReadU16, ValidName;
    if n == 0 {
    } else {
      var q, next := qs[0], PutQuestions(qs[1..], tail);
      NameEndOfEncoded(d, at, q.name, PutU16(q.qtype, PutU16(q.qclass, next)));
      var o := NameEnd(d, at);
      FromU16(d, o, q.qtype, PutU16(q.qclass, next));
      FromU16(d, o + 2, q.qclass, next);
      QuestionsEndOfEncoded(d, o + 4, qs[1..], n - 1, tail);
    }
  }

  /** Where the walker finds the TTL of an encoded record. */
  lemma RecordAtOfEncoded(d: Bytes, at: nat, r: ResourceRecord, tail: Bytes)
    requires ValidRecord(r) && From(d, at, PutRecord(r, tail))
    ensures RecordAt(d, at).Some?
    ensures var f := RecordAt(d, at).value;
            && f.next == |d| - |tail| && From(d, f.next, tail) && f.ttlAt > at
            && From(d, f.ttlAt, PutU32(r.ttl, PutRdata(r.rdata, tail)))
  {
    hide NameEnd, PutName, U16, PutU16, ReadU16, ValidName;
    var b4 := PutRdata(r.rdata, tail);
    var b3 := PutU32(r.ttl, b4);
    var b2 := PutU16(r.rclass, b3);
    NameEndOfEncoded(d, at, r.name, PutU16(r.rtype, b2));
    var o := NameEnd(d, at);
    FromU16(d, o, r.rtype, b2);
    FromU16(d, o + 2, r.rclass, b3);
    FromU16(d, o + 4, r.ttl / 0x1_0000, PutU16(r.ttl % 0x1_0000, b4));
    FromU16(d, o + 6, r.ttl % 0x1_0000, b4);
    FromU16(d, o + 8, |r.rdata|, r.rdata + tail);
    FromLater(d, o + 10, r.rdata + tail, |r.rdata|);
    assert (r.rdata + tail)[|r.rdata|..] == tail;
  }

  // ----- encoders put a fixed prefix in front of their tail -----

  lemma {:induction false} PutNamePrefix(n: Name, tail: Bytes)
    requires ValidName(n)
    ensures PutName(n, tail) == PutName(n, []) + tail
    decreases |n.labels|
  {
    if n.labels == [] {
    } else {
      PutNamePrefix(n.Rest(), tail);
      Regroup([|n.labels[0]|], n.labels[0], PutName(n.Rest(), []), tail);
    }
  }

  lemma Regroup(a: Bytes, b: Bytes, c: Bytes, d: Bytes)
    ensures a + (b + (c + d)) == (a + (b + c)) + d
  {
  }

  lemma PutU16Prefix(x: nat, a: Bytes, tail: Bytes)
    requires x < 0x1_0000
    ensures PutU16(x, a + tail) == PutU16(x, a) + tail
  {
  }

  lemma PutU32IsU32(x: nat, tail: Bytes)
    requires x < 0x1_0000_0000
    ensures PutU32(x, tail) == U32(x) + tail
  {
  }

  /** Replacing the TTL field of an encoded record re-encodes the record. */
  lemma WrittenRecord(d: Bytes, at: nat, r: ResourceRecord, tail: Bytes, ttl: nat)
    requires ValidRecord(r) && ttl < 0x1_0000_0000 && From(d, at, PutRecord(r, tail))
    requires RecordAt(d, at).Some?
    ensures var w := Written(d, RecordAt(d, at).value.ttlAt, ttl);
            w[..at] == d[..at] && From(w, at, PutRecord(r.(ttl := ttl), tail))
  {
    hide RecordAt, NameEnd, PutName, U16, PutU16, ReadU16, PutRdata, ValidName;
    RecordAtOfEncoded(d, at, r, tail);
    var f := RecordAt(d, at).value.ttlAt;
    var body := PutRdata(r.rdata, tail);
    var w := Written(d, f, ttl);
    var b2 := PutU16(r.rclass, PutU32(r.ttl, body));
    var c2 := PutU16(r.rclass, PutU32(ttl, body));
    PutNamePrefix(r.name, PutU16(r.rtype, b2));
    PutNamePrefix(r.name, PutU16(r.rtype, c2));
    var head := PutName(r.name, []) + (U16(r.rtype) + U16(r.rclass));
    PutU32IsU32(r.ttl, body);
    PutU32IsU32(ttl, body);
    HeadOfRecord(r.name, r.rtype, r.rclass, PutU32(r.ttl, body));
    HeadOfRecord(r.name, r.rtype, r.rclass, PutU32(ttl, body));
    SpliceTail(d, at, head, U32(r.ttl), U32(ttl), body);
    assert |PutU32(r.ttl, body)| == |d| - f;
  }

  lemma HeadOfRecord(n: Name, rtype: nat, rclass: nat, rest: Bytes)
    requires ValidName(n) && rtype < 0x1_0000 && rclass < 0x1_0000
    ensures PutName(n, PutU16(rtype, PutU16(rclass, rest))) == PutName(n, []) + (U16(rtype) + U16(rclass)) + rest
  {
    PutNamePrefix(n, PutU16(rtype, PutU16(rclass, rest)));
  }

  /** Overwriting the middle of `head + x + body`. */
  lemma SpliceTail(d: Bytes, at: nat, head: Bytes, x: Bytes, y: Bytes, body: Bytes)
    requires |x| == 4 && |y| == 4 && From(d, at, head + (x + body))
    ensures var f := at + |head|;
            var w := d[..f] + y + d[f + 4..];
            w[..at] == d[..at] && From(w, at, head + (y + body))
  {
    var f := at + |head|;
    FromLater(d, at, head + (x + body), |head|);
    assert (head + (x + body))[|head|..] == x + body;
    FromLater(d, f, x + body, 4);
    assert (x + body)[4..] == body;
    assert d[at..f] == head by { assert d[at..][..|head|] == head; }
    var w := d[..f] + y + d[f + 4..];
    assert w == d[..at] + (head + (y + body));
  }

  // ----- patching the bytes is setting the TTLs -----

  lemma {:induction false} PatchRecordsRefines(d: Bytes, at: nat, rs: seq<ResourceRecord>, n: nat, tail: Bytes,
        ttl: nat)
    returns (o: Bytes)
    requires n == |rs| && ValidRecords(rs) && ttl < 0x1_0000_0000 && From(d, at, PutRecords(rs, tail))
    ensures Within(d, RecordFields(d, at, n)) && o == Overlay(d, RecordFields(d, at, n), ttl)
    ensures o[..at] == d[..at] && From(o, at, PutRecords(SetTtls(rs, ttl), tail))
    decreases n
  {
    hide RecordAt, PutRecord, Written, ValidName;
    if n == 0 {
      o := d;
    } else {
      var r, rest := rs[0], rs[1..];
      var f, w := PatchFirstRecord(d, at, rs, tail, ttl);
      o := PatchRecordsRefines(w, f.next, rest, n - 1, tail, ttl);
      var patched := SetTtls(rest, ttl);
      assert SetTtls(rs, ttl)[0] == r.(ttl := ttl) && SetTtls(rs, ttl)[1..] == patched;
      ReplaceTail(w, o, at, f.next, r.(ttl := ttl), PutRecords(rest, tail), PutRecords(patched, tail));
    }
  }

  /** Writing the first record's TTL leaves the other fields where they are. */
  lemma {:induction false} PatchFirstRecord(d: Bytes, at: nat, rs: seq<ResourceRecord>, tail: Bytes,
        ttl: nat) returns (f: Record, w: Bytes)
    requires ValidRecords(rs) && rs != [] && ttl < 0x1_0000_0000 && From(d, at, PutRecords(rs, tail))
    ensures RecordAt(d, at) == Some(f) && w == Written(d, f.ttlAt, ttl)
    ensures var after := PutRecords(rs[1..], tail);
            && at <= f.next == |w| - |after| && From(w, f.next, after)
            && w[..at] == d[..at] && From(w, at, PutRecord(rs[0].(ttl := ttl), after))
    ensures var fields := RecordFields(d, at, |rs|);
            var fields' := RecordFields(w, f.next, |rs| - 1);
            && Within(d, fields) && Within(w, fields')
            && Overlay(d, fields, ttl) == Overlay(w, fields', ttl)
  {
    hide RecordAt, PutRecord, Written, U32, ValidName, From, NameEnd;
    var r, after := rs[0], PutRecords(rs[1..], tail);
    RecordAtOfEncoded(d, at, r, after);
    f := RecordAt(d, at).value;
    w := Written(d, f.ttlAt, ttl);
    WrittenRecord(d, at, r, after, ttl);
    RecordAtOfEncoded(w, at, r.(ttl := ttl), after);
    FromSame(d, w, f.next, after);
    SameFields(d, w, f.next, |rs| - 1);
    RecordFieldsBounds(d, at, |rs|);
    RecordFieldsBounds(w, f.next, |rs| - 1);
    assert RecordFields(d, at, |rs|)[1..] == RecordFields(w, f.next, |rs| - 1);
  }

  lemma FromSame(a: Bytes, b: Bytes, at: nat, rest: Bytes)
    requires |a| == |b| && From(a, at, rest) && From(b, at, rest)
    ensures Same(a, b, at, |a|)
  {
    forall i | at <= i < |a| ensures a[i] == b[i] {
      assert a[i] == a[at..][i - at] && b[i] == b[at..][i - at];
    }
  }

  lemma {:induction false} SameFields(a: Bytes, b: Bytes, at: nat, n: nat)
    requires Same(a, b, at, |a|)
    ensures RecordFields(b, at, n) == RecordFields(a, at, n)
  {
    RecordFieldsLocal(a, b, at, n);
  }

  lemma PutRecordPrefix(r: ResourceRecord, tail: Bytes)
    requires ValidRecord(r)
    ensures PutRecord(r, tail) == PutRecord(r, []) + tail
  {
    var rdata := PutRdata(r.rdata, []);
    assert PutRdata(r.rdata, tail) == rdata + tail by { assert r.rdata + [] == r.rdata; }
    PutU16Prefix(r.ttl % 0x1_0000, rdata, tail);
    PutU16Prefix(r.ttl / 0x1_0000, PutU16(r.ttl % 0x1_0000, rdata), tail);
    var b3 := PutU32(r.ttl, rdata);
    PutU16Prefix(r.rclass, b3, tail);
    PutU16Prefix(r.rtype, PutU16(r.rclass, b3), tail);
    var b1 := PutU16(r.rtype, PutU16(r.rclass, b3));
    PutNamePrefix(r.name, b1 + tail);
    PutNamePrefix(r.name, b1);
    assert PutName(r.name, []) + (b1 + tail) == (PutName(r.name, []) + b1) + tail;
  }

  /** If what follows a record is replaced, the record now stands in front of the new bytes. */
  lemma ReplaceTail(w: Bytes, o: Bytes, at: nat, next: nat, r: ResourceRecord, was: Bytes, now: Bytes)
    requires ValidRecord(r) && From(w, at, PutRecord(r, was)) && next == |w| - |was| && at <= next
    requires next <= |o| && o[..next] == w[..next] && From(o, next, now)
    ensures o[..at] == w[..at] && From(o, at, PutRecord(r, now))
  {
    PutRecordPrefix(r, was);
    PutRecordPrefix(r, now);
    var head := PutRecord(r, []);
    assert w[at..][..|head|] == head;
    assert w[at..next] == head;
    assert o[at..next] == o[..next][at..] && w[at..next] == w[..next][at..];
    assert o[at..] == o[at..next] + o[next..];
    assert o[..at] == o[..next][..at] && w[..at] == w[..next][..at];
  }

  lemma {:induction false} PutRecordsConcat(a: seq<ResourceRecord>, b: seq<ResourceRecord>, tail: Bytes)
    requires ValidRecords(a) && ValidRecords(b)
    ensures ValidRecords(a + b) && PutRecords(a + b, tail) == PutRecords(a, PutRecords(b, tail))
    decreases |a|
  {
    if a == [] {
      assert a + b == b;
    } else {
      PutRecordsConcat(a[1..], b, tail);
      assert (a + b)[1..] == a[1..] + b;
    }
  }

  /** The three sections are one run of records. */
  function AllRecords(m: Message): seq<ResourceRecord> {
    m.answers + (m.authority + m.additional)
  }

  lemma SectionsAreRecords(m: Message, tail: Bytes)
    requires Valid(m)
    ensures ValidRecords(AllRecords(m)) && PutSections(m, tail) == PutRecords(AllRecords(m), tail)
    ensures |AllRecords(m)| == |m.answers| + |m.authority| + |m.additional|
  {
    PutRecordsConcat(m.authority, m.additional, tail);
    PutRecordsConcat(m.answers, m.authority + m.additional, tail);
  }

  /** What the walker reads from the header of an encoded message. */
  lemma HeaderOfEncoded(m: Message, tail: Bytes)
    requires Valid(m)
    ensures var d := Encode(m, tail);
            && |d| >= 12 && ReadU16(d, 0) == m.id && ReadU16(d, 4) == |m.questions| && RecordCount(d) == |AllRecords(m)|
            && From(d, 12, PutQuestions(m.questions, PutSections(m, tail)))
  {
    var d := Encode(m, tail);
    var d6 := PutQuestions(m.questions, PutSections(m, tail));
    var d5 := PutU16(|m.additional|, d6);
    var d4 := PutU16(|m.authority|, d5);
    var d3 := PutU16(|m.answers|, d4);
    var d2 := PutU16(|m.questions|, d3);
    assert d[0..] == d;
    FromU16(d, 0, m.id, PutU16(m.flags, d2));
    FromU16(d, 2, m.flags, d2);
    FromU16(d, 4, |m.questions|, d3);
    FromU16(d, 6, |m.answers|, d4);
    FromU16(d, 8, |m.authority|, d5);
    FromU16(d, 10, |m.additional|, d6);
  }

  /** The walker finds the sections of an encoded message. */
  lemma SectionsOfEncoded(m: Message, tail: Bytes)
    requires Valid(m)
    ensures var d := Encode(m, tail);
            var q := QuestionsEnd(d, 12, |m.questions|);
            && |d| >= 12 && q >= 12 && From(d, q, PutRecords(AllRecords(m), tail))
            && q == |d| - |PutRecords(AllRecords(m), tail)|
  {
    HeaderOfEncoded(m, tail);
    QuestionsEndOfEncoded(Encode(m, tail), 12, m.questions, |m.questions|, PutSections(m, tail));
    SectionsAreRecords(m, tail);
  }

  /** Two encodings that differ only in their record sections share their front. */
  lemma SameFront(m: Message, w: Message, tail: Bytes, d: Bytes)
    requires Valid(m) && Valid(w) && w == m.(answers := w.answers, authority := w.authority, additional := w.additional)
    requires |w.answers| == |m.answers| && |w.authority| == |m.authority| && |w.additional| == |m.additional|
    requires var q := QuestionsEnd(Encode(m, tail), 12, |m.questions|);
             q <= |Encode(m, tail)| && q <= |d| && d[..q] == Encode(m, tail)[..q] && From(d, q, PutSections(w, tail))
    ensures d == Encode(w, tail)
  {
    hide QuestionsEnd, PutQuestions, PutRecords, PutU16, ValidQuestions, ValidRecords;
    var e := Encode(m, tail);
    SectionsOfEncoded(m, tail);
    SectionsAreRecords(m, tail);
    var q := QuestionsEnd(e, 12, |m.questions|);
    var x, y := PutSections(m, tail), PutSections(w, tail);
    PutQuestionsPrefix(m.questions, x);
    PutQuestionsPrefix(m.questions, y);
    var qs := PutQuestions(m.questions, []);
    HeaderPrefix(m, qs, x);
    HeaderPrefix(w, qs, y);
    var h := PutHeader(m, qs);
    assert e == h + x;
    assert q == |h|;
    assert d == d[..q] + d[q..];
    assert e[..q] == h;
  }

  function PutHeader(m: Message, rest: Bytes): Bytes
    requires Valid(m)
  {
    PutU16(m.id, PutU16(m.flags, PutU16(|m.questions|,
      PutU16(|m.answers|, PutU16(|m.authority|, PutU16(|m.additional|, rest))))))
  }

  lemma HeaderPrefix(m: Message, a: Bytes, tail: Bytes)
    requires Valid(m)
    ensures PutHeader(m, a + tail) == PutHeader(m, a) + tail
  {
    var b5 := PutU16(|m.additional|, a);
    PutU16Prefix(|m.additional|, a, tail);
    var b4 := PutU16(|m.authority|, b5);
    PutU16Prefix(|m.authority|, b5, tail);
    var b3 := PutU16(|m.answers|, b4);
    PutU16Prefix(|m.answers|, b4, tail);
    var b2 := PutU16(|m.questions|, b3);
    PutU16Prefix(|m.questions|, b3, tail);
    PutU16Prefix(m.flags, b2, tail);
    PutU16Prefix(m.id, PutU16(m.flags, b2), tail);
  }

  lemma {:induction false} PutQuestionsPrefix(qs: seq<Question>, tail: Bytes)
    requires ValidQuestions(qs)
    ensures PutQuestions(qs, tail) == PutQuestions(qs, []) + tail
    decreases |qs|
  {
    hide PutName, PutU16, ValidName;
    if qs == [] {
    } else {
      var a := PutQuestions(qs[1..], []);
      PutQuestionsPrefix(qs[1..], tail);
      var q := qs[0];
      PutU16Prefix(q.qclass, a, tail);
      PutU16Prefix(q.qtype, PutU16(q.qclass, a), tail);
      var b := PutU16(q.qtype, PutU16(q.qclass, a));
      PutNamePrefix(q.name, b + tail);
      PutNamePrefix(q.name, b);
      LeftToRight(PutName(q.name, []), b, tail);
    }
  }

  lemma LeftToRight(a: Bytes, b: Bytes, c: Bytes)
    ensures a + (b + c) == (a + b) + c
  {
  }

  lemma PatchedSections(m: Message, tail: Bytes, ttl: nat) returns (q: nat)
    requires Valid(m) && ttl < 0x1_0000_0000
    ensures var d := Encode(m, tail);
            && q == QuestionsEnd(d, 12, |m.questions|) && q <= |d|
            && Patched(d, ttl)[..q] == d[..q] && From(Patched(d, ttl), q, PutSections(WithTtl(m, ttl), tail))
  {
    var d := Encode(m, tail);
    HeaderOfEncoded(m, tail);
    SectionsOfEncoded(m, tail);
    SectionsAreRecords(m, tail);
    q := QuestionsEnd(d, 12, |m.questions|);
    var o := PatchRecordsRefines(d, q, AllRecords(m), |AllRecords(m)|, tail, ttl);
    assert TtlFields(d) == RecordFields(d, q, |AllRecords(m)|);
    SetTtlsOfAll(m, ttl);
    SectionsAreRecords(WithTtl(m, ttl), tail);
  }

  lemma SetTtlsOfAll(m: Message, ttl: nat)
    ensures AllRecords(WithTtl(m, ttl)) == SetTtls(AllRecords(m), ttl)
  {
  }

  /** For every well-formed message, with any bytes behind it, patching the wire
      form gives the wire form of the message with every TTL set. */
  lemma PatchRefines(m: Message, tail: Bytes, ttl: nat)
    requires Valid(m) && ttl < 0x1_0000_0000
    ensures Patched(Encode(m, tail), ttl) == Encode(WithTtl(m, ttl), tail)
  {
    var q := PatchedSections(m, tail, ttl);
    SameFront(m, WithTtl(m, ttl), tail, Patched(Encode(m, tail), ttl));
  }

  /** For any bytes that parse: patching them is setting the TTLs of the parsed
      message; what is behind the message is untouched. */
  lemma {:induction false} PatchOfDecoded(d: Bytes, ttl: nat)
    requires Decode(d).Some? && ttl < 0x1_0000_0000
    ensures var (m, tail) := Decode(d).value;
            Decode(Patched(d, ttl)) == Some((WithTtl(m, ttl), tail))
  {
    EncodeDecoded(d);
    var (m, tail) := Decode(d).value;
    PatchRefines(m, tail, ttl);
    DecodeEncoded(WithTtl(m, ttl), tail);
  }

  // ----- where the walker stops, and where a pointer leads -----

  /** The offset behind the last record the walker visits. */
  function RecordsEnd(data: Bytes, offset: nat, n: nat): nat
    decreases n
  {
    if n == 0 then offset
    else
      var r := RecordAt(data, offset);
      if r.None? then offset else RecordsEnd(data, r.value.next, n - 1)
  }

  function WalkEnd(data: Bytes): nat
    requires |data| >= 12
  {
    RecordsEnd(data, QuestionsEnd(data, 12, ReadU16(data, 4)), RecordCount(data))
  }

  lemma {:induction false} RecordsEndOfEncoded(d: Bytes, at: nat, rs: seq<ResourceRecord>, n: nat, tail: Bytes)
    requires n == |rs| && ValidRecords(rs) && From(d, at, PutRecords(rs, tail))
    ensures RecordsEnd(d, at, n) == |d| - |tail|
    decreases n
  {
    if n == 0 {
    } else {
      RecordAtOfEncoded(d, at, rs[0], PutRecords(rs[1..], tail));
      RecordsEndOfEncoded(d, RecordAt(d, at).value.next, rs[1..], n - 1, tail);
    }
  }

  /** The walker stops exactly behind the message. */
  lemma WalkEndOfEncoded(m: Message, tail: Bytes)
    requires Valid(m)
    ensures |Encode(m, tail)| >= 12 && WalkEnd(Encode(m, tail)) == |Encode(m, tail)| - |tail|
  {
    HeaderOfEncoded(m, tail);
    SectionsOfEncoded(m, tail);
    SectionsAreRecords(m, tail);
    var d := Encode(m, tail);
    RecordsEndOfEncoded(d, QuestionsEnd(d, 12, |m.questions|), AllRecords(m), |AllRecords(m)|, tail);
  }

  /** The labels a name stands for, following up to `hops` compression pointers
      (section 4.1.4 of RFC 1035: the offset is the low 14 bits). */
  function Resolve(d: Bytes, offset: nat, hops: nat): Option<seq<Bytes>>
    decreases hops, |d| - offset
  {
    if offset >= |d| then None
    else if d[offset] == 0 then Some([])
    else if d[offset] >= 0xC0 then
      if hops == 0 || offset + 1 >= |d| then None
      else Resolve(d, (d[offset] as int - 0xC0) * 0x100 + d[offset + 1], hops - 1)
    else if d[offset] > 63 || offset + 1 + d[offset] > |d| then None
    else
      var rest :- Resolve(d, offset + 1 + d[offset], hops);
      Some([d[offset + 1..offset + 1 + d[offset]]] + rest)
  }

  lemma {:induction false} ResolveUncompressed(d: Bytes, at: nat, n: Name, tail: Bytes, hops: nat)
    requires ValidName(n) && n.ending.Root? && From(d, at, PutName(n, tail))
    ensures Resolve(d, at, hops) == Some(n.labels)
    decreases |n.labels|
  {
    if n.labels != [] {
      hide PutName, From, ValidName;
      var l := n.labels[0];
      LabelAt(d, at, n, tail);
      ResolveUncompressed(d, at + 1 + |l|, n.Rest(), tail, hops);
      assert [l] + n.labels[1..] == n.labels;
    } else {
      assert d[at] == d[at..][0];
    }
  }
}
