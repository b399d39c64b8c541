/**
 Where the fields of a DNS message stand, as sections 4.1.1 to 4.1.3 of RFC 1035
 have them, and that the byte walker of the cache reads names and record headers
 as a decoder would, on any bytes, cut or malformed.
 */
module DnsLayout {
  import opened DnsMessage
  import opened DnsWire
  import opened Numbers
  import opened TtlPatch

  lemma FieldInFront(x: nat, tail: Bytes)
    requires x < 0x1_0000
    ensures ReadU16(PutU16(x, tail), 0) == x && PutU16(x, tail)[2..] == tail
    ensures forall at: nat :: at + 2 <= |tail| ==> ReadU16(PutU16(x, tail), at + 2) == ReadU16(tail, at)
  {
    assert PutU16(x, tail)[2..] == tail;
  }

  /** The twelve bytes of the header. */
  lemma HeaderLayout(m: Message, tail: Bytes)
    requires Valid(m)
    ensures var d := Encode(m, tail);
            && |d| >= 12
            && ReadU16(d, 0) == m.id && ReadU16(d, 2) == m.flags && ReadU16(d, 4) == |m.questions|
            && ReadU16(d, 6) == |m.answers| && ReadU16(d, 8) == |m.authority| && ReadU16(d, 10) == |m.additional|
            && d[12..] == PutQuestions(m.questions, PutSections(m, tail))
  {
    hide PutU16, ReadU16, PutQuestions, PutSections;
    var b := PutQuestions(m.questions, PutSections(m, tail));
    var d5 := PutU16(|m.additional|, b);
    var d4 := PutU16(|m.authority|, d5);
    var d3 := PutU16(|m.answers|, d4);
    var d2 := PutU16(|m.questions|, d3);
    var d1 := PutU16(m.flags, d2);
    FieldInFront(|m.additional|, b);
    FieldInFront(|m.authority|, d5);
    FieldInFront(|m.answers|, d4);
    FieldInFront(|m.questions|, d3);
    FieldInFront(m.flags, d2);
    FieldInFront(m.id, d1);
    var d := Encode(m, tail);
    assert d[12..] == d1[10..] == d2[8..] == d3[6..] == d4[4..] == d5[2..] == b;
  }

  /** A label is its length and its bytes; a name ends with a zero or a pointer. */
  lemma NameLayout(n: Name, tail: Bytes)
    requires ValidName(n)
    ensures var d := PutName(n, tail);
            && (n.labels == [] && n.ending.Root? ==> d[0] == 0 && d[1..] == tail)
            && (n.labels == [] && n.ending.Pointer? ==>
                  |d| >= 2 && d[0] == n.ending.hi && d[1] == n.ending.lo && d[2..] == tail)
            && (n.labels != [] ==>
                  var l := |n.labels[0]|;
                  |d| >= 1 + l && d[0] as int == l && d[1..1 + l] == n.labels[0]
                  && d[1 + l..] == PutName(n.Rest(), tail))
  {
    if n.labels != [] {
      var l, rest := n.labels[0], PutName(n.Rest(), tail);
      var d := [|l|] + (l + rest);
      assert d[1..] == l + rest;
      assert d[1..1 + |l|] == (l + rest)[..|l|] == l;
      assert d[1 + |l|..] == (l + rest)[|l|..] == rest;
    } else {
      assert ([0] + tail)[1..] == tail;
    }
  }

  /** Behind its name, which takes `n` bytes, a question has its type and its class. */
  lemma QuestionLayout(q: Question, tail: Bytes)
    requires ValidQuestion(q)
    ensures var d, n := PutQuestion(q, tail), |PutName(q.name, [])|;
            && |d| == n + 4 + |tail| && d[..n] == PutName(q.name, [])
            && ReadU16(d, n) == q.qtype && ReadU16(d, n + 2) == q.qclass && d[n + 4..] == tail
  {
    hide PutName, PutU16, ReadU16;
    var name, b := PutName(q.name, []), PutU16(q.qclass, tail);
    var a := PutU16(q.qtype, b);
    PutNamePrefix(q.name, a);
    FieldInFront(q.qclass, tail);
    FieldInFront(q.qtype, b);
    Behind(name, a, 0);
    Behind(name, a, 2);
    assert (name + a)[|name| + 4..] == a[4..] == b[2..];
  }

  /** A field behind a prefix. */
  lemma Behind(front: Bytes, rest: Bytes, at: nat)
    requires at + 2 <= |rest|
    ensures ReadU16(front + rest, |front| + at) == ReadU16(rest, at)
  {
  }

  /** Behind its name a record has type, class, TTL, length and data. */
  lemma RecordLayout(r: ResourceRecord, tail: Bytes)
    requires ValidRecord(r)
    ensures var d, n := PutRecord(r, tail), |PutName(r.name, [])|;
            && |d| == n + 10 + |r.rdata| + |tail| && d[..n] == PutName(r.name, [])
            && ReadU16(d, n) == r.rtype && ReadU16(d, n + 2) == r.rclass
            && ReadU16(d, n + 4) * 0x1_0000 + ReadU16(d, n + 6) == r.ttl
            && ReadU16(d, n + 8) == |r.rdata| && d[n + 10..] == r.rdata + tail
  {
    hide PutName, PutU16, ReadU16;
    var name := PutName(r.name, []);
    var b5 := r.rdata + tail;
    var b4 := PutU16(|r.rdata|, b5);
    var b3 := PutU16(r.ttl % 0x1_0000, b4);
    var b2 := PutU16(r.ttl / 0x1_0000, b3);
    var b1 := PutU16(r.rclass, b2);
    var b0 := PutU16(r.rtype, b1);
    PutNamePrefix(r.name, b0);
    FieldInFront(|r.rdata|, b5);
    FieldInFront(r.ttl % 0x1_0000, b4);
    FieldInFront(r.ttl / 0x1_0000, b3);
    FieldInFront(r.rclass, b2);
    FieldInFront(r.rtype, b1);
    Behind(name, b0, 0);
    Behind(name, b0, 2);
    Behind(name, b0, 4);
    Behind(name, b0, 6);
    Behind(name, b0, 8);
    assert (name + b0)[|name| + 10..] == b0[10..] == b1[8..] == b2[6..] == b3[4..] == b4[2..] == b5;
  }

  // ----- the walker and the decoder -----

  /** On any bytes the walker finds the end of a name where the decoder does; where
      the decoder finds none, the walker gives 0 or an offset past the bytes. */
  lemma {:induction false} WalkerReadsNames(d: Bytes, at: nat)
    requires at <= |d|
    ensures match GetName(d[at..])
            case Some((_, rest)) => |rest| < |d| && NameEnd(d, at) == |d| - |rest| && d[NameEnd(d, at)..] == rest
            case None => NameEnd(d, at) == 0 || NameEnd(d, at) > |d|
    decreases |d| - at
  {
    if at < |d| {
      assert d[at] == d[at..][0];
      if 0 < d[at] <= 63 {
        var next := at + 1 + d[at];
        if next <= |d| {
          assert d[at..][1..][d[at]..] == d[next..];
          WalkerReadsNames(d, next);
        }
      } else {
        assert d[at..][1..] == d[at + 1..];
        assert at + 2 <= |d| ==> d[at..][2..] == d[at + 2..];
      }
    }
  }

  /** On any bytes: the walker takes what is at `at` for a record if and only if a
      name can be decoded there with ten more bytes behind it. Of these, bytes 4 to
      7 are the TTL, and 8 and 9 say how many bytes further the next record is. */
  lemma {:induction false} WalkerReadsRecords(d: Bytes, at: nat)
    requires at <= |d|
    ensures RecordAt(d, at).Some? <==> GetName(d[at..]).Some? && |GetName(d[at..]).value.1| >= 10
    ensures RecordAt(d, at).Some? ==>
              var rest, r := GetName(d[at..]).value.1, RecordAt(d, at).value;
              r.ttlAt == |d| - |rest| + 4 && r.next == |d| - |rest| + 10 + ReadU16(rest, 8)
  {
    WalkerReadsNames(d, at);
    hide NameEnd, GetName;
    if GetName(d[at..]).Some? {
      var o := NameEnd(d, at);
      var rest := d[o..];
      if |rest| >= 10 {
        assert rest[8] == d[o + 8] && rest[9] == d[o + 9];
      }
    }
  }

  /** The TTL fields as a decoder would find them in `d`, of which `rest` is still
      to come: of up to `n` records, as long as a name and ten more bytes follow. */
  function DecodedFields(d: Bytes, rest: Bytes, n: nat): seq<int>
    decreases n
  {
    if n == 0 || GetName(rest).None? || |GetName(rest).value.1| < 10 then []
    else
      var t := GetName(rest).value.1;
      [|d| - |t| + 4]
      + if |t| < 10 + ReadU16(t, 8) then [] else DecodedFields(d, t[10 + ReadU16(t, 8)..], n - 1)
  }

  lemma NothingBehindTheEnd(d: Bytes, at: nat, n: nat)
    requires at >= |d|
    ensures RecordFields(d, at, n) == []
  {
  }

  lemma RecordFieldsStep(d: Bytes, at: nat, n: nat)
    requires n > 0
    ensures var r := RecordAt(d, at);
            RecordFields(d, at, n) == if r.None? then [] else [r.value.ttlAt] + RecordFields(d, r.value.next, n - 1)
  {
  }

  lemma DecodedFieldsStep(d: Bytes, rest: Bytes, n: nat)
    requires n > 0 && GetName(rest).Some? && |GetName(rest).value.1| >= 10
    ensures var t := GetName(rest).value.1;
            DecodedFields(d, rest, n)
            == [|d| - |t| + 4]
               + if |t| < 10 + ReadU16(t, 8) then [] else DecodedFields(d, t[10 + ReadU16(t, 8)..], n - 1)
  {
    hide GetName;
  }

  /** The next record in the walker's offsets and in the bytes still to come. */
  lemma {:induction false} NextRecord(d: Bytes, at: nat)
    requires at <= |d| && RecordAt(d, at).Some?
    ensures GetName(d[at..]).Some? && |GetName(d[at..]).value.1| >= 10
    ensures var t, r := GetName(d[at..]).value.1, RecordAt(d, at).value;
            && r.ttlAt == |d| - |t| + 4
            && (r.next <= |d| <==> |t| >= 10 + ReadU16(t, 8))
            && (r.next <= |d| ==> d[r.next..] == t[10 + ReadU16(t, 8)..])
  {
    WalkerReadsRecords(d, at);
    WalkerReadsNames(d, at);
    hide GetName, NameEnd, RecordAt, ReadU16;
  }

  lemma {:induction false} FieldsAreDecoded(d: Bytes, at: nat, n: nat)
    requires at <= |d|
    ensures RecordFields(d, at, n) == DecodedFields(d, d[at..], n)
    decreases n
  {
    hide GetName, NameEnd, RecordAt, ReadU16;
    if n > 0 {
      WalkerReadsRecords(d, at);
      if RecordAt(d, at).Some? {
        RecordFieldsStep(d, at, n);
        DecodedFieldsStep(d, d[at..], n);
        NextRecord(d, at);
        hide RecordFields, DecodedFields;
        if RecordAt(d, at).value.next <= |d| {
          FieldsAreDecoded(d, RecordAt(d, at).value.next, n - 1);
        } else {
          NothingBehindTheEnd(d, RecordAt(d, at).value.next, n - 1);
        }
      }
    }
  }

  /** The walker passes over the questions as the decoder does; where the decoder
      cannot, the walker stops or ends past the bytes. */
  lemma {:induction false} QuestionsAreDecoded(d: Bytes, at: nat, n: nat)
    requires at <= |d|
    ensures match GetQuestions(d[at..], n)
            case Some((_, rest)) => |rest| <= |d| - at && QuestionsEnd(d, at, n) == |d| - |rest|
                                    && (n > 0 ==> QuestionsEnd(d, at, n) > 0) && d[|d| - |rest|..] == rest
            case None => QuestionsEnd(d, at, n) == 0 || QuestionsEnd(d, at, n) > |d|
    decreases n
  {
    hide NameEnd, GetName, GetQuestion;
    if n > 0 {
      NextQuestion(d, at);
      var o := NameEnd(d, at);
      if GetQuestion(d[at..]).Some? {
        QuestionsAreDecoded(d, o + 4, n - 1);
      } else if o != 0 {
        PastTheEnd(d, o + 4, n - 1);
      }
    }
  }

  /** The next question in the walker's offsets and in the bytes still to come. */
  lemma {:induction false} NextQuestion(d: Bytes, at: nat)
    requires at <= |d|
    ensures var o := NameEnd(d, at);
            match GetQuestion(d[at..])
            case Some((_, rest)) => 0 < o && at < o + 4 <= |d| && rest == d[o + 4..]
            case None => o == 0 || o + 4 > |d|
  {
    WalkerReadsNames(d, at);
    hide NameEnd, GetName, ReadU16;
    if GetName(d[at..]).Some? {
      var t := GetName(d[at..]).value.1;
      assert |t| >= 4 ==> t[2..][2..] == t[4..] == d[NameEnd(d, at) + 4..];
    }
  }

  lemma PastTheEnd(d: Bytes, at: nat, n: nat)
    requires at > |d|
    ensures QuestionsEnd(d, at, n) == 0 || QuestionsEnd(d, at, n) > |d|
  {
  }

  /** On any bytes, cut or malformed: the TTL fields that the patch visits are those
      of the records that a decoder finds one after another behind the header and
      the questions, and none if the questions cannot be decoded. */
  lemma {:induction false} WalkerIsDecoder(d: Bytes)
    ensures |d| < 12 ==> TtlFields(d) == []
    ensures |d| >= 12 ==>
              TtlFields(d) == match GetQuestions(d[12..], ReadU16(d, 4))
                              case None => []
                              case Some((_, rest)) =>
                                DecodedFields(d, rest, ReadU16(d, 6) + ReadU16(d, 8) + ReadU16(d, 10))
  {
    hide GetQuestions, QuestionsEnd, RecordFields, DecodedFields, ReadU16;
    if |d| >= 12 {
      var q, n := QuestionsEnd(d, 12, ReadU16(d, 4)), RecordCount(d);
      QuestionsAreDecoded(d, 12, ReadU16(d, 4));
      NoQuestions(d);
      match GetQuestions(d[12..], ReadU16(d, 4)) {
        case Some((_, rest)) =>
          FieldsAreDecoded(d, q, n);
        case None =>
          if q > |d| {
            NothingBehindTheEnd(d, q, n);
          }
      }
    }
  }

  lemma NoQuestions(d: Bytes)
    ensures QuestionsEnd(d, 12, 0) == 12
  {
  }
}
