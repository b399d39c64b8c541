/**
 DNS messages as structured values in the wire format of RFC 1035 sections 4.1.1
 to 4.1.4, with a codec. The cache's byte walker never builds such values; they
 are what its bytes stand for. Every encoder takes the bytes that follow, so that
 no proof has to regroup a concatenation.
 */
module DnsMessage {
  import opened Numbers

  datatype Ending = Root | Pointer(hi: Byte, lo: Byte)

  /** Labels, then a zero byte or a compression pointer. */
  datatype Name = Name(labels: seq<Bytes>, ending: Ending) {
    function Rest(): Name
      requires labels != []
    {
      Name(labels[1..], ending)
    }
  }

  datatype Question = Question(name: Name, qtype: nat, qclass: nat)

  datatype ResourceRecord = ResourceRecord(name: Name, rtype: nat, rclass: nat, ttl: nat, rdata: Bytes)

  datatype Message = Message(id: nat, flags: nat, questions: seq<Question>,
                             answers: seq<ResourceRecord>, authority: seq<ResourceRecord>,
                             additional: seq<ResourceRecord>)

  predicate ValidName(n: Name) {
    && (forall i :: 0 <= i < |n.labels| ==> 1 <= |n.labels[i]| <= 63)
    && (n.ending.Pointer? ==> n.ending.hi >= 0xC0)
  }

  predicate ValidQuestion(q: Question) {
    ValidName(q.name) && q.qtype < 0x1_0000 && q.qclass < 0x1_0000
  }

  predicate ValidRecord(r: ResourceRecord) {
    && ValidName(r.name) && r.rtype < 0x1_0000 && r.rclass < 0x1_0000
    && r.ttl < 0x1_0000_0000 && |r.rdata| < 0x1_0000
  }

  predicate ValidRecords(rs: seq<ResourceRecord>) {
    forall i :: 0 <= i < |rs| ==> ValidRecord(rs[i])
  }

  predicate ValidQuestions(qs: seq<Question>) {
    forall i :: 0 <= i < |qs| ==> ValidQuestion(qs[i])
  }

  predicate Valid(m: Message) {
    && m.id < 0x1_0000 && m.flags < 0x1_0000
    && |m.questions| < 0x1_0000 && |m.answers| < 0x1_0000 && |m.authority| < 0x1_0000 && |m.additional| < 0x1_0000
    && ValidQuestions(m.questions)
    && ValidRecords(m.answers) && ValidRecords(m.authority) && ValidRecords(m.additional)
  }

  // ----- encoding in front of `tail` -----

  function PutName(n: Name, tail: Bytes): (r: Bytes)
    requires ValidName(n)
    ensures |r| > |tail|
    decreases |n.labels|
  {
    if n.labels == [] then
      match n.ending
      case Root => [0] + tail
      case Pointer(hi, lo) => [hi, lo] + tail
    else [|n.labels[0]|] + (n.labels[0] + PutName(n.Rest(), tail))
  }

  function PutQuestion(q: Question, tail: Bytes): Bytes
    requires ValidQuestion(q)
  {
    PutName(q.name, PutU16(q.qtype, PutU16(q.qclass, tail)))
  }

  function PutQuestions(qs: seq<Question>, tail: Bytes): Bytes
    requires ValidQuestions(qs)
  {
    if qs == [] then tail else PutQuestion(qs[0], PutQuestions(qs[1..], tail))
  }

  /** RDLENGTH and RDATA. */
  function PutRdata(rdata: Bytes, tail: Bytes): Bytes
    requires |rdata| < 0x1_0000
  {
    PutU16(|rdata|, rdata + tail)
  }

  function PutRecord(r: ResourceRecord, tail: Bytes): Bytes
    requires ValidRecord(r)
  {
    PutName(r.name, PutU16(r.rtype, PutU16(r.rclass, PutU32(r.ttl, PutRdata(r.rdata, tail)))))
  }

  function PutRecords(rs: seq<ResourceRecord>, tail: Bytes): Bytes
    requires ValidRecords(rs)
  {
    if rs == [] then tail else PutRecord(rs[0], PutRecords(rs[1..], tail))
  }

  function PutSections(m: Message, tail: Bytes): Bytes
    requires Valid(m)
  {
    PutRecords(m.answers, PutRecords(m.authority, PutRecords(m.additional, tail)))
  }

  /** The wire form of `m` followed by `tail`. */
  function Encode(m: Message, tail: Bytes): Bytes
    requires Valid(m)
  {
    PutU16(m.id, PutU16(m.flags, PutU16(|m.questions|,
      PutU16(|m.answers|, PutU16(|m.authority|, PutU16(|m.additional|,
        PutQuestions(m.questions, PutSections(m, tail))))))))
  }

  function SetTtls(rs: seq<ResourceRecord>, ttl: nat): (r: seq<ResourceRecord>)
    ensures |r| == |rs| && forall i :: 0 <= i < |rs| ==> r[i] == rs[i].(ttl := ttl)
  {
    seq(|rs|, i requires 0 <= i < |rs| => rs[i].(ttl := ttl))
  }

  /** The message with every record's TTL set, in all three sections. */
  function WithTtl(m: Message, ttl: nat): (r: Message)
    ensures Valid(m) && ttl < 0x1_0000_0000 ==> Valid(r)
  {
    m.(answers := SetTtls(m.answers, ttl), authority := SetTtls(m.authority, ttl),
       additional := SetTtls(m.additional, ttl))
  }

  // ----- decoding: a value from the front, and what is behind it -----

  function GetName(d: Bytes): Option<(Name, Bytes)> {
    if d == [] then None
    else if d[0] == 0 then Some((Name([], Root), d[1..]))
    else if d[0] >= 0xC0 then (if |d| < 2 then None else Some((Name([], Pointer(d[0], d[1])), d[2..])))
    else if d[0] > 63 || |d| < 1 + d[0] then None
    else
      var (n, tail) :- GetName(d[1..][d[0]..]);
      Some((Name([d[1..][..d[0]]] + n.labels, n.ending), tail))
  }

  function GetQuestion(d: Bytes): Option<(Question, Bytes)> {
    var (n, d1) :- GetName(d);
    var (qtype, d2) :- GetU16(d1);
    var (qclass, d3) :- GetU16(d2);
    Some((Question(n, qtype, qclass), d3))
  }

  function GetQuestions(d: Bytes, n: nat): Option<(seq<Question>, Bytes)>
    decreases n
  {
    if n == 0 then Some(([], d))
    else
      var (q, d1) :- GetQuestion(d);
      var (qs, d2) :- GetQuestions(d1, n - 1);
      Some(([q] + qs, d2))
  }

  function GetU32(d: Bytes): Option<(nat, Bytes)> {
    var (hi, d1) :- GetU16(d);
    var (lo, d2) :- GetU16(d1);
    Some((hi * 0x1_0000 + lo, d2))
  }

  function GetRdata(d: Bytes): Option<(Bytes, Bytes)> {
    var (n, d1) :- GetU16(d);
    if |d1| < n then None else Some((d1[..n], d1[n..]))
  }

  function GetRecord(d: Bytes): Option<(ResourceRecord, Bytes)> {
    var (n, d1) :- GetName(d);
    var (rtype, d2) :- GetU16(d1);
    var (rclass, d3) :- GetU16(d2);
    var (ttl, d4) :- GetU32(d3);
    var (rdata, d5) :- GetRdata(d4);
    Some((ResourceRecord(n, rtype, rclass, ttl, rdata), d5))
  }

  function GetRecords(d: Bytes, n: nat): Option<(seq<ResourceRecord>, Bytes)>
    decreases n
  {
    if n == 0 then Some(([], d))
    else
      var first := GetRecord(d);
      if first.None? then None
      else
        var rest := GetRecords(first.value.1, n - 1);
        if rest.None? then None else Some(([first.value.0] + rest.value.0, rest.value.1))
  }

  /** The message at the front of `d`, and the bytes behind it. */
  function Decode(d: Bytes): Option<(Message, Bytes)> {
    var (id, d1) :- GetU16(d);
    var (flags, d2) :- GetU16(d1);
    var (qd, d3) :- GetU16(d2);
    var (an, d4) :- GetU16(d3);
    var (ns, d5) :- GetU16(d4);
    var (ar, d6) :- GetU16(d5);
    var (questions, d7) :- GetQuestions(d6, qd);
    var (answers, d8) :- GetRecords(d7, an);
    var (authority, d9) :- GetRecords(d8, ns);
    var (additional, tail) :- GetRecords(d9, ar);
    Some((Message(id, flags, questions, answers, authority, additional), tail))
  }

  // ----- the codec is a bijection -----

  lemma {:induction false} GetPutName(n: Name, tail: Bytes)
    requires ValidName(n)
    ensures GetName(PutName(n, tail)) == Some((n, tail))
    decreases |n.labels|
  {
    var d := PutName(n, tail);
    if n.labels == [] {
      match n.ending
      case Root => assert d[1..] == tail;
      case Pointer(_, _) => assert d[2..] == tail;
    } else {
      var l, next := n.labels[0], PutName(n.Rest(), tail);
      GetPutName(n.Rest(), tail);
      assert d[1..] == l + next;
      assert (l + next)[..|l|] == l && (l + next)[|l|..] == next;
      assert [l] + n.labels[1..] == n.labels;
    }
  }

  lemma PutNameCons(l: Bytes, n: Name, tail: Bytes)
    requires ValidName(n) && 1 <= |l| <= 63
    ensures var longer := Name([l] + n.labels, n.ending);
            ValidName(longer) && PutName(longer, tail) == [|l|] + (l + PutName(n, tail))
  {
    assert Name([l] + n.labels, n.ending).Rest() == n;
  }

  lemma {:induction false} PutGetName(d: Bytes)
    requires GetName(d).Some?
    ensures var (n, tail) := GetName(d).value; ValidName(n) && PutName(n, tail) == d
    decreases |d|
  {
    if d[0] == 0 {
      assert d == [d[0]] + d[1..];
    } else if d[0] >= 0xC0 {
      assert d == [d[0], d[1]] + d[2..];
    } else {
      var l, next := d[1..][..d[0]], d[1..][d[0]..];
      PutGetName(next);
      var (rest, tail) := GetName(next).value;
      PutNameCons(l, rest, tail);
      hide PutName, ValidName;
      assert d == [d[0]] + d[1..] && d[1..] == l + next;
    }
  }

  lemma GetPutQuestion(q: Question, tail: Bytes)
    requires ValidQuestion(q)
    ensures GetQuestion(PutQuestion(q, tail)) == Some((q, tail))
  {
    GetPutName(q.name, PutU16(q.qtype, PutU16(q.qclass, tail)));
    GetPutU16(q.qtype, PutU16(q.qclass, tail));
    GetPutU16(q.qclass, tail);
  }

  lemma PutGetQuestion(d: Bytes)
    requires GetQuestion(d).Some?
    ensures var (q, tail) := GetQuestion(d).value; ValidQuestion(q) && PutQuestion(q, tail) == d
  {
    PutGetName(d);
    var d1 := GetName(d).value.1;
    PutGetU16(d1);
    PutGetU16(d1[2..]);
  }

  lemma GetPutU32(x: nat, tail: Bytes)
    requires x < 0x1_0000_0000
    ensures GetU32(PutU32(x, tail)) == Some((x, tail))
  {
    GetPutU16(x / 0x1_0000, PutU16(x % 0x1_0000, tail));
    GetPutU16(x % 0x1_0000, tail);
  }

  lemma PutGetU32(d: Bytes)
    requires GetU32(d).Some?
    ensures var (x, tail) := GetU32(d).value; x < 0x1_0000_0000 && PutU32(x, tail) == d
  {
    PutGetU16(d);
    PutGetU16(d[2..]);
  }

  lemma GetPutRdata(rdata: Bytes, tail: Bytes)
    requires |rdata| < 0x1_0000
    ensures GetRdata(PutRdata(rdata, tail)) == Some((rdata, tail))
  {
    GetPutU16(|rdata|, rdata + tail);
    assert (rdata + tail)[..|rdata|] == rdata && (rdata + tail)[|rdata|..] == tail;
  }

  lemma PutGetRdata(d: Bytes)
    requires GetRdata(d).Some?
    ensures var (rdata, tail) := GetRdata(d).value; |rdata| < 0x1_0000 && PutRdata(rdata, tail) == d
  {
    PutGetU16(d);
    var (rdata, tail) := GetRdata(d).value;
    assert d[2..] == rdata + tail;
  }

  lemma GetPutRecord(r: ResourceRecord, tail: Bytes)
    requires ValidRecord(r)
    ensures GetRecord(PutRecord(r, tail)) == Some((r, tail))
  {
    var d4 := PutRdata(r.rdata, tail);
    var d3 := PutU32(r.ttl, d4);
    var d2 := PutU16(r.rclass, d3);
    GetPutName(r.name, PutU16(r.rtype, d2));
    GetPutU16(r.rtype, d2);
    GetPutU16(r.rclass, d3);
    GetPutU32(r.ttl, d4);
    GetPutRdata(r.rdata, tail);
  }

  lemma {:induction false} PutGetRecord(d: Bytes)
    requires GetRecord(d).Some?
    ensures var (r, tail) := GetRecord(d).value; ValidRecord(r) && PutRecord(r, tail) == d
  {
    PutGetName(d);
    var d1 := GetName(d).value.1;
    PutGetU16(d1);
    PutGetU16(d1[2..]);
    PutGetU32(d1[2..][2..]);
    PutGetRdata(GetU32(d1[2..][2..]).value.1);
  }

  lemma {:induction false} GetPutQuestions(qs: seq<Question>, tail: Bytes)
    requires ValidQuestions(qs)
    ensures GetQuestions(PutQuestions(qs, tail), |qs|) == Some((qs, tail))
  {
    if qs == [] {
    } else {
      GetPutQuestion(qs[0], PutQuestions(qs[1..], tail));
      GetPutQuestions(qs[1..], tail);
      assert [qs[0]] + qs[1..] == qs;
    }
  }

  lemma {:induction false} PutGetQuestions(d: Bytes, n: nat)
    requires GetQuestions(d, n).Some?
    ensures var (qs, tail) := GetQuestions(d, n).value; |qs| == n && ValidQuestions(qs) && PutQuestions(qs, tail) == d
    decreases n
  {
    if n == 0 {
    } else {
      PutGetQuestion(d);
      var (q, d1) := GetQuestion(d).value;
      PutGetQuestions(d1, n - 1);
      var qs := GetQuestions(d1, n - 1).value.0;
      assert ([q] + qs)[1..] == qs;
    }
  }

  lemma {:induction false} GetPutRecords(rs: seq<ResourceRecord>, tail: Bytes)
    requires ValidRecords(rs)
    ensures GetRecords(PutRecords(rs, tail), |rs|) == Some((rs, tail))
  {
    hide GetRecord, PutRecord, ValidRecord;
    if rs == [] {
    } else {
      GetPutRecord(rs[0], PutRecords(rs[1..], tail));
      GetPutRecords(rs[1..], tail);
      assert [rs[0]] + rs[1..] == rs;
    }
  }

  lemma PutRecordsCons(r: ResourceRecord, rs: seq<ResourceRecord>, tail: Bytes)
    requires ValidRecord(r) && ValidRecords(rs)
    ensures ValidRecords([r] + rs) && PutRecords([r] + rs, tail) == PutRecord(r, PutRecords(rs, tail))
  {
    assert ([r] + rs)[1..] == rs;
  }

  lemma {:induction false} PutGetRecords(d: Bytes, n: nat)
    requires GetRecords(d, n).Some?
    ensures var (rs, tail) := GetRecords(d, n).value; |rs| == n && ValidRecords(rs) && PutRecords(rs, tail) == d
    decreases n
  {
    hide GetRecord, PutRecord, ValidRecord;
    if n == 0 {
    } else {
      PutGetRecord(d);
      var (r, d1) := GetRecord(d).value;
      PutGetRecords(d1, n - 1);
      var (rs, tail) := GetRecords(d1, n - 1).value;
      PutRecordsCons(r, rs, tail);
    }
  }

  /** Encoding then decoding gives the message back, whatever follows it. */
  lemma DecodeEncoded(m: Message, tail: Bytes)
    requires Valid(m)
    ensures Decode(Encode(m, tail)) == Some((m, tail))
  {
    var d9 := PutRecords(m.additional, tail);
    var d8 := PutRecords(m.authority, d9);
    var d7 := PutRecords(m.answers, d8);
    var d6 := PutQuestions(m.questions, d7);
    var d5 := PutU16(|m.additional|, d6);
    var d4 := PutU16(|m.authority|, d5);
    var d3 := PutU16(|m.answers|, d4);
    var d2 := PutU16(|m.questions|, d3);
    GetPutU16(m.id, PutU16(m.flags, d2));
    GetPutU16(m.flags, d2);
    GetPutU16(|m.questions|, d3);
    GetPutU16(|m.answers|, d4);
    GetPutU16(|m.authority|, d5);
    GetPutU16(|m.additional|, d6);
    GetPutQuestions(m.questions, d7);
    GetPutRecords(m.answers, d8);
    GetPutRecords(m.authority, d9);
    GetPutRecords(m.additional, tail);
  }

  /** Whatever decodes is the encoding of what it decodes to. */
  lemma {:induction false} EncodeDecoded(d: Bytes)
    requires Decode(d).Some?
    ensures var (m, tail) := Decode(d).value; Valid(m) && Encode(m, tail) == d
  {
    PutGetU16(d);
    var d1 := d[2..];
    PutGetU16(d1);
    var d2 := d1[2..];
    PutGetU16(d2);
    var d3 := d2[2..];
    PutGetU16(d3);
    var d4 := d3[2..];
    PutGetU16(d4);
    var d5 := d4[2..];
    PutGetU16(d5);
    var d6 := d5[2..];
    PutGetQuestions(d6, ReadU16(d2, 0));
    var d7 := GetQuestions(d6, ReadU16(d2, 0)).value.1;
    PutGetRecords(d7, ReadU16(d3, 0));
    var d8 := GetRecords(d7, ReadU16(d3, 0)).value.1;
    PutGetRecords(d8, ReadU16(d4, 0));
    var d9 := GetRecords(d8, ReadU16(d4, 0)).value.1;
    PutGetRecords(d9, ReadU16(d5, 0));
  }
}
