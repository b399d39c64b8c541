/**
 The DNS query handler (src/dns/handler.rs): hand-built responses, and the order
 in which blocking, the cache, FakeDNS and the upstream resolver are asked.
 Parsing by the `simple_dns` library, both block checks and the upstream answer
 are inputs.
 */
module DnsHandler {
  import opened DnsCache
  import opened DnsMessage
  import opened DnsWire
  import opened FakeDns
  import opened LeastRecent
  import opened Numbers
  import opened TtlPatch

  const QTYPE_A := 1

  // ----- the A response -----

  /** The byte loop that looks for the end of the question's name: every byte is
      taken as a length. */
  function RawNameEnd(query: Bytes, offset: nat): (r: nat)
    ensures r >= offset
    decreases |query| - offset
  {
    if offset >= |query| then offset
    else if query[offset] == 0 then offset + 1
    else RawNameEnd(query, offset + 1 + query[offset])
  }

  /** The question section copied from the query, if it lies inside it. */
  function CopiedQuestion(query: Bytes): Bytes
    requires |query| >= 12
  {
    var end := RawNameEnd(query, 12) + 4;
    if |query| > 12 && end <= |query| then query[12..end] else []
  }

  /** `build_a_response` for a query with a whole header. */
  function AResponse(query: Bytes, ip: nat, ttl: nat): Bytes
    requires |query| >= 12 && ip < U32_LIMIT && ttl < U32_LIMIT
  {
    query[..2] + ([0x81, 0x80, 0, 1, 0, 1, 0, 0, 0, 0] +
      (CopiedQuestion(query) + ([0xC0, 0x0C, 0, 1, 0, 1] + (U32(ttl) + ([0, 4] + U32(ip))))))
  }

  lemma LeftToRight(a: Bytes, b: Bytes, c: Bytes, d: Bytes)
    ensures a + (b + (c + d)) == ((a + b) + c) + d
  {
  }

  lemma RawNameStep(query: Bytes, offset: nat)
    requires offset < |query|
    ensures RawNameEnd(query, offset)
            == if query[offset] == 0 then offset + 1 else RawNameEnd(query, offset + 1 + query[offset])
  {
  }

  method BuildAResponse(query: Bytes, ip: nat, cacheTtl: nat) returns (r: Option<Bytes>)
    requires ip < U32_LIMIT
    ensures r == if |query| < 12 then None else Some(AResponse(query, ip, cacheTtl % U32_LIMIT))
  {
    hide U32, RawNameEnd;
    if |query| < 12 {
      return None;
    }
    var response: Bytes := query[..2];
    response := response + [0x81] + [0x80];
    response := response + [0] + [1];
    response := response + [0] + [1];
    response := response + [0] + [0];
    response := response + [0] + [0];
    ghost var header := response;
    if |query| > 12 {
      var offset := 12;
      while offset < |query|
        invariant RawNameEnd(query, 12) == RawNameEnd(query, offset)
      {
        var len := query[offset];
        RawNameStep(query, offset);
        if len == 0 {
          offset := offset + 1;
          break;
        }
        offset := offset + 1 + len;
      }
      EndOfLoop(query, offset);
      offset := offset + 4;
      if offset <= |query| {
        response := response + query[12..offset];
      }
    }
    assert response == header + CopiedQuestion(query);
    ghost var front := response;
    var ttl := cacheTtl % U32_LIMIT;
    response := response + [0xC0] + [0x0C];
    response := response + [0] + [1];
    response := response + [0] + [1];
    response := response + U32(ttl);
    response := response + [0] + [4];
    response := response + U32(ip);
    ghost var body := [0xC0, 0x0C, 0, 1, 0, 1] + (U32(ttl) + ([0, 4] + U32(ip)));
    assert response == front + body;
    assert header == query[..2] + [0x81, 0x80, 0, 1, 0, 1, 0, 0, 0, 0];
    LeftToRight(query[..2], [0x81, 0x80, 0, 1, 0, 1, 0, 0, 0, 0], CopiedQuestion(query), body);
    r := Some(response);
  }

  /** Where the loop stops. */
  lemma EndOfLoop(query: Bytes, offset: nat)
    ensures offset >= |query| ==> RawNameEnd(query, offset) == offset
  {
  }

  /** On an uncompressed name the raw loop finds the end of the name. */
  lemma {:induction false} RawNameEndOfEncoded(d: Bytes, at: nat, n: Name, tail: Bytes)
    requires ValidName(n) && n.ending.Root? && From(d, at, PutName(n, tail))
    ensures RawNameEnd(d, at) == |d| - |tail| && From(d, RawNameEnd(d, at), tail)
    decreases |n.labels|
  {
    if n.labels == [] {
      assert d[at] == d[at..][0];
      FromLater(d, at, PutName(n, tail), 1);
      assert PutName(n, tail)[1..] == tail;
    } else {
      hide PutName, From, ValidName;
      LabelAt(d, at, n, tail);
      RawNameEndOfEncoded(d, at + 1 + |n.labels[0]|, n.Rest(), tail);
      assert RawNameEnd(d, at) == RawNameEnd(d, at + 1 + |n.labels[0]|);
    }
  }

  /** The message an A response stands for. */
  function AMessage(id: nat, q: Question, ip: nat, ttl: nat): (m: Message)
    requires id < 0x1_0000 && ValidQuestion(q) && ip < U32_LIMIT && ttl < U32_LIMIT
    ensures Valid(m)
  {
    Message(id, 0x8180, [q], [ResourceRecord(Name([], Pointer(0xC0, 0x0C)), 1, 1, ttl, U32(ip))], [], [])
  }

  lemma EncodeAMessage(id: nat, q: Question, ip: nat, ttl: nat)
    requires id < 0x1_0000 && ValidQuestion(q) && ip < U32_LIMIT && ttl < U32_LIMIT
    ensures Encode(AMessage(id, q, ip, ttl), []) ==
            U16(id) + ([0x81, 0x80, 0, 1, 0, 1, 0, 0, 0, 0] +
              PutQuestion(q, [0xC0, 0x0C, 0, 1, 0, 1] + (U32(ttl) + ([0, 4] + U32(ip)))))
  {
    hide PutName, ValidName;
    var m := AMessage(id, q, ip, ttl);
    var r := m.answers[0];
    var body := [0xC0, 0x0C, 0, 1, 0, 1] + (U32(ttl) + ([0, 4] + U32(ip)));
    EncodePointerRecord(r, ip);
    assert m.answers[1..] == [] && m.questions[1..] == [];
    assert PutSections(m, []) == PutRecord(r, []) == body;
    assert PutQuestions(m.questions, body) == PutQuestion(q, body);
    assert U16(0x8180) == [0x81, 0x80] && U16(1) == [0, 1] && U16(0) == [0, 0];
    var b := PutQuestion(q, body);
    assert [0x81, 0x80, 0, 1, 0, 1, 0, 0, 0, 0] + b == [0x81, 0x80] + ([0, 1] + ([0, 1] + ([0, 0] + ([0, 0] + b))));
  }

  lemma EncodePointerRecord(r: ResourceRecord, ip: nat)
    requires r.name == Name([], Pointer(0xC0, 0x0C)) && r.rtype == 1 && r.rclass == 1 && r.ttl < U32_LIMIT
    requires ip < U32_LIMIT && r.rdata == U32(ip)
    ensures PutRecord(r, []) == [0xC0, 0x0C, 0, 1, 0, 1] + (U32(r.ttl) + ([0, 4] + U32(ip)))
  {
    var rdata := PutRdata(r.rdata, []);
    assert rdata == [0, 4] + U32(ip) by { assert r.rdata + [] == r.rdata; }
    PutU32IsU32(r.ttl, rdata);
    var b := U32(r.ttl) + rdata;
    assert PutU16(1, PutU16(1, b)) == [0, 1, 0, 1] + b;
    assert PutRecord(r, []) == [0xC0, 0x0C] + ([0, 1, 0, 1] + b);
  }

  /** For every query whose first question has an uncompressed name: the response
      is the wire form of a message with the query's ID and question and one A
      record, so it decodes to that message; the record's name pointer leads to
      the question's name; and the cache's walker stops at its last byte. */
  lemma {:induction false} AResponseParses(query: Bytes, q: Question, tail: Bytes, ip: nat, ttl: nat)
    requires ValidQuestion(q) && q.name.ending.Root? && |query| >= 12 && From(query, 12, PutQuestion(q, tail))
    requires ip < U32_LIMIT && ttl < U32_LIMIT
    ensures var r := AResponse(query, ip, ttl);
            && Decode(r) == Some((AMessage(ReadU16(query, 0), q, ip, ttl), []))
            && |r| >= 12 && WalkEnd(r) == |r|
            && |r| >= 28 && Resolve(r, |r| - 16, 1) == Some(q.name.labels)
  {
    hide U16, U32, PutQuestion, PutName, ValidName, RawNameEnd, WalkEnd, Decode, Resolve;
    var body := [0xC0, 0x0C, 0, 1, 0, 1] + (U32(ttl) + ([0, 4] + U32(ip)));
    var m := AMessage(ReadU16(query, 0), q, ip, ttl);
    var r := AResponse(query, ip, ttl);
    CopiedIsQuestion(query, q, tail, body);
    IdBytes(query);
    EncodeAMessage(ReadU16(query, 0), q, ip, ttl);
    assert r == Encode(m, []);
    DecodeEncoded(m, []);
    WalkEndOfEncoded(m, []);
    HeaderOfEncoded(m, []);
    assert PutSections(m, []) == body by {
      EncodePointerRecord(m.answers[0], ip);
      assert m.answers[1..] == [];
    }
    assert PutQuestions(m.questions, body) == PutQuestion(q, body) by {
      assert m.questions[1..] == [];
    }
    PointerResolves(r, q, body);
  }

  lemma IdBytes(d: Bytes)
    requires |d| >= 2
    ensures U16(ReadU16(d, 0)) == d[..2]
  {
  }

  lemma CopiedIsQuestion(query: Bytes, q: Question, tail: Bytes, body: Bytes)
    requires ValidQuestion(q) && q.name.ending.Root? && |query| >= 12 && From(query, 12, PutQuestion(q, tail))
    ensures CopiedQuestion(query) + body == PutQuestion(q, body)
  {
    var fixed := U16(q.qtype) + U16(q.qclass);
    QuestionParts(q, tail);
    QuestionParts(q, body);
    RawNameEndOfEncoded(query, 12, q.name, PutU16(q.qtype, PutU16(q.qclass, tail)));
    var end := RawNameEnd(query, 12) + 4;
    assert |PutU16(q.qtype, PutU16(q.qclass, tail))| == 4 + |tail|;
    assert end == |query| - |tail|;
    var front := PutName(q.name, []) + fixed;
    assert query[12..][..|front|] == front;
    assert query[12..end] == front;
  }

  lemma QuestionParts(q: Question, tail: Bytes)
    requires ValidQuestion(q)
    ensures PutQuestion(q, tail) == (PutName(q.name, []) + (U16(q.qtype) + U16(q.qclass))) + tail
  {
    var fixed := U16(q.qtype) + U16(q.qclass);
    assert PutU16(q.qtype, PutU16(q.qclass, tail)) == fixed + tail;
    PutNamePrefix(q.name, fixed + tail);
  }

  lemma {:induction false} PointerResolves(r: Bytes, q: Question, body: Bytes)
    requires ValidQuestion(q) && q.name.ending.Root? && |body| == 16 && body[0] == 0xC0 && body[1] == 0x0C
    requires From(r, 12, PutQuestion(q, body))
    ensures |r| >= 28 && Resolve(r, |r| - 16, 1) == Some(q.name.labels)
  {
    ResolveUncompressed(r, 12, q.name, PutU16(q.qtype, PutU16(q.qclass, body)), 0);
    QuestionParts(q, body);
    var front := PutName(q.name, []) + (U16(q.qtype) + U16(q.qclass));
    var b := r[12..];
    assert b[|front|..] == body;
    assert r[|r| - 16] == b[|front|] == 0xC0 && r[|r| - 15] == b[|front| + 1] == 0x0C;
  }

  // ----- the NXDOMAIN response -----

  predicate IsAscii(text: Bytes) {
    forall b :: b in text ==> b < 0x80
  }

  /** Length of a name's text: its labels joined by dots. It is the byte length of
      what the source prints when the labels are ASCII. */
  function TextLength(labels: seq<Bytes>): nat {
    if labels == [] then 0 else if |labels| == 1 then |labels[0]| else |labels[0]| + 1 + TextLength(labels[1..])
  }

  /** QR and RD set, RCODE NXDOMAIN, the upper half of the second flag byte kept. */
  function RefusalFlags(b: Byte): (r: nat)
    ensures r < 0x1_0000
  {
    0x8103 + (b as int / 16) * 16
  }

  /** The query turned into a refusal, before truncation. */
  function Refusal(query: Bytes): (r: Bytes)
    requires |query| >= 12
    ensures |r| == |query|
  {
    query[..2] + [0x81, (query[3] / 16) * 16 + 3] + query[4..6] + [0, 0, 0, 0, 0, 0] + query[12..]
  }

  /** `build_nxdomain_response`; `labels` is the first question's name as parsed. */
  function NxdomainResponse(query: Bytes, labels: Option<seq<Bytes>>): Bytes
    requires |query| >= 12
  {
    var r := Refusal(query);
    if labels.Some? && |r| > 12 + (TextLength(labels.value) + 2) + 4
    then r[..12 + (TextLength(labels.value) + 2) + 4] else r
  }

  method BuildNxdomainResponse(query: Bytes, labels: Option<seq<Bytes>>) returns (r: Option<Bytes>)
    ensures r == if |query| < 12 then None else Some(NxdomainResponse(query, labels))
  {
    if |query| < 12 {
      return None;
    }
    var response := query;
    response := response[2 := 0x81];
    response := response[3 := (response[3] / 16) * 16 + 3];
    response := response[6 := 0][7 := 0];
    response := response[8 := 0][9 := 0];
    response := response[10 := 0][11 := 0];
    assert response == Refusal(query);
    if labels.Some? {
      var qnameLen := TextLength(labels.value) + 2;
      var questionEnd := 12 + qnameLen + 4;
      if |response| > questionEnd {
        response := response[..questionEnd];
      }
    }
    r := Some(response);
  }

  /** An uncompressed name is two bytes longer than its text, except the root. */
  lemma {:induction false} NameLength(n: Name, tail: Bytes)
    requires ValidName(n) && n.ending.Root?
    ensures |PutName(n, tail)| - |tail| == if n.labels == [] then 1 else TextLength(n.labels) + 2
    decreases |n.labels|
  {
    if n.labels == [] {
    } else {
      NameLength(n.Rest(), tail);
      if |n.labels| > 1 {
        assert n.labels[1..] != [];
      }
    }
  }

  /** For every query with one well-formed uncompressed ASCII question, the refusal is
      exactly header plus question - the wire form of a message with the query's
      ID and question and nothing else - if and only if the name is not the root
      or nothing follows the question. */
  lemma NxdomainExactIff(query: Bytes, q: Question, tail: Bytes)
    requires ValidQuestion(q) && q.name.ending.Root? && |query| >= 12 && From(query, 12, PutQuestion(q, tail))
    requires ReadU16(query, 4) == 1 && forall l :: l in q.name.labels ==> IsAscii(l)
    ensures var flags := RefusalFlags(query[3]);
            var m := Message(ReadU16(query, 0), flags, [q], [], [], []);
            Valid(m)
            && (NxdomainResponse(query, Some(q.name.labels)) == Encode(m, []) <==> q.name.labels != [] || tail == [])
  {
    var flags := RefusalFlags(query[3]);
    var m := Message(ReadU16(query, 0), flags, [q], [], [], []);
    var r := Refusal(query);
    var end := |query| - |tail|;
    var fixed := PutU16(q.qtype, PutU16(q.qclass, tail));
    NameLength(q.name, fixed);
    assert |PutQuestion(q, tail)| == |query| - 12;
    QuestionParts(q, tail);
    QuestionParts(q, []);
    var question := PutQuestion(q, []);
    assert question == PutName(q.name, []) + (U16(q.qtype) + U16(q.qclass));
    assert query[12..] == question + tail;
    EncodeRefusal(query, q, flags);
    assert r == r[..12] + (question + tail);
    assert end == 12 + |question|;
    assert r[..end] == r[..12] + question;
  }

  lemma EncodeRefusal(query: Bytes, q: Question, flags: nat)
    requires |query| >= 12 && ValidQuestion(q) && ReadU16(query, 4) == 1
    requires flags == RefusalFlags(query[3])
    ensures Encode(Message(ReadU16(query, 0), flags, [q], [], [], []), []) == Refusal(query)[..12] + PutQuestion(q, [])
  {
    hide PutName, ValidName;
    var m := Message(ReadU16(query, 0), flags, [q], [], [], []);
    assert m.questions[1..] == [];
    assert PutSections(m, []) == [];
    var b := PutQuestion(q, []);
    assert PutQuestions(m.questions, []) == b;
    assert U16(ReadU16(query, 0)) == query[..2];
    assert U16(flags) == [0x81, (query[3] / 16) * 16 + 3];
    assert query[4..6] == [0, 1] by { assert query[4] as int * 0x100 + query[5] == 1; }
    var h := Refusal(query)[..12];
    assert h == query[..2] + ([0x81, (query[3] / 16) * 16 + 3] + ([0, 1] + ([0, 0] + ([0, 0] + [0, 0]))));
    assert U16(1) == [0, 1] && U16(0) == [0, 0];
    assert Encode(m, [])
        == query[..2] + ([0x81, (query[3] / 16) * 16 + 3] + ([0, 1] + ([0, 0] + ([0, 0] + ([0, 0] + b)))));
  }

  // ----- the order of steps -----

  /** A query as `simple_dns` presents its first question. */
  datatype Parsed = Parsed(domain: string, qtype: nat, labels: seq<Bytes>)

  /** The upstream answer: its bytes and, if they parse, the first answer's TTL. */
  datatype Upstream = Upstream(response: Bytes, parses: bool, firstTtl: Option<nat>)

  datatype Input = Input(query: Bytes, parsed: Option<Parsed>, parentBlocks: bool, filterBlocks: bool,
                         upstream: Option<Upstream>, now: nat)
  {
    /** TTLs are u32 fields. */
    predicate Valid() {
      upstream.Some? && upstream.value.firstTtl.Some? ==> upstream.value.firstTtl.value < U32_LIMIT
    }
  }

  datatype HandlerConfig = HandlerConfig(cache: Config, pool: Option<Pool>, cacheTtl: nat)

  /** The cache and, when FakeDNS is on, the allocator. */
  datatype HandlerState = HandlerState(cache: DnsCache.State, fake: Option<FakeDns.State>)

  function ErrorResponse(query: Bytes): Option<Bytes> {
    if |query| < 12 then None else Some(query[..2] + [0x80, 1, 0, 0, 0, 0, 0, 0, 0, 0])
  }

  /** The reply to a query that does not parse is a message: the query's ID, the
      response bit, code 1 (format error), and nothing else. */
  lemma ErrorReplyParses(query: Bytes)
    requires |query| >= 12
    ensures ErrorResponse(query).Some?
    ensures Decode(ErrorResponse(query).value) == Some((Message(ReadU16(query, 0), 0x8001, [], [], [], []), []))
  {
    var m := Message(ReadU16(query, 0), 0x8001, [], [], [], []);
    IdBytes(query);
    assert U16(0x8001) == [0x80, 1] && U16(0) == [0, 0];
    DecodeEncoded(m, []);
    hide U16, ReadU16, Decode;
    assert PutQuestions([], PutSections(m, [])) == [];
    assert Encode(m, [])
        == query[..2] + ([0x80, 1] + ([0, 0] + ([0, 0] + ([0, 0] + ([0, 0] + [])))));
    assert Encode(m, []) == query[..2] + [0x80, 1, 0, 0, 0, 0, 0, 0, 0, 0];
  }

  /** A refusal's flags: the response bit, opcode 0, not authoritative, not cut,
      recursion desired; the next four bits those of the query; code 3 (no such name). */
  lemma RefusalFlagsAre(b: Byte)
    ensures var f := RefusalFlags(b);
            f / 0x8000 == 1 && f / 0x800 % 0x10 == 0 && f / 0x100 % 8 == 1
            && f / 0x10 % 0x10 == b as int / 0x10 && f % 0x10 == 3
  {
  }

  function Refuse(query: Bytes, p: Parsed): Option<Bytes> {
    if |query| < 12 then None else Some(NxdomainResponse(query, Some(p.labels)))
  }

  /** A cached response under the transaction ID of the query. */
  function WithQueryId(response: Bytes, query: Bytes): Bytes {
    if |response| >= 2 && |query| >= 2 then query[..2] + response[2..] else response
  }

  predicate Consistent(c: HandlerConfig, s: HandlerState) {
    s.fake.Some? <==> c.pool.Some?
  }

  /** `handle_query`: the state afterwards and the reply, `None` for an error. */
  function Handle(c: HandlerConfig, s: HandlerState, i: Input): (HandlerState, Option<Bytes>)
    requires Consistent(c, s)
  {
    if i.parsed.None? then (s, ErrorResponse(i.query))
    else if i.parentBlocks || i.filterBlocks then (s, Refuse(i.query, i.parsed.value))
    else
      var p := i.parsed.value;
      var (cache, hit) := GetStep(s.cache, KeyOf(p.domain, p.qtype), i.now);
      var t := s.(cache := cache);
      if hit.Some? then (t, Some(WithQueryId(hit.value, i.query)))
      else if c.pool.Some? && p.qtype == QTYPE_A then
        var (fake, ip) := AllocateStep(c.pool.value, s.fake.value, p.domain);
        (t.(fake := Some(fake)),
         if |i.query| < 12 || ip >= U32_LIMIT then None else Some(AResponse(i.query, ip, c.cacheTtl % U32_LIMIT)))
      else if i.upstream.None? then (t, None)
      else
        var u := i.upstream.value;
        var ttl := if u.firstTtl.Some? then u.firstTtl.value else c.cacheTtl % U32_LIMIT;
        (if u.parses then t.(cache := InsertStep(c.cache, cache, KeyOf(p.domain, p.qtype), u.response, ttl, i.now))
         else t,
         Some(u.response))
  }

  ghost predicate HandlerInv(c: HandlerConfig, s: HandlerState, now: nat) {
    && Consistent(c, s) && DnsCache.Inv(c.cache, s.cache, now)
    && (c.pool.Some? ==>
          && FakeDns.Inv(c.pool.value, s.fake.value)
          && c.pool.value.start < U32_LIMIT && c.pool.value.end < U32_LIMIT
          && NoAddressEntries(s.cache))
  }

  /** No entry for an A query is cached. */
  ghost predicate NoAddressEntries(s: DnsCache.State) {
    forall k :: k in s.entries ==> k.qtype != QTYPE_A
  }

  lemma InvLater(c: Config, s: DnsCache.State, now: nat, later: nat)
    requires DnsCache.Inv(c, s, now) && now <= later
    ensures DnsCache.Inv(c, s, later)
  {
  }

  lemma HandleKeeps(c: HandlerConfig, s: HandlerState, i: Input, now: nat)
    requires HandlerInv(c, s, now) && now <= i.now
    ensures HandlerInv(c, Handle(c, s, i).0, i.now)
  {
    hide AllocateStep, AResponse, NxdomainResponse, WithQueryId, Put, Touch, LeastRecent.Remove, Clamp, FakeDns.Inv;
    InvLater(c.cache, s.cache, now, i.now);
    if i.parsed.Some? {
      var p := i.parsed.value;
      var k := KeyOf(p.domain, p.qtype);
      GetKeeps(c.cache, s.cache, k, i.now);
      if c.pool.Some? {
        AllocateKeeps(c.pool.value, s.fake.value, p.domain);
      }
      if i.upstream.Some? {
        var u := i.upstream.value;
        var ttl := if u.firstTtl.Some? then u.firstTtl.value else c.cacheTtl % U32_LIMIT;
        InsertKeeps(c.cache, GetStep(s.cache, k, i.now).0, k, u.response, ttl, i.now);
      }
    }
  }

  /** A query that does not parse or that a filter blocks. */
  predicate TurnedAway(i: Input) {
    i.parsed.None? || i.parentBlocks || i.filterBlocks
  }

  /** The address that FakeDNS gives the query's name. */
  function AnswerAddress(c: HandlerConfig, s: HandlerState, i: Input): nat
    requires Consistent(c, s) && c.pool.Some? && i.parsed.Some?
  {
    AllocateStep(c.pool.value, s.fake.value, i.parsed.value.domain).1
  }

  /** With FakeDNS on, an A query that is not turned away never meets the cache:
      the allocator answers it, with an address that its name is bound to right then. */
  lemma {:induction false} AddressQueryAllocates(c: HandlerConfig, s: HandlerState, i: Input, now: nat)
    requires HandlerInv(c, s, now) && c.pool.Some? && !TurnedAway(i) && i.parsed.value.qtype == QTYPE_A
    ensures var (t, reply) := Handle(c, s, i);
            var ip := AnswerAddress(c, s, i);
            && t.cache == s.cache
            && t.fake == Some(AllocateStep(c.pool.value, s.fake.value, i.parsed.value.domain).0)
            && c.pool.value.InRing(ip)
            && LookupStep(t.fake.value, ip).1 == Some(Normalize(i.parsed.value.domain))
            && reply == if |i.query| < 12 || ip >= U32_LIMIT then None
                        else Some(AResponse(i.query, ip, c.cacheTtl % U32_LIMIT))
  {
    AllocateKeeps(c.pool.value, s.fake.value, i.parsed.value.domain);
    hide FakeDns.Inv, DnsCache.Inv, AllocateStep, LookupStep, AResponse, Normalize;
  }

  /** A cache hit on a stored message that parses is that message with the
      query's ID and every TTL set to the whole seconds that remain. */
  lemma {:induction false} CachedReplyIsMessage(c: HandlerConfig, s: HandlerState, i: Input, m: Message, tail: Bytes)
    requires Consistent(c, s) && i.parsed.Some? && !i.parentBlocks && !i.filterBlocks && |i.query| >= 2
    requires var k := KeyOf(i.parsed.value.domain, i.parsed.value.qtype);
             && k in s.cache.entries && i.now < s.cache.entries[k].expiresAt
             && Decode(s.cache.entries[k].response) == Some((m, tail))
    ensures var k := KeyOf(i.parsed.value.domain, i.parsed.value.qtype);
            var left := ((s.cache.entries[k].expiresAt - i.now) / NANOS) % U32_LIMIT;
            var reply := Handle(c, s, i).1;
            reply.Some? && Decode(reply.value) == Some((WithTtl(m, left).(id := ReadU16(i.query, 0)), tail))
  {
    hide U16, ReadU16, Decode, Encode, Patched;
    var k := KeyOf(i.parsed.value.domain, i.parsed.value.qtype);
    var stored := s.cache.entries[k].response;
    var left := ((s.cache.entries[k].expiresAt - i.now) / NANOS) % U32_LIMIT;
    EncodeDecoded(stored);
    PatchRefines(m, tail, left);
    var w := WithTtl(m, left);
    var id := ReadU16(i.query, 0);
    IdBytes(i.query);
    EncodeWithId(w, id, tail);
    DecodeEncoded(w.(id := id), tail);
  }

  lemma EncodeWithId(m: Message, id: nat, tail: Bytes)
    requires Valid(m) && id < 0x1_0000
    ensures |Encode(m, tail)| >= 2 && Encode(m.(id := id), tail) == U16(id) + Encode(m, tail)[2..]
  {
    hide PutQuestions, PutRecords, ValidQuestions, ValidRecords;
    var rest := PutU16(m.flags, PutU16(|m.questions|, PutU16(|m.answers|, PutU16(|m.authority|,
      PutU16(|m.additional|, PutQuestions(m.questions, PutSections(m, tail)))))));
    assert Encode(m, tail) == U16(m.id) + rest;
    assert (U16(m.id) + rest)[2..] == rest;
  }

  // ----- the handler object -----

  class Handler {
    const cache: Cache
    const fakeDns: Allocator?
    const cacheTtl: nat

    function Configuration(): HandlerConfig {
      HandlerConfig(cache.config, if fakeDns == null then None else Some(fakeDns.pool), cacheTtl)
    }

    function View(): (s: HandlerState)
      reads cache, fakeDns
      ensures Consistent(Configuration(), s)
    {
      HandlerState(cache.View(), if fakeDns == null then None else Some(fakeDns.View()))
    }

    constructor (cache: Cache, fakeDns: Allocator?, cacheTtl: nat)
      ensures this.cache == cache && this.fakeDns == fakeDns && this.cacheTtl == cacheTtl
    {
      this.cache, this.fakeDns, this.cacheTtl := cache, fakeDns, cacheTtl;
    }

    /** `handle_query` */
    method HandleQuery(i: Input) returns (reply: Option<Bytes>)
      requires HandlerInv(Configuration(), View(), i.now)
      modifies cache, fakeDns
      ensures View() == Handle(Configuration(), old(View()), i).0
      ensures reply == Handle(Configuration(), old(View()), i).1
      ensures HandlerInv(Configuration(), View(), i.now)
    {
      HandleKeeps(Configuration(), View(), i, i.now);
      if i.parsed.None? {
        return ErrorResponse(i.query);
      }
      var p := i.parsed.value;
      if i.parentBlocks || i.filterBlocks {
        reply := BuildNxdomainResponse(i.query, Some(p.labels));
        return;
      }
      var cached := cache.Get(p.domain, p.qtype, i.now);
      if cached.Some? {
        return Some(WithQueryId(cached.value, i.query));
      }
      if fakeDns != null && p.qtype == QTYPE_A {
        AllocateKeeps(fakeDns.pool, fakeDns.View(), p.domain);
        var ip := fakeDns.Allocate(p.domain);
        reply := BuildAResponse(i.query, ip, cacheTtl);
        return;
      }
      if i.upstream.None? {
        return None;
      }
      var u := i.upstream.value;
      if u.parses {
        var ttl := if u.firstTtl.Some? then u.firstTtl.value else cacheTtl % U32_LIMIT;
        cache.Insert(p.domain, p.qtype, u.response, ttl, i.now);
      }
      return Some(u.response);
    }
  }
}
