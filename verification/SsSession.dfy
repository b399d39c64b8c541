/**
 Two matched Shadowsocks ends as one byte stream, over every run of writes and
 reads; and what a reader may return when the bytes it is given are arbitrary.
 */
module SsSession {
  import opened Numbers
  import opened SsCipher
  import opened SsStream
  import SsAddress

  // ---------- one frame ----------

  lemma LengthReadsBack(aead: Aead, r: Reader, n: nat, rest: Bytes)
    requires Lawful(aead) && r.session.Some? && n < 0x1_0000
    requires r.incoming == Sealed(aead, r.session.value.key, r.session.value.uses, U16(n)) + rest
    ensures LengthStep(aead, r)
            == (Reader(Some(Opening(r.session.value.key, r.session.value.uses + 1)), rest, r.buffer),
                if n <= MAX_CHUNK then Ok(n) else Err(InvalidData))
  {
    hide Nonce, NonceOf;
    assert r.incoming[..2 + TAG_SIZE] == Sealed(aead, r.session.value.key, r.session.value.uses, U16(n));
    assert r.incoming[2 + TAG_SIZE..] == rest;
    GetPutU16(n, []);
    assert ReadU16(U16(n), 0) == n;
  }

  /** A payload of the announced length reads back; with any other announced
      length, the payload that was sealed does not come back. */
  lemma PayloadReadsBackIff(aead: Aead, r: Reader, n: nat, payload: Bytes, rest: Bytes)
    requires Lawful(aead) && r.session.Some? && n <= |payload|
    requires r.incoming == Sealed(aead, r.session.value.key, r.session.value.uses, payload) + rest
    ensures PayloadStep(aead, r, n)
            == (Reader(Some(Opening(r.session.value.key, r.session.value.uses + 1)), rest, r.buffer), Ok(payload))
            <==> n == |payload|
  {
    hide Nonce, NonceOf;
    var c := Sealed(aead, r.session.value.key, r.session.value.uses, payload);
    if n == |payload| {
      assert r.incoming[..n + TAG_SIZE] == c && r.incoming[n + TAG_SIZE..] == rest;
    } else {
      var got := aead.open(r.session.value.key, NonceOf(r.session.value.uses), r.incoming[..n + TAG_SIZE]);
      assert got.Some? ==> |got.value| == n;
    }
  }

  /** A frame reads back, exactly and leaving what follows it, if and only if its
      payload is within the chunk limit. */
  lemma FrameReadsBackIff(aead: Aead, r: Reader, payload: Bytes, rest: Bytes)
    requires Lawful(aead) && r.session.Some?
    requires r.incoming == Frame(aead, r.session.value.key, r.session.value.uses, payload) + rest
    ensures var o := r.session.value;
            ChunkStep(aead, r)
            == (Reader(Some(Opening(o.key, o.uses + 2)), rest, r.buffer), Ok(payload))
            <==> |payload| <= 0x3FFF
  {
    hide Sealed, LengthStep, PayloadStep;
    var o := r.session.value;
    var n := |payload| % 0x1_0000;
    var c0 := Sealed(aead, o.key, o.uses, U16(n));
    var c1 := Sealed(aead, o.key, o.uses + 1, payload);
    Assoc(c0, c1, rest);
    LengthReadsBack(aead, r, n, c1 + rest);
    if n <= MAX_CHUNK {
      var r' := Reader(Some(Opening(o.key, o.uses + 1)), c1 + rest, r.buffer);
      PayloadReadsBackIff(aead, r', n, payload, rest);
    }
  }

  /** The first read takes the salt and derives the writer's key from it. */
  lemma SaltReadsBack(aead: Aead, r: Reader, salt: Bytes, rest: Bytes)
    requires r.session.None? && |salt| == aead.cipherMethod.SaltSize() && r.incoming == salt + rest
    ensures InitStep(aead, r)
            == (Reader(Some(Opening(aead.subkey(salt), 0)), rest, r.buffer), Ok(()))
  {
    assert r.incoming[..|salt|] == salt && r.incoming[|salt|..] == rest;
  }

  // ---------- a matched pair ----------

  /** The writer's seal count and the reader, whose `incoming` is what is in flight. */
  datatype Link = Link(uses: nat, reader: Reader)

  datatype Op = Write(data: Bytes) | Read(room: nat)

  /** The state `ShadowsocksStream::new` leaves: salt and address frame on the wire. */
  function Connected(aead: Aead, salt: Bytes, target: SsAddress.Address): Link
    requires target.port < 0x1_0000
  {
    Link(2, Reader(None, salt + Frame(aead, aead.subkey(salt), 0, SsAddress.Encoded(target)), []))
  }

  function Send(aead: Aead, key: Bytes, l: Link, data: Bytes): Link {
    var wire := Wire(aead, key, l.uses, Chunks(data));
    Link(l.uses + 2 * |Chunks(data)|, l.reader.(incoming := l.reader.incoming + wire))
  }

  datatype Outcome = Outcome(link: Link, delivered: Bytes, failed: bool)

  /** Runs `ops`, collecting what the reads return, up to the first read that fails. */
  function Run(aead: Aead, key: Bytes, l: Link, ops: seq<Op>): Outcome
    decreases |ops|
  {
    if ops == [] then Outcome(l, [], false)
    else
      match ops[0]
      case Write(data) => Run(aead, key, Send(aead, key, l, data), ops[1..])
      case Read(room) =>
        var (r, got) := ReadStep(aead, l.reader, room);
        if got.Err? then Outcome(Link(l.uses, r), [], true)
        else
          var later := Run(aead, key, Link(l.uses, r), ops[1..]);
          Outcome(later.link, got.value + later.delivered, later.failed)
  }

  function Written(ops: seq<Op>): Bytes {
    if ops == [] then []
    else (if ops[0].Write? then ops[0].data else []) + Written(ops[1..])
  }

  /** `sent` chunks were written and `pending`, the last of them, are still in
      flight; nonces are in lock step; and no byte is lost or out of order. */
  predicate Linked(aead: Aead, salt: Bytes, l: Link, sent: nat, pending: seq<Bytes>,
                   written: Bytes, delivered: Bytes) {
    var key := aead.subkey(salt);
    && |pending| <= sent
    && l.uses == 2 * sent
    && (forall c :: c in pending ==> 1 <= |c| <= MAX_CHUNK)
    && Accounts(written, delivered, l.reader.buffer, pending)
    && match l.reader.session
       case None =>
         |pending| == sent && l.reader.buffer == [] && InFlight(aead, key, l, 0, salt, pending)
       case Some(o) =>
         o == Opening(key, 2 * (sent - |pending|)) && InFlight(aead, key, l, o.uses, [], pending)
  }

  predicate InFlight(aead: Aead, key: Bytes, l: Link, uses: nat, head: Bytes, pending: seq<Bytes>) {
    l.reader.incoming == head + Wire(aead, key, uses, pending)
  }

  predicate Accounts(written: Bytes, delivered: Bytes, buffer: Bytes, pending: seq<Bytes>) {
    written == delivered + buffer + Concat(pending)
  }

  lemma AccountsSend(written: Bytes, delivered: Bytes, buffer: Bytes, pending: seq<Bytes>, more: seq<Bytes>)
    requires Accounts(written, delivered, buffer, pending)
    ensures Accounts(written + Concat(more), delivered, buffer, pending + more)
  {
    ConcatAppend(pending, more);
    hide Concat;
    Assoc(delivered + buffer, Concat(pending), Concat(more));
  }

  lemma AccountsTake(written: Bytes, delivered: Bytes, buffer: Bytes, pending: seq<Bytes>, n: nat)
    requires Accounts(written, delivered, buffer, pending) && n <= |buffer|
    ensures Accounts(written, delivered + buffer[..n], buffer[n..], pending)
  {
    hide Concat;
    assert (delivered + buffer[..n]) + buffer[n..] == delivered + buffer;
  }

  lemma AccountsOpen(written: Bytes, delivered: Bytes, pending: seq<Bytes>)
    requires Accounts(written, delivered, [], pending) && pending != []
    ensures Accounts(written, delivered, pending[0], pending[1..])
  {
    assert delivered + [] == delivered;
    Assoc(delivered, pending[0], Concat(pending[1..]));
  }

  lemma {:induction false} SendInFlight(aead: Aead, key: Bytes, l: Link, uses: nat, head: Bytes,
        pending: seq<Bytes>, data: Bytes)
    requires InFlight(aead, key, l, uses, head, pending) && l.uses == uses + 2 * |pending|
    ensures InFlight(aead, key, Send(aead, key, l, data), uses, head, pending + Chunks(data))
  {
    var more := Chunks(data);
    WireAppend(aead, key, uses, pending, more);
    hide Chunks, Wire;
    Assoc(head, Wire(aead, key, uses, pending), Wire(aead, key, l.uses, more));
  }

  lemma {:induction false} SendKeeps(aead: Aead, salt: Bytes, l: Link, sent: nat, pending: seq<Bytes>,
                  written: Bytes, delivered: Bytes, data: Bytes)
    requires Linked(aead, salt, l, sent, pending, written, delivered)
    ensures Linked(aead, salt, Send(aead, aead.subkey(salt), l, data), sent + |Chunks(data)|,
                   pending + Chunks(data), written + data, delivered)
  {
    hide Chunks, Wire, Concat, Accounts, InFlight;
    var uses := if l.reader.session.None? then 0 else l.reader.session.value.uses;
    var head := if l.reader.session.None? then salt else [];
    SendInFlight(aead, aead.subkey(salt), l, uses, head, pending, data);
    AccountsSend(written, delivered, l.reader.buffer, pending, Chunks(data));
  }

  /** The chunks left after a read: a read takes one only with an empty buffer. */
  function AfterRead(l: Link, pending: seq<Bytes>): seq<Bytes> {
    if l.reader.buffer == [] && pending != [] then pending[1..] else pending
  }

  /** What a read has to hand out: the leftover of a chunk, else the next chunk. */
  function OnOffer(l: Link, pending: seq<Bytes>): Bytes {
    if l.reader.buffer != [] || pending == [] then l.reader.buffer else pending[0]
  }

  lemma {:induction false} ChunkOfWire(aead: Aead, r: Reader, pending: seq<Bytes>)
    requires Lawful(aead) && r.session.Some?
    requires r.incoming == Wire(aead, r.session.value.key, r.session.value.uses, pending)
    requires forall c :: c in pending ==> |c| <= MAX_CHUNK
    ensures var o := r.session.value;
            ChunkStep(aead, r) ==
            if pending == [] then (r, Err(UnexpectedEof))
            else (Reader(Some(Opening(o.key, o.uses + 2)),
                         Wire(aead, o.key, o.uses + 2, pending[1..]), r.buffer), Ok(pending[0]))
  {
    var o := r.session.value;
    if pending != [] {
      assert pending[0] in pending;
      FrameReadsBackIff(aead, r, pending[0], Wire(aead, o.key, o.uses + 2, pending[1..]));
    }
  }

  /** The reader once it has its session. */
  function Ready(aead: Aead, salt: Bytes, l: Link, sent: nat, pending: seq<Bytes>): Reader
    requires |pending| <= sent
  {
    var key, start: nat := aead.subkey(salt), 2 * (sent - |pending|);
    Reader(Some(Opening(key, start)), Wire(aead, key, start, pending), l.reader.buffer)
  }

  lemma {:induction false} ChunkOfLink(aead: Aead, salt: Bytes, l: Link, sent: nat, pending: seq<Bytes>,
                    written: Bytes, delivered: Bytes)
    requires |salt| == aead.cipherMethod.SaltSize()
    requires Linked(aead, salt, l, sent, pending, written, delivered)
    ensures ChunkStep(aead, l.reader) == ChunkStep(aead, Ready(aead, salt, l, sent, pending))
  {
    hide Accounts, Wire, LengthStep, PayloadStep;
    var ready := Ready(aead, salt, l, sent, pending);
    if l.reader.session.None? {
      SaltReadsBack(aead, l.reader, salt, ready.incoming);
      hide InitStep;
      assert InitStep(aead, ready) == (ready, Ok(())) by {
        ReadyInit(aead, ready);
      }
    } else {
      assert [] + ready.incoming == ready.incoming;
      assert l.reader == ready;
    }
  }

  lemma ReadyInit(aead: Aead, r: Reader)
    requires r.session.Some?
    ensures InitStep(aead, r) == (r, Ok(()))
  {
  }

  /** A read of a matched pair never fails: it returns as much of what is on
      offer as there is room for, and keeps the pair matched. */
  lemma {:induction false} ReadKeeps(aead: Aead, salt: Bytes, l: Link, sent: nat, pending: seq<Bytes>,
                  written: Bytes, delivered: Bytes, room: nat)
    requires Lawful(aead) && |salt| == aead.cipherMethod.SaltSize()
    requires Linked(aead, salt, l, sent, pending, written, delivered)
    ensures var (r, got) := ReadStep(aead, l.reader, room);
            && got == Ok(OnOffer(l, pending)[..Min(room, |OnOffer(l, pending)|)])
            && Linked(aead, salt, Link(l.uses, r), sent, AfterRead(l, pending),
                      written, delivered + got.value)
  {
    hide Wire, Concat, Accounts, ChunkStep;
    var offer := OnOffer(l, pending);
    var n := Min(room, |offer|);
    var left := AfterRead(l, pending);
    if l.reader.buffer == [] {
      ChunkOfLink(aead, salt, l, sent, pending, written, delivered);
      ChunkOfWire(aead, Ready(aead, salt, l, sent, pending), pending);
      if pending != [] {
        AccountsOpen(written, delivered, pending);
      }
    }
    assert Accounts(written, delivered, offer, left);
    AccountsTake(written, delivered, offer, left, n);
    var (r, got) := ReadStep(aead, l.reader, room);
    assert r.buffer == offer[n..] && got == Ok(offer[..n]);
    InFlightNoHead(aead, aead.subkey(salt), Link(l.uses, r), 2 * (sent - |left|), left);
  }

  lemma InFlightNoHead(aead: Aead, key: Bytes, l: Link, uses: nat, pending: seq<Bytes>)
    ensures InFlight(aead, key, l, uses, [], pending) <==> l.reader.incoming == Wire(aead, key, uses, pending)
  {
    assert [] + Wire(aead, key, uses, pending) == Wire(aead, key, uses, pending);
  }

  /** Everything at once: after any run of writes and reads of any sizes, no read
      has failed; the bytes read, then the read buffer, then the chunks in flight
      are the bytes written, in order; and both nonce counters are twice a count of chunks. */
  lemma {:induction false} RunKeeps(aead: Aead, salt: Bytes, l: Link, sent: nat, pending: seq<Bytes>,
                                    written: Bytes, delivered: Bytes, ops: seq<Op>)
    returns (sent': nat, pending': seq<Bytes>)
    requires Lawful(aead) && |salt| == aead.cipherMethod.SaltSize()
    requires Linked(aead, salt, l, sent, pending, written, delivered)
    ensures var out := Run(aead, aead.subkey(salt), l, ops);
            && !out.failed
            && Linked(aead, salt, out.link, sent', pending', written + Written(ops), delivered + out.delivered)
    decreases |ops|
  {
    hide Linked, Send, ReadStep, Lawful, Chunks, OnOffer, AfterRead, Min;
    var key := aead.subkey(salt);
    if ops == [] {
      assert written + Written(ops) == written && delivered + [] == delivered;
      sent', pending' := sent, pending;
    } else {
      var rest := ops[1..];
      match ops[0]
      case Write(data) =>
        SendKeeps(aead, salt, l, sent, pending, written, delivered, data);
        Assoc(written, data, Written(rest));
        sent', pending' := RunKeeps(aead, salt, Send(aead, key, l, data), sent + |Chunks(data)|,
                                    pending + Chunks(data), written + data, delivered, rest);
      case Read(room) =>
        ReadKeeps(aead, salt, l, sent, pending, written, delivered, room);
        var (r, got) := ReadStep(aead, l.reader, room);
        var later := Run(aead, key, Link(l.uses, r), rest);
        Assoc(written, [], Written(rest));
        Assoc(delivered, got.value, later.delivered);
        assert written + [] == written;
        sent', pending' := RunKeeps(aead, salt, Link(l.uses, r), sent, AfterRead(l, pending),
                                    written, delivered + got.value, rest);
    }
  }

  lemma Assoc(a: Bytes, b: Bytes, c: Bytes)
    ensures (a + b) + c == a + (b + c)
  {
  }

  /** A fresh connection is a matched pair exactly when its address fits one chunk. */
  lemma ConnectedIsLinkedIff(aead: Aead, salt: Bytes, target: SsAddress.Address)
    requires target.port < 0x1_0000
    ensures var address := SsAddress.Encoded(target);
            Linked(aead, salt, Connected(aead, salt, target), 1, [address], address, [])
            <==> |address| <= MAX_CHUNK
  {
    var address := SsAddress.Encoded(target);
    assert Concat([address]) == address;
    var frame := Frame(aead, aead.subkey(salt), 0, address);
    assert Wire(aead, aead.subkey(salt), 0, [address]) == frame;
    assert address in [address];
  }

  /** The stream theorem, from the handshake on. */
  lemma {:induction false} StreamRefinesBytes(aead: Aead, salt: Bytes, target: SsAddress.Address, ops: seq<Op>)
    requires Lawful(aead) && |salt| == aead.cipherMethod.SaltSize()
    requires target.port < 0x1_0000 && |SsAddress.Encoded(target)| <= MAX_CHUNK
    ensures var out := Run(aead, aead.subkey(salt), Connected(aead, salt, target), ops);
            && !out.failed
            && exists sent, pending ::
                 Linked(aead, salt, out.link, sent, pending,
                        SsAddress.Encoded(target) + Written(ops), out.delivered)
  {
    var address := SsAddress.Encoded(target);
    ConnectedIsLinkedIff(aead, salt, target);
    var sent, pending := RunKeeps(aead, salt, Connected(aead, salt, target), 1, [address], address, [], ops);
    var out := Run(aead, aead.subkey(salt), Connected(aead, salt, target), ops);
    assert [] + out.delivered == out.delivered;
  }

  /** The far end learns the target from the first bytes it reads: as soon as it
      has enough of them, they decode to the address the stream was opened for. */
  lemma {:induction false} HandshakeNamesTarget(aead: Aead, salt: Bytes, target: SsAddress.Address, ops: seq<Op>,
                                                utf8: Bytes -> bool)
    requires Lawful(aead) && |salt| == aead.cipherMethod.SaltSize()
    requires SsAddress.WellTyped(target, utf8) && SsAddress.Carried(target)
    ensures var got := Run(aead, aead.subkey(salt), Connected(aead, salt, target), ops).delivered;
            && got <= SsAddress.Encoded(target) + Written(ops)
            && (|got| >= SsAddress.EncodedLen(target) ==>
                  SsAddress.Decode(got, utf8) == SsAddress.Ok(target, SsAddress.EncodedLen(target)))
  {
    SsAddress.DecodeEncodedIff(target, [], utf8);
    StreamRefinesBytes(aead, salt, target, ops);
    hide Run, Wire, Written, Connected, Lawful, Concat, SsAddress.Encoded, SsAddress.Decode;
    var address := SsAddress.Encoded(target);
    var out := Run(aead, aead.subkey(salt), Connected(aead, salt, target), ops);
    var sent, pending :| Linked(aead, salt, out.link, sent, pending, address + Written(ops), out.delivered);
    Assoc(out.delivered, out.link.reader.buffer, Concat(pending));
    if |out.delivered| >= |address| {
      LongPrefix(out.delivered, address, Written(ops));
      SsAddress.DecodeEncodedIff(target, out.delivered[|address|..], utf8);
    }
  }

  lemma LongPrefix(got: Bytes, a: Bytes, b: Bytes)
    requires got <= a + b && |got| >= |a|
    ensures got == a + got[|a|..]
  {
    assert got[..|a|] == (a + b)[..|a|] == a;
  }

  /** With room, a read returns nothing only when everything written was delivered. */
  lemma {:induction false} EmptyReadIffDrained(aead: Aead, salt: Bytes, l: Link, sent: nat, pending: seq<Bytes>,
                            written: Bytes, delivered: Bytes, room: nat)
    requires Lawful(aead) && |salt| == aead.cipherMethod.SaltSize() && room >= 1
    requires Linked(aead, salt, l, sent, pending, written, delivered)
    ensures ReadStep(aead, l.reader, room).1 == Ok([]) <==> delivered == written
  {
    ReadKeeps(aead, salt, l, sent, pending, written, delivered, room);
    if l.reader.buffer == [] && pending != [] {
      assert pending[0] in pending;
      assert |Concat(pending)| == |pending[0]| + |Concat(pending[1..])|;
    }
    assert |written| == |delivered| + |l.reader.buffer| + |Concat(pending)|;
  }

  // ---------- arbitrary incoming bytes ----------

  /** The texts a writer of `chunks` seals, in order. */
  function Log(chunks: seq<Bytes>): (r: seq<Bytes>)
    ensures |r| == 2 * |chunks|
  {
    if chunks == [] then [] else [U16(|chunks[0]| % 0x1_0000), chunks[0]] + Log(chunks[1..])
  }

  lemma {:induction false} LogAt(chunks: seq<Bytes>, j: nat)
    requires j < |chunks|
    ensures Log(chunks)[2 * j + 1] == chunks[j]
  {
    if j == 0 {
    } else {
      LogAt(chunks[1..], j - 1);
    }
  }

  /** No forgery on this wire: under `key`, a nonce opens a stretch of the bytes
      received only if it is the text the writer sealed with that nonce. */
  ghost predicate Authentic(aead: Aead, key: Bytes, log: seq<Bytes>, wire: Bytes) {
    forall i: nat, a: nat, b: nat ::
      i < TWO64 && a <= b <= |wire| && aead.open(key, Nonce(i), wire[a..b]).Some?
      ==> i < |log| && aead.open(key, Nonce(i), wire[a..b]).value == log[i]
  }

  datatype Reading = Reading(reader: Reader, delivered: Bytes, failed: bool)

  function ReadAll(aead: Aead, r: Reader, rooms: seq<nat>): Reading
    decreases |rooms|
  {
    if rooms == [] then Reading(r, [], false)
    else
      var (r', got) := ReadStep(aead, r, rooms[0]);
      if got.Err? then Reading(r', [], true)
      else
        var later := ReadAll(aead, r', rooms[1..]);
        Reading(later.reader, got.value + later.delivered, later.failed)
  }

  /** `k` whole chunks were taken from the front of `wire`, and the reader is at
      a frame boundary or at the end of its input. */
  predicate Following(key: Bytes, chunks: seq<Bytes>, wire: Bytes, r: Reader, k: nat, delivered: Bytes) {
    && k <= |chunks|
    && delivered + r.buffer == Concat(chunks[..k])
    && r.session.Some?
    && IsRest(wire, r.incoming)
    && (r.incoming == [] || r.session.value == Opening(key, 2 * k))
  }

  /** `rest` is what is left of `wire` behind some point. */
  predicate IsRest(wire: Bytes, rest: Bytes) {
    |rest| <= |wire| && rest == wire[|wire| - |rest|..]
  }

  lemma NonceBelow(i: nat)
    requires i < TWO64
    ensures NonceOf(i) == Nonce(i)
  {
    ModUnique(i, TWO64, 0, i);
  }

  /** A chunk that is returned was opened, from a stretch of the input, under the
      session's second next nonce. */
  lemma ChunkTakesTwo(aead: Aead, r: Reader) returns (a: nat, b: nat)
    requires r.session.Some? && ChunkStep(aead, r).1.Ok?
    ensures var o, (r', chunk) := r.session.value, ChunkStep(aead, r);
            && r'.session == Some(Opening(o.key, o.uses + 2))
            && r'.buffer == r.buffer
            && a <= b <= |r.incoming| && r'.incoming == r.incoming[b..]
            && aead.open(o.key, NonceOf(o.uses + 1), r.incoming[a..b]) == Some(chunk.value)
  {
    hide Nonce, NonceOf;
    var (r2, n) := LengthStep(aead, r);
    assert r2.session == Some(Opening(r.session.value.key, r.session.value.uses + 1)) && r2.buffer == r.buffer;
    a, b := 2 + TAG_SIZE, 2 + TAG_SIZE + n.value + TAG_SIZE;
    assert r2.incoming == r.incoming[a..];
    assert r2.incoming[..n.value + TAG_SIZE] == r.incoming[a..b];
    assert r2.incoming[n.value + TAG_SIZE..] == r.incoming[b..];
  }

  /** What a read does when nothing is left over, whatever the bytes that come:
      the first 18 must open to a length of at most 0x3FFF, and as many bytes and 16
      more must open to the chunk, of which it returns what fits. Bytes that do not
      open, or a length that is none, are an error; too few bytes are the end. */
  lemma ReadOutcome(aead: Aead, r: Reader, room: nat)
    requires Lawful(aead) && r.session.Some? && r.buffer == []
    ensures var o, x, got := r.session.value, r.incoming, ReadStep(aead, r, room).1;
            && (|x| < 18 ==> got == Ok([]))
            && (|x| >= 18 ==>
                  var p := aead.open(o.key, NonceOf(o.uses), x[..18]);
                  && (p.None? ==> got == Err(InvalidData))
                  && (p.Some? ==>
                        var n := p.value[0] as int * 0x100 + p.value[1] as int;
                        && (n > 0x3FFF ==> got == Err(InvalidData))
                        && (n <= 0x3FFF && |x| < 18 + n + 16 ==> got == Ok([]))
                        && (n <= 0x3FFF && |x| >= 18 + n + 16 ==>
                              var chunk := aead.open(o.key, NonceOf(o.uses + 1), x[18..18 + n + 16]);
                              && (chunk.None? ==> got == Err(InvalidData))
                              && (chunk.Some? ==>
                                    got == Ok(if room <= |chunk.value| then chunk.value[..room] else chunk.value)))))
  {
    hide Nonce, NonceOf;
    var x := r.incoming;
    if |x| >= 18 {
      var p := aead.open(r.session.value.key, NonceOf(r.session.value.uses), x[..18]);
      if p.Some? {
        var n := ReadU16(p.value, 0);
        if |x| >= 18 + n + 16 {
          assert x[18..][..n + 16] == x[18..18 + n + 16];
          var chunk := aead.open(r.session.value.key, NonceOf(r.session.value.uses + 1), x[18..18 + n + 16]);
          assert chunk.Some? ==> chunk.value[..|chunk.value|] == chunk.value;
        }
      }
    }
  }

  lemma EofEndsInput(aead: Aead, r: Reader)
    requires r.session.Some? && ChunkStep(aead, r).1 == Err(UnexpectedEof)
    ensures var r' := ChunkStep(aead, r).0;
            r'.session.Some? && r'.incoming == [] && r'.buffer == r.buffer
  {
    hide Nonce, NonceOf;
  }

  lemma OpensOnlyLogged(aead: Aead, key: Bytes, log: seq<Bytes>, wire: Bytes, rest: Bytes, i: nat, a: nat, b: nat)
    requires Authentic(aead, key, log, wire) && i < TWO64 && IsRest(wire, rest) && a <= b <= |rest|
    requires aead.open(key, NonceOf(i), rest[a..b]).Some?
    ensures i < |log| && aead.open(key, NonceOf(i), rest[a..b]).value == log[i]
  {
    NonceBelow(i);
    var skipped := |wire| - |rest|;
    assert rest[a..b] == wire[skipped + a..skipped + b];
  }

  lemma {:induction false} ChunkOfAnything(aead: Aead, key: Bytes, chunks: seq<Bytes>, wire: Bytes, r: Reader, k: nat)
    requires Authentic(aead, key, Log(chunks), wire) && 2 * |chunks| + 1 < TWO64 && k <= |chunks|
    requires IsRest(wire, r.incoming)
    requires r.session == Some(Opening(key, 2 * k)) && ChunkStep(aead, r).1.Ok?
    ensures k < |chunks| && ChunkStep(aead, r).1.value == chunks[k]
  {
    hide ChunkStep, NonceOf, Log, Authentic;
    var a, b := ChunkTakesTwo(aead, r);
    OpensOnlyLogged(aead, key, Log(chunks), wire, r.incoming, 2 * k + 1, a, b);
    LogAt(chunks, k);
  }

  /** Whatever bytes arrive after the salt, as long as they hold no forgery, and
      however they are read: up to the first reported error the reader has
      returned a prefix of what was written. Bytes may be cut, repeated,
      reordered or altered. */
  lemma {:induction false} AnyInputYieldsPrefix(aead: Aead, key: Bytes, chunks: seq<Bytes>, wire: Bytes, r: Reader,
                                                k: nat, delivered: Bytes, rooms: seq<nat>)
    requires Authentic(aead, key, Log(chunks), wire) && 2 * |chunks| + 1 < TWO64
    requires Following(key, chunks, wire, r, k, delivered)
    ensures delivered + ReadAll(aead, r, rooms).delivered <= Concat(chunks)
    decreases |rooms|
  {
    hide ReadStep, Authentic, Log, IsRest;
    StartOfConcat(chunks, k, delivered, r.buffer);
    if rooms == [] {
    } else {
      var (r', got) := ReadStep(aead, r, rooms[0]);
      if got.Ok? {
        var k' := FollowRead(aead, key, chunks, wire, r, k, delivered, rooms[0]);
        AnyInputYieldsPrefix(aead, key, chunks, wire, r', k', delivered + got.value, rooms[1..]);
        var later := ReadAll(aead, r', rooms[1..]);
        Assoc(delivered, got.value, later.delivered);
      }
    }
    assert delivered + [] == delivered;
  }

  lemma StartOfConcat(chunks: seq<Bytes>, k: nat, delivered: Bytes, buffer: Bytes)
    requires k <= |chunks| && delivered + buffer == Concat(chunks[..k])
    ensures delivered <= Concat(chunks)
  {
    ConcatAppend(chunks[..k], chunks[k..]);
    assert chunks[..k] + chunks[k..] == chunks;
    Assoc(delivered, buffer, Concat(chunks[k..]));
  }

  lemma {:induction false} FollowRead(aead: Aead, key: Bytes, chunks: seq<Bytes>, wire: Bytes, r: Reader, k: nat,
                                      delivered: Bytes, room: nat) returns (k': nat)
    requires Authentic(aead, key, Log(chunks), wire) && 2 * |chunks| + 1 < TWO64
    requires Following(key, chunks, wire, r, k, delivered) && ReadStep(aead, r, room).1.Ok?
    ensures var (r', got) := ReadStep(aead, r, room);
            Following(key, chunks, wire, r', k', delivered + got.value)
  {
    hide ChunkStep, Concat, Authentic, Log, IsRest;
    k' := k;
    if r.buffer != [] {
      TakeFrom(delivered, r.buffer, Min(room, |r.buffer|));
    } else if ChunkStep(aead, r).1.Ok? {
      if r.incoming == [] {
        EmptyInputIsEof(aead, r);
      }
      ChunkOfAnything(aead, key, chunks, wire, r, k);
      var _, b := ChunkTakesTwo(aead, r);
      RestOfRest(wire, r.incoming, b);
      k' := k + 1;
      ConcatNext(chunks, k, delivered);
      TakeFrom(delivered, chunks[k], Min(room, |chunks[k]|));
    } else {
      EofEndsInput(aead, r);
      RestOfRest(wire, r.incoming, |r.incoming|);
      assert delivered + [] == delivered;
    }
  }

  lemma RestOfRest(wire: Bytes, rest: Bytes, n: nat)
    requires IsRest(wire, rest) && n <= |rest|
    ensures IsRest(wire, rest[n..])
  {
  }

  lemma ConcatNext(chunks: seq<Bytes>, k: nat, delivered: Bytes)
    requires k < |chunks| && delivered + [] == Concat(chunks[..k])
    ensures delivered + chunks[k] == Concat(chunks[..k + 1])
  {
    assert chunks[..k + 1] == chunks[..k] + [chunks[k]];
    ConcatAppend(chunks[..k], [chunks[k]]);
    assert Concat([chunks[k]]) == chunks[k];
  }

  lemma TakeFrom(delivered: Bytes, buffer: Bytes, n: nat)
    requires n <= |buffer|
    ensures (delivered + buffer[..n]) + buffer[n..] == delivered + buffer
  {
  }

  lemma EmptyInputIsEof(aead: Aead, r: Reader)
    requires r.session.Some? && r.incoming == []
    ensures ChunkStep(aead, r) == (r, Err(UnexpectedEof))
  {
  }
}
