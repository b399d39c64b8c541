/**
 The Shadowsocks stream: writes are cut into framed chunks, reads open one frame
 at a time and keep what the caller had no room for. A pair of matched ends is
 then a byte stream, whatever the sizes of the writes and of the read buffers.
 */
module SsStream {
  import opened Numbers
  import opened SsCipher
  import SsAddress

  const MAX_CHUNK: nat := 0x3FFF

  // ---------- the writing end ----------

  /** `data.chunks(0x3FFF)`. */
  function Chunks(data: Bytes): (r: seq<Bytes>)
    ensures forall c :: c in r ==> 1 <= |c| <= 0x3FFF
    ensures forall i :: 0 <= i < |r| - 1 ==> |r[i]| == 0x3FFF
    ensures Concat(r) == data
  {
    if data == [] then []
    else if |data| <= MAX_CHUNK then [data]
    else
      assert data[..MAX_CHUNK] + data[MAX_CHUNK..] == data;
      [data[..MAX_CHUNK]] + Chunks(data[MAX_CHUNK..])
  }

  function Concat(chunks: seq<Bytes>): Bytes {
    if chunks == [] then [] else chunks[0] + Concat(chunks[1..])
  }

  /** The bytes on the wire for `chunks`, the first sealed as seal number `uses`. */
  function Wire(aead: Aead, key: Bytes, uses: nat, chunks: seq<Bytes>): Bytes
    decreases |chunks|
  {
    if chunks == [] then []
    else Frame(aead, key, uses, chunks[0]) + Wire(aead, key, uses + 2, chunks[1..])
  }

  lemma {:induction false} ConcatAppend(a: seq<Bytes>, b: seq<Bytes>)
    ensures Concat(a + b) == Concat(a) + Concat(b)
  {
    if a == [] {
      assert a + b == b;
    } else {
      assert (a + b)[1..] == a[1..] + b;
      ConcatAppend(a[1..], b);
    }
  }

  lemma {:induction false} WireAppend(aead: Aead, key: Bytes, uses: nat, a: seq<Bytes>, b: seq<Bytes>)
    ensures Wire(aead, key, uses, a + b)
            == Wire(aead, key, uses, a) + Wire(aead, key, uses + 2 * |a|, b)
    decreases |a|
  {
    if a == [] {
      assert a + b == b;
    } else {
      assert (a + b)[1..] == a[1..] + b;
      WireAppend(aead, key, uses + 2, a[1..], b);
    }
  }

  lemma WireOfNone(aead: Aead, key: Bytes, uses: nat, chunks: seq<Bytes>)
    ensures Wire(aead, key, uses, chunks[..0]) == []
  {
  }

  lemma {:induction false} WireNext(aead: Aead, key: Bytes, uses: nat, chunks: seq<Bytes>, i: nat)
    requires i < |chunks|
    ensures Wire(aead, key, uses, chunks[..i + 1])
            == Wire(aead, key, uses, chunks[..i]) + Frame(aead, key, uses + 2 * i, chunks[i])
  {
    assert chunks[..i + 1] == chunks[..i] + [chunks[i]];
    WireAppend(aead, key, uses, chunks[..i], [chunks[i]]);
  }

  // ---------- the reading end ----------

  datatype ReadError = UnexpectedEof | InvalidData

  datatype Result<+T> = Ok(value: T) | Err(error: ReadError)

  /** A decrypting session: its key and the number of nonces taken. */
  datatype Opening = Opening(key: Bytes, uses: nat)

  /** `incoming` is what the peer sends from here on, until it closes. */
  datatype Reader = Reader(session: Option<Opening>, incoming: Bytes, buffer: Bytes)

  /** `read_exact`: an early end of the stream loses what had arrived. */
  function ReadExact(r: Reader, n: nat): (Reader, Result<Bytes>) {
    if |r.incoming| < n then (r.(incoming := []), Err(UnexpectedEof))
    else (r.(incoming := r.incoming[n..]), Ok(r.incoming[..n]))
  }

  function InitStep(aead: Aead, r: Reader): (s: (Reader, Result<()>))
    ensures s.1.Ok? ==> s.0.session.Some?
  {
    if r.session.Some? then (r, Ok(()))
    else
      var (r', salt) := ReadExact(r, aead.cipherMethod.SaltSize());
      match salt
      case Err(e) => (r', Err(e))
      case Ok(bytes) => (r'.(session := Some(Opening(aead.subkey(bytes), 0))), Ok(()))
  }

  function DecryptStep(aead: Aead, r: Reader, cipher: Bytes): (s: (Reader, Result<Bytes>))
    requires r.session.Some? && |cipher| >= TAG_SIZE
    ensures s.0.session.Some? && s.0.incoming == r.incoming && s.0.buffer == r.buffer
  {
    var o := r.session.value;
    var r' := r.(session := Some(o.(uses := o.uses + 1)));
    match aead.open(o.key, NonceOf(o.uses), cipher)
    case None => (r', Err(InvalidData))
    case Some(plain) => (r', Ok(plain))
  }

  function LengthStep(aead: Aead, r: Reader): (s: (Reader, Result<nat>))
    requires r.session.Some?
    ensures s.1.Ok? ==> s.0.session.Some? && s.1.value <= MAX_CHUNK
  {
    var (r1, cipher) := ReadExact(r, 2 + TAG_SIZE);
    match cipher
    case Err(e) => (r1, Err(e))
    case Ok(c) =>
      var (r2, plain) := DecryptStep(aead, r1, c);
      match plain
      case Err(e) => (r2, Err(e))
      case Ok(p) =>
        if |p| != 2 then (r2, Err(InvalidData))
        else if ReadU16(p, 0) > MAX_CHUNK then (r2, Err(InvalidData))
        else (r2, Ok(ReadU16(p, 0)))
  }

  function PayloadStep(aead: Aead, r: Reader, n: nat): (Reader, Result<Bytes>)
    requires r.session.Some?
  {
    var (r1, cipher) := ReadExact(r, n + TAG_SIZE);
    match cipher
    case Err(e) => (r1, Err(e))
    case Ok(c) => DecryptStep(aead, r1, c)
  }

  function ChunkStep(aead: Aead, r: Reader): (Reader, Result<Bytes>) {
    var (r1, init) := InitStep(aead, r);
    match init
    case Err(e) => (r1, Err(e))
    case Ok(_) =>
      var (r2, length) := LengthStep(aead, r1);
      match length
      case Err(e) => (r2, Err(e))
      case Ok(n) => PayloadStep(aead, r2, n)
  }

  function Min(a: nat, b: nat): nat {
    if a <= b then a else b
  }

  /** One `read` into a buffer with room for `room` bytes: the bytes copied. */
  function ReadStep(aead: Aead, r: Reader, room: nat): (s: (Reader, Result<Bytes>))
    ensures s.1.Ok? ==> |s.1.value| <= room
  {
    if r.buffer != [] then
      var n := Min(room, |r.buffer|);
      (r.(buffer := r.buffer[n..]), Ok(r.buffer[..n]))
    else
      var (r', chunk) := ChunkStep(aead, r);
      match chunk
      case Ok(data) =>
        var n := Min(room, |data|);
        (r'.(buffer := data[n..]), Ok(data[..n]))
      case Err(UnexpectedEof) => (r', Ok([]))
      case Err(InvalidData) => (r', Err(InvalidData))
  }

  /** A read seen by its caller: the new reader, the count, and the caller's buffer. */
  function ReadInto(aead: Aead, r: Reader, room: Bytes): (Reader, Result<nat>, Bytes) {
    var (r', copied) := ReadStep(aead, r, |room|);
    match copied
    case Ok(bytes) => (r', Ok(|bytes|), bytes + room[|bytes|..])
    case Err(e) => (r', Err(e), room)
  }

  class Stream {
    const aead: Aead
    /** Bytes given to and still to come from the socket. */
    var outgoing: Bytes
    var incoming: Bytes
    const encryptor: Encryptor
    var decryptor: Decryptor?
    var readBuffer: Bytes

    ghost predicate Valid()
      reads this, encryptor, decryptor
    {
      && encryptor.aead == aead && encryptor.Valid()
      && (decryptor != null ==> decryptor.aead == aead && decryptor.Valid())
    }

    ghost function View(): Reader
      reads this, decryptor
    {
      Reader(if decryptor == null then None else Some(Opening(decryptor.key, decryptor.uses)),
             incoming, readBuffer)
    }

    /** Connects: the salt, then the target address as the first frame. */
    constructor (aead: Aead, salt: Bytes, target: SsAddress.Address, incoming: Bytes)
      requires target.port < 0x1_0000
      ensures Valid() && fresh(encryptor) && this.aead == aead
      ensures encryptor.key == aead.subkey(salt) && encryptor.uses == 2
      ensures outgoing == salt + Frame(aead, aead.subkey(salt), 0, SsAddress.Encoded(target))
      ensures View() == Reader(None, incoming, [])
    {
      var e := new Encryptor(aead, salt);
      var address := SsAddress.Encode(target);
      var encrypted := e.EncryptPayload(address);
      this.aead := aead;
      encryptor := e;
      outgoing := salt + encrypted;
      this.incoming := incoming;
      decryptor := null;
      readBuffer := [];
    }

    method ReadExactly(n: nat) returns (r: Result<Bytes>)
      requires Valid()
      modifies this`incoming
      ensures Valid()
      ensures (View(), r) == ReadExact(old(View()), n)
    {
      if |incoming| < n {
        incoming := [];
        return Err(UnexpectedEof);
      }
      r := Ok(incoming[..n]);
      incoming := incoming[n..];
    }

    method InitDecryptor() returns (r: Result<()>)
      requires Valid()
      modifies this`incoming, this`decryptor
      ensures Valid() && (decryptor == old(decryptor) || fresh(decryptor))
      ensures (View(), r) == InitStep(aead, old(View()))
    {
      if decryptor != null {
        return Ok(());
      }
      var salt := ReadExactly(aead.cipherMethod.SaltSize());
      if salt.Err? {
        return Err(salt.error);
      }
      decryptor := new Decryptor(aead, salt.value);
      return Ok(());
    }

    method ReadLength() returns (r: Result<nat>)
      requires Valid() && decryptor != null
      modifies this`incoming, decryptor
      ensures Valid()
      ensures (View(), r) == LengthStep(aead, old(View()))
    {
      var cipher := ReadExactly(2 + TAG_SIZE);
      if cipher.Err? {
        return Err(cipher.error);
      }
      var plain := decryptor.Decrypt(cipher.value);
      if plain.None? {
        return Err(InvalidData);
      }
      if |plain.value| != 2 {
        return Err(InvalidData);
      }
      var payloadLen := ReadU16(plain.value, 0);
      if payloadLen > MAX_CHUNK {
        return Err(InvalidData);
      }
      return Ok(payloadLen);
    }

    method ReadPayload(n: nat) returns (r: Result<Bytes>)
      requires Valid() && decryptor != null
      modifies this`incoming, decryptor
      ensures Valid()
      ensures (View(), r) == PayloadStep(aead, old(View()), n)
    {
      var cipher := ReadExactly(n + TAG_SIZE);
      if cipher.Err? {
        return Err(cipher.error);
      }
      var plain := decryptor.Decrypt(cipher.value);
      r := if plain.None? then Err(InvalidData) else Ok(plain.value);
    }

    method ReadChunk() returns (r: Result<Bytes>)
      requires Valid()
      modifies this`incoming, this`decryptor, decryptor
      ensures Valid() && (decryptor == old(decryptor) || fresh(decryptor))
      ensures (View(), r) == ChunkStep(aead, old(View()))
    {
      var init := InitDecryptor();
      if init.Err? {
        return Err(init.error);
      }
      var length := ReadLength();
      if length.Err? {
        return Err(length.error);
      }
      r := ReadPayload(length.value);
    }

    method Read(buf: array<Byte>) returns (r: Result<nat>)
      requires Valid()
      modifies this`incoming, this`decryptor, this`readBuffer, decryptor, buf
      ensures Valid() && (decryptor == old(decryptor) || fresh(decryptor))
      ensures (View(), r, buf[..]) == ReadInto(aead, old(View()), old(buf[..]))
      ensures r.Ok? ==> r.value <= buf.Length && buf[r.value..] == old(buf[r.value..])
      ensures r.Err? ==> buf[..] == old(buf[..])
    {
      hide ChunkStep;
      if readBuffer != [] {
        var toRead := Min(buf.Length, |readBuffer|);
        CopyInto(buf, readBuffer[..toRead]);
        readBuffer := readBuffer[toRead..];
        return Ok(toRead);
      }
      ghost var before := View();
      var chunk := ReadChunk();
      assert (View(), chunk) == ChunkStep(aead, before);
      if chunk.Ok? {
        var data := chunk.value;
        if data == [] {
          assert [] + buf[..][0..] == buf[..];
          return Ok(0);
        }
        var toRead := Min(buf.Length, |data|);
        CopyInto(buf, data[..toRead]);
        if toRead < |data| {
          readBuffer := readBuffer + data[toRead..];
        }
        assert readBuffer == data[toRead..];
        return Ok(toRead);
      } else if chunk.error.UnexpectedEof? {
        assert [] + buf[..][0..] == buf[..];
        return Ok(0);
      }
      return Err(chunk.error);
    }

    method SendFrame(chunk: Bytes)
      requires Valid()
      modifies this`outgoing, encryptor
      ensures Valid()
      ensures encryptor.uses == old(encryptor.uses) + 2
      ensures outgoing == old(outgoing) + Frame(aead, encryptor.key, old(encryptor.uses), chunk)
    {
      var encrypted := encryptor.EncryptPayload(chunk);
      outgoing := outgoing + encrypted;
    }

    method WriteAll(data: Bytes)
      requires Valid()
      modifies this`outgoing, encryptor
      ensures Valid()
      ensures encryptor.uses == old(encryptor.uses) + 2 * |Chunks(data)|
      ensures outgoing == old(outgoing) + Wire(aead, encryptor.key, old(encryptor.uses), Chunks(data))
    {
      hide Frame, Wire, Chunks;
      var chunks := Chunks(data);
      ghost var key, first, before := encryptor.key, encryptor.uses, outgoing;
      WireOfNone(aead, key, first, chunks);
      for i := 0 to |chunks|
        invariant Valid()
        invariant encryptor.uses == first + 2 * i
        invariant outgoing == before + Wire(aead, key, first, chunks[..i])
      {
        SendFrame(chunks[i]);
        WireNext(aead, key, first, chunks, i);
      }
      assert chunks[..|chunks|] == chunks;
    }
  }

  method CopyInto(buf: array<Byte>, bytes: Bytes)
    requires |bytes| <= buf.Length
    modifies buf
    ensures buf[..] == bytes + old(buf[..])[|bytes|..]
  {
    forall i | 0 <= i < |bytes| {
      buf[i] := bytes[i];
    }
  }
}
