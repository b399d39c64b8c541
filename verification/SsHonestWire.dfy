/**
 What `SsSession.AnyInputYieldsPrefix` asks of cipher, writer and wire can be met
 together: a lawful cipher and the wire of a writer, for which nothing is forged.
 */
module SsHonestWire {
  import opened Numbers
  import opened SsCipher
  import opened SsStream
  import opened SsSession

  /** The tag is a mark, the length of the text and the nonce; nothing is hidden. */
  function Mark(nonce: Bytes, n: nat): (r: Bytes)
    ensures |r| == TAG_SIZE
  {
    [200, 200, 200, n % 0x100] + (if |nonce| == 12 then nonce else Nonce(0))
  }

  function Open(nonce: Bytes, cipher: Bytes): Option<Bytes> {
    if |cipher| >= TAG_SIZE && cipher[..TAG_SIZE] == Mark(nonce, |cipher| - TAG_SIZE) then Some(cipher[TAG_SIZE..])
    else None
  }

  function Marked(m: Method): Aead {
    Aead(m, salt => salt, (_, nonce, plain) => Mark(nonce, |plain|) + plain, (_, nonce, cipher) => Open(nonce, cipher))
  }

  lemma MarkedIsLawful(m: Method)
    ensures Lawful(Marked(m))
  {
    hide Mark;
    forall nonce: Bytes, plain: Bytes ensures Open(nonce, Mark(nonce, |plain|) + plain) == Some(plain) {
      var cipher := Mark(nonce, |plain|) + plain;
      assert cipher[..TAG_SIZE] == Mark(nonce, |plain|) && cipher[TAG_SIZE..] == plain;
    }
  }

  /** What a writer of the one byte 7 sends behind its salt. */
  function OneByteWire(m: Method, key: Bytes): Bytes {
    Wire(Marked(m), key, 0, [[7]])
  }

  lemma {:induction false} LittleEndianZero(n: nat)
    ensures LittleEndian(0, n) == seq(n, _ => 0)
  {
    if n == 0 {
    } else {
      LittleEndianZero(n - 1);
      assert [0] + seq(n - 1, _ => 0) == seq(n, _ => 0);
    }
  }

  lemma FirstNonces()
    ensures NonceOf(0) == Nonce(0) == [0, 0, 0, 0, 0, 0, 0, 0, 0, 0, 0, 0]
    ensures NonceOf(1) == Nonce(1) == [1, 0, 0, 0, 0, 0, 0, 0, 0, 0, 0, 0]
  {
    hide NonceOf;
    NonceBelow(0);
    NonceBelow(1);
    LittleEndianZero(8);
    LittleEndianZero(7);
    assert LittleEndian(1, 8) == [1] + LittleEndian(0, 7);
    hide LittleEndian;
  }

  lemma OneByteWireIs(m: Method, key: Bytes)
    ensures OneByteWire(m, key) == (Mark(Nonce(0), 2) + [0, 1]) + (Mark(Nonce(1), 1) + [7])
  {
    FirstNonces();
    hide Mark, NonceOf, Nonce;
    var aead := Marked(m);
    assert [[7]][1..] == [];
    assert Wire(aead, key, 2, []) == [];
    assert OneByteWire(m, key) == Frame(aead, key, 0, [7]) + [];
    assert U16(1) == [0, 1];
    assert Sealed(aead, key, 0, U16(1)) == Mark(Nonce(0), 2) + [0, 1];
    assert Sealed(aead, key, 1, [7]) == Mark(Nonce(1), 1) + [7];
  }

  /** The mark occurs in the wire only where a tag was put. */
  lemma MarksOfWire(wire: Bytes, a: nat)
    requires wire == (Mark(Nonce(0), 2) + [0, 1]) + (Mark(Nonce(1), 1) + [7])
    requires a + 2 < |wire| && wire[a] == 200 && wire[a + 1] == 200 && wire[a + 2] == 200
    ensures a == 0 || a == 18
  {
    FirstNonces();
    hide Nonce, NonceOf;
    assert forall k :: 4 <= k < 18 ==> wire[k] != 200;
    assert forall k :: 22 <= k < 35 ==> wire[k] != 200;
    assert wire[3] != 200 && wire[21] != 200;
  }

  lemma TagsOfWire(wire: Bytes)
    requires wire == (Mark(Nonce(0), 2) + [0, 1]) + (Mark(Nonce(1), 1) + [7])
    ensures |wire| == 35 && wire[..16] == Mark(Nonce(0), 2) && wire[18..34] == Mark(Nonce(1), 1)
    ensures wire[16..18] == [0, 1] && wire[34..35] == [7]
  {
    hide Mark, Nonce;
  }

  /** Equal marks have the same length byte and, of counters, the same counter. */
  lemma SameMark(i: nat, j: nat, m: nat, n: nat)
    requires i < TWO64 && j < TWO64 && Mark(Nonce(i), m) == Mark(Nonce(j), n)
    ensures i == j && m % 0x100 == n % 0x100
  {
    var x, y := Mark(Nonce(i), m), Mark(Nonce(j), n);
    assert x[3] == m % 0x100 && y[3] == n % 0x100;
    assert x[4..] == Nonce(i) && y[4..] == Nonce(j);
    NonceInjective(i, j);
  }

  lemma TagAndText(wire: Bytes, a: nat, b: nat)
    requires a + TAG_SIZE <= b <= |wire|
    ensures wire[a..b][..TAG_SIZE] == wire[a..a + TAG_SIZE] && wire[a..b][TAG_SIZE..] == wire[a + TAG_SIZE..b]
  {
  }

  lemma MarkedOpens(wire: Bytes, i: nat, a: nat, b: nat)
    requires wire == (Mark(Nonce(0), 2) + [0, 1]) + (Mark(Nonce(1), 1) + [7])
    requires i < TWO64 && a <= b <= |wire| && Open(Nonce(i), wire[a..b]).Some?
    ensures Open(Nonce(i), wire[a..b]) == if i == 0 then Some([0, 1]) else Some([7])
    ensures i < 2
  {
    TagsOfWire(wire);
    var n := b - a - TAG_SIZE;
    var mark := wire[a..a + TAG_SIZE];
    TagAndText(wire, a, b);
    assert mark == Mark(Nonce(i), n);
    assert mark[0] == 200 && mark[1] == 200 && mark[2] == 200;
    assert wire[a] == mark[0] && wire[a + 1] == mark[1] && wire[a + 2] == mark[2];
    MarksOfWire(wire, a);
    hide Mark, Nonce;
    if a == 0 {
      SameMark(i, 0, n, 2);
    } else {
      SameMark(i, 1, n, 1);
    }
  }

  lemma OneByteLog()
    ensures Log([[7]]) == [[0, 1], [7]]
  {
    assert [[7]][1..] == [];
    assert U16(1) == [0, 1];
  }

  lemma FirstReadReturnsIt(m: Method, key: Bytes)
    ensures ReadStep(Marked(m), Reader(Some(Opening(key, 0)), OneByteWire(m, key), []), 1).1 == Ok([7])
  {
    MarkedIsLawful(m);
    hide Marked, Wire, ChunkStep;
    ChunkOfWire(Marked(m), Reader(Some(Opening(key, 0)), OneByteWire(m, key), []), [[7]]);
    assert [7][..1] == [7];
  }

  /** The hypotheses hold together, for a session that delivers something. */
  lemma HonestWireIsAuthentic(m: Method, key: Bytes)
    ensures var aead, wire := Marked(m), OneByteWire(m, key);
            && Lawful(aead) && Authentic(aead, key, Log([[7]]), wire)
            && Following(key, [[7]], wire, Reader(Some(Opening(key, 0)), wire, []), 0, [])
            && ReadStep(aead, Reader(Some(Opening(key, 0)), wire, []), 1).1 == Ok([7])
  {
    MarkedIsLawful(m);
    OneByteWireIs(m, key);
    OneByteLog();
    var aead, wire := Marked(m), OneByteWire(m, key);
    hide Mark, Nonce, Log, Open, Wire;
    forall i: nat, a: nat, b: nat
      | i < TWO64 && a <= b <= |wire| && aead.open(key, Nonce(i), wire[a..b]).Some?
      ensures i < 2 && aead.open(key, Nonce(i), wire[a..b]).value == Log([[7]])[i]
    {
      MarkedOpens(wire, i, a, b);
    }
    FirstReadReturnsIt(m, key);
  }
}
