/**
 The Shadowsocks AEAD sessions: nonces made from a counter, and the frames that
 one end seals and the other opens. The cipher itself is a parameter.
 */
module SsCipher {
  import opened Numbers

  const TWO64: nat := 0x1_0000_0000_0000_0000
  const TAG_SIZE: nat := 16

  datatype Method = Aes128Gcm | Aes256Gcm | ChaCha20IetfPoly1305 {
    /** As many bytes as the method's key has. */
    function SaltSize(): (r: nat)
      ensures r == if this == Aes128Gcm then 16 else 32
    {
      match this
      case Aes128Gcm => 16
      case Aes256Gcm => 32
      case ChaCha20IetfPoly1305 => 32
    }
  }

  /** Key derivation and the AEAD: `seal` and `open` take key, nonce and text. */
  datatype Aead = Aead(cipherMethod: Method,
                       subkey: Bytes -> Bytes,
                       seal: (Bytes, Bytes, Bytes) -> Bytes,
                       open: (Bytes, Bytes, Bytes) -> Option<Bytes>)

  /** What the source relies on: a 16-byte tag added and taken off, and opening undoes sealing. */
  ghost predicate Lawful(aead: Aead) {
    && (forall k, n, p :: |aead.seal(k, n, p)| == |p| + 16)
    && (forall k, n, p :: aead.open(k, n, aead.seal(k, n, p)) == Some(p))
    && (forall k, n, c :: aead.open(k, n, c).Some? ==> |c| == |aead.open(k, n, c).value| + 16)
  }

  // ---------- the master key ----------

  const DIGEST_SIZE: nat := 16

  /** Digest `i` of the chain: each digests the one before it and the password. */
  function Digest(md5: Bytes -> Bytes, password: Bytes, i: nat): Bytes {
    md5((if i == 0 then [] else Digest(md5, password, i - 1)) + password)
  }

  function Digests(md5: Bytes -> Bytes, password: Bytes, n: nat): Bytes {
    if n == 0 then [] else Digests(md5, password, n - 1) + Digest(md5, password, n - 1)
  }

  /** The key of `keyLen` bytes: the start of the chain of digests. */
  ghost predicate IsKey(md5: Bytes -> Bytes, password: Bytes, keyLen: nat, key: Bytes) {
    |key| == keyLen && exists n: nat :: key <= Digests(md5, password, n)
  }

  method EvpBytesToKey(md5: Bytes -> Bytes, password: Bytes, keyLen: nat) returns (key: Bytes)
    requires forall b :: |md5(b)| == DIGEST_SIZE
    ensures IsKey(md5, password, keyLen, key)
  {
    key := [];
    var prev: Bytes := [];
    ghost var n: nat := 0;
    while |key| < keyLen
      invariant key == Digests(md5, password, n)
      invariant prev == if n == 0 then [] else Digest(md5, password, n - 1)
      decreases keyLen - |key|
    {
      var input: Bytes := [];
      if prev != [] {
        input := input + prev;
      }
      input := input + password;
      assert input == (if n == 0 then [] else Digest(md5, password, n - 1)) + password;
      prev := md5(input);
      key := key + prev;
      n := n + 1;
    }
    key := key[..keyLen];
    assert key <= Digests(md5, password, n);
  }

  lemma {:induction false} DigestsPrefix(md5: Bytes -> Bytes, password: Bytes, m: nat, n: nat)
    requires m <= n
    ensures Digests(md5, password, m) <= Digests(md5, password, n)
  {
    if m < n {
      DigestsPrefix(md5, password, m, n - 1);
    }
  }

  /** The key depends on the password alone, and a shorter one starts a longer one. */
  lemma KeysAgree(md5: Bytes -> Bytes, password: Bytes, a: nat, b: nat, k: Bytes, l: Bytes)
    requires IsKey(md5, password, a, k) && IsKey(md5, password, b, l) && a <= b
    ensures k <= l
  {
    var m: nat :| k <= Digests(md5, password, m);
    var n: nat :| l <= Digests(md5, password, n);
    DigestsPrefix(md5, password, if m <= n then m else n, if m <= n then n else m);
  }

  lemma {:induction false} DigestsBlock(md5: Bytes -> Bytes, password: Bytes, n: nat, i: nat)
    requires i < n && forall b :: |md5(b)| == 16
    ensures |Digests(md5, password, n)| == 16 * n
    ensures Digests(md5, password, n)[16 * i..16 * i + 16] == Digest(md5, password, i)
  {
    if i < n - 1 {
      DigestsBlock(md5, password, n - 1, i);
    } else if n > 1 {
      DigestsBlock(md5, password, n - 1, 0);
    }
    var before := Digests(md5, password, n - 1);
    assert Digests(md5, password, n) == before + Digest(md5, password, n - 1);
  }

  /** Each 16-byte block of the key digests the block before it and the password,
      the first one the password alone. */
  lemma {:induction false} KeyBlocks(md5: Bytes -> Bytes, password: Bytes, keyLen: nat, key: Bytes, i: nat)
    requires (forall b :: |md5(b)| == 16) && IsKey(md5, password, keyLen, key) && 16 * i + 16 <= keyLen
    ensures key[16 * i..16 * i + 16]
            == md5((if i == 0 then [] else key[16 * (i - 1)..16 * i]) + password)
  {
    var n: nat :| key <= Digests(md5, password, n);
    var all := Digests(md5, password, n);
    if n > 0 {
      DigestsBlock(md5, password, n, 0);
    }
    DigestsBlock(md5, password, n, i);
    assert key[16 * i..16 * i + 16] == all[16 * i..16 * i + 16];
    if i > 0 {
      DigestsBlock(md5, password, n, i - 1);
      assert key[16 * (i - 1)..16 * i] == all[16 * (i - 1)..16 * (i - 1) + 16];
    }
  }

  // ---------- nonces ----------

  function LittleEndian(x: nat, n: nat): (r: Bytes)
    ensures |r| == n
  {
    if n == 0 then [] else [x % 0x100] + LittleEndian(x / 0x100, n - 1)
  }

  function Pow256(n: nat): nat {
    if n == 0 then 1 else 0x100 * Pow256(n - 1)
  }

  lemma {:induction false} LittleEndianInjective(a: nat, b: nat, n: nat)
    requires a < Pow256(n) && b < Pow256(n) && LittleEndian(a, n) == LittleEndian(b, n)
    ensures a == b
  {
    if n == 0 {
    } else {
      var la, lb := LittleEndian(a, n), LittleEndian(b, n);
      assert la[0] == lb[0] && la[1..] == lb[1..];
      assert la[1..] == LittleEndian(a / 0x100, n - 1);
      assert lb[1..] == LittleEndian(b / 0x100, n - 1);
      LittleEndianInjective(a / 0x100, b / 0x100, n - 1);
    }
  }

  /** The counter in the first 8 of 12 bytes. */
  function Nonce(counter: nat): (r: Bytes)
    ensures |r| == 12
  {
    LittleEndian(counter, 8) + [0, 0, 0, 0]
  }

  function LittleEndianValue(b: Bytes): nat {
    if b == [] then 0 else b[0] + 0x100 * LittleEndianValue(b[1..])
  }

  lemma {:induction false} LittleEndianReadsBack(x: nat, n: nat)
    requires x < Pow256(n)
    ensures LittleEndianValue(LittleEndian(x, n)) == x
  {
    if n > 0 {
      LittleEndianReadsBack(x / 0x100, n - 1);
      assert LittleEndian(x, n)[1..] == LittleEndian(x / 0x100, n - 1);
    }
  }

  /** The nonce's first eight bytes are the counter's base-256 digits, the least
      significant first; the other four are zero. */
  lemma NonceIs(counter: nat)
    requires counter < TWO64
    ensures var n := Nonce(counter);
            && n[0] as int + n[1] as int * 0x100 + n[2] as int * 0x1_0000 + n[3] as int * 0x100_0000
               + n[4] as int * 0x1_0000_0000 + n[5] as int * 0x100_0000_0000
               + n[6] as int * 0x1_0000_0000_0000 + n[7] as int * 0x100_0000_0000_0000 == counter
            && n[8] == 0 && n[9] == 0 && n[10] == 0 && n[11] == 0
  {
    var b := LittleEndian(counter, 8);
    assert Pow256(8) == TWO64;
    LittleEndianReadsBack(counter, 8);
    EightBytes(b);
    hide LittleEndian, LittleEndianValue, Pow256;
    assert forall i | 0 <= i < 8 :: Nonce(counter)[i] == b[i];
  }

  lemma EightBytes(b: Bytes)
    requires |b| == 8
    ensures LittleEndianValue(b)
            == b[0] as int + 0x100 * (b[1] as int + 0x100 * (b[2] as int + 0x100 * (b[3] as int
               + 0x100 * (b[4] as int + 0x100 * (b[5] as int + 0x100 * (b[6] as int + 0x100 * b[7] as int))))))
  {
    assert b[1..][1..] == b[2..] && b[2..][1..] == b[3..] && b[3..][1..] == b[4..] && b[4..][1..] == b[5..];
    assert b[5..][1..] == b[6..] && b[6..][1..] == b[7..] && b[7..][1..] == [];
    assert LittleEndianValue(b[7..]) == b[7];
    assert LittleEndianValue(b[6..]) == b[6] + 0x100 * LittleEndianValue(b[7..]);
    assert LittleEndianValue(b[5..]) == b[5] + 0x100 * LittleEndianValue(b[6..]);
    assert LittleEndianValue(b[4..]) == b[4] + 0x100 * LittleEndianValue(b[5..]);
    assert LittleEndianValue(b[3..]) == b[3] + 0x100 * LittleEndianValue(b[4..]);
    assert LittleEndianValue(b[2..]) == b[2] + 0x100 * LittleEndianValue(b[3..]);
    assert LittleEndianValue(b[1..]) == b[1] + 0x100 * LittleEndianValue(b[2..]);
  }

  lemma NonceInjective(a: nat, b: nat)
    requires a < TWO64 && b < TWO64 && Nonce(a) == Nonce(b)
    ensures a == b
  {
    assert LittleEndian(a, 8) == Nonce(a)[..8] == Nonce(b)[..8] == LittleEndian(b, 8);
    assert Pow256(8) == TWO64;
    LittleEndianInjective(a, b, 8);
  }

  /** The nonce of the seal or open number `i` of a session, counted from zero. */
  function NonceOf(i: nat): (r: Bytes)
    ensures |r| == 12
  {
    Nonce(i % TWO64)
  }

  /** The wrapping counter repeats a nonce exactly after a multiple of 2^64 uses. */
  lemma NonceRepeatsIff(i: nat, j: nat)
    requires i <= j
    ensures NonceOf(i) == NonceOf(j) <==> (j - i) % TWO64 == 0
  {
    SameResidue(i, j, TWO64);
    if NonceOf(i) == NonceOf(j) {
      NonceInjective(i % TWO64, j % TWO64);
    }
  }

  lemma CounterStep(uses: nat)
    ensures (uses % TWO64 + 1) % TWO64 == (uses + 1) % TWO64
  {
    ModSucc(uses, TWO64);
  }

  /** What seal number `uses` of a session produces. */
  function Sealed(aead: Aead, key: Bytes, uses: nat, plain: Bytes): Bytes {
    aead.seal(key, NonceOf(uses), plain)
  }

  /** A length frame and a payload frame under consecutive nonces. The length
      is cut to 16 bits. */
  function Frame(aead: Aead, key: Bytes, uses: nat, payload: Bytes): Bytes {
    Sealed(aead, key, uses, U16(|payload| % 0x1_0000)) + Sealed(aead, key, uses + 1, payload)
  }

  /** Read from outside: the first 18 bytes of a frame open under its nonce to two
      bytes that give the payload's length, the more significant first, and the
      rest opens under the next nonce to the payload. */
  lemma FrameOpens(aead: Aead, key: Bytes, uses: nat, payload: Bytes)
    requires Lawful(aead) && |payload| < 0x1_0000
    ensures var f := Frame(aead, key, uses, payload);
            && |f| == 18 + |payload| + 16
            && aead.open(key, NonceOf(uses), f[..18]).Some?
            && |aead.open(key, NonceOf(uses), f[..18]).value| == 2
            && aead.open(key, NonceOf(uses), f[..18]).value[0] as int * 0x100
               + aead.open(key, NonceOf(uses), f[..18]).value[1] == |payload|
            && aead.open(key, NonceOf(uses + 1), f[18..]) == Some(payload)
  {
    hide NonceOf;
    var length := U16(|payload| % 0x1_0000);
    var a, b := Sealed(aead, key, uses, length), Sealed(aead, key, uses + 1, payload);
    assert (a + b)[..18] == a && (a + b)[18..] == b;
  }

  class Encryptor {
    const aead: Aead
    const key: Bytes
    var nonceCounter: nat
    /** Seals made in this session. */
    ghost var uses: nat

    ghost predicate Valid()
      reads this
    {
      nonceCounter == uses % TWO64
    }

    constructor (aead: Aead, salt: Bytes)
      ensures Valid() && uses == 0 && this.aead == aead && key == aead.subkey(salt)
    {
      this.aead := aead;
      key := aead.subkey(salt);
      nonceCounter := 0;
      uses := 0;
    }

    method NextNonce() returns (nonce: Bytes)
      requires Valid()
      modifies this
      ensures Valid() && uses == old(uses) + 1 && nonce == NonceOf(old(uses))
    {
      nonce := Nonce(nonceCounter);
      CounterStep(uses);
      nonceCounter := (nonceCounter + 1) % TWO64;
      uses := uses + 1;
    }

    method Encrypt(plain: Bytes) returns (cipher: Bytes)
      requires Valid()
      modifies this
      ensures Valid() && uses == old(uses) + 1
      ensures cipher == Sealed(aead, key, old(uses), plain)
    {
      var nonce := NextNonce();
      cipher := aead.seal(key, nonce, plain);
    }

    method EncryptPayload(payload: Bytes) returns (r: Bytes)
      requires Valid()
      modifies this
      ensures Valid() && uses == old(uses) + 2
      ensures r == Frame(aead, key, old(uses), payload)
    {
      var encryptedLength := Encrypt(U16(|payload| % 0x1_0000));
      var encryptedPayload := Encrypt(payload);
      r := encryptedLength;
      r := r + encryptedPayload;
    }
  }

  class Decryptor {
    const aead: Aead
    const key: Bytes
    var nonceCounter: nat
    /** Nonces taken in this session, by accepted and by rejected texts. */
    ghost var uses: nat

    ghost predicate Valid()
      reads this
    {
      nonceCounter == uses % TWO64
    }

    constructor (aead: Aead, salt: Bytes)
      ensures Valid() && uses == 0 && this.aead == aead && key == aead.subkey(salt)
    {
      this.aead := aead;
      key := aead.subkey(salt);
      nonceCounter := 0;
      uses := 0;
    }

    method NextNonce() returns (nonce: Bytes)
      requires Valid()
      modifies this
      ensures Valid() && uses == old(uses) + 1 && nonce == NonceOf(old(uses))
    {
      nonce := Nonce(nonceCounter);
      CounterStep(uses);
      nonceCounter := (nonceCounter + 1) % TWO64;
      uses := uses + 1;
    }

    /** A text shorter than a tag is refused before a nonce is taken. */
    method Decrypt(cipher: Bytes) returns (plain: Option<Bytes>)
      requires Valid()
      modifies this
      ensures Valid()
      ensures |cipher| < TAG_SIZE ==> plain == None && uses == old(uses)
      ensures |cipher| >= TAG_SIZE ==>
                uses == old(uses) + 1 && plain == aead.open(key, NonceOf(old(uses)), cipher)
    {
      if |cipher| < TAG_SIZE {
        return None;
      }
      var nonce := NextNonce();
      plain := aead.open(key, nonce, cipher);
    }
  }
}
