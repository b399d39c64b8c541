/**
 Machine numbers as the source uses them: bytes, big-endian 16- and 32-bit
 fields, powers of two and residues. Also the project's `Option`.
 */
module Numbers {

  datatype Option<+T> = None | Some(value: T) {
    predicate IsFailure() {
      None?
    }

    function PropagateFailure<U>(): Option<U>
      requires None?
    {
      None
    }

    function Extract(): T
      requires Some?
    {
      value
    }
  }

  type Byte = x: int | 0 <= x < 0x100
  type Bytes = seq<Byte>

  function Pow2(n: nat): (r: nat)
    ensures r >= 1
  {
    if n == 0 then 1 else 2 * Pow2(n - 1)
  }

  /** `Pow2` is the power of two. */
  lemma {:induction false} Pow2Sum(a: nat, b: nat)
    ensures Pow2(0) == 1 && Pow2(1) == 2 && Pow2(a + b) == Pow2(a) * Pow2(b)
    decreases b
  {
    if b == 0 {
    } else {
      Pow2Sum(a, b - 1);
      assert Pow2(a + b) == 2 * Pow2(a + b - 1) == 2 * (Pow2(a) * Pow2(b - 1)) == Pow2(a) * (2 * Pow2(b - 1));
    }
  }

  /** `to_be_bytes` of a u16. */
  function U16(x: nat): (r: Bytes)
    requires x < 0x1_0000
    ensures |r| == 2
  {
    [x / 0x100, x % 0x100]
  }

  /** `u16::from_be_bytes` of the two bytes at `at`. */
  function ReadU16(b: Bytes, at: nat): (r: nat)
    requires at + 2 <= |b|
    ensures r < 0x1_0000
  {
    (b[at] as int) * 0x100 + b[at + 1]
  }

  /** `to_be_bytes` of a u32. */
  function U32(x: nat): (r: Bytes)
    requires x < 0x1_0000_0000
    ensures |r| == 4
  {
    U16(x / 0x1_0000) + U16(x % 0x1_0000)
  }

  /** The bytes are the base-256 digits, the most significant first. */
  lemma BigEndian(x: nat, y: nat)
    requires x < 0x1_0000 && y < 0x1_0000_0000
    ensures U16(x)[0] as int * 0x100 + U16(x)[1] == x
    ensures U32(y)[0] as int * 0x100_0000 + U32(y)[1] as int * 0x1_0000 + U32(y)[2] as int * 0x100 + U32(y)[3] == y
  {
  }

  /** A u16 field in front of `tail`. */
  function PutU16(x: nat, tail: Bytes): (r: Bytes)
    requires x < 0x1_0000
    ensures |r| == 2 + |tail|
  {
    U16(x) + tail
  }

  function PutU32(x: nat, tail: Bytes): (r: Bytes)
    requires x < 0x1_0000_0000
    ensures |r| == 4 + |tail|
  {
    PutU16(x / 0x1_0000, PutU16(x % 0x1_0000, tail))
  }

  function GetU16(d: Bytes): Option<(nat, Bytes)> {
    if |d| < 2 then None else Some((ReadU16(d, 0), d[2..]))
  }

  lemma GetPutU16(x: nat, tail: Bytes)
    requires x < 0x1_0000
    ensures GetU16(PutU16(x, tail)) == Some((x, tail))
  {
    assert PutU16(x, tail)[2..] == tail;
  }

  lemma PutGetU16(d: Bytes)
    requires |d| >= 2
    ensures ReadU16(d, 0) < 0x1_0000 && PutU16(ReadU16(d, 0), d[2..]) == d
  {
    assert U16(ReadU16(d, 0)) == d[..2];
  }

  lemma MultipleAtLeast(a: int, n: int)
    requires a >= 1 && n >= 0
    ensures a * n >= n
  {
    assert (a - 1) * n >= 0;
  }

  lemma {:induction false} ModUnique(x: int, n: nat, q: int, r: int)
    requires n >= 1 && x == q * n + r && 0 <= r < n
    ensures x % n == r && x / n == q
  {
    var q', r' := x / n, x % n;
    assert x == q' * n + r';
    assert (q' - q) * n == q' * n - q * n;
    assert (q - q') * n == q * n - q' * n;
    if q' > q {
      MultipleAtLeast(q' - q, n);
      assert false;
    } else if q' < q {
      MultipleAtLeast(q - q', n);
      assert false;
    }
  }

  /** The multiple of `n` at or just below `x`. */
  lemma {:induction false} RoundDown(x: nat, n: nat) returns (lo: nat)
    requires n >= 1
    ensures lo % n == 0 && lo <= x < lo + n
  {
    var q, r := x / n, x % n;
    assert x == q * n + r;
    lo := x - r;
    ModUnique(lo, n, q, 0);
  }

  lemma {:induction false} ModSucc(x: nat, n: nat)
    requires n >= 1
    ensures (x + 1) % n == if x % n == n - 1 then 0 else x % n + 1
  {
    assert x == (x / n) * n + x % n;
    if x % n == n - 1 {
      assert x + 1 == (x / n + 1) * n + 0;
      ModUnique(x + 1, n, x / n + 1, 0);
    } else {
      ModUnique(x + 1, n, x / n, x % n + 1);
    }
  }

  /** Two counts have the same residue exactly when their difference is a multiple of `n`. */
  lemma {:induction false} SameResidue(i: nat, j: nat, n: nat)
    requires n >= 1 && i <= j
    ensures i % n == j % n <==> (j - i) % n == 0
  {
    assert i == (i / n) * n + i % n;
    assert j == (j / n) * n + j % n;
    if i % n == j % n {
      assert j - i == (j / n - i / n) * n + 0;
      ModUnique(j - i, n, j / n - i / n, 0);
    }
    if (j - i) % n == 0 {
      assert j == (i / n + (j - i) / n) * n + i % n;
      ModUnique(j, n, i / n + (j - i) / n, i % n);
    }
  }
}
