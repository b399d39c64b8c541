/**
 The recency order of an LRU cache: a duplicate-free sequence whose first
 element is the least recently used key and whose last is the most recent.
 This is the contract assumed of the `lru` library (`get`, `put`, `pop`, `pop_lru`).
 */
module LeastRecent {

  predicate NoDup<K(==)>(s: seq<K>) {
    forall i, j :: 0 <= i < j < |s| ==> s[i] != s[j]
  }

  function Elems<K>(s: seq<K>): set<K> {
    set k | k in s
  }

  /** `pop`: the order without `k`. */
  function Remove<K(==)>(s: seq<K>, k: K): (r: seq<K>)
    ensures |r| <= |s|
  {
    if s == [] then [] else if s[0] == k then Remove(s[1..], k) else [s[0]] + Remove(s[1..], k)
  }

  /** `get` on a key: a present key becomes the most recent one. */
  function Touch<K(==)>(s: seq<K>, k: K): seq<K> {
    if k in s then Remove(s, k) + [k] else s
  }

  /** `put` on a cache of capacity `cap`: an absent key pushes out the least
      recent one when the cache is full. */
  function Put<K(==)>(cap: nat, s: seq<K>, k: K): seq<K> {
    if k in s then Remove(s, k) + [k]
    else if |s| >= cap && s != [] then s[1..] + [k]
    else s + [k]
  }

  /** The keys used more recently than `k`. */
  function After<K(==)>(s: seq<K>, k: K): set<K> {
    if s == [] then {} else if s[0] == k then Elems(s[1..]) else After(s[1..], k)
  }

  /** Removing a key leaves the others in their order; using it puts it last, and
      the keys used after it are those behind it. */
  lemma {:induction false} UsedLast<K>(a: seq<K>, k: K, b: seq<K>)
    requires NoDup(a + [k] + b)
    ensures Remove(a + [k] + b, k) == a + b
    ensures Touch(a + [k] + b, k) == a + b + [k]
    ensures forall cap :: Put(cap, a + [k] + b, k) == a + b + [k]
    ensures After(a + [k] + b, k) == Elems(b)
  {
    var s := a + [k] + b;
    assert s[|a|] == k;
    if a == [] {
      assert s[1..] == b;
      assert k !in b by {
        forall i | 0 <= i < |b| ensures b[i] != k {
          assert s[i + 1] == b[i];
        }
      }
      RemoveAbsent(b, k);
    } else {
      assert s[0] == a[0] != k;
      assert s[1..] == a[1..] + [k] + b;
      UsedLast(a[1..], k, b);
      assert a == [a[0]] + a[1..];
    }
  }

  lemma {:induction false} RemoveAbsent<K>(s: seq<K>, k: K)
    requires k !in s
    ensures Remove(s, k) == s
  {
    if s == [] {
    } else {
      RemoveAbsent(s[1..], k);
    }
  }

  lemma {:induction false} RemoveElems<K>(s: seq<K>, k: K)
    requires NoDup(s)
    ensures NoDup(Remove(s, k))
    ensures forall x :: x in Remove(s, k) <==> x in s && x != k
    ensures Elems(Remove(s, k)) == Elems(s) - {k}
    ensures |Remove(s, k)| == if k in s then |s| - 1 else |s|
  {
    if s == [] {
    } else {
      var rest := s[1..];
      assert s == [s[0]] + rest;
      RemoveElems(rest, k);
      assert s[0] !in rest;
      var r := Remove(s, k);
      if s[0] != k {
        assert r == [s[0]] + Remove(rest, k);
      }
      forall x ensures x in r <==> x in s && x != k {
        if s[0] != k { assert x in r <==> x == s[0] || x in Remove(rest, k); }
        assert x in s <==> x == s[0] || x in rest;
      }
    }
    assert Elems(Remove(s, k)) <= Elems(s) - {k};
    assert Elems(s) - {k} <= Elems(Remove(s, k));
  }

  lemma NoDupAppend<K>(s: seq<K>, k: K)
    requires NoDup(s) && k !in s
    ensures NoDup(s + [k])
    ensures Elems(s + [k]) == Elems(s) + {k}
  {
  }

  lemma TouchKeeps<K>(s: seq<K>, k: K)
    requires NoDup(s)
    ensures NoDup(Touch(s, k)) && Elems(Touch(s, k)) == Elems(s) && |Touch(s, k)| == |s|
  {
    RemoveElems(s, k);
    if k in s {
      NoDupAppend(Remove(s, k), k);
    }
  }

  lemma DropFirst<K>(s: seq<K>)
    requires NoDup(s) && s != []
    ensures NoDup(s[1..]) && Elems(s[1..]) == Elems(s) - {s[0]}
  {
    assert s == [s[0]] + s[1..];
  }

  /** Everything `put` does to the set of keys; only a full cache and an absent
      key together evict, and then the least recent key goes. */
  lemma PutElems<K>(cap: nat, s: seq<K>, k: K)
    requires NoDup(s) && |s| <= cap && cap >= 1
    ensures NoDup(Put(cap, s, k)) && |Put(cap, s, k)| <= cap
    ensures Elems(Put(cap, s, k)) ==
            if k !in s && |s| == cap then Elems(s) - {s[0]} + {k} else Elems(s) + {k}
  {
    RemoveElems(s, k);
    if k in s {
      NoDupAppend(Remove(s, k), k);
    } else if |s| == cap {
      DropFirst(s);
      NoDupAppend(s[1..], k);
    } else {
      NoDupAppend(s, k);
    }
  }

  lemma {:induction false} ElemsSize<K>(s: seq<K>)
    requires NoDup(s)
    ensures |Elems(s)| == |s|
  {
    if s == [] {
    } else {
      DropFirst(s);
      ElemsSize(s[1..]);
      assert Elems(s) == Elems(s[1..]) + {s[0]};
    }
  }

  lemma {:induction false} AfterWithin<K>(s: seq<K>, k: K)
    ensures After(s, k) <= Elems(s)
    ensures NoDup(s) ==> k !in After(s, k)
  {
    if s == [] {
    } else {
      assert s == [s[0]] + s[1..];
      AfterWithin(s[1..], k);
      assert Elems(s[1..]) <= Elems(s);
    }
  }

  lemma {:induction false} AfterAppend<K>(s: seq<K>, k: K, x: K)
    requires k in s
    ensures After(s + [x], k) == After(s, k) + {x}
  {
    assert (s + [x])[1..] == s[1..] + [x];
    if s[0] != k {
      AfterAppend(s[1..], k, x);
    }
  }

  lemma {:induction false} AfterAppendSelf<K>(s: seq<K>, k: K)
    requires k !in s
    ensures After(s + [k], k) == {}
  {
    if s == [] {
    } else {
      assert (s + [k])[1..] == s[1..] + [k];
      AfterAppendSelf(s[1..], k);
    }
  }

  lemma {:induction false} AfterRemove<K>(s: seq<K>, k: K, x: K)
    requires NoDup(s) && x != k
    ensures After(Remove(s, x), k) == After(s, k) - {x}
  {
    if s == [] {
    } else {
      DropFirst(s);
      AfterRemove(s[1..], k, x);
      RemoveElems(s[1..], x);
      var r := Remove(s, x);
      if s[0] != x {
        assert r[1..] == Remove(s[1..], x);
      } else {
        AfterWithin(s[1..], k);
      }
    }
  }

  /** Using `x` adds at most `x` to the keys more recent than `k`. */
  lemma AfterTouch<K>(s: seq<K>, k: K, x: K)
    requires NoDup(s) && k in s
    ensures After(Touch(s, x), k) <= After(s, k) + {x}
    ensures k !in After(Touch(s, x), k)
    ensures x == k ==> After(Touch(s, x), k) == {}
  {
    TouchKeeps(s, x);
    AfterWithin(Touch(s, x), k);
    RemoveElems(s, x);
    if x in s {
      if x == k {
        AfterAppendSelf(Remove(s, x), k);
      } else {
        AfterRemove(s, k, x);
        AfterAppend(Remove(s, x), k, x);
      }
    }
  }

  /** The least recent key has every other key after it. */
  lemma FirstHasAllAfter<K>(s: seq<K>)
    requires NoDup(s) && s != []
    ensures After(s, s[0]) == Elems(s) - {s[0]}
    ensures |After(s, s[0])| == |s| - 1
  {
    DropFirst(s);
    ElemsSize(s[1..]);
  }

  lemma {:induction false} SubsetSize<K>(a: set<K>, b: set<K>)
    requires a <= b
    ensures |a| <= |b|
  {
    if a != {} {
      var x :| x in a;
      SubsetSize(a - {x}, b - {x});
    }
  }

  /** A key is the least recent one exactly when all others were used after it. */
  lemma FirstIffAllAfter<K>(s: seq<K>, k: K)
    requires NoDup(s) && k in s
    ensures |After(s, k)| <= |s| - 1
    ensures s[0] == k <==> |After(s, k)| == |s| - 1
  {
    FirstHasAllAfter(s);
    if s[0] != k {
      DropFirst(s);
      AfterWithin(s[1..], k);
      ElemsSize(s[1..]);
      assert k in Elems(s[1..]);
      SubsetSize(After(s, k), Elems(s[1..]) - {k});
    }
  }

  /** Using or adding `x` keeps `k` as long as `k`, `x` and the keys used after
      `k` fit into the cache together. */
  lemma {:induction false} PutSpares<K>(cap: nat, s: seq<K>, k: K, x: K)
    requires NoDup(s) && |s| <= cap && cap >= 1 && k in s
    requires x != k ==> |After(s, k) + {x}| < cap
    ensures k in Put(cap, s, x)
    ensures After(Put(cap, s, x), k) <= After(s, k) + {x}
    ensures x == k ==> After(Put(cap, s, x), k) == {}
  {
    RemoveElems(s, x);
    AfterWithin(s, k);
    if x in s {
      AfterTouch(s, k, x);
      assert Put(cap, s, x) == Touch(s, x);
    } else if |s| >= cap {
      FirstIffAllAfter(s, k);
      assert x !in Elems(s);
      assert |After(s, k) + {x}| == |After(s, k)| + 1;
      DropFirst(s);
      AfterAppend(s[1..], k, x);
    } else {
      AfterAppend(s, k, x);
    }
  }
}
