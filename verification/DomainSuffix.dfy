/**
 What it means for a domain name to fall under a suffix pattern, and the proof
 that the textual reading ("equal, or ends with a dot and the pattern") and the
 label reading ("the pattern's labels are the domain's last labels") agree.
 */
module DomainSuffix {
  import opened Ascii

  /** `d` is `s`, or `d` ends with "." + `s`. */
  predicate UnderSuffix(d: string, s: string) {
    || d == s
    || (|s| < |d| && d[|d| - |s|..] == s && d[|d| - |s| - 1] == '.')
  }

  function Labels(d: string): (r: seq<string>)
    ensures |r| >= 1
  {
    Split(d, '.')
  }

  predicate EndsWith<T(==)>(xs: seq<T>, ys: seq<T>) {
    |ys| <= |xs| && xs[|xs| - |ys|..] == ys
  }

  lemma UnderSuffixIsLabelSuffix(d: string, s: string)
    ensures UnderSuffix(d, s) <==> EndsWith(Labels(d), Labels(s))
  {
    if UnderSuffix(d, s) && d != s {
      var a := d[..|d| - |s| - 1];
      assert d == a + ['.'] + s;
      SplitConcat(a, '.', s);
    }
    if EndsWith(Labels(d), Labels(s)) {
      var k := |Labels(d)| - |Labels(s)|;
      JoinSplit(d, '.');
      JoinSplit(s, '.');
      if k > 0 {
        var xs := Labels(d)[..k];
        assert Labels(d) == xs + Labels(s);
        JoinConcat(xs, Labels(s), '.');
        var a := Join(xs, '.');
        assert d == a + ['.'] + s;
      } else {
        assert Labels(d) == Labels(s);
      }
    }
  }

  function Reverse<T>(xs: seq<T>): (r: seq<T>)
    ensures |r| == |xs|
    ensures forall i :: 0 <= i < |xs| ==> r[i] == xs[|xs| - 1 - i]
  {
    seq(|xs|, i requires 0 <= i < |xs| => xs[|xs| - 1 - i])
  }

  /** The trie key of a name: its lower-cased labels, last label first. */
  function Path(d: string): (r: seq<string>)
    ensures |r| == |Labels(d)| >= 1
  {
    Reverse(LowerAll(Labels(d)))
  }

  lemma EndsWithReversed<T>(xs: seq<T>, ys: seq<T>)
    ensures EndsWith(xs, ys) <==> Reverse(ys) <= Reverse(xs)
  {
    var rx, ry := Reverse(xs), Reverse(ys);
    if EndsWith(xs, ys) {
      forall i | 0 <= i < |ry| ensures ry[i] == rx[i] {
        assert ys[|ys| - 1 - i] == xs[|xs| - |ys|..][|ys| - 1 - i];
      }
    }
    if ry <= rx {
      forall i | 0 <= i < |ys| ensures ys[i] == xs[|xs| - |ys| + i] {
        assert ry[|ys| - 1 - i] == rx[|ys| - 1 - i];
      }
    }
  }

  /** The trie key of a pattern is a prefix of the trie key of a name exactly
      when the lower-cased name falls under the lower-cased pattern. */
  lemma PathPrefixIsSuffix(d: string, s: string)
    ensures Path(s) <= Path(d) <==> UnderSuffix(ToLower(d), ToLower(s))
  {
    SplitLower(d, '.');
    SplitLower(s, '.');
    UnderSuffixIsLabelSuffix(ToLower(d), ToLower(s));
    EndsWithReversed(Labels(ToLower(d)), Labels(ToLower(s)));
  }

  /** Names with the same trie key are equal up to case. */
  lemma PathInjective(d: string, s: string)
    ensures Path(d) == Path(s) <==> ToLower(d) == ToLower(s)
  {
    SplitLower(d, '.');
    SplitLower(s, '.');
    if Path(d) == Path(s) {
      var xs, ys := LowerAll(Labels(d)), LowerAll(Labels(s));
      assert |Reverse(xs)| == |Reverse(ys)|;
      forall i | 0 <= i < |xs| ensures xs[i] == ys[i] {
        assert Reverse(xs)[|xs| - 1 - i] == Reverse(ys)[|xs| - 1 - i];
      }
      assert xs == ys;
      JoinSplit(ToLower(d), '.');
      JoinSplit(ToLower(s), '.');
    }
  }

  /** The name is the pattern, or ends with a dot and the pattern, in any case of letters. */
  ghost predicate FallsUnder(d: string, p: string) {
    exists k: nat :: k <= |d| && SpelledAlike(d[k..], p) && (k == 0 || d[k - 1] == '.')
  }

  lemma FallsUnderIff(d: string, p: string)
    ensures UnderSuffix(ToLower(d), ToLower(p)) <==> FallsUnder(d, p)
  {
    hide SpelledAlike;
    if |p| <= |d| {
      var k := |d| - |p|;
      LowerSlice(d, k, |d|);
      SameCaseIff(d[k..], p);
      assert d[k..] == d[k..|d|] && ToLower(d)[k..] == ToLower(d)[k..|d|];
      assert k == 0 ==> d[k..] == d && ToLower(d)[k..] == ToLower(d);
    }
    forall k: nat | k <= |d| && SpelledAlike(d[k..], p) && (k == 0 || d[k - 1] == '.')
      ensures UnderSuffix(ToLower(d), ToLower(p))
    {
      SameCaseIff(d[k..], p);
    }
  }
}
