/**
 ASCII text operations used by the DNS, rule and blocklist code: case mapping,
 trimming, and splitting on a separator together with its inverse.
 Text is restricted to ASCII, where case mapping is idempotent and keeps lengths.
 */
module Ascii {

  function LowerChar(c: char): char {
    if 'A' <= c <= 'Z' then (c as int + 32) as char else c
  }

  function UpperChar(c: char): char {
    if 'a' <= c <= 'z' then (c as int - 32) as char else c
  }

  function ToLower(s: string): (r: string)
    ensures |r| == |s|
    ensures forall i :: 0 <= i < |s| ==> r[i] == LowerChar(s[i])
  {
    seq(|s|, i requires 0 <= i < |s| => LowerChar(s[i]))
  }

  function ToUpper(s: string): (r: string)
    ensures |r| == |s|
    ensures forall i :: 0 <= i < |s| ==> r[i] == UpperChar(s[i])
  {
    seq(|s|, i requires 0 <= i < |s| => UpperChar(s[i]))
  }

  lemma ToLowerIdempotent(s: string)
    ensures ToLower(ToLower(s)) == ToLower(s)
  {
  }

  lemma ToUpperIdempotent(s: string)
    ensures ToUpper(ToUpper(s)) == ToUpper(s)
  {
  }

  const CAPITALS := "ABCDEFGHIJKLMNOPQRSTUVWXYZ"
  const SMALL := "abcdefghijklmnopqrstuvwxyz"

  /** One letter of the alphabet in its two cases. */
  predicate OneLetter(a: char, b: char) {
    exists i | 0 <= i < 26 :: (CAPITALS[i] == a && SMALL[i] == b) || (SMALL[i] == a && CAPITALS[i] == b)
  }

  /** The same text but for the case of letters. */
  predicate SpelledAlike(s: string, t: string) {
    |s| == |t| && forall i | 0 <= i < |s| :: s[i] == t[i] || OneLetter(s[i], t[i])
  }

  lemma Alphabet()
    ensures forall i | 0 <= i < 26 :: CAPITALS[i] as int == 'A' as int + i && SMALL[i] as int == 'a' as int + i
  {
  }

  lemma OneLetterIff(a: char, b: char)
    ensures OneLetter(a, b) <==>
            ('A' <= a <= 'Z' && b as int == a as int + 32) || ('a' <= a <= 'z' && b as int == a as int - 32)
  {
    if OneLetter(a, b) {
      OneLetterOnly(a, b);
    }
    OneLetterWhen(a, b);
  }

  lemma OneLetterOnly(a: char, b: char)
    requires OneLetter(a, b)
    ensures ('A' <= a <= 'Z' && b as int == a as int + 32) || ('a' <= a <= 'z' && b as int == a as int - 32)
  {
    Alphabet();
  }

  lemma OneLetterWhen(a: char, b: char)
    ensures ('A' <= a <= 'Z' && b as int == a as int + 32) || ('a' <= a <= 'z' && b as int == a as int - 32) ==>
              OneLetter(a, b)
  {
    Alphabet();
    if 'A' <= a <= 'Z' {
      assert CAPITALS[a as int - 'A' as int] == a;
    } else if 'a' <= a <= 'z' {
      assert SMALL[a as int - 'a' as int] == a;
    }
  }

  lemma SameCharIff(a: char, b: char)
    ensures LowerChar(a) == LowerChar(b) <==> a == b || OneLetter(a, b)
    ensures UpperChar(a) == UpperChar(b) <==> a == b || OneLetter(a, b)
  {
    hide OneLetter;
    OneLetterIff(a, b);
  }

  /** Two texts have the same lower case, or the same upper case, if and only if
      they differ only in the case of letters. */
  lemma SameCaseIff(s: string, t: string)
    ensures ToLower(s) == ToLower(t) <==> SpelledAlike(s, t)
    ensures ToUpper(s) == ToUpper(t) <==> SpelledAlike(s, t)
  {
    hide OneLetter, LowerChar, UpperChar;
    forall i | 0 <= i < |s| && i < |t|
      ensures LowerChar(s[i]) == LowerChar(t[i]) <==> s[i] == t[i] || OneLetter(s[i], t[i])
      ensures UpperChar(s[i]) == UpperChar(t[i]) <==> s[i] == t[i] || OneLetter(s[i], t[i])
    {
      SameCharIff(s[i], t[i]);
    }
    if ToLower(s) == ToLower(t) {
      forall i | 0 <= i < |s| ensures s[i] == t[i] || OneLetter(s[i], t[i]) {
        assert ToLower(s)[i] == ToLower(t)[i];
      }
    }
    if ToUpper(s) == ToUpper(t) {
      forall i | 0 <= i < |s| ensures s[i] == t[i] || OneLetter(s[i], t[i]) {
        assert ToUpper(s)[i] == ToUpper(t)[i];
      }
    }
  }

  lemma LowerSlice(s: string, i: nat, j: nat)
    requires i <= j <= |s|
    ensures ToLower(s)[i..j] == ToLower(s[i..j])
  {
  }

  /** Lower case is another spelling of the text, without capitals; upper case
      one without small letters. */
  lemma CaseIs(s: string)
    ensures SpelledAlike(ToLower(s), s) && forall c :: c in ToLower(s) ==> c !in CAPITALS
    ensures SpelledAlike(ToUpper(s), s) && forall c :: c in ToUpper(s) ==> c !in SMALL
  {
    Alphabet();
    ToLowerIdempotent(s);
    ToUpperIdempotent(s);
    SameCaseIff(ToLower(s), s);
    SameCaseIff(ToUpper(s), s);
    hide OneLetter;
  }

  /** Removes every trailing `c`, and nothing else. */
  function TrimEndChar(s: string, c: char): (r: string)
    ensures r <= s
    ensures r == [] || r[|r| - 1] != c
    ensures forall i | |r| <= i < |s| :: s[i] == c
  {
    if s != [] && s[|s| - 1] == c then TrimEndChar(s[..|s| - 1], c) else s
  }

  /** Space, tab, line feed, vertical tab, form feed, carriage return. */
  const WHITE_SPACE := " \t\n\U{0b}\U{0c}\r"

  predicate IsSpace(c: char) {
    c == ' ' || '\t' <= c <= '\r'
  }

  function TrimStart(s: string): (r: string)
    ensures r == [] || !IsSpace(r[0])
    ensures |r| <= |s| && r == s[|s| - |r|..]
  {
    if s != [] && IsSpace(s[0]) then TrimStart(s[1..]) else s
  }

  function TrimEnd(s: string): (r: string)
    ensures r == [] || !IsSpace(r[|r| - 1])
    ensures r <= s
  {
    if s != [] && IsSpace(s[|s| - 1]) then TrimEnd(s[..|s| - 1]) else s
  }

  function Trim(s: string): (r: string)
    ensures Trimmed(r)
    ensures forall c :: c in r ==> c in s
  {
    TrimEnd(TrimStart(s))
  }

  /** No white space at either end. */
  predicate Trimmed(s: string) {
    s == [] || (!IsSpace(s[0]) && !IsSpace(s[|s| - 1]))
  }

  lemma SpaceIs(c: char)
    ensures IsSpace(c) <==> c in WHITE_SPACE
  {
  }

  /** Trimming takes off the white space at both ends, and nothing else. */
  lemma TrimIs(s: string) returns (i: nat, j: nat)
    ensures i <= j <= |s| && Trim(s) == s[i..j]
    ensures forall k | 0 <= k < i || j <= k < |s| :: s[k] in WHITE_SPACE
    ensures i < j ==> s[i] !in WHITE_SPACE && s[j - 1] !in WHITE_SPACE
  {
    hide IsSpace, TrimStart, TrimEnd;
    var rest := TrimStart(s);
    i := |s| - |rest|;
    j := i + |Trim(s)|;
    TrimStartTakes(s);
    TrimEndTakes(rest);
    assert Trim(s) == rest[..|Trim(s)|] == s[i..j];
    forall k | 0 <= k < |s| ensures IsSpace(s[k]) <==> s[k] in WHITE_SPACE {
      SpaceIs(s[k]);
    }
    forall k | 0 <= k < i || j <= k < |s| ensures IsSpace(s[k]) {
      assert k >= j ==> s[k] == rest[k - i];
    }
    assert i < j ==> Trim(s)[0] == s[i] && Trim(s)[|Trim(s)| - 1] == s[j - 1];
  }

  lemma {:induction false} TrimStartTakes(s: string)
    ensures forall k | 0 <= k < |s| - |TrimStart(s)| :: IsSpace(s[k])
  {
    if s != [] && IsSpace(s[0]) {
      TrimStartTakes(s[1..]);
      forall k | 0 <= k < |s| - |TrimStart(s)| ensures IsSpace(s[k]) {
        assert k > 0 ==> s[k] == s[1..][k - 1];
      }
    }
  }

  lemma {:induction false} TrimEndTakes(s: string)
    ensures forall k | |TrimEnd(s)| <= k < |s| :: IsSpace(s[k])
  {
    if s != [] && IsSpace(s[|s| - 1]) {
      TrimEndTakes(s[..|s| - 1]);
    }
  }

  lemma TrimOfTrimmed(s: string)
    requires Trimmed(s)
    ensures Trim(s) == s
  {
  }

  /** The pieces of `s` between occurrences of `sep`; never empty. */
  function Split(s: string, sep: char): (r: seq<string>)
    ensures |r| >= 1
  {
    if s == [] then [[]]
    else
      var rest := Split(s[1..], sep);
      if s[0] == sep then [[]] + rest else [[s[0]] + rest[0]] + rest[1..]
  }

  function Join(parts: seq<string>, sep: char): string
    requires |parts| >= 1
  {
    if |parts| == 1 then parts[0] else parts[0] + [sep] + Join(parts[1..], sep)
  }

  lemma {:induction false} SplitPiecesHaveNoSep(s: string, sep: char)
    ensures forall p :: p in Split(s, sep) ==> sep !in p
    ensures forall p, c :: p in Split(s, sep) && c in p ==> c in s
  {
    if s == [] {
    } else {
      SplitPiecesHaveNoSep(s[1..], sep);
      var rest := Split(s[1..], sep);
      forall p | p in Split(s, sep) ensures sep !in p && forall c :: c in p ==> c in s {
        if s[0] == sep {
          if p != [] { assert p in rest; }
        } else if p == [s[0]] + rest[0] {
          assert rest[0] in rest;
        } else {
          assert p in rest;
        }
      }
    }
  }

  lemma {:induction false} SplitOfPiece(s: string, sep: char)
    requires sep !in s
    ensures Split(s, sep) == [s]
  {
    if s == [] {
    } else {
      assert s[0] in s;
      SplitOfPiece(s[1..], sep);
      assert [s[0]] + s[1..] == s;
    }
  }

  lemma {:induction false} SplitConcat(a: string, sep: char, b: string)
    ensures Split(a + [sep] + b, sep) == Split(a, sep) + Split(b, sep)
  {
    var whole := a + [sep] + b;
    if a == [] {
      assert whole[1..] == b;
    } else {
      assert whole[1..] == a[1..] + [sep] + b;
      SplitConcat(a[1..], sep, b);
    }
  }

  lemma JoinCons(p: string, rest: seq<string>, sep: char)
    requires |rest| >= 1
    ensures Join([p] + rest, sep) == p + [sep] + Join(rest, sep)
  {
    assert ([p] + rest)[1..] == rest;
  }

  lemma JoinGrowFirst(c: char, parts: seq<string>, sep: char)
    requires |parts| >= 1
    ensures Join([[c] + parts[0]] + parts[1..], sep) == [c] + Join(parts, sep)
  {
    assert ([[c] + parts[0]] + parts[1..])[1..] == parts[1..];
  }

  lemma {:induction false} JoinSplit(s: string, sep: char)
    ensures Join(Split(s, sep), sep) == s
  {
    if s == [] {
    } else {
      JoinSplit(s[1..], sep);
      var rest := Split(s[1..], sep);
      if s[0] == sep {
        JoinCons([], rest, sep);
        hide Join;
        assert [] + [sep] + s[1..] == s;
      } else {
        JoinGrowFirst(s[0], rest, sep);
        hide Join;
        assert [s[0]] + s[1..] == s;
      }
    }
  }

  lemma {:induction false} SplitJoin(parts: seq<string>, sep: char)
    requires |parts| >= 1
    requires forall p :: p in parts ==> sep !in p
    ensures Split(Join(parts, sep), sep) == parts
  {
    SplitOfPiece(parts[0], sep);
    if |parts| > 1 {
      SplitJoin(parts[1..], sep);
      SplitConcat(parts[0], sep, Join(parts[1..], sep));
      assert parts == [parts[0]] + parts[1..];
    } else {
      assert parts == [parts[0]];
    }
  }

  lemma {:induction false} JoinConcat(xs: seq<string>, ys: seq<string>, sep: char)
    requires |xs| >= 1 && |ys| >= 1
    ensures Join(xs + ys, sep) == Join(xs, sep) + [sep] + Join(ys, sep)
  {
    assert (xs + ys)[1..] == xs[1..] + ys;
    if |xs| > 1 {
      JoinConcat(xs[1..], ys, sep);
    }
  }

  /** Every piece lower-cased. */
  function LowerAll(parts: seq<string>): (r: seq<string>)
    ensures |r| == |parts|
    ensures forall i :: 0 <= i < |r| ==> r[i] == ToLower(parts[i])
  {
    seq(|parts|, i requires 0 <= i < |parts| => ToLower(parts[i]))
  }

  lemma {:induction false} SplitLower(s: string, sep: char)
    requires LowerChar(sep) == sep && UpperChar(sep) == sep
    ensures Split(ToLower(s), sep) == LowerAll(Split(s, sep))
  {
    if s == [] {
    } else {
      SplitLower(s[1..], sep);
      var low := ToLower(s);
      assert low[1..] == ToLower(s[1..]);
      assert low[0] == sep <==> s[0] == sep;
      var rest := Split(s[1..], sep);
      var lrest := Split(low[1..], sep);
      assert lrest[0] == ToLower(rest[0]);
      assert [low[0]] + lrest[0] == ToLower([s[0]] + rest[0]);
    }
  }
}
