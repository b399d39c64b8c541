/**
 The keyword scan of DOMAIN-KEYWORD rules (src/rule/matcher/domain.rs:123-209):
 the contract of an Aho-Corasick automaton built leftmost-first and ASCII
 case-insensitive, iterated with `find_iter`. Hits do not overlap, so a keyword
 that occurs in the text need not be reported.
 */
module KeywordScan {
  import opened Ascii
  import opened Numbers

  /** Pattern number `pattern` found at `start`. */
  datatype Hit = Hit(start: nat, pattern: nat)

  predicate MatchesAt(text: string, keyword: string, start: nat) {
    start + |keyword| <= |text| && ToLower(text[start..start + |keyword|]) == ToLower(keyword)
  }

  predicate IsHit(text: string, patterns: seq<string>, h: Hit) {
    h.pattern < |patterns| && MatchesAt(text, patterns[h.pattern], h.start)
  }

  /** The keyword occurs somewhere in the text. */
  ghost predicate Occurs(text: string, keyword: string) {
    exists start: nat :: MatchesAt(text, keyword, start)
  }

  /** The earliest pattern that matches at `start`, from pattern `k` on. */
  function FirstPattern(text: string, patterns: seq<string>, start: nat, k: nat): (r: Option<nat>)
    requires k <= |patterns|
    ensures r.Some? ==> IsHit(text, patterns, Hit(start, r.value)) && r.value >= k
    ensures r.Some? ==> forall j :: k <= j < r.value ==> !MatchesAt(text, patterns[j], start)
    ensures r.None? ==> forall j :: k <= j < |patterns| ==> !MatchesAt(text, patterns[j], start)
    decreases |patterns| - k
  {
    if k == |patterns| then None
    else if MatchesAt(text, patterns[k], start) then Some(k)
    else FirstPattern(text, patterns, start, k + 1)
  }

  /** No earlier-listed keyword matches at the same place. */
  predicate IsFirst(text: string, patterns: seq<string>, h: Hit)
    requires h.pattern < |patterns|
  {
    forall j :: 0 <= j < h.pattern ==> !MatchesAt(text, patterns[j], h.start)
  }

  /** The leftmost hit starting at `at` or later; at one start the earliest pattern wins. */
  function Find(text: string, patterns: seq<string>, at: nat): (r: Option<Hit>)
    ensures r.Some? ==> IsHit(text, patterns, r.value) && at <= r.value.start
    ensures r.Some? ==> IsFirst(text, patterns, r.value)
    ensures forall h: Hit :: IsHit(text, patterns, h) && h.start >= at ==>
              r.Some? && r.value.start <= h.start
    decreases |text| + 1 - at
  {
    if at > |text| then None
    else
      var first := FirstPattern(text, patterns, at, 0);
      if first.Some? then Some(Hit(at, first.value)) else Find(text, patterns, at + 1)
  }

  function End(patterns: seq<string>, h: Hit): nat
    requires h.pattern < |patterns|
  {
    h.start + |patterns[h.pattern]|
  }

  /** `find_iter`: each search resumes at the end of the last hit; an empty hit
      right there is skipped by searching one place further. */
  function Scan(text: string, patterns: seq<string>, at: nat, resumed: bool): seq<Hit>
    requires at <= |text|
    decreases |text| - at, if resumed then 0 else 1
  {
    var h := Find(text, patterns, at);
    if h.None? then []
    else if resumed && h.value.start == at && patterns[h.value.pattern] == [] then
      var h' := Find(text, patterns, at + 1);
      if h'.None? then [] else [h'.value] + Scan(text, patterns, End(patterns, h'.value), true)
    else [h.value] + Scan(text, patterns, End(patterns, h.value), true)
  }

  function AllHits(text: string, patterns: seq<string>): seq<Hit> {
    Scan(text, patterns, 0, false)
  }

  lemma {:induction false} ScanSound(text: string, patterns: seq<string>, at: nat, resumed: bool)
    requires at <= |text|
    ensures forall h :: h in Scan(text, patterns, at, resumed) ==> IsHit(text, patterns, h)
    decreases |text| - at, if resumed then 0 else 1
  {
    var h := Find(text, patterns, at);
    if h.Some? {
      if resumed && h.value.start == at && patterns[h.value.pattern] == [] {
        var h' := Find(text, patterns, at + 1);
        if h'.Some? {
          ScanSound(text, patterns, End(patterns, h'.value), true);
        }
      } else {
        ScanSound(text, patterns, End(patterns, h.value), true);
      }
    }
  }

  /** The scan reports something exactly when some keyword occurs, whatever is
      lost to overlaps and whether or not a keyword is empty. */
  lemma ScanReportsIffOccurs(text: string, patterns: seq<string>)
    ensures AllHits(text, patterns) != [] <==> exists k :: 0 <= k < |patterns| && Occurs(text, patterns[k])
  {
    if AllHits(text, patterns) != [] {
      ScanSound(text, patterns, 0, false);
      var h := AllHits(text, patterns)[0];
      assert IsHit(text, patterns, h);
      assert Occurs(text, patterns[h.pattern]);
    }
    if k :| 0 <= k < |patterns| && Occurs(text, patterns[k]) {
      var start: nat :| MatchesAt(text, patterns[k], start);
      assert IsHit(text, patterns, Hit(start, k));
    }
  }

  /** No two different keyword occurrences share a character. */
  ghost predicate NoOverlap(text: string, patterns: seq<string>) {
    forall g: Hit, h: Hit :: IsHit(text, patterns, g) && IsHit(text, patterns, h) && g != h ==>
      End(patterns, g) <= h.start || End(patterns, h) <= g.start
  }

  /** Without overlaps and empty keywords every occurrence is reported. */
  lemma {:induction false} ScanReportsAll(text: string, patterns: seq<string>, at: nat, resumed: bool, h: Hit)
    requires at <= |text| && (forall k :: 0 <= k < |patterns| ==> patterns[k] != [])
    requires NoOverlap(text, patterns) && IsHit(text, patterns, h) && h.start >= at
    ensures h in Scan(text, patterns, at, resumed)
    decreases |text| - at
  {
    var found := Find(text, patterns, at).value;
    if h != found {
      assert End(patterns, found) <= h.start;
      ScanReportsAll(text, patterns, End(patterns, found), true, h);
    }
  }

  // ----- what hides an occurrence of a keyword -----

  /** An occurrence that nothing hides: no earlier-listed keyword matches at its
      start, and no unhidden occurrence that starts before it reaches over its
      start. An empty occurrence is also hidden by one that ends right there. */
  ghost predicate Unhidden(text: string, patterns: seq<string>, h: Hit): (r: bool)
    ensures r ==> IsHit(text, patterns, h)
    decreases h.start
  {
    && IsHit(text, patterns, h)
    && IsFirst(text, patterns, h)
    && (forall g: Hit :: g.start < h.start && Unhidden(text, patterns, g) ==> Clears(patterns, g, h))
  }

  predicate Clears(patterns: seq<string>, g: Hit, h: Hit)
    requires g.pattern < |patterns| && h.pattern < |patterns|
  {
    End(patterns, g) <= h.start && (patterns[h.pattern] == [] ==> End(patterns, g) < h.start)
  }

  /** Where the scan stands: everything unhidden before `from` ends by `at`, the
      place to search from; `from` is past `at` only behind an empty hit there. */
  ghost predicate Reached(text: string, patterns: seq<string>, at: nat, resumed: bool, from: nat) {
    && at <= |text|
    && (forall g :: Unhidden(text, patterns, g) && g.start < from ==> End(patterns, g) <= at)
    && (!resumed ==> at == 0 && from == 0)
    && (resumed && from == at ==> exists g :: Unhidden(text, patterns, g) && g.start < at && End(patterns, g) == at)
    && (from != at ==>
          from == at + 1 && resumed
          && exists g :: Unhidden(text, patterns, g) && g.start == at && patterns[g.pattern] == [])
  }

  /** At one place at most one occurrence is first. */
  lemma SameStart(text: string, patterns: seq<string>, g: Hit, h: Hit)
    requires IsHit(text, patterns, g) && IsHit(text, patterns, h) && g.start == h.start
    requires IsFirst(text, patterns, g) && IsFirst(text, patterns, h)
    ensures g == h
  {
  }

  /** The hit that the scan takes next: the second search skips an empty hit. */
  function Next(text: string, patterns: seq<string>, at: nat, resumed: bool): (r: Option<Hit>)
    ensures r.Some? ==> IsHit(text, patterns, r.value)
  {
    var h := Find(text, patterns, at);
    if resumed && h.Some? && h.value.start == at && patterns[h.value.pattern] == [] then Find(text, patterns, at + 1)
    else h
  }

  /** The next hit is the first unhidden one from `from` on. */
  lemma NextIsUnhidden(text: string, patterns: seq<string>, at: nat, resumed: bool, from: nat)
    requires Reached(text, patterns, at, resumed, from)
    ensures var next := Next(text, patterns, at, resumed);
            && (next.Some? ==> Unhidden(text, patterns, next.value) && next.value.start >= from)
            && (forall h :: Unhidden(text, patterns, h) && h.start >= from ==>
                  next.Some? && next.value.start <= h.start)
  {
    hide MatchesAt;
    var found, next := Find(text, patterns, at), Next(text, patterns, at, resumed);
    forall h: Hit | Unhidden(text, patterns, h) && h.start >= from ensures next.Some? && next.value.start <= h.start {
      if h.start == at {
        SameStart(text, patterns, found.value, h);
      }
    }
    if next.Some? {
      if from != at {
        var g :| Unhidden(text, patterns, g) && g.start == at && patterns[g.pattern] == [];
        SameStart(text, patterns, found.value, g);
      }
      forall g: Hit | g.start < next.value.start && Unhidden(text, patterns, g)
        ensures Clears(patterns, g, next.value)
      {
        assert g.start < from;
      }
    }
  }

  /** After a hit the scan stands at its end. */
  lemma ReachedAfter(text: string, patterns: seq<string>, h: Hit)
    requires Unhidden(text, patterns, h)
    ensures var at := End(patterns, h);
            Reached(text, patterns, at, true, if patterns[h.pattern] == [] then at + 1 else at)
  {
    hide MatchesAt;
    var at := End(patterns, h);
    var from := if patterns[h.pattern] == [] then at + 1 else at;
    assert at <= |text| by {
      EndsInText(text, patterns, h);
    }
    forall g: Hit | Unhidden(text, patterns, g) && g.start < from ensures End(patterns, g) <= at {
      if g.start == h.start {
        SameStart(text, patterns, g, h);
      } else if g.start < h.start {
        assert Clears(patterns, g, h);
      }
    }
  }

  lemma EndsInText(text: string, patterns: seq<string>, h: Hit)
    requires IsHit(text, patterns, h)
    ensures End(patterns, h) <= |text|
  {
  }

  lemma {:induction false} ScanIsUnhidden(text: string, patterns: seq<string>, at: nat, resumed: bool, from: nat,
                                          h: Hit)
    requires Reached(text, patterns, at, resumed, from)
    ensures h in Scan(text, patterns, at, resumed) <==> Unhidden(text, patterns, h) && h.start >= from
    decreases |text| - at, if resumed then 0 else 1
  {
    var next := Next(text, patterns, at, resumed);
    NextIsUnhidden(text, patterns, at, resumed, from);
    hide Unhidden, Reached, MatchesAt, Clears;
    if next.Some? {
      var n := next.value;
      var end := End(patterns, n);
      var beyond := if patterns[n.pattern] == [] then end + 1 else end;
      EndsInText(text, patterns, n);
      ReachedAfter(text, patterns, n);
      ScanIsUnhidden(text, patterns, end, true, beyond, h);
      assert Scan(text, patterns, at, resumed) == [n] + Scan(text, patterns, end, true);
      if Unhidden(text, patterns, h) && h.start >= from {
        UnhiddenAfter(text, patterns, n, h);
      }
    } else {
      assert Scan(text, patterns, at, resumed) == [];
    }
  }

  lemma UnhiddenAfter(text: string, patterns: seq<string>, n: Hit, h: Hit)
    requires Unhidden(text, patterns, n) && Unhidden(text, patterns, h) && n.start <= h.start
    ensures h == n || h.start >= if patterns[n.pattern] == [] then End(patterns, n) + 1 else End(patterns, n)
  {
    hide MatchesAt;
    if h.start == n.start {
      SameStart(text, patterns, n, h);
    } else {
      assert Clears(patterns, n, h);
    }
  }

  /** The scan reports exactly the unhidden occurrences, empty keywords included. */
  lemma AllHitsAreUnhidden(text: string, patterns: seq<string>, h: Hit)
    ensures h in AllHits(text, patterns) <==> Unhidden(text, patterns, h)
  {
    ScanIsUnhidden(text, patterns, 0, false, 0, h);
  }

  // ----- keywords that cannot overlap in any text -----

  /** `p` and, `k` places further, `q` can stand in one text, sharing a character. */
  predicate CanOverlap(p: string, q: string, k: nat) {
    k < |p| && forall j :: k <= j < |p| && j - k < |q| ==> p[j] == q[j - k]
  }

  /** No keyword contains another or begins where another, or itself, has not ended. */
  predicate KeywordsApart(patterns: seq<string>) {
    forall i, j, k | 0 <= i < |patterns| && 0 <= j < |patterns| && 0 <= k < |patterns[i]| && (k == 0 ==> i != j) ::
      !CanOverlap(ToLower(patterns[i]), ToLower(patterns[j]), k)
  }

  /** No keyword can begin before an earlier-listed one and reach into it. A
      longer keyword may stand above one that it contains. */
  predicate NoneReachesBack(patterns: seq<string>) {
    forall i, j, k | 0 <= i < j < |patterns| && 1 <= k < |patterns[j]| ::
      !CanOverlap(ToLower(patterns[j]), ToLower(patterns[i]), k)
  }

  lemma ApartNoneReachesBack(patterns: seq<string>)
    requires KeywordsApart(patterns)
    ensures NoneReachesBack(patterns)
  {
    hide CanOverlap, ToLower;
  }

  /** In this text no later-listed keyword reaches into pattern `n` from before. */
  ghost predicate NotReached(text: string, patterns: seq<string>, n: nat) {
    forall g: Hit, h: Hit ::
      IsHit(text, patterns, g) && IsHit(text, patterns, h) && h.pattern == n < g.pattern && g.start < h.start ==>
        End(patterns, g) <= h.start
  }

  lemma NoneReaches(text: string, patterns: seq<string>, n: nat)
    requires NoneReachesBack(patterns)
    ensures NotReached(text, patterns, n)
  {
    hide MatchesAt, CanOverlap, ToLower;
    forall g: Hit, h: Hit
      | IsHit(text, patterns, g) && IsHit(text, patterns, h) && h.pattern == n < g.pattern && g.start < h.start
      ensures End(patterns, g) <= h.start
    {
      if h.start < End(patterns, g) {
        OverlapAgrees(text, patterns[g.pattern], patterns[n], g.start, h.start - g.start);
      }
    }
  }

  /** The leftmost occurrence of a keyword. */
  lemma LeastOccurrence(text: string, keyword: string) returns (start: nat)
    requires Occurs(text, keyword)
    ensures MatchesAt(text, keyword, start)
    ensures forall s: nat :: s < start ==> !MatchesAt(text, keyword, s)
    ensures keyword == [] ==> start == 0
  {
    var some: nat :| MatchesAt(text, keyword, some);
    start := 0;
    while !MatchesAt(text, keyword, start)
      invariant start <= some
      invariant forall s: nat :: s < start ==> !MatchesAt(text, keyword, s)
      decreases some - start
    {
      start := start + 1;
    }
    if keyword == [] {
      assert MatchesAt(text, keyword, 0);
    }
  }

  /** Where no earlier-listed keyword occurs and no later-listed one reaches over
      from before, a keyword that occurs is reported: its leftmost occurrence is unhidden. */
  lemma FirstListedIsUnhidden(text: string, patterns: seq<string>, n: nat) returns (h: Hit)
    requires n < |patterns| && Occurs(text, patterns[n])
    requires forall i :: 0 <= i < n ==> !Occurs(text, patterns[i])
    requires NotReached(text, patterns, n)
    ensures Unhidden(text, patterns, h) && h.pattern == n
  {
    hide MatchesAt;
    var start := LeastOccurrence(text, patterns[n]);
    h := Hit(start, n);
    forall i | 0 <= i < n ensures !MatchesAt(text, patterns[i], h.start) {
      assert !Occurs(text, patterns[i]);
    }
    forall g: Hit | g.start < h.start && Unhidden(text, patterns, g) ensures Clears(patterns, g, h) {
      assert IsHit(text, patterns, g) && Occurs(text, patterns[g.pattern]);
    }
  }

  lemma OverlapAgrees(text: string, p: string, q: string, start: nat, k: nat)
    requires MatchesAt(text, p, start) && MatchesAt(text, q, start + k) && k < |p|
    ensures CanOverlap(ToLower(p), ToLower(q), k)
  {
    var x, y := ToLower(text[start..start + |p|]), ToLower(text[start + k..start + k + |q|]);
    forall j | k <= j < |p| && j - k < |q| ensures ToLower(p)[j] == ToLower(q)[j - k] {
      assert x[j] == LowerChar(text[start + j]) && y[j - k] == LowerChar(text[start + j]);
    }
  }

  /** A text in which the two stand. */
  lemma OverlapStands(p: string, q: string, k: nat) returns (text: string)
    requires CanOverlap(ToLower(p), ToLower(q), k)
    ensures MatchesAt(text, p, 0) && MatchesAt(text, q, k)
  {
    var low, low' := ToLower(p), ToLower(q);
    text := low + if k + |q| > |p| then low'[|p| - k..] else [];
    ToLowerIdempotent(p);
    ToLowerIdempotent(q);
    assert text[..|p|] == low;
    assert text[k..k + |q|] == low';
  }

  /** Non-empty keywords never overlap, in no text whatever, if and only if they are apart. */
  lemma ApartIff(patterns: seq<string>)
    requires forall k :: 0 <= k < |patterns| ==> patterns[k] != []
    ensures KeywordsApart(patterns) <==> forall text :: NoOverlap(text, patterns)
  {
    if KeywordsApart(patterns) {
      forall text, g: Hit, h: Hit | IsHit(text, patterns, g) && IsHit(text, patterns, h) && g != h
        ensures End(patterns, g) <= h.start || End(patterns, h) <= g.start
      {
        var first, second := if g.start <= h.start then g else h, if g.start <= h.start then h else g;
        var k := second.start - first.start;
        if k < |patterns[first.pattern]| {
          OverlapAgrees(text, patterns[first.pattern], patterns[second.pattern], first.start, k);
        }
      }
    } else {
      var i, j, k :| 0 <= i < |patterns| && 0 <= j < |patterns| && 0 <= k < |patterns[i]| && (k == 0 ==> i != j)
                     && CanOverlap(ToLower(patterns[i]), ToLower(patterns[j]), k);
      var text := OverlapStands(patterns[i], patterns[j], k);
      assert IsHit(text, patterns, Hit(0, i)) && IsHit(text, patterns, Hit(k, j));
      assert !NoOverlap(text, patterns);
    }
  }

  /** No later-listed keyword reaches into an earlier-listed one, in no text
      whatever, if and only if none can begin before and reach into it. */
  lemma NoneReachesBackIff(patterns: seq<string>)
    ensures NoneReachesBack(patterns) <==> forall text, n :: NotReached(text, patterns, n)
  {
    if NoneReachesBack(patterns) {
      forall text, n ensures NotReached(text, patterns, n) {
        NoneReaches(text, patterns, n);
      }
    } else {
      var i, j, k :| 0 <= i < j < |patterns| && 1 <= k < |patterns[j]|
                     && CanOverlap(ToLower(patterns[j]), ToLower(patterns[i]), k);
      var text := OverlapStands(patterns[j], patterns[i], k);
      assert IsHit(text, patterns, Hit(0, j)) && IsHit(text, patterns, Hit(k, i));
      assert !NotReached(text, patterns, i);
    }
  }
}
