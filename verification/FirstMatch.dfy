/**
 "Rules are matched in their original order. First match wins"
 (src/rule/engine.rs:11) as a scan over the rule list, and exactly when the
 indexed engine agrees with it. The indexes lose rules: equal patterns overwrite
 each other, only the longest suffix is reported, and keyword hits do not overlap.
 */
module FirstMatch {
  import opened Ascii
  import opened DomainMatcher
  import opened DomainSuffix
  import opened KeywordScan
  import opened Numbers
  import opened RuleEngine
  import opened RuleTypes
  import opened SuffixTrie

  /** In a scan a FINAL rule applies to everything. */
  ghost predicate Applies(rule: Rule, geo: Geo, req: Request) {
    rule.kind.Final? || Matches(rule, geo, req)
  }

  /** The first rule from position `i` on that applies; DIRECT when none does. */
  ghost function ScanFrom(rules: seq<Rule>, geo: Geo, req: Request, i: nat): (r: MatchResult)
    requires i <= |rules|
    ensures i <= r.ruleIndex <= |rules|
    ensures forall j :: i <= j < r.ruleIndex ==> !Applies(rules[j], geo, req)
    ensures r == if r.ruleIndex == |rules| then MatchResult(Direct, |rules|, ByFinal)
                 else MatchResult(rules[r.ruleIndex].policy, r.ruleIndex,
                                  if rules[r.ruleIndex].kind.Final? then ByFinal else ByRule(rules[r.ruleIndex]))
    ensures r.ruleIndex < |rules| ==> Applies(rules[r.ruleIndex], geo, req)
    decreases |rules| - i
  {
    if i == |rules| then MatchResult(Direct, i, ByFinal)
    else if rules[i].kind.Final? then MatchResult(rules[i].policy, i, ByFinal)
    else if Matches(rules[i], geo, req) then MatchResult(rules[i].policy, i, ByRule(rules[i]))
    else ScanFrom(rules, geo, req, i + 1)
  }

  ghost function ScanResult(rules: seq<Rule>, geo: Geo, req: Request): MatchResult {
    ScanFrom(rules, geo, req, 0)
  }

  /** `q` is a strictly more specific suffix than `p`. */
  predicate MoreSpecific(q: string, p: string) {
    UnderSuffix(ToLower(q), ToLower(p)) && ToLower(q) != ToLower(p)
  }

  /** No later rule has the same pattern, and no more specific pattern covers the domain. */
  ghost predicate SuffixVisible(rules: seq<Rule>, d: string, w: nat)
    requires w < |rules| && rules[w].kind.DomainSuffix?
  {
    var p := rules[w].kind.suffix;
    && (forall i :: w < i < |rules| && rules[i].kind.DomainSuffix? ==> ToLower(rules[i].kind.suffix) != ToLower(p))
    && (forall i :: 0 <= i < |rules| && rules[i].kind.DomainSuffix? && MoreSpecific(rules[i].kind.suffix, p) ==>
          !UnderSuffix(ToLower(d), ToLower(rules[i].kind.suffix)))
  }

  /** The keyword of rule `w` occurs in the domain where nothing hides it: no
      keyword of an earlier rule matches at the same place, and no unhidden
      occurrence that starts before reaches over it. */
  ghost predicate KeywordVisible(rules: seq<Rule>, d: string, w: nat) {
    var keywords := Collect(rules, PickKeyword);
    exists h :: Unhidden(ToLower(d), Patterns(keywords), h) && keywords[h.pattern].1 == w
  }

  /** The matching rule at `w` is still visible through the index of its kind. */
  ghost predicate Visible(rules: seq<Rule>, req: Request, w: nat)
    requires w < |rules| && (req.domain.None? ==> IsIpRule(rules[w]))
  {
    match rules[w].kind
    case Domain(p) =>
      forall i :: w < i < |rules| && rules[i].kind.Domain? ==> ToLower(rules[i].kind.domain) != ToLower(p)
    case DomainSuffix(_) => SuffixVisible(rules, req.domain.value, w)
    case DomainKeyword(_) => KeywordVisible(rules, req.domain.value, w)
    case _ => true
  }

  lemma DomainCandidateIff(rules: seq<Rule>, geo: Geo, req: Request, w: nat)
    requires w < |rules| && rules[w].kind.Domain? && Matches(rules[w], geo, req)
    ensures Candidate(rules, geo, req, w) <==> Visible(rules, req, w)
  {
    OnlyOwnIndex(rules, req, w);
    LastIndexMeaning(rules, PickDomain, ToLower);
    var key := ToLower(req.domain.value);
    var index := ExactIndex(Collect(rules, PickDomain));
    assert PickDomain(rules[w].kind) == Some(rules[w].kind.domain);
    if index[key] != w {
      assert ToLower(rules[index[key]].kind.domain) == key;
    }
  }

  /** Each index reports only rules of its own kind. */
  lemma {:induction false} OnlyOwnIndex(rules: seq<Rule>, req: Request, w: nat)
    requires w < |rules| && req.domain.Some?
    ensures var d := req.domain.value;
            var exact := ExactIndex(Collect(rules, PickDomain));
            && (ToLower(d) in exact && exact[ToLower(d)] == w ==> rules[w].kind.Domain?)
            && (LongestMatch(SuffixIndex(Collect(rules, PickSuffix)), Path(d)) == Some(w) ==>
                  rules[w].kind.DomainSuffix?)
            && (KeywordReported(Collect(rules, PickKeyword), d, w) ==> rules[w].kind.DomainKeyword?)
  {
    var d := req.domain.value;
    LastIndexMeaning(rules, PickDomain, ToLower);
    LastIndexMeaning(rules, PickSuffix, Path);
    NoEmptySuffixKey(rules);
    LongestMatchMeaning(SuffixIndex(Collect(rules, PickSuffix)), Path(d));
    var keywords := Collect(rules, PickKeyword);
    CollectMeaning(rules, PickKeyword);
    if KeywordReported(keywords, d, w) {
      var h :| h in AllHits(ToLower(d), Patterns(keywords)) && h.pattern < |keywords| && keywords[h.pattern].1 == w;
      assert keywords[h.pattern] in keywords && keywords[h.pattern] == (keywords[h.pattern].0, w);
    }
  }

  /** The suffix index answers with the last rule of the most specific pattern
      that covers the domain. */
  lemma {:induction false} SuffixAnswer(rules: seq<Rule>, d: string, w: nat) returns (top: nat)
    requires w < |rules| && rules[w].kind.DomainSuffix? && UnderSuffix(ToLower(d), ToLower(rules[w].kind.suffix))
    ensures LongestMatch(SuffixIndex(Collect(rules, PickSuffix)), Path(d)) == Some(top)
    ensures top < |rules| && rules[top].kind.DomainSuffix?
    ensures UnderSuffix(ToLower(d), ToLower(rules[top].kind.suffix))
    ensures forall i :: 0 <= i < |rules| && CoveringSuffix(rules[i], d) ==>
              var q := ToLower(rules[i].kind.suffix);
              UnderSuffix(ToLower(rules[top].kind.suffix), q) && (ToLower(rules[top].kind.suffix) == q ==> i <= top)
  {
    hide LastIndex, Collect, Path, LongestMatch, UnderSuffix, ToLower;
    var index := SuffixIndex(Collect(rules, PickSuffix));
    LastIndexMeaning(rules, PickSuffix, Path);
    NoEmptySuffixKey(rules);
    LongestMatchMeaning(index, Path(d));
    assert PickSuffix(rules[w].kind) == Some(rules[w].kind.suffix);
    PathPrefixIsSuffix(d, rules[w].kind.suffix);
    assert Path(rules[w].kind.suffix) in index;
    var longest :| longest in index && longest <= Path(d) && LongestMatch(index, Path(d)).value == index[longest]
                   && forall r :: r in index && r <= Path(d) ==> |r| <= |longest|;
    top := index[longest];
    var t := rules[top].kind.suffix;
    assert Path(t) == longest;
    PathPrefixIsSuffix(d, t);
    forall i | 0 <= i < |rules| && CoveringSuffix(rules[i], d)
      ensures UnderSuffix(ToLower(t), ToLower(rules[i].kind.suffix))
      ensures ToLower(t) == ToLower(rules[i].kind.suffix) ==> i <= top
    {
      var q := rules[i].kind.suffix;
      assert PickSuffix(rules[i].kind) == Some(q);
      PathPrefixIsSuffix(d, q);
      assert Path(q) in index;
      ShorterCover(d, t, q);
    }
  }

  /** Of two patterns that cover a name, the one with the longer path is under the other. */
  lemma ShorterCover(d: string, t: string, q: string)
    requires Path(t) <= Path(d) && Path(q) <= Path(d) && |Path(q)| <= |Path(t)|
    ensures UnderSuffix(ToLower(t), ToLower(q))
    ensures ToLower(t) == ToLower(q) <==> Path(t) == Path(q)
  {
    hide Path;
    assert Path(q) <= Path(t);
    PathPrefixIsSuffix(t, q);
    PathInjective(t, q);
  }

  predicate CoveringSuffix(rule: Rule, d: string) {
    rule.kind.DomainSuffix? && UnderSuffix(ToLower(d), ToLower(rule.kind.suffix))
  }

  /** The suffix index's answer is `w` exactly when `w` is visible. */
  lemma {:induction false} AnswerIsVisible(rules: seq<Rule>, d: string, w: nat, top: nat)
    requires w < |rules| && top < |rules| && CoveringSuffix(rules[w], d) && CoveringSuffix(rules[top], d)
    requires forall i :: 0 <= i < |rules| && CoveringSuffix(rules[i], d) ==>
               var q, t := ToLower(rules[i].kind.suffix), ToLower(rules[top].kind.suffix);
               UnderSuffix(t, q) && (t == q ==> i <= top)
    ensures top == w <==> SuffixVisible(rules, d, w)
  {
    var p, t := rules[w].kind.suffix, rules[top].kind.suffix;
    if top == w {
      forall i | 0 <= i < |rules| && CoveringSuffix(rules[i], d) ensures !MoreSpecific(rules[i].kind.suffix, p) {
        if MoreSpecific(rules[i].kind.suffix, p) {
          MutualSuffix(ToLower(p), ToLower(rules[i].kind.suffix));
        }
      }
      hide UnderSuffix, ToLower;
    } else {
      hide UnderSuffix, ToLower;
      assert ToLower(t) != ToLower(p) ==> MoreSpecific(t, p);
    }
  }

  lemma MutualSuffix(a: string, b: string)
    requires UnderSuffix(a, b) && UnderSuffix(b, a)
    ensures a == b
  {
  }

  lemma {:induction false} SuffixCandidateIff(rules: seq<Rule>, geo: Geo, req: Request, w: nat)
    requires w < |rules| && rules[w].kind.DomainSuffix? && Matches(rules[w], geo, req)
    ensures Candidate(rules, geo, req, w) <==> Visible(rules, req, w)
  {
    hide LastIndex, Collect, Path, LongestMatch, KeywordReported, UnderSuffix, ToLower, SuffixVisible, MoreSpecific;
    OnlyOwnIndex(rules, req, w);
    var top := SuffixAnswer(rules, req.domain.value, w);
    AnswerIsVisible(rules, req.domain.value, w, top);
  }

  lemma KeywordCandidateIff(rules: seq<Rule>, geo: Geo, req: Request, w: nat)
    requires w < |rules| && rules[w].kind.DomainKeyword? && Matches(rules[w], geo, req)
    ensures Candidate(rules, geo, req, w) <==> Visible(rules, req, w)
  {
    OnlyOwnIndex(rules, req, w);
    ReportedIffUnhidden(Collect(rules, PickKeyword), req.domain.value, w);
    hide KeywordReported, Unhidden, Collect, LastIndex, LongestMatch, Path;
  }

  lemma {:induction false} ReportedIffUnhidden(keywords: Pairs, d: string, w: nat)
    ensures KeywordReported(keywords, d, w)
            <==> exists h :: Unhidden(ToLower(d), Patterns(keywords), h) && keywords[h.pattern].1 == w
  {
    var text, patterns := ToLower(d), Patterns(keywords);
    forall h ensures h in AllHits(text, patterns) <==> Unhidden(text, patterns, h) {
      AllHitsAreUnhidden(text, patterns, h);
    }
    hide Unhidden, AllHits;
  }

  /** A matching rule reaches the engine's candidates exactly when it is visible. */
  lemma CandidateIffVisible(rules: seq<Rule>, geo: Geo, req: Request, w: nat)
    requires w < |rules| && Matches(rules[w], geo, req)
    ensures Candidate(rules, geo, req, w) <==> Visible(rules, req, w)
  {
    match rules[w].kind
    case Domain(_) => DomainCandidateIff(rules, geo, req, w);
    case DomainSuffix(_) => SuffixCandidateIff(rules, geo, req, w);
    case DomainKeyword(_) => KeywordCandidateIff(rules, geo, req, w);
    case _ =>
  }

  /** If some rule matches, the indexes yield some candidate. */
  lemma SomeCandidate(rules: seq<Rule>, geo: Geo, req: Request, i: nat) returns (c: nat)
    requires i < |rules| && Matches(rules[i], geo, req)
    ensures Candidate(rules, geo, req, c)
  {
    match rules[i].kind
    case Domain(p) =>
      LastIndexMeaning(rules, PickDomain, ToLower);
      assert PickDomain(rules[i].kind) == Some(p);
      c := ExactIndex(Collect(rules, PickDomain))[ToLower(p)];
    case DomainSuffix(p) =>
      var d := req.domain.value;
      var index := SuffixIndex(Collect(rules, PickSuffix));
      LastIndexMeaning(rules, PickSuffix, Path);
      NoEmptySuffixKey(rules);
      assert PickSuffix(rules[i].kind) == Some(p);
      PathPrefixIsSuffix(d, p);
      LongestMatchMeaning(index, Path(d));
      assert Path(p) in index;
      c := LongestMatch(index, Path(d)).value;
    case DomainKeyword(k) =>
      var text := ToLower(req.domain.value);
      var keywords := Collect(rules, PickKeyword);
      CollectMeaning(rules, PickKeyword);
      assert (k, i) in keywords;
      var n :| 0 <= n < |keywords| && keywords[n] == (k, i);
      assert Patterns(keywords)[n] == k;
      ScanReportsIffOccurs(text, Patterns(keywords));
      ScanSound(text, Patterns(keywords), 0, false);
      var h := AllHits(text, Patterns(keywords))[0];
      assert IsHit(text, Patterns(keywords), h);
      c := keywords[h.pattern].1;
      assert KeywordReported(keywords, req.domain.value, c);
    case _ =>
      c := i;
  }

  /** With no side condition on the rules: an answer that is not FINAL names a
      rule that matches and is eligible, and FINAL is answered exactly when no
      rule matches. */
  lemma SoundAndComplete(rules: seq<Rule>, geo: Geo, req: Request)
    ensures var r := EngineResult(rules, geo, req);
            && (r.matched.ByRule? ==>
                  && r.ruleIndex < |rules| && r.matched.rule == rules[r.ruleIndex]
                  && r.policy == rules[r.ruleIndex].policy
                  && Matches(rules[r.ruleIndex], geo, req))
            && (r.matched.ByFinal? <==> forall i :: 0 <= i < |rules| ==> !Matches(rules[i], geo, req))
  {
    var p := (i: nat) => Candidate(rules, geo, req, i);
    var best := Least(|rules|, p);
    if best.Some? {
      assert p(best.value);
      CandidateMatches(rules, geo, req, best.value);
    } else {
      forall c | 0 <= c < |rules| ensures !Candidate(rules, geo, req, c) {
        assert !p(c);
      }
      forall i | 0 <= i < |rules| ensures !Matches(rules[i], geo, req) {
        if Matches(rules[i], geo, req) {
          var c := SomeCandidate(rules, geo, req, i);
          CandidateMatches(rules, geo, req, c);
          assert false;
        }
      }
    }
  }

  /** What the first match must satisfy for the engine to find it. */
  ghost predicate WinnerVisible(rules: seq<Rule>, geo: Geo, req: Request, w: nat)
    requires w < |rules| ==> Applies(rules[w], geo, req)
  {
    if w >= |rules| then true
    else if rules[w].kind.Final? then forall i :: w < i < |rules| ==> !Applies(rules[i], geo, req)
    else Visible(rules, req, w)
  }

  /** For every rule list and every request: the engine answers as the
      first-match scan does if and only if the scan's winner is visible - a
      DOMAIN rule whose pattern is not repeated later, a DOMAIN-SUFFIX rule whose
      pattern is not repeated later and with no more specific pattern covering the
      domain, a keyword rule whose keyword occurs where no keyword of an earlier
      rule matches and no unhidden occurrence reaches over it, any IP rule, or a
      FINAL after which nothing applies. */
  lemma FirstMatchIff(rules: seq<Rule>, geo: Geo, req: Request)
    ensures EngineResult(rules, geo, req) == ScanResult(rules, geo, req)
            <==> WinnerVisible(rules, geo, req, ScanResult(rules, geo, req).ruleIndex)
  {
    SoundAndComplete(rules, geo, req);
    var w := ScanResult(rules, geo, req).ruleIndex;
    if w < |rules| && !rules[w].kind.Final? {
      CandidateIffVisible(rules, geo, req, w);
      if Candidate(rules, geo, req, w) {
        forall i | 0 <= i < w ensures !Candidate(rules, geo, req, i) {
          if Candidate(rules, geo, req, i) {
            CandidateMatches(rules, geo, req, i);
            assert Applies(rules[i], geo, req);
          }
        }
        EngineResultIs(rules, geo, req, Some(w));
      } else {
        var p := (i: nat) => Candidate(rules, geo, req, i);
        var best := Least(|rules|, p);
        assert best.Some? ==> p(best.value);
      }
    } else {
      var final := FinalIndex(rules);
      assert forall i :: 0 <= i < w ==> !Applies(rules[i], geo, req);
    }
  }

  /** The ordering advice of config/rules.list:11-13, made precise. */
  ghost predicate WellOrdered(rules: seq<Rule>) {
    && (forall i :: 0 <= i < |rules| - 1 ==> !rules[i].kind.Final?)
    && (forall i, j :: 0 <= i < j < |rules| && rules[i].kind.Domain? && rules[j].kind.Domain? ==>
          ToLower(rules[i].kind.domain) != ToLower(rules[j].kind.domain))
    && (forall i, j :: 0 <= i < j < |rules| && rules[i].kind.DomainSuffix? && rules[j].kind.DomainSuffix? ==>
          ToLower(rules[i].kind.suffix) != ToLower(rules[j].kind.suffix)
          && !MoreSpecific(rules[j].kind.suffix, rules[i].kind.suffix))
  }

  /** For well-ordered rules, the engine is the first-match scan on every domain
      in which nothing that a keyword of a later rule matches reaches from before
      into what a keyword of an earlier rule matches. */
  lemma WellOrderedIsFirstMatch(rules: seq<Rule>, geo: Geo, req: Request)
    requires WellOrdered(rules)
    requires req.domain.Some? ==>
               var keywords := Patterns(Collect(rules, PickKeyword));
               forall n :: 0 <= n < |keywords| ==> NotReached(ToLower(req.domain.value), keywords, n)
    ensures EngineResult(rules, geo, req) == ScanResult(rules, geo, req)
  {
    FirstMatchIff(rules, geo, req);
    hide NotReached, EngineResult, MoreSpecific, UnderSuffix, ToLower, Collect;
    var w := ScanResult(rules, geo, req).ruleIndex;
    if w < |rules| && rules[w].kind.DomainSuffix? {
      SuffixWinnerVisible(rules, geo, req, w);
    } else if w < |rules| && rules[w].kind.DomainKeyword? {
      KeywordWinnerVisible(rules, geo, req, w);
    }
  }

  /** A condition on the list alone, which lets a longer keyword stand above one
      that it contains: well-ordered rules in which no keyword can begin before
      an earlier-listed one and reach into it are matched first-match, whatever
      is asked. */
  lemma OrderedKeywordsAreFirstMatch(rules: seq<Rule>, geo: Geo, req: Request)
    requires WellOrdered(rules) && NoneReachesBack(Patterns(Collect(rules, PickKeyword)))
    ensures EngineResult(rules, geo, req) == ScanResult(rules, geo, req)
  {
    hide WellOrdered, NoneReachesBack, NotReached, EngineResult, ScanResult, Collect, ToLower;
    if req.domain.Some? {
      var keywords := Patterns(Collect(rules, PickKeyword));
      forall n | 0 <= n < |keywords| ensures NotReached(ToLower(req.domain.value), keywords, n) {
        NoneReaches(ToLower(req.domain.value), keywords, n);
      }
    }
    WellOrderedIsFirstMatch(rules, geo, req);
  }

  /** So are those whose keywords never contain, repeat or overlap one another. */
  lemma KeywordsApartIsFirstMatch(rules: seq<Rule>, geo: Geo, req: Request)
    requires WellOrdered(rules) && KeywordsApart(Patterns(Collect(rules, PickKeyword)))
    ensures EngineResult(rules, geo, req) == ScanResult(rules, geo, req)
  {
    ApartNoneReachesBack(Patterns(Collect(rules, PickKeyword)));
    hide WellOrdered, NoneReachesBack, KeywordsApart, EngineResult, ScanResult, Collect;
    OrderedKeywordsAreFirstMatch(rules, geo, req);
  }

  lemma SuffixWinnerVisible(rules: seq<Rule>, geo: Geo, req: Request, w: nat)
    requires WellOrdered(rules) && w < |rules| && rules[w].kind.DomainSuffix? && Matches(rules[w], geo, req)
    requires forall i :: 0 <= i < w ==> !Applies(rules[i], geo, req)
    ensures SuffixVisible(rules, req.domain.value, w)
  {
    hide MoreSpecific, UnderSuffix, ToLower;
    forall i
      | 0 <= i < |rules| && rules[i].kind.DomainSuffix? && MoreSpecific(rules[i].kind.suffix, rules[w].kind.suffix)
      ensures !UnderSuffix(ToLower(req.domain.value), ToLower(rules[i].kind.suffix))
    {
      if i < w {
        assert !Applies(rules[i], geo, req);
      } else if i == w {
        NotMoreSpecificThanItself(rules[w].kind.suffix);
      }
    }
  }

  lemma NotMoreSpecificThanItself(p: string)
    ensures !MoreSpecific(p, p)
  {
  }

  /** Rules of one kind are collected in rule order. */
  lemma {:induction false} CollectInOrder<T>(rules: seq<Rule>, pick: RuleType -> Option<T>, i: nat, j: nat)
    requires i < j < |Collect(rules, pick)|
    ensures Collect(rules, pick)[i].1 < Collect(rules, pick)[j].1 < |rules|
  {
    var n := |rules| - 1;
    var earlier := Collect(rules[..n], pick);
    if j < |earlier| {
      CollectInOrder(rules[..n], pick, i, j);
    } else {
      CollectMeaning(rules[..n], pick);
      var (x, at) := earlier[i];
      assert (x, at) in earlier;
      assert Collect(rules, pick) == earlier + [(pick(rules[n].kind).value, n)];
    }
  }

  /** Before the scan's winner no keyword occurs. */
  lemma {:induction false} NoEarlierKeyword(rules: seq<Rule>, geo: Geo, req: Request, n: nat, i: nat)
    requires req.domain.Some? && i < n < |Collect(rules, PickKeyword)|
    requires forall j :: 0 <= j < Collect(rules, PickKeyword)[n].1 && j < |rules| ==> !Applies(rules[j], geo, req)
    ensures !Occurs(ToLower(req.domain.value), Collect(rules, PickKeyword)[i].0)
  {
    hide Collect, Occurs, ToLower;
    var keywords := Collect(rules, PickKeyword);
    CollectInOrder(rules, PickKeyword, i, n);
    CollectMeaning(rules, PickKeyword);
    var (k, at) := keywords[i];
    assert (k, at) in keywords;
    assert rules[at].kind == DomainKeyword(k);
    assert !Applies(rules[at], geo, req);
  }

  lemma {:induction false} KeywordWinnerVisible(rules: seq<Rule>, geo: Geo, req: Request, w: nat)
    requires w < |rules| && rules[w].kind.DomainKeyword? && Matches(rules[w], geo, req)
    requires forall i :: 0 <= i < w ==> !Applies(rules[i], geo, req)
    requires var keywords := Patterns(Collect(rules, PickKeyword));
             forall n :: 0 <= n < |keywords| ==> NotReached(ToLower(req.domain.value), keywords, n)
    ensures KeywordVisible(rules, req.domain.value, w)
  {
    hide Collect, Occurs, NotReached, Unhidden, ToLower;
    var keywords := Collect(rules, PickKeyword);
    CollectMeaning(rules, PickKeyword);
    assert (rules[w].kind.keyword, w) in keywords;
    var n :| 0 <= n < |keywords| && keywords[n] == (rules[w].kind.keyword, w);
    forall i | 0 <= i < n ensures !Occurs(ToLower(req.domain.value), Patterns(keywords)[i]) {
      NoEarlierKeyword(rules, geo, req, n, i);
    }
    var h := FirstListedIsUnhidden(ToLower(req.domain.value), Patterns(keywords), n);
    assert keywords[h.pattern].1 == w;
  }

  /** First match does not win in general: with a general suffix above a more
      specific one the engine takes the later rule. */
  lemma GeneralSuffixFirstFails(geo: Geo)
    ensures var rules := [Rule(DomainSuffix("com"), Direct, false), Rule(DomainSuffix("a.com"), Reject, false)];
            var req := Request(Some("a.com"), None);
            && ScanResult(rules, geo, req).ruleIndex == 0
            && EngineResult(rules, geo, req) != ScanResult(rules, geo, req)
  {
    var rules := [Rule(DomainSuffix("com"), Direct, false), Rule(DomainSuffix("a.com"), Reject, false)];
    var req := Request(Some("a.com"), None);
    assert ToLower("a.com") == "a.com" && ToLower("com") == "com";
    assert "a.com"[2..] == "com";
    assert UnderSuffix("a.com", "com");
    assert Matches(rules[0], geo, req);
    assert MoreSpecific(rules[1].kind.suffix, "com");
    FirstMatchIff(rules, geo, req);
  }

  /** Nor among keywords: an occurrence of a later rule's keyword that begins
      earlier and overlaps takes the match away. */
  lemma OverlapFails(geo: Geo)
    ensures var rules := [Rule(DomainKeyword("bc"), Direct, false), Rule(DomainKeyword("ab"), Reject, false)];
            var req := Request(Some("abc"), None);
            && ScanResult(rules, geo, req).ruleIndex == 0
            && EngineResult(rules, geo, req) != ScanResult(rules, geo, req)
  {
    var rules := [Rule(DomainKeyword("bc"), Direct, false), Rule(DomainKeyword("ab"), Reject, false)];
    var req := Request(Some("abc"), None);
    var patterns := ["bc", "ab"];
    OverlapPatterns(rules);
    assert ToLower("abc") == "abc" && ToLower("ab") == "ab" && ToLower("bc") == "bc";
    assert "abc"[0..2] == "ab" && "abc"[1..3] == "bc";
    assert MatchesAt("abc", "bc", 1) && MatchesAt("abc", "ab", 0) && !MatchesAt("abc", "bc", 0);
    assert Occurs("abc", "bc") && Matches(rules[0], geo, req);
    assert Unhidden("abc", patterns, Hit(0, 1));
    forall h: Hit | Unhidden("abc", patterns, h) ensures h.pattern != 0 {
      assert h.pattern == 0 ==> h.start == 1;
      assert h.start == 1 ==> Clears(patterns, Hit(0, 1), h);
    }
    FirstMatchIff(rules, geo, req);
  }

  lemma OverlapPatterns(rules: seq<Rule>)
    requires rules == [Rule(DomainKeyword("bc"), Direct, false), Rule(DomainKeyword("ab"), Reject, false)]
    ensures Collect(rules, PickKeyword) == [("bc", 0), ("ab", 1)]
    ensures Patterns(Collect(rules, PickKeyword)) == ["bc", "ab"]
  {
    assert rules[..1][..0] == [] && rules[..1] == [rules[0]];
    assert Collect(rules[..1], PickKeyword) == [("bc", 0)];
  }
}
