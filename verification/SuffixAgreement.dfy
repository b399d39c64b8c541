/**
 The two suffix searches of the program, the trie of the rule engine and the
 parent loop of the blocklists, answer the same question.
 */
module SuffixAgreement {
  import opened Ascii
  import opened DomainSuffix
  import opened Numbers
  import opened SuffixTrie
  import DomainMatcher
  import Blocklist

  /** The lower-cased patterns as the blocklists hold them. */
  function AsSet(pairs: DomainMatcher.Pairs): set<string> {
    set p <- pairs :: ToLower(p.0)
  }

  /** Pair `i` is the last one with key `k`. */
  ghost predicate IsLast(pairs: DomainMatcher.Pairs, k: seq<string>, i: nat) {
    i < |pairs| && Path(pairs[i].0) == k && forall j :: i < j < |pairs| ==> Path(pairs[j].0) != k
  }

  /** The trie's content: for each key, the index of the last pair with that key. */
  lemma {:induction false} LastPair(pairs: DomainMatcher.Pairs, k: seq<string>) returns (i: nat)
    requires k in DomainMatcher.SuffixIndex(pairs)
    ensures IsLast(pairs, k, i) && DomainMatcher.SuffixIndex(pairs)[k] == pairs[i].1
  {
    hide Path;
    var n := |pairs| - 1;
    if k == Path(pairs[n].0) {
      i := n;
    } else {
      i := LastPair(pairs[..n], k);
      forall j | i < j < |pairs| ensures Path(pairs[j].0) != k {
        assert j < n ==> pairs[..n][j] == pairs[j];
      }
    }
  }

  lemma {:induction false} KeyPresent(pairs: DomainMatcher.Pairs, i: nat)
    requires i < |pairs|
    ensures Path(pairs[i].0) in DomainMatcher.SuffixIndex(pairs)
  {
    hide Path;
    if i < |pairs| - 1 {
      KeyPresent(pairs[..|pairs| - 1], i);
    }
  }

  lemma NoEmptyKey(pairs: DomainMatcher.Pairs)
    ensures [] !in DomainMatcher.SuffixIndex(pairs)
  {
    if [] in DomainMatcher.SuffixIndex(pairs) {
      var i := LastPair(pairs, []);
      assert false;
    }
  }

  /** Trie, parent loop and the plain reading of "under a suffix" agree. */
  lemma SuffixSearchesAgree(pairs: DomainMatcher.Pairs, domain: string)
    ensures LongestMatch(DomainMatcher.SuffixIndex(pairs), Path(domain)).Some?
            <==> Blocklist.SomeSuffix(ToLower(domain), AsSet(pairs))
    ensures Blocklist.SomeSuffix(ToLower(domain), AsSet(pairs))
            <==> exists i :: 0 <= i < |pairs| && UnderSuffix(ToLower(domain), ToLower(pairs[i].0))
  {
    var index := DomainMatcher.SuffixIndex(pairs);
    NoEmptyKey(pairs);
    LongestMatchMeaning(index, Path(domain));
    hide Path, UnderSuffix, DomainMatcher.LastIndex, LongestMatch;
    if q :| q in index && q <= Path(domain) {
      var i := LastPair(pairs, q);
      PathPrefixIsSuffix(domain, pairs[i].0);
    }
    forall i | 0 <= i < |pairs| && UnderSuffix(ToLower(domain), ToLower(pairs[i].0))
      ensures LongestMatch(index, Path(domain)).Some? && ToLower(pairs[i].0) in AsSet(pairs)
    {
      KeyPresent(pairs, i);
      PathPrefixIsSuffix(domain, pairs[i].0);
      assert pairs[i] in pairs;
    }
  }

  /** The trie answers with the pair whose pattern is the longest that covers the
      name, and among equal patterns with the one inserted last. */
  lemma TrieAnswersLongestLast(pairs: DomainMatcher.Pairs, domain: string) returns (top: nat)
    requires LongestMatch(DomainMatcher.SuffixIndex(pairs), Path(domain)).Some?
    ensures top < |pairs| && UnderSuffix(ToLower(domain), ToLower(pairs[top].0))
    ensures LongestMatch(DomainMatcher.SuffixIndex(pairs), Path(domain)) == Some(pairs[top].1)
    ensures forall j :: 0 <= j < |pairs| && UnderSuffix(ToLower(domain), ToLower(pairs[j].0)) ==>
                          || |pairs[j].0| < |pairs[top].0|
                          || (ToLower(pairs[j].0) == ToLower(pairs[top].0) && j <= top)
  {
    var index := DomainMatcher.SuffixIndex(pairs);
    NoEmptyKey(pairs);
    LongestMatchMeaning(index, Path(domain));
    hide Path, UnderSuffix, DomainMatcher.LastIndex, LongestMatch;
    var k :| k in index && k <= Path(domain) && LongestMatch(index, Path(domain)).value == index[k]
             && forall r :: r in index && r <= Path(domain) ==> |r| <= |k|;
    top := LastPair(pairs, k);
    PathPrefixIsSuffix(domain, pairs[top].0);
    forall j | 0 <= j < |pairs| && UnderSuffix(ToLower(domain), ToLower(pairs[j].0))
      ensures || |pairs[j].0| < |pairs[top].0|
              || (ToLower(pairs[j].0) == ToLower(pairs[top].0) && j <= top)
    {
      PathPrefixIsSuffix(domain, pairs[j].0);
      KeyPresent(pairs, j);
      assert Path(pairs[j].0) <= Path(pairs[top].0);
      PathPrefixIsSuffix(pairs[top].0, pairs[j].0);
      ShorterUnlessEqual(ToLower(pairs[top].0), ToLower(pairs[j].0));
      PathInjective(pairs[top].0, pairs[j].0);
    }
  }

  lemma ShorterUnlessEqual(d: string, s: string)
    requires UnderSuffix(d, s)
    ensures d == s || |s| < |d|
  {
  }
}
