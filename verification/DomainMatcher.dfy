/**
 The three domain indexes of the rule engine (src/rule/matcher/domain.rs): a map
 for exact names, the suffix trie, and the keyword automaton.
 */
module DomainMatcher {
  import opened Ascii
  import opened DomainSuffix
  import opened KeywordScan
  import opened Numbers
  import opened SuffixTrie

  /** Patterns with their rule indices, in rule order. */
  type Pairs = seq<(string, nat)>

  /** The map built by inserting the pairs in order: later pairs overwrite. */
  function LastIndex<K>(pairs: Pairs, key: string -> K): map<K, nat> {
    if pairs == [] then map[]
    else LastIndex(pairs[..|pairs| - 1], key)[key(pairs[|pairs| - 1].0) := pairs[|pairs| - 1].1]
  }

  function ExactIndex(pairs: Pairs): map<string, nat> {
    LastIndex(pairs, ToLower)
  }

  function SuffixIndex(pairs: Pairs): Content {
    LastIndex(pairs, Path)
  }

  function Patterns(pairs: Pairs): (r: seq<string>)
    ensures |r| == |pairs| && forall i :: 0 <= i < |r| ==> r[i] == pairs[i].0
  {
    seq(|pairs|, i requires 0 <= i < |pairs| => pairs[i].0)
  }

  /** The rule indices the matcher reports for a domain. */
  ghost predicate Reports(exact: Pairs, suffix: Pairs, keywords: Pairs, domain: string, index: nat) {
    || (ToLower(domain) in ExactIndex(exact) && ExactIndex(exact)[ToLower(domain)] == index)
    || LongestMatch(SuffixIndex(suffix), Path(domain)) == Some(index)
    || KeywordReported(keywords, domain, index)
  }

  ghost predicate KeywordReported(keywords: Pairs, domain: string, index: nat) {
    exists h :: h in AllHits(ToLower(domain), Patterns(keywords)) && h.pattern < |keywords|
                && keywords[h.pattern].1 == index
  }

  lemma PathIgnoresCase(domain: string)
    ensures Path(ToLower(domain)) == Path(domain)
  {
    SplitLower(domain, '.');
    forall i | 0 <= i < |Labels(domain)|
      ensures LowerAll(Labels(ToLower(domain)))[i] == LowerAll(Labels(domain))[i]
    {
      ToLowerIdempotent(Labels(domain)[i]);
    }
  }

  /** A new trie with the suffix patterns added in order. */
  method TrieOf(pairs: Pairs) returns (trie: Trie)
    ensures trie.Valid() && trie.View() == SuffixIndex(pairs)
    ensures fresh(trie) && fresh(trie.nodes.Values)
  {
    hide Path, Shape, Stored;
    trie := new Trie();
    for i := 0 to |pairs|
      invariant trie.Valid() && trie.View() == SuffixIndex(pairs[..i])
      invariant fresh(trie.nodes.Values)
    {
      assert pairs[..i + 1][..i] == pairs[..i];
      trie.Insert(pairs[i].0, pairs[i].1);
    }
    assert pairs[..|pairs|] == pairs;
  }

  class Matcher {
    var exact: map<string, nat>
    const suffixTrie: Trie
    var keywordAutomaton: Option<seq<string>>
    var keywordIndices: seq<nat>
    ghost const exactPairs: Pairs
    ghost const suffixPairs: Pairs
    ghost const keywordPairs: Pairs

    /** The fields hold exactly what building from the three lists gives. */
    ghost predicate Valid()
      reads this, suffixTrie, suffixTrie.nodes.Values
    {
      && exact == ExactIndex(exactPairs)
      && suffixTrie.Valid() && suffixTrie.View() == SuffixIndex(suffixPairs)
      && (keywordPairs == [] ==> keywordAutomaton.None?)
      && (keywordPairs != [] ==> keywordAutomaton == Some(Patterns(keywordPairs)))
      && (keywordPairs != [] ==> |keywordIndices| == |keywordPairs| &&
                                 forall i :: 0 <= i < |keywordPairs| ==> keywordIndices[i] == keywordPairs[i].1)
    }

    /** `build` */
    constructor (exactPairs: Pairs, suffixPairs: Pairs, keywordPairs: Pairs)
      ensures this.exactPairs == exactPairs && this.suffixPairs == suffixPairs && this.keywordPairs == keywordPairs
      ensures Valid()
      ensures fresh(suffixTrie) && fresh(suffixTrie.nodes.Values)
    {
      hide LastIndex, Shape, Stored, Patterns;
      var trie := TrieOf(suffixPairs);
      exact := map[];
      suffixTrie := trie;
      keywordAutomaton, keywordIndices := None, [];
      this.exactPairs, this.suffixPairs, this.keywordPairs := exactPairs, suffixPairs, keywordPairs;
      new;
      AddExactAll(exactPairs);
      SetKeywords(keywordPairs);
    }

    method SetKeywords(pairs: Pairs)
      requires keywordAutomaton.None? && keywordIndices == []
      modifies this`keywordAutomaton, this`keywordIndices
      ensures keywordAutomaton == if pairs == [] then None else Some(Patterns(pairs))
      ensures |keywordIndices| == |pairs| && forall i :: 0 <= i < |pairs| ==> keywordIndices[i] == pairs[i].1
    {
      if pairs != [] {
        keywordAutomaton := Some(Patterns(pairs));
        keywordIndices := seq(|pairs|, j requires 0 <= j < |pairs| => pairs[j].1);
      }
    }

    method AddExactAll(pairs: Pairs)
      requires exact == map[]
      modifies this`exact
      ensures exact == ExactIndex(pairs)
    {
      for i := 0 to |pairs|
        invariant exact == ExactIndex(pairs[..i])
      {
        assert pairs[..i + 1][..i] == pairs[..i];
        AddExact(pairs[i].0, pairs[i].1);
      }
      assert pairs[..|pairs|] == pairs;
    }

    method AddExact(domain: string, index: nat)
      modifies this`exact
      ensures exact == old(exact)[ToLower(domain) := index]
    {
      exact := exact[ToLower(domain) := index];
    }

    /** `match_all`: exactly the indices the three indexes report. */
    method MatchAll(domain: string) returns (matches: seq<nat>)
      requires Valid()
      ensures forall i: nat :: i in matches <==> Reports(exactPairs, suffixPairs, keywordPairs, domain, i)
    {
      var lowered := ToLower(domain);
      PathIgnoresCase(domain);
      matches := [];
      if lowered in exact {
        matches := matches + [exact[lowered]];
      }
      var longest := suffixTrie.MatchDomain(lowered);
      if longest.Some? && longest.value !in matches {
        matches := matches + [longest.value];
      }
      if keywordAutomaton.Some? {
        matches := AddKeywords(matches, lowered);
      } else {
        NoPatternsNoHits(lowered);
      }
    }

    /** The keyword hits, each rule once. */
    method AddKeywords(found: seq<nat>, lowered: string) returns (matches: seq<nat>)
      requires Valid() && keywordPairs != []
      ensures forall i: nat :: i in matches <==>
                (i in found || exists h :: h in AllHits(lowered, Patterns(keywordPairs)) && h.pattern < |keywordPairs|
                                           && keywordPairs[h.pattern].1 == i)
    {
      matches := found;
      var hits := AllHits(lowered, keywordAutomaton.value);
      ScanSound(lowered, keywordAutomaton.value, 0, false);
      hide Scan, AllHits;
      for j := 0 to |hits|
        invariant forall i: nat :: i in matches <==>
                    i in found || exists h :: h in hits[..j] && keywordPairs[h.pattern].1 == i
      {
        assert IsHit(lowered, keywordAutomaton.value, hits[j]);
        var index := keywordIndices[hits[j].pattern];
        assert hits[..j + 1] == hits[..j] + [hits[j]];
        if index !in matches {
          matches := matches + [index];
        }
      }
      assert hits[..|hits|] == hits;
    }
  }

  lemma NoPatternsNoHits(text: string)
    ensures AllHits(text, []) == []
  {
    ScanReportsIffOccurs(text, []);
  }
}
