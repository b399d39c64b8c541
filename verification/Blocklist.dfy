/**
 Domain blocklists (src/control/blocklist.rs): sets of exact names and of
 suffixes, global or per category, filled from lines of text and asked about names.
 */
module Blocklist {
  import opened Ascii
  import opened DomainSuffix
  import opened Numbers

  /** One list: names blocked alone, and names blocked with everything under them. */
  datatype Lists = Lists(domains: set<string>, suffixes: set<string>)

  const EMPTY := Lists({}, {})

  ghost predicate SomeSuffix(domain: string, suffixes: set<string>) {
    exists s :: s in suffixes && UnderSuffix(domain, s)
  }

  ghost predicate Covers(lists: Lists, domain: string) {
    domain in lists.domains || SomeSuffix(domain, lists.suffixes)
  }

  // ---------- lines ----------

  datatype Entry = Entry(domain: string, isSuffix: bool)

  function ParseLine(line: string): Option<Entry> {
    var t := Trim(line);
    if t == [] || t[0] == '#' then None
    else if |t| >= 2 && t[0] == '*' && t[1] == '.' then Some(Entry(ToLower(t[2..]), true))
    else if t[0] == '.' then Some(Entry(ToLower(t[1..]), true))
    else Some(Entry(ToLower(t), false))
  }

  function Added(lists: Lists, e: Entry): Lists {
    if e.isSuffix then lists.(suffixes := lists.suffixes + {e.domain})
    else lists.(domains := lists.domains + {e.domain})
  }

  function Loaded(lists: Lists, lines: seq<string>): Lists
    decreases |lines|
  {
    if lines == [] then lists
    else
      var before := Loaded(lists, lines[..|lines| - 1]);
      match ParseLine(lines[|lines| - 1])
      case None => before
      case Some(e) => Added(before, e)
  }

  function Entries(lines: seq<string>): nat
    decreases |lines|
  {
    if lines == [] then 0
    else Entries(lines[..|lines| - 1]) + if ParseLine(lines[|lines| - 1]).Some? then 1 else 0
  }

  /** What a line of a blocklist file, without the white space around it, says of
      a name: nothing if it is empty or a comment, the names at or under the rest
      if it begins with a star and a dot or with a dot, and otherwise itself, in
      any case of letters. */
  ghost predicate TextCovers(text: string, name: string) {
    && text != [] && text[0] != '#'
    && if "*." <= text then FallsUnder(name, text[2..])
       else if "." <= text then FallsUnder(name, text[1..])
       else SpelledAlike(name, text)
  }

  ghost predicate LineCovers(line: string, name: string) {
    TextCovers(Trim(line), name)
  }

  /** A line is an entry unless it is empty or a comment, and the entry covers what
      the line's text says. */
  lemma LineMeans(line: string, name: string)
    ensures ParseLine(line).Some? <==> Trim(line) != [] && Trim(line)[0] != '#'
    ensures LineCovers(line, name) <==>
            ParseLine(line).Some?
            && var e := ParseLine(line).value;
               if e.isSuffix then UnderSuffix(ToLower(name), e.domain) else ToLower(name) == e.domain
  {
    var t := Trim(line);
    hide FallsUnder, UnderSuffix, SpelledAlike, Trim;
    Starts(t);
    SameCaseIff(name, t);
    if "*." <= t {
      FallsUnderIff(name, t[2..]);
    } else if "." <= t {
      FallsUnderIff(name, t[1..]);
    }
  }

  lemma Starts(t: string)
    ensures "*." <= t <==> |t| >= 2 && t[0] == '*' && t[1] == '.'
    ensures "." <= t <==> |t| >= 1 && t[0] == '.'
  {
    var star := "*.";
    assert star[0] == '*' && star[1] == '.';
    assert "."[0] == '.';
  }

  /** Neither empty nor a comment. */
  predicate IsEntry(line: string) {
    Trim(line) != [] && Trim(line)[0] != '#'
  }

  /** The count is the number of lines that are entries. */
  lemma {:induction false} EntriesIs(lines: seq<string>)
    ensures Entries(lines) == |set i | 0 <= i < |lines| && IsEntry(lines[i])|
    decreases |lines|
  {
    hide ParseLine, IsEntry;
    if lines == [] {
    } else {
      var n := |lines| - 1;
      EntriesIs(lines[..n]);
      EntryIff(lines[n]);
      var before := set i | 0 <= i < n && IsEntry(lines[..n][i]);
      assert before == set i | 0 <= i < n && IsEntry(lines[i]);
      assert (set i | 0 <= i < |lines| && IsEntry(lines[i])) == before + if IsEntry(lines[n]) then {n} else {};
    }
  }

  lemma EntryIff(line: string)
    ensures ParseLine(line).Some? <==> IsEntry(line)
  {
  }

  ghost predicate SomeLine(lines: seq<string>, name: string) {
    exists l :: l in lines && LineCovers(l, name)
  }

  lemma SomeLineNext(lines: seq<string>, line: string, name: string)
    ensures SomeLine(lines + [line], name) <==> SomeLine(lines, name) || LineCovers(line, name)
  {
    hide LineCovers;
    assert line in lines + [line];
    forall l | l in lines ensures l in lines + [line] {
    }
  }

  /** A loaded list covers a name exactly when it did before or one of the lines says so. */
  lemma {:induction false} CoversIffSomeLine(lists: Lists, lines: seq<string>, name: string)
    ensures Covers(Loaded(lists, lines), ToLower(name)) <==> Covers(lists, ToLower(name)) || SomeLine(lines, name)
    decreases |lines|
  {
    if lines == [] {
    } else {
      var last, init := lines[|lines| - 1], lines[..|lines| - 1];
      assert lines == init + [last];
      CoversIffSomeLine(lists, init, name);
      SomeLineNext(init, last, name);
      LineMeans(last, name);
      hide Covers, SomeLine, ParseLine, UnderSuffix, LineCovers, ToLower;
      if ParseLine(last).Some? {
        CoversAdded(Loaded(lists, init), ParseLine(last).value, ToLower(name));
      }
    }
  }

  lemma CoversAdded(lists: Lists, e: Entry, domain: string)
    ensures Covers(Added(lists, e), domain)
            <==> Covers(lists, domain) || (if e.isSuffix then UnderSuffix(domain, e.domain) else domain == e.domain)
  {
    if e.isSuffix && UnderSuffix(domain, e.domain) {
      assert e.domain in Added(lists, e).suffixes;
    }
  }

  // ---------- the parents of a name ----------

  /** The name left after dropping `k` leading labels. */
  function Parent(domain: string, k: nat): string
    requires k < |Labels(domain)|
  {
    Join(Labels(domain)[k..], '.')
  }

  lemma ParentsAreSuffixes(domain: string, s: string)
    ensures UnderSuffix(domain, s) <==> exists k: nat :: k < |Labels(domain)| && s == Parent(domain, k)
  {
    UnderSuffixIsLabelSuffix(domain, s);
    var parts := Labels(domain);
    if UnderSuffix(domain, s) {
      var k := |parts| - |Labels(s)|;
      JoinSplit(s, '.');
      assert s == Parent(domain, k);
    }
    forall k: nat | k < |parts| && s == Parent(domain, k) ensures UnderSuffix(domain, s) {
      SplitPiecesHaveNoSep(domain, '.');
      SplitJoin(parts[k..], '.');
    }
  }

  // ---------- the manager ----------

  function ListOf(domains: map<string, set<string>>, suffixes: map<string, set<string>>, category: string): Lists {
    Lists(if category in domains then domains[category] else {},
          if category in suffixes then suffixes[category] else {})
  }

  class BlocklistManager {
    var globalDomains: set<string>
    var globalSuffixes: set<string>
    var categoryDomains: map<string, set<string>>
    var categorySuffixes: map<string, set<string>>

    function Global(): Lists
      reads this
    {
      Lists(globalDomains, globalSuffixes)
    }

    function Category(category: string): Lists
      reads this
    {
      ListOf(categoryDomains, categorySuffixes, category)
    }

    constructor ()
      ensures Global() == EMPTY && forall c :: Category(c) == EMPTY
    {
      globalDomains, globalSuffixes := {}, {};
      categoryDomains, categorySuffixes := map[], map[];
    }

    method Insert(e: Entry, category: Option<string>)
      modifies this
      ensures Global() == if category.None? then Added(old(Global()), e) else old(Global())
      ensures forall c :: Category(c) ==
                          if category == Some(c) then Added(old(Category(c)), e) else old(Category(c))
    {
      match category {
        case Some(cat) =>
          if e.isSuffix {
            categorySuffixes := categorySuffixes[cat := Category(cat).suffixes + {e.domain}];
          } else {
            categoryDomains := categoryDomains[cat := Category(cat).domains + {e.domain}];
          }
        case None =>
          if e.isSuffix {
            globalSuffixes := globalSuffixes + {e.domain};
          } else {
            globalDomains := globalDomains + {e.domain};
          }
      }
    }

    /** The line loop of `load_file`. */
    method LoadLines(lines: seq<string>, category: Option<string>) returns (count: nat)
      modifies this
      ensures Global() == if category.None? then Loaded(old(Global()), lines) else old(Global())
      ensures forall c :: Category(c) ==
                          if category == Some(c) then Loaded(old(Category(c)), lines) else old(Category(c))
      ensures count == Entries(lines)
    {
      count := 0;
      for i := 0 to |lines|
        invariant Global() == if category.None? then Loaded(old(Global()), lines[..i]) else old(Global())
        invariant forall c :: Category(c) ==
                              if category == Some(c) then Loaded(old(Category(c)), lines[..i]) else old(Category(c))
        invariant count == Entries(lines[..i])
      {
        assert lines[..i + 1][..i] == lines[..i];
        var entry := ParseLine(lines[i]);
        if entry.Some? {
          Insert(entry.value, category);
          count := count + 1;
        }
      }
      assert lines[..|lines|] == lines;
    }

    method AddGlobal(domain: string)
      modifies this
      ensures Global() == Added(old(Global()), Entry(ToLower(domain), false))
      ensures forall c :: Category(c) == old(Category(c))
    {
      globalDomains := globalDomains + {ToLower(domain)};
    }

    method AddToCategory(domain: string, category: string)
      modifies this
      ensures Global() == old(Global())
      ensures forall c :: Category(c) ==
                          if c == category then Added(old(Category(c)), Entry(ToLower(domain), false))
                          else old(Category(c))
    {
      categoryDomains := categoryDomains[category := Category(category).domains + {ToLower(domain)}];
    }

    method IsBlockedGlobally(domain: string) returns (blocked: bool)
      ensures blocked <==> Covers(Global(), ToLower(domain))
    {
      var lowered := ToLower(domain);
      if lowered in globalDomains {
        return true;
      }
      blocked := MatchesSuffix(lowered, globalSuffixes);
    }

    method IsInCategory(domain: string, category: string) returns (listed: bool)
      ensures listed <==> Covers(Category(category), ToLower(domain))
    {
      var lowered := ToLower(domain);
      if category in categoryDomains {
        if lowered in categoryDomains[category] {
          return true;
        }
      }
      if category in categorySuffixes {
        var matched := MatchesSuffix(lowered, categorySuffixes[category]);
        if matched {
          return true;
        }
      }
      return false;
    }

    method IsInAnyCategory(domain: string, categories: seq<string>) returns (listed: bool)
      ensures listed <==> exists c :: c in categories && Covers(Category(c), ToLower(domain))
    {
      for i := 0 to |categories|
        invariant forall c :: c in categories[..i] ==> !Covers(Category(c), ToLower(domain))
      {
        listed := IsInCategory(domain, categories[i]);
        if listed {
          return true;
        }
      }
      assert categories[..|categories|] == categories;
      return false;
    }
  }

  /** Tries the name and then each parent, dropping a label at a time. */
  method MatchesSuffix(domain: string, suffixes: set<string>) returns (matched: bool)
    ensures matched <==> SomeSuffix(domain, suffixes)
  {
    forall s ensures UnderSuffix(domain, s) <==> exists k: nat :: k < |Labels(domain)| && s == Parent(domain, k) {
      ParentsAreSuffixes(domain, s);
    }
    if domain in suffixes {
      return true;
    }
    var parts := Labels(domain);
    ghost var dropped: nat := 0;
    assert parts == Labels(domain)[dropped..];
    JoinSplit(domain, '.');
    while |parts| > 1
      invariant dropped < |Labels(domain)| && parts == Labels(domain)[dropped..]
      invariant forall k: nat :: k <= dropped ==> Parent(domain, k) !in suffixes
      decreases |parts|
    {
      parts := parts[1..];
      dropped := dropped + 1;
      var parent := Join(parts, '.');
      assert parent == Parent(domain, dropped);
      if parent in suffixes {
        return true;
      }
    }
    return false;
  }
}
