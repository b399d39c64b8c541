/**
 The reversed-label trie behind DOMAIN-SUFFIX rules (src/rule/matcher/domain.rs).
 Nodes are objects with a child map that `Insert` extends through a moving
 cursor; a ghost map from label paths to nodes gives the trie its flat meaning,
 a map from patterns to rule indices.
 */
module SuffixTrie {
  import opened DomainSuffix
  import opened Numbers

  /** What a trie stores: label paths (last label first) and the rule index of each. */
  type Content = map<seq<string>, nat>

  /** The index stored for the longest non-empty prefix of `path`. */
  function LongestMatch(content: Content, path: seq<string>): Option<nat> {
    if path == [] then None
    else if path in content then Some(content[path])
    else LongestMatch(content, path[..|path| - 1])
  }

  class Node {
    var children: map<string, Node>
    var ruleIndex: Option<nat>

    constructor ()
      ensures children == map[] && ruleIndex == None
    {
      children := map[];
      ruleIndex := None;
    }
  }

  // ----- the shape of a trie, as values -----

  type Nodes = map<seq<string>, Node>
  type Kids = map<seq<string>, map<string, Node>>

  /** The child of the node at `path` for label `l` is the node at `path + [l]`. */
  ghost predicate ChildLinked(nodes: Nodes, kids: Kids, path: seq<string>, l: string) {
    path in kids && l in kids[path] ==> path + [l] in nodes && kids[path][l] == nodes[path + [l]]
  }

  /** Every node but the root is a child of the node one label up. */
  ghost predicate ParentLinked(kids: Kids, path: seq<string>) {
    path in kids && path != [] ==>
      var parent := path[..|path| - 1];
      parent in kids && path[|path| - 1] in kids[parent]
  }

  /** `nodes` lists every node under the path that leads to it; `kids` their child maps. */
  ghost predicate Shape(nodes: Nodes, root: Node, kids: Kids) {
    && nodes.Keys == kids.Keys && [] in nodes && nodes[[]] == root
    && (forall p, q :: p in nodes && q in nodes && nodes[p] == nodes[q] ==> p == q)
    && (forall p, l :: ChildLinked(nodes, kids, p, l))
    && (forall p :: ParentLinked(kids, p))
  }

  /** The child maps once `child` hangs under `path`. */
  function WithChild(kids: Kids, path: seq<string>, part: string, child: Node): Kids
    requires path in kids
  {
    kids[path := kids[path][part := child]][path + [part] := map[]]
  }

  lemma NewPathIsFree(nodes: Nodes, root: Node, kids: Kids, path: seq<string>, part: string)
    requires Shape(nodes, root, kids) && path in nodes && part !in kids[path]
    ensures path + [part] !in nodes
  {
    var here := path + [part];
    assert here[..|here| - 1] == path && here[|here| - 1] == part;
    assert ParentLinked(kids, here);
  }

  lemma ChildLinkGrows(nodes: Nodes, kids: Kids, path: seq<string>, part: string, child: Node,
                       p: seq<string>, l: string)
    requires nodes.Keys == kids.Keys && path in nodes && path + [part] !in nodes
    requires ChildLinked(nodes, kids, p, l)
    ensures ChildLinked(nodes[path + [part] := child], WithChild(kids, path, part, child), p, l)
  {
    assert (p + [l])[..|p|] == p && (p + [l])[|p|] == l;
    assert (path + [part])[..|path|] == path && (path + [part])[|path|] == part;
  }

  lemma ParentLinkGrows(kids: Kids, path: seq<string>, part: string, child: Node, p: seq<string>)
    requires path in kids && path + [part] !in kids && ParentLinked(kids, p)
    ensures ParentLinked(WithChild(kids, path, part, child), p)
  {
    var here := path + [part];
    assert here[..|here| - 1] == path && here[|here| - 1] == part;
  }

  lemma ShapeGrows(nodes: Nodes, root: Node, kids: Kids, path: seq<string>, part: string, child: Node)
    requires Shape(nodes, root, kids) && path in nodes && part !in kids[path] && child !in nodes.Values
    ensures var here := path + [part];
            && here !in nodes
            && Shape(nodes[here := child], root, WithChild(kids, path, part, child))
            && nodes[here := child].Values == nodes.Values + {child}
  {
    var here := path + [part];
    NewPathIsFree(nodes, root, kids, path, part);
    ValuesOfInsert(nodes, here, child);
    var nodes', kids' := nodes[here := child], WithChild(kids, path, part, child);
    hide ChildLinked, ParentLinked;
    forall p, l ensures ChildLinked(nodes', kids', p, l) {
      ChildLinkGrows(nodes, kids, path, part, child, p, l);
    }
    forall p ensures ParentLinked(kids', p) {
      ParentLinkGrows(kids, path, part, child, p);
    }
    forall p, q | p in nodes' && q in nodes' && nodes'[p] == nodes'[q] ensures p == q {
      assert p != here ==> nodes[p] in nodes.Values;
      assert q != here ==> nodes[q] in nodes.Values;
    }
  }

  lemma ValuesOfInsert<K, V>(m: map<K, V>, k: K, v: V)
    requires k !in m
    ensures m[k := v].Values == m.Values + {v}
  {
    var after := m[k := v];
    forall x | x in m.Values ensures x in after.Values {
      var p :| p in m && m[p] == x;
      assert after[p] == x;
    }
    assert after[k] == v;
  }

  function Stored(indices: map<seq<string>, Option<nat>>): Content {
    map p | p in indices && indices[p].Some? :: indices[p].value
  }

  lemma StoredIgnoresNone(indices: map<seq<string>, Option<nat>>, here: seq<string>)
    requires here !in indices
    ensures Stored(indices[here := None]) == Stored(indices)
  {
  }

  lemma StoredSet(indices: map<seq<string>, Option<nat>>, here: seq<string>, index: nat)
    ensures Stored(indices[here := Some(index)]) == Stored(indices)[here := index]
  {
  }

  class Trie {
    const root: Node
    ghost var nodes: Nodes

    ghost function Children(): Kids
      reads this, nodes.Values
    {
      map p | p in nodes :: nodes[p].children
    }

    ghost predicate Valid()
      reads this, nodes.Values
    {
      Shape(nodes, root, Children())
    }

    ghost function Indices(): map<seq<string>, Option<nat>>
      reads this, nodes.Values
    {
      map p | p in nodes :: nodes[p].ruleIndex
    }

    ghost function View(): Content
      reads this, nodes.Values
    {
      Stored(Indices())
    }

    constructor ()
      ensures Valid() && View() == map[] && fresh(this) && fresh(nodes.Values)
    {
      root := new Node();
      new;
      nodes := map[[] := root];
    }

    /** One step of the cursor: the child for `part`, created when absent. */
    method Descend(current: Node, ghost path: seq<string>, part: string) returns (child: Node)
      requires Valid() && path in nodes && nodes[path] == current
      modifies this`nodes, current`children
      ensures Valid() && View() == old(View())
      ensures path + [part] in nodes && nodes[path + [part]] == child
      ensures nodes.Values == old(nodes.Values) + {child}
      ensures child in old(nodes.Values) || fresh(child)
    {
      assert ChildLinked(nodes, Children(), path, part);
      if part in current.children {
        child := current.children[part];
      } else {
        child := AddChild(current, path, part);
      }
    }

    method AddChild(current: Node, ghost path: seq<string>, part: string) returns (child: Node)
      requires Valid() && path in nodes && nodes[path] == current && part !in current.children
      modifies this`nodes, current`children
      ensures Valid() && View() == old(View())
      ensures path + [part] in nodes && nodes[path + [part]] == child
      ensures nodes.Values == old(nodes.Values) + {child}
      ensures fresh(child)
    {
      child := new Node();
      Hang(current, path, part, child);
    }

    /** Links an empty node under `path`. */
    method Hang(current: Node, ghost path: seq<string>, part: string, child: Node)
      requires Valid() && path in nodes && nodes[path] == current && part !in current.children
      requires child !in nodes.Values && child.children == map[] && child.ruleIndex == None
      modifies this`nodes, current`children
      ensures Valid() && View() == old(View())
      ensures path + [part] in nodes && nodes[path + [part]] == child
      ensures nodes.Values == old(nodes.Values) + {child}
    {
      ghost var here, kids, indices := path + [part], Children(), Indices();
      ShapeGrows(nodes, root, kids, path, part, child);
      StoredIgnoresNone(indices, here);
      OnlyPath(path);
      hide Shape, Stored;
      assert nodes[path] in nodes.Values;
      current.children := current.children[part := child];
      nodes := nodes[here := child];
      assert Children() == WithChild(kids, path, part, child);
      assert Indices() == indices[here := None];
    }

    lemma OnlyPath(path: seq<string>)
      requires Valid() && path in nodes
      ensures forall p :: p in nodes && nodes[p] == nodes[path] ==> p == path
    {
    }

    /** `insert`: the pattern's path now carries this index; nothing else changes. */
    method Insert(domain: string, index: nat)
      requires Valid()
      modifies this`nodes, nodes.Values
      ensures Valid() && View() == old(View())[Path(domain) := index]
      ensures fresh(nodes.Values - old(nodes.Values))
    {
      assert [] in nodes && nodes[[]] == root;
      hide Path, Shape, Stored, Indices;
      var parts := Path(domain);
      var current := root;
      var i := 0;
      while i < |parts|
        invariant 0 <= i <= |parts|
        invariant Valid() && View() == old(View())
        invariant parts[..i] in nodes && nodes[parts[..i]] == current
        invariant fresh(nodes.Values - old(nodes.Values))
      {
        assert parts[..i] + [parts[i]] == parts[..i + 1];
        current := Descend(current, parts[..i], parts[i]);
        i := i + 1;
      }
      assert parts[..i] == parts;
      SetIndex(current, parts, index);
    }

    method SetIndex(current: Node, ghost path: seq<string>, index: nat)
      requires Valid() && path in nodes && nodes[path] == current
      modifies current`ruleIndex
      ensures Valid() && View() == old(View())[path := index]
    {
      current.ruleIndex := Some(index);
      assert Children() == old(Children());
      assert Indices() == old(Indices())[path := Some(index)];
      StoredSet(old(Indices()), path, index);
    }

    /** `match_domain`: follows the labels as far as they go and keeps the last
        index seen, which is the index of the longest stored prefix. */
    method MatchDomain(domain: string) returns (lastMatch: Option<nat>)
      requires Valid()
      ensures lastMatch == LongestMatch(View(), Path(domain))
    {
      var parts := Path(domain);
      var current := root;
      lastMatch := None;
      var i := 0;
      assert LongestMatch(View(), parts[..0]) == None;
      hide LongestMatch, Path;
      while i < |parts|
        invariant 0 <= i <= |parts|
        invariant parts[..i] in nodes && nodes[parts[..i]] == current
        invariant lastMatch == LongestMatch(View(), parts[..i])
      {
        if parts[i] !in current.children {
          break;
        }
        WalkDown(parts, i);
        current := current.children[parts[i]];
        if current.ruleIndex.Some? {
          lastMatch := current.ruleIndex;
        }
        i := i + 1;
      }
      NothingBeyond(parts, i);
      assert parts[..|parts|] == parts;
    }

    /** A step down the trie meets the index stored for the longer prefix. */
    lemma WalkDown(parts: seq<string>, i: nat)
      requires Valid() && i < |parts| && parts[..i] in nodes && parts[i] in nodes[parts[..i]].children
      ensures parts[..i + 1] in nodes && nodes[parts[..i + 1]] == nodes[parts[..i]].children[parts[i]]
      ensures var index := nodes[parts[..i + 1]].ruleIndex;
              LongestMatch(View(), parts[..i + 1]) == if index.Some? then index else LongestMatch(View(), parts[..i])
    {
      assert parts[..i] + [parts[i]] == parts[..i + 1];
      assert parts[..i + 1][..i] == parts[..i];
      assert ChildLinked(nodes, Children(), parts[..i], parts[i]);
    }

    /** Where the walk stops, no longer prefix is stored. */
    lemma {:induction false} NothingBeyond(parts: seq<string>, i: nat)
      requires Valid() && i <= |parts| && parts[..i] in nodes
      requires i < |parts| ==> parts[i] !in nodes[parts[..i]].children
      ensures LongestMatch(View(), parts) == LongestMatch(View(), parts[..i])
    {
      if i < |parts| {
        NoNodeBelow(parts, i, |parts|);
        NothingStoredBelow(parts, i);
      } else {
        assert parts[..i] == parts;
      }
    }

    lemma {:induction false} NoNodeBelow(parts: seq<string>, i: nat, j: nat)
      requires Valid() && i < j <= |parts| && parts[..i] in nodes
      requires parts[i] !in nodes[parts[..i]].children
      ensures parts[..j] !in nodes
      decreases j
    {
      assert parts[..j][..j - 1] == parts[..j - 1] && parts[..j][j - 1] == parts[j - 1];
      assert ParentLinked(Children(), parts[..j]);
      if j > i + 1 {
        NoNodeBelow(parts, i, j - 1);
      }
    }

    lemma {:induction false} NothingStoredBelow(parts: seq<string>, i: nat)
      requires Valid() && i < |parts| && parts[..i] in nodes
      requires parts[i] !in nodes[parts[..i]].children
      ensures LongestMatch(View(), parts) == LongestMatch(View(), parts[..i])
      decreases |parts|
    {
      NoNodeBelow(parts, i, |parts|);
      assert parts[..|parts|] == parts;
      var shorter := parts[..|parts| - 1];
      assert shorter[..i] == parts[..i];
      if i < |shorter| {
        NothingStoredBelow(shorter, i);
      } else {
        assert shorter == parts[..i];
      }
    }
  }

  /** `LongestMatch` in declarative terms: it fails exactly when no stored
      pattern is a prefix, and otherwise names the longest one. */
  lemma {:induction false} LongestMatchMeaning(content: Content, path: seq<string>)
    requires [] !in content
    ensures LongestMatch(content, path).None? <==> forall q :: q in content ==> !(q <= path)
    ensures LongestMatch(content, path).Some? ==>
              exists q :: q in content && q <= path && LongestMatch(content, path).value == content[q]
                          && forall r :: r in content && r <= path ==> |r| <= |q|
    decreases |path|
  {
    if path == [] {
      forall q | q in content ensures !(q <= path) {
        assert q != [];
      }
    } else if path in content {
      assert path <= path;
    } else {
      var shorter := path[..|path| - 1];
      LongestMatchMeaning(content, shorter);
      forall q | q in content ensures q <= path <==> q <= shorter {
        if q <= path {
          assert q != path;
        }
      }
    }
  }
}
