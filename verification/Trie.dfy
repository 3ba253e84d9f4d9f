/** The completion index: a trie of heap nodes, and the plain map from folded words to spellings that it
    stands for. */
module Trie {
  import opened Collections

  class TrieNode {
    var children: map<char, TrieNode>
    var isEnd: bool
    var value: string
    /** The characters on the way here from the root. */
    ghost const path: string

    constructor (ghost path: string)
      ensures children == map[] && !isEnd && this.path == path
    {
      children, isEnd, value := map[], false, "";
      this.path := path;
    }
  }

  /** The path one character further. */
  ghost function Child(path: string, c: char): string {
    path + [c]
  }

  lemma ChildInjective(p: string, c: char, q: string, d: char)
    ensures Child(p, c) == Child(q, d) <==> p == q && c == d
    ensures Child(p, c) != p
  {
    if Child(p, c) == Child(q, d) {
      assert Child(p, c)[..|p|] == p && Child(q, d)[..|q|] == q;
    }
  }

  lemma Longer(key: string, i: nat)
    requires i < |key|
    ensures Child(key[..i], key[i]) == key[..i + 1]
  {
  }

  /** Every word is stored under its folding. */
  ghost predicate Folded(fold: string -> string, contents: map<string, string>) {
    forall key | key in contents :: fold(contents[key]) == key
  }

  lemma FoldedOneMore(fold: string -> string, contents: map<string, string>, word: string)
    requires Folded(fold, contents)
    ensures Folded(fold, contents[fold(word) := word])
  {
  }

  /** The map after inserting words in order. */
  ghost function Filled(fold: string -> string, contents: map<string, string>, words: seq<string>)
    : map<string, string>
  {
    if words == [] then contents
    else
      var n := |words| - 1;
      Filled(fold, contents, words[..n])[fold(words[n]) := words[n]]
  }

  /** Of a list of words inserted into an empty map, each folding has the spelling that came last. */
  lemma {:induction false} LastSpellingWins(fold: string -> string, words: seq<string>, i: nat)
    requires i < |words| && forall j | i < j < |words| :: fold(words[j]) != fold(words[i])
    ensures fold(words[i]) in Filled(fold, map[], words) && Filled(fold, map[], words)[fold(words[i])] == words[i]
    ensures forall key :: key in Filled(fold, map[], words) ==> exists j :: 0 <= j < |words| && fold(words[j]) == key
  {
    OnlyWords(fold, words);
    var n := |words| - 1;
    if i < n {
      LastSpellingWins(fold, words[..n], i);
    }
  }

  lemma {:induction false} OnlyWords(fold: string -> string, words: seq<string>)
    ensures forall key :: key in Filled(fold, map[], words) ==> exists j :: 0 <= j < |words| && fold(words[j]) == key
  {
    if words != [] {
      var before := words[..|words| - 1];
      OnlyWords(fold, before);
      forall key | key in Filled(fold, map[], words) ensures exists j :: 0 <= j < |words| && fold(words[j]) == key {
        if key != fold(words[|words| - 1]) {
          assert key in Filled(fold, map[], before);
          var j :| 0 <= j < |before| && fold(before[j]) == key;
          assert fold(words[j]) == key;
        }
      }
    }
  }

  // ---- what the heap nodes hold, as values ----

  /** The nodes by path: where each lies, and what its fields hold. */
  datatype View = View(at: map<string, TrieNode>, children: map<string, map<char, TrieNode>>)

  /** The children of the node at `path` are the nodes one character further. */
  ghost predicate Linked(at: map<string, TrieNode>, path: string, children: map<char, TrieNode>) {
    && (forall c | c in children :: Child(path, c) in at && children[c] == at[Child(path, c)])
    && forall c {:trigger Child(path, c)} | Child(path, c) in at :: c in children
  }

  ghost predicate PrefixClosed(paths: set<string>) {
    forall p, i {:trigger p[..i]} | p in paths && 0 <= i <= |p| :: p[..i] in paths
  }

  /** A tree: every path has its own node, every prefix of a path is a path, links follow paths. */
  ghost predicate Tree(v: View) {
    && "" in v.at && PrefixClosed(v.at.Keys) && v.children.Keys == v.at.Keys
    && (forall p | p in v.at :: v.at[p].path == p)
    && forall p | p in v.at :: Linked(v.at, p, v.children[p])
  }

  ghost function AddLeaf(v: View, path: string, ch: char, leaf: TrieNode): View
    requires path in v.children
  {
    var longer := Child(path, ch);
    View(v.at[longer := leaf], v.children[path := v.children[path][ch := leaf]][longer := map[]])
  }

  /** What a new leaf changes, field by field. */
  ghost predicate AddsLeaf(v: View, more: View, path: string, longer: string, ch: char, leaf: TrieNode) {
    && path in v.at && longer !in v.at
    && more.at.Keys == v.at.Keys + {longer} && more.at[longer] == leaf
    && more.children.Keys == more.at.Keys && v.children.Keys == v.at.Keys && more.children[longer] == map[]
    && more.children[path] == v.children[path][ch := leaf]
    && forall p {:trigger more.at[p]} | p in v.at ::
         more.at[p] == v.at[p] && (p != path ==> more.children[p] == v.children[p])
  }

  /** The fields of the node at a path hold what the view and the map say. */
  ghost predicate Shows(
    children: map<char, TrieNode>, isEnd: bool, value: string,
    links: map<char, TrieNode>, contents: map<string, string>, p: string)
  {
    children == links && isEnd == (p in contents) && (p in contents ==> value == contents[p])
  }

  lemma ShowsMore(
    children: map<char, TrieNode>, isEnd: bool, value: string,
    links: map<char, TrieNode>, contents: map<string, string>, p: string, ch: char, leaf: TrieNode)
    requires Shows(children, isEnd, value, links, contents, p)
    ensures Shows(children[ch := leaf], isEnd, value, links[ch := leaf], contents, p)
    ensures children == links
  {
  }

  lemma ShowsLeaf(value: string, contents: map<string, string>, paths: set<string>, p: string)
    requires contents.Keys <= paths && p !in paths
    ensures Shows(map[], false, value, map[], contents, p)
  {
  }

  ghost predicate Inside(at: map<string, TrieNode>, nodes: set<TrieNode>) {
    forall p | p in at :: at[p] in nodes
  }

  /** A new leaf keeps the tree. */
  lemma AddLeafTree(v: View, path: string, ch: char, leaf: TrieNode)
    requires Tree(v) && path in v.at && ch !in v.children[path] && leaf.path == Child(path, ch)
    ensures Tree(AddLeaf(v, path, ch, leaf))
  {
    var longer := Child(path, ch);
    var more := AddLeaf(v, path, ch, leaf);
    assert Linked(v.at, path, v.children[path]);
    ChildInjective(path, ch, path, ch);
    LeafPrefixes(v.at.Keys, path, ch);
    assert more.at.Keys == v.at.Keys + {longer};
    forall p | p in more.at ensures Linked(more.at, p, more.children[p]) {
      forall c ensures Child(p, c) == longer <==> p == path && c == ch {
        ChildInjective(p, c, path, ch);
      }
      if p == longer {
        forall c ensures Child(longer, c) !in more.at {
          ChildInjective(longer, c, longer, c);
          assert Child(longer, c)[..|longer|] == longer;
        }
      } else {
        assert Linked(v.at, p, v.children[p]);
      }
    }
  }

  lemma AddLeafFields(v: View, path: string, ch: char, leaf: TrieNode)
    requires Tree(v) && path in v.at && ch !in v.children[path] && leaf.path == Child(path, ch)
    ensures AddsLeaf(v, AddLeaf(v, path, ch, leaf), path, Child(path, ch), ch, leaf)
  {
    FollowChild(v, path, ch);
    hide Linked, PrefixClosed, Child;
  }

  lemma LeafInside(
    v: View, more: View, path: string, longer: string, ch: char, leaf: TrieNode, nodes: set<TrieNode>)
    requires AddsLeaf(v, more, path, longer, ch, leaf) && Inside(v.at, nodes)
    ensures Inside(more.at, nodes + {leaf})
  {
  }

  lemma IsInside(at: map<string, TrieNode>, nodes: set<TrieNode>, p: string)
    requires Inside(at, nodes) && p in at
    ensures at[p] in nodes
  {
  }

  lemma LeafKeys(v: View, more: View, path: string, longer: string, ch: char, leaf: TrieNode)
    requires Tree(v) && AddsLeaf(v, more, path, longer, ch, leaf)
    ensures more.at.Keys == v.at.Keys + {longer} && more.children.Keys == more.at.Keys
    ensures path in more.at && more.at[path] == v.at[path] && more.at[""] == v.at[""]
    ensures longer !in v.at
  {
  }

  lemma LeafCases(v: View, more: View, path: string, longer: string, ch: char, leaf: TrieNode, p: string)
    requires Tree(v) && AddsLeaf(v, more, path, longer, ch, leaf) && p in more.at
    ensures p in more.children
    ensures p == longer ==> more.at[p] == leaf && more.children[p] == map[]
    ensures p == path ==> more.at[p] == v.at[path] && more.children[p] == v.children[path][ch := leaf]
    ensures p != longer && p != path ==>
      && p in v.at && more.at[p] == v.at[p] && more.children[p] == v.children[p] && v.at[p] != v.at[path]
  {
  }

  lemma OwnNodes(v: View)
    requires Tree(v)
    ensures forall p, q | p in v.at && q in v.at && p != q :: v.at[p] != v.at[q]
  {
  }

  lemma LeafPrefixes(paths: set<string>, path: string, ch: char)
    requires PrefixClosed(paths) && path in paths
    ensures PrefixClosed(paths + {Child(path, ch)})
  {
    var longer := Child(path, ch);
    forall i | 0 <= i <= |longer| ensures longer[..i] in paths + {longer} {
      if i <= |path| {
        assert longer[..i] == path[..i];
      } else {
        assert longer[..i] == longer;
      }
    }
  }

  lemma FollowChild(v: View, path: string, c: char)
    requires Tree(v) && path in v.at
    ensures c in v.children[path] <==> Child(path, c) in v.at
    ensures c in v.children[path] ==> v.children[path][c] == v.at[Child(path, c)]
  {
    assert Linked(v.at, path, v.children[path]);
  }

  // ---- what a search returns ----

  /** The keys of the map that start with a prefix. */
  ghost function Matching(contents: map<string, string>, prefix: string): set<string> {
    set key | key in contents && prefix <= key
  }

  /** Their spellings. */
  ghost function Spellings(contents: map<string, string>, prefix: string): set<string> {
    set key | key in Matching(contents, prefix) :: contents[key]
  }

  /** The paths from a path on. */
  ghost function Below(paths: set<string>, path: string): set<string> {
    set p | p in paths && path <= p
  }

  /** `out` goes on after `results` with the spellings of different keys below `path`, up to the limit. */
  ghost predicate Gathers(
    contents: map<string, string>, path: string, results: seq<string>, limit: int, out: seq<string>, keys: seq<string>)
  {
    && |out| == |results| + |keys| && out[..|results|] == results && Distinct(keys)
    && (forall i | 0 <= i < |keys| :: keys[i] in Matching(contents, path) && out[|results| + i] == contents[keys[i]])
    && (|results| >= limit ==> keys == []) && (|results| < limit ==> |out| <= limit)
  }

  /** Unless the limit was reached, all keys below `path` are covered, but for those below a child in `todo`. */
  ghost predicate Covers(
    contents: map<string, string>, path: string, limit: int, out: seq<string>, keys: seq<string>, todo: set<char>)
  {
    && (forall i, c | 0 <= i < |keys| && c in todo :: !(Child(path, c) <= keys[i]))
    && (|out| < limit ==> forall key | key in Matching(contents, path) ::
          key in keys || (|key| > |path| && key[|path|] in todo))
  }

  /** How many results there are after gathering from `available` words. */
  function GatheredSize(before: nat, limit: int, available: nat): nat {
    if before >= limit then before else if before + available < limit then before + available else limit
  }

  lemma ChildPrefix(path: string, c: char, key: string)
    ensures Child(path, c) <= key <==> path <= key && |key| > |path| && key[|path|] == c
  {
  }

  /** Gathering from one more child. */
  lemma GatherChild(
    contents: map<string, string>, path: string, results: seq<string>, limit: int, out: seq<string>, keys: seq<string>,
    todo: set<char>, c: char, more: seq<string>, ks: seq<string>)
    requires Gathers(contents, path, results, limit, out, keys) && Covers(contents, path, limit, out, keys, todo)
    requires c in todo && Gathers(contents, Child(path, c), out, limit, more, ks)
    requires Covers(contents, Child(path, c), limit, more, ks, {})
    ensures Gathers(contents, path, results, limit, more, keys + ks)
    ensures Covers(contents, path, limit, more, keys + ks, todo - {c})
  {
    forall key ensures key in Matching(contents, Child(path, c)) <==>
      key in Matching(contents, path) && |key| > |path| && key[|path|] == c
    {
      ChildPrefix(path, c, key);
    }
    forall i, d | 0 <= i < |keys + ks| && d in todo - {c} ensures !(Child(path, d) <= (keys + ks)[i]) {
      ChildPrefix(path, d, (keys + ks)[i]);
    }
    GatherDistinct(contents, path, keys, todo, c, ks);
    assert more[..|results|] == out[..|results|];
    forall i | 0 <= i < |keys| ensures more[|results| + i] == contents[keys[i]] {
      assert more[..|out|][|results| + i] == out[|results| + i];
    }
  }

  lemma GatherDistinct(
    contents: map<string, string>, path: string, keys: seq<string>, todo: set<char>, c: char, ks: seq<string>)
    requires Distinct(keys) && Distinct(ks) && c in todo
    requires forall i, d | 0 <= i < |keys| && d in todo :: !(Child(path, d) <= keys[i])
    requires forall i | 0 <= i < |ks| :: ks[i] in Matching(contents, Child(path, c))
    ensures Distinct(keys + ks)
  {
    hide Child;
  }

  /** Gathering starts with the node's own word. */
  lemma GatherOwn(
    contents: map<string, string>, path: string, results: seq<string>, limit: int, children: set<char>)
    requires |results| < limit
    requires forall key | key in Matching(contents, path) && key != path :: key[|path|] in children
    ensures path in contents ==>
      && Gathers(contents, path, results, limit, results + [contents[path]], [path])
      && Covers(contents, path, limit, results + [contents[path]], [path], children)
    ensures path !in contents ==>
      && Gathers(contents, path, results, limit, results, [])
      && Covers(contents, path, limit, results, [], children)
  {
    forall key | key in Matching(contents, path) && key != path ensures |key| > |path| {
      assert key[..|path|] == path;
    }
  }

  lemma ChildrenCover(v: View, contents: map<string, string>, path: string)
    requires Tree(v) && path in v.at && contents.Keys <= v.at.Keys
    ensures forall key | key in Matching(contents, path) && key != path :: key[|path|] in v.children[path]
  {
    forall key | key in Matching(contents, path) && key != path ensures key[|path|] in v.children[path] {
      assert key[..|path| + 1] in v.at.Keys;
      Longer(key, |path|);
      assert key[..|path|] == path;
      FollowChild(v, path, key[|path|]);
    }
  }

  lemma BelowChild(v: View, path: string, c: char)
    requires Tree(v) && path in v.at && c in v.children[path]
    ensures Below(v.at.Keys, Child(path, c)) < Below(v.at.Keys, path)
  {
    assert path in Below(v.at.Keys, path) && path !in Below(v.at.Keys, Child(path, c));
  }

  class Trie {
    /** Lower-casing and splitting into characters. */
    const fold: string -> string
    const root: TrieNode
    ghost var view: View
    ghost var nodes: set<TrieNode>
    /** The map the trie stands for: folded word to the spelling inserted last. */
    ghost var contents: map<string, string>

    /** The view is a tree, the heap nodes are as it says, and the map's keys are paths. */
    ghost predicate Valid()
      reads this, nodes
    {
      && Tree(view) && view.children.Keys == view.at.Keys
      && Inside(view.at, nodes)
      && (forall p {:trigger view.at[p]} | p in view.at ::
            Shows(view.at[p].children, view.at[p].isEnd, view.at[p].value, view.children[p], contents, p))
      && "" in view.at && view.at[""] == root
      && contents.Keys <= view.at.Keys
      && Folded(fold, contents)
    }

    constructor (fold: string -> string)
      ensures Valid() && fresh(nodes) && contents == map[] && this.fold == fold
    {
      this.fold := fold;
      var node := new TrieNode("");
      root := node;
      view := View(map["" := node], map["" := map[]]);
      nodes := {node};
      contents := map[];
      new;
      forall c ensures Child("", c) !in view.at {
        ChildInjective("", c, "", c);
      }
    }

    /** A fresh node below `node`. */
    method AddChild(ghost path: string, node: TrieNode, ch: char)
      requires Valid() && path in view.at && view.at[path] == node && ch !in node.children
      modifies this`view, this`nodes, node`children
      ensures Valid() && path in view.at && view.at[path] == node && ch in node.children
      ensures old(nodes) <= nodes && fresh(nodes - old(nodes))
    {
      hide Child, Tree, Folded, Shows, Inside;
      var child := new TrieNode(Child(path, ch));
      Attach(path, node, ch, child);
    }

    /** Links an empty node that belongs to no trie yet. */
    method Attach(ghost path: string, node: TrieNode, ch: char, child: TrieNode)
      requires Valid() && path in view.at && view.at[path] == node && ch !in node.children
      requires child !in nodes && child.path == Child(path, ch) && child.children == map[] && !child.isEnd
      modifies this`view, this`nodes, node`children
      ensures Valid() && path in view.at && view.at[path] == node && ch in node.children
      ensures nodes == old(nodes) + {child}
    {
      hide Child, Tree, AddLeaf, AddsLeaf, Folded, Shows, Inside;
      ghost var longer := Child(path, ch);
      ghost var before := view;
      ShowsMore(node.children, node.isEnd, node.value, view.children[path], contents, path, ch, child);
      AddLeafTree(before, path, ch, child);
      AddLeafFields(before, path, ch, child);
      LeafInside(before, AddLeaf(before, path, ch, child), path, longer, ch, child, nodes);
      node.children := node.children[ch := child];
      view := AddLeaf(before, path, ch, child);
      nodes := nodes + {child};
      LeafKeys(before, view, path, longer, ch, child);
      ShowsLeaf(child.value, contents, before.at.Keys, longer);
      forall p | p in view.at
        ensures Shows(view.at[p].children, view.at[p].isEnd, view.at[p].value, view.children[p], contents, p)
      {
        LeafCases(before, view, path, longer, ch, child, p);
        if p != path && p != longer {
          IsInside(before.at, old(nodes), p);
        }
      }
    }

    /** The node one character of `key` further, created if need be. */
    method NextNode(key: string, i: nat, node: TrieNode) returns (next: TrieNode)
      requires Valid() && i < |key| && key[..i] in view.at && view.at[key[..i]] == node
      modifies this`view, this`nodes, node`children
      ensures Valid() && key[..i + 1] in view.at && view.at[key[..i + 1]] == next
      ensures old(nodes) <= nodes && fresh(nodes - old(nodes))
    {
      hide Child, Tree, Folded;
      var ch := key[i];
      Longer(key, i);
      if ch !in node.children {
        AddChild(key[..i], node, ch);
      }
      FollowChild(view, key[..i], ch);
      next := node.children[ch];
    }

    /** Makes the node at a path the end of a word. */
    method MarkEnd(node: TrieNode, key: string, word: string)
      requires Valid() && key in view.at && view.at[key] == node && key == fold(word)
      modifies node`isEnd, node`value, this`contents
      ensures Valid() && contents == old(contents)[key := word]
    {
      hide Child, Tree, Folded;
      OwnNodes(view);
      FoldedOneMore(fold, contents, word);
      node.isEnd := true;
      node.value := word;
      contents := contents[key := word];
    }

    method Insert(word: string)
      requires Valid()
      modifies this`view, this`nodes, this`contents, nodes
      ensures Valid() && fresh(nodes - old(nodes))
      ensures contents == old(contents)[fold(word) := word]
    {
      hide Child, Tree, Folded;
      var node := root;
      var key := fold(word);
      for i := 0 to |key|
        invariant Valid() && old(nodes) <= nodes
        invariant fresh(nodes - old(nodes))
        invariant key[..i] in view.at && view.at[key[..i]] == node
        invariant contents == old(contents)
      {
        node := NextNode(key, i, node);
      }
      assert key[..|key|] == key;
      MarkEnd(node, key, word);
    }

    /** Fills the trie with a list of words, in order. */
    method InsertAll(words: seq<string>)
      requires Valid()
      modifies this`view, this`nodes, this`contents, nodes
      ensures Valid() && fresh(nodes - old(nodes))
      ensures contents == Filled(fold, old(contents), words)
    {
      for i := 0 to |words|
        invariant Valid() && fresh(nodes - old(nodes))
        invariant contents == Filled(fold, old(contents), words[..i])
      {
        assert words[..i + 1][..i] == words[..i];
        Insert(words[i]);
      }
      assert words[..|words|] == words;
    }

    /** Appends the words at and below a node, in whatever order the children come. */
    method Collect(ghost path: string, node: TrieNode, results: seq<string>, limit: int)
      returns (out: seq<string>, ghost keys: seq<string>)
      requires Valid() && path in view.at && view.at[path] == node
      ensures Gathers(contents, path, results, limit, out, keys)
      ensures Covers(contents, path, limit, out, keys, {})
      ensures |out| == GatheredSize(|results|, limit, |Matching(contents, path)|)
      decreases Below(view.at.Keys, path)
    {
      hide Child, Tree, Folded, Gathers, Covers, Matching, Inside, Below;
      out, keys := results, [];
      if |results| >= limit {
        GatherNone(contents, path, results, limit);
        GatherSize(contents, path, results, limit, out, keys);
        return;
      }
      ChildrenCover(view, contents, path);
      GatherOwn(contents, path, results, limit, node.children.Keys);
      if node.isEnd {
        out, keys := out + [node.value], [path];
      }
      var todo := node.children.Keys;
      while todo != {}
        invariant todo <= node.children.Keys
        invariant Gathers(contents, path, results, limit, out, keys)
        invariant Covers(contents, path, limit, out, keys, todo)
        decreases todo
      {
        var c :| c in todo;
        FollowChild(view, path, c);
        BelowChild(view, path, c);
        var more, ks := Collect(Child(path, c), node.children[c], out, limit);
        GatherChild(contents, path, results, limit, out, keys, todo, c, more, ks);
        out, keys, todo := more, keys + ks, todo - {c};
      }
      GatherSize(contents, path, results, limit, out, keys);
    }

    /** The words whose folding starts with the folded prefix: all of them, or as many as the limit allows. */
    method Search(prefix: string, limit: int) returns (results: seq<string>, ghost keys: seq<string>)
      requires Valid()
      ensures |results| == GatheredSize(0, limit, |Matching(contents, fold(prefix))|)
      ensures forall word | word in results :: word in Spellings(contents, fold(prefix))
      ensures |keys| == |results| && Distinct(results) && Distinct(keys)
      ensures forall i | 0 <= i < |results| ::
        keys[i] in Matching(contents, fold(prefix)) && results[i] == contents[keys[i]]
    {
      hide Child, Tree, Gathers, Covers, Inside, Below, Distinct;
      var node := root;
      var path := fold(prefix);
      for i := 0 to |path|
        invariant path[..i] in view.at && view.at[path[..i]] == node
      {
        Longer(path, i);
        FollowChild(view, path[..i], path[i]);
        if path[i] !in node.children {
          NoMatch(view, contents, path, i);
          NoneGathered(contents, path, limit);
          GatherSize(contents, path, [], limit, [], []);
          SearchResults(fold, contents, path, limit, [], []);
          return [], [];
        }
        node := node.children[path[i]];
      }
      assert path[..|path|] == path;
      results, keys := Collect(path, node, [], limit);
      SearchResults(fold, contents, path, limit, results, keys);
    }
  }

  lemma NoMatch(v: View, contents: map<string, string>, path: string, i: nat)
    requires Tree(v) && contents.Keys <= v.at.Keys && i < |path| && path[..i + 1] !in v.at
    ensures Matching(contents, path) == {}
  {
    hide PrefixClosed;
    if Matching(contents, path) != {} {
      var key :| key in Matching(contents, path);
      PrefixesIn(v.at.Keys, key, path, i + 1);
      assert false;
    }
  }

  lemma PrefixesIn(paths: set<string>, key: string, path: string, n: nat)
    requires PrefixClosed(paths) && key in paths && path <= key && n <= |path|
    ensures path[..n] in paths
  {
    assert key[..n] == path[..n];
  }

  lemma NoneGathered(contents: map<string, string>, path: string, limit: int)
    requires Matching(contents, path) == {}
    ensures Gathers(contents, path, [], limit, [], []) && Covers(contents, path, limit, [], [], {})
  {
  }

  /** Gathering takes as many words as there are, up to the limit. */
  lemma GatherSize(
    contents: map<string, string>, path: string, results: seq<string>, limit: int, out: seq<string>, keys: seq<string>)
    requires Gathers(contents, path, results, limit, out, keys) && Covers(contents, path, limit, out, keys, {})
    ensures |out| == GatheredSize(|results|, limit, |Matching(contents, path)|)
  {
    DistinctSize(keys);
    SubsetSize((set x | x in keys), Matching(contents, path));
    if |out| < limit {
      assert Matching(contents, path) == set x | x in keys;
    }
  }

  /** A whole search returns different words. */
  lemma SearchResults(
    fold: string -> string, contents: map<string, string>, prefix: string, limit: int, out: seq<string>,
    keys: seq<string>)
    requires Folded(fold, contents)
    requires Gathers(contents, prefix, [], limit, out, keys)
    ensures |keys| == |out| && Distinct(out) && Distinct(keys)
    ensures forall i | 0 <= i < |out| :: keys[i] in Matching(contents, prefix) && out[i] == contents[keys[i]]
  {
    forall i, j | 0 <= i < j < |out| ensures out[i] != out[j] {
      assert keys[i] != keys[j] && fold(out[i]) == keys[i] && fold(out[j]) == keys[j];
    }
  }

  lemma GatherNone(contents: map<string, string>, path: string, results: seq<string>, limit: int)
    requires |results| >= limit
    ensures Gathers(contents, path, results, limit, results, [])
    ensures Covers(contents, path, limit, results, [], {})
  {
  }
}
