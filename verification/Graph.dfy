/** The embedded graph database: nodes and directed edges, and the breadth-first TRAVERSE query. */
module Graph {
  import opened Text

  datatype Node = Node(id: string, tag: string)

  datatype Edge = Edge(source: string, target: string, kind: string)

  /** A result row of TRAVERSE. */
  datatype Row = Row(id: string, tag: string, distance: nat)

  // ---- walks ----

  /** `path` lists the ids a walk along the edges passes, from `start` to `end`. */
  ghost predicate IsWalk(edges: seq<Edge>, start: string, end: string, path: seq<string>) {
    && path != [] && path[0] == start && path[|path| - 1] == end
    && forall i | 0 <= i < |path| - 1 :: Linked(edges, path[i], path[i + 1])
  }

  ghost predicate Linked(edges: seq<Edge>, a: string, b: string) {
    exists j | 0 <= j < |edges| :: edges[j].source == a && edges[j].target == b
  }

  /** Some walk with `k` edges leads from `start` to `id`. */
  ghost predicate Reaches(edges: seq<Edge>, start: string, id: string, k: nat) {
    exists path :: IsWalk(edges, start, id, path) && |path| == k + 1
  }

  /** The shortest walk from `start` to `id` has `k` edges. */
  ghost predicate AtDistance(edges: seq<Edge>, start: string, id: string, k: nat) {
    Reaches(edges, start, id, k) && forall m: nat | m < k :: !Reaches(edges, start, id, m)
  }

  /** Some walk with at most `k` edges leads from `start` to `id`. */
  ghost predicate Within(edges: seq<Edge>, start: string, id: string, k: nat) {
    exists m: nat :: m <= k && Reaches(edges, start, id, m)
  }

  lemma ReachesItself(edges: seq<Edge>, start: string, id: string)
    ensures Reaches(edges, start, id, 0) <==> id == start
  {
    assert IsWalk(edges, start, start, [start]);
  }

  /** The last edge of a walk. */
  lemma ReachesStep(edges: seq<Edge>, start: string, id: string, k: nat)
    ensures Reaches(edges, start, id, k + 1) <==> exists mid :: Reaches(edges, start, mid, k) && Linked(edges, mid, id)
  {
    if Reaches(edges, start, id, k + 1) {
      var path :| IsWalk(edges, start, id, path) && |path| == k + 2;
      assert Linked(edges, path[k], path[k + 1]);
      assert IsWalk(edges, start, path[k], path[..k + 1]);
    }
    forall mid | Reaches(edges, start, mid, k) && Linked(edges, mid, id) ensures Reaches(edges, start, id, k + 1) {
      var path :| IsWalk(edges, start, mid, path) && |path| == k + 1;
      assert IsWalk(edges, start, id, path + [id]);
    }
  }

  /** A node is within k + 1 edges exactly if it is within k, or an edge leads to it from one at distance k. */
  lemma WithinStep(edges: seq<Edge>, start: string, id: string, k: nat)
    ensures Within(edges, start, id, k + 1) <==>
      Within(edges, start, id, k) || exists mid :: AtDistance(edges, start, mid, k) && Linked(edges, mid, id)
  {
    if Within(edges, start, id, k + 1) && !Within(edges, start, id, k) {
      assert Reaches(edges, start, id, k + 1);
      ReachesStep(edges, start, id, k);
      var mid :| Reaches(edges, start, mid, k) && Linked(edges, mid, id);
      forall m: nat | m < k ensures !Reaches(edges, start, mid, m) {
        ReachesStep(edges, start, id, m);
      }
      assert AtDistance(edges, start, mid, k);
    }
    forall mid | AtDistance(edges, start, mid, k) && Linked(edges, mid, id) ensures Within(edges, start, id, k + 1) {
      ReachesStep(edges, start, id, k);
    }
  }

  lemma AtDistanceWithin(edges: seq<Edge>, start: string, id: string, k: nat)
    ensures AtDistance(edges, start, id, k) <==>
      Within(edges, start, id, k) && (k > 0 ==> !Within(edges, start, id, k - 1))
  {
    if Within(edges, start, id, k) && (k > 0 ==> !Within(edges, start, id, k - 1)) {
      var m: nat :| m <= k && Reaches(edges, start, id, m);
      assert m == k;
    }
  }

  /** Once no node is at distance k, none is further away. */
  lemma {:induction false} NothingBeyond(edges: seq<Edge>, start: string, k: nat, m: nat)
    requires forall id :: !AtDistance(edges, start, id, k)
    requires k <= m
    ensures forall id :: !AtDistance(edges, start, id, m)
    decreases m
  {
    if k < m {
      NothingBeyond(edges, start, k, m - 1);
      forall id ensures !AtDistance(edges, start, id, m) {
        AtDistanceWithin(edges, start, id, m);
        WithinStep(edges, start, id, m - 1);
      }
    }
  }

  lemma LevelStep(edges: seq<Edge>, start: string, mid: string, id: string, k: nat)
    requires AtDistance(edges, start, mid, k) && Linked(edges, mid, id)
    ensures Within(edges, start, id, k + 1)
    ensures !Within(edges, start, id, k) ==> AtDistance(edges, start, id, k + 1)
  {
    WithinStep(edges, start, id, k);
    AtDistanceWithin(edges, start, id, k + 1);
  }

  lemma WithinGrows(edges: seq<Edge>, start: string, id: string, k: nat, m: nat)
    requires k <= m && Within(edges, start, id, k)
    ensures Within(edges, start, id, m)
  {
  }

  /** Everything within k + 1 edges is known once the targets of all edges from distance k are. */
  lemma LevelDone(edges: seq<Edge>, start: string, k: nat, level: seq<string>, visited: set<string>)
    requires forall id :: id in level <==> AtDistance(edges, start, id, k)
    requires forall id | Within(edges, start, id, k) :: id in visited
    requires forall id | id in visited :: Within(edges, start, id, k + 1)
    requires forall a, id | 0 <= a < |level| && Linked(edges, level[a], id) :: id in visited
    ensures forall id :: id in visited <==> Within(edges, start, id, k + 1)
    ensures forall id :: id in visited && !Within(edges, start, id, k) <==> AtDistance(edges, start, id, k + 1)
  {
    hide Within, AtDistance, Linked;
    forall id
      ensures id in visited <==> Within(edges, start, id, k + 1)
      ensures id in visited && !Within(edges, start, id, k) <==> AtDistance(edges, start, id, k + 1)
    {
      WithinStep(edges, start, id, k);
      AtDistanceWithin(edges, start, id, k + 1);
    }
  }

  lemma SearchStarts(edges: seq<Edge>, start: string)
    ensures forall id :: id in {start} <==> Within(edges, start, id, 0)
    ensures forall id :: id in [start] <==> AtDistance(edges, start, id, 0)
  {
    forall id ensures Within(edges, start, id, 0) <==> Reaches(edges, start, id, 0) {
      if Reaches(edges, start, id, 0) {
        assert Within(edges, start, id, 0);
      }
    }
    forall id ensures Reaches(edges, start, id, 0) <==> id == start {
      ReachesItself(edges, start, id);
    }
  }

  lemma EdgesOf(edges: seq<Edge>, a: string, visited: set<string>)
    requires forall j | 0 <= j < |edges| && edges[j].source == a :: edges[j].target in visited
    ensures forall id | Linked(edges, a, id) :: id in visited
  {
  }

  /** Rows for nodes found so far: each is a true distance, none is repeated, distances never decrease. */
  ghost predicate Sound(
    nodes: map<string, Node>, edges: seq<Edge>, start: string, rows: seq<Row>, found: seq<string>, far: nat)
  {
    && |rows| == |found|
    && (forall i | 0 <= i < |rows| ::
          && found[i] in nodes && rows[i] == Row(nodes[found[i]].id, nodes[found[i]].tag, rows[i].distance)
          && 1 <= rows[i].distance <= far && AtDistance(edges, start, found[i], rows[i].distance))
    && forall i, j | 0 <= i < j < |rows| :: found[i] != found[j] && rows[i].distance <= rows[j].distance
  }

  lemma SoundOneMore(
    nodes: map<string, Node>, edges: seq<Edge>, start: string, rows: seq<Row>, found: seq<string>, far: nat, id: string)
    requires Sound(nodes, edges, start, rows, found, far) && 1 <= far
    requires id in nodes && id !in found && AtDistance(edges, start, id, far)
    ensures Sound(nodes, edges, start, rows + [Row(nodes[id].id, nodes[id].tag, far)], found + [id], far)
  {
    hide AtDistance;
  }

  /** A row for an existing node whose shortest walk from the start has between 1 and `depth` edges. */
  ghost predicate Reported(nodes: map<string, Node>, edges: seq<Edge>, start: string, depth: int, row: Row) {
    exists id :: id in nodes && row.id == nodes[id].id && row.tag == nodes[id].tag
      && 1 <= row.distance <= depth && AtDistance(edges, start, id, row.distance)
  }

  lemma RowsAreReported(
    nodes: map<string, Node>, edges: seq<Edge>, start: string, depth: int, rows: seq<Row>, found: seq<string>)
    requires Sound(nodes, edges, start, rows, found, if depth < 0 then 0 else depth)
    requires forall id, k: nat | id in nodes && 1 <= k <= depth && AtDistance(edges, start, id, k) :: id in found
    ensures forall row :: row in rows <==> Reported(nodes, edges, start, depth, row)
    ensures forall i, j | 0 <= i < j < |rows| :: rows[i].distance <= rows[j].distance
  {
    forall row ensures row in rows <==> Reported(nodes, edges, start, depth, row) {
      if row in rows {
        var i :| 0 <= i < |rows| && rows[i] == row;
        assert found[i] in nodes;
      }
      if Reported(nodes, edges, start, depth, row) {
        var id :| id in nodes && row.id == nodes[id].id && row.tag == nodes[id].tag
          && 1 <= row.distance <= depth && AtDistance(edges, start, id, row.distance);
        var i :| 0 <= i < |found| && found[i] == id;
        OneDistance(edges, start, id, row.distance, rows[i].distance);
        assert rows[i] == row;
      }
    }
  }

  lemma OneDistance(edges: seq<Edge>, start: string, id: string, k: nat, m: nat)
    requires AtDistance(edges, start, id, k) && AtDistance(edges, start, id, m)
    ensures k == m
  {
  }

  // ---- node names ----

  /** The id given to the k-th node. */
  function Name(k: nat): string {
    "n_" + Print(k)
  }

  /** Exactly the names n_1 to n_k are in use, each for a node that carries it. */
  ghost predicate Numbered(nodes: map<string, Node>) {
    && (forall id | id in nodes :: nodes[id].id == id && exists k :: 1 <= k <= |nodes| && id == Name(k))
    && forall k | 1 <= k <= |nodes| :: Name(k) in nodes
  }

  lemma NameInjective(k: nat, m: nat)
    requires Name(k) == Name(m)
    ensures k == m
  {
    assert Name(k)[2..] == Print(k) && Name(m)[2..] == Print(m);
    ValuePrint(k);
    ValuePrint(m);
  }

  /** The next name is new in a graph whose names are numbered through, and numbering goes on. */
  lemma NextNameIsNew(nodes: map<string, Node>, tag: string)
    requires Numbered(nodes)
    ensures Name(|nodes| + 1) !in nodes
    ensures Numbered(nodes[Name(|nodes| + 1) := Node(Name(|nodes| + 1), tag)])
  {
    hide Name;
    var id := Name(|nodes| + 1);
    if id in nodes {
      var k :| 1 <= k <= |nodes| && id == Name(k);
      NameInjective(k, |nodes| + 1);
    }
    var more := nodes[id := Node(id, tag)];
    assert |more| == |nodes| + 1;
    forall other | other in more ensures exists k :: 1 <= k <= |more| && other == Name(k) {
      if other != id {
        var k :| 1 <= k <= |nodes| && other == Name(k);
      }
    }
  }

  /** In a graph loaded from elsewhere the next name may be taken, and its node is then replaced. */
  lemma NextNameMayBeTaken(tag: string)
    ensures var nodes := map["n_2" := Node("n_2", "old")];
            Name(|nodes| + 1) in nodes && nodes[Name(|nodes| + 1) := Node(Name(|nodes| + 1), tag)].Keys == nodes.Keys
  {
    assert Name(2) == "n_2";
  }

  /** The nodes after creating one for every tag, in order. */
  function Created(nodes: map<string, Node>, tags: seq<string>): map<string, Node>
    decreases |tags|
  {
    if tags == [] then nodes
    else
      var before := Created(nodes, tags[..|tags| - 1]);
      before[Name(|before| + 1) := Node(Name(|before| + 1), tags[|tags| - 1])]
  }

  /** The names that `m` creations would give out. */
  ghost function NextNames(nodes: map<string, Node>, m: nat): set<string> {
    set k | |nodes| < k <= |nodes| + m :: Name(k)
  }

  lemma NextNamesStep(nodes: map<string, Node>, m: nat)
    ensures NextNames(nodes, m + 1) == NextNames(nodes, m) + {Name(|nodes| + m + 1)}
    ensures Name(|nodes| + m + 1) !in NextNames(nodes, m)
  {
    hide Name;
    if Name(|nodes| + m + 1) in NextNames(nodes, m) {
      var k :| |nodes| < k <= |nodes| + m && Name(k) == Name(|nodes| + m + 1);
      NameInjective(k, |nodes| + m + 1);
    }
  }

  lemma UpdateSize(nodes: map<string, Node>, id: string, node: Node)
    ensures nodes[id := node].Keys == nodes.Keys + {id}
    ensures |nodes[id := node]| == |nodes| + if id in nodes then 0 else 1
  {
    assert nodes[id := node].Keys == nodes.Keys + {id};
  }

  /** What is known after creations under `names`: `size` counts the old nodes and the names. */
  ghost predicate NoneReplacedExactly(
    nodes: map<string, Node>, names: set<string>, size: nat, after: map<string, Node>)
  {
    && |after| <= size && (|after| == size <==> nodes.Keys !! names)
    && (nodes.Keys !! names ==>
          after.Keys == nodes.Keys + names && forall id | id in nodes :: after[id] == nodes[id])
  }

  lemma CreateOneMore(
    nodes: map<string, Node>, names: set<string>, size: nat, before: map<string, Node>, next: string, node: Node)
    requires NoneReplacedExactly(nodes, names, size, before)
    requires next !in names && (|before| == size ==> node.id == next)
    ensures NoneReplacedExactly(nodes, names + {next}, size + 1, before[node.id := node])
  {
    UpdateSize(before, node.id, node);
    assert nodes.Keys !! (names + {next}) <==> nodes.Keys !! names && next !in nodes;
  }

  /** Creations in a row replace no node exactly if none of the names they would give out is taken at the start;
      then all the old nodes are still there unchanged, beside the new names. */
  lemma {:induction false} NothingReplacedExactly(nodes: map<string, Node>, tags: seq<string>)
    ensures NoneReplacedExactly(nodes, NextNames(nodes, |tags|), |nodes| + |tags|, Created(nodes, tags))
    decreases |tags|
  {
    hide NextNames, NoneReplacedExactly;
    var n := |tags| - 1;
    if tags == [] {
      NoNextNames(nodes);
    } else {
      var before := Created(nodes, tags[..n]);
      var id := Name(|before| + 1);
      NothingReplacedExactly(nodes, tags[..n]);
      NextNamesStep(nodes, n);
      CreateOneMore(nodes, NextNames(nodes, n), |nodes| + n, before, Name(|nodes| + n + 1), Node(id, tags[n]));
    }
  }

  lemma NoNextNames(nodes: map<string, Node>)
    ensures NoneReplacedExactly(nodes, NextNames(nodes, 0), |nodes|, nodes)
  {
  }

  // ---- new edges ----

  lemma LinkedByNew(edges: seq<Edge>, e: Edge, a: string, b: string)
    ensures Linked(edges + [e], a, b) <==> Linked(edges, a, b) || (a == e.source && b == e.target)
  {
    var more := edges + [e];
    if a == e.source && b == e.target {
      assert more[|edges|].source == a && more[|edges|].target == b;
    }
    if Linked(edges, a, b) {
      var j :| 0 <= j < |edges| && edges[j].source == a && edges[j].target == b;
      assert more[j] == edges[j];
    }
  }

  /** Walks along old edges lead to the source of `e` and on from its target, with at most `k` edges in all. */
  ghost predicate Through(edges: seq<Edge>, e: Edge, start: string, id: string, k: nat) {
    exists m: nat, n: nat :: m + 1 + n <= k && Reaches(edges, start, e.source, m) && Reaches(edges, e.target, id, n)
  }

  lemma OldWalk(edges: seq<Edge>, path: seq<string>, i: nat, j: nat)
    requires i <= j < |path| && forall h | i <= h < j :: Linked(edges, path[h], path[h + 1])
    ensures Reaches(edges, path[i], path[j], j - i)
  {
    var part := path[i..j + 1];
    forall h | 0 <= h < |part| - 1 ensures Linked(edges, part[h], part[h + 1]) {
      assert part[h] == path[i + h] && part[h + 1] == path[i + h + 1];
    }
    assert IsWalk(edges, path[i], path[j], part);
  }

  /** A walk that uses the new edge passes to it and from it along old ones: cut it at the first and last use. */
  lemma WalkIsCut(edges: seq<Edge>, e: Edge, start: string, id: string, k: nat)
    requires Reaches(edges + [e], start, id, k)
    ensures Reaches(edges, start, id, k) || Through(edges, e, start, id, k)
  {
    hide Linked;
    var path :| IsWalk(edges + [e], start, id, path) && |path| == k + 1;
    forall h | 0 <= h < k
      ensures Linked(edges, path[h], path[h + 1]) || (path[h] == e.source && path[h + 1] == e.target)
    {
      LinkedByNew(edges, e, path[h], path[h + 1]);
    }
    var i := 0;
    while i < k && Linked(edges, path[i], path[i + 1])
      invariant i <= k && forall h | 0 <= h < i :: Linked(edges, path[h], path[h + 1])
    {
      i := i + 1;
    }
    OldWalk(edges, path, 0, i);
    if i < k {
      var j := k - 1;
      while Linked(edges, path[j], path[j + 1])
        invariant i <= j < k && forall h | j < h < k :: Linked(edges, path[h], path[h + 1])
        decreases j
      {
        j := j - 1;
      }
      OldWalk(edges, path, j + 1, k);
      assert i + 1 + (k - (j + 1)) <= k;
    }
  }

  lemma {:induction false} OldEdgesReach(edges: seq<Edge>, e: Edge, start: string, id: string, k: nat)
    requires Reaches(edges, start, id, k)
    ensures Reaches(edges + [e], start, id, k)
  {
    hide Linked;
    var path :| IsWalk(edges, start, id, path) && |path| == k + 1;
    forall i | 0 <= i < k ensures Linked(edges + [e], path[i], path[i + 1]) {
      LinkedByNew(edges, e, path[i], path[i + 1]);
    }
    assert IsWalk(edges + [e], start, id, path);
  }

  lemma {:induction false} WalksJoin(edges: seq<Edge>, start: string, mid: string, id: string, m: nat, n: nat)
    requires Reaches(edges, start, mid, m) && Reaches(edges, mid, id, n)
    ensures Reaches(edges, start, id, m + n)
  {
    hide Linked;
    var a :| IsWalk(edges, start, mid, a) && |a| == m + 1;
    var b :| IsWalk(edges, mid, id, b) && |b| == n + 1;
    var path := a[..m] + b;
    forall i | 0 <= i < |path| - 1 ensures Linked(edges, path[i], path[i + 1]) {
      if i < m {
        assert path[i] == a[i] && path[i + 1] == a[i + 1];
      } else {
        assert path[i] == b[i - m] && path[i + 1] == b[i - m + 1];
      }
    }
    assert IsWalk(edges, start, id, path);
  }

  /** A new edge brings a node within `k` edges exactly if the node was there before, or by walks that lead to the
      edge and on from it. */
  lemma NewEdgeReachesExactly(edges: seq<Edge>, e: Edge, start: string, id: string, k: nat)
    ensures Within(edges + [e], start, id, k) <==> Within(edges, start, id, k) || Through(edges, e, start, id, k)
  {
    hide Reaches;
    if Within(edges + [e], start, id, k) {
      var m: nat :| m <= k && Reaches(edges + [e], start, id, m);
      WalkIsCut(edges, e, start, id, m);
    }
    if Within(edges, start, id, k) {
      var m: nat :| m <= k && Reaches(edges, start, id, m);
      OldEdgesReach(edges, e, start, id, m);
    }
    if Through(edges, e, start, id, k) {
      var m: nat, n: nat :| m + 1 + n <= k && Reaches(edges, start, e.source, m) && Reaches(edges, e.target, id, n);
      OldEdgesReach(edges, e, start, e.source, m);
      OldEdgesReach(edges, e, e.target, id, n);
      OneEdge(edges, e);
      WalksJoin(edges + [e], start, e.source, e.target, m, 1);
      WalksJoin(edges + [e], start, e.target, id, m + 1, n);
    }
  }

  lemma OneEdge(edges: seq<Edge>, e: Edge)
    ensures Reaches(edges + [e], e.source, e.target, 1)
  {
    LinkedByNew(edges, e, e.source, e.target);
    assert IsWalk(edges + [e], e.source, e.target, [e.source, e.target]);
  }

  // ---- the plugin ----

  class GraphPlugin {
    var nodes: map<string, Node>
    var edges: seq<Edge>

    constructor ()
      ensures nodes == map[] && edges == []
    {
      nodes, edges := map[], [];
    }

    /** A node is stored under a name made from the number of nodes. */
    method CreateNode(tag: string) returns (id: string)
      modifies this`nodes
      ensures id == Name(|old(nodes)| + 1) && nodes == old(nodes)[id := Node(id, tag)]
      ensures nodes == Created(old(nodes), [tag])
      ensures old(Numbered(nodes)) ==> Numbered(nodes) && id !in old(nodes)
    {
      id := "n_" + Print(|nodes| + 1);
      if Numbered(nodes) {
        NextNameIsNew(nodes, tag);
      }
      assert [tag][..0] == [];
      nodes := nodes[id := Node(id, tag)];
    }

    /** An edge is appended; its ends need not exist. It reaches what lies behind it, and nothing else. */
    method CreateEdge(source: string, target: string, kind: string)
      modifies this`edges
      ensures edges == old(edges) + [Edge(source, target, kind)]
      ensures forall start, id, k: nat :: Within(edges, start, id, k) <==>
        Within(old(edges), start, id, k) || Through(old(edges), Edge(source, target, kind), start, id, k)
    {
      hide Within, Through;
      forall start, id, k: nat
        ensures Within(edges + [Edge(source, target, kind)], start, id, k) <==>
          Within(edges, start, id, k) || Through(edges, Edge(source, target, kind), start, id, k)
      {
        NewEdgeReachesExactly(edges, Edge(source, target, kind), start, id, k);
      }
      edges := edges + [Edge(source, target, kind)];
    }

    /** The rows list, in order of distance, exactly the existing nodes other than the start whose shortest
        walk from it has between 1 and `depth` edges, each once; `found[i]` is the id row i stands for. */
    method Traverse(start: string, depth: int) returns (rows: seq<Row>, ghost found: seq<string>)
      ensures forall row :: row in rows <==> Reported(nodes, edges, start, depth, row)
      ensures forall i, j | 0 <= i < j < |rows| :: rows[i].distance <= rows[j].distance
      ensures Sound(nodes, edges, start, rows, found, if depth < 0 then 0 else depth)
      ensures forall id, k: nat | id in nodes && 1 <= k <= depth && AtDistance(edges, start, id, k) :: id in found
    {
      hide Within, AtDistance, Linked, Sound, Reported;
      var visited := {start};
      var level := [start];
      rows, found := [], [];
      var d := 0;
      SearchStarts(edges, start);
      NothingFound(nodes, edges, start);
      while d < depth
        invariant 0 <= d && (0 < depth ==> d <= depth) && (depth <= 0 ==> d == 0)
        invariant forall id :: id in visited <==> Within(edges, start, id, d)
        invariant forall id :: id in level <==> AtDistance(edges, start, id, d)
        invariant start in visited && start !in found
        invariant forall id | id in found :: id in visited
        invariant forall id | id in nodes && id in visited && id != start :: id in found
        invariant Sound(nodes, edges, start, rows, found, d)
      {
        var next: seq<string> := [];
        SoundFar(nodes, edges, start, rows, found, d, d + 1);
        forall id | id in visited ensures Within(edges, start, id, d + 1) {
          WithinGrows(edges, start, id, d, d + 1);
        }
        for i := 0 to |level|
          invariant forall id | Within(edges, start, id, d) :: id in visited
          invariant forall id | id in visited :: Within(edges, start, id, d + 1)
          invariant forall a, id | 0 <= a < i && Linked(edges, level[a], id) :: id in visited
          invariant forall id :: id in next <==> id in visited && !Within(edges, start, id, d)
          invariant start in visited && start !in found
          invariant forall id | id in found :: id in visited
          invariant forall id | id in nodes && id in visited && id != start :: id in found
          invariant Sound(nodes, edges, start, rows, found, d + 1)
        {
          var cur := level[i];
          ghost var seenBefore := visited;
          for j := 0 to |edges|
            invariant seenBefore <= visited
            invariant forall k | 0 <= k < j && edges[k].source == cur :: edges[k].target in visited
            invariant forall id | id in visited :: Within(edges, start, id, d + 1)
            invariant forall id :: id in next <==> id in visited && !Within(edges, start, id, d)
            invariant start in visited && start !in found
            invariant forall id | id in found :: id in visited
            invariant forall id | id in nodes && id in visited && id != start :: id in found
            invariant Sound(nodes, edges, start, rows, found, d + 1)
          {
            var e := edges[j];
            if e.source != cur || e.target in visited {
              continue;
            }
            EdgeLinks(edges, j);
            LevelStep(edges, start, cur, e.target, d);
            visited := visited + {e.target};
            if e.target in nodes {
              SoundOneMore(nodes, edges, start, rows, found, d + 1, e.target);
              rows := rows + [Row(nodes[e.target].id, nodes[e.target].tag, d + 1)];
              found := found + [e.target];
            }
            next := next + [e.target];
          }
          EdgesOf(edges, cur, visited);
        }
        LevelDone(edges, start, d, level, visited);
        level := next;
        d := d + 1;
        assert forall id :: id in level <==> AtDistance(edges, start, id, d);
        if |level| == 0 {
          assert forall id :: id !in level;
          break;
        }
      }
      forall id, k: nat | id in nodes && 1 <= k <= depth && AtDistance(edges, start, id, k) ensures id in found {
        if d < k {
          NothingBeyond(edges, start, d, k);
        } else {
          NotTheStart(edges, start, id, k, d);
        }
      }
      SoundFar(nodes, edges, start, rows, found, d, if depth < 0 then 0 else depth);
      RowsAreReported(nodes, edges, start, depth, rows, found);
    }
  }

  lemma EdgeLinks(edges: seq<Edge>, j: nat)
    requires j < |edges|
    ensures Linked(edges, edges[j].source, edges[j].target)
  {
  }

  lemma NothingFound(nodes: map<string, Node>, edges: seq<Edge>, start: string)
    ensures Sound(nodes, edges, start, [], [], 0)
  {
  }

  lemma SoundFar(
    nodes: map<string, Node>, edges: seq<Edge>, start: string, rows: seq<Row>, found: seq<string>, near: nat, far: nat)
    requires Sound(nodes, edges, start, rows, found, near) && near <= far
    ensures Sound(nodes, edges, start, rows, found, far)
  {
  }

  lemma NotTheStart(edges: seq<Edge>, start: string, id: string, k: nat, d: nat)
    requires AtDistance(edges, start, id, k) && 1 <= k <= d
    ensures id != start && Within(edges, start, id, d)
  {
    ReachesItself(edges, start, id);
  }
}
