/**
 * Kruskal's simulator: the edges are sorted by weight (stably) and examined
 * in that order; each is shown COMPARING, then accepted (SORTED) when the
 * union-find structure puts its ends in different sets, otherwise rejected
 * (VISITED). The loop stops once nodeCount - 1 edges are accepted.
 *
 * The union-find structure is the source's `DisjointSet`: a `parent` map
 * with `find` following links to a root (no path compression) and `union`
 * linking the first root under the second. A ghost `level` map, decreasing
 * along every link, is what makes `find` terminate.
 */
module Kruskal {
  import opened Types
  import opened GraphHelpers
  import opened StableSort
  import opened Connectivity

  // ----- the disjoint-set forest -----

  /** Every link leads to a key of the map and strictly down in level. */
  ghost predicate Forest(parent: map<nat, nat>, level: map<nat, nat>)
  {
    && parent.Keys == level.Keys
    && forall x {:trigger LinkOk(parent, level, x)} | x in parent :: LinkOk(parent, level, x)
  }

  /** The link out of x leads to a key, at a lower level unless x is a root. */
  ghost predicate LinkOk(parent: map<nat, nat>, level: map<nat, nat>, x: nat)
    requires x in parent && parent.Keys == level.Keys
  {
    parent[x] in parent && (parent[x] != x ==> level[parent[x]] < level[x])
  }

  /** The root reached from x by following parent links. */
  function Root(parent: map<nat, nat>, ghost level: map<nat, nat>, x: nat): (r: nat)
    requires Forest(parent, level) && x in parent
    ensures r in parent && parent[r] == r
    decreases level[x]
  {
    assert LinkOk(parent, level, x);
    if parent[x] == x then x else Root(parent, level, parent[x])
  }

  /** The roots, one per set. */
  function Roots(parent: map<nat, nat>): set<nat>
  {
    set x | x in parent && parent[x] == x
  }

  /**
   * Levels after linking a root under root r2: every node but r2 is lifted
   * above r2, which keeps every link pointing down in level.
   */
  ghost function Relevel(level: map<nat, nat>, r2: nat): map<nat, nat>
    requires r2 in level
  {
    map y | y in level :: if y == r2 then level[y] else level[y] + level[r2] + 1
  }

  /** The root of x does not depend on which level map witnesses termination. */
  lemma {:induction false} RootAnyLevel(parent: map<nat, nat>, l1: map<nat, nat>, l2: map<nat, nat>, x: nat)
    requires Forest(parent, l1) && Forest(parent, l2) && x in parent
    ensures Root(parent, l1, x) == Root(parent, l2, x)
    decreases l1[x]
  {
    assert LinkOk(parent, l1, x);
    if parent[x] != x {
      RootAnyLevel(parent, l1, l2, parent[x]);
    }
  }

  /**
   * `parent[root1] = root2` for two different roots keeps a forest, and
   * every node of root1's set now has root2 as its root; the others keep
   * theirs.
   */
  lemma {:induction false} LinkRoot(parent: map<nat, nat>, level: map<nat, nat>, r1: nat, r2: nat, x: nat)
    requires Forest(parent, level) && r1 in parent && r2 in parent && parent[r1] == r1 && parent[r2] == r2 && r1 != r2
    requires x in parent
    ensures Forest(parent[r1 := r2], Relevel(level, r2))
    ensures Root(parent[r1 := r2], Relevel(level, r2), x)
      == if Root(parent, level, x) == r1 then r2 else Root(parent, level, x)
    decreases level[x]
  {
    LinkForest(parent, level, r1, r2);
    assert LinkOk(parent, level, x);
    if parent[x] != x {
      LinkRoot(parent, level, r1, r2, parent[x]);
    }
  }

  lemma LinkForest(parent: map<nat, nat>, level: map<nat, nat>, r1: nat, r2: nat)
    requires Forest(parent, level) && r1 in parent && r2 in parent && parent[r1] == r1 && parent[r2] == r2 && r1 != r2
    ensures Forest(parent[r1 := r2], Relevel(level, r2))
  {
    var p := parent[r1 := r2];
    var l := Relevel(level, r2);
    forall x | x in p ensures LinkOk(p, l, x) {
      assert LinkOk(parent, level, x);
    }
  }

  /** Linking two different roots removes exactly one root. */
  lemma LinkRoots(parent: map<nat, nat>, r1: nat, r2: nat)
    requires r1 in parent && r2 in parent && parent[r1] == r1 && parent[r2] == r2 && r1 != r2
    ensures Roots(parent[r1 := r2]) == Roots(parent) - {r1}
    ensures |Roots(parent[r1 := r2])| == |Roots(parent)| - 1
  {
    assert Roots(parent[r1 := r2]) == Roots(parent) - {r1};
  }

  /** `class DisjointSet`. */
  class DisjointSet {
    var parent: map<nat, nat>
    ghost var level: map<nat, nat>

    ghost predicate Valid()
      reads this
    {
      Forest(parent, level)
    }

    /** `nodes.forEach(n => this.parent[n.id] = n.id)`: every node its own set. */
    constructor (nodes: seq<GraphNode>)
      ensures Valid() && forall i | 0 <= i < |nodes| :: nodes[i].id in parent
      ensures forall x | x in parent :: parent[x] == x
      ensures Numbered(nodes) ==> KeysBelow(parent, |nodes|) && |parent| == |nodes|
    {
      var p: map<nat, nat> := map[];
      ghost var l: map<nat, nat> := map[];
      var i := 0;
      while i < |nodes|
        invariant i <= |nodes| && p.Keys == l.Keys && forall k | 0 <= k < i :: nodes[k].id in p
        invariant forall x | x in p :: p[x] == x
        invariant Numbered(nodes) ==> KeysBelow(p, i) && |p| == i
      {
        if Numbered(nodes) {
          assert nodes[i].id == i && i !in p;
        }
        p := p[nodes[i].id := nodes[i].id];
        l := l[nodes[i].id := 0];
        i := i + 1;
      }
      parent := p;
      level := l;
    }

    /** `find(id)`. */
    method Find(x: nat) returns (r: nat)
      requires Valid() && x in parent
      ensures r == Root(parent, level, x)
      decreases level[x]
    {
      assert LinkOk(parent, level, x);
      if parent[x] == x {
        return x;
      }
      r := Find(parent[x]);
    }

    /**
     * `union(id1, id2)`: links the first root under the second when they
     * differ; r1 and r2 name the two roots found.
     */
    method Union(a: nat, b: nat) returns (merged: bool, ghost r1: nat, ghost r2: nat)
      requires Valid() && a in parent && b in parent
      modifies this
      ensures r1 == old(Root(parent, level, a)) && r2 == old(Root(parent, level, b))
      ensures merged == (r1 != r2)
      ensures Valid() && parent.Keys == old(parent.Keys)
      ensures merged ==> parent == old(parent)[r1 := r2] && level == Relevel(old(level), r2)
      ensures !merged ==> parent == old(parent) && level == old(level)
    {
      var root1 := Find(a);
      var root2 := Find(b);
      r1, r2 := root1, root2;
      merged := root1 != root2;
      if merged {
        Link(root1, root2);
      }
    }

    /** `this.parent[root1] = root2`. */
    method Link(r1: nat, r2: nat)
      requires Valid() && r1 in parent && r2 in parent && parent[r1] == r1 && parent[r2] == r2 && r1 != r2
      modifies this
      ensures Valid() && parent == old(parent)[r1 := r2] && level == Relevel(old(level), r2)
      ensures parent.Keys == old(parent.Keys)
    {
      LinkForest(parent, level, r1, r2);
      level := Relevel(level, r2);
      parent := parent[r1 := r2];
      assert parent.Keys == old(parent.Keys) + {r1};
    }
  }

  // ----- the specification: greedy acceptance -----

  /** `(a, b) => a.weight - b.weight` on edge positions. */
  function WeightOf(edges: seq<GraphEdge>): nat -> int
  {
    (i: nat) => if i < |edges| then edges[i].weight else 0
  }

  /** `[...edges].sort(...)`: the order in which the edges are examined, as positions in the edge list. */
  function Order(edges: seq<GraphEdge>): (r: seq<nat>)
    ensures |r| == |edges| && forall k | 0 <= k < |r| :: r[k] < |edges|
  {
    var r := SortBy(Range(|edges|), WeightOf(edges));
    SortByPermutes(Range(|edges|), WeightOf(edges));
    assert forall k | 0 <= k < |r| :: r[k] in multiset(Range(|edges|));
    r
  }

  /** The edges are examined by weight, equal weights in edge-list order, each edge exactly once. */
  lemma OrderFacts(edges: seq<GraphEdge>)
    ensures LexSorted(Order(edges), WeightOf(edges))
    ensures multiset(Order(edges)) == multiset(Range(|edges|))
  {
    SortByLex(Range(|edges|), WeightOf(edges));
    SortByPermutes(Range(|edges|), WeightOf(edges));
  }

  /** Every edge is examined at some position of the order. */
  lemma OrderCovers(edges: seq<GraphEdge>)
    ensures forall j | 0 <= j < |edges| :: j in Order(edges)
  {
    SortByPermutes(Range(|edges|), WeightOf(edges));
    var o := Order(edges);
    forall j | 0 <= j < |edges| ensures j in o {
      assert Range(|edges|)[j] == j;
      assert j in multiset(Range(|edges|));
    }
  }

  /** The edges accepted among the first examined ones: each one whose ends the earlier accepted edges do not connect. */
  ghost function Greedy(edges: seq<GraphEdge>, order: seq<nat>): seq<GraphEdge>
    requires forall k | 0 <= k < |order| :: order[k] < |edges|
  {
    if order == [] then []
    else
      var m := |order| - 1;
      var a := Greedy(edges, order[..m]);
      var e := edges[order[m]];
      if Connected(a, e.source, e.target) then a else a + [e]
  }

  /** Examining the k-th edge of the order accepts it. */
  ghost predicate Accepts(edges: seq<GraphEdge>, order: seq<nat>, k: nat)
    requires k < |order| && forall j | 0 <= j < |order| :: order[j] < |edges|
  {
    var e := edges[order[k]];
    !Connected(Greedy(edges, order[..k]), e.source, e.target)
  }

  /** The edge statuses after examining the first m edges of the order. */
  ghost function Marked(edges: seq<GraphEdge>, order: seq<nat>, m: nat): (r: seq<GraphEdge>)
    requires m <= |order| && forall j | 0 <= j < |order| :: order[j] < |edges|
    ensures |r| == |edges|
  {
    if m == 0 then edges
    else
      var prev := Marked(edges, order, m - 1);
      var j := order[m - 1];
      prev[j := prev[j].(status := if Accepts(edges, order, m - 1) then Sorted else Visited)]
  }

  /** The two snapshots of examining the k-th edge: it COMPARING (line 15), then accepted (line 19) or rejected (line 18). */
  ghost predicate ExamineShown(g: Graph, order: seq<nat>, steps: seq<Step>, k: nat)
    requires k < |order| && forall j | 0 <= j < |order| :: order[j] < |g.edges|
  {
    var before := Marked(g.edges, order, k);
    var j := order[k];
    && 2 * k + 2 < |steps|
    && steps[2 * k + 1] == GraphStep(Graph(g.nodes, before[j := before[j].(status := Comparing)]), 15)
    && steps[2 * k + 2] == GraphStep(Graph(g.nodes, Marked(g.edges, order, k + 1)), if Accepts(g.edges, order, k) then 19 else 18)
  }

  // ----- the union-find structure tracks the greedy forest -----

  /** The keys are the node ids 0 .. n-1. */
  ghost predicate KeysBelow(parent: map<nat, nat>, n: nat)
  {
    forall x: nat :: x in parent <==> x < n
  }

  /**
   * The sets of the union-find structure are exactly the components of the
   * accepted edges (every accepted edge lies inside one set, and every node
   * is connected to its set's root), and there are n minus that many sets.
   */
  ghost predicate Tracks(parent: map<nat, nat>, level: map<nat, nat>, n: nat, acc: seq<GraphEdge>)
  {
    && Forest(parent, level) && KeysBelow(parent, n)
    && |acc| + |Roots(parent)| == n
    && (forall e {:trigger Inside(parent, level, e)} | e in acc :: Inside(parent, level, e))
    && (forall x {:trigger ReachesRoot(parent, level, acc, x)} | x in parent :: ReachesRoot(parent, level, acc, x))
  }

  /** Both ends of e are in the same set. */
  ghost predicate Inside(parent: map<nat, nat>, level: map<nat, nat>, e: GraphEdge)
    requires Forest(parent, level)
  {
    e.source in parent && e.target in parent && Root(parent, level, e.source) == Root(parent, level, e.target)
  }

  /** The accepted edges connect x to its set's root. */
  ghost predicate ReachesRoot(parent: map<nat, nat>, level: map<nat, nat>, acc: seq<GraphEdge>, x: nat)
    requires Forest(parent, level) && x in parent
  {
    Connected(acc, x, Root(parent, level, x))
  }

  /** The labelling of each node by its root. */
  ghost function RootTag(parent: map<nat, nat>, level: map<nat, nat>): map<nat, nat>
    requires Forest(parent, level)
  {
    map x | x in parent :: Root(parent, level, x)
  }

  /** Two nodes are connected by the accepted edges exactly when they are in the same set. */
  lemma TracksConnected(parent: map<nat, nat>, level: map<nat, nat>, n: nat, acc: seq<GraphEdge>, a: nat, b: nat)
    requires Tracks(parent, level, n, acc) && a in parent && b in parent
    ensures Connected(acc, a, b) <==> Root(parent, level, a) == Root(parent, level, b)
  {
    if Connected(acc, a, b) {
      var tag := RootTag(parent, level);
      forall e | e in acc ensures e.source in tag && e.target in tag && tag[e.source] == tag[e.target] {
        assert Inside(parent, level, e);
      }
      ConnectedSameLabel(acc, tag, a, b);
    }
    if Root(parent, level, a) == Root(parent, level, b) {
      assert ReachesRoot(parent, level, acc, a) && ReachesRoot(parent, level, acc, b);
      ConnectedSym(acc, b, Root(parent, level, b));
      ConnectedTrans(acc, a, Root(parent, level, a), b);
    }
  }

  /** Every set of the fresh structure is a single node, and no edge is accepted. */
  lemma TracksStart(parent: map<nat, nat>, level: map<nat, nat>, n: nat)
    requires Forest(parent, level) && KeysBelow(parent, n) && |parent| == n && forall x | x in parent :: parent[x] == x
    ensures Tracks(parent, level, n, [])
  {
    assert Roots(parent) == parent.Keys;
    forall x | x in parent ensures ReachesRoot(parent, level, [], x) {
      ConnectedRefl([], x);
    }
  }

  ghost predicate Moved(parent: map<nat, nat>, level: map<nat, nat>, r1: nat, r2: nat, x: nat)
    requires Forest(parent, level) && r2 in parent && x in parent && Forest(parent[r1 := r2], Relevel(level, r2))
  {
    Root(parent[r1 := r2], Relevel(level, r2), x) == if Root(parent, level, x) == r1 then r2 else Root(parent, level, x)
  }

  lemma LinkRootAll(parent: map<nat, nat>, level: map<nat, nat>, r1: nat, r2: nat)
    requires Forest(parent, level) && r1 in parent && r2 in parent && parent[r1] == r1 && parent[r2] == r2 && r1 != r2
    ensures Forest(parent[r1 := r2], Relevel(level, r2))
    ensures forall x {:trigger Moved(parent, level, r1, r2, x)} | x in parent :: Moved(parent, level, r1, r2, x)
  {
    LinkForest(parent, level, r1, r2);
    forall x | x in parent
      ensures Moved(parent, level, r1, r2, x)
    {
      LinkRoot(parent, level, r1, r2, x);
    }
  }

  /** The new edge connects the two roots it merges. */
  lemma Bridge(parent: map<nat, nat>, level: map<nat, nat>, n: nat, acc: seq<GraphEdge>, e: GraphEdge)
    requires Tracks(parent, level, n, acc) && e.source in parent && e.target in parent
    ensures Connected(acc + [e], Root(parent, level, e.source), Root(parent, level, e.target))
  {
    var acc' := acc + [e];
    var r1 := Root(parent, level, e.source);
    var r2 := Root(parent, level, e.target);
    assert ReachesRoot(parent, level, acc, e.source) && ReachesRoot(parent, level, acc, e.target);
    ConnectedSym(acc, e.source, r1);
    ConnectedMore(acc, [e], r1, e.source);
    ConnectedMore(acc, [e], e.target, r2);
    ConnectedEdge(acc', |acc|);
    assert acc'[|acc|] == e;
    ConnectedTrans(acc', r1, e.source, e.target);
    ConnectedTrans(acc', r1, e.target, r2);
  }

  /** Accepting an edge between two sets and linking their roots keeps the tracking. */
  lemma TracksLink(parent: map<nat, nat>, level: map<nat, nat>, n: nat, acc: seq<GraphEdge>, e: GraphEdge)
    requires Tracks(parent, level, n, acc) && e.source in parent && e.target in parent
    requires Root(parent, level, e.source) != Root(parent, level, e.target)
    ensures var r1 := Root(parent, level, e.source);
      var r2 := Root(parent, level, e.target);
      Tracks(parent[r1 := r2], Relevel(level, r2), n, acc + [e])
  {
    var r1 := Root(parent, level, e.source);
    var r2 := Root(parent, level, e.target);
    var p := parent[r1 := r2];
    var l := Relevel(level, r2);
    var acc' := acc + [e];
    LinkRootAll(parent, level, r1, r2);
    LinkRoots(parent, r1, r2);
    assert KeysBelow(p, n);
    forall f | f in acc' ensures Inside(p, l, f) {
      if f in acc {
        assert Inside(parent, level, f);
      }
      assert Moved(parent, level, r1, r2, f.source) && Moved(parent, level, r1, r2, f.target);
    }
    Bridge(parent, level, n, acc, e);
    forall x | x in p ensures ReachesRoot(p, l, acc', x) {
      assert ReachesRoot(parent, level, acc, x) && Moved(parent, level, r1, r2, x);
      ConnectedMore(acc, [e], x, Root(parent, level, x));
      if Root(parent, level, x) == r1 {
        ConnectedTrans(acc', x, r1, r2);
      }
    }
  }

  /** Linking keeps together whatever was together. */
  lemma LinkKeepsTogether(parent: map<nat, nat>, level: map<nat, nat>, r1: nat, r2: nat, x: nat, y: nat)
    requires Forest(parent, level) && r1 in parent && r2 in parent && parent[r1] == r1 && parent[r2] == r2 && r1 != r2
    requires x in parent && y in parent && Root(parent, level, x) == Root(parent, level, y)
    ensures Forest(parent[r1 := r2], Relevel(level, r2))
    ensures Root(parent[r1 := r2], Relevel(level, r2), x) == Root(parent[r1 := r2], Relevel(level, r2), y)
  {
    LinkRoot(parent, level, r1, r2, x);
    LinkRoot(parent, level, r1, r2, y);
  }

  /** Two members of a one-element set are equal. */
  lemma Single(s: set<nat>, a: nat, b: nat)
    requires |s| == 1 && a in s && b in s
    ensures a == b
  {
    assert |s - {a}| == 0;
    assert b !in s - {a};
  }

  /**
   * One set left: every node is connected to node 0, and n - 1 edges were
   * accepted.
   */
  lemma OneSet(parent: map<nat, nat>, level: map<nat, nat>, n: nat, acc: seq<GraphEdge>)
    requires Tracks(parent, level, n, acc) && n > 0 && |Roots(parent)| == 1
    ensures |acc| == n - 1 && forall x | 0 <= x < n :: Connected(acc, 0, x)
  {
    forall x | 0 <= x < n ensures Connected(acc, 0, x) {
      assert x in parent && 0 in parent;
      Single(Roots(parent), Root(parent, level, x), Root(parent, level, 0));
      TracksConnected(parent, level, n, acc, 0, x);
    }
  }

  /** When every node shares node 0's root, one set is left. */
  lemma AllOneRoot(parent: map<nat, nat>, level: map<nat, nat>, n: nat)
    requires Forest(parent, level) && KeysBelow(parent, n) && n > 0
    requires forall x | 0 <= x < n :: Root(parent, level, x) == Root(parent, level, 0)
    ensures |Roots(parent)| == 1
  {
    assert 0 in parent;
    assert Roots(parent) == {Root(parent, level, 0)} by {
      forall r | r in Roots(parent) ensures r == Root(parent, level, 0) {
        assert Root(parent, level, r) == r;
      }
    }
  }

  /** Linking two roots keeps every already-examined edge inside one set. */
  lemma KeepInside(parent: map<nat, nat>, level: map<nat, nat>, r1: nat, r2: nat, edges: seq<GraphEdge>, order: seq<nat>, k: nat)
    requires Forest(parent, level) && r1 in parent && r2 in parent && parent[r1] == r1 && parent[r2] == r2 && r1 != r2
    requires k <= |order| && forall m | 0 <= m < |order| :: order[m] < |edges|
    requires forall m | 0 <= m < k :: Inside(parent, level, edges[order[m]])
    ensures Forest(parent[r1 := r2], Relevel(level, r2))
    ensures forall m | 0 <= m < k :: Inside(parent[r1 := r2], Relevel(level, r2), edges[order[m]])
  {
    LinkRootAll(parent, level, r1, r2);
    forall m | 0 <= m < k ensures Inside(parent[r1 := r2], Relevel(level, r2), edges[order[m]]) {
      var f := edges[order[m]];
      assert Inside(parent, level, f);
      assert Moved(parent, level, r1, r2, f.source) && Moved(parent, level, r1, r2, f.target);
    }
  }

  /** Marking statuses leaves every edge's ends and weight alone. */
  lemma {:induction false} MarkedEnds(edges: seq<GraphEdge>, order: seq<nat>, m: nat, i: nat)
    requires m <= |order| && (forall j | 0 <= j < |order| :: order[j] < |edges|) && i < |edges|
    ensures Marked(edges, order, m)[i].source == edges[i].source
    ensures Marked(edges, order, m)[i].target == edges[i].target
    ensures Marked(edges, order, m)[i].weight == edges[i].weight
  {
    if m > 0 {
      MarkedEnds(edges, order, m - 1, i);
    }
  }

  /**
   * When the loop ends, either by accepting nodeCount - 1 edges or by
   * running out of edges after examining all of them, the accepted edges
   * connect every node, and there are nodeCount - 1 of them.
   */
  lemma Finish(n: nat, g: Graph, order: seq<nat>, k: nat, parent: map<nat, nat>, level: map<nat, nat>, acc: seq<GraphEdge>)
    requires Generated(n, g) && n > 0 && Tracks(parent, level, n, acc)
    requires k <= |order| && forall m | 0 <= m < |order| :: order[m] < |g.edges|
    requires forall j | 0 <= j < |g.edges| :: j in order
    requires forall m | 0 <= m < k :: Inside(parent, level, g.edges[order[m]])
    requires k == |order| || |acc| >= n - 1
    ensures |acc| == n - 1 && forall x | 0 <= x < n :: Connected(acc, 0, x)
  {
    assert 0 in parent;
    assert Root(parent, level, 0) in Roots(parent);
    if k == |order| {
      var s := set x | x in parent && Root(parent, level, x) == Root(parent, level, 0);
      forall e | e in g.edges ensures e.source in s <==> e.target in s {
        var j :| 0 <= j < |g.edges| && g.edges[j] == e;
        assert j in order;
        var m :| 0 <= m < |order| && order[m] == j;
        assert Inside(parent, level, g.edges[order[m]]);
      }
      RingCovers(n, g, s);
      forall x | 0 <= x < n ensures Root(parent, level, x) == Root(parent, level, 0) {
        assert x in s;
      }
      AllOneRoot(parent, level, n);
    }
    OneSet(parent, level, n, acc);
  }

  /** Examining one more edge appends its two steps and keeps the earlier ones. */
  lemma ExtendShown(g: Graph, order: seq<nat>, steps: seq<Step>, c: Step, m: Step, edges: seq<GraphEdge>, edges': seq<GraphEdge>, k: nat)
    requires k < |order| && (forall j | 0 <= j < |order| :: order[j] < |g.edges|) && |steps| == 2 * k + 1
    requires forall j | 0 <= j < k :: ExamineShown(g, order, steps, j)
    requires edges == Marked(g.edges, order, k) && edges' == Marked(g.edges, order, k + 1)
    requires c == GraphStep(Graph(g.nodes, edges[order[k] := edges[order[k]].(status := Comparing)]), 15)
    requires m == GraphStep(Graph(g.nodes, edges'), if Accepts(g.edges, order, k) then 19 else 18)
    ensures forall j | 0 <= j < k + 1 :: ExamineShown(g, order, steps + [c, m], j)
  {
    KeepShown(g, order, steps, [c, m], k);
    assert ExamineShown(g, order, steps + [c, m], k);
  }

  /** Examining one more edge only appends to the steps. */
  lemma KeepShown(g: Graph, order: seq<nat>, steps: seq<Step>, more: seq<Step>, k: nat)
    requires k <= |order| && forall j | 0 <= j < |order| :: order[j] < |g.edges|
    requires forall j | 0 <= j < k :: ExamineShown(g, order, steps, j)
    ensures forall j | 0 <= j < k :: ExamineShown(g, order, steps + more, j)
  {
    forall j | 0 <= j < k ensures ExamineShown(g, order, steps + more, j) {
      assert ExamineShown(g, order, steps, j);
    }
  }

  /** Fewer than n - 1 edges are accepted among the first i of the order. */
  ghost predicate Short(edges: seq<GraphEdge>, order: seq<nat>, n: nat, i: nat)
    requires i <= |order| && forall j | 0 <= j < |order| :: order[j] < |edges|
  {
    |Greedy(edges, order[..i])| < n - 1
  }

  /** Examining the k-th edge of the order: it joins the accepted edges when accepted, and gets its verdict status. */
  lemma ExamineStep(edges: seq<GraphEdge>, order: seq<nat>, k: nat)
    requires k < |order| && forall i | 0 <= i < |order| :: order[i] < |edges|
    ensures Greedy(edges, order[..k + 1])
      == if Accepts(edges, order, k) then Greedy(edges, order[..k]) + [edges[order[k]]] else Greedy(edges, order[..k])
    ensures var prev := Marked(edges, order, k);
      Marked(edges, order, k + 1) == prev[order[k] := prev[order[k]].(status := if Accepts(edges, order, k) then Sorted else Visited)]
  {
    assert order[..k + 1][..k] == order[..k];
  }

  /**
   * The state after examining the first k edges of the order: the
   * union-find structure tracks the greedily accepted edges, and every
   * examined edge lies inside one set.
   */
  ghost predicate Kept(parent: map<nat, nat>, level: map<nat, nat>, edges: seq<GraphEdge>, n: nat, order: seq<nat>, k: nat, acc: seq<GraphEdge>)
  {
    && k <= |order| && (forall i | 0 <= i < |order| :: order[i] < |edges|)
    && Tracks(parent, level, n, acc) && acc == Greedy(edges, order[..k])
    && forall i | 0 <= i < k :: Inside(parent, level, edges[order[i]])
  }

  /** Before any edge is examined. */
  lemma KeptStart(parent: map<nat, nat>, level: map<nat, nat>, edges: seq<GraphEdge>, n: nat, order: seq<nat>)
    requires Tracks(parent, level, n, []) && forall i | 0 <= i < |order| :: order[i] < |edges|
    ensures Kept(parent, level, edges, n, order, 0, [])
  {
    assert order[..0] == [];
  }

  /** The loop did not stop before examining edge k. */
  lemma ExtendShort(edges: seq<GraphEdge>, order: seq<nat>, n: nat, k: nat)
    requires k < |order| && forall j | 0 <= j < |order| :: order[j] < |edges|
    requires forall i | 0 <= i < k :: Short(edges, order, n, i)
    requires Short(edges, order, n, k)
    ensures forall i | 0 <= i < k + 1 :: Short(edges, order, n, i)
  {
  }

  /** An edge whose ends are already in one set is rejected, and nothing else changes. */
  lemma RejectKeeps(parent: map<nat, nat>, level: map<nat, nat>, edges: seq<GraphEdge>, n: nat, order: seq<nat>, k: nat, acc: seq<GraphEdge>)
    requires Kept(parent, level, edges, n, order, k, acc) && k < |order|
    requires Inside(parent, level, edges[order[k]])
    ensures !Accepts(edges, order, k) && Kept(parent, level, edges, n, order, k + 1, acc)
  {
    var f := edges[order[k]];
    TracksConnected(parent, level, n, acc, f.source, f.target);
    ExamineStep(edges, order, k);
  }

  /**
   * One turn of the loop over the sorted edges: the edge is shown
   * COMPARING, its ends are looked up, and it is accepted (the sets are
   * united) or rejected.
   */
  method ExamineEdge(ds: DisjointSet, g: Graph, n: nat, order: seq<nat>, k: nat, edges: seq<GraphEdge>, ghost acc: seq<GraphEdge>, count: nat)
    returns (edges': seq<GraphEdge>, ghost acc': seq<GraphEdge>, count': nat, c: Step, m: Step)
    requires EndsBelow(g.edges, n) && k < |order| && ds.Valid() && Kept(ds.parent, ds.level, g.edges, n, order, k, acc)
    requires count == |acc| && edges == Marked(g.edges, order, k)
    modifies ds
    ensures ds.Valid() && Kept(ds.parent, ds.level, g.edges, n, order, k + 1, acc') && count' == |acc'|
    ensures edges' == Marked(g.edges, order, k + 1)
    ensures c == GraphStep(Graph(g.nodes, edges[order[k] := edges[order[k]].(status := Comparing)]), 15)
    ensures m == GraphStep(Graph(g.nodes, edges'), if Accepts(g.edges, order, k) then 19 else 18)
  {
    var j := order[k];
    var shown := edges[j := edges[j].(status := Comparing)];
    c := GraphStep(CloneGraph(g.nodes, shown), 15);
    var e := shown[j];
    MarkedEnds(g.edges, order, k, j);
    ghost var f := g.edges[j];
    assert e.source == f.source && e.target == f.target;
    ExamineStep(g.edges, order, k);
    var root1 := ds.Find(e.source);
    var root2 := ds.Find(e.target);
    if root1 != root2 {
      edges', acc', count', m := AcceptEdge(ds, g, n, order, k, shown, acc, count);
    } else {
      RejectKeeps(ds.parent, ds.level, g.edges, n, order, k, acc);
      edges' := shown[j := shown[j].(status := Visited)];
      count' := count;
      acc' := acc;
      m := GraphStep(CloneGraph(g.nodes, edges'), 18);
    }
  }

  /** `ds.union(...)` on an edge whose ends are in different sets: the edge is accepted and marked SORTED. */
  method AcceptEdge(ds: DisjointSet, g: Graph, n: nat, order: seq<nat>, k: nat, shown: seq<GraphEdge>, ghost acc: seq<GraphEdge>, count: nat)
    returns (edges': seq<GraphEdge>, ghost acc': seq<GraphEdge>, count': nat, m: Step)
    requires k < |order| && ds.Valid() && Kept(ds.parent, ds.level, g.edges, n, order, k, acc) && count == |acc|
    requires |shown| == |g.edges| && shown[order[k]].source == g.edges[order[k]].source && shown[order[k]].target == g.edges[order[k]].target
    requires g.edges[order[k]].source in ds.parent && g.edges[order[k]].target in ds.parent
    requires Root(ds.parent, ds.level, g.edges[order[k]].source) != Root(ds.parent, ds.level, g.edges[order[k]].target)
    modifies ds
    ensures Accepts(g.edges, order, k)
    ensures ds.Valid() && Kept(ds.parent, ds.level, g.edges, n, order, k + 1, acc') && count' == |acc'|
    ensures edges' == shown[order[k] := shown[order[k]].(status := Sorted)]
    ensures m == GraphStep(Graph(g.nodes, edges'), 19)
  {
    var j := order[k];
    ghost var f := g.edges[j];
    ghost var r1 := Root(ds.parent, ds.level, f.source);
    ghost var r2 := Root(ds.parent, ds.level, f.target);
    TracksConnected(ds.parent, ds.level, n, acc, f.source, f.target);
    ExamineStep(g.edges, order, k);
    TracksLink(ds.parent, ds.level, n, acc, f);
    KeepInside(ds.parent, ds.level, r1, r2, g.edges, order, k);
    LinkRootAll(ds.parent, ds.level, r1, r2);
    assert Moved(ds.parent, ds.level, r1, r2, f.source) && Moved(ds.parent, ds.level, r1, r2, f.target);
    var merged, _, _ := ds.Union(shown[j].source, shown[j].target);
    edges' := shown[j := shown[j].(status := Sorted)];
    count' := count + 1;
    acc' := acc + [f];
    m := GraphStep(CloneGraph(g.nodes, edges'), 19);
  }

  /**
   * `generateKruskalSteps`: a random graph, its edges sorted by weight, one
   * COMPARING step and one verdict step per examined edge, a last step at
   * line 24. The accepted edges are exactly the greedy choice: each joins
   * two nodes the earlier accepted edges leave unconnected. The loop stops
   * at the first moment nodeCount - 1 edges are accepted, and by then they
   * connect every node: a spanning tree.
   */
  method GenerateKruskalSteps(input: seq<Bar>, draws: seq<real>) returns (steps: seq<Step>, ghost g: Graph, ghost examined: nat)
    requires forall i | 0 <= i < |draws| :: 0.0 <= draws[i] < 1.0
    requires |draws| >= DrawsNeeded(NodeCount(|input|))
    ensures Generated(NodeCount(|input|), g)
    ensures examined <= |g.edges| && |steps| == 2 * examined + 2
    ensures steps[0] == GraphStep(g, 6)
    ensures forall k | 0 <= k < examined :: ExamineShown(g, Order(g.edges), steps, k)
    ensures steps[|steps| - 1] == GraphStep(Graph(g.nodes, Marked(g.edges, Order(g.edges), examined)), 24)
    ensures forall k | 0 <= k < examined :: Short(g.edges, Order(g.edges), NodeCount(|input|), k)
    ensures |Greedy(g.edges, Order(g.edges)[..examined])| == NodeCount(|input|) - 1
    ensures forall x | 0 <= x < NodeCount(|input|) :: Connected(Greedy(g.edges, Order(g.edges)[..examined]), 0, x)
  {
    var n := NodeCount(|input|);
    var graph, _ := GenerateRandomGraph(n, draws);
    g := graph;
    var order := Order(graph.edges);
    OrderCovers(graph.edges);
    GeneratedShape(n, graph);
    var ds := new DisjointSet(graph.nodes);
    TracksStart(ds.parent, ds.level, n);
    KeptStart(ds.parent, ds.level, graph.edges, n, order);
    var edges;
    ghost var acc;
    steps, edges, acc, examined := RunKruskal(ds, graph, n, order);
    Finish(n, graph, order, examined, ds.parent, ds.level, acc);
    var last := GraphStep(CloneGraph(graph.nodes, edges), 24);
    KeepShown(graph, order, steps, [last], examined);
    steps := steps + [last];
  }

  /**
   * The loop state after the first k edges of the order: the union-find
   * structure tracks the accepted edges, the edge list shows the verdicts so
   * far, fewer than n-1 edges were accepted before each examination, and two
   * snapshots were emitted per examined edge after the first one.
   */
  ghost predicate Examined(parent: map<nat, nat>, level: map<nat, nat>, graph: Graph, n: nat, order: seq<nat>, k: nat,
                           acc: seq<GraphEdge>, count: nat, edges: seq<GraphEdge>, steps: seq<Step>)
  {
    && Kept(parent, level, graph.edges, n, order, k, acc)
    && count == |acc| && edges == Marked(graph.edges, order, k)
    && (forall i | 0 <= i < k :: Short(graph.edges, order, n, i))
    && |steps| == 2 * k + 1 && steps[0] == GraphStep(graph, 6)
    && (forall i | 0 <= i < k :: ExamineShown(graph, order, steps, i))
  }

  /** One turn of the loop: examine the k-th edge of the order while fewer than n-1 edges are accepted. */
  method Advance(ds: DisjointSet, graph: Graph, n: nat, order: seq<nat>, k: nat, edges: seq<GraphEdge>,
                 ghost acc: seq<GraphEdge>, count: nat, steps: seq<Step>)
    returns (steps': seq<Step>, edges': seq<GraphEdge>, ghost acc': seq<GraphEdge>, count': nat)
    requires EndsBelow(graph.edges, n) && ds.Valid() && k < |order| && count < n - 1
    requires Examined(ds.parent, ds.level, graph, n, order, k, acc, count, edges, steps)
    modifies ds
    ensures ds.Valid() && Examined(ds.parent, ds.level, graph, n, order, k + 1, acc', count', edges', steps')
  {
    assert Short(graph.edges, order, n, k);
    ExtendShort(graph.edges, order, n, k);
    var c, m;
    edges', acc', count', c, m := ExamineEdge(ds, graph, n, order, k, edges, acc, count);
    ExtendShown(graph, order, steps, c, m, edges, edges', k);
    steps' := steps + [c, m];
  }

  /** The loop over the sorted edges, from the first snapshot (line 6) up to the break or the end of the list. */
  method RunKruskal(ds: DisjointSet, graph: Graph, n: nat, order: seq<nat>) returns (steps: seq<Step>, edges: seq<GraphEdge>, ghost acc: seq<GraphEdge>, k: nat)
    requires ds.Valid() && Kept(ds.parent, ds.level, graph.edges, n, order, 0, []) && EndsBelow(graph.edges, n)
    modifies ds
    ensures ds.Valid() && Kept(ds.parent, ds.level, graph.edges, n, order, k, acc) && edges == Marked(graph.edges, order, k)
    ensures k == |order| || |acc| >= n - 1
    ensures forall i | 0 <= i < k :: Short(graph.edges, order, n, i)
    ensures |steps| == 2 * k + 1 && steps[0] == GraphStep(graph, 6)
    ensures forall i | 0 <= i < k :: ExamineShown(graph, order, steps, i)
  {
    steps := [GraphStep(CloneGraph(graph.nodes, graph.edges), 6)];
    edges := graph.edges;
    var count: nat := 0;
    acc := [];
    k := 0;
    while k < |order|
      invariant ds.Valid() && Examined(ds.parent, ds.level, graph, n, order, k, acc, count, edges, steps)
    {
      if count >= n - 1 {
        break;
      }
      steps, edges, acc, count := Advance(ds, graph, n, order, k, edges, acc, count, steps);
      k := k + 1;
    }
  }
}
