/**
 * Prim's algorithm as the visualiser runs it: keys live on the graph nodes'
 * `distance` fields, the next node is found by a linear scan, and the edge
 * to a joining node's parent is painted SORTED.
 *
 * The model's state is the source's: the node and edge lists (whose
 * statuses and keys change in place), the MST set and the parent map. Ghost
 * state beside it records the order in which nodes join, the SORTED edges
 * in that order (`tree`), and the edge that set each key (`via`).
 */
module Prim {
  import opened Types
  import opened GraphHelpers
  import opened Distinctness
  import opened SearchTree

  /** Lines 31-32: every key Infinity, then `node-0`'s key 0. */
  method InitKeys(nodes: seq<GraphNode>) returns (nodes': seq<GraphNode>)
    requires |nodes| > 0
    ensures |nodes'| == |nodes|
    ensures nodes'[0] == nodes[0].(distance := Fin(0))
    ensures forall i | 0 < i < |nodes| :: nodes'[i] == nodes[i].(distance := Inf)
  {
    nodes' := nodes;
    var i := 0;
    while i < |nodes'|
      invariant i <= |nodes'| == |nodes|
      invariant forall k | 0 <= k < |nodes| :: nodes'[k] == (if k < i then nodes[k].(distance := Inf) else nodes[k])
    {
      nodes' := nodes'[i := nodes'[i].(distance := Inf)];
      i := i + 1;
    }
    nodes' := nodes'[0 := nodes'[0].(distance := Fin(0))];
  }

  /**
   * x is the node the scan picks: outside the MST, with a finite key that no
   * other node outside the MST undercuts, and strictly below the key of
   * every node before it outside the MST (the scan keeps the first minimum).
   */
  ghost predicate Chosen(nodes: seq<GraphNode>, mst: set<nat>, x: nat)
  {
    && x < |nodes| && x !in mst && nodes[x].distance.Fin?
    && (forall j | 0 <= j < |nodes| && j !in mst :: !Less(nodes[j].distance, nodes[x].distance))
    && (forall j | 0 <= j < x && j !in mst :: Less(nodes[x].distance, nodes[j].distance))
  }

  /** Lines 51-59: the linear scan for the node with the smallest key outside the MST. */
  method MinKey(nodes: seq<GraphNode>, mst: set<nat>) returns (u: Option<nat>)
    ensures u.None? <==> forall j | 0 <= j < |nodes| && j !in mst :: nodes[j].distance.Inf?
    ensures u.Some? ==> Chosen(nodes, mst, u.value)
  {
    u := None;
    var minVal := Inf;
    var i := 0;
    while i < |nodes|
      invariant i <= |nodes|
      invariant u.None? ==> minVal == Inf && forall j | 0 <= j < i && j !in mst :: nodes[j].distance.Inf?
      invariant u.Some? ==> && u.value < i && u.value !in mst && minVal == nodes[u.value].distance && minVal.Fin?
                            && (forall j | 0 <= j < i && j !in mst :: !Less(nodes[j].distance, minVal))
                            && (forall j | 0 <= j < u.value && j !in mst :: Less(minVal, nodes[j].distance))
    {
      if i !in mst && Less(nodes[i].distance, minVal) {
        minVal := nodes[i].distance;
        u := Some(i);
      }
      i := i + 1;
    }
  }

  /** The scan's choice is determined: at most one node is `Chosen`. */
  lemma ChosenUnique(nodes: seq<GraphNode>, mst: set<nat>, x: nat, y: nat)
    requires Chosen(nodes, mst, x) && Chosen(nodes, mst, y)
    ensures x == y
  {
  }

  /** The keys of the nodes outside the MST when the MST is empty: `node-0`'s is finite. */
  lemma StartPicks(nodes: seq<GraphNode>, u: nat)
    requires |nodes| > 0 && nodes[0].distance == Fin(0)
    requires forall i | 0 < i < |nodes| :: nodes[i].distance == Inf
    requires Chosen(nodes, {}, u)
    ensures u == 0
  {
  }

  /** Statuses: the node being processed ACTIVE, the other MST nodes VISITED, the rest DEFAULT; only status and key ever change. */
  ghost predicate Colours(gNodes: seq<GraphNode>, nodes: seq<GraphNode>, mst: set<nat>, active: Option<nat>)
  {
    && |nodes| == |gNodes|
    && forall i {:trigger nodes[i]} | 0 <= i < |nodes| ::
         nodes[i] == gNodes[i].(distance := nodes[i].distance,
                                status := if active == Some(i) then Active else if i in mst then Visited else Default)
  }

  /**
   * The key of node v outside the MST is finite exactly when v has a parent
   * (or v is `node-0` before the first pick), and then it is the weight of
   * the edge `via[v]` joining v to its parent, which is in the MST.
   */
  ghost predicate KeyOk(edges: seq<GraphEdge>, keys: seq<Dist>, mst: set<nat>, parent: map<nat, nat>, via: map<nat, nat>, v: nat)
    requires v < |keys|
  {
    && (keys[v].Fin? <==> (v in parent || (v == 0 && mst == {})))
    && (v in parent ==>
          && v in via && parent[v] in mst && via[v] < |edges|
          && Joins(edges[via[v]], v, parent[v]) && keys[v] == Fin(edges[via[v]].weight))
  }

  ghost predicate Keyed(edges: seq<GraphEdge>, keys: seq<Dist>, mst: set<nat>, parent: map<nat, nat>, via: map<nat, nat>)
  {
    forall v {:trigger KeyOk(edges, keys, mst, parent, via, v)} | 0 <= v < |keys| && v !in mst :: KeyOk(edges, keys, mst, parent, via, v)
  }

  /** Edge j weighs no less than the key of v. */
  ghost predicate Bounded(edges: seq<GraphEdge>, keys: seq<Dist>, v: nat, j: nat)
    requires v < |keys| && j < |edges|
  {
    !Less(Fin(edges[j].weight), keys[v])
  }

  /** Every edge from the MST to a node v outside it weighs at least v's key. */
  ghost predicate Cut(edges: seq<GraphEdge>, keys: seq<Dist>, mst: set<nat>)
  {
    forall v, j {:trigger Bounded(edges, keys, v, j)} |
      0 <= v < |keys| && v !in mst && 0 <= j < |edges| && Touches(edges[j], v) && Other(edges[j], v) in mst
      :: Bounded(edges, keys, v, j)
  }

  /** `Cut`, except for the edges of u not yet relaxed (those outside `done`). */
  ghost predicate CutBut(edges: seq<GraphEdge>, keys: seq<Dist>, mst: set<nat>, u: nat, done: seq<nat>)
  {
    forall v, j {:trigger Bounded(edges, keys, v, j)} |
      0 <= v < |keys| && v !in mst && 0 <= j < |edges| && Touches(edges[j], v) && Other(edges[j], v) in mst
      && (Other(edges[j], v) == u ==> j in done)
      :: Bounded(edges, keys, v, j)
  }

  /** The key of each node that joined through an edge is that edge's weight. */
  ghost predicate TreeKeys(edges: seq<GraphEdge>, keys: seq<Dist>, order: seq<nat>, tree: seq<nat>)
  {
    forall k {:trigger tree[k]} | 0 <= k < |tree| && k + 1 < |order| ::
      order[k + 1] < |keys| && tree[k] < |edges| && keys[order[k + 1]] == Fin(edges[tree[k]].weight)
  }

  /** Edge e has exactly one end among the first k + 1 nodes of the order. */
  ghost predicate Leaves(e: GraphEdge, order: seq<nat>, k: nat)
    requires k < |order|
  {
    (e.source in order[..k + 1]) != (e.target in order[..k + 1])
  }

  /**
   * The greedy choice: the k-th SORTED edge weighs no more than any edge
   * leaving the tree as it was when that edge joined it.
   */
  ghost predicate Greedy(edges: seq<GraphEdge>, order: seq<nat>, tree: seq<nat>)
  {
    forall k, j {:trigger Leaves(edges[j], order, k)} |
      0 <= k < |tree| && k < |order| && 0 <= j < |edges| && Leaves(edges[j], order, k)
      :: tree[k] < |edges| && edges[tree[k]].weight <= edges[j].weight
  }

  /** The MST so far: the join order, starting at `node-0`, each later node joined by its SORTED edge. */
  ghost predicate Grown(g: Graph, n: nat, order: seq<nat>, tree: seq<nat>, mst: set<nat>)
  {
    && OrderOk(order, n) && Seen(mst, order)
    && (if |order| == 0 then tree == [] else order[0] == 0 && TreeOk(g.edges, order, tree))
    && Greedy(g.edges, order, tree)
  }

  /** The simulator's state between picks. */
  ghost predicate Between(g: Graph, n: nat, order: seq<nat>, tree: seq<nat>, mst: set<nat>, parent: map<nat, nat>, via: map<nat, nat>,
                          nodes: seq<GraphNode>, edges: seq<GraphEdge>)
  {
    && EndsBelow(g.edges, n) && |g.nodes| == n && Simple(g.edges)
    && Grown(g, n, order, tree, mst)
    && Colours(g.nodes, nodes, mst, None) && EdgeStatuses(g.edges, edges, tree)
    && Keyed(g.edges, Keys(nodes), mst, parent, via) && TreeKeys(g.edges, Keys(nodes), order, tree)
    && Cut(g.edges, Keys(nodes), mst)
  }

  /** The simulator's state while u, the node just picked, is relaxing its edges. */
  ghost predicate During(g: Graph, n: nat, order: seq<nat>, tree: seq<nat>, mst: set<nat>, parent: map<nat, nat>, via: map<nat, nat>,
                         nodes: seq<GraphNode>, edges: seq<GraphEdge>, u: nat)
  {
    && EndsBelow(g.edges, n) && |g.nodes| == n && Simple(g.edges) && u < n && u in mst
    && Grown(g, n, order, tree, mst)
    && Colours(g.nodes, nodes, mst, Some(u)) && EdgeStatuses(g.edges, edges, tree)
    && Keyed(g.edges, Keys(nodes), mst, parent, via) && TreeKeys(g.edges, Keys(nodes), order, tree)
  }

  /** Where the joining node u comes from: `node-0` on the first pick, a node with a parent afterwards. */
  lemma PickKind(g: Graph, n: nat, order: seq<nat>, tree: seq<nat>, mst: set<nat>, parent: map<nat, nat>, via: map<nat, nat>,
                 nodes: seq<GraphNode>, edges: seq<GraphEdge>, u: nat)
    requires Between(g, n, order, tree, mst, parent, via, nodes, edges) && Chosen(nodes, mst, u)
    ensures |order| == 0 ==> u == 0 && mst == {} && u !in parent
    ensures |order| > 0 ==> mst != {} && u in parent && u in via && parent[u] in mst && via[u] < |g.edges|
                            && Joins(g.edges[via[u]], u, parent[u]) && nodes[u].distance == Fin(g.edges[via[u]].weight)
  {
    assert KeyOk(g.edges, Keys(nodes), mst, parent, via, u);
    if |order| == 0 {
      assert mst == {} by {
        forall x ensures x !in mst {
          assert x in mst <==> x in order;
        }
      }
    } else {
      assert order[0] in mst;
    }
  }

  /**
   * The greedy step: when u, with the smallest key outside the MST, joins
   * through an edge weighing its key, that edge weighs no more than any
   * edge leaving the MST.
   */
  lemma GreedyStep(edges: seq<GraphEdge>, keys: seq<Dist>, order: seq<nat>, tree: seq<nat>, mst: set<nat>, u: nat, e: nat)
    requires Greedy(edges, order, tree) && |tree| + 1 == |order| && Seen(mst, order) && EndsBelow(edges, |keys|)
    requires Cut(edges, keys, mst) && u < |keys| && u !in mst && e < |edges| && keys[u] == Fin(edges[e].weight)
    requires forall x | 0 <= x < |keys| && x !in mst :: !Less(keys[x], keys[u])
    ensures Greedy(edges, order + [u], tree + [e])
  {
    var order', tree' := order + [u], tree + [e];
    forall k, j | 0 <= k < |tree'| && k < |order'| && 0 <= j < |edges| && Leaves(edges[j], order', k)
      ensures tree'[k] < |edges| && edges[tree'[k]].weight <= edges[j].weight
    {
      assert order'[..k + 1] == order[..k + 1];
      if k < |tree| {
        assert Leaves(edges[j], order, k);
      } else {
        assert order[..k + 1] == order;
        var a := edges[j];
        var x := if a.source in mst then a.target else a.source;
        assert x !in mst && Touches(a, x) && Other(a, x) in mst;
        assert Bounded(edges, keys, x, j);
      }
    }
  }

  /** The join order and the SORTED edges after u joins. */
  lemma JoinGrown(g: Graph, n: nat, order: seq<nat>, tree: seq<nat>, mst: set<nat>, parent: map<nat, nat>, via: map<nat, nat>,
                  nodes: seq<GraphNode>, edges: seq<GraphEdge>, u: nat, tree': seq<nat>)
    requires Between(g, n, order, tree, mst, parent, via, nodes, edges) && Chosen(nodes, mst, u)
    requires |order| == 0 ==> tree' == tree
    requires |order| > 0 ==> u in via && tree' == tree + [via[u]]
    ensures Grown(g, n, order + [u], tree', mst + {u})
    ensures TreeKeys(g.edges, Keys(nodes), order + [u], tree')
  {
    PickKind(g, n, order, tree, mst, parent, via, nodes, edges, u);
    var order' := order + [u];
    assert u !in order;
    DistinctAppend(order, [u]);
    assert Seen(mst + {u}, order') by {
      forall x ensures x in mst + {u} <==> x in order' {
        assert x in mst <==> x in order;
      }
    }
    if |order| > 0 {
      var keys := Keys(nodes);
      var e := via[u];
      assert parent[u] in order;
      assert Other(g.edges[e], parent[u]) == u;
      TreeExtend(g.edges, order, tree, parent[u], e);
      GreedyStep(g.edges, keys, order, tree, mst, u, e);
      assert TreeKeys(g.edges, keys, order', tree');
    }
  }

  /** The keys after u joins the MST, before any of its edges is relaxed. */
  lemma JoinKeys(g: Graph, n: nat, order: seq<nat>, tree: seq<nat>, mst: set<nat>, parent: map<nat, nat>, via: map<nat, nat>,
                 nodes: seq<GraphNode>, edges: seq<GraphEdge>, u: nat)
    requires Between(g, n, order, tree, mst, parent, via, nodes, edges) && Chosen(nodes, mst, u)
    ensures Keyed(g.edges, Keys(nodes), mst + {u}, parent, via)
    ensures CutBut(g.edges, Keys(nodes), mst + {u}, u, [])
  {
    PickKind(g, n, order, tree, mst, parent, via, nodes, edges, u);
    var keys := Keys(nodes);
    forall v | 0 <= v < |keys| && v !in mst + {u} ensures KeyOk(g.edges, keys, mst + {u}, parent, via, v) {
      assert KeyOk(g.edges, keys, mst, parent, via, v);
    }
    forall v, j | 0 <= v < |keys| && v !in mst + {u} && 0 <= j < |g.edges| && Touches(g.edges[j], v) && Other(g.edges[j], v) in mst + {u}
                  && (Other(g.edges[j], v) == u ==> j in [])
      ensures Bounded(g.edges, keys, v, j)
    {
    }
  }

  /** Every edge of the tree is SORTED in the list. */
  ghost predicate TreeSorted(edges: seq<GraphEdge>, tree: seq<nat>)
  {
    forall k | 0 <= k < |tree| :: tree[k] < |edges| && edges[tree[k]].status == Sorted
  }

  /** Step st's snapshot shows edge e SORTED. */
  predicate ShowsSorted(st: Step, e: nat)
  {
    st.graph.Some? && e < |st.graph.value.edges| && st.graph.value.edges[e].status == Sorted
  }

  /** Every snapshot from position `from` on shows every edge of the tree SORTED. */
  ghost predicate AllSorted(steps: seq<Step>, from: nat, tree: seq<nat>)
  {
    forall s, k {:trigger ShowsSorted(steps[s], tree[k])} | from <= s < |steps| && 0 <= k < |tree| :: ShowsSorted(steps[s], tree[k])
  }

  /** Once SORTED, always SORTED: every snapshot from position at[k] on shows tree[k] SORTED. */
  ghost predicate Kept(steps: seq<Step>, tree: seq<nat>, at: seq<nat>)
  {
    && |at| == |tree|
    && (forall k | 0 <= k < |at| :: at[k] < |steps|)
    && forall s, k {:trigger ShowsSorted(steps[s], tree[k])} | 0 <= k < |tree| && at[k] <= s < |steps| :: ShowsSorted(steps[s], tree[k])
  }

  lemma SnapshotSorted(nodes: seq<GraphNode>, edges: seq<GraphEdge>, tree: seq<nat>, line: nat)
    requires TreeSorted(edges, tree)
    ensures AllSorted([GraphStep(Graph(nodes, edges), line)], 0, tree)
  {
    var st := [GraphStep(Graph(nodes, edges), line)];
    forall s, k | 0 <= s < 1 && 0 <= k < |tree| ensures ShowsSorted(st[s], tree[k]) {
      assert st[s].graph.value.edges == edges;
    }
  }

  /** Appending one snapshot that shows the tree SORTED. */
  lemma SortedAppend(steps: seq<Step>, st: Step, from: nat, tree: seq<nat>)
    requires from <= |steps| && AllSorted(steps, from, tree) && AllSorted([st], 0, tree)
    ensures AllSorted(steps + [st], from, tree)
  {
    forall s, k | from <= s < |steps| + 1 && 0 <= k < |tree| ensures ShowsSorted((steps + [st])[s], tree[k]) {
      if s < |steps| {
        assert ShowsSorted(steps[s], tree[k]);
      } else {
        assert ShowsSorted([st][0], tree[k]);
      }
    }
  }

  /** Two stretches of snapshots that each show the tree SORTED, one after the other. */
  lemma SortedJoin(a: seq<Step>, b: seq<Step>, from: nat, tree: seq<nat>)
    requires a <= b && from <= |a| && AllSorted(a, from, tree) && AllSorted(b, |a|, tree)
    ensures AllSorted(b, from, tree)
  {
    forall s, k | from <= s < |b| && 0 <= k < |tree| ensures ShowsSorted(b[s], tree[k]) {
      if s < |a| {
        assert ShowsSorted(a[s], tree[k]) && a[s] == b[s];
      }
    }
  }

  /** New snapshots that show the grown tree SORTED keep `Kept`. */
  lemma KeptGrow(steps: seq<Step>, steps': seq<Step>, tree: seq<nat>, at: seq<nat>, tree': seq<nat>, at': seq<nat>)
    requires Kept(steps, tree, at) && steps <= steps' && tree <= tree' && at <= at' && |at'| == |tree'|
    requires AllSorted(steps', |steps|, tree') && forall k | |at| <= k < |at'| :: |steps| <= at'[k] < |steps'|
    ensures Kept(steps', tree', at')
  {
    forall s, k | 0 <= k < |tree'| && at'[k] <= s < |steps'| ensures ShowsSorted(steps'[s], tree'[k]) {
      if s < |steps| {
        assert k < |at| && at'[k] == at[k] && tree'[k] == tree[k] && steps'[s] == steps[s];
        assert ShowsSorted(steps[s], tree[k]);
      } else {
        assert ShowsSorted(steps'[s], tree'[k]);
      }
    }
  }

  /** The picked node turns ACTIVE. */
  lemma Activate(gNodes: seq<GraphNode>, nodes: seq<GraphNode>, mst: set<nat>, u: nat)
    requires Colours(gNodes, nodes, mst, None) && u < |nodes|
    ensures Colours(gNodes, nodes[u := nodes[u].(status := Active)], mst + {u}, Some(u))
  {
    var nodes' := nodes[u := nodes[u].(status := Active)];
    forall i | 0 <= i < |nodes'|
      ensures nodes'[i] == gNodes[i].(distance := nodes'[i].distance,
                                      status := if Some(u) == Some(i) then Active else if i in mst + {u} then Visited else Default)
    {
      assert nodes[i] == gNodes[i].(distance := nodes[i].distance, status := if i in mst then Visited else Default);
    }
  }

  /** With the statuses the tree dictates, every tree edge is SORTED. */
  lemma Marked(gEdges: seq<GraphEdge>, edges: seq<GraphEdge>, order: seq<nat>, tree: seq<nat>)
    requires EdgeStatuses(gEdges, edges, tree) && (tree == [] || TreeOk(gEdges, order, tree))
    ensures TreeSorted(edges, tree)
  {
    forall k | 0 <= k < |tree| ensures tree[k] < |edges| && edges[tree[k]].status == Sorted {
      assert tree[k] < |gEdges|;
      assert edges[tree[k]] == gEdges[tree[k]].(status := if tree[k] in tree then Sorted else Default);
    }
  }

  /**
   * Lines 63-83: u joins the MST and turns ACTIVE; if it has a parent, the
   * edge `edges.find` returns for it and its parent turns SORTED; then a
   * snapshot (line 13).
   */
  method Join(g: Graph, n: nat, u: nat, nodes: seq<GraphNode>, edges: seq<GraphEdge>, mst: set<nat>, parent: map<nat, nat>, steps: seq<Step>,
              ghost via: map<nat, nat>, ghost order: seq<nat>, ghost tree: seq<nat>, ghost at: seq<nat>)
    returns (nodes': seq<GraphNode>, edges': seq<GraphEdge>, mst': set<nat>, steps': seq<Step>,
             ghost order': seq<nat>, ghost tree': seq<nat>, ghost at': seq<nat>)
    requires Between(g, n, order, tree, mst, parent, via, nodes, edges) && Chosen(nodes, mst, u)
    requires Kept(steps, tree, at)
    ensures mst' == mst + {u} && order' == order + [u]
    ensures nodes' == nodes[u := nodes[u].(status := Active)]
    ensures |order| == 0 ==> u == 0 && tree' == tree && edges' == edges && at' == at
    ensures |order| > 0 ==> && u in via && tree' == tree + [via[u]] && via[u] < |edges|
                            && edges' == edges[via[u] := edges[via[u]].(status := Sorted)] && at' == at + [|steps|]
    ensures steps' == steps + [GraphStep(Graph(nodes', edges'), 13)]
    ensures During(g, n, order', tree', mst', parent, via, nodes', edges', u) && CutBut(g.edges, Keys(nodes'), mst', u, [])
    ensures Kept(steps', tree', at')
  {
    PickKind(g, n, order, tree, mst, parent, via, nodes, edges, u);
    mst' := mst + {u};
    order' := order + [u];
    nodes' := nodes[u := nodes[u].(status := Active)];
    assert Keys(nodes') == Keys(nodes);
    edges' := edges;
    tree' := tree;
    at' := at;
    if u in parent {
      var pid := parent[u];
      var found := FindEdge(edges, u, pid);
      FoundVia(g.edges, edges, tree, u, pid, via[u]);
      if found.Some? {
        MarkEdge(g.edges, edges, tree, found.value);
        edges' := edges[found.value := edges[found.value].(status := Sorted)];
        tree' := tree + [found.value];
        at' := at + [|steps|];
      }
    }
    JoinGrown(g, n, order, tree, mst, parent, via, nodes, edges, u, tree');
    JoinKeys(g, n, order, tree, mst, parent, via, nodes, edges, u);
    Activate(g.nodes, nodes, mst, u);
    Marked(g.edges, edges', order', tree');
    var step := GraphStep(CloneGraph(nodes', edges'), 13);
    SnapshotSorted(nodes', edges', tree', 13);
    SortedAppend(steps, step, |steps|, tree');
    steps' := steps + [step];
    KeptGrow(steps, steps', tree, at, tree', at');
  }

  /** An edge from u, in the MST, to a node outside it is not a SORTED edge: both ends of those are in the MST. */
  lemma OffTree(edges: seq<GraphEdge>, order: seq<nat>, tree: seq<nat>, mst: set<nat>, u: nat, e: nat)
    requires (tree == [] || TreeOk(edges, order, tree)) && Seen(mst, order)
    requires e < |edges| && Touches(edges[e], u) && Other(edges[e], u) !in mst
    ensures e !in tree
  {
    forall k | 0 <= k < |tree| ensures tree[k] != e {
      var a := edges[tree[k]];
      assert Linked(a, order, k + 1);
      assert order[k + 1] in order && Other(a, order[k + 1]) in order;
      assert a.source in mst && a.target in mst;
    }
  }

  /** Lowering v's key through edge e from u: v gets u as parent and e as key edge. */
  lemma LowerKeyed(edges: seq<GraphEdge>, keys: seq<Dist>, mst: set<nat>, parent: map<nat, nat>, via: map<nat, nat>, u: nat, v: nat, e: nat)
    requires Keyed(edges, keys, mst, parent, via) && v < |keys| && v !in mst && u in mst
    requires e < |edges| && Joins(edges[e], v, u)
    ensures Keyed(edges, keys[v := Fin(edges[e].weight)], mst, parent[v := u], via[v := e])
  {
    var keys' := keys[v := Fin(edges[e].weight)];
    forall x | 0 <= x < |keys'| && x !in mst ensures KeyOk(edges, keys', mst, parent[v := u], via[v := e], x) {
      if x != v {
        assert KeyOk(edges, keys, mst, parent, via, x);
      }
    }
  }

  /** A strictly lighter edge e from u lowers v's key to its weight: the cut bound then holds for e too. */
  lemma LowerCut(edges: seq<GraphEdge>, keys: seq<Dist>, mst: set<nat>, u: nat, done: seq<nat>, e: nat)
    requires CutBut(edges, keys, mst, u, done) && e < |edges| && Touches(edges[e], u) && u in mst
    requires Other(edges[e], u) < |keys| && Other(edges[e], u) !in mst
    requires Less(Fin(edges[e].weight), keys[Other(edges[e], u)])
    ensures CutBut(edges, keys[Other(edges[e], u) := Fin(edges[e].weight)], mst, u, done + [e])
  {
    var v := Other(edges[e], u);
    var keys' := keys[v := Fin(edges[e].weight)];
    forall x, j | 0 <= x < |keys'| && x !in mst && 0 <= j < |edges| && Touches(edges[j], x) && Other(edges[j], x) in mst
                  && (Other(edges[j], x) == u ==> j in done + [e])
      ensures Bounded(edges, keys', x, j)
    {
      if j != e {
        assert j in done + [e] ==> j in done;
        assert Bounded(edges, keys, x, j);
      }
    }
  }

  /** An edge from u that lowers no key: the cut bound holds for it already. */
  lemma KeepCut(edges: seq<GraphEdge>, keys: seq<Dist>, mst: set<nat>, u: nat, done: seq<nat>, e: nat)
    requires CutBut(edges, keys, mst, u, done) && e < |edges| && Touches(edges[e], u) && u in mst
    requires Other(edges[e], u) < |keys|
    requires Other(edges[e], u) !in mst ==> !Less(Fin(edges[e].weight), keys[Other(edges[e], u)])
    ensures CutBut(edges, keys, mst, u, done + [e])
  {
    forall x, j | 0 <= x < |keys| && x !in mst && 0 <= j < |edges| && Touches(edges[j], x) && Other(edges[j], x) in mst
                  && (Other(edges[j], x) == u ==> j in done + [e])
      ensures Bounded(edges, keys, x, j)
    {
      if j != e {
        assert j in done + [e] ==> j in done;
      } else {
        assert x == Other(edges[e], u);
      }
    }
  }

  /** Keys of nodes outside the MST do not matter to `TreeKeys`. */
  lemma TreeKeysKeep(edges: seq<GraphEdge>, keys: seq<Dist>, keys': seq<Dist>, order: seq<nat>, tree: seq<nat>, mst: set<nat>)
    requires TreeKeys(edges, keys, order, tree) && Seen(mst, order) && |keys'| == |keys|
    requires forall x | 0 <= x < |keys| && x in mst :: keys'[x] == keys[x]
    ensures TreeKeys(edges, keys', order, tree)
  {
    forall k | 0 <= k < |tree| && k + 1 < |order|
      ensures order[k + 1] < |keys'| && tree[k] < |edges| && keys'[order[k + 1]] == Fin(edges[tree[k]].weight)
    {
      assert order[k + 1] in mst;
    }
  }

  /** Lowering the key of a node outside the MST keeps the statuses and the keys of the nodes in the MST. */
  lemma LowerState(g: Graph, n: nat, order: seq<nat>, tree: seq<nat>, mst: set<nat>, nodes: seq<GraphNode>, u: nat, v: nat, d: Dist)
    requires Colours(g.nodes, nodes, mst, Some(u)) && TreeKeys(g.edges, Keys(nodes), order, tree) && Seen(mst, order)
    requires v < |nodes| && v !in mst && u in mst
    ensures Keys(nodes[v := nodes[v].(distance := d)]) == Keys(nodes)[v := d]
    ensures Colours(g.nodes, nodes[v := nodes[v].(distance := d)], mst, Some(u))
    ensures TreeKeys(g.edges, Keys(nodes)[v := d], order, tree)
  {
    var nodes' := nodes[v := nodes[v].(distance := d)];
    assert Keys(nodes') == Keys(nodes)[v := d];
    forall i | 0 <= i < |nodes'|
      ensures nodes'[i] == g.nodes[i].(distance := nodes'[i].distance,
                                       status := if Some(u) == Some(i) then Active else if i in mst then Visited else Default)
    {
      assert nodes[i] == g.nodes[i].(distance := nodes[i].distance,
                                     status := if Some(u) == Some(i) then Active else if i in mst then Visited else Default);
    }
    TreeKeysKeep(g.edges, Keys(nodes), Keys(nodes)[v := d], order, tree, mst);
  }

  /**
   * Lines 88-117: one edge e of u. If its far end v is outside the MST, the
   * edge is compared (`Compare`); an edge to a node of the MST changes
   * nothing.
   */
  method Check(g: Graph, n: nat, u: nat, e: nat, nodes: seq<GraphNode>, edges: seq<GraphEdge>, mst: set<nat>, parent: map<nat, nat>, steps: seq<Step>,
               ghost via: map<nat, nat>, ghost order: seq<nat>, ghost tree: seq<nat>, ghost done: seq<nat>)
    returns (nodes': seq<GraphNode>, edges': seq<GraphEdge>, parent': map<nat, nat>, steps': seq<Step>, ghost via': map<nat, nat>)
    requires During(g, n, order, tree, mst, parent, via, nodes, edges, u) && CutBut(g.edges, Keys(nodes), mst, u, done)
    requires e < |g.edges| && Touches(g.edges[e], u)
    ensures edges' == edges
    ensures Other(g.edges[e], u) in mst ==> nodes' == nodes && parent' == parent && via' == via && steps' == steps
    ensures During(g, n, order, tree, mst, parent', via', nodes', edges', u) && CutBut(g.edges, Keys(nodes'), mst, u, done + [e])
    ensures steps <= steps' && AllSorted(steps', |steps|, tree) && CountLine(steps', 13) == CountLine(steps, 13)
    ensures forall x | 0 <= x < |nodes| :: nodes'[x] == nodes[x] || (x !in mst && Less(nodes'[x].distance, nodes[x].distance) && nodes'[x] == nodes[x].(distance := nodes'[x].distance))
  {
    assert edges[e] == g.edges[e].(status := edges[e].status);
    var v := Other(edges[e], u);
    if v !in mst {
      nodes', edges', parent', steps', via' := Compare(g, n, u, e, nodes, edges, mst, parent, steps, via, order, tree, done);
    } else {
      KeepCut(g.edges, Keys(nodes), mst, u, done, e);
      nodes', edges', parent', steps', via' := nodes, edges, parent, steps, via;
    }
  }

  /**
   * Lines 92-116: the edge e from u to v, outside the MST, turns COMPARING
   * (line 16); if it is strictly lighter than v's key, the key drops
   * (`Lower`); then the edge turns DEFAULT again.
   */
  method Compare(g: Graph, n: nat, u: nat, e: nat, nodes: seq<GraphNode>, edges: seq<GraphEdge>, mst: set<nat>, parent: map<nat, nat>, steps: seq<Step>,
                 ghost via: map<nat, nat>, ghost order: seq<nat>, ghost tree: seq<nat>, ghost done: seq<nat>)
    returns (nodes': seq<GraphNode>, edges': seq<GraphEdge>, parent': map<nat, nat>, steps': seq<Step>, ghost via': map<nat, nat>)
    requires During(g, n, order, tree, mst, parent, via, nodes, edges, u) && CutBut(g.edges, Keys(nodes), mst, u, done)
    requires e < |g.edges| && Touches(g.edges[e], u) && Other(g.edges[e], u) !in mst
    ensures edges' == edges
    ensures var v := Other(g.edges[e], u);
      var shown := edges[e := edges[e].(status := Comparing)];
      && (!Less(Fin(g.edges[e].weight), nodes[v].distance) ==>
            nodes' == nodes && parent' == parent && via' == via && steps' == steps + [GraphStep(Graph(nodes, shown), 16)])
      && (Less(Fin(g.edges[e].weight), nodes[v].distance) ==>
            && nodes' == nodes[v := nodes[v].(distance := Fin(g.edges[e].weight))] && parent' == parent[v := u] && via' == via[v := e]
            && steps' == steps + [GraphStep(Graph(nodes, shown), 16), GraphStep(Graph(nodes', shown), 17)])
    ensures During(g, n, order, tree, mst, parent', via', nodes', edges', u) && CutBut(g.edges, Keys(nodes'), mst, u, done + [e])
    ensures AllSorted(steps', |steps|, tree) && CountLine(steps', 13) == CountLine(steps, 13)
  {
    assert edges[e] == g.edges[e].(status := edges[e].status);
    var v := Other(edges[e], u);
    OffTree(g.edges, order, tree, mst, u, e);
    Marked(g.edges, edges, order, tree);
    edges' := edges[e := edges[e].(status := Comparing)];
    assert TreeSorted(edges', tree);
    var check := GraphStep(CloneGraph(nodes, edges'), 16);
    SnapshotSorted(nodes, edges', tree, 16);
    SortedAppend(steps, check, |steps|, tree);
    CountAppend(steps, check, 13);
    steps' := steps + [check];
    if Less(Fin(edges[e].weight), nodes[v].distance) {
      nodes', parent', steps', via' := Lower(g, n, u, e, nodes, edges, edges', parent, steps', via, order, tree, mst, done, |steps|);
    } else {
      KeepCut(g.edges, Keys(nodes), mst, u, done, e);
      nodes', parent', via' := nodes, parent, via;
    }
    edges' := edges'[e := edges'[e].(status := Default)];
    assert edges' == edges;
  }

  /**
   * Lines 103-114: the edge e from u is strictly lighter than v's key: the
   * key drops to its weight, u becomes v's parent, and a snapshot follows
   * (line 17).
   */
  method Lower(g: Graph, n: nat, u: nat, e: nat, nodes: seq<GraphNode>, edges: seq<GraphEdge>, shown: seq<GraphEdge>, parent: map<nat, nat>, steps: seq<Step>,
               ghost via: map<nat, nat>, ghost order: seq<nat>, ghost tree: seq<nat>, ghost mst: set<nat>, ghost done: seq<nat>, ghost from: nat)
    returns (nodes': seq<GraphNode>, parent': map<nat, nat>, steps': seq<Step>, ghost via': map<nat, nat>)
    requires During(g, n, order, tree, mst, parent, via, nodes, edges, u) && CutBut(g.edges, Keys(nodes), mst, u, done)
    requires e < |g.edges| && Touches(g.edges[e], u) && Other(g.edges[e], u) !in mst && TreeSorted(shown, tree)
    requires Less(Fin(g.edges[e].weight), nodes[Other(g.edges[e], u)].distance)
    requires from <= |steps| && AllSorted(steps, from, tree)
    ensures var v := Other(g.edges[e], u);
      && nodes' == nodes[v := nodes[v].(distance := Fin(g.edges[e].weight))] && parent' == parent[v := u] && via' == via[v := e]
      && steps' == steps + [GraphStep(Graph(nodes', shown), 17)]
    ensures During(g, n, order, tree, mst, parent', via', nodes', edges, u)
    ensures CutBut(g.edges, Keys(nodes'), mst, u, done + [e])
    ensures AllSorted(steps', from, tree) && CountLine(steps', 13) == CountLine(steps, 13)
  {
    var v := Other(g.edges[e], u);
    LowerState(g, n, order, tree, mst, nodes, u, v, Fin(g.edges[e].weight));
    LowerKeyed(g.edges, Keys(nodes), mst, parent, via, u, v, e);
    LowerCut(g.edges, Keys(nodes), mst, u, done, e);
    nodes' := nodes[v := nodes[v].(distance := Fin(g.edges[e].weight))];
    parent' := parent[v := u];
    via' := via[v := e];
    var update := GraphStep(CloneGraph(nodes', shown), 17);
    SnapshotSorted(nodes', shown, tree, 17);
    SortedAppend(steps, update, from, tree);
    CountAppend(steps, update, 13);
    steps' := steps + [update];
  }

  /** Once every edge of u is relaxed, the cut bound holds with no exception. */
  lemma CutEnd(edges: seq<GraphEdge>, keys: seq<Dist>, mst: set<nat>, u: nat, done: seq<nat>)
    requires CutBut(edges, keys, mst, u, done)
    requires forall j | 0 <= j < |edges| && Touches(edges[j], u) :: j in done
    ensures Cut(edges, keys, mst)
  {
    forall v, j | 0 <= v < |keys| && v !in mst && 0 <= j < |edges| && Touches(edges[j], v) && Other(edges[j], v) in mst
      ensures Bounded(edges, keys, v, j)
    {
      assert Other(edges[j], v) == u ==> Touches(edges[j], u);
    }
  }

  /**
   * Lines 86-118: every edge of u, in list order, is checked. Afterwards the
   * cut bound holds for the grown MST; only keys of nodes outside the MST
   * changed, each strictly downwards.
   */
  method Relax(g: Graph, n: nat, u: nat, nodes: seq<GraphNode>, edges: seq<GraphEdge>, mst: set<nat>, parent: map<nat, nat>, steps: seq<Step>,
               ghost via: map<nat, nat>, ghost order: seq<nat>, ghost tree: seq<nat>)
    returns (nodes': seq<GraphNode>, edges': seq<GraphEdge>, parent': map<nat, nat>, steps': seq<Step>, ghost via': map<nat, nat>)
    requires During(g, n, order, tree, mst, parent, via, nodes, edges, u) && CutBut(g.edges, Keys(nodes), mst, u, [])
    ensures edges' == edges && |nodes'| == |nodes|
    ensures During(g, n, order, tree, mst, parent', via', nodes', edges', u) && Cut(g.edges, Keys(nodes'), mst)
    ensures steps <= steps' && AllSorted(steps', |steps|, tree) && CountLine(steps', 13) == CountLine(steps, 13)
    ensures forall x | 0 <= x < |nodes| :: nodes'[x] == nodes[x] || (x !in mst && Less(nodes'[x].distance, nodes[x].distance) && nodes'[x] == nodes[x].(distance := nodes'[x].distance))
  {
    var neighbours := Incident(edges, u);
    IncidentSameEnds(edges, g.edges, u);
    nodes', edges', parent', steps', via' := nodes, edges, parent, steps, via;
    var i := 0;
    while i < |neighbours|
      invariant i <= |neighbours| && edges' == edges && |nodes'| == |nodes|
      invariant During(g, n, order, tree, mst, parent', via', nodes', edges', u) && CutBut(g.edges, Keys(nodes'), mst, u, neighbours[..i])
      invariant steps <= steps' && AllSorted(steps', |steps|, tree) && CountLine(steps', 13) == CountLine(steps, 13)
      invariant forall x | 0 <= x < |nodes| :: nodes'[x] == nodes[x] || (x !in mst && Less(nodes'[x].distance, nodes[x].distance) && nodes'[x] == nodes[x].(distance := nodes'[x].distance))
    {
      ghost var before := steps';
      nodes', edges', parent', steps', via' := Check(g, n, u, neighbours[i], nodes', edges', mst, parent', steps', via', order, tree, neighbours[..i]);
      assert neighbours[..i] + [neighbours[i]] == neighbours[..i + 1];
      SortedJoin(before, steps', |steps|, tree);
      PrefixTrans(steps, before, steps');
      i := i + 1;
    }
    assert neighbours[..i] == neighbours;
    CutEnd(g.edges, Keys(nodes'), mst, u, neighbours);
  }

  /** Line 120: u, done, turns VISITED; the state is again the one between picks. */
  lemma Leave(g: Graph, n: nat, order: seq<nat>, tree: seq<nat>, mst: set<nat>, parent: map<nat, nat>, via: map<nat, nat>,
              nodes: seq<GraphNode>, edges: seq<GraphEdge>, u: nat)
    requires During(g, n, order, tree, mst, parent, via, nodes, edges, u) && Cut(g.edges, Keys(nodes), mst)
    ensures Between(g, n, order, tree, mst, parent, via, nodes[u := nodes[u].(status := Visited)], edges)
  {
    var nodes' := nodes[u := nodes[u].(status := Visited)];
    assert Keys(nodes') == Keys(nodes);
    forall i | 0 <= i < |nodes'|
      ensures nodes'[i] == g.nodes[i].(distance := nodes'[i].distance, status := if None == Some(i) then Active else if i in mst then Visited else Default)
    {
      assert nodes[i] == g.nodes[i].(distance := nodes[i].distance, status := if Some(u) == Some(i) then Active else if i in mst then Visited else Default);
    }
  }

  /** Before the first pick. */
  lemma Start(g: Graph, n: nat, nodes: seq<GraphNode>)
    requires EndsBelow(g.edges, n) && |g.nodes| == n && n > 0 && Simple(g.edges)
    requires forall i | 0 <= i < n :: g.nodes[i].status == Default
    requires forall j | 0 <= j < |g.edges| :: g.edges[j].status == Default
    requires |nodes| == n && nodes[0] == g.nodes[0].(distance := Fin(0))
    requires forall i | 0 < i < n :: nodes[i] == g.nodes[i].(distance := Inf)
    ensures Between(g, n, [], [], {}, map[], map[], nodes, g.edges)
  {
    var keys := Keys(nodes);
    forall v | 0 <= v < |keys| ensures KeyOk(g.edges, keys, {}, map[], map[], v) {
    }
    forall i | 0 <= i < n ensures nodes[i] == g.nodes[i].(distance := nodes[i].distance, status := Default) {
    }
    forall j | 0 <= j < |g.edges| ensures g.edges[j] == g.edges[j].(status := Default) {
    }
  }

  /**
   * Line 61: no node outside the MST has a finite key. Then the MST is not
   * empty and no edge leaves it.
   */
  lemma NoPick(g: Graph, n: nat, order: seq<nat>, tree: seq<nat>, mst: set<nat>, parent: map<nat, nat>, via: map<nat, nat>,
               nodes: seq<GraphNode>, edges: seq<GraphEdge>)
    requires Between(g, n, order, tree, mst, parent, via, nodes, edges) && n > 0
    requires forall j | 0 <= j < |nodes| && j !in mst :: nodes[j].distance.Inf?
    ensures mst != {} && Closed(g.edges, mst)
  {
    var keys := Keys(nodes);
    assert 0 !in mst ==> KeyOk(g.edges, keys, mst, parent, via, 0);
    forall e | e in g.edges ensures e.source in mst <==> e.target in mst {
      var j :| 0 <= j < |g.edges| && g.edges[j] == e;
      assert e.source in mst && e.target !in mst ==> Touches(e, e.target) && Other(e, e.target) in mst && Bounded(g.edges, keys, e.target, j);
      assert e.target in mst && e.source !in mst ==> Touches(e, e.source) && Other(e, e.source) in mst && Bounded(g.edges, keys, e.source, j);
    }
  }

  /** Lines 50-120: one round; u, the pick, joins the MST, relaxes its edges and turns VISITED. */
  method Round(g: Graph, n: nat, u: nat, nodes: seq<GraphNode>, edges: seq<GraphEdge>, mst: set<nat>, parent: map<nat, nat>, steps: seq<Step>,
               ghost via: map<nat, nat>, ghost order: seq<nat>, ghost tree: seq<nat>, ghost at: seq<nat>)
    returns (nodes': seq<GraphNode>, edges': seq<GraphEdge>, mst': set<nat>, parent': map<nat, nat>, steps': seq<Step>,
             ghost via': map<nat, nat>, ghost order': seq<nat>, ghost tree': seq<nat>, ghost at': seq<nat>)
    requires Between(g, n, order, tree, mst, parent, via, nodes, edges) && Chosen(nodes, mst, u)
    requires Kept(steps, tree, at) && nodes[0].distance == Fin(0)
    ensures Between(g, n, order', tree', mst', parent', via', nodes', edges')
    ensures mst' == mst + {u} && order' == order + [u]
    ensures Kept(steps', tree', at') && nodes'[0].distance == Fin(0)
    ensures steps <= steps' && CountLine(steps', 13) == CountLine(steps, 13) + 1
  {
    nodes', edges', mst', steps', order', tree', at' := Join(g, n, u, nodes, edges, mst, parent, steps, via, order, tree, at);
    CountAppend(steps, steps'[|steps'| - 1], 13);
    assert steps + [steps'[|steps'| - 1]] == steps';
    assert 0 in mst' by {
      assert order'[0] == 0;
    }
    ghost var joined, shown := steps', nodes';
    nodes', edges', parent', steps', via' := Relax(g, n, u, nodes', edges', mst', parent, steps', via, order', tree');
    KeptGrow(joined, steps', tree', at', tree', at');
    assert nodes'[0] == shown[0];
    ghost var relaxed := nodes';
    nodes' := nodes'[u := nodes'[u].(status := Visited)];
    Leave(g, n, order', tree', mst', parent', via', relaxed, edges', u);
  }

  /**
   * Lines 31-121: keys reset, a snapshot (line 9), then up to n rounds of
   * pick, join, relax and finish, stopping early when no node outside the
   * MST has a finite key (line 61). The result is a greedy tree grown from
   * `node-0`; when it stops early, no edge leaves it.
   */
  method RunPrim(g: Graph, n: nat)
    returns (steps: seq<Step>, nodes: seq<GraphNode>, edges: seq<GraphEdge>, ghost start: seq<GraphNode>,
             mst: set<nat>, ghost order: seq<nat>, ghost tree: seq<nat>, ghost at: seq<nat>)
    requires EndsBelow(g.edges, n) && |g.nodes| == n && n > 0 && Simple(g.edges)
    requires forall i | 0 <= i < n :: g.nodes[i].status == Default
    requires forall j | 0 <= j < |g.edges| :: g.edges[j].status == Default
    ensures |start| == n && start[0] == g.nodes[0].(distance := Fin(0))
    ensures forall i | 0 < i < n :: start[i] == g.nodes[i].(distance := Inf)
    ensures |steps| > 0 && steps[0] == GraphStep(Graph(start, g.edges), 9)
    ensures Grown(g, n, order, tree, mst) && |order| > 0
    ensures |order| == n || Closed(g.edges, mst)
    ensures Colours(g.nodes, nodes, mst, None) && EdgeStatuses(g.edges, edges, tree)
    ensures nodes[0].distance == Fin(0) && TreeKeys(g.edges, Keys(nodes), order, tree)
    ensures Kept(steps, tree, at) && CountLine(steps, 13) == |order|
  {
    nodes := InitKeys(g.nodes);
    start := nodes;
    edges := g.edges;
    mst := {};
    var parent: map<nat, nat> := map[];
    ghost var via: map<nat, nat> := map[];
    order, tree, at := [], [], [];
    steps := [GraphStep(CloneGraph(nodes, edges), 9)];
    Start(g, n, nodes);
    ghost var first := steps[0];
    var i := 0;
    while i < n
      invariant i == |order| <= n
      invariant Between(g, n, order, tree, mst, parent, via, nodes, edges)
      invariant nodes[0].distance == Fin(0)
      invariant |steps| > 0 && steps[0] == first && Kept(steps, tree, at) && CountLine(steps, 13) == |order|
    {
      var pick := MinKey(nodes, mst);
      if pick.None? {
        NoPick(g, n, order, tree, mst, parent, via, nodes, edges);
        assert |order| == n || Closed(g.edges, mst);
        break;
      }
      nodes, edges, mst, parent, steps, via, order, tree, at := Round(g, n, pick.value, nodes, edges, mst, parent, steps, via, order, tree, at);
      i := i + 1;
    }
  }

  /**
   * `generatePrimSteps` (lines 26-132) on a generated graph: the tree joins
   * all n nodes along n - 1 distinct edges, each the lightest edge leaving
   * the tree of its time; every tree edge stays SORTED in every snapshot
   * from the one where it joined; the final snapshot (line 19) shows every
   * node VISITED with the weight of its tree edge as key, and exactly the
   * tree edges SORTED.
   */
  method GeneratePrimSteps(input: seq<Bar>, draws: seq<real>)
    returns (steps: seq<Step>, ghost g: Graph, ghost order: seq<nat>, ghost tree: seq<nat>, ghost final: seq<GraphNode>, ghost at: seq<nat>)
    requires forall i | 0 <= i < |draws| :: 0.0 <= draws[i] < 1.0
    requires |draws| >= DrawsNeeded(NodeCount(|input|))
    ensures Generated(NodeCount(|input|), g)
    ensures OrderOk(order, NodeCount(|input|)) && |order| == NodeCount(|input|) && order[0] == 0
    ensures TreeOk(g.edges, order, tree) && Greedy(g.edges, order, tree) && Distinct(tree) && |tree| == NodeCount(|input|) - 1
    ensures |steps| > 0 && steps[0] == GraphStep(Graph(g.nodes[0 := g.nodes[0].(distance := Fin(0))], g.edges), 9)
    ensures Kept(steps, tree, at) && CountLine(steps, 13) == NodeCount(|input|)
    ensures steps[|steps| - 1] == GraphStep(Graph(final, MarkTree(g.edges, tree)), 19)
    ensures |final| == NodeCount(|input|) && forall i | 0 <= i < |final| :: final[i] == g.nodes[i].(distance := final[i].distance, status := Visited)
    ensures final[0].distance == Fin(0) && TreeKeys(g.edges, Keys(final), order, tree)
  {
    var n := NodeCount(|input|);
    var graph, _ := GenerateRandomGraph(n, draws);
    g := graph;
    GeneratedShape(n, graph);
    GeneratedSimple(n, graph);
    forall i | 0 <= i < n ensures graph.nodes[i].status == Default {
      assert graph.nodes[i] == FreshNode(i);
    }
    forall j | 0 <= j < |graph.edges| ensures graph.edges[j].status == Default {
      assert graph.edges[j] in graph.edges;
    }
    var run, nodes, edges, mst;
    ghost var start;
    run, nodes, edges, start, mst, order, tree, at := RunPrim(graph, n);
    Spanned(n, graph, order, tree, mst);
    assert start == graph.nodes[0 := graph.nodes[0].(distance := Fin(0))] by {
      forall i | 0 < i < n ensures start[i] == graph.nodes[i] {
        assert graph.nodes[i] == FreshNode(i);
      }
    }
    forall i | 0 <= i < n ensures nodes[i] == graph.nodes[i].(distance := nodes[i].distance, status := Visited) {
      assert i in mst;
    }
    assert edges == MarkTree(graph.edges, tree);
    final := nodes;
    Marked(graph.edges, edges, order, tree);
    var last := GraphStep(CloneGraph(nodes, edges), 19);
    SnapshotSorted(nodes, edges, tree, 19);
    SortedAppend(run, last, |run|, tree);
    CountAppend(run, last, 13);
    steps := run + [last];
    KeptGrow(run, steps, tree, at, tree, at);
  }

  /** The greedy tree of a generated graph reaches every node, along n - 1 distinct edges. */
  lemma Spanned(n: nat, g: Graph, order: seq<nat>, tree: seq<nat>, mst: set<nat>)
    requires Generated(n, g) && n > 0 && Grown(g, n, order, tree, mst) && |order| > 0
    requires |order| == n || Closed(g.edges, mst)
    ensures |order| == n && (forall i | 0 <= i < n :: i in mst) && Distinct(tree) && |tree| == n - 1
  {
    if |order| < n {
      assert 0 in mst by {
        assert order[0] == 0;
      }
      RingCovers(n, g, mst);
      forall x | 0 <= x < n ensures x in order {
        assert x in mst;
      }
      Covers(order, n);
    }
    Pigeon(order, n);
    Full(order, n);
    forall x | 0 <= x < n ensures x in mst {
      assert x in order;
    }
    TreeDistinct(g.edges, order, tree);
  }
}
