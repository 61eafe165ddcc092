/**
 * `dfsRecursive` and `generateDFSSteps` (algorithms/graph/dfs.ts): recursive
 * depth-first search of the generated graph from `node-0`, over a shared
 * visited set, marking the edge to each new node SORTED before descending
 * and showing a backtrack step after each return.
 *
 * The search is specified by `Visit` and `Scan`, a recursive definition of
 * the visit order and of the edge that discovered each node; the simulator
 * is proved to follow it, and the search is proved to reach every node of
 * the generated graph along a tree of n - 1 distinct edges.
 */
module GraphDfs {
  import opened Types
  import opened GraphHelpers
  import opened Distinctness
  import opened SearchTree

  /** `dfsRecursive(u)` on the search so far: u joins the order, then its edges are scanned in list order. */
  ghost function Visit(edges: seq<GraphEdge>, n: nat, u: nat, s: Search): (r: Search)
    requires EndsBelow(edges, n) && u < n && OrderOk(s.order, n) && u !in s.order
    ensures OrderOk(r.order, n) && |s.order| < |r.order|
    decreases n - |s.order|, 0, 0
  {
    DistinctAppend(s.order, [u]);
    Pigeon(s.order + [u], n);
    Scan(edges, n, u, Incident(edges, u), 0, Search(s.order + [u], s.tree))
  }

  /**
   * The `for` over the edges `inc` of u from position i: an edge whose far
   * end is not yet in the order becomes that node's discovering edge, and
   * the search descends into it before going on.
   */
  ghost function Scan(edges: seq<GraphEdge>, n: nat, u: nat, inc: seq<nat>, i: nat, s: Search): (r: Search)
    requires EndsBelow(edges, n) && i <= |inc| && OrderOk(s.order, n)
    requires forall k | 0 <= k < |inc| :: inc[k] < |edges| && Touches(edges[inc[k]], u)
    ensures OrderOk(r.order, n) && |s.order| <= |r.order|
    decreases n - |s.order|, 1, |inc| - i
  {
    Pigeon(s.order, n);
    if i == |inc| then s
    else
      var e := inc[i];
      var v := Other(edges[e], u);
      if v in s.order then Scan(edges, n, u, inc, i + 1, s)
      else
        var t := Visit(edges, n, v, Search(s.order, s.tree + [e]));
        Scan(edges, n, u, inc, i + 1, t)
  }

  /** The search from `node-0`. */
  ghost function DfsFrom0(edges: seq<GraphEdge>, n: nat): Search
    requires EndsBelow(edges, n) && n > 0
  {
    Visit(edges, n, 0, Search([], []))
  }

  /** The search only appends to the order and to the tree, one tree edge per node after the first. */
  lemma {:induction false} VisitGrows(edges: seq<GraphEdge>, n: nat, u: nat, s: Search, r: Search)
    requires EndsBelow(edges, n) && u < n && OrderOk(s.order, n) && u !in s.order
    requires r == Visit(edges, n, u, s)
    ensures s.order + [u] <= r.order && s.tree <= r.tree
    ensures |r.order| - |s.order| == |r.tree| - |s.tree| + 1
    decreases n - |s.order|, 0, 0
  {
    DistinctAppend(s.order, [u]);
    Pigeon(s.order + [u], n);
    ScanGrows(edges, n, u, Incident(edges, u), 0, Search(s.order + [u], s.tree), r);
  }

  lemma {:induction false} ScanGrows(edges: seq<GraphEdge>, n: nat, u: nat, inc: seq<nat>, i: nat, s: Search, r: Search)
    requires EndsBelow(edges, n) && i <= |inc| && OrderOk(s.order, n)
    requires forall k | 0 <= k < |inc| :: inc[k] < |edges| && Touches(edges[inc[k]], u)
    requires r == Scan(edges, n, u, inc, i, s)
    ensures s.order <= r.order && s.tree <= r.tree
    ensures |r.order| - |s.order| == |r.tree| - |s.tree|
    decreases n - |s.order|, 1, |inc| - i
  {
    Pigeon(s.order, n);
    if i < |inc| {
      var e := inc[i];
      var v := Other(edges[e], u);
      if v in s.order {
        ScanGrows(edges, n, u, inc, i + 1, s, r);
      } else {
        var s' := Search(s.order, s.tree + [e]);
        var t := Visit(edges, n, v, s');
        VisitGrows(edges, n, v, s', t);
        ScanGrows(edges, n, u, inc, i + 1, t, r);
        assert s.tree <= s'.tree;
      }
    }
  }

  /** Every node the search adds is explored by the time it returns. */
  lemma {:induction false} VisitExplores(edges: seq<GraphEdge>, n: nat, u: nat, s: Search, r: Search)
    requires EndsBelow(edges, n) && u < n && OrderOk(s.order, n) && u !in s.order
    requires r == Visit(edges, n, u, s)
    ensures forall p {:trigger Explored(edges, r.order, r.order[p])} | |s.order| <= p < |r.order| :: Explored(edges, r.order, r.order[p])
    decreases n - |s.order|, 0, 0
  {
    DistinctAppend(s.order, [u]);
    Pigeon(s.order + [u], n);
    var inc := Incident(edges, u);
    var s' := Search(s.order + [u], s.tree);
    ScanExplores(edges, n, u, inc, 0, s', r);
    ScanGrows(edges, n, u, inc, 0, s', r);
    assert r.order[|s.order|] == u;
    forall j | 0 <= j < |edges| && Touches(edges[j], u) ensures Leads(edges, r.order, u, j) {
      assert j in inc;
      var k :| 0 <= k < |inc| && inc[k] == j;
    }
  }

  lemma {:induction false} ScanExplores(edges: seq<GraphEdge>, n: nat, u: nat, inc: seq<nat>, i: nat, s: Search, r: Search)
    requires EndsBelow(edges, n) && i <= |inc| && OrderOk(s.order, n)
    requires forall k | 0 <= k < |inc| :: inc[k] < |edges| && Touches(edges[inc[k]], u)
    requires r == Scan(edges, n, u, inc, i, s)
    ensures forall p {:trigger Explored(edges, r.order, r.order[p])} | |s.order| <= p < |r.order| :: Explored(edges, r.order, r.order[p])
    ensures forall k | i <= k < |inc| :: Leads(edges, r.order, u, inc[k])
    decreases n - |s.order|, 1, |inc| - i
  {
    Pigeon(s.order, n);
    if i < |inc| {
      var e := inc[i];
      var v := Other(edges[e], u);
      if v in s.order {
        ScanExplores(edges, n, u, inc, i + 1, s, r);
        ScanGrows(edges, n, u, inc, i + 1, s, r);
        var m :| 0 <= m < |s.order| && s.order[m] == v;
        assert r.order[m] == v;
      } else {
        var s' := Search(s.order, s.tree + [e]);
        var t := Visit(edges, n, v, s');
        VisitExplores(edges, n, v, s', t);
        VisitGrows(edges, n, v, s', t);
        ScanExplores(edges, n, u, inc, i + 1, t, r);
        ScanGrows(edges, n, u, inc, i + 1, t, r);
        forall p | |s.order| <= p < |t.order| ensures Explored(edges, r.order, r.order[p]) {
          assert Explored(edges, t.order, t.order[p]);
          assert r.order[p] == t.order[p];
          ExploredPrefix(edges, t.order, r.order, t.order[p]);
        }
        assert r.order[|s.order|] == v;
      }
    }
  }

  /** Each node after the first hangs off an earlier one by its discovering edge. */
  lemma {:induction false} VisitTree(edges: seq<GraphEdge>, n: nat, u: nat, s: Search, r: Search)
    requires EndsBelow(edges, n) && u < n && OrderOk(s.order, n) && u !in s.order
    requires TreeOk(edges, s.order + [u], s.tree)
    requires r == Visit(edges, n, u, s)
    ensures TreeOk(edges, r.order, r.tree)
    decreases n - |s.order|, 0, 0
  {
    DistinctAppend(s.order, [u]);
    Pigeon(s.order + [u], n);
    ScanTree(edges, n, u, Incident(edges, u), 0, Search(s.order + [u], s.tree), r);
  }

  lemma {:induction false} ScanTree(edges: seq<GraphEdge>, n: nat, u: nat, inc: seq<nat>, i: nat, s: Search, r: Search)
    requires EndsBelow(edges, n) && i <= |inc| && OrderOk(s.order, n)
    requires forall k | 0 <= k < |inc| :: inc[k] < |edges| && Touches(edges[inc[k]], u)
    requires TreeOk(edges, s.order, s.tree) && u in s.order
    requires r == Scan(edges, n, u, inc, i, s)
    ensures TreeOk(edges, r.order, r.tree)
    decreases n - |s.order|, 1, |inc| - i
  {
    Pigeon(s.order, n);
    if i < |inc| {
      var e := inc[i];
      var v := Other(edges[e], u);
      if v in s.order {
        ScanTree(edges, n, u, inc, i + 1, s, r);
      } else {
        var s' := Search(s.order, s.tree + [e]);
        var t := Visit(edges, n, v, s');
        TreeExtend(edges, s.order, s.tree, u, e);
        VisitTree(edges, n, v, s', t);
        VisitGrows(edges, n, v, s', t);
        var m :| 0 <= m < |s.order| && s.order[m] == u;
        assert t.order[m] == u;
        ScanTree(edges, n, u, inc, i + 1, t, r);
      }
    }
  }

  /**
   * On the generated graph the search from `node-0` visits all n nodes,
   * each once, and discovers them along n - 1 distinct edges, each joining
   * a node to one visited before it.
   */
  lemma DfsSpans(n: nat, g: Graph)
    requires Generated(n, g) && n > 0
    ensures EndsBelow(g.edges, n)
    ensures var r := DfsFrom0(g.edges, n);
      && OrderOk(r.order, n) && |r.order| == n && (forall i | 0 <= i < n :: i in r.order)
      && TreeOk(g.edges, r.order, r.tree) && Distinct(r.tree) && |r.tree| == n - 1
  {
    GeneratedShape(n, g);
    var s := Search([], []);
    var r := DfsFrom0(g.edges, n);
    VisitGrows(g.edges, n, 0, s, r);
    VisitExplores(g.edges, n, 0, s, r);
    VisitTree(g.edges, n, 0, s, r);
    assert r.order[0] == 0;
    Spans(n, g, r);
  }

  /**
   * The colours during the search: the nodes on the recursion stack are
   * ACTIVE, the other visited nodes VISITED, the rest DEFAULT; nothing else
   * about a node changes.
   */
  ghost predicate Painted(gNodes: seq<GraphNode>, nodes: seq<GraphNode>, order: seq<nat>, stack: set<nat>)
  {
    && |nodes| == |gNodes|
    && forall i {:trigger nodes[i]} | 0 <= i < |nodes| ::
         nodes[i] == gNodes[i].(status := if i in stack then Active else if i in order then Visited else Default)
  }

  /** The snapshot of step st shows node x with status c. */
  predicate Shows(st: Step, x: nat, c: Status)
  {
    st.graph.Some? && x < |st.graph.value.nodes| && st.graph.value.nodes[x].status == c
  }

  /** Every snapshot from position `from` on shows every node of the stack ACTIVE. */
  ghost predicate ShowsActive(steps: seq<Step>, from: nat, stack: set<nat>)
  {
    forall k, x {:trigger Shows(steps[k], x, Active)} | from <= k < |steps| && x in stack :: Shows(steps[k], x, Active)
  }

  /** Entering u: it joins the order and the stack, and turns ACTIVE. */
  lemma PaintEnter(gNodes: seq<GraphNode>, nodes: seq<GraphNode>, order: seq<nat>, stack: set<nat>, u: nat)
    requires Painted(gNodes, nodes, order, stack) && u < |nodes|
    ensures Painted(gNodes, nodes[u := nodes[u].(status := Active)], order + [u], stack + {u})
  {
    var nodes' := nodes[u := nodes[u].(status := Active)];
    forall i | 0 <= i < |nodes'| && i != u
      ensures nodes'[i] == gNodes[i].(status := if i in stack + {u} then Active else if i in order + [u] then Visited else Default)
    {
      assert nodes'[i] == nodes[i];
      assert i in order + [u] <==> i in order;
    }
  }

  /** Leaving u: it leaves the stack and turns VISITED. */
  lemma PaintLeave(gNodes: seq<GraphNode>, nodes: seq<GraphNode>, order: seq<nat>, stack: set<nat>, u: nat)
    requires Painted(gNodes, nodes, order, stack + {u}) && u < |nodes| && u in order && u !in stack
    ensures Painted(gNodes, nodes[u := nodes[u].(status := Visited)], order, stack)
  {
    var nodes' := nodes[u := nodes[u].(status := Visited)];
    forall i | 0 <= i < |nodes'| && i != u
      ensures nodes'[i] == gNodes[i].(status := if i in stack then Active else if i in order then Visited else Default)
    {
      assert nodes'[i] == nodes[i];
    }
  }

  /** A snapshot of painted nodes shows the stack ACTIVE. */
  lemma PaintedShows(gNodes: seq<GraphNode>, nodes: seq<GraphNode>, edges: seq<GraphEdge>, order: seq<nat>, stack: set<nat>, line: nat)
    requires Painted(gNodes, nodes, order, stack) && forall x | x in stack :: x < |nodes|
    ensures ShowsActive([GraphStep(Graph(nodes, edges), line)], 0, stack)
  {
    forall k, x | 0 <= k < 1 && x in stack ensures Shows([GraphStep(Graph(nodes, edges), line)][k], x, Active) {
      assert nodes[x] == gNodes[x].(status := Active);
    }
  }

  /** Two stretches of snapshots that each show the stack ACTIVE, one after the other. */
  lemma ShowsJoin(a: seq<Step>, b: seq<Step>, from: nat, stack: set<nat>)
    requires a <= b && ShowsActive(a, from, stack) && ShowsActive(b, |a|, stack)
    ensures ShowsActive(b, from, stack)
  {
    forall k, x | from <= k < |b| && x in stack ensures Shows(b[k], x, Active) {
      if k < |a| {
        assert Shows(a[k], x, Active) && a[k] == b[k];
      }
    }
  }

  /** Appending one snapshot that shows the stack ACTIVE. */
  lemma ShowsAppend(a: seq<Step>, st: Step, from: nat, stack: set<nat>)
    requires from <= |a| && ShowsActive(a, from, stack) && ShowsActive([st], 0, stack)
    ensures ShowsActive(a + [st], from, stack)
  {
    forall k, x | from <= k < |a| + 1 && x in stack ensures Shows((a + [st])[k], x, Active) {
      if k < |a| {
        assert Shows(a[k], x, Active);
      } else {
        assert Shows([st][0], x, Active);
      }
    }
  }

  /**
   * `dfsRecursive(current, visited, nodes, edges)`: the search from u
   * follows `Visit`. It shows u ACTIVE on entry (line 2), one step per node
   * it reaches and one backtrack step (line 8) per discovering edge, keeps
   * u and its callers ACTIVE in every snapshot, and leaves u VISITED.
   */
  method DfsRecursive(g: Graph, n: nat, u: nat, nodes: seq<GraphNode>, edges: seq<GraphEdge>, visited: set<nat>, steps: seq<Step>, ghost s: Search, ghost stack: set<nat>)
    returns (nodes': seq<GraphNode>, edges': seq<GraphEdge>, visited': set<nat>, steps': seq<Step>, ghost r: Search)
    requires EndsBelow(g.edges, n) && |g.nodes| == n && u < n
    requires OrderOk(s.order, n) && u !in s.order && Seen(visited, s.order) && forall x | x in stack :: x in s.order
    requires Painted(g.nodes, nodes, s.order, stack) && EdgeStatuses(g.edges, edges, s.tree)
    ensures r == Visit(g.edges, n, u, s)
    ensures Seen(visited', r.order) && Painted(g.nodes, nodes', r.order, stack) && EdgeStatuses(g.edges, edges', r.tree)
    ensures steps + [GraphStep(Graph(nodes[u := nodes[u].(status := Active)], edges), 2)] <= steps'
    ensures |steps'| + |s.order| + |s.tree| == |steps| + |r.order| + |r.tree|
    ensures ShowsActive(steps', |steps|, stack + {u})
    ensures CountLine(steps', 2) + |s.order| == CountLine(steps, 2) + |r.order|
    ensures CountLine(steps', 8) + |s.tree| == CountLine(steps, 8) + |r.tree|
    decreases n - |s.order|, 0
  {
    DistinctAppend(s.order, [u]);
    Pigeon(s.order + [u], n);
    visited' := visited + {u};
    PaintEnter(g.nodes, nodes, s.order, stack, u);
    nodes' := nodes[u := nodes[u].(status := Active)];
    edges' := edges;
    var first := GraphStep(CloneGraph(nodes', edges'), 2);
    CountAppend(steps, first, 2);
    CountAppend(steps, first, 8);
    PaintedShows(g.nodes, nodes', edges', s.order + [u], stack + {u}, 2);
    steps' := steps + [first];
    var inc := Incident(edges, u);
    IncidentSameEnds(edges, g.edges, u);
    ghost var cur := Search(s.order + [u], s.tree);
    PrefixKeeps(s.order, cur.order);
    assert u in cur.order by {
      assert cur.order[|s.order|] == u;
    }
    var i := 0;
    while i < |inc|
      invariant i <= |inc| && |s.order| < |cur.order| && OrderOk(cur.order, n) && Seen(visited', cur.order)
      invariant forall x | x in stack + {u} :: x in cur.order
      invariant Scan(g.edges, n, u, inc, i, cur) == Visit(g.edges, n, u, s)
      invariant Painted(g.nodes, nodes', cur.order, stack + {u}) && EdgeStatuses(g.edges, edges', cur.tree)
      invariant steps + [first] <= steps' && |steps'| + |s.order| + |s.tree| == |steps| + |cur.order| + |cur.tree|
      invariant ShowsActive(steps', |steps|, stack + {u})
      invariant CountLine(steps', 2) + |s.order| == CountLine(steps, 2) + |cur.order|
      invariant CountLine(steps', 8) + |s.tree| == CountLine(steps, 8) + |cur.tree|
    {
      ghost var before := steps';
      nodes', edges', visited', steps', cur := Neighbour(g, n, u, inc, i, nodes', edges', visited', steps', stack, cur);
      ShowsJoin(before, steps', |steps|, stack + {u});
      PrefixTrans(steps + [first], before, steps');
      i := i + 1;
    }
    PaintLeave(g.nodes, nodes', cur.order, stack, u);
    nodes' := nodes'[u := nodes'[u].(status := Visited)];
    r := cur;
  }

  lemma PrefixKeeps<T>(a: seq<T>, b: seq<T>)
    requires a <= b
    ensures forall x | x in a :: x in b
  {
    forall x | x in a ensures x in b {
      var k :| 0 <= k < |a| && a[k] == x;
      assert b[k] == x;
    }
  }

  /**
   * One pass of the loop over the neighbours of u: a neighbour already
   * visited is skipped, an unvisited one is descended into; either way the
   * search moves one position along the incident edges as `Scan` does.
   */
  method Neighbour(g: Graph, n: nat, u: nat, inc: seq<nat>, i: nat, nodes: seq<GraphNode>, edges: seq<GraphEdge>, visited: set<nat>, steps: seq<Step>, ghost stack: set<nat>, ghost cur: Search)
    returns (nodes': seq<GraphNode>, edges': seq<GraphEdge>, visited': set<nat>, steps': seq<Step>, ghost cur': Search)
    requires EndsBelow(g.edges, n) && |g.nodes| == n && i < |inc|
    requires forall k | 0 <= k < |inc| :: inc[k] < |g.edges| && Touches(g.edges[inc[k]], u)
    requires OrderOk(cur.order, n) && Seen(visited, cur.order) && forall x | x in stack + {u} :: x in cur.order
    requires Painted(g.nodes, nodes, cur.order, stack + {u}) && EdgeStatuses(g.edges, edges, cur.tree)
    ensures OrderOk(cur'.order, n) && cur.order <= cur'.order && Seen(visited', cur'.order) && forall x | x in stack + {u} :: x in cur'.order
    ensures Scan(g.edges, n, u, inc, i, cur) == Scan(g.edges, n, u, inc, i + 1, cur')
    ensures Painted(g.nodes, nodes', cur'.order, stack + {u}) && EdgeStatuses(g.edges, edges', cur'.tree)
    ensures steps <= steps' && |steps'| + |cur.order| + |cur.tree| == |steps| + |cur'.order| + |cur'.tree|
    ensures ShowsActive(steps', |steps|, stack + {u})
    ensures CountLine(steps', 2) + |cur.order| == CountLine(steps, 2) + |cur'.order|
    ensures CountLine(steps', 8) + |cur.tree| == CountLine(steps, 8) + |cur'.tree|
    decreases n - |cur.order|, 2
  {
    var e := inc[i];
    var v := Other(edges[e], u);
    assert edges[e] == g.edges[e].(status := edges[e].status);
    if v !in visited {
      nodes', edges', visited', steps', cur' := Descend(g, n, u, e, nodes, edges, visited, steps, stack, cur);
    } else {
      nodes', edges', visited', steps', cur' := nodes, edges, visited, steps, cur;
    }
  }

  /**
   * The body of `if (!visited.has(node.id))`: mark the edge SORTED, descend,
   * then show u ACTIVE again (line 8).
   */
  method Descend(g: Graph, n: nat, u: nat, e: nat, nodes: seq<GraphNode>, edges: seq<GraphEdge>, visited: set<nat>, steps: seq<Step>, ghost stack: set<nat>, ghost cur: Search)
    returns (nodes': seq<GraphNode>, edges': seq<GraphEdge>, visited': set<nat>, steps': seq<Step>, ghost t: Search)
    requires EndsBelow(g.edges, n) && |g.nodes| == n && e < |g.edges| && Touches(g.edges[e], u)
    requires OrderOk(cur.order, n) && Seen(visited, cur.order) && Other(g.edges[e], u) !in cur.order
    requires forall x | x in stack + {u} :: x in cur.order
    requires Painted(g.nodes, nodes, cur.order, stack + {u}) && EdgeStatuses(g.edges, edges, cur.tree)
    ensures t == Visit(g.edges, n, Other(g.edges[e], u), Search(cur.order, cur.tree + [e]))
    ensures OrderOk(t.order, n) && cur.order <= t.order && Seen(visited', t.order) && forall x | x in stack + {u} :: x in t.order
    ensures Painted(g.nodes, nodes', t.order, stack + {u}) && EdgeStatuses(g.edges, edges', t.tree)
    ensures steps <= steps' && |steps'| + |cur.order| + |cur.tree| == |steps| + |t.order| + |t.tree|
    ensures ShowsActive(steps', |steps|, stack + {u})
    ensures CountLine(steps', 2) + |cur.order| == CountLine(steps, 2) + |t.order|
    ensures CountLine(steps', 8) + |cur.tree| == CountLine(steps, 8) + |t.tree|
    decreases n - |cur.order|, 1
  {
    var v := Other(edges[e], u);
    assert edges[e] == g.edges[e].(status := edges[e].status);
    MarkEdge(g.edges, edges, cur.tree, e);
    edges' := edges[e := edges[e].(status := Sorted)];
    nodes', edges', visited', steps', t := DfsRecursive(g, n, v, nodes, edges', visited, steps, Search(cur.order, cur.tree + [e]), stack + {u});
    VisitGrows(g.edges, n, v, Search(cur.order, cur.tree + [e]), t);
    PrefixTrans(cur.order, cur.order + [v], t.order);
    PrefixKeeps(cur.order, t.order);
    nodes', steps' := Backtrack(g, u, nodes', edges', steps', steps, t.order, stack + {u});
  }

  /** Lines 47-56: u, back from a neighbour, is shown ACTIVE again (line 8). */
  method Backtrack(g: Graph, u: nat, nodes: seq<GraphNode>, edges: seq<GraphEdge>, steps: seq<Step>, ghost from: seq<Step>, ghost order: seq<nat>, ghost stack: set<nat>)
    returns (nodes': seq<GraphNode>, steps': seq<Step>)
    requires Painted(g.nodes, nodes, order, stack) && u in stack && forall x | x in stack :: x < |nodes|
    requires |from| <= |steps| && ShowsActive(steps, |from|, stack)
    ensures nodes' == nodes && steps' == steps + [GraphStep(Graph(nodes, edges), 8)]
    ensures ShowsActive(steps', |from|, stack)
    ensures CountLine(steps', 2) == CountLine(steps, 2) && CountLine(steps', 8) == CountLine(steps, 8) + 1
  {
    assert nodes[u] == g.nodes[u].(status := Active);
    nodes' := nodes[u := nodes[u].(status := Active)];
    assert nodes' == nodes;
    var back := GraphStep(CloneGraph(nodes', edges), 8);
    CountAppend(steps, back, 2);
    CountAppend(steps, back, 8);
    PaintedShows(g.nodes, nodes', edges, order, stack, 8);
    ShowsAppend(steps, back, |from|, stack);
    steps' := steps + [back];
  }

  /**
   * `generateDFSSteps`: the start step (line 1) shows the fresh graph, the
   * search from `node-0` follows `DfsFrom0` and reaches every node, and the
   * final step (line 9) shows every node VISITED and exactly the tree edges
   * SORTED.
   */
  method GenerateDfsSteps(input: seq<Bar>, draws: seq<real>) returns (steps: seq<Step>, ghost g: Graph, ghost r: Search)
    requires forall i | 0 <= i < |draws| :: 0.0 <= draws[i] < 1.0
    requires |draws| >= DrawsNeeded(NodeCount(|input|))
    ensures Generated(NodeCount(|input|), g) && EndsBelow(g.edges, NodeCount(|input|))
    ensures r == DfsFrom0(g.edges, NodeCount(|input|))
    ensures |r.order| == NodeCount(|input|) && |r.tree| == NodeCount(|input|) - 1
    ensures |steps| == 2 * NodeCount(|input|) + 1
    ensures steps[0] == GraphStep(g, 1)
    ensures steps[1] == GraphStep(Graph(g.nodes[0 := g.nodes[0].(status := Active)], g.edges), 2)
    ensures CountLine(steps, 2) == NodeCount(|input|) && CountLine(steps, 8) == NodeCount(|input|) - 1
    ensures forall k | 1 <= k < |steps| - 1 :: Shows(steps[k], 0, Active)
    ensures steps[|steps| - 1] == GraphStep(Graph(Repaint(g.nodes, Visited), MarkTree(g.edges, r.tree)), 9)
  {
    var n := NodeCount(|input|);
    var graph, _ := GenerateRandomGraph(n, draws);
    g := graph;
    DfsSpans(n, graph);
    var run, nodes, edges;
    run, nodes, edges, r := RunDfs(graph, n);
    Finished(graph.nodes, nodes, r.order);
    assert edges == MarkTree(graph.edges, r.tree);
    var last := GraphStep(CloneGraph(nodes, edges), 9);
    CountAppend(run, last, 2);
    CountAppend(run, last, 8);
    steps := run + [last];
  }

  /** The start step and the search from `node-0`. */
  method RunDfs(g: Graph, n: nat) returns (steps: seq<Step>, nodes: seq<GraphNode>, edges: seq<GraphEdge>, ghost r: Search)
    requires EndsBelow(g.edges, n) && |g.nodes| == n && n > 0
    requires forall i | 0 <= i < n :: g.nodes[i].status == Default
    requires forall j | 0 <= j < |g.edges| :: g.edges[j].status == Default
    ensures r == DfsFrom0(g.edges, n)
    ensures Painted(g.nodes, nodes, r.order, {}) && EdgeStatuses(g.edges, edges, r.tree)
    ensures |steps| == 1 + |r.order| + |r.tree|
    ensures steps[0] == GraphStep(g, 1)
    ensures steps[1] == GraphStep(Graph(g.nodes[0 := g.nodes[0].(status := Active)], g.edges), 2)
    ensures CountLine(steps, 2) == |r.order| && CountLine(steps, 8) == |r.tree|
    ensures forall k | 1 <= k < |steps| :: Shows(steps[k], 0, Active)
  {
    forall j | 0 <= j < |g.edges| ensures g.edges[j] == g.edges[j].(status := Default) {
      assert g.edges[j].status == Default;
    }
    forall i | 0 <= i < n ensures g.nodes[i] == g.nodes[i].(status := Default) {
      assert g.nodes[i].status == Default;
    }
    var start := GraphStep(CloneGraph(g.nodes, g.edges), 1);
    var visited;
    nodes, edges, visited, steps, r := DfsRecursive(g, n, 0, g.nodes, g.edges, {}, [start], Search([], []), {});
    assert steps[..2] == [start, GraphStep(Graph(g.nodes[0 := g.nodes[0].(status := Active)], g.edges), 2)];
    assert steps[1] == steps[..2][1];
    forall k | 1 <= k < |steps| ensures Shows(steps[k], 0, Active) {
      assert Shows(steps[k], 0, Active);
    }
  }

  /** Once the stack is empty and every node reached, every node is VISITED. */
  lemma Finished(gNodes: seq<GraphNode>, nodes: seq<GraphNode>, order: seq<nat>)
    requires Painted(gNodes, nodes, order, {}) && forall i | 0 <= i < |gNodes| :: i in order
    ensures nodes == Repaint(gNodes, Visited)
  {
  }
}
