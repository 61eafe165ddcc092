/**
 * `generateBFSSteps` (algorithms/graph/bfs.ts): breadth-first search of the
 * generated graph from `node-0`, with a FIFO queue of node indices and a
 * visited set, marking a node when it is enqueued.
 *
 * The search is specified by `Bfs`, a recursive definition of the visit
 * order and of the edge that discovered each node; the simulator is proved
 * to follow it, and `Bfs` is proved to reach every node of the generated
 * graph along a tree of n - 1 distinct edges.
 */
module GraphBfs {
  import opened Types
  import opened GraphHelpers
  import opened Distinctness
  import opened SearchTree

  /** The far ends, seen from u, of the edges d. */
  function Ends(edges: seq<GraphEdge>, u: nat, d: seq<nat>): (r: seq<nat>)
    requires forall k | 0 <= k < |d| :: d[k] < |edges|
    ensures |r| == |d| && forall k | 0 <= k < |d| :: r[k] == Other(edges[d[k]], u)
  {
    seq(|d|, k requires 0 <= k < |d| => Other(edges[d[k]], u))
  }

  /**
   * Scanning the edges `inc` of u in list order, the edges that reach a
   * node that is neither in `seen` nor reached by an earlier edge of the
   * scan: the edges along which one dequeue of u enqueues its neighbours.
   */
  function Discover(edges: seq<GraphEdge>, u: nat, inc: seq<nat>, seen: seq<nat>): (d: seq<nat>)
    requires forall k | 0 <= k < |inc| :: inc[k] < |edges| && Touches(edges[inc[k]], u)
    ensures forall k | 0 <= k < |d| :: d[k] < |edges| && Touches(edges[d[k]], u)
    ensures Distinct(Ends(edges, u, d))
    ensures forall k | 0 <= k < |d| :: Ends(edges, u, d)[k] !in seen
    decreases |inc|
  {
    if inc == [] then []
    else
      var last := |inc| - 1;
      var d := Discover(edges, u, inc[..last], seen);
      var v := Other(edges[inc[last]], u);
      if v in seen || v in Ends(edges, u, d) then d
      else
        assert Ends(edges, u, d + [inc[last]]) == Ends(edges, u, d) + [v];
        d + [inc[last]]
  }

  /** The scan misses no neighbour: the far end of every scanned edge was seen before or is discovered. */
  lemma {:induction false} DiscoverCovers(edges: seq<GraphEdge>, u: nat, inc: seq<nat>, seen: seq<nat>, k: nat)
    requires forall m | 0 <= m < |inc| :: inc[m] < |edges| && Touches(edges[inc[m]], u)
    requires k < |inc|
    ensures Other(edges[inc[k]], u) in seen || Other(edges[inc[k]], u) in Ends(edges, u, Discover(edges, u, inc, seen))
    decreases |inc|
  {
    var last := |inc| - 1;
    var d := Discover(edges, u, inc[..last], seen);
    if k < last {
      assert inc[..last][k] == inc[k];
      DiscoverCovers(edges, u, inc[..last], seen, k);
      var v := Other(edges[inc[last]], u);
      if !(v in seen || v in Ends(edges, u, d)) {
        assert Ends(edges, u, d + [inc[last]]) == Ends(edges, u, d) + [v];
      }
    } else {
      var v := Other(edges[inc[last]], u);
      if !(v in seen || v in Ends(edges, u, d)) {
        assert Ends(edges, u, d + [inc[last]]) == Ends(edges, u, d) + [v];
      }
    }
  }

  /**
   * Breadth-first search: dequeue the node at position `head` of the order,
   * append the neighbours `Discover` finds, and go on until the queue
   * `order[head..]` is empty.
   */
  ghost function Bfs(edges: seq<GraphEdge>, n: nat, order: seq<nat>, tree: seq<nat>, head: nat): Search
    requires EndsBelow(edges, n) && head <= |order| && OrderOk(order, n)
    decreases n - |order|, |order| - head
  {
    if head == |order| then Search(order, tree)
    else
      var u := order[head];
      var d := Discover(edges, u, Incident(edges, u), order);
      var next := order + Ends(edges, u, d);
      DistinctAppend(order, Ends(edges, u, d));
      Pigeon(next, n);
      Bfs(edges, n, next, tree + d, head + 1)
  }

  /** The search from `node-0`. */
  ghost function BfsFrom0(edges: seq<GraphEdge>, n: nat): Search
    requires EndsBelow(edges, n) && n > 0
  {
    Bfs(edges, n, [0], [], 0)
  }

  /** What holds of the search after `head` dequeues. */
  ghost predicate Searching(edges: seq<GraphEdge>, order: seq<nat>, tree: seq<nat>, head: nat)
    requires head <= |order|
  {
    && TreeOk(edges, order, tree)
    && forall p {:trigger Explored(edges, order, order[p])} | 0 <= p < head :: Explored(edges, order, order[p])
  }

  /** One dequeue keeps the tree linked: each new node hangs off the dequeued one. */
  lemma ExtendTree(edges: seq<GraphEdge>, order: seq<nat>, tree: seq<nat>, head: nat)
    requires head < |order| && TreeOk(edges, order, tree) && Distinct(order)
    ensures var u := order[head];
      var d := Discover(edges, u, Incident(edges, u), order);
      TreeOk(edges, order + Ends(edges, u, d), tree + d)
  {
    var u := order[head];
    var d := Discover(edges, u, Incident(edges, u), order);
    var next := order + Ends(edges, u, d);
    var tree' := tree + d;
    forall k | 0 <= k < |tree'| ensures tree'[k] < |edges| && Linked(edges[tree'[k]], next, k + 1) {
      if k < |tree| {
        assert Linked(edges[tree[k]], order, k + 1);
        assert next[..k + 1] == order[..k + 1];
      } else {
        var m := k - |tree|;
        assert tree'[k] == d[m] && next[k + 1] == Ends(edges, u, d)[m];
        assert next[head] == u && head < k + 1;
        assert next[..k + 1][head] == u;
      }
    }
  }

  /** One dequeue explores the dequeued node. */
  lemma ExploreHead(edges: seq<GraphEdge>, order: seq<nat>, head: nat)
    requires head < |order|
    ensures var u := order[head];
      var d := Discover(edges, u, Incident(edges, u), order);
      Explored(edges, order + Ends(edges, u, d), u)
  {
    var u := order[head];
    var inc := Incident(edges, u);
    var d := Discover(edges, u, inc, order);
    forall j | 0 <= j < |edges| && Touches(edges[j], u)
      ensures Leads(edges, order + Ends(edges, u, d), u, j)
    {
      assert j in inc;
      var k :| 0 <= k < |inc| && inc[k] == j;
      DiscoverCovers(edges, u, inc, order, k);
    }
  }

  /** One dequeue keeps the search invariant. */
  lemma SearchStep(edges: seq<GraphEdge>, n: nat, order: seq<nat>, tree: seq<nat>, head: nat)
    requires head < |order| && Distinct(order) && Searching(edges, order, tree, head)
    ensures var u := order[head];
      var d := Discover(edges, u, Incident(edges, u), order);
      Searching(edges, order + Ends(edges, u, d), tree + d, head + 1)
  {
    var u := order[head];
    var d := Discover(edges, u, Incident(edges, u), order);
    var next := order + Ends(edges, u, d);
    ExtendTree(edges, order, tree, head);
    ExploreHead(edges, order, head);
    forall p | 0 <= p < head + 1 ensures Explored(edges, next, next[p]) {
      if p < head {
        assert Explored(edges, order, order[p]);
        ExploredMore(edges, order, Ends(edges, u, d), order[p]);
      }
    }
  }

  lemma PrefixAppend(s: seq<nat>, a: seq<nat>, b: seq<nat>)
    requires |a + b| <= |s| && s[..|a + b|] == a + b
    ensures |a| <= |s| && s[..|a|] == a
  {
    assert s[..|a|] == s[..|a + b|][..|a|];
  }

  /** The search only appends to the order. */
  lemma {:induction false} BfsGrows(edges: seq<GraphEdge>, n: nat, order: seq<nat>, tree: seq<nat>, head: nat, r: Search)
    requires EndsBelow(edges, n) && head <= |order| && OrderOk(order, n)
    requires r == Bfs(edges, n, order, tree, head)
    ensures |order| <= |r.order| && r.order[..|order|] == order
    decreases n - |order|, |order| - head
  {
    if head < |order| {
      var u := order[head];
      var d := Discover(edges, u, Incident(edges, u), order);
      var next := order + Ends(edges, u, d);
      BfsStep(edges, n, order, tree, head);
      Pigeon(next, n);
      BfsGrows(edges, n, next, tree + d, head + 1, r);
      PrefixAppend(r.order, order, Ends(edges, u, d));
    }
  }

  /** The order stays repetition-free and within the n nodes. */
  lemma {:induction false} BfsOrderOk(edges: seq<GraphEdge>, n: nat, order: seq<nat>, tree: seq<nat>, head: nat, r: Search)
    requires EndsBelow(edges, n) && head <= |order| && OrderOk(order, n)
    requires r == Bfs(edges, n, order, tree, head)
    ensures OrderOk(r.order, n)
    decreases n - |order|, |order| - head
  {
    if head < |order| {
      var u := order[head];
      var d := Discover(edges, u, Incident(edges, u), order);
      var next := order + Ends(edges, u, d);
      BfsStep(edges, n, order, tree, head);
      Pigeon(next, n);
      BfsOrderOk(edges, n, next, tree + d, head + 1, r);
    }
  }

  /** The search keeps its invariant to the end. */
  lemma {:induction false} BfsKeeps(edges: seq<GraphEdge>, n: nat, order: seq<nat>, tree: seq<nat>, head: nat, r: Search)
    requires EndsBelow(edges, n) && head <= |order| && OrderOk(order, n)
    requires Searching(edges, order, tree, head)
    requires r == Bfs(edges, n, order, tree, head)
    ensures Searching(edges, r.order, r.tree, |r.order|)
    decreases n - |order|, |order| - head
  {
    if head < |order| {
      var u := order[head];
      var d := Discover(edges, u, Incident(edges, u), order);
      var next := order + Ends(edges, u, d);
      BfsStep(edges, n, order, tree, head);
      SearchStep(edges, n, order, tree, head);
      Pigeon(next, n);
      BfsKeeps(edges, n, next, tree + d, head + 1, r);
    }
  }

  /**
   * On the generated graph the search from `node-0` visits all n nodes,
   * each once, and discovers them along n - 1 distinct edges, each joining
   * a node to one visited before it.
   */
  lemma BfsSpans(n: nat, g: Graph)
    requires Generated(n, g) && n > 0
    ensures EndsBelow(g.edges, n)
    ensures var r := BfsFrom0(g.edges, n);
      && OrderOk(r.order, n) && |r.order| == n && (forall i | 0 <= i < n :: i in r.order)
      && TreeOk(g.edges, r.order, r.tree) && Distinct(r.tree) && |r.tree| == n - 1
  {
    GeneratedShape(n, g);
    var r := BfsFrom0(g.edges, n);
    BfsGrows(g.edges, n, [0], [], 0, r);
    BfsOrderOk(g.edges, n, [0], [], 0, r);
    BfsKeeps(g.edges, n, [0], [], 0, r);
    assert r.order[0] == r.order[..1][0] == 0;
    Spans(n, g, r);
  }

  /** Every node is the generated one with only its status changed; a node of the order has the status its place in the search gives it. */
  ghost predicate NodeStatuses(gNodes: seq<GraphNode>, nodes: seq<GraphNode>, order: seq<nat>, head: nat, current: Status)
  {
    && |nodes| == |gNodes|
    && (forall i | 0 <= i < |nodes| :: nodes[i] == gNodes[i].(status := nodes[i].status))
    && (forall p | 0 <= p < |order| :: order[p] < |nodes| &&
          nodes[order[p]].status == if p < head then Visited else if p == head then current else Comparing)
  }

  /**
   * `generateBFSSteps(initialArray)`: the trace, with the generated graph
   * and the search it follows. It starts with `node-0` queued (line 7), has
   * one step per dequeue (line 10) and one per enqueued neighbour (line
   * 15), and ends with every node VISITED and exactly the discovering edges
   * SORTED (line 20).
   */
  method GenerateBfsSteps(input: seq<Bar>, draws: seq<real>) returns (steps: seq<Step>, ghost g: Graph, ghost order: seq<nat>, ghost tree: seq<nat>)
    requires forall i | 0 <= i < |draws| :: 0.0 <= draws[i] < 1.0
    requires |draws| >= DrawsNeeded(NodeCount(|input|))
    ensures Generated(NodeCount(|input|), g) && EndsBelow(g.edges, NodeCount(|input|))
    ensures Search(order, tree) == BfsFrom0(g.edges, NodeCount(|input|))
    ensures |order| == NodeCount(|input|) && |tree| == NodeCount(|input|) - 1
    ensures |steps| == 2 * NodeCount(|input|) + 1
    ensures steps[0] == GraphStep(Graph(g.nodes[0 := g.nodes[0].(status := Comparing)], g.edges), 7)
    ensures CountLine(steps, 10) == NodeCount(|input|) && CountLine(steps, 15) == NodeCount(|input|) - 1
    ensures steps[|steps| - 1] == GraphStep(Graph(Repaint(g.nodes, Visited), MarkTree(g.edges, tree)), 20)
  {
    var n := NodeCount(|input|);
    var graph, _ := GenerateRandomGraph(n, draws);
    g := graph;
    BfsSpans(n, graph);
    forall j | 0 <= j < |graph.edges| ensures graph.edges[j].status == Default {
      assert graph.edges[j] in graph.edges;
    }
    var nodes, edges;
    ghost var head;
    steps, nodes, edges, order, tree, head := RunBfs(graph, n);
    AllVisited(graph.nodes, nodes, order);
    assert edges == MarkTree(graph.edges, tree);
    var last := GraphStep(CloneGraph(nodes, edges), 20);
    CountAppend(steps, last, 10);
    CountAppend(steps, last, 15);
    steps := steps + [last];
  }

  /** Once the search has dequeued every node, every node is VISITED. */
  lemma AllVisited(gNodes: seq<GraphNode>, nodes: seq<GraphNode>, order: seq<nat>)
    requires NodeStatuses(gNodes, nodes, order, |order|, Comparing)
    requires forall i | 0 <= i < |gNodes| :: i in order
    ensures nodes == Repaint(gNodes, Visited)
  {
    forall i | 0 <= i < |gNodes| ensures nodes[i] == gNodes[i].(status := Visited) {
      assert i in order;
      var p :| 0 <= p < |order| && order[p] == i;
    }
  }

  /** The simulator's state against the search: order, statuses and visited set agree. */
  ghost predicate State(g: Graph, n: nat, order: seq<nat>, tree: seq<nat>, head: nat, current: Status,
                        nodes: seq<GraphNode>, edges: seq<GraphEdge>, visited: set<nat>)
  {
    && EndsBelow(g.edges, n) && |g.nodes| == n
    && head < |order| && OrderOk(order, n) && |tree| + 1 == |order|
    && Seen(visited, order)
    && NodeStatuses(g.nodes, nodes, order, head, current) && EdgeStatuses(g.edges, edges, tree)
  }

  /** From the start step to the emptied queue. */
  method RunBfs(g: Graph, n: nat) returns (steps: seq<Step>, nodes: seq<GraphNode>, edges: seq<GraphEdge>, ghost order: seq<nat>, ghost tree: seq<nat>, ghost head: nat)
    requires EndsBelow(g.edges, n) && |g.nodes| == n && n > 0
    requires forall i | 0 <= i < n :: g.nodes[i].status == Default
    requires forall j | 0 <= j < |g.edges| :: g.edges[j].status == Default
    ensures Search(order, tree) == BfsFrom0(g.edges, n) && head == |order|
    ensures NodeStatuses(g.nodes, nodes, order, head, Comparing) && EdgeStatuses(g.edges, edges, tree)
    ensures |steps| == |order| + head > 0 && steps[0] == GraphStep(Graph(g.nodes[0 := g.nodes[0].(status := Comparing)], g.edges), 7)
    ensures CountLine(steps, 10) == head && CountLine(steps, 15) == |order| - 1
  {
    nodes, edges := g.nodes, g.edges;
    var queue := [0];
    var visited := {0};
    nodes := nodes[0 := nodes[0].(status := Comparing)];
    steps := [GraphStep(CloneGraph(nodes, edges), 7)];
    order, tree, head := [0], [], 0;
    ghost var first, final := steps[0], BfsFrom0(g.edges, n);
    while |queue| > 0
      invariant |order| <= n && head <= |order| && queue == order[head..]
      invariant head < |order| ==> State(g, n, order, tree, head, Comparing, nodes, edges, visited)
      invariant head == |order| ==> NodeStatuses(g.nodes, nodes, order, head, Comparing) && EdgeStatuses(g.edges, edges, tree) && |tree| + 1 == |order|
      invariant OrderOk(order, n) && Bfs(g.edges, n, order, tree, head) == final
      invariant |steps| == |order| + head && steps[0] == first
      invariant CountLine(steps, 10) == head && CountLine(steps, 15) == |order| - 1
      decreases n - |order|, |order| - head
    {
      ghost var order0, tree0, head0 := order, tree, head;
      nodes, edges, queue, visited, steps, order, tree, head := Dequeue(g, n, nodes, edges, queue, visited, steps, order, tree, head);
      BfsStep(g.edges, n, order0, tree0, head0);
      Pigeon(order, n);
    }
  }

  /** One turn of the search: the head's newly discovered neighbours join the order. */
  lemma BfsStep(edges: seq<GraphEdge>, n: nat, order: seq<nat>, tree: seq<nat>, head: nat)
    requires EndsBelow(edges, n) && head < |order| && OrderOk(order, n)
    ensures var u := order[head];
      var d := Discover(edges, u, Incident(edges, u), order);
      OrderOk(order + Ends(edges, u, d), n)
      && Bfs(edges, n, order, tree, head) == Bfs(edges, n, order + Ends(edges, u, d), tree + d, head + 1)
  {
    var u := order[head];
    var d := Discover(edges, u, Incident(edges, u), order);
    DistinctAppend(order, Ends(edges, u, d));
  }

  /**
   * One turn of the `while`: shift the queue, show the node ACTIVE (line
   * 10), scan its edges, then mark it VISITED.
   */
  method Dequeue(g: Graph, n: nat, nodes: seq<GraphNode>, edges: seq<GraphEdge>, queue: seq<nat>, visited: set<nat>, steps: seq<Step>, ghost order: seq<nat>, ghost tree: seq<nat>, ghost head: nat)
    returns (nodes': seq<GraphNode>, edges': seq<GraphEdge>, queue': seq<nat>, visited': set<nat>, steps': seq<Step>, ghost order': seq<nat>, ghost tree': seq<nat>, ghost head': nat)
    requires State(g, n, order, tree, head, Comparing, nodes, edges, visited) && queue == order[head..]
    ensures var u := order[head];
      var d := Discover(g.edges, u, Incident(g.edges, u), order);
      order' == order + Ends(g.edges, u, d) && tree' == tree + d && head' == head + 1
    ensures OrderOk(order', n) && queue' == order'[head'..] && |tree'| + 1 == |order'|
    ensures head' < |order'| ==> State(g, n, order', tree', head', Comparing, nodes', edges', visited')
    ensures NodeStatuses(g.nodes, nodes', order', head', Comparing) && EdgeStatuses(g.edges, edges', tree')
    ensures |steps'| == |steps| + 1 + |tree'| - |tree| && forall k | 0 <= k < |steps| :: steps'[k] == steps[k]
    ensures CountLine(steps', 10) == CountLine(steps, 10) + 1 && CountLine(steps', 15) == CountLine(steps, 15) + |tree'| - |tree|
  {
    var u := queue[0];
    var rest := queue[1..];
    var shown := nodes[u := nodes[u].(status := Active)];
    Activate(g.nodes, nodes, order, head);
    var s := GraphStep(CloneGraph(shown, edges), 10);
    CountAppend(steps, s, 10);
    CountAppend(steps, s, 15);
    nodes', edges', queue', visited', steps', order', tree' := ScanNeighbours(g, n, u, shown, edges, rest, visited, steps + [s], order, tree, head);
    Finish(g.nodes, nodes', order', head);
    nodes' := nodes'[u := nodes'[u].(status := Visited)];
    head' := head + 1;
  }

  /** The `for` over the current node's edges in list order, enqueuing each unvisited far end. */
  method ScanNeighbours(g: Graph, n: nat, u: nat, nodes: seq<GraphNode>, edges: seq<GraphEdge>, queue: seq<nat>, visited: set<nat>, steps: seq<Step>, ghost order: seq<nat>, ghost tree: seq<nat>, ghost head: nat)
    returns (nodes': seq<GraphNode>, edges': seq<GraphEdge>, queue': seq<nat>, visited': set<nat>, steps': seq<Step>, ghost order': seq<nat>, ghost tree': seq<nat>)
    requires State(g, n, order, tree, head, Active, nodes, edges, visited)
    requires order[head] == u && queue == order[head + 1..]
    ensures var d := Discover(g.edges, u, Incident(g.edges, u), order);
      order' == order + Ends(g.edges, u, d) && tree' == tree + d
    ensures State(g, n, order', tree', head, Active, nodes', edges', visited') && queue' == order'[head + 1..]
    ensures |steps'| == |steps| + |tree'| - |tree| && forall k | 0 <= k < |steps| :: steps'[k] == steps[k]
    ensures CountLine(steps', 10) == CountLine(steps, 10) && CountLine(steps', 15) == CountLine(steps, 15) + |tree'| - |tree|
  {
    var inc := Incident(edges, u);
    IncidentSameEnds(edges, g.edges, u);
    nodes', edges', queue', visited', steps', order', tree' := nodes, edges, queue, visited, steps, order, tree;
    var j := 0;
    ghost var d: seq<nat> := [];
    while j < |inc|
      invariant j <= |inc| && d == Discover(g.edges, u, inc[..j], order)
      invariant order' == order + Ends(g.edges, u, d) && tree' == tree + d
      invariant State(g, n, order', tree', head, Active, nodes', edges', visited') && queue' == order'[head + 1..]
      invariant |steps'| == |steps| + |d| && forall k | 0 <= k < |steps| :: steps'[k] == steps[k]
      invariant CountLine(steps', 10) == CountLine(steps, 10) && CountLine(steps', 15) == CountLine(steps, 15) + |d|
    {
      DiscoverNext(g.edges, u, inc, order, j);
      nodes', edges', queue', visited', steps', order', tree', d := ScanEdge(g, n, u, inc[j], nodes', edges', queue', visited', steps', order, tree, head, order', tree', d);
      j := j + 1;
    }
    assert inc[..|inc|] == inc;
  }

  /** Dequeuing the node at `head` shows it ACTIVE. */
  lemma Activate(gNodes: seq<GraphNode>, nodes: seq<GraphNode>, order: seq<nat>, head: nat)
    requires NodeStatuses(gNodes, nodes, order, head, Comparing) && head < |order| && Distinct(order)
    ensures var u := order[head];
      NodeStatuses(gNodes, nodes[u := nodes[u].(status := Active)], order, head, Active)
  {
    var u := order[head];
    var nodes' := nodes[u := nodes[u].(status := Active)];
    forall p | 0 <= p < |order| && p != head ensures nodes'[order[p]] == nodes[order[p]] {
      assert order[p] != order[head];
    }
  }

  /** Marking the node at `head` VISITED ends its turn; the next one becomes current. */
  lemma Finish(gNodes: seq<GraphNode>, nodes: seq<GraphNode>, order: seq<nat>, head: nat)
    requires NodeStatuses(gNodes, nodes, order, head, Active) && head < |order| && Distinct(order)
    ensures var u := order[head];
      NodeStatuses(gNodes, nodes[u := nodes[u].(status := Visited)], order, head + 1, Comparing)
  {
    var u := order[head];
    var nodes' := nodes[u := nodes[u].(status := Visited)];
    forall p | 0 <= p < |order| && p != head ensures nodes'[order[p]] == nodes[order[p]] {
      assert order[p] != order[head];
    }
  }

  /** Enqueuing a new node shows it COMPARING. */
  lemma Enqueue(gNodes: seq<GraphNode>, nodes: seq<GraphNode>, order: seq<nat>, head: nat, v: nat)
    requires NodeStatuses(gNodes, nodes, order, head, Active) && head < |order| && v < |nodes| && v !in order
    ensures NodeStatuses(gNodes, nodes[v := nodes[v].(status := Comparing)], order + [v], head, Active)
  {
    var nodes' := nodes[v := nodes[v].(status := Comparing)];
    var order' := order + [v];
    forall p | 0 <= p < |order| ensures order'[p] == order[p] && nodes'[order[p]] == nodes[order[p]] {
      assert order[p] in order;
    }
  }

  /** One pass of the `for`: the edge's far end is enqueued when not yet visited. */
  method ScanEdge(g: Graph, n: nat, u: nat, e: nat, nodes: seq<GraphNode>, edges: seq<GraphEdge>, queue: seq<nat>, visited: set<nat>, steps: seq<Step>,
                  ghost order0: seq<nat>, ghost tree0: seq<nat>, ghost head: nat, ghost order: seq<nat>, ghost tree: seq<nat>, ghost d: seq<nat>)
    returns (nodes': seq<GraphNode>, edges': seq<GraphEdge>, queue': seq<nat>, visited': set<nat>, steps': seq<Step>, ghost order': seq<nat>, ghost tree': seq<nat>, ghost d': seq<nat>)
    requires State(g, n, order, tree, head, Active, nodes, edges, visited) && queue == order[head + 1..]
    requires e < |g.edges| && Touches(g.edges[e], u)
    requires forall k | 0 <= k < |d| :: d[k] < |g.edges| && Touches(g.edges[d[k]], u)
    requires order[head] == u && order == order0 + Ends(g.edges, u, d) && tree == tree0 + d
    ensures d' == (if Other(g.edges[e], u) in order0 + Ends(g.edges, u, d) then d else d + [e])
    ensures order' == order0 + Ends(g.edges, u, d') && tree' == tree0 + d'
    ensures State(g, n, order', tree', head, Active, nodes', edges', visited') && queue' == order'[head + 1..]
    ensures |steps'| == |steps| + |d'| - |d| && forall k | 0 <= k < |steps| :: steps'[k] == steps[k]
    ensures CountLine(steps', 10) == CountLine(steps, 10) && CountLine(steps', 15) == CountLine(steps, 15) + |d'| - |d|
  {
    var v := Other(edges[e], u);
    assert v == Other(g.edges[e], u);
    assert Ends(g.edges, u, d + [e]) == Ends(g.edges, u, d) + [v];
    nodes', edges', queue', visited', steps', order', tree', d' := nodes, edges, queue, visited, steps, order, tree, d;
    if v !in visited {
      nodes', edges', queue', visited', steps', order', tree' := EnqueueNeighbour(g, n, u, e, nodes, edges, queue, visited, steps, order, tree, head);
      d' := d + [e];
    }
  }

  /** One more scanned edge: its far end is discovered exactly when it is new. */
  lemma DiscoverNext(edges: seq<GraphEdge>, u: nat, inc: seq<nat>, seen: seq<nat>, j: nat)
    requires forall m | 0 <= m < |inc| :: inc[m] < |edges| && Touches(edges[inc[m]], u)
    requires j < |inc|
    ensures var d := Discover(edges, u, inc[..j], seen);
      var v := Other(edges[inc[j]], u);
      && Discover(edges, u, inc[..j + 1], seen) == (if v in seen + Ends(edges, u, d) then d else d + [inc[j]])
      && Ends(edges, u, d + [inc[j]]) == Ends(edges, u, d) + [v]
  {
    assert inc[..j + 1][..j] == inc[..j];
    var d := Discover(edges, u, inc[..j], seen);
    assert Ends(edges, u, d + [inc[j]]) == Ends(edges, u, d) + [Other(edges[inc[j]], u)];
  }

  /** The body of the `if (!visited.has(node.id))`: mark, enqueue, colour, and show the step (line 15). */
  method EnqueueNeighbour(g: Graph, n: nat, u: nat, e: nat, nodes: seq<GraphNode>, edges: seq<GraphEdge>, queue: seq<nat>, visited: set<nat>, steps: seq<Step>, ghost order: seq<nat>, ghost tree: seq<nat>, ghost head: nat)
    returns (nodes': seq<GraphNode>, edges': seq<GraphEdge>, queue': seq<nat>, visited': set<nat>, steps': seq<Step>, ghost order': seq<nat>, ghost tree': seq<nat>)
    requires State(g, n, order, tree, head, Active, nodes, edges, visited)
    requires order[head] == u && queue == order[head + 1..]
    requires e < |g.edges| && Touches(g.edges[e], u) && Other(g.edges[e], u) !in order
    ensures order' == order + [Other(g.edges[e], u)] && tree' == tree + [e]
    ensures State(g, n, order', tree', head, Active, nodes', edges', visited') && queue' == order'[head + 1..]
    ensures steps' == steps + [GraphStep(Graph(nodes', edges'), 15)]
    ensures CountLine(steps', 10) == CountLine(steps, 10) && CountLine(steps', 15) == CountLine(steps, 15) + 1
  {
    var v := Other(edges[e], u);
    DistinctAppend(order, [v]);
    Enqueue(g.nodes, nodes, order, head, v);
    MarkEdge(g.edges, edges, tree, e);
    visited' := visited + {v};
    queue' := queue + [v];
    nodes' := nodes[v := nodes[v].(status := Comparing)];
    edges' := edges[e := edges[e].(status := Sorted)];
    steps' := steps + [GraphStep(CloneGraph(nodes', edges'), 15)];
    CountAppend(steps, steps'[|steps|], 10);
    CountAppend(steps, steps'[|steps|], 15);
    order' := order + [v];
    tree' := tree + [e];
  }
}
