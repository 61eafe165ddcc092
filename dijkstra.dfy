/**
 * Dijkstra's algorithm as the visualiser runs it from `node-0`: the
 * frontier is a list of `{ id, dist }` entries, sorted by distance before
 * each extraction, whose first entry is removed; a neighbour's distance is
 * lowered only by a strictly shorter route, updating its frontier entry in
 * place or appending one; at the end the parent tree is painted SORTED.
 *
 * The model's state is the source's: the node and edge lists (whose
 * statuses and distances change in place), the frontier, the visited set,
 * and the parent map, whose key insertion order is kept as `children`.
 * Ghost state beside it records the extraction order and the edge `via[v]`
 * that last lowered each distance.
 */
module Dijkstra {
  import opened Types
  import opened GraphHelpers
  import opened Distinctness
  import opened StableSort
  import opened SearchTree
  import opened Paths

  /** A frontier entry `{ id, dist }`; its label is display text and is not modelled. */
  datatype Entry = Entry(id: nat, dist: nat)

  /** The key of the frontier sort `(a, b) => a.dist - b.dist`. */
  function EntryDist(e: Entry): int
  {
    e.dist
  }

  /** `pq.find(p => p.id === id)`: the position of the first entry for id, if any. */
  function FindEntry(pq: seq<Entry>, id: nat): (r: Option<nat>)
    ensures r.None? <==> forall k | 0 <= k < |pq| :: pq[k].id != id
    ensures r.Some? ==> r.value < |pq| && pq[r.value].id == id && forall k | 0 <= k < r.value :: pq[k].id != id
  {
    if |pq| == 0 then None
    else if pq[0].id == id then Some(0)
    else
      var r := FindEntry(pq[1..], id);
      assert forall k | 1 <= k < |pq| :: pq[k] == pq[1..][k - 1];
      if r.None? then None else Some(r.value + 1)
  }

  /** Every edge weighs at least 1, as every generated edge does. */
  ghost predicate Positive(edges: seq<GraphEdge>)
  {
    forall j | 0 <= j < |edges| :: edges[j].weight > 0
  }

  /**
   * The frontier holds exactly one entry for each unvisited node of finite
   * distance, carrying that distance, and nothing else.
   */
  ghost predicate Frontier(pq: seq<Entry>, dist: seq<Dist>, visited: set<nat>)
  {
    && (forall k | 0 <= k < |pq| :: pq[k].id < |dist| && pq[k].id !in visited && dist[pq[k].id] == Fin(pq[k].dist))
    && (forall v | 0 <= v < |dist| && v !in visited && dist[v].Fin? :: Entry(v, dist[v].d) in pq)
    && (forall i, j | 0 <= i < j < |pq| :: pq[i].id != pq[j].id)
  }

  /** Visited nodes have finite distances, none larger than the distance of an unvisited node. */
  ghost predicate Settled(dist: seq<Dist>, visited: set<nat>)
  {
    && (forall x | x in visited :: x < |dist| && dist[x].Fin?)
    && forall x, y | x in visited && 0 <= y < |dist| && y !in visited :: !Less(dist[y], dist[x])
  }

  /** u, the node being processed, has the largest distance of the visited nodes. */
  ghost predicate Latest(dist: seq<Dist>, visited: set<nat>, u: nat)
    requires u < |dist|
  {
    forall x | x in visited && x < |dist| :: !Less(dist[u], dist[x])
  }

  /** Every edge at a visited node is relaxed, except the edges of u not yet in `done`. */
  ghost predicate RelaxedBut(edges: seq<GraphEdge>, dist: seq<Dist>, visited: set<nat>, u: nat, done: seq<nat>)
  {
    forall j, a {:trigger Within(edges, dist, j, a)} |
      0 <= j < |edges| && 0 <= a < |dist| && a in visited && Touches(edges[j], a) && dist[a].Fin? && Other(edges[j], a) < |dist|
      && (a == u ==> j in done)
      :: Within(edges, dist, j, a)
  }

  /** Every edge at a visited node is relaxed. */
  ghost predicate RelaxedFrom(edges: seq<GraphEdge>, dist: seq<Dist>, visited: set<nat>)
  {
    forall j, a {:trigger Within(edges, dist, j, a)} |
      0 <= j < |edges| && 0 <= a < |dist| && a in visited && Touches(edges[j], a) && dist[a].Fin? && Other(edges[j], a) < |dist|
      :: Within(edges, dist, j, a)
  }

  /** Statuses: the active node ACTIVE, the other visited nodes VISITED, the rest DEFAULT; only status and distance change. */
  ghost predicate Painted(gNodes: seq<GraphNode>, nodes: seq<GraphNode>, visited: set<nat>, active: Option<nat>)
  {
    && |nodes| == |gNodes|
    && forall i {:trigger nodes[i]} | 0 <= i < |nodes| ::
         nodes[i] == gNodes[i].(distance := nodes[i].distance,
                                status := if active == Some(i) then Active else if i in visited then Visited else Default)
  }

  /** The parent map: a shortest-path tree over the visited nodes, its keys listed once each in insertion order. */
  ghost predicate Parents(edges: seq<GraphEdge>, dist: seq<Dist>, visited: set<nat>, parent: map<nat, nat>, via: map<nat, nat>, children: seq<nat>)
  {
    && ParentTree(edges, dist, 0, parent, via)
    && (forall v | v in parent :: parent[v] in visited)
    && Distinct(children) && (forall v {:trigger v in parent} :: v in parent <==> v in children)
  }

  /** The extraction order: distinct nodes below n, `node-0` first, exactly the visited set. */
  ghost predicate Extracted(n: nat, order: seq<nat>, visited: set<nat>)
  {
    OrderOk(order, n) && Seen(visited, order) && (|order| > 0 ==> order[0] == 0)
  }

  /** The distances, frontier, parent map and order between extractions. */
  ghost predicate Settling(edges: seq<GraphEdge>, n: nat, dist: seq<Dist>, pq: seq<Entry>, visited: set<nat>, order: seq<nat>,
                           parent: map<nat, nat>, via: map<nat, nat>, children: seq<nat>)
  {
    && EndsBelow(edges, n) && |dist| == n && Positive(edges)
    && Frontier(pq, dist, visited) && Settled(dist, visited) && RelaxedFrom(edges, dist, visited)
    && Parents(edges, dist, visited, parent, via, children) && Extracted(n, order, visited)
  }

  /** The same while u, just extracted, relaxes its edges; those in `done` are relaxed. */
  ghost predicate Relaxing(edges: seq<GraphEdge>, n: nat, dist: seq<Dist>, pq: seq<Entry>, visited: set<nat>, order: seq<nat>,
                           parent: map<nat, nat>, via: map<nat, nat>, children: seq<nat>, u: nat, done: seq<nat>)
  {
    && EndsBelow(edges, n) && |dist| == n && Positive(edges) && u < n && u in visited
    && Frontier(pq, dist, visited) && Settled(dist, visited) && Latest(dist, visited, u) && RelaxedBut(edges, dist, visited, u, done)
    && Parents(edges, dist, visited, parent, via, children) && Extracted(n, order, visited)
  }

  /** The simulator's state between extractions: the distances live on the nodes. */
  ghost predicate Between(g: Graph, n: nat, nodes: seq<GraphNode>, pq: seq<Entry>, visited: set<nat>, order: seq<nat>,
                          parent: map<nat, nat>, via: map<nat, nat>, children: seq<nat>)
  {
    && |g.nodes| == n && Painted(g.nodes, nodes, visited, if visited == {} then Some(0) else None)
    && Settling(g.edges, n, Keys(nodes), pq, visited, order, parent, via, children)
  }

  /** The simulator's state while u relaxes its edges. */
  ghost predicate During(g: Graph, n: nat, nodes: seq<GraphNode>, pq: seq<Entry>, visited: set<nat>, order: seq<nat>,
                         parent: map<nat, nat>, via: map<nat, nat>, children: seq<nat>, u: nat, done: seq<nat>)
  {
    && |g.nodes| == n && Painted(g.nodes, nodes, visited, Some(u))
    && Relaxing(g.edges, n, Keys(nodes), pq, visited, order, parent, via, children, u, done)
  }

  /** Sorting rearranges the frontier, which stays a frontier. */
  lemma {:induction false} FrontierSorted(pq: seq<Entry>, sorted: seq<Entry>, dist: seq<Dist>, visited: set<nat>)
    requires Frontier(pq, dist, visited) && multiset(pq) == multiset(sorted)
    ensures Frontier(sorted, dist, visited)
  {
    DistinctPermutation(pq, sorted);
    forall k | 0 <= k < |sorted| ensures sorted[k].id < |dist| && sorted[k].id !in visited && dist[sorted[k].id] == Fin(sorted[k].dist) {
      assert sorted[k] in multiset(pq);
    }
    forall v | 0 <= v < |dist| && v !in visited && dist[v].Fin? ensures Entry(v, dist[v].d) in sorted {
      assert Entry(v, dist[v].d) in multiset(pq);
    }
  }

  /** Removing the first entry, whose node is now visited, leaves a frontier. */
  lemma {:induction false} FrontierShift(pq: seq<Entry>, dist: seq<Dist>, visited: set<nat>)
    requires Frontier(pq, dist, visited) && |pq| > 0
    ensures Frontier(pq[1..], dist, visited + {pq[0].id})
  {
    var u := pq[0].id;
    forall v | 0 <= v < |dist| && v !in visited + {u} && dist[v].Fin? ensures Entry(v, dist[v].d) in pq[1..] {
      var k :| 0 <= k < |pq| && pq[k] == Entry(v, dist[v].d);
      assert pq[1..][k - 1] == pq[k];
    }
  }

  /**
   * Lines 43-69: the frontier is sorted by distance (a snapshot, line 16)
   * and its first entry removed; that node, the earliest of the nearest,
   * turns ACTIVE and visited (a snapshot, line 19).
   */
  method Extract(g: Graph, n: nat, nodes: seq<GraphNode>, edges: seq<GraphEdge>, pq: seq<Entry>, visited: set<nat>, steps: seq<Step>,
                 ghost order: seq<nat>, parent: map<nat, nat>, ghost via: map<nat, nat>, children: seq<nat>)
    returns (u: nat, nodes': seq<GraphNode>, pq': seq<Entry>, visited': set<nat>, steps': seq<Step>, ghost order': seq<nat>)
    requires Between(g, n, nodes, pq, visited, order, parent, via, children) && |pq| > 0
    ensures u == pq[FirstMin(pq, EntryDist)].id && pq' == SortBy(pq, EntryDist)[1..]
    ensures u !in visited && visited' == visited + {u} && order' == order + [u]
    ensures nodes' == nodes[u := nodes[u].(status := Active)]
    ensures steps' == steps + [GraphStep(Graph(nodes, edges), 16), GraphStep(Graph(nodes', edges), 19)]
    ensures During(g, n, nodes', pq', visited', order', parent, via, children, u, [])
  {
    var sorted := SortBy(pq, EntryDist);
    SortByPermutes(pq, EntryDist);
    SortByHead(pq, EntryDist);
    steps' := steps + [GraphStep(CloneGraph(nodes, edges), 16)];
    var current := sorted[0];
    pq' := sorted[1..];
    u := current.id;
    nodes' := nodes[u := nodes[u].(status := Active)];
    visited' := visited + {u};
    order' := order + [u];
    steps' := steps' + [GraphStep(CloneGraph(nodes', edges), 19)];
    forall k | 0 <= k < |sorted| ensures sorted[0].dist <= sorted[k].dist {
      assert EntryDist(sorted[0]) <= EntryDist(sorted[k]);
    }
    TakeNearest(g, n, nodes, pq, visited, order, parent, via, children, sorted);
  }

  /** Taking a nearest entry off a rearranged frontier passes from Between to During. */
  lemma {:induction false} TakeNearest(g: Graph, n: nat, nodes: seq<GraphNode>, pq: seq<Entry>, visited: set<nat>, order: seq<nat>,
                                      parent: map<nat, nat>, via: map<nat, nat>, children: seq<nat>, sorted: seq<Entry>)
    requires Between(g, n, nodes, pq, visited, order, parent, via, children)
    requires multiset(sorted) == multiset(pq) && sorted != []
    requires forall k | 0 <= k < |sorted| :: sorted[0].dist <= sorted[k].dist
    ensures sorted[0].id < |nodes| && sorted[0].id !in visited
    ensures During(g, n, nodes[sorted[0].id := nodes[sorted[0].id].(status := Active)], sorted[1..], visited + {sorted[0].id},
                   order + [sorted[0].id], parent, via, children, sorted[0].id, [])
  {
    var u := sorted[0].id;
    ghost var dist := Keys(nodes);
    FrontierSorted(pq, sorted, dist, visited);
    Picked(sorted, dist, visited);
    FrontierShift(sorted, dist, visited);
    KeysRepaint(nodes, u, Active);
    var visited' := visited + {u};
    var order' := order + [u];
    FromSource(pq, dist, visited, parent, via, children, g.edges, sorted[0]);
    ActivePainted(g.nodes, nodes, visited, u);
    ExtractedAppend(n, order, visited, u);
    RelaxedStart(g.edges, dist, visited, u);
    assert Parents(g.edges, dist, visited', parent, via, children);
  }

  /** A node just extracted has none of its edges relaxed yet; the others' stay relaxed. */
  lemma RelaxedStart(edges: seq<GraphEdge>, dist: seq<Dist>, visited: set<nat>, u: nat)
    requires RelaxedFrom(edges, dist, visited)
    ensures RelaxedBut(edges, dist, visited + {u}, u, [])
  {
  }

  /** Before any extraction the only frontier entry is `node-0`'s: no other node has a parent yet. */
  lemma FromSource(pq: seq<Entry>, dist: seq<Dist>, visited: set<nat>, parent: map<nat, nat>, via: map<nat, nat>, children: seq<nat>,
                   edges: seq<GraphEdge>, e: Entry)
    requires Frontier(pq, dist, visited) && Parents(edges, dist, visited, parent, via, children) && e in multiset(pq)
    ensures visited == {} ==> e.id == 0
  {
    assert e.id < |dist| && dist[e.id].Fin?;
    assert e.id != 0 ==> e.id in parent && parent[e.id] in visited;
  }

  /** Extraction appends the extracted node to the order. */
  lemma ExtractedAppend(n: nat, order: seq<nat>, visited: set<nat>, u: nat)
    requires Extracted(n, order, visited) && u < n && u !in visited && (visited == {} ==> u == 0)
    ensures Extracted(n, order + [u], visited + {u})
  {
    DistinctAppend(order, [u]);
    if |order| > 0 {
      assert order[0] in visited;
    }
  }

  /** Painting the extracted node ACTIVE. */
  lemma ActivePainted(gNodes: seq<GraphNode>, nodes: seq<GraphNode>, visited: set<nat>, u: nat)
    requires Painted(gNodes, nodes, visited, if visited == {} then Some(0) else None) && u < |nodes| && u !in visited
    requires visited == {} ==> u == 0
    ensures Painted(gNodes, nodes[u := nodes[u].(status := Active)], visited + {u}, Some(u))
  {
    var nodes' := nodes[u := nodes[u].(status := Active)];
    forall i | 0 <= i < |nodes'|
      ensures nodes'[i] == gNodes[i].(distance := nodes'[i].distance, status := if Some(u) == Some(i) then Active else if i in visited + {u} then Visited else Default)
    {
      assert nodes[i] == gNodes[i].(distance := nodes[i].distance,
                                    status := if (if visited == {} then Some(0) else None) == Some(i) then Active else if i in visited then Visited else Default);
    }
  }

  /** The nearest frontier entry's node is nearest among the unvisited nodes and farthest among the visited ones. */
  lemma {:induction false} Picked(pq: seq<Entry>, dist: seq<Dist>, visited: set<nat>)
    requires Frontier(pq, dist, visited) && Settled(dist, visited) && |pq| > 0
    requires forall k | 0 <= k < |pq| :: pq[0].dist <= pq[k].dist
    ensures pq[0].id < |dist| && pq[0].id !in visited && dist[pq[0].id].Fin?
    ensures Settled(dist, visited + {pq[0].id}) && Latest(dist, visited + {pq[0].id}, pq[0].id)
  {
    var u := pq[0].id;
    forall y | 0 <= y < |dist| && y !in visited + {u} ensures !Less(dist[y], dist[u]) {
      if dist[y].Fin? {
        var k :| 0 <= k < |pq| && pq[k] == Entry(y, dist[y].d);
        assert pq[0].dist <= pq[k].dist;
      }
    }
  }

  /** Lines 98-103: the first frontier entry for v takes distance d in place; without one, an entry is appended. */
  function Requeue(pq: seq<Entry>, v: nat, d: nat): seq<Entry>
  {
    match FindEntry(pq, v)
    case Some(k) => pq[k := pq[k].(dist := d)]
    case None => pq + [Entry(v, d)]
  }

  /** Requeueing v at its lowered distance d keeps the frontier exact. */
  lemma LowerFrontier(pq: seq<Entry>, dist: seq<Dist>, visited: set<nat>, v: nat, d: nat)
    requires Frontier(pq, dist, visited) && v < |dist| && v !in visited
    ensures Frontier(Requeue(pq, v, d), dist[v := Fin(d)], visited)
  {
    var r := Requeue(pq, v, d);
    var dist' := dist[v := Fin(d)];
    match FindEntry(pq, v)
    case Some(f) =>
      forall k | 0 <= k < |r| ensures r[k].id < |dist'| && r[k].id !in visited && dist'[r[k].id] == Fin(r[k].dist) {
        assert k != f ==> r[k] == pq[k] && pq[k].id != v;
      }
      forall w | 0 <= w < |dist'| && w !in visited && dist'[w].Fin? ensures Entry(w, dist'[w].d) in r {
        if w == v {
          assert r[f] == Entry(v, d);
        } else {
          var k :| 0 <= k < |pq| && pq[k] == Entry(w, dist[w].d);
          assert r[k] == pq[k];
        }
      }
    case None =>
      forall w | 0 <= w < |dist'| && w !in visited && dist'[w].Fin? ensures Entry(w, dist'[w].d) in r {
        if w == v {
          assert r[|pq|] == Entry(v, d);
        } else {
          var k :| 0 <= k < |pq| && pq[k] == Entry(w, dist[w].d);
          assert r[k] == pq[k];
        }
      }
  }

  /** A distance lowered to no less than u's keeps the visited nodes settled, u last among them. */
  lemma LowerSettled(dist: seq<Dist>, visited: set<nat>, u: nat, v: nat, d: nat)
    requires Settled(dist, visited) && u < |dist| && u in visited && Latest(dist, visited, u)
    requires v < |dist| && v !in visited && dist[u].Fin? && dist[u].d <= d
    ensures Settled(dist[v := Fin(d)], visited) && Latest(dist[v := Fin(d)], visited, u)
  {
    var dist' := dist[v := Fin(d)];
    forall x, y | x in visited && 0 <= y < |dist'| && y !in visited ensures !Less(dist'[y], dist'[x]) {
      if y != v {
        assert !Less(dist[y], dist[x]);
      } else {
        assert !Less(dist[u], dist[x]);
      }
    }
  }

  /** Lowering v through edge e of u keeps every relaxed edge relaxed, and relaxes e. */
  lemma LowerRelaxed(edges: seq<GraphEdge>, dist: seq<Dist>, visited: set<nat>, u: nat, done: seq<nat>, e: nat)
    requires RelaxedBut(edges, dist, visited, u, done) && e < |edges| && Touches(edges[e], u) && u < |dist| && dist[u].Fin?
    requires Other(edges[e], u) < |dist| && Other(edges[e], u) !in visited
    requires Less(Fin(dist[u].d + edges[e].weight), dist[Other(edges[e], u)])
    ensures RelaxedBut(edges, dist[Other(edges[e], u) := Fin(dist[u].d + edges[e].weight)], visited, u, done + [e])
  {
    var v := Other(edges[e], u);
    var dist' := dist[v := Fin(dist[u].d + edges[e].weight)];
    forall j, a | 0 <= j < |edges| && 0 <= a < |dist'| && a in visited && Touches(edges[j], a) && dist'[a].Fin? && Other(edges[j], a) < |dist'|
                  && (a == u ==> j in done + [e])
      ensures Within(edges, dist', j, a)
    {
      if j != e || a != u {
        assert a == u ==> j in done;
        assert Within(edges, dist, j, a);
      }
    }
  }

  /** An edge of u that lowers nothing is relaxed already. */
  lemma KeepRelaxed(edges: seq<GraphEdge>, dist: seq<Dist>, visited: set<nat>, u: nat, done: seq<nat>, e: nat)
    requires RelaxedBut(edges, dist, visited, u, done) && e < |edges| && Touches(edges[e], u) && u < |dist| && dist[u].Fin?
    requires Other(edges[e], u) < |dist| && !Less(Fin(dist[u].d + edges[e].weight), dist[Other(edges[e], u)])
    ensures RelaxedBut(edges, dist, visited, u, done + [e])
  {
    forall j, a | 0 <= j < |edges| && 0 <= a < |dist| && a in visited && Touches(edges[j], a) && dist[a].Fin? && Other(edges[j], a) < |dist|
                  && (a == u ==> j in done + [e])
      ensures Within(edges, dist, j, a)
    {
      if j != e || a != u {
        assert a == u ==> j in done;
      }
    }
  }

  /**
   * Lowering v through edge e of u: v's parent becomes u (a new key of the
   * map goes last; an existing key keeps its place), and the tree stays a
   * shortest-path tree over the visited nodes.
   */
  lemma LowerParents(edges: seq<GraphEdge>, dist: seq<Dist>, visited: set<nat>, parent: map<nat, nat>, via: map<nat, nat>, children: seq<nat>,
                     u: nat, e: nat)
    requires Parents(edges, dist, visited, parent, via, children) && Positive(edges)
    requires e < |edges| && Touches(edges[e], u) && u in visited && u < |dist| && dist[u].Fin?
    requires Other(edges[e], u) < |dist| && Other(edges[e], u) !in visited
    requires Less(Fin(dist[u].d + edges[e].weight), dist[Other(edges[e], u)])
    ensures var v := Other(edges[e], u);
      Parents(edges, dist[v := Fin(dist[u].d + edges[e].weight)], visited, parent[v := u], via[v := e],
              if v in parent then children else children + [v])
  {
    var v := Other(edges[e], u);
    var dist' := dist[v := Fin(dist[u].d + edges[e].weight)];
    assert v != 0 by {
      assert dist[0] == Fin(0) && edges[e].weight > 0;
    }
    forall w | w in parent ensures parent[w] != v {
      assert parent[w] in visited;
    }
    Rehang(edges, dist, 0, parent, via, v, u, e);
    if v !in parent {
      DistinctAppend(children, [v]);
    }
  }

  /** Lowering v's distance keeps every status and changes exactly v's distance. */
  lemma LowerNodes(gNodes: seq<GraphNode>, nodes: seq<GraphNode>, visited: set<nat>, u: nat, v: nat, d: Dist)
    requires Painted(gNodes, nodes, visited, Some(u)) && v < |nodes|
    ensures Keys(nodes[v := nodes[v].(distance := d)]) == Keys(nodes)[v := d]
    ensures Painted(gNodes, nodes[v := nodes[v].(distance := d)], visited, Some(u))
  {
    var nodes' := nodes[v := nodes[v].(distance := d)];
    assert Keys(nodes') == Keys(nodes)[v := d];
    forall i | 0 <= i < |nodes'|
      ensures nodes'[i] == gNodes[i].(distance := nodes'[i].distance,
                                      status := if Some(u) == Some(i) then Active else if i in visited then Visited else Default)
    {
      assert nodes[i] == gNodes[i].(distance := nodes[i].distance,
                                    status := if Some(u) == Some(i) then Active else if i in visited then Visited else Default);
    }
  }

  /** Lowering v through edge e of u to d, with the frontier and the parent map updated, keeps the invariant and relaxes e. */
  lemma LowerDist(edges: seq<GraphEdge>, n: nat, dist: seq<Dist>, pq: seq<Entry>, visited: set<nat>, order: seq<nat>,
                  parent: map<nat, nat>, via: map<nat, nat>, children: seq<nat>, u: nat, done: seq<nat>, e: nat, v: nat, d: nat)
    requires Relaxing(edges, n, dist, pq, visited, order, parent, via, children, u, done)
    requires e < |edges| && Touches(edges[e], u) && v == Other(edges[e], u) && v !in visited
    requires dist[u].Fin? && d == dist[u].d + edges[e].weight && Less(Fin(d), dist[v])
    ensures Relaxing(edges, n, dist[v := Fin(d)], Requeue(pq, v, d), visited, order, parent[v := u], via[v := e],
                     if v in parent then children else children + [v], u, done + [e])
  {
    LowerFrontier(pq, dist, visited, v, d);
    LowerSettled(dist, visited, u, v, d);
    LowerRelaxed(edges, dist, visited, u, done, e);
    LowerParents(edges, dist, visited, parent, via, children, u, e);
  }

  /** The same on the node list, whose distance fields hold the distances: the state after `Lower`. */
  lemma Lowered(g: Graph, n: nat, nodes: seq<GraphNode>, pq: seq<Entry>, visited: set<nat>, order: seq<nat>,
                parent: map<nat, nat>, via: map<nat, nat>, children: seq<nat>, u: nat, done: seq<nat>, e: nat, v: nat, d: nat,
                nodes': seq<GraphNode>, pq': seq<Entry>, parent': map<nat, nat>, via': map<nat, nat>, children': seq<nat>)
    requires During(g, n, nodes, pq, visited, order, parent, via, children, u, done)
    requires e < |g.edges| && Touches(g.edges[e], u) && v == Other(g.edges[e], u) && v !in visited
    requires nodes[u].distance.Fin? && d == nodes[u].distance.d + g.edges[e].weight && Less(Fin(d), nodes[v].distance)
    requires nodes' == nodes[v := nodes[v].(distance := Fin(d))] && pq' == Requeue(pq, v, d)
    requires parent' == parent[v := u] && via' == via[v := e] && children' == (if v in parent then children else children + [v])
    ensures During(g, n, nodes', pq', visited, order, parent', via', children', u, done + [e])
  {
    LowerDist(g.edges, n, Keys(nodes), pq, visited, order, parent, via, children, u, done, e, v, d);
    LowerNodes(g.nodes, nodes, visited, u, v, Fin(d));
  }

  /** The graph as shown while the edge e to v is compared: both COMPARING. */
  function Shown(nodes: seq<GraphNode>, edges: seq<GraphEdge>, v: nat, e: nat): Graph
    requires v < |nodes| && e < |edges|
  {
    Graph(nodes[v := nodes[v].(status := Comparing)], edges[e := edges[e].(status := Comparing)])
  }

  /**
   * Lines 79-117: the edge e from u to v, not yet visited, and v turn
   * COMPARING (line 26); if u's distance plus the weight is strictly below
   * v's, v is lowered (`Lower`); then the edge and v turn DEFAULT again, so
   * the COMPARING marks live in the snapshots only.
   */
  method Compare(u: nat, e: nat, v: nat, nodes: seq<GraphNode>, edges: seq<GraphEdge>, pq: seq<Entry>,
                 parent: map<nat, nat>, children: seq<nat>, steps: seq<Step>, ghost via: map<nat, nat>)
    returns (nodes': seq<GraphNode>, pq': seq<Entry>, parent': map<nat, nat>, children': seq<nat>, steps': seq<Step>, ghost via': map<nat, nat>)
    requires EndsBelow(edges, |nodes|) && e < |edges| && Touches(edges[e], u) && v == Other(edges[e], u)
    requires nodes[u].distance.Fin?
    ensures !Less(Fin(nodes[u].distance.d + edges[e].weight), nodes[v].distance) ==>
      && nodes' == nodes && pq' == pq && parent' == parent && children' == children && via' == via
      && steps' == steps + [GraphStep(Shown(nodes, edges, v, e), 26)]
    ensures Less(Fin(nodes[u].distance.d + edges[e].weight), nodes[v].distance) ==>
      && nodes' == nodes[v := nodes[v].(distance := Fin(nodes[u].distance.d + edges[e].weight))]
      && pq' == Requeue(pq, v, nodes[u].distance.d + edges[e].weight)
      && parent' == parent[v := u] && via' == via[v := e] && children' == (if v in parent then children else children + [v])
      && steps' == steps + [GraphStep(Shown(nodes, edges, v, e), 26), GraphStep(Shown(nodes', edges, v, e), 29)]
    ensures CountLine(steps', 19) == CountLine(steps, 19)
  {
    var shownNodes := nodes[v := nodes[v].(status := Comparing)];
    var shownEdges := edges[e := edges[e].(status := Comparing)];
    var check := GraphStep(CloneGraph(shownNodes, shownEdges), 26);
    CountAppend(steps, check, 19);
    steps' := steps + [check];
    var newDist := nodes[u].distance.d + edges[e].weight;
    if Less(Fin(newDist), nodes[v].distance) {
      nodes', pq', parent', children', steps', via' := Lower(u, e, v, newDist, nodes, edges, pq, parent, children, steps', via);
    } else {
      nodes', pq', parent', children', via' := nodes, pq, parent, children, via;
    }
  }

  /**
   * Lines 95-113: v's distance drops to d, its parent becomes u, the
   * frontier entry of v is lowered or a new one is pushed, and a snapshot
   * follows with the edge and v still COMPARING (line 29).
   */
  method Lower(u: nat, e: nat, v: nat, d: nat, nodes: seq<GraphNode>, edges: seq<GraphEdge>, pq: seq<Entry>,
               parent: map<nat, nat>, children: seq<nat>, steps: seq<Step>, ghost via: map<nat, nat>)
    returns (nodes': seq<GraphNode>, pq': seq<Entry>, parent': map<nat, nat>, children': seq<nat>, steps': seq<Step>, ghost via': map<nat, nat>)
    requires EndsBelow(edges, |nodes|) && e < |edges| && Touches(edges[e], u) && v == Other(edges[e], u)
    ensures nodes' == nodes[v := nodes[v].(distance := Fin(d))] && pq' == Requeue(pq, v, d)
    ensures parent' == parent[v := u] && via' == via[v := e] && children' == (if v in parent then children else children + [v])
    ensures steps' == steps + [GraphStep(Shown(nodes', edges, v, e), 29)]
    ensures CountLine(steps', 19) == CountLine(steps, 19)
  {
    nodes' := nodes[v := nodes[v].(distance := Fin(d))];
    parent' := parent[v := u];
    via' := via[v := e];
    children' := children;
    if v !in parent {
      children' := children + [v];
    }
    match FindEntry(pq, v) {
      case Some(k) => pq' := pq[k := pq[k].(dist := d)];
      case None => pq' := pq + [Entry(v, d)];
    }
    var update := GraphStep(CloneGraph(nodes'[v := nodes'[v].(status := Comparing)], edges[e := edges[e].(status := Comparing)]), 29);
    CountAppend(steps, update, 19);
    steps' := steps + [update];
  }

  /** Leaving v as it is, when edge e cannot shorten its distance, relaxes e too. */
  lemma Kept(g: Graph, n: nat, nodes: seq<GraphNode>, pq: seq<Entry>, visited: set<nat>, order: seq<nat>,
             parent: map<nat, nat>, via: map<nat, nat>, children: seq<nat>, u: nat, done: seq<nat>, e: nat)
    requires During(g, n, nodes, pq, visited, order, parent, via, children, u, done)
    requires e < |g.edges| && Touches(g.edges[e], u)
    requires nodes[u].distance.Fin? && !Less(Fin(nodes[u].distance.d + g.edges[e].weight), nodes[Other(g.edges[e], u)].distance)
    ensures During(g, n, nodes, pq, visited, order, parent, via, children, u, done + [e])
  {
    KeepRelaxed(g.edges, Keys(nodes), visited, u, done, e);
  }

  /**
   * Lines 74-77 and one pass of the loop at line 73: an edge e of u whose
   * far end is visited is skipped; any other is compared (`Compare`).
   */
  method Check(g: Graph, n: nat, u: nat, e: nat, nodes: seq<GraphNode>, edges: seq<GraphEdge>, pq: seq<Entry>, visited: set<nat>,
               parent: map<nat, nat>, children: seq<nat>, steps: seq<Step>, ghost order: seq<nat>, ghost via: map<nat, nat>, ghost done: seq<nat>)
    returns (nodes': seq<GraphNode>, pq': seq<Entry>, parent': map<nat, nat>, children': seq<nat>, steps': seq<Step>, ghost via': map<nat, nat>)
    requires During(g, n, nodes, pq, visited, order, parent, via, children, u, done) && edges == g.edges
    requires e < |edges| && Touches(edges[e], u)
    ensures Other(edges[e], u) in visited ==> nodes' == nodes && pq' == pq && parent' == parent && children' == children && steps' == steps
    ensures During(g, n, nodes', pq', visited, order, parent', via', children', u, done + [e])
    ensures steps <= steps' && CountLine(steps', 19) == CountLine(steps, 19)
  {
    var v := Other(edges[e], u);
    if v in visited {
      var dist := Keys(nodes);
      assert !Less(dist[u], dist[v]);
      KeepRelaxed(g.edges, dist, visited, u, done, e);
      nodes', pq', parent', children', steps', via' := nodes, pq, parent, children, steps, via;
    } else {
      assert Keys(nodes)[u] == nodes[u].distance;
      nodes', pq', parent', children', steps', via' := Compare(u, e, v, nodes, edges, pq, parent, children, steps, via);
      var d := nodes[u].distance.d + edges[e].weight;
      if Less(Fin(d), nodes[v].distance) {
        Lowered(g, n, nodes, pq, visited, order, parent, via, children, u, done, e, v, d, nodes', pq', parent', via', children');
      } else {
        Kept(g, n, nodes, pq, visited, order, parent, via, children, u, done, e);
      }
    }
  }

  /**
   * Lines 71-118: every edge with u at either end, in list order, is
   * checked; afterwards all of u's edges are relaxed.
   */
  method Relax(g: Graph, n: nat, u: nat, nodes: seq<GraphNode>, edges: seq<GraphEdge>, pq: seq<Entry>, visited: set<nat>,
               parent: map<nat, nat>, children: seq<nat>, steps: seq<Step>, ghost order: seq<nat>, ghost via: map<nat, nat>)
    returns (nodes': seq<GraphNode>, pq': seq<Entry>, parent': map<nat, nat>, children': seq<nat>, steps': seq<Step>, ghost via': map<nat, nat>)
    requires During(g, n, nodes, pq, visited, order, parent, via, children, u, []) && edges == g.edges
    ensures During(g, n, nodes', pq', visited, order, parent', via', children', u, Incident(edges, u))
    ensures steps <= steps' && CountLine(steps', 19) == CountLine(steps, 19)
  {
    var neighbours := Incident(edges, u);
    nodes', pq', parent', children', steps', via' := nodes, pq, parent, children, steps, via;
    var i := 0;
    while i < |neighbours|
      invariant i <= |neighbours|
      invariant During(g, n, nodes', pq', visited, order, parent', via', children', u, neighbours[..i])
      invariant steps <= steps' && CountLine(steps', 19) == CountLine(steps, 19)
    {
      ghost var before := steps';
      nodes', pq', parent', children', steps', via' := Check(g, n, u, neighbours[i], nodes', edges, pq', visited, parent', children', steps', order, via', neighbours[..i]);
      assert neighbours[..i] + [neighbours[i]] == neighbours[..i + 1];
      PrefixTrans(steps, before, steps');
      i := i + 1;
    }
    assert neighbours[..i] == neighbours;
  }

  /** Once every edge of u is relaxed, every edge at a visited node is. */
  lemma RelaxedEnd(edges: seq<GraphEdge>, dist: seq<Dist>, visited: set<nat>, u: nat)
    requires RelaxedBut(edges, dist, visited, u, Incident(edges, u))
    ensures RelaxedFrom(edges, dist, visited)
  {
    var done := Incident(edges, u);
    forall j, a | 0 <= j < |edges| && 0 <= a < |dist| && a in visited && Touches(edges[j], a) && dist[a].Fin? && Other(edges[j], a) < |dist|
      ensures Within(edges, dist, j, a)
    {
      if a == u {
        assert j in done;
      }
    }
  }

  /** Painting u, done, VISITED: no node is ACTIVE any more. */
  lemma VisitedPainted(gNodes: seq<GraphNode>, nodes: seq<GraphNode>, visited: set<nat>, u: nat)
    requires Painted(gNodes, nodes, visited, Some(u)) && u < |nodes| && u in visited
    ensures Painted(gNodes, nodes[u := nodes[u].(status := Visited)], visited, None)
  {
    var nodes' := nodes[u := nodes[u].(status := Visited)];
    forall i | 0 <= i < |nodes'|
      ensures nodes'[i] == gNodes[i].(distance := nodes'[i].distance, status := if None == Some(i) then Active else if i in visited then Visited else Default)
    {
      assert nodes[i] == gNodes[i].(distance := nodes[i].distance, status := if Some(u) == Some(i) then Active else if i in visited then Visited else Default);
    }
  }

  /** Line 120: u, done, turns VISITED; the state is again the one between extractions. */
  lemma Leave(g: Graph, n: nat, nodes: seq<GraphNode>, pq: seq<Entry>, visited: set<nat>, order: seq<nat>,
              parent: map<nat, nat>, via: map<nat, nat>, children: seq<nat>, u: nat, nodes': seq<GraphNode>)
    requires During(g, n, nodes, pq, visited, order, parent, via, children, u, Incident(g.edges, u))
    requires nodes' == nodes[u := nodes[u].(status := Visited)]
    ensures Between(g, n, nodes', pq, visited, order, parent, via, children)
  {
    KeysRepaint(nodes, u, Visited);
    RelaxedEnd(g.edges, Keys(nodes), visited, u);
    VisitedPainted(g.nodes, nodes, visited, u);
  }

  /**
   * Lines 42-130: one pass of the main loop. The nearest frontier entry is
   * extracted, its node's edges are relaxed, the node turns VISITED and a
   * snapshot follows (line 14).
   */
  method Round(g: Graph, n: nat, nodes: seq<GraphNode>, edges: seq<GraphEdge>, pq: seq<Entry>, visited: set<nat>,
               parent: map<nat, nat>, children: seq<nat>, steps: seq<Step>, ghost order: seq<nat>, ghost via: map<nat, nat>)
    returns (u: nat, nodes': seq<GraphNode>, pq': seq<Entry>, visited': set<nat>, parent': map<nat, nat>, children': seq<nat>,
             steps': seq<Step>, ghost order': seq<nat>, ghost via': map<nat, nat>)
    requires Between(g, n, nodes, pq, visited, order, parent, via, children) && |pq| > 0 && edges == g.edges
    ensures u !in visited && visited' == visited + {u} && order' == order + [u]
    ensures Between(g, n, nodes', pq', visited', order', parent', via', children')
    ensures steps <= steps' && CountLine(steps', 19) == CountLine(steps, 19) + 1
  {
    u, nodes', pq', visited', steps', order' := Extract(g, n, nodes, edges, pq, visited, steps, order, parent, via, children);
    CountAppend(steps, steps'[|steps|], 19);
    CountAppend(steps + [steps'[|steps|]], steps'[|steps| + 1], 19);
    assert steps + [steps'[|steps|]] + [steps'[|steps| + 1]] == steps';
    ghost var extracted := steps';
    nodes', pq', parent', children', steps', via' := Relax(g, n, u, nodes', edges, pq', visited', parent, children, steps', order', via);
    PrefixTrans(steps, extracted, steps');
    ghost var relaxed := nodes';
    nodes' := nodes'[u := nodes'[u].(status := Visited)];
    Leave(g, n, relaxed, pq', visited', order', parent', via', children', u, nodes');
    var finish := GraphStep(CloneGraph(nodes', edges), 14);
    CountAppend(steps', finish, 19);
    steps' := steps' + [finish];
  }

  /** Lines 12-18: `node-0` at distance 0 and ACTIVE, alone on the frontier; nothing visited yet. */
  lemma Start(g: Graph, n: nat, nodes: seq<GraphNode>)
    requires Generated(n, g) && n > 0
    requires nodes == g.nodes[0 := g.nodes[0].(distance := Fin(0), status := Active)]
    ensures Between(g, n, nodes, [Entry(0, 0)], {}, [], map[], map[], [])
  {
    GeneratedShape(n, g);
    var dist := Keys(nodes);
    forall j | 0 <= j < |g.edges| ensures g.edges[j].weight > 0 {
      assert g.edges[j] in g.edges;
    }
    forall i | 0 <= i < n ensures nodes[i] == g.nodes[i].(distance := nodes[i].distance, status := if Some(0) == Some(i) then Active else Default) {
      assert g.nodes[i] == FreshNode(i);
    }
    forall v | 0 <= v < n && dist[v].Fin? ensures v == 0 {
      assert g.nodes[v] == FreshNode(v);
    }
  }

  /**
   * Line 42: the frontier is empty. Then every node is visited: an edge from
   * a visited node to an unvisited one would have given the latter a finite
   * distance and a frontier entry, so the visited set, which holds `node-0`,
   * is closed under the edges of a generated graph.
   */
  lemma Drained(g: Graph, n: nat, nodes: seq<GraphNode>, visited: set<nat>, order: seq<nat>,
                parent: map<nat, nat>, via: map<nat, nat>, children: seq<nat>)
    requires Between(g, n, nodes, [], visited, order, parent, via, children) && Generated(n, g) && n > 0
    ensures forall i | 0 <= i < n :: i in visited
  {
    var dist := Keys(nodes);
    assert 0 in visited by {
      assert dist[0] == Fin(0);
    }
    forall e | e in g.edges ensures e.source in visited <==> e.target in visited {
      var j :| 0 <= j < |g.edges| && g.edges[j] == e;
      Across(g.edges, dist, visited, j, e.source);
      Across(g.edges, dist, visited, j, e.target);
    }
    RingCovers(n, g, visited);
  }

  /** With an empty frontier, an edge at a visited node leads to a visited node. */
  lemma Across(edges: seq<GraphEdge>, dist: seq<Dist>, visited: set<nat>, j: nat, a: nat)
    requires Frontier([], dist, visited) && Settled(dist, visited) && RelaxedFrom(edges, dist, visited) && EndsBelow(edges, |dist|)
    requires j < |edges| && Touches(edges[j], a)
    ensures a in visited ==> Other(edges[j], a) in visited
  {
    if a in visited {
      assert Within(edges, dist, j, a);
    }
  }

  /**
   * Lines 8-131: the source set up (a snapshot, line 11), then rounds until
   * the frontier is empty. Each round visits a new node, so there are at
   * most n of them; at the end every node is visited.
   */
  method RunDijkstra(g: Graph, n: nat)
    returns (steps: seq<Step>, nodes: seq<GraphNode>, visited: set<nat>, parent: map<nat, nat>, children: seq<nat>,
             ghost order: seq<nat>, ghost via: map<nat, nat>)
    requires Generated(n, g) && n > 0
    ensures |steps| > 0 && steps[0] == GraphStep(Graph(g.nodes[0 := g.nodes[0].(distance := Fin(0), status := Active)], g.edges), 11)
    ensures Between(g, n, nodes, [], visited, order, parent, via, children)
    ensures forall i | 0 <= i < n :: i in visited
    ensures CountLine(steps, 19) == |order|
  {
    nodes := g.nodes[0 := g.nodes[0].(distance := Fin(0), status := Active)];
    var pq := [Entry(0, 0)];
    steps := [GraphStep(CloneGraph(nodes, g.edges), 11)];
    CountAppend([], steps[0], 19);
    assert [] + [steps[0]] == steps;
    visited, parent, children, order, via := {}, map[], [], [], map[];
    Start(g, n, nodes);
    ghost var first := steps[0];
    while |pq| > 0
      invariant Between(g, n, nodes, pq, visited, order, parent, via, children) && |order| <= n
      invariant |steps| > 0 && steps[0] == first && CountLine(steps, 19) == |order|
      decreases n - |order|
    {
      ghost var before := steps;
      var u;
      u, nodes, pq, visited, parent, children, steps, order, via := Round(g, n, nodes, g.edges, pq, visited, parent, children, steps, order, via);
      assert steps[0] == before[0];
      Pigeon(order, n);
    }
    Drained(g, n, nodes, visited, order, parent, via, children);
  }

  /**
   * Lines 134-144: for each parent-map entry, in insertion order, the edge
   * joining the child and its parent (`edges.find`, either direction) and
   * the child turn SORTED; then `node-0` does. In a simple graph the edge
   * found is the one that last lowered the child's distance.
   */
  /** c has a parent, joined to it by the edge `via[c]`. */
  ghost predicate Hung(edges: seq<GraphEdge>, n: nat, parent: map<nat, nat>, via: map<nat, nat>, c: nat)
  {
    c in parent && c in via && c < n && via[c] < |edges| && Joins(edges[via[c]], c, parent[c])
  }

  /** Every key of the parent map hangs from its parent by its `via` edge. */
  lemma ChildrenHung(edges: seq<GraphEdge>, dist: seq<Dist>, visited: set<nat>, parent: map<nat, nat>, via: map<nat, nat>, children: seq<nat>)
    requires Parents(edges, dist, visited, parent, via, children)
    ensures forall k | 0 <= k < |children| :: Hung(edges, |dist|, parent, via, children[k])
  {
    forall k | 0 <= k < |children| ensures Hung(edges, |dist|, parent, via, children[k]) {
      var c := children[k];
      assert c in parent;
      assert parent[c] == parent[c];
    }
  }

  /** The `via` edges of the first k children, in order. */
  ghost function ViaOf(edges: seq<GraphEdge>, n: nat, parent: map<nat, nat>, via: map<nat, nat>, children: seq<nat>, k: nat): (r: seq<nat>)
    requires k <= |children| && forall m | 0 <= m < |children| :: Hung(edges, n, parent, via, children[m])
    ensures |r| == k && forall m | 0 <= m < k :: children[m] in via && r[m] == via[children[m]]
  {
    if k == 0 then [] else ViaOf(edges, n, parent, via, children, k - 1) + [via[children[k - 1]]]
  }

  /** The nodes with those listed in cs SORTED. */
  ghost function MarkNodes(nodes: seq<GraphNode>, cs: seq<nat>): (r: seq<GraphNode>)
    ensures |r| == |nodes| && forall i | 0 <= i < |nodes| :: r[i] == nodes[i].(status := if i in cs then Sorted else nodes[i].status)
  {
    seq(|nodes|, i requires 0 <= i < |nodes| => nodes[i].(status := if i in cs then Sorted else nodes[i].status))
  }

  /** Marking one more node below |nodes| is one more SORTED entry; one beyond changes nothing. */
  lemma MarkMore(nodes: seq<GraphNode>, cs: seq<nat>, c: nat, marked: seq<GraphNode>)
    requires marked == MarkNodes(nodes, cs)
    ensures MarkNodes(nodes, cs + [c]) == if c < |marked| then marked[c := marked[c].(status := Sorted)] else marked
  {
    var r := MarkNodes(nodes, cs + [c]);
    forall i | 0 <= i < |nodes| ensures i in cs + [c] <==> i in cs || i == c {
    }
  }

  /**
   * Lines 135-142, for one entry c -> p of the parent map: the edge joining
   * c and p, which in a simple graph is e, turns SORTED, and so does c.
   */
  method MarkChild(ghost gEdges: seq<GraphEdge>, nodes: seq<GraphNode>, edges: seq<GraphEdge>, ghost tree: seq<nat>, c: nat, p: nat, ghost e: nat)
    returns (nodes': seq<GraphNode>, edges': seq<GraphEdge>, ghost tree': seq<nat>)
    requires EdgeStatuses(gEdges, edges, tree) && Simple(gEdges) && e < |gEdges| && Joins(gEdges[e], c, p)
    ensures EdgeStatuses(gEdges, edges', tree') && tree' == tree + [e]
    ensures nodes' == if c < |nodes| then nodes[c := nodes[c].(status := Sorted)] else nodes
  {
    var found := FindEdge(edges, c, p);
    FoundVia(gEdges, edges, tree, c, p, e);
    edges', tree' := edges, tree;
    if found.Some? {
      MarkEdge(gEdges, edges, tree, found.value);
      edges' := edges[found.value := edges[found.value].(status := Sorted)];
      tree' := tree + [found.value];
    }
    nodes' := nodes;
    if c < |nodes| {
      nodes' := nodes[c := nodes[c].(status := Sorted)];
    }
  }

  method Highlight(g: Graph, nodes: seq<GraphNode>, parent: map<nat, nat>, children: seq<nat>, ghost via: map<nat, nat>)
    returns (nodes': seq<GraphNode>, edges': seq<GraphEdge>, ghost tree: seq<nat>)
    requires Simple(g.edges) && (forall j | 0 <= j < |g.edges| :: g.edges[j].status == Default) && |nodes| > 0
    requires forall k | 0 <= k < |children| :: Hung(g.edges, |nodes|, parent, via, children[k])
    ensures |tree| == |children| && forall k | 0 <= k < |children| :: children[k] in via && tree[k] == via[children[k]]
    ensures edges' == MarkTree(g.edges, tree)
    ensures nodes' == MarkNodes(nodes, children + [0])
  {
    nodes', edges', tree := nodes, g.edges, [];
    var k := 0;
    while k < |children|
      invariant k <= |children| && tree == ViaOf(g.edges, |nodes|, parent, via, children, k)
      invariant EdgeStatuses(g.edges, edges', tree)
      invariant |nodes'| == |nodes|
      invariant nodes' == MarkNodes(nodes, children[..k])
    {
      var c := children[k];
      assert Hung(g.edges, |nodes|, parent, via, c);
      MarkMore(nodes, children[..k], c, nodes');
      nodes', edges', tree := MarkChild(g.edges, nodes', edges', tree, c, parent[c], via[c]);
      PrefixSnoc(children, k);
      k := k + 1;
    }
    assert children[..k] == children;
    MarkMore(nodes, children, 0, nodes');
    nodes' := nodes'[0 := nodes'[0].(status := Sorted)];
  }

  /** With every node visited, every edge is relaxed. */
  lemma AllRelaxed(edges: seq<GraphEdge>, dist: seq<Dist>, visited: set<nat>)
    requires RelaxedFrom(edges, dist, visited) && EndsBelow(edges, |dist|) && forall i | 0 <= i < |dist| :: i in visited
    ensures Relaxed(edges, dist)
  {
    forall j, a | 0 <= j < |edges| && 0 <= a < |dist| && Touches(edges[j], a) && dist[a].Fin? ensures Within(edges, dist, j, a) {
      assert a in visited;
    }
  }

  /**
   * `generateDijkstraSteps` (lines 6-155) on a generated graph: every node
   * is visited once; the distances left on the nodes are the shortest-path
   * distances from `node-0`, all finite; the parent map is a shortest-path
   * tree; the final snapshot (line 33) shows every node SORTED and exactly
   * the n - 1 distinct tree edges SORTED.
   */
  method GenerateDijkstraSteps(input: seq<Bar>, draws: seq<real>)
    returns (steps: seq<Step>, ghost g: Graph, ghost final: seq<GraphNode>, ghost parent: map<nat, nat>, ghost via: map<nat, nat>, ghost tree: seq<nat>)
    requires forall i | 0 <= i < |draws| :: 0.0 <= draws[i] < 1.0
    requires |draws| >= DrawsNeeded(NodeCount(|input|))
    ensures Generated(NodeCount(|input|), g)
    ensures |steps| > 0 && steps[0] == GraphStep(Graph(g.nodes[0 := g.nodes[0].(distance := Fin(0), status := Active)], g.edges), 11)
    ensures CountLine(steps, 19) == NodeCount(|input|)
    ensures steps[|steps| - 1] == GraphStep(Graph(final, MarkTree(g.edges, tree)), 33)
    ensures |final| == NodeCount(|input|)
    ensures forall i | 0 <= i < |final| :: final[i] == g.nodes[i].(distance := final[i].distance, status := Sorted) && final[i].distance.Fin?
    ensures ShortestFrom(g.edges, Keys(final), 0) && ParentTree(g.edges, Keys(final), 0, parent, via)
    ensures |tree| == NodeCount(|input|) - 1 && Distinct(tree)
    ensures forall v | 0 < v < NodeCount(|input|) :: v in via && via[v] in tree
  {
    var n := NodeCount(|input|);
    var graph, _ := GenerateRandomGraph(n, draws);
    g := graph;
    GeneratedShape(n, graph);
    GeneratedSimple(n, graph);
    forall j | 0 <= j < |graph.edges| ensures graph.edges[j].status == Default {
      assert graph.edges[j] in graph.edges;
    }
    var run, nodes, visited, parentMap, children;
    ghost var order;
    run, nodes, visited, parentMap, children, order, via := RunDijkstra(graph, n);
    parent := parentMap;
    ghost var ran := nodes;
    Hanging(graph, n, nodes, visited, order, parent, via, children);
    var edges;
    nodes, edges, tree := Highlight(graph, nodes, parentMap, children, via);
    final := nodes;
    Finished(graph, n, ran, visited, order, parent, via, children, final, tree);
    var last := GraphStep(CloneGraph(nodes, edges), 33);
    CountAppend(run, last, 19);
    steps := run + [last];
  }

  /** At the end of the run every key of the parent map hangs from its parent; Highlight can run. */
  lemma Hanging(g: Graph, n: nat, nodes: seq<GraphNode>, visited: set<nat>, order: seq<nat>,
                parent: map<nat, nat>, via: map<nat, nat>, children: seq<nat>)
    requires Between(g, n, nodes, [], visited, order, parent, via, children)
    ensures forall k | 0 <= k < |children| :: Hung(g.edges, |nodes|, parent, via, children[k])
  {
    ChildrenHung(g.edges, Keys(nodes), visited, parent, via, children);
  }

  /**
   * After the run and the highlighting: every node SORTED with a finite
   * distance, the distances the shortest-path distances, the parent map a
   * shortest-path tree, and its n - 1 edges distinct.
   */
  lemma Finished(g: Graph, n: nat, nodes: seq<GraphNode>, visited: set<nat>, order: seq<nat>,
                 parent: map<nat, nat>, via: map<nat, nat>, children: seq<nat>, final: seq<GraphNode>, tree: seq<nat>)
    requires Generated(n, g) && n > 0
    requires Between(g, n, nodes, [], visited, order, parent, via, children) && forall i | 0 <= i < n :: i in visited
    requires final == MarkNodes(nodes, children + [0])
    requires |tree| == |children| && forall k | 0 <= k < |children| :: children[k] in via && tree[k] == via[children[k]]
    ensures |final| == n
    ensures forall i | 0 <= i < |final| :: final[i] == g.nodes[i].(distance := final[i].distance, status := Sorted) && final[i].distance.Fin?
    ensures ShortestFrom(g.edges, Keys(final), 0) && ParentTree(g.edges, Keys(final), 0, parent, via)
    ensures |tree| == n - 1 && Distinct(tree)
    ensures forall v | 0 < v < n :: v in via && via[v] in tree
    ensures |order| == n
  {
    var dist := Keys(nodes);
    assert Keys(final) == dist;
    forall i | 0 <= i < |final| ensures final[i] == g.nodes[i].(distance := final[i].distance, status := Sorted) && final[i].distance.Fin? {
      assert i in visited && nodes[i] == g.nodes[i].(distance := nodes[i].distance, status := Visited);
      assert dist[i].Fin?;
      if i != 0 {
        assert i in parent;
        assert i in children;
        assert i in children + [0];
      }
    }
    AllRelaxed(g.edges, dist, visited);
    AllShortest(g.edges, dist, 0, parent, via);
    Spanning(n, g, dist, visited, parent, via, children, tree);
    forall x | 0 <= x < n ensures x in order {
      assert x in visited;
    }
    Covers(order, n);
    Pigeon(order, n);
  }

  /** The tree edges: one per node other than `node-0`, all distinct. */
  lemma Spanning(n: nat, g: Graph, dist: seq<Dist>, visited: set<nat>, parent: map<nat, nat>, via: map<nat, nat>, children: seq<nat>, tree: seq<nat>)
    requires |dist| == n && n > 0 && Settled(dist, visited) && (forall i | 0 <= i < n :: i in visited)
    requires Parents(g.edges, dist, visited, parent, via, children)
    requires |tree| == |children| && forall k | 0 <= k < |children| :: children[k] in via && tree[k] == via[children[k]]
    ensures |tree| == n - 1 && Distinct(tree)
    ensures forall v | 0 < v < n :: v in via && via[v] in tree
  {
    ChildrenHung(g.edges, dist, visited, parent, via, children);
    forall v | 0 < v < n ensures v in via && via[v] in tree {
      assert v in visited;
      assert v in parent;
      assert v in children;
      var k :| 0 <= k < |children| && children[k] == v;
      assert Hung(g.edges, n, parent, via, children[k]);
      assert tree[k] == via[v];
    }
    forall i, j | 0 <= i < j < |tree| ensures tree[i] != tree[j] {
      var v, w := children[i], children[j];
      assert Hung(g.edges, n, parent, via, v) && Hung(g.edges, n, parent, via, w);
      assert v != w;
      assert parent[v] == parent[v] && parent[w] == parent[w];
    }
    assert 0 !in parent;
    assert 0 !in children;
    DistinctAppend(children, [0]);
    forall x | 0 <= x < n ensures x in children + [0] {
      if x != 0 {
        assert x in visited;
        assert x in parent;
        assert x in children;
      }
    }
    Covers(children + [0], n);
    forall k | 0 <= k < |children + [0]| ensures (children + [0])[k] < n {
      if k < |children| {
        assert Hung(g.edges, n, parent, via, children[k]);
      }
    }
    Pigeon(children + [0], n);
  }
}
