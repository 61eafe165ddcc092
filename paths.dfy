/**
 * Walks in the undirected graph and their weights: what "shortest path
 * distance" means for the distances Dijkstra's algorithm leaves on the nodes.
 */
module Paths {
  import opened Types
  import opened GraphHelpers

  /** The edge indices of `path`, taken in turn, lead from a to b; each edge may be crossed either way. */
  ghost predicate Walk(edges: seq<GraphEdge>, path: seq<nat>, a: nat, b: nat)
    decreases |path|
  {
    if path == [] then a == b
    else path[0] < |edges| && Touches(edges[path[0]], a) && Walk(edges, path[1..], Other(edges[path[0]], a), b)
  }

  /** The total weight of the edges of a path. */
  ghost function PathWeight(edges: seq<GraphEdge>, path: seq<nat>): nat
    decreases |path|
  {
    if path == [] then 0
    else (if path[0] < |edges| then edges[path[0]].weight else 0) + PathWeight(edges, path[1..])
  }

  /** The distance of b is at most the distance of a plus the weight of edge j from a to b. */
  ghost predicate Within(edges: seq<GraphEdge>, dist: seq<Dist>, j: nat, a: nat)
    requires j < |edges| && a < |dist| && dist[a].Fin? && Other(edges[j], a) < |dist|
  {
    !Less(Fin(dist[a].d + edges[j].weight), dist[Other(edges[j], a)])
  }

  /** No edge, crossed either way from a node with a finite distance, can shorten a distance. */
  ghost predicate Relaxed(edges: seq<GraphEdge>, dist: seq<Dist>)
  {
    && EndsBelow(edges, |dist|)
    && forall j, a {:trigger Within(edges, dist, j, a)} |
         0 <= j < |edges| && 0 <= a < |dist| && Touches(edges[j], a) && dist[a].Fin? :: Within(edges, dist, j, a)
  }

  /** A walk of weight w from a node of finite distance d reaches a node of distance at most d + w. */
  lemma {:induction false} NoShorter(edges: seq<GraphEdge>, dist: seq<Dist>, path: seq<nat>, a: nat, b: nat)
    requires Relaxed(edges, dist) && Walk(edges, path, a, b) && a < |dist| && dist[a].Fin?
    ensures b < |dist| && dist[b].Fin? && dist[b].d <= dist[a].d + PathWeight(edges, path)
    decreases |path|
  {
    if path != [] {
      var j := path[0];
      var c := Other(edges[j], a);
      assert Joins(edges[j], a, c);
      assert Within(edges, dist, j, a);
      NoShorter(edges, dist, path[1..], c, b);
    }
  }

  /** A walk to b followed by an edge at b is a walk to that edge's far end, heavier by its weight. */
  lemma {:induction false} WalkAppend(edges: seq<GraphEdge>, path: seq<nat>, a: nat, b: nat, e: nat)
    requires Walk(edges, path, a, b) && e < |edges| && Touches(edges[e], b)
    ensures Walk(edges, path + [e], a, Other(edges[e], b))
    ensures PathWeight(edges, path + [e]) == PathWeight(edges, path) + edges[e].weight
    decreases |path|
  {
    if path == [] {
      assert [e][1..] == [];
    } else {
      WalkAppend(edges, path[1..], Other(edges[path[0]], a), b, e);
      assert (path + [e])[1..] == path[1..] + [e];
    }
  }

  /**
   * A shortest-path tree: the source has distance 0 and no parent, every
   * other node of finite distance has a parent, and the edge `via[v]` joins
   * v to its parent, whose distance plus the edge's weight is v's distance.
   */
  ghost predicate ParentTree(edges: seq<GraphEdge>, dist: seq<Dist>, src: nat, parent: map<nat, nat>, via: map<nat, nat>)
  {
    && src < |dist| && dist[src] == Fin(0) && src !in parent
    && (forall v {:trigger v in parent} | 0 <= v < |dist| && v != src && dist[v].Fin? :: v in parent)
    && forall v {:trigger parent[v]} | v in parent ::
         && v < |dist| && v in via && via[v] < |edges| && parent[v] < |dist|
         && Joins(edges[via[v]], v, parent[v]) && dist[parent[v]].Fin? && edges[via[v]].weight > 0
         && dist[v] == Fin(dist[parent[v]].d + edges[via[v]].weight)
  }

  /**
   * Hanging v, a node no other node hangs from, below p through edge e, at
   * p's distance plus e's weight, keeps a shortest-path tree.
   */
  lemma Rehang(edges: seq<GraphEdge>, dist: seq<Dist>, src: nat, parent: map<nat, nat>, via: map<nat, nat>, v: nat, p: nat, e: nat)
    requires ParentTree(edges, dist, src, parent, via) && v < |dist| && v != src && p < |dist| && p != v && dist[p].Fin?
    requires e < |edges| && Joins(edges[e], v, p) && edges[e].weight > 0
    requires forall w | w in parent :: parent[w] != v
    ensures ParentTree(edges, dist[v := Fin(dist[p].d + edges[e].weight)], src, parent[v := p], via[v := e])
  {
    var dist' := dist[v := Fin(dist[p].d + edges[e].weight)];
    var parent', via' := parent[v := p], via[v := e];
    forall w | w in parent'
      ensures && w < |dist'| && w in via' && via'[w] < |edges| && parent'[w] < |dist'|
              && Joins(edges[via'[w]], w, parent'[w]) && dist'[parent'[w]].Fin? && edges[via'[w]].weight > 0
              && dist'[w] == Fin(dist'[parent'[w]].d + edges[via'[w]].weight)
    {
      if w != v {
        assert parent[w] != v;
      }
    }
  }

  /** The tree edges from the source to v: the path to v's parent, then `via[v]`. */
  ghost function TreePath(edges: seq<GraphEdge>, dist: seq<Dist>, src: nat, parent: map<nat, nat>, via: map<nat, nat>, v: nat): (path: seq<nat>)
    requires ParentTree(edges, dist, src, parent, via) && v < |dist| && dist[v].Fin?
    ensures Walk(edges, path, src, v) && PathWeight(edges, path) == dist[v].d
    decreases dist[v].d
  {
    if v == src then []
    else
      var p := TreePath(edges, dist, src, parent, via, parent[v]);
      WalkAppend(edges, p, src, parent[v], via[v]);
      p + [via[v]]
  }

  /**
   * With every edge relaxed and a shortest-path tree in place, the distance
   * of each node is the weight of a walk from the source and no walk from
   * the source is lighter.
   */
  lemma Shortest(edges: seq<GraphEdge>, dist: seq<Dist>, src: nat, parent: map<nat, nat>, via: map<nat, nat>, v: nat)
    requires Relaxed(edges, dist) && ParentTree(edges, dist, src, parent, via) && v < |dist|
    ensures forall path | Walk(edges, path, src, v) :: dist[v].Fin? && dist[v].d <= PathWeight(edges, path)
    ensures dist[v].Fin? ==> Walk(edges, TreePath(edges, dist, src, parent, via, v), src, v)
    ensures dist[v].Fin? ==> PathWeight(edges, TreePath(edges, dist, src, parent, via, v)) == dist[v].d
  {
    forall path | Walk(edges, path, src, v) ensures dist[v].Fin? && dist[v].d <= PathWeight(edges, path) {
      NoShorter(edges, dist, path, src, v);
    }
  }

  /**
   * The distances are the shortest-path distances from src: no walk from
   * src to v is lighter than v's distance, a node reached by some walk has
   * a finite distance, and a finite distance is the weight of some walk.
   */
  ghost predicate ShortestFrom(edges: seq<GraphEdge>, dist: seq<Dist>, src: nat)
  {
    forall v | 0 <= v < |dist| ::
      && (forall path | Walk(edges, path, src, v) :: dist[v].Fin? && dist[v].d <= PathWeight(edges, path))
      && (dist[v].Fin? ==> exists path :: Walk(edges, path, src, v) && PathWeight(edges, path) == dist[v].d)
  }

  /** Relaxed distances carried by a shortest-path tree are the shortest-path distances. */
  lemma AllShortest(edges: seq<GraphEdge>, dist: seq<Dist>, src: nat, parent: map<nat, nat>, via: map<nat, nat>)
    requires Relaxed(edges, dist) && ParentTree(edges, dist, src, parent, via)
    ensures ShortestFrom(edges, dist, src)
  {
    forall v | 0 <= v < |dist|
      ensures dist[v].Fin? ==> exists path :: Walk(edges, path, src, v) && PathWeight(edges, path) == dist[v].d
    {
      Shortest(edges, dist, src, parent, via, v);
      if dist[v].Fin? {
        var path := TreePath(edges, dist, src, parent, via, v);
        assert Walk(edges, path, src, v) && PathWeight(edges, path) == dist[v].d;
      }
    }
    forall v, path | 0 <= v < |dist| && Walk(edges, path, src, v) ensures dist[v].Fin? && dist[v].d <= PathWeight(edges, path) {
      Shortest(edges, dist, src, parent, via, v);
    }
  }
}
