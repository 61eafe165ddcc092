/**
 * What the two graph searches have in common: the visit order and the
 * discovering edges of a search, the tree they form, exploration, and the
 * colours of the edges.
 */
module SearchTree {
  import opened Types
  import opened GraphHelpers
  import opened Distinctness

  /** The visit order of a search, and the discovering edge of each node after the first. */
  datatype Search = Search(order: seq<nat>, tree: seq<nat>)

  /** The order is repetition-free and names nodes below n. */
  ghost predicate OrderOk(order: seq<nat>, n: nat)
  {
    Distinct(order) && forall p | 0 <= p < |order| :: order[p] < n
  }

  /** Each node after the first is joined by its discovering edge to a node earlier in the order. */
  ghost predicate TreeOk(edges: seq<GraphEdge>, order: seq<nat>, tree: seq<nat>)
  {
    && |tree| + 1 == |order|
    && forall k | 0 <= k < |tree| :: tree[k] < |edges| && Linked(edges[tree[k]], order, k + 1)
  }

  /** e touches order[k], and its other end comes earlier in the order. */
  ghost predicate Linked(e: GraphEdge, order: seq<nat>, k: nat)
    requires k < |order|
  {
    Touches(e, order[k]) && Other(e, order[k]) in order[..k]
  }

  /** Every edge touching u leads to a node of the order. */
  ghost predicate Explored(edges: seq<GraphEdge>, order: seq<nat>, u: nat)
  {
    forall j {:trigger Leads(edges, order, u, j)} | 0 <= j < |edges| && Touches(edges[j], u) :: Leads(edges, order, u, j)
  }

  /** Edge j leads from u to a node of the order. */
  ghost predicate Leads(edges: seq<GraphEdge>, order: seq<nat>, u: nat, j: nat)
    requires j < |edges|
  {
    Other(edges[j], u) in order
  }

  lemma ExploredMore(edges: seq<GraphEdge>, order: seq<nat>, more: seq<nat>, u: nat)
    requires Explored(edges, order, u)
    ensures Explored(edges, order + more, u)
  {
    forall j | 0 <= j < |edges| && Touches(edges[j], u) ensures Leads(edges, order + more, u, j) {
      assert Leads(edges, order, u, j);
    }
  }

  /** Exploration survives growing the order. */
  lemma ExploredPrefix(edges: seq<GraphEdge>, a: seq<nat>, b: seq<nat>, u: nat)
    requires Explored(edges, a, u) && a <= b
    ensures Explored(edges, b, u)
  {
    forall j | 0 <= j < |edges| && Touches(edges[j], u) ensures Leads(edges, b, u, j) {
      assert Leads(edges, a, u, j);
      var m :| 0 <= m < |a| && a[m] == Other(edges[j], u);
      assert b[m] == a[m];
    }
  }

  /** A new node v reached from u, an earlier node, along edge e extends the tree. */
  lemma TreeExtend(edges: seq<GraphEdge>, order: seq<nat>, tree: seq<nat>, u: nat, e: nat)
    requires TreeOk(edges, order, tree) && u in order && e < |edges| && Touches(edges[e], u)
    ensures TreeOk(edges, order + [Other(edges[e], u)], tree + [e])
  {
    var v := Other(edges[e], u);
    var order', tree' := order + [v], tree + [e];
    forall k | 0 <= k < |tree'| ensures tree'[k] < |edges| && Linked(edges[tree'[k]], order', k + 1) {
      if k < |tree| {
        assert Linked(edges[tree[k]], order, k + 1);
        assert order'[..k + 1] == order[..k + 1];
      } else {
        assert order'[..k + 1] == order;
        assert Other(edges[e], v) == u;
      }
    }
  }

  /** Two different tree edges of a linked tree over a repetition-free order are different edges. */
  lemma TreeDistinct(edges: seq<GraphEdge>, order: seq<nat>, tree: seq<nat>)
    requires TreeOk(edges, order, tree) && Distinct(order)
    ensures Distinct(tree)
  {
    forall a, b | 0 <= a < b < |tree| ensures tree[a] != tree[b] {
      assert Linked(edges[tree[a]], order, a + 1) && Linked(edges[tree[b]], order, b + 1);
    }
  }

  /** Once every node of the order is explored, no edge leaves the order. */
  lemma SearchClosed(edges: seq<GraphEdge>, order: seq<nat>)
    requires forall p {:trigger Explored(edges, order, order[p])} | 0 <= p < |order| :: Explored(edges, order, order[p])
    ensures Closed(edges, set x | x in order)
  {
    var s := set x | x in order;
    forall e | e in edges ensures e.source in s <==> e.target in s {
      var j :| 0 <= j < |edges| && edges[j] == e;
      if e.source in s {
        var p :| 0 <= p < |order| && order[p] == e.source;
        assert Explored(edges, order, order[p]) && Leads(edges, order, order[p], j);
      }
      if e.target in s {
        var p :| 0 <= p < |order| && order[p] == e.target;
        assert Explored(edges, order, order[p]) && Leads(edges, order, order[p], j);
      }
    }
  }

  /** Every edge is the generated one, SORTED exactly when it is a discovering edge. */
  ghost predicate EdgeStatuses(gEdges: seq<GraphEdge>, edges: seq<GraphEdge>, tree: seq<nat>)
  {
    && |edges| == |gEdges|
    && forall j {:trigger edges[j]} | 0 <= j < |edges| :: edges[j] == gEdges[j].(status := if j in tree then Sorted else Default)
  }

  /** The visited set holds exactly the nodes of the order. */
  ghost predicate Seen(visited: set<nat>, order: seq<nat>)
  {
    forall x {:trigger x in visited} :: x in visited <==> x in order
  }

  /** Every node with the given status. */
  function Repaint(nodes: seq<GraphNode>, s: Status): (r: seq<GraphNode>)
    ensures |r| == |nodes| && forall i | 0 <= i < |nodes| :: r[i] == nodes[i].(status := s)
  {
    seq(|nodes|, i requires 0 <= i < |nodes| => nodes[i].(status := s))
  }

  /** The edges of `tree` SORTED, every other edge DEFAULT. */
  function MarkTree(edges: seq<GraphEdge>, tree: seq<nat>): (r: seq<GraphEdge>)
    ensures |r| == |edges| && forall j | 0 <= j < |edges| :: r[j] == edges[j].(status := if j in tree then Sorted else Default)
  {
    seq(|edges|, j requires 0 <= j < |edges| => edges[j].(status := if j in tree then Sorted else Default))
  }

  /** The discovering edge of a new node turns SORTED. */
  lemma MarkEdge(gEdges: seq<GraphEdge>, edges: seq<GraphEdge>, tree: seq<nat>, e: nat)
    requires EdgeStatuses(gEdges, edges, tree) && e < |edges|
    ensures EdgeStatuses(gEdges, edges[e := edges[e].(status := Sorted)], tree + [e])
  {
    var edges' := edges[e := edges[e].(status := Sorted)];
    forall j | 0 <= j < |edges'| ensures edges'[j] == gEdges[j].(status := if j in tree + [e] then Sorted else Default) {
      if j != e {
        assert edges[j] == gEdges[j].(status := if j in tree then Sorted else Default);
        assert j in tree + [e] <==> j in tree;
      }
    }
  }

  /** In a simple graph the only edge joining a and b is the one `edges.find` returns. */
  lemma FoundVia(gEdges: seq<GraphEdge>, edges: seq<GraphEdge>, tree: seq<nat>, a: nat, b: nat, e: nat)
    requires EdgeStatuses(gEdges, edges, tree) && Simple(gEdges) && e < |gEdges| && Joins(gEdges[e], a, b)
    ensures FindEdge(edges, a, b) == Some(e)
  {
    assert edges[e] == gEdges[e].(status := edges[e].status);
    var r := FindEdge(edges, a, b);
    assert r.Some? && r.value <= e;
    assert edges[r.value] == gEdges[r.value].(status := edges[r.value].status);
    assert Joins(gEdges[r.value], gEdges[e].source, gEdges[e].target);
  }

  /**
   * A search of the generated graph that starts at `node-0`, never repeats a
   * node and explores every node it reaches, reaches all n nodes, along n - 1
   * distinct discovering edges.
   */
  lemma Spans(n: nat, g: Graph, r: Search)
    requires Generated(n, g) && n > 0
    requires OrderOk(r.order, n) && |r.order| > 0 && r.order[0] == 0 && TreeOk(g.edges, r.order, r.tree)
    requires forall p {:trigger Explored(g.edges, r.order, r.order[p])} | 0 <= p < |r.order| :: Explored(g.edges, r.order, r.order[p])
    ensures |r.order| == n && (forall i | 0 <= i < n :: i in r.order)
    ensures Distinct(r.tree) && |r.tree| == n - 1
  {
    var s := set x | x in r.order;
    SearchClosed(g.edges, r.order);
    RingCovers(n, g, s);
    forall x | 0 <= x < n ensures x in r.order {
      assert x in s;
    }
    Covers(r.order, n);
    Pigeon(r.order, n);
    TreeDistinct(g.edges, r.order, r.tree);
  }
}
