/**
 * Reachability over a list of undirected edges: a walk is a node sequence
 * whose consecutive nodes are joined by some edge of the list. Kruskal's
 * simulator is specified with it: an edge is accepted exactly when no walk
 * over the edges accepted so far joins its ends.
 */
module Connectivity {
  import opened Types
  import opened GraphHelpers

  /** Some edge of es joins a and b. */
  ghost predicate Adjacent(es: seq<GraphEdge>, a: nat, b: nat)
  {
    exists i | 0 <= i < |es| :: Joins(es[i], a, b)
  }

  /** Consecutive nodes of w are adjacent over es. */
  ghost predicate Walk(es: seq<GraphEdge>, w: seq<nat>)
  {
    forall i | 0 <= i < |w| - 1 :: Adjacent(es, w[i], w[i + 1])
  }

  /** A walk over es leads from a to b. */
  ghost predicate Connected(es: seq<GraphEdge>, a: nat, b: nat)
  {
    exists w: seq<nat> :: |w| > 0 && w[0] == a && w[|w| - 1] == b && Walk(es, w)
  }

  lemma ConnectedRefl(es: seq<GraphEdge>, a: nat)
    ensures Connected(es, a, a)
  {
    assert Walk(es, [a]);
  }

  /** Both ends of an edge of es are connected. */
  lemma ConnectedEdge(es: seq<GraphEdge>, i: nat)
    requires i < |es|
    ensures Connected(es, es[i].source, es[i].target)
  {
    var w := [es[i].source, es[i].target];
    assert Joins(es[i], w[0], w[1]);
    assert Walk(es, w);
  }

  lemma ConnectedSym(es: seq<GraphEdge>, a: nat, b: nat)
    requires Connected(es, a, b)
    ensures Connected(es, b, a)
  {
    var w :| |w| > 0 && w[0] == a && w[|w| - 1] == b && Walk(es, w);
    var r := seq(|w|, k requires 0 <= k < |w| => w[|w| - 1 - k]);
    forall k | 0 <= k < |r| - 1 ensures Adjacent(es, r[k], r[k + 1]) {
      var j := |w| - 2 - k;
      assert Adjacent(es, w[j], w[j + 1]);
      var i :| 0 <= i < |es| && Joins(es[i], w[j], w[j + 1]);
      assert Joins(es[i], r[k], r[k + 1]);
    }
    assert |r| > 0 && r[0] == b && r[|r| - 1] == a && Walk(es, r);
  }

  lemma ConnectedTrans(es: seq<GraphEdge>, a: nat, b: nat, c: nat)
    requires Connected(es, a, b) && Connected(es, b, c)
    ensures Connected(es, a, c)
  {
    var w1 :| |w1| > 0 && w1[0] == a && w1[|w1| - 1] == b && Walk(es, w1);
    var w2 :| |w2| > 0 && w2[0] == b && w2[|w2| - 1] == c && Walk(es, w2);
    var w := w1 + w2[1..];
    forall k | 0 <= k < |w| - 1 ensures Adjacent(es, w[k], w[k + 1]) {
      if k < |w1| - 1 {
        assert w[k] == w1[k] && w[k + 1] == w1[k + 1];
      } else {
        var j := k - |w1| + 1;
        assert w[k] == w2[j] && w[k + 1] == w2[j + 1];
      }
    }
    assert w[0] == a && w[|w| - 1] == c && Walk(es, w);
  }

  /** Adding edges keeps every connection. */
  lemma ConnectedMore(es: seq<GraphEdge>, more: seq<GraphEdge>, a: nat, b: nat)
    requires Connected(es, a, b)
    ensures Connected(es + more, a, b)
  {
    var w :| |w| > 0 && w[0] == a && w[|w| - 1] == b && Walk(es, w);
    forall k | 0 <= k < |w| - 1 ensures Adjacent(es + more, w[k], w[k + 1]) {
      assert Adjacent(es, w[k], w[k + 1]);
      var i :| 0 <= i < |es| && Joins(es[i], w[k], w[k + 1]);
      assert (es + more)[i] == es[i];
    }
    assert Walk(es + more, w);
  }

  /**
   * A labelling that gives both ends of every edge of es the same tag
   * gives both ends of every walk the same tag.
   */
  lemma {:induction false} WalkKeepsLabel(es: seq<GraphEdge>, tag: map<nat, nat>, w: seq<nat>)
    requires forall e | e in es :: e.source in tag && e.target in tag && tag[e.source] == tag[e.target]
    requires |w| > 0 && w[0] in tag && Walk(es, w)
    ensures w[|w| - 1] in tag && tag[w[|w| - 1]] == tag[w[0]]
    decreases |w|
  {
    if |w| > 1 {
      assert Adjacent(es, w[0], w[1]);
      var i :| 0 <= i < |es| && Joins(es[i], w[0], w[1]);
      assert es[i] in es;
      var t := w[1..];
      forall k | 0 <= k < |t| - 1 ensures Adjacent(es, t[k], t[k + 1]) {
        assert t[k] == w[k + 1] && t[k + 1] == w[k + 2];
      }
      WalkKeepsLabel(es, tag, t);
    }
  }

  /** Connected nodes carry the same tag under such a labelling. */
  lemma ConnectedSameLabel(es: seq<GraphEdge>, tag: map<nat, nat>, a: nat, b: nat)
    requires forall e | e in es :: e.source in tag && e.target in tag && tag[e.source] == tag[e.target]
    requires a in tag && Connected(es, a, b)
    ensures b in tag && tag[a] == tag[b]
  {
    var w :| |w| > 0 && w[0] == a && w[|w| - 1] == b && Walk(es, w);
    WalkKeepsLabel(es, tag, w);
  }
}
