/**
 * What a level-order walk means. Nodes are named by their paths from the
 * root; level order lists shallower nodes first and, within one level,
 * goes left to right. `Colours` describes the tree the walk shows: nodes
 * being visited ACTIVE, visited ones VISITED, queued ones COMPARING and
 * the rest DEFAULT.
 */
module LevelOrderSpec {
  import opened Types
  import opened TreePaths

  /** p names a node of t (not a null child slot). */
  ghost predicate IsNode(t: Tree, p: Path)
  {
    ValidPath(t, p) && At(t, p).Node?
  }

  ghost function StatusOf(t: Tree, p: Path): Status
    requires IsNode(t, p)
  {
    At(t, p).status
  }

  /** Every prefix of a node's path names a node. */
  lemma {:induction false} PrefixNode(t: Tree, q: Path, p: Path)
    requires IsNode(t, p) && q <= p
    ensures IsNode(t, q)
    decreases q
  {
    if q != [] {
      PrefixNode(Child(t, p[0]), q[1..], p[1..]);
    }
  }

  /** Trees of the same shape have the same node paths. */
  lemma {:induction false} ShapeNode(a: Tree, b: Tree, p: Path)
    requires Strip(a) == Strip(b) && IsNode(b, p)
    ensures IsNode(a, p)
    decreases p
  {
    if p != [] {
      assert a.Node?;
      ShapeNode(Child(a, p[0]), Child(b, p[0]), p[1..]);
    }
  }

  /** Recolouring the node at q leaves every other node's colour as it was. */
  lemma {:induction false} SetStatusOther(t: Tree, q: Path, st: Status, p: Path)
    requires IsNode(t, q) && IsNode(t, p)
    ensures IsNode(SetStatusAt(t, q, st), p)
    ensures StatusOf(SetStatusAt(t, q, st), p) == if p == q then st else StatusOf(t, p)
    decreases p
  {
    if p != [] && q != [] {
      var d := q[0];
      if p[0] == d {
        SetStatusOther(Child(t, d), q[1..], st, p[1..]);
        assert p[1..] == q[1..] <==> p == q;
      }
    }
  }

  /** Recolouring a node keeps the shape. */
  lemma SetStatusShape(t: Tree, q: Path, st: Status)
    requires IsNode(t, q)
    ensures Strip(SetStatusAt(t, q, st)) == Strip(t)
  {
    RecolourKeepsShape(t, q, At(t, q).(status := st));
  }

  // ----- level order -----

  /** Same-depth order: p is left of q. */
  ghost predicate LexLess(p: Path, q: Path)
    decreases |p|
  {
    && |p| > 0 && |q| > 0
    && ((p[0] == L && q[0] == R) || (p[0] == q[0] && LexLess(p[1..], q[1..])))
  }

  /** p comes before q in level order. */
  ghost predicate LevelLess(p: Path, q: Path)
  {
    |p| < |q| || (|p| == |q| && LexLess(p, q))
  }

  lemma {:induction false} LexIrreflexive(p: Path)
    ensures !LexLess(p, p)
    decreases |p|
  {
    if |p| > 0 {
      LexIrreflexive(p[1..]);
    }
  }

  lemma {:induction false} LexTransitive(p: Path, q: Path, r: Path)
    requires LexLess(p, q) && LexLess(q, r)
    ensures LexLess(p, r)
    decreases |p|
  {
    if p[0] == q[0] && q[0] == r[0] {
      LexTransitive(p[1..], q[1..], r[1..]);
    }
  }

  /** Children of same-depth nodes keep their parents' order. */
  lemma {:induction false} LexExtend(p: Path, q: Path, a: Dir, b: Dir)
    requires LexLess(p, q)
    ensures LexLess(p + [a], q + [b])
    decreases |p|
  {
    assert (p + [a])[1..] == p[1..] + [a];
    assert (q + [b])[1..] == q[1..] + [b];
    if !(p[0] == L && q[0] == R) {
      LexExtend(p[1..], q[1..], a, b);
    }
  }

  /** A left child comes before its right sibling. */
  lemma {:induction false} LexSiblings(q: Path)
    ensures LexLess(q + [L], q + [R])
    decreases |q|
  {
    if q != [] {
      assert (q + [L])[1..] == q[1..] + [L];
      assert (q + [R])[1..] == q[1..] + [R];
      LexSiblings(q[1..]);
    }
  }

  lemma LevelTransitive(p: Path, q: Path, r: Path)
    requires LevelLess(p, q) && LevelLess(q, r)
    ensures LevelLess(p, r)
  {
    if |p| == |q| == |r| {
      LexTransitive(p, q, r);
    }
  }

  lemma LevelIrreflexive(p: Path)
    ensures !LevelLess(p, p)
  {
    LexIrreflexive(p);
  }

  /** Children of nodes in level order come in the same level order. */
  lemma LevelChildren(p: Path, q: Path, a: Dir, b: Dir)
    requires LevelLess(p, q)
    ensures LevelLess(p + [a], q + [b])
  {
    if |p| == |q| {
      LexExtend(p, q, a, b);
    }
  }

  /** Strictly increasing in level order; in particular no path twice. */
  ghost predicate Increasing(s: seq<Path>)
  {
    forall i, j | 0 <= i < j < |s| :: LevelLess(s[i], s[j])
  }

  lemma IncreasingSnoc(s: seq<Path>, c: Path)
    requires Increasing(s) && (s == [] || LevelLess(s[|s| - 1], c))
    ensures Increasing(s + [c])
  {
    forall i, j | 0 <= i < j < |s| + 1 ensures LevelLess((s + [c])[i], (s + [c])[j]) {
      if j == |s| && i < |s| - 1 {
        LevelTransitive(s[i], s[|s| - 1], c);
      }
    }
  }

  lemma IncreasingDistinct(s: seq<Path>, i: int, j: int)
    requires Increasing(s) && 0 <= i < |s| && 0 <= j < |s| && i != j
    ensures s[i] != s[j]
  {
    if i < j {
      LevelIrreflexive(s[i]);
    } else {
      LevelIrreflexive(s[j]);
    }
  }

  /** In an increasing sequence nothing in the tail occurs in the head. */
  lemma IncreasingDisjoint(a: seq<Path>, b: seq<Path>)
    requires Increasing(a + b)
    ensures forall x | x in b :: x !in a
  {
    forall x | x in b ensures x !in a {
      var j :| 0 <= j < |b| && b[j] == x;
      assert (a + b)[|a| + j] == x;
      forall i | 0 <= i < |a| ensures a[i] != x {
        assert (a + b)[i] == a[i];
        IncreasingDistinct(a + b, i, |a| + j);
      }
    }
  }

  // ----- colours -----

  /** The colour a node has: being visited, visited, waiting in the queue, or untouched. */
  function Wanted(p: Path, active: seq<Path>, visited: seq<Path>, waiting: seq<Path>): Status
  {
    if p in active then Active
    else if p in visited then Visited
    else if p in waiting then Comparing
    else Default
  }

  /** r is t0 with every node coloured as `Wanted` says. */
  ghost predicate Colours(t0: Tree, r: Tree, active: seq<Path>, visited: seq<Path>, waiting: seq<Path>)
  {
    && Strip(r) == Strip(t0)
    && forall p | IsNode(t0, p) :: IsNode(r, p) && StatusOf(r, p) == Wanted(p, active, visited, waiting)
  }

  /** The colours of r as far as a reader of the snapshot can tell which nodes are visited. */
  ghost predicate Shows(t0: Tree, r: Tree, active: seq<Path>, visited: seq<Path>)
  {
    && Strip(r) == Strip(t0)
    && forall p | IsNode(t0, p) ::
      && IsNode(r, p)
      && (StatusOf(r, p) == Active <==> p in active)
      && (StatusOf(r, p) == Visited <==> p in visited)
  }

  lemma ColoursShow(t0: Tree, r: Tree, active: seq<Path>, visited: seq<Path>, waiting: seq<Path>)
    requires Colours(t0, r, active, visited, waiting)
    requires forall p | p in active :: p !in visited
    ensures Shows(t0, r, active, visited)
  {
  }

  /** Recolouring one node moves from one colouring to another that differs only there. */
  lemma ColoursSet(t0: Tree, r: Tree, q: Path, st: Status,
                   a: seq<Path>, v: seq<Path>, w: seq<Path>, a': seq<Path>, v': seq<Path>, w': seq<Path>)
    requires Colours(t0, r, a, v, w) && IsNode(t0, q)
    requires Wanted(q, a', v', w') == st
    requires forall p | p != q :: Wanted(p, a, v, w) == Wanted(p, a', v', w')
    ensures Colours(t0, SetStatusAt(r, q, st), a', v', w')
  {
    var r' := SetStatusAt(r, q, st);
    assert IsNode(r, q);
    SetStatusShape(r, q, st);
    forall p | IsNode(t0, p)
      ensures IsNode(r', p) && StatusOf(r', p) == Wanted(p, a', v', w')
    {
      SetStatusOther(r, q, st, p);
    }
  }

  /** A tree shaped like t0 with every node VISITED is t0 painted VISITED. */
  lemma {:induction false} AllVisited(t0: Tree, r: Tree)
    requires Strip(r) == Strip(t0)
    requires forall p | IsNode(t0, p) :: IsNode(r, p) && StatusOf(r, p) == Visited
    ensures r == Paint(t0, Visited)
    decreases t0
  {
    if t0.Node? {
      assert IsNode(t0, []) && StatusOf(r, []) == Visited;
      forall p | IsNode(t0.left, p)
        ensures IsNode(r.left, p) && StatusOf(r.left, p) == Visited
      {
        assert ([L] + p)[1..] == p;
        assert IsNode(t0, [L] + p);
      }
      forall p | IsNode(t0.right, p)
        ensures IsNode(r.right, p) && StatusOf(r.right, p) == Visited
      {
        assert ([R] + p)[1..] == p;
        assert IsNode(t0, [R] + p);
      }
      AllVisited(t0.left, r.left);
      AllVisited(t0.right, r.right);
    }
  }

  // ----- the queue -----

  /** The children of node q that exist, left first: what one dequeue of q enqueues. */
  ghost function Kids(t0: Tree, q: Path): seq<Path>
  {
    (if IsNode(t0, q + [L]) then [q + [L]] else []) + (if IsNode(t0, q + [R]) then [q + [R]] else [])
  }

  /** The number of nodes below the queued paths: the work still to do. */
  ghost function Weight(t0: Tree, qs: seq<Path>): nat
  {
    if qs == [] then 0 else Size(At(t0, qs[0])) + Weight(t0, qs[1..])
  }

  lemma {:induction false} WeightConcat(t0: Tree, a: seq<Path>, b: seq<Path>)
    ensures Weight(t0, a + b) == Weight(t0, a) + Weight(t0, b)
    decreases |a|
  {
    if a != [] {
      assert (a + b)[1..] == a[1..] + b && (a + b)[0] == a[0];
      WeightConcat(t0, a[1..], b);
    } else {
      assert a + b == b;
    }
  }

  /** Dequeuing q and enqueuing its children removes exactly one node from the work. */
  lemma KidsWeight(t0: Tree, q: Path)
    requires IsNode(t0, q)
    ensures Weight(t0, Kids(t0, q)) + 1 == Size(At(t0, q))
  {
    AtChild(t0, q, L);
    AtChild(t0, q, R);
    var l := if IsNode(t0, q + [L]) then [q + [L]] else [];
    var r := if IsNode(t0, q + [R]) then [q + [R]] else [];
    WeightConcat(t0, l, r);
  }

  /** Some queued path leads down to p. */
  ghost predicate Covered(qs: seq<Path>, p: Path)
  {
    exists x :: x in qs && x <= p
  }
}
