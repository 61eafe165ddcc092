/**
 * What the Binary Search Tree simulator builds. Each value is hung as a new
 * leaf at the end of its search path (left when smaller than the node,
 * right otherwise); the leaf's x is the middle of the horizontal window
 * that the path narrows (going left caps the window at the parent's x,
 * going right floors it there) and its y is one layer under its parent.
 * `Grow` is that insertion, `Grown` the tree after a whole input.
 */
module BstLayout {
  import opened Types
  import opened Definitions
  import opened TreePaths
  import opened TreeHelpers

  /** The canvas the simulator lays the tree out on: x from 0 to 100. */
  const MinX: real := 0.0
  const MaxX: real := 100.0

  /** The window [lo, hi] left for the slot at the end of p, starting from [lo, hi] at t's root. */
  function Window(t: Tree, p: Path, lo: real, hi: real): (real, real)
    decreases p
  {
    if p == [] || t.Nil? then (lo, hi)
    else if p[0] == L then Window(t.left, p[1..], lo, t.x)
    else Window(t.right, p[1..], t.x, hi)
  }

  /** The y of the slot at the end of p: one layer under its parent, or y itself at the root. */
  function SlotY(t: Tree, p: Path, y: real): real
    decreases p
  {
    if p == [] || t.Nil? then y
    else SlotY(Child(t, p[0]), p[1..], t.y + TreeLayerHeight)
  }

  /**
   * `insertValue`'s effect on the tree: a DEFAULT leaf for val with the
   * given id, in the middle of its window and one layer down.
   */
  function Grow(t: Tree, val: int, id: nat, lo: real, hi: real, y: real): (r: Tree)
    ensures r.Node? && Size(r) == Size(t) + 1
    ensures t.Node? ==> ItemOf(r) == ItemOf(t)
  {
    match t
    case Nil => Node(id, val, (lo + hi) / 2.0, y, Nil, Nil, Default)
    case Node(_, value, x, ny, left, right, _) =>
      if val < value then t.(left := Grow(left, val, id, lo, x, ny + TreeLayerHeight))
      else t.(right := Grow(right, val, id, x, hi, ny + TreeLayerHeight))
  }

  /** The leaf `Grow` hangs. */
  function Leaf(t: Tree, val: int, id: nat, lo: real, hi: real, y: real): Tree
  {
    var q := SearchPath(t, val);
    var w := Window(t, q, lo, hi);
    Node(id, val, (w.0 + w.1) / 2.0, SlotY(t, q, y), Nil, Nil, Default)
  }

  /** Grow hangs its leaf at the end of the search path and changes nothing else. */
  lemma {:induction false} GrowPlaces(t: Tree, val: int, id: nat, lo: real, hi: real, y: real)
    ensures Grow(t, val, id, lo, hi, y) == ReplaceAt(t, SearchPath(t, val), Leaf(t, val, id, lo, hi, y))
  {
    match t
    case Nil =>
    case Node(_, value, x, ny, left, right, _) =>
      var h := ny + TreeLayerHeight;
      if val < value {
        GrowPlaces(left, val, id, lo, x, h);
        var q := SearchPath(left, val);
        assert SearchPath(t, val) == [L] + q && ([L] + q)[1..] == q;
        assert Leaf(t, val, id, lo, hi, y) == Leaf(left, val, id, lo, x, h);
      } else {
        GrowPlaces(right, val, id, x, hi, h);
        var q := SearchPath(right, val);
        assert SearchPath(t, val) == [R] + q && ([R] + q)[1..] == q;
        assert Leaf(t, val, id, lo, hi, y) == Leaf(right, val, id, x, hi, h);
      }
  }

  /** Inserting keeps the BST order: smaller values left, the rest (ties included) right. */
  lemma GrowKeepsBst(t: Tree, val: int, id: nat, lo: real, hi: real, y: real)
    requires Bst(t)
    ensures Bst(Grow(t, val, id, lo, hi, y))
  {
    GrowPlaces(t, val, id, lo, hi, y);
    FillKeepsBst(t, val, Leaf(t, val, id, lo, hi, y));
  }

  /** Inserting adds exactly val to the values and id to the ids. */
  lemma GrowContents(t: Tree, val: int, id: nat, lo: real, hi: real, y: real)
    ensures ValueBag(Grow(t, val, id, lo, hi, y)) == ValueBag(t) + multiset{val}
    ensures IdBag(Grow(t, val, id, lo, hi, y)) == IdBag(t) + multiset{id}
  {
    GrowPlaces(t, val, id, lo, hi, y);
    FillContents(t, SearchPath(t, val), Leaf(t, val, id, lo, hi, y));
    LeafBags(Leaf(t, val, id, lo, hi, y));
  }

  /** Inserting into an uncoloured tree gives an uncoloured tree. */
  lemma {:induction false} GrowUncoloured(t: Tree, val: int, id: nat, lo: real, hi: real, y: real)
    requires Strip(t) == t
    ensures Strip(Grow(t, val, id, lo, hi, y)) == Grow(t, val, id, lo, hi, y)
  {
    match t
    case Nil =>
    case Node(_, value, x, ny, left, right, _) =>
      if val < value {
        GrowUncoloured(left, val, id, lo, x, ny + TreeLayerHeight);
      } else {
        GrowUncoloured(right, val, id, x, hi, ny + TreeLayerHeight);
      }
  }

  // ----- layout -----

  /** Every node sits in the middle of the window its path narrows [lo, hi] to. */
  ghost predicate Placed(t: Tree, lo: real, hi: real)
  {
    match t
    case Nil => true
    case Node(_, _, x, _, left, right, _) => x == (lo + hi) / 2.0 && Placed(left, lo, x) && Placed(right, x, hi)
  }

  lemma {:induction false} GrowKeepsPlaced(t: Tree, val: int, id: nat, lo: real, hi: real, y: real)
    requires Placed(t, lo, hi)
    ensures Placed(Grow(t, val, id, lo, hi, y), lo, hi)
  {
    match t
    case Nil =>
    case Node(_, value, x, ny, left, right, _) =>
      if val < value {
        GrowKeepsPlaced(left, val, id, lo, x, ny + TreeLayerHeight);
      } else {
        GrowKeepsPlaced(right, val, id, x, hi, ny + TreeLayerHeight);
      }
  }

  lemma {:induction false} GrowKeepsLayered(t: Tree, val: int, id: nat, lo: real, hi: real, y: real)
    requires Layered(t, y)
    ensures Layered(Grow(t, val, id, lo, hi, y), y)
  {
    match t
    case Nil =>
    case Node(_, value, x, ny, left, right, _) =>
      if val < value {
        GrowKeepsLayered(left, val, id, lo, x, ny + TreeLayerHeight);
      } else {
        GrowKeepsLayered(right, val, id, x, hi, ny + TreeLayerHeight);
      }
  }

  /** The x coordinates of t's nodes, read in inorder. */
  function InorderXs(t: Tree): (r: seq<real>)
    ensures |r| == Size(t)
  {
    var xs := Flatten(InOrder, t);
    seq(|xs|, i requires 0 <= i < |xs| => xs[i].x)
  }

  ghost predicate StrictlyIncreasing(xs: seq<real>)
  {
    forall i, j | 0 <= i < j < |xs| :: xs[i] < xs[j]
  }

  /**
   * The layout never draws two nodes at the same x, and reading the tree
   * left to right on screen is reading it in inorder: the x coordinates
   * strictly increase in inorder and stay inside the window.
   */
  lemma {:induction false} PlacedInorder(t: Tree, lo: real, hi: real)
    requires Placed(t, lo, hi) && lo < hi
    ensures StrictlyIncreasing(InorderXs(t))
    ensures forall i | 0 <= i < |InorderXs(t)| :: lo < InorderXs(t)[i] < hi
  {
    match t
    case Nil =>
    case Node(_, _, x, _, left, right, _) =>
      PlacedInorder(left, lo, x);
      PlacedInorder(right, x, hi);
      var a, b := InorderXs(left), InorderXs(right);
      assert InorderXs(t) == a + [x] + b;
      var s := a + [x] + b;
      forall i, j | 0 <= i < j < |s| ensures s[i] < s[j] {
        if j < |a| {
        } else if i < |a| {
          assert s[i] == a[i];
        } else if i == |a| {
          assert s[j] == b[j - |a| - 1];
        } else {
          assert s[i] == b[i - |a| - 1] && s[j] == b[j - |a| - 1];
        }
      }
      forall i | 0 <= i < |s| ensures lo < s[i] < hi {
        if i < |a| {
          assert s[i] == a[i];
        } else if i > |a| {
          assert s[i] == b[i - |a| - 1];
        }
      }
  }

  /**
   * The static builder of the traversals places a node dx beside its parent
   * with dx halving per level; on a tree laid out by windows this is the
   * same placement.
   */
  lemma {:induction false} SameLayout(t: Tree, val: int, id: nat, lo: real, hi: real, y: real)
    requires Placed(t, lo, hi) && Layered(t, y)
    ensures BuildInsert(t, val, id, (lo + hi) / 2.0, y, (hi - lo) / 4.0) == Grow(t, val, id, lo, hi, y)
  {
    match t
    case Nil =>
    case Node(_, value, x, ny, left, right, _) =>
      var h := y + TreeLayerHeight;
      var dx := (hi - lo) / 4.0;
      if val < value {
        SameLayout(left, val, id, lo, x, h);
        assert (lo + x) / 2.0 == (lo + hi) / 2.0 - dx && (x - lo) / 4.0 == dx / 2.0;
      } else {
        SameLayout(right, val, id, x, hi, h);
        assert (x + hi) / 2.0 == (lo + hi) / 2.0 + dx && (hi - x) / 4.0 == dx / 2.0;
      }
  }

  // ----- the whole input -----

  /** The tree after inserting values in order, value i as `node-i`, on the 0..100 canvas. */
  function Grown(values: seq<int>): (r: Tree)
    ensures Size(r) == |values|
    decreases |values|
  {
    if |values| == 0 then Nil
    else
      var n := |values| - 1;
      Grow(Grown(values[..n]), values[n], n, MinX, MaxX, TreeRootY)
  }

  /** The built tree holds one node per value, value i as `node-i`, in BST order. */
  lemma GrownContents(values: seq<int>)
    ensures Bst(Grown(values))
    ensures ValueBag(Grown(values)) == multiset(values)
    ensures IdBag(Grown(values)) == multiset(Range(|values|))
  {
    GrownBst(values);
    GrownValues(values);
    GrownIds(values);
  }

  /** The built tree is in BST order. */
  lemma {:induction false} GrownBst(values: seq<int>)
    ensures Bst(Grown(values))
    decreases |values|
  {
    if |values| > 0 {
      var n := |values| - 1;
      var prev := Grown(values[..n]);
      assert Grown(values) == Grow(prev, values[n], n, MinX, MaxX, TreeRootY);
      GrownBst(values[..n]);
      GrowKeepsBst(prev, values[n], n, MinX, MaxX, TreeRootY);
    }
  }

  /** The built tree holds the input values. */
  lemma {:induction false} GrownValues(values: seq<int>)
    ensures ValueBag(Grown(values)) == multiset(values)
    decreases |values|
  {
    if |values| > 0 {
      var n := |values| - 1;
      var prev := Grown(values[..n]);
      assert Grown(values) == Grow(prev, values[n], n, MinX, MaxX, TreeRootY);
      GrownValues(values[..n]);
      GrowContents(prev, values[n], n, MinX, MaxX, TreeRootY);
      SnocBag(values);
    }
  }

  /** The built tree holds value i as `node-i`: its ids are 0 .. |values| - 1. */
  lemma {:induction false} GrownIds(values: seq<int>)
    ensures IdBag(Grown(values)) == multiset(Range(|values|))
    decreases |values|
  {
    if |values| > 0 {
      var n := |values| - 1;
      var prev := Grown(values[..n]);
      assert Grown(values) == Grow(prev, values[n], n, MinX, MaxX, TreeRootY);
      GrownIds(values[..n]);
      GrowContents(prev, values[n], n, MinX, MaxX, TreeRootY);
      SnocBag(Range(n + 1));
      assert Range(n + 1)[..n] == Range(n);
    }
  }

  /** The built tree is laid out by windows and layers and is uncoloured. */
  lemma {:induction false} GrownFacts(values: seq<int>)
    ensures Placed(Grown(values), MinX, MaxX) && Layered(Grown(values), TreeRootY)
    ensures Strip(Grown(values)) == Grown(values)
    decreases |values|
  {
    if |values| > 0 {
      var n := |values| - 1;
      var prev := Grown(values[..n]);
      assert Grown(values) == Grow(prev, values[n], n, MinX, MaxX, TreeRootY);
      GrownFacts(values[..n]);
      GrowKeepsPlaced(prev, values[n], n, MinX, MaxX, TreeRootY);
      GrowKeepsLayered(prev, values[n], n, MinX, MaxX, TreeRootY);
      GrowUncoloured(prev, values[n], n, MinX, MaxX, TreeRootY);
    }
  }

  /** The simulator's incremental builder and the traversals' static builder make the same tree. */
  lemma {:induction false} GrownIsBuilt(values: seq<int>)
    ensures Grown(values) == Built(values)
    decreases |values|
  {
    if |values| > 0 {
      var n := |values| - 1;
      var prev := Grown(values[..n]);
      assert Grown(values) == Grow(prev, values[n], n, MinX, MaxX, TreeRootY);
      assert Built(values) == BuildInsert(Built(values[..n]), values[n], n, 50.0, TreeRootY, 25.0);
      GrownIsBuilt(values[..n]);
      GrownFacts(values[..n]);
      SameLayout(prev, values[n], n, MinX, MaxX, TreeRootY);
      assert (MinX + MaxX) / 2.0 == 50.0 && (MaxX - MinX) / 4.0 == 25.0;
    }
  }

  /** On screen the nodes of the built tree never share an x and read left to right in inorder. */
  lemma GrownLayout(values: seq<int>)
    ensures StrictlyIncreasing(InorderXs(Grown(values)))
    ensures forall i | 0 <= i < |values| :: MinX < InorderXs(Grown(values))[i] < MaxX
  {
    GrownFacts(values);
    PlacedInorder(Grown(values), MinX, MaxX);
  }
}
