/**
 * Machinery for trees held as values. The simulators walk a tree by
 * following `left`/`right` references and recolour the node they stand on
 * in place; here a node is named by its path from the root, and recolouring
 * it rebuilds the tree along that path. Children are exclusively owned, so
 * the two views agree.
 *
 * The three depth-first orders are described by listing the nodes'
 * payloads (`Item`s). For every order the items of a subtree are contiguous
 * in the items of the whole tree, which is what `Before`/`After` capture.
 */
module TreePaths {
  import opened Types

  datatype Dir = L | R
  type Path = seq<Dir>

  function Size(t: Tree): nat
  {
    match t
    case Nil => 0
    case Node(_, _, _, _, left, right, _) => 1 + Size(left) + Size(right)
  }

  function Child(t: Tree, d: Dir): Tree
    requires t.Node?
  {
    if d == L then t.left else t.right
  }

  /** The subtree at path p; Nil once the path leaves the tree. */
  function At(t: Tree, p: Path): Tree
  {
    if p == [] then t
    else if t.Nil? then Nil
    else At(Child(t, p[0]), p[1..])
  }

  /** Every proper prefix of p names a node: p names a node or a null child slot. */
  ghost predicate ValidPath(t: Tree, p: Path)
  {
    p == [] || (t.Node? && ValidPath(Child(t, p[0]), p[1..]))
  }

  /** `t` with the subtree at p replaced by s. */
  function ReplaceAt(t: Tree, p: Path, s: Tree): Tree
  {
    if p == [] then s
    else if t.Nil? then Nil
    else if p[0] == L then t.(left := ReplaceAt(t.left, p[1..], s))
    else t.(right := ReplaceAt(t.right, p[1..], s))
  }

  /** `node.status = st` on the node at p. */
  function SetStatusAt(t: Tree, p: Path, st: Status): Tree
  {
    var s := At(t, p);
    ReplaceAt(t, p, if s.Node? then s.(status := st) else s)
  }

  /** Every node of t coloured st. */
  function Paint(t: Tree, st: Status): (r: Tree)
    ensures Size(r) == Size(t)
  {
    match t
    case Nil => Nil
    case Node(id, value, x, y, left, right, _) => Node(id, value, x, y, Paint(left, st), Paint(right, st), st)
  }

  /** The tree with its colours forgotten: shape, ids, values and coordinates. */
  function Strip(t: Tree): Tree
  {
    Paint(t, Default)
  }

  /** A node's own payload. */
  datatype Item = Item(id: nat, value: int, x: real, y: real, status: Status)

  function ItemOf(t: Tree): Item
    requires t.Node?
  {
    Item(t.id, t.value, t.x, t.y, t.status)
  }

  datatype Order = PreOrder | InOrder | PostOrder

  /** The items of t in the given depth-first order. */
  function Flatten(o: Order, t: Tree): (r: seq<Item>)
    ensures |r| == Size(t)
  {
    match t
    case Nil => []
    case Node(_, _, _, _, left, right, _) =>
      match o
      case PreOrder => [ItemOf(t)] + Flatten(o, left) + Flatten(o, right)
      case InOrder => Flatten(o, left) + [ItemOf(t)] + Flatten(o, right)
      case PostOrder => Flatten(o, left) + Flatten(o, right) + [ItemOf(t)]
  }

  /** The items of node t listed before those of its child d. */
  function ChildBefore(o: Order, t: Tree, d: Dir): seq<Item>
    requires t.Node?
  {
    match o
    case PreOrder => if d == L then [ItemOf(t)] else [ItemOf(t)] + Flatten(o, t.left)
    case InOrder => if d == L then [] else Flatten(o, t.left) + [ItemOf(t)]
    case PostOrder => if d == L then [] else Flatten(o, t.left)
  }

  /** The items of node t listed after those of its child d. */
  function ChildAfter(o: Order, t: Tree, d: Dir): seq<Item>
    requires t.Node?
  {
    match o
    case PreOrder => if d == L then Flatten(o, t.right) else []
    case InOrder => if d == L then [ItemOf(t)] + Flatten(o, t.right) else []
    case PostOrder => if d == L then Flatten(o, t.right) + [ItemOf(t)] else [ItemOf(t)]
  }

  lemma FlattenAround(o: Order, t: Tree, d: Dir)
    requires t.Node?
    ensures Flatten(o, t) == ChildBefore(o, t, d) + Flatten(o, Child(t, d)) + ChildAfter(o, t, d)
  {
  }

  /** A node's contribution around its child d does not depend on that child. */
  lemma AroundSibling(o: Order, t: Tree, d: Dir, c: Tree)
    requires t.Node?
    ensures var t' := if d == L then t.(left := c) else t.(right := c);
      ChildBefore(o, t', d) == ChildBefore(o, t, d) && ChildAfter(o, t', d) == ChildAfter(o, t, d)
  {
  }

  /** The items listed before the subtree at p. */
  function Before(o: Order, t: Tree, p: Path): seq<Item>
    requires ValidPath(t, p)
  {
    if p == [] then [] else ChildBefore(o, t, p[0]) + Before(o, Child(t, p[0]), p[1..])
  }

  /** The items listed after the subtree at p. */
  function After(o: Order, t: Tree, p: Path): seq<Item>
    requires ValidPath(t, p)
  {
    if p == [] then [] else After(o, Child(t, p[0]), p[1..]) + ChildAfter(o, t, p[0])
  }

  /** Each item with colour st. */
  function PaintItems(xs: seq<Item>, st: Status): (r: seq<Item>)
    ensures |r| == |xs|
  {
    seq(|xs|, i requires 0 <= i < |xs| => xs[i].(status := st))
  }

  /**
   * The colours a depth-first walk shows when it stands on the j-th item:
   * the items before it VISITED, the j-th ACTIVE, the rest as they were.
   */
  function Marked(xs: seq<Item>, j: int): seq<Item>
    requires 0 <= j < |xs|
  {
    PaintItems(xs[..j], Visited) + [xs[j].(status := Active)] + xs[j + 1..]
  }

  // ----- paths -----

  lemma {:induction false} AtReplace(t: Tree, p: Path, s: Tree)
    requires ValidPath(t, p)
    ensures ValidPath(ReplaceAt(t, p, s), p) && At(ReplaceAt(t, p, s), p) == s
    decreases p
  {
    if p != [] {
      AtReplace(Child(t, p[0]), p[1..], s);
    }
  }

  lemma {:induction false} ReplaceSame(t: Tree, p: Path)
    ensures ReplaceAt(t, p, At(t, p)) == t
    decreases p
  {
    if p != [] && t.Node? {
      ReplaceSame(Child(t, p[0]), p[1..]);
    }
  }

  lemma {:induction false} ReplaceTwice(t: Tree, p: Path, s1: Tree, s2: Tree)
    ensures ReplaceAt(ReplaceAt(t, p, s1), p, s2) == ReplaceAt(t, p, s2)
    decreases p
  {
    if p != [] && t.Node? {
      ReplaceTwice(Child(t, p[0]), p[1..], s1, s2);
    }
  }

  /** Extending a path that ends on a node by one step. */
  lemma {:induction false} AtChild(t: Tree, p: Path, d: Dir)
    requires ValidPath(t, p) && At(t, p).Node?
    ensures ValidPath(t, p + [d]) && At(t, p + [d]) == Child(At(t, p), d)
    decreases p
  {
    if p != [] {
      assert (p + [d])[1..] == p[1..] + [d];
      AtChild(Child(t, p[0]), p[1..], d);
    }
  }

  /** Replacing below p + [d] is replacing the child d of the node at p. */
  lemma {:induction false} ReplaceChild(t: Tree, p: Path, d: Dir, s: Tree)
    requires ValidPath(t, p) && At(t, p).Node?
    ensures ReplaceAt(t, p + [d], s) ==
      ReplaceAt(t, p, if d == L then At(t, p).(left := s) else At(t, p).(right := s))
    decreases p
  {
    if p != [] {
      assert (p + [d])[1..] == p[1..] + [d];
      ReplaceChild(Child(t, p[0]), p[1..], d, s);
    }
  }

  // ----- colours and shape -----

  lemma {:induction false} StripReplace(t: Tree, p: Path, s: Tree)
    requires ValidPath(t, p)
    ensures Strip(ReplaceAt(t, p, s)) == ReplaceAt(Strip(t), p, Strip(s))
    decreases p
  {
    if p != [] {
      StripReplace(Child(t, p[0]), p[1..], s);
    }
  }

  lemma {:induction false} PaintTwice(t: Tree, a: Status, b: Status)
    ensures Paint(Paint(t, a), b) == Paint(t, b)
  {
    match t
    case Nil =>
    case Node(_, _, _, _, left, right, _) =>
      PaintTwice(left, a, b);
      PaintTwice(right, a, b);
  }

  /** Recolouring the node at p or any subtree leaves the stripped tree as it was. */
  lemma RecolourKeepsShape(t: Tree, p: Path, s: Tree)
    requires ValidPath(t, p) && Strip(s) == Strip(At(t, p))
    ensures Strip(ReplaceAt(t, p, s)) == Strip(t)
  {
    StripReplace(t, p, s);
    StripReplace(t, p, At(t, p));
    ReplaceSame(t, p);
  }

  // ----- depth-first orders -----

  lemma {:induction false} FlattenPaint(o: Order, t: Tree, st: Status)
    ensures Flatten(o, Paint(t, st)) == PaintItems(Flatten(o, t), st)
  {
    match t
    case Nil =>
    case Node(_, _, _, _, left, right, _) =>
      FlattenPaint(o, left, st);
      FlattenPaint(o, right, st);
      var t' := Paint(t, st);
      var n, l, r := [ItemOf(t)], Flatten(o, left), Flatten(o, right);
      assert [ItemOf(t')] == PaintItems(n, st);
      assert Flatten(o, t'.left) == PaintItems(l, st) && Flatten(o, t'.right) == PaintItems(r, st);
      match o
      case PreOrder => PaintConcat3(n, l, r, st);
      case InOrder => PaintConcat3(l, n, r, st);
      case PostOrder => PaintConcat3(l, r, n, st);
  }

  lemma PaintConcat3(a: seq<Item>, b: seq<Item>, c: seq<Item>, st: Status)
    ensures PaintItems(a + b + c, st) == PaintItems(a, st) + PaintItems(b, st) + PaintItems(c, st)
  {
  }

  /** The subtree at p is listed contiguously, between Before and After. */
  lemma {:induction false} FlattenReplace(o: Order, t: Tree, p: Path, s: Tree)
    requires ValidPath(t, p)
    ensures Flatten(o, ReplaceAt(t, p, s)) == Before(o, t, p) + Flatten(o, s) + After(o, t, p)
    decreases p
  {
    if p != [] {
      var d := p[0];
      var c := ReplaceAt(Child(t, d), p[1..], s);
      var t' := if d == L then t.(left := c) else t.(right := c);
      assert t' == ReplaceAt(t, p, s);
      FlattenReplace(o, Child(t, d), p[1..], s);
      FlattenAround(o, t', d);
      AroundSibling(o, t, d, c);
      var b, a := ChildBefore(o, t, d), ChildAfter(o, t, d);
      var b', a' := Before(o, Child(t, d), p[1..]), After(o, Child(t, d), p[1..]);
      assert Before(o, t, p) == b + b' && After(o, t, p) == a' + a;
      Regroup(b, b', Flatten(o, s), a', a);
    }
  }

  /** What is listed around the subtree at p does not depend on that subtree. */
  lemma {:induction false} AroundReplace(o: Order, t: Tree, p: Path, s: Tree)
    requires ValidPath(t, p)
    ensures ValidPath(ReplaceAt(t, p, s), p)
    ensures Before(o, ReplaceAt(t, p, s), p) == Before(o, t, p)
    ensures After(o, ReplaceAt(t, p, s), p) == After(o, t, p)
    decreases p
  {
    AtReplace(t, p, s);
    if p != [] {
      AroundReplace(o, Child(t, p[0]), p[1..], s);
    }
  }

  /** Going one step down adds the node's own contribution on each side. */
  lemma {:induction false} AroundChild(o: Order, t: Tree, p: Path, d: Dir)
    requires ValidPath(t, p) && At(t, p).Node?
    ensures ValidPath(t, p + [d])
    ensures Before(o, t, p + [d]) == Before(o, t, p) + ChildBefore(o, At(t, p), d)
    ensures After(o, t, p + [d]) == ChildAfter(o, At(t, p), d) + After(o, t, p)
    decreases p
  {
    AtChild(t, p, d);
    if p != [] {
      var c, q := Child(t, p[0]), p[1..];
      assert (p + [d])[1..] == q + [d];
      AroundChild(o, c, q, d);
      var b, a := ChildBefore(o, t, p[0]), ChildAfter(o, t, p[0]);
      var e, f := ChildBefore(o, At(t, p), d), ChildAfter(o, At(t, p), d);
      assert Before(o, t, p + [d]) == b + (Before(o, c, q) + e);
      assert After(o, t, p + [d]) == (f + After(o, c, q)) + a;
      Assoc(b, Before(o, c, q), e);
      Assoc(f, After(o, c, q), a);
    }
  }

  lemma Assoc(a: seq<Item>, b: seq<Item>, c: seq<Item>)
    ensures a + (b + c) == (a + b) + c
  {
  }

  lemma Regroup(b: seq<Item>, b': seq<Item>, m: seq<Item>, a': seq<Item>, a: seq<Item>)
    ensures b + (b' + m + a') + a == (b + b') + m + (a' + a)
  {
  }

  /** Standing on an item of the middle part of a listing. */
  lemma MarkedShift(a: seq<Item>, b: seq<Item>, c: seq<Item>, j: int)
    requires 0 <= j < |b|
    ensures Marked(a + b + c, |a| + j) == PaintItems(a, Visited) + Marked(b, j) + c
  {
    var xs := a + b + c;
    assert xs[..|a| + j] == a + b[..j];
    assert xs[|a| + j] == b[j];
    assert xs[|a| + j + 1..] == b[j + 1..] + c;
  }
}
