/**
 * What a depth-first traversal shows. The three recursive walks (preorder,
 * inorder, postorder) colour one node ACTIVE, snapshot the whole tree, then
 * colour it VISITED. `MarkTree(o, t, j)` is subtree t as it stands while a
 * walk in order o is on its j-th node; `MarkTreeListing` says what that
 * means: read in order o, the first j items are VISITED, the j-th is ACTIVE
 * and the rest are as they were, with shape and values unchanged.
 */
module TraversalSpec {
  import opened Types
  import opened TreePaths

  /** Subtree t while a walk in order o stands on its j-th node. */
  function MarkTree(o: Order, t: Tree, j: int): (m: Tree)
    requires 0 <= j < Size(t)
    ensures m.Node? && Size(m) == Size(t)
  {
    var nl, nr := Size(t.left), Size(t.right);
    match o
    case PreOrder =>
      if j == 0 then t.(status := Active)
      else if j <= nl then t.(status := Visited, left := MarkTree(o, t.left, j - 1))
      else t.(status := Visited, left := Paint(t.left, Visited), right := MarkTree(o, t.right, j - 1 - nl))
    case InOrder =>
      if j < nl then t.(left := MarkTree(o, t.left, j))
      else if j == nl then t.(left := Paint(t.left, Visited), status := Active)
      else t.(left := Paint(t.left, Visited), status := Visited, right := MarkTree(o, t.right, j - 1 - nl))
    case PostOrder =>
      if j < nl then t.(left := MarkTree(o, t.left, j))
      else if j < nl + nr then t.(left := Paint(t.left, Visited), right := MarkTree(o, t.right, j - nl))
      else t.(left := Paint(t.left, Visited), right := Paint(t.right, Visited), status := Active)
  }

  /** MarkTree keeps shape and values and lists as `Marked` says. */
  lemma MarkTreeListing(o: Order, t: Tree, j: int)
    requires 0 <= j < Size(t)
    ensures Strip(MarkTree(o, t, j)) == Strip(t)
    ensures Flatten(o, MarkTree(o, t, j)) == Marked(Flatten(o, t), j)
  {
    MarkTreeShape(o, t, j);
    match o
    case PreOrder => PreorderMarking(t, j);
    case InOrder => InorderMarking(t, j);
    case PostOrder => PostorderMarking(t, j);
  }

  lemma {:induction false} MarkTreeShape(o: Order, t: Tree, j: int)
    requires 0 <= j < Size(t)
    ensures Strip(MarkTree(o, t, j)) == Strip(t)
    decreases Size(t)
  {
    var l, r := t.left, t.right;
    var nl, nr := Size(l), Size(r);
    PaintTwice(l, Visited, Default);
    PaintTwice(r, Visited, Default);
    match o
    case PreOrder =>
      if 0 < j <= nl {
        MarkTreeShape(o, l, j - 1);
      } else if j > nl {
        MarkTreeShape(o, r, j - 1 - nl);
      }
    case InOrder =>
      if j < nl {
        MarkTreeShape(o, l, j);
      } else if j > nl {
        MarkTreeShape(o, r, j - 1 - nl);
      }
    case PostOrder =>
      if j < nl {
        MarkTreeShape(o, l, j);
      } else if j < nl + nr {
        MarkTreeShape(o, r, j - nl);
      }
  }

  lemma {:induction false} PreorderMarking(t: Tree, j: int)
    requires 0 <= j < Size(t)
    ensures Flatten(PreOrder, MarkTree(PreOrder, t, j)) == Marked(Flatten(PreOrder, t), j)
    decreases Size(t), 1
  {
    assert t.Node? && Size(t) == Size(t.left) + Size(t.right) + 1;
    var nl := Size(t.left);
    if j == 0 {
      PreorderOnNode(t);
    } else if j <= nl {
      PreorderInLeft(t, j);
    } else {
      PreorderInRight(t, j);
    }
  }

  lemma PreorderOnNode(t: Tree)
    requires t.Node?
    ensures Flatten(PreOrder, MarkTree(PreOrder, t, 0)) == Marked(Flatten(PreOrder, t), 0)
  {
    var o := PreOrder;
    var n, fl, fr := [ItemOf(t)], Flatten(o, t.left), Flatten(o, t.right);
    assert MarkTree(o, t, 0) == t.(status := Active);
    assert Flatten(o, MarkTree(o, t, 0)) == [] + [ItemOf(t).(status := Active)] + (fl + fr);
    ComposeNode(Flatten(o, t), [], ItemOf(t), fl + fr);
  }

  lemma {:induction false} PreorderInLeft(t: Tree, j: int)
    requires t.Node? && 0 < j <= Size(t.left)
    ensures Flatten(PreOrder, MarkTree(PreOrder, t, j)) == Marked(Flatten(PreOrder, t), j)
    decreases Size(t), 0
  {
    PreorderMarking(t.left, j - 1);
    var o := PreOrder;
    var n, fl, fr := [ItemOf(t)], Flatten(o, t.left), Flatten(o, t.right);
    var c := MarkTree(o, t.left, j - 1);
    assert MarkTree(o, t, j) == t.(status := Visited, left := c);
    assert Flatten(o, MarkTree(o, t, j)) == PaintItems(n, Visited) + Flatten(o, c) + fr;
    ComposeMiddle(Flatten(o, t), n, fl, fr, j - 1, j);
  }

  lemma {:induction false} PreorderInRight(t: Tree, j: int)
    requires t.Node? && Size(t.left) < j < Size(t)
    ensures Flatten(PreOrder, MarkTree(PreOrder, t, j)) == Marked(Flatten(PreOrder, t), j)
    decreases Size(t), 0
  {
    PreorderMarking(t.right, j - 1 - Size(t.left));
    var o := PreOrder;
    var n, fl, fr := [ItemOf(t)], Flatten(o, t.left), Flatten(o, t.right);
    var c := MarkTree(o, t.right, j - 1 - Size(t.left));
    assert MarkTree(o, t, j) == t.(status := Visited, left := Paint(t.left, Visited), right := c);
    FlattenPaint(o, t.left, Visited);
    PaintConcat3(n, fl, [], Visited);
    assert Flatten(o, MarkTree(o, t, j)) == PaintItems(n + fl, Visited) + Flatten(o, c);
    ComposeLast(Flatten(o, t), n + fl, fr, j - 1 - Size(t.left), j);
  }

  lemma {:induction false} InorderMarking(t: Tree, j: int)
    requires 0 <= j < Size(t)
    ensures Flatten(InOrder, MarkTree(InOrder, t, j)) == Marked(Flatten(InOrder, t), j)
    decreases Size(t), 1
  {
    assert t.Node? && Size(t) == Size(t.left) + Size(t.right) + 1;
    var nl := Size(t.left);
    if j < nl {
      InorderInLeft(t, j);
    } else if j == nl {
      InorderOnNode(t);
    } else {
      InorderInRight(t, j);
    }
  }

  lemma {:induction false} InorderInLeft(t: Tree, j: int)
    requires t.Node? && 0 <= j < Size(t.left)
    ensures Flatten(InOrder, MarkTree(InOrder, t, j)) == Marked(Flatten(InOrder, t), j)
    decreases Size(t), 0
  {
    InorderMarking(t.left, j);
    var o := InOrder;
    var n, fl, fr := [ItemOf(t)], Flatten(o, t.left), Flatten(o, t.right);
    var c := MarkTree(o, t.left, j);
    assert MarkTree(o, t, j) == t.(left := c);
    assert Flatten(o, MarkTree(o, t, j)) == Flatten(o, c) + (n + fr);
    ComposeFirst(Flatten(o, t), fl, n + fr, j);
  }

  lemma InorderOnNode(t: Tree)
    requires t.Node?
    ensures Flatten(InOrder, MarkTree(InOrder, t, Size(t.left))) == Marked(Flatten(InOrder, t), Size(t.left))
  {
    var o := InOrder;
    var n, fl, fr := [ItemOf(t)], Flatten(o, t.left), Flatten(o, t.right);
    assert MarkTree(o, t, Size(t.left)) == t.(left := Paint(t.left, Visited), status := Active);
    FlattenPaint(o, t.left, Visited);
    assert Flatten(o, MarkTree(o, t, Size(t.left))) == PaintItems(fl, Visited) + [ItemOf(t).(status := Active)] + fr;
    ComposeNode(Flatten(o, t), fl, ItemOf(t), fr);
  }

  lemma {:induction false} InorderInRight(t: Tree, j: int)
    requires t.Node? && Size(t.left) < j < Size(t)
    ensures Flatten(InOrder, MarkTree(InOrder, t, j)) == Marked(Flatten(InOrder, t), j)
    decreases Size(t), 0
  {
    InorderMarking(t.right, j - 1 - Size(t.left));
    var o := InOrder;
    var n, fl, fr := [ItemOf(t)], Flatten(o, t.left), Flatten(o, t.right);
    var c := MarkTree(o, t.right, j - 1 - Size(t.left));
    assert MarkTree(o, t, j) == t.(left := Paint(t.left, Visited), status := Visited, right := c);
    FlattenPaint(o, t.left, Visited);
    PaintConcat3(fl, n, [], Visited);
    assert Flatten(o, MarkTree(o, t, j)) == PaintItems(fl + n, Visited) + Flatten(o, c);
    ComposeLast(Flatten(o, t), fl + n, fr, j - 1 - Size(t.left), j);
  }

  lemma {:induction false} PostorderMarking(t: Tree, j: int)
    requires 0 <= j < Size(t)
    ensures Flatten(PostOrder, MarkTree(PostOrder, t, j)) == Marked(Flatten(PostOrder, t), j)
    decreases Size(t), 1
  {
    assert t.Node? && Size(t) == Size(t.left) + Size(t.right) + 1;
    var nl, nr := Size(t.left), Size(t.right);
    if j < nl {
      PostorderInLeft(t, j);
    } else if j < nl + nr {
      PostorderInRight(t, j);
    } else {
      PostorderOnNode(t);
      assert j == Size(t) - 1;
    }
  }

  lemma {:induction false} PostorderInLeft(t: Tree, j: int)
    requires t.Node? && 0 <= j < Size(t.left)
    ensures Flatten(PostOrder, MarkTree(PostOrder, t, j)) == Marked(Flatten(PostOrder, t), j)
    decreases Size(t), 0
  {
    PostorderMarking(t.left, j);
    var o := PostOrder;
    var n, fl, fr := [ItemOf(t)], Flatten(o, t.left), Flatten(o, t.right);
    var c := MarkTree(o, t.left, j);
    assert MarkTree(o, t, j) == t.(left := c);
    assert Flatten(o, MarkTree(o, t, j)) == Flatten(o, c) + (fr + n);
    ComposeFirst(Flatten(o, t), fl, fr + n, j);
  }

  lemma {:induction false} PostorderInRight(t: Tree, j: int)
    requires t.Node? && Size(t.left) <= j < Size(t.left) + Size(t.right)
    ensures Flatten(PostOrder, MarkTree(PostOrder, t, j)) == Marked(Flatten(PostOrder, t), j)
    decreases Size(t), 0
  {
    PostorderMarking(t.right, j - Size(t.left));
    var o := PostOrder;
    var n, fl, fr := [ItemOf(t)], Flatten(o, t.left), Flatten(o, t.right);
    var c := MarkTree(o, t.right, j - Size(t.left));
    assert MarkTree(o, t, j) == t.(left := Paint(t.left, Visited), right := c);
    FlattenPaint(o, t.left, Visited);
    assert Flatten(o, MarkTree(o, t, j)) == PaintItems(fl, Visited) + Flatten(o, c) + n;
    ComposeMiddle(Flatten(o, t), fl, fr, n, j - Size(t.left), j);
  }

  lemma PostorderOnNode(t: Tree)
    requires t.Node?
    ensures Flatten(PostOrder, MarkTree(PostOrder, t, Size(t) - 1)) == Marked(Flatten(PostOrder, t), Size(t) - 1)
  {
    var o := PostOrder;
    var n, fl, fr := [ItemOf(t)], Flatten(o, t.left), Flatten(o, t.right);
    assert MarkTree(o, t, Size(t) - 1) == t.(left := Paint(t.left, Visited), right := Paint(t.right, Visited), status := Active);
    FlattenPaint(o, t.left, Visited);
    FlattenPaint(o, t.right, Visited);
    PaintConcat3(fl, fr, [], Visited);
    assert Flatten(o, MarkTree(o, t, Size(t) - 1)) == PaintItems(fl + fr, Visited) + [ItemOf(t).(status := Active)] + [];
    ComposeNode(Flatten(o, t), fl + fr, ItemOf(t), []);
  }

  /** Standing on node x of a listing a + [x] + c. */
  lemma ComposeNode(xs: seq<Item>, a: seq<Item>, x: Item, c: seq<Item>)
    requires xs == a + [x] + c
    ensures Marked(xs, |a|) == PaintItems(a, Visited) + [x.(status := Active)] + c
  {
    assert xs[..|a|] == a;
    assert xs[|a| + 1..] == c;
  }

  /** Standing on item j of the first part b of a listing b + c. */
  lemma ComposeFirst(xs: seq<Item>, b: seq<Item>, c: seq<Item>, j: int)
    requires xs == b + c && 0 <= j < |b|
    ensures Marked(xs, j) == Marked(b, j) + c
  {
    assert xs[..j] == b[..j];
    assert xs[j + 1..] == b[j + 1..] + c;
  }

  /** Standing on item k of the middle part b of a listing a + b + c. */
  lemma ComposeMiddle(xs: seq<Item>, a: seq<Item>, b: seq<Item>, c: seq<Item>, k: int, j: int)
    requires xs == a + b + c && 0 <= k < |b| && j == |a| + k
    ensures Marked(xs, j) == PaintItems(a, Visited) + Marked(b, k) + c
  {
    MarkedShift(a, b, c, k);
  }

  /** Standing on item k of the last part b of a listing a + b. */
  lemma ComposeLast(xs: seq<Item>, a: seq<Item>, b: seq<Item>, k: int, j: int)
    requires xs == a + b && 0 <= k < |b| && j == |a| + k
    ensures Marked(xs, j) == PaintItems(a, Visited) + Marked(b, k)
  {
    assert xs[..j] == a + b[..k];
    assert xs[j + 1..] == b[k + 1..];
    PaintConcat3(a, b[..k], [], Visited);
    assert a + b[..k] + [] == a + b[..k];
  }

  /** What `Marked` says item by item. */
  lemma MarkedColours(xs: seq<Item>, j: int)
    requires 0 <= j < |xs|
    ensures |Marked(xs, j)| == |xs|
    ensures forall i | 0 <= i < j :: Marked(xs, j)[i] == xs[i].(status := Visited)
    ensures Marked(xs, j)[j] == xs[j].(status := Active)
    ensures forall i | j < i < |xs| :: Marked(xs, j)[i] == xs[i]
  {
  }


  /**
   * Colours of an uncoloured tree t while the walk stands on its j-th node:
   * read in order o, the nodes before it are VISITED, it is ACTIVE, the rest
   * are still DEFAULT, and shape, ids, values and coordinates are unchanged.
   * So each node is ACTIVE in exactly one stop of the walk, its own, and
   * VISITED in every later one.
   */
  lemma WalkColours(o: Order, t: Tree, j: int, i: int)
    requires Strip(t) == t && 0 <= j < Size(t) && 0 <= i < Size(t)
    ensures Strip(MarkTree(o, t, j)) == Strip(t)
    ensures Flatten(o, MarkTree(o, t, j))[i] ==
      Flatten(o, t)[i].(status := if i < j then Visited else if i == j then Active else Default)
  {
    MarkTreeListing(o, t, j);
    MarkedColours(Flatten(o, t), j);
    FlattenPaint(o, t, Default);
    assert Flatten(o, t)[i].status == Default;
  }

  /** In preorder the root is the first node visited and stays VISITED afterwards. */
  lemma PreorderRootFirst(t: Tree)
    requires t.Node?
    ensures MarkTree(PreOrder, t, 0).status == Active
    ensures forall j | 0 < j < Size(t) :: MarkTree(PreOrder, t, j).status == Visited
  {
  }

  /** In postorder the root keeps its colour until the last stop, where it is ACTIVE. */
  lemma PostorderRootLast(t: Tree)
    requires t.Node?
    ensures MarkTree(PostOrder, t, Size(t) - 1).status == Active
    ensures forall j | 0 <= j < Size(t) - 1 :: MarkTree(PostOrder, t, j).status == t.status
  {
  }

  /** Subtree t at each stop of the walk in order o, in walk order. */
  ghost function Marks(o: Order, t: Tree): (ms: seq<Tree>)
    ensures |ms| == Size(t)
  {
    seq(Size(t), j requires 0 <= j < Size(t) => MarkTree(o, t, j))
  }

  /** Each tree of ms put in as child d of node s. */
  function PutAll(s: Tree, d: Dir, ms: seq<Tree>): (r: seq<Tree>)
    requires s.Node?
    ensures |r| == |ms|
  {
    seq(|ms|, i requires 0 <= i < |ms| => Put(s, d, ms[i]))
  }

  /** The snapshots of the whole tree `root` with the subtree at p standing as each of ms. */
  function Shots(root: Tree, p: Path, ms: seq<Tree>, line: nat): (r: seq<Step>)
    ensures |r| == |ms|
  {
    seq(|ms|, i requires 0 <= i < |ms| => TreeStep([], ReplaceAt(root, p, ms[i]), line))
  }

  lemma ShotsConcat(root: Tree, p: Path, a: seq<Tree>, b: seq<Tree>, line: nat)
    ensures Shots(root, p, a + b, line) == Shots(root, p, a, line) + Shots(root, p, b, line)
  {
  }

  /** Walking into child d of the node at p, once that node stands recoloured as s. */
  lemma ReplaceUnder(root: Tree, p: Path, s: Tree, d: Dir, c: Tree)
    requires ValidPath(root, p) && s.Node?
    ensures ValidPath(ReplaceAt(root, p, s), p + [d]) && At(ReplaceAt(root, p, s), p + [d]) == Child(s, d)
    ensures ReplaceAt(ReplaceAt(root, p, s), p + [d], c) ==
      ReplaceAt(root, p, if d == L then s.(left := c) else s.(right := c))
  {
    var r := ReplaceAt(root, p, s);
    AtReplace(root, p, s);
    AtChild(r, p, d);
    ReplaceChild(r, p, d, c);
    ReplaceTwice(root, p, s, if d == L then s.(left := c) else s.(right := c));
  }

  /** Snapshots taken inside child d of the node at p, recoloured as s, are snapshots of the node. */
  lemma ShotsUnder(root: Tree, p: Path, s: Tree, d: Dir, ms: seq<Tree>, line: nat)
    requires ValidPath(root, p) && s.Node?
    ensures Shots(ReplaceAt(root, p, s), p + [d], ms, line) == Shots(root, p, PutAll(s, d, ms), line)
  {
    forall i | 0 <= i < |ms|
      ensures Shots(ReplaceAt(root, p, s), p + [d], ms, line)[i] == Shots(root, p, PutAll(s, d, ms), line)[i]
    {
      ReplaceUnder(root, p, s, d, ms[i]);
      assert (if d == L then s.(left := ms[i]) else s.(right := ms[i])) == Put(s, d, ms[i]);
    }
  }

  /** `steps` are the visits of a walk over the whole tree t0, one per node. */
  ghost predicate WholeWalk(o: Order, t0: Tree, steps: seq<Step>, line: nat)
  {
    && |steps| == Size(t0)
    && forall j | 0 <= j < |steps| :: steps[j] == TreeStep([], MarkTree(o, t0, j), line)
  }

  /** The walk of the subtree at the root path is the walk of the whole tree. */
  lemma ShotsRoot(o: Order, t0: Tree, line: nat)
    ensures WholeWalk(o, t0, Shots(t0, [], Marks(o, t0), line), line)
  {
  }

  /**
   * Node t as it stands while the walk in order o is inside its child d:
   * everything listed before that child is VISITED, the rest untouched.
   */
  function Resting(o: Order, t: Tree, d: Dir): (s: Tree)
    requires t.Node?
    ensures s.Node? && Child(s, d) == Child(t, d)
  {
    match o
    case PreOrder => if d == L then t.(status := Visited) else t.(status := Visited, left := Paint(t.left, Visited))
    case InOrder => if d == L then t else t.(status := Visited, left := Paint(t.left, Visited))
    case PostOrder => if d == L then t else t.(left := Paint(t.left, Visited))
  }

  /** How many of t's nodes the walk in order o visits before entering child d. */
  function Offset(o: Order, t: Tree, d: Dir): (k: nat)
    requires t.Node?
    ensures k == |ChildBefore(o, t, d)|
  {
    match o
    case PreOrder => if d == L then 1 else 1 + Size(t.left)
    case InOrder => if d == L then 0 else Size(t.left) + 1
    case PostOrder => if d == L then 0 else Size(t.left)
  }

  /** Node s with child d replaced by c. */
  function Put(s: Tree, d: Dir, c: Tree): (r: Tree)
    requires s.Node?
    ensures r.Node? && Child(r, d) == c && ItemOf(r) == ItemOf(s)
  {
    if d == L then s.(left := c) else s.(right := c)
  }

  /** The j-th marking of child d, put into the resting node, is the node's marking Offset + j. */
  lemma ChildMark(o: Order, t: Tree, d: Dir, j: int)
    requires t.Node? && 0 <= j < Size(Child(t, d))
    ensures Offset(o, t, d) + j < Size(t)
    ensures Put(Resting(o, t, d), d, MarkTree(o, Child(t, d), j)) == MarkTree(o, t, Offset(o, t, d) + j)
  {
    var k := Offset(o, t, d) + j;
    var nl := Size(t.left);
    match o
    case PreOrder =>
      if d == R {
        assert k - 1 - nl == j;
      }
    case InOrder =>
      if d == R {
        assert k - 1 - nl == j;
      }
    case PostOrder =>
      if d == R {
        assert k - nl == j;
      }
  }

  lemma OffsetBound(o: Order, t: Tree, d: Dir)
    requires t.Node?
    ensures Offset(o, t, d) + Size(Child(t, d)) <= Size(t)
  {
  }

  /**
   * The walk of child d, seen from the walk of node t: the child's stops, with
   * t resting, are t's stops from Offset on.
   */
  lemma LiftMarks(o: Order, t: Tree, d: Dir)
    requires t.Node?
    ensures Offset(o, t, d) + Size(Child(t, d)) <= Size(t)
    ensures PutAll(Resting(o, t, d), d, Marks(o, Child(t, d))) ==
      Marks(o, t)[Offset(o, t, d)..Offset(o, t, d) + Size(Child(t, d))]
  {
    OffsetBound(o, t, d);
    LiftAll(o, t, d);
    SliceOf(PutAll(Resting(o, t, d), d, Marks(o, Child(t, d))), Marks(o, t), Offset(o, t, d));
  }

  /** Stop by stop, the child's walk with t resting is t's walk from Offset on. */
  lemma LiftAll(o: Order, t: Tree, d: Dir)
    requires t.Node?
    ensures Offset(o, t, d) + Size(Child(t, d)) <= Size(t)
    ensures SameFrom(PutAll(Resting(o, t, d), d, Marks(o, Child(t, d))), Marks(o, t), Offset(o, t, d))
  {
    OffsetBound(o, t, d);
    forall j | 0 <= j < Size(Child(t, d))
      ensures PutAll(Resting(o, t, d), d, Marks(o, Child(t, d)))[j] == Marks(o, t)[Offset(o, t, d) + j]
    {
      LiftMarkAt(o, t, d, j);
    }
  }

  /** a matches b element by element from position k on. */
  ghost predicate SameFrom(a: seq<Tree>, b: seq<Tree>, k: nat)
  {
    k + |a| <= |b| && forall j | 0 <= j < |a| :: a[j] == b[k + j]
  }

  lemma SliceOf(a: seq<Tree>, b: seq<Tree>, k: nat)
    requires SameFrom(a, b, k)
    ensures a == b[k..k + |a|]
  {
  }

  lemma LiftMarkAt(o: Order, t: Tree, d: Dir, j: int)
    requires t.Node? && 0 <= j < Size(Child(t, d))
    ensures Offset(o, t, d) + j < Size(t)
    ensures PutAll(Resting(o, t, d), d, Marks(o, Child(t, d)))[j] == Marks(o, t)[Offset(o, t, d) + j]
  {
    ChildMark(o, t, d, j);
    MarksAt(o, Child(t, d), j);
    MarksAt(o, t, Offset(o, t, d) + j);
    PutAllAt(Resting(o, t, d), d, Marks(o, Child(t, d)), j);
  }

  lemma MarksAt(o: Order, t: Tree, i: int)
    requires 0 <= i < Size(t)
    ensures Marks(o, t)[i] == MarkTree(o, t, i)
  {
  }

  lemma PutAllAt(s: Tree, d: Dir, ms: seq<Tree>, i: int)
    requires s.Node? && 0 <= i < |ms|
    ensures PutAll(s, d, ms)[i] == Put(s, d, ms[i])
  {
  }

  /** A sequence cut into three consecutive pieces. */
  lemma Join3(ms: seq<Tree>, a: seq<Tree>, b: seq<Tree>, c: seq<Tree>)
    requires |a| + |b| + |c| == |ms|
    requires a == ms[..|a|] && b == ms[|a|..|a| + |b|] && c == ms[|a| + |b|..]
    ensures ms == a + b + c
  {
    assert ms == ms[..|a|] + ms[|a|..|a| + |b|] + ms[|a| + |b|..];
  }

  /** Preorder: the node's own stop, then the left walk, then the right walk. */
  lemma PreorderMarks(t: Tree)
    requires t.Node?
    ensures Marks(PreOrder, t) ==
      [t.(status := Active)]
      + PutAll(Resting(PreOrder, t, L), L, Marks(PreOrder, t.left))
      + PutAll(Resting(PreOrder, t, R), R, Marks(PreOrder, t.right))
  {
    var ms := Marks(PreOrder, t);
    LiftMarks(PreOrder, t, L);
    LiftMarks(PreOrder, t, R);
    assert ms[0] == t.(status := Active);
    assert ms[..1] == [t.(status := Active)];
    Join3(ms, [t.(status := Active)], PutAll(Resting(PreOrder, t, L), L, Marks(PreOrder, t.left)),
      PutAll(Resting(PreOrder, t, R), R, Marks(PreOrder, t.right)));
  }

  /** Inorder: the left walk, then the node's own stop, then the right walk. */
  lemma InorderMarks(t: Tree)
    requires t.Node?
    ensures Marks(InOrder, t) ==
      PutAll(t, L, Marks(InOrder, t.left))
      + [t.(left := Paint(t.left, Visited), status := Active)]
      + PutAll(Resting(InOrder, t, R), R, Marks(InOrder, t.right))
  {
    var ms, nl := Marks(InOrder, t), Size(t.left);
    var visit := t.(left := Paint(t.left, Visited), status := Active);
    assert MarkTree(InOrder, t, nl) == visit;
    assert ms[nl] == visit;
    LiftMarks(InOrder, t, L);
    LiftMarks(InOrder, t, R);
    assert ms[nl..nl + 1] == [visit];
    Join3(ms, PutAll(t, L, Marks(InOrder, t.left)), [visit], PutAll(Resting(InOrder, t, R), R, Marks(InOrder, t.right)));
  }

  /** Postorder: the left walk, then the right walk, then the node's own stop. */
  lemma PostorderMarks(t: Tree)
    requires t.Node?
    ensures Marks(PostOrder, t) ==
      PutAll(t, L, Marks(PostOrder, t.left))
      + PutAll(Resting(PostOrder, t, R), R, Marks(PostOrder, t.right))
      + [t.(left := Paint(t.left, Visited), right := Paint(t.right, Visited), status := Active)]
  {
    var ms, n := Marks(PostOrder, t), Size(t.left) + Size(t.right);
    var visit := t.(left := Paint(t.left, Visited), right := Paint(t.right, Visited), status := Active);
    assert MarkTree(PostOrder, t, n) == visit;
    assert ms[n] == visit;
    LiftMarks(PostOrder, t, L);
    LiftMarks(PostOrder, t, R);
    assert ms[n..] == [visit];
    Join3(ms, PutAll(t, L, Marks(PostOrder, t.left)), PutAll(Resting(PostOrder, t, R), R, Marks(PostOrder, t.right)), [visit]);
  }
}
