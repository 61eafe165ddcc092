/**
 * The Binary Search Tree simulator: the values are inserted one at a time
 * into an initially empty tree. Each insertion walks down from the root,
 * showing the node it compares against as COMPARING, narrowing the
 * horizontal window as it goes, and hangs the new node (shown ACTIVE once)
 * in the first empty slot. At the end every node is SORTED.
 *
 * The walking reference `current` is the path `cur` from the root, and an
 * assignment to a field of `current` rebuilds the tree along that path.
 */
module BinarySearchTree {
  import opened Types
  import opened Definitions
  import opened TreePaths
  import opened TreeHelpers
  import opened BstLayout

  /** The code line shown after choosing a side: 20 for left, 22 for right. */
  function SideLine(d: Dir): nat
  {
    if d == L then 20 else 22
  }

  /** The snapshot comparing val with the k-th node of its search path q. */
  ghost function CompareStep(bars: seq<Bar>, root: Tree, q: Path, k: nat): Step
    requires k <= |q|
  {
    TreeStep(bars, SetStatusAt(root, q[..k], Comparing), 19)
  }

  /** The snapshot after moving past the k-th node of q: that node VISITED. */
  ghost function MoveStep(bars: seq<Bar>, root: Tree, q: Path, k: nat): Step
    requires k < |q|
  {
    TreeStep(bars, SetStatusAt(root, q[..k], Visited), SideLine(q[k]))
  }

  /** The first n nodes of the search path q have each been compared against and passed. */
  ghost predicate Descended(bars: seq<Bar>, root: Tree, q: Path, n: nat, steps: seq<Step>)
    requires n <= |q|
  {
    && |steps| == 2 * n
    && forall k | 0 <= k < n :: steps[2 * k] == CompareStep(bars, root, q, k) && steps[2 * k + 1] == MoveStep(bars, root, q, k)
  }

  /**
   * What one `insertValue(val, id)` does, from the uncoloured tree root:
   * the tree becomes `Grow(root, ...)`. Into an empty tree the new root is
   * shown ACTIVE once (code line 16). Otherwise, for each node on the path
   * down to the new node's parent there is a COMPARING snapshot (line 19);
   * each node passed is then shown VISITED, and at the parent the new leaf
   * is shown ACTIVE beside the COMPARING parent (line 20 or 22).
   */
  ghost predicate Inserted(bars: seq<Bar>, root: Tree, val: int, id: nat, root': Tree, steps: seq<Step>)
  {
    && root' == Grow(root, val, id, MinX, MaxX, TreeRootY)
    && (root.Nil? ==> steps == [TreeStep(bars, root'.(status := Active), 16)])
    && (root.Node? ==>
          var q := SearchPath(root, val);
          var n := |q| - 1;
          && |q| > 0 && |steps| == 2 * |q|
          && Descended(bars, root, q, n, steps[..2 * n])
          && steps[2 * n] == CompareStep(bars, root, q, n)
          && steps[2 * n + 1] == TreeStep(bars, ReplaceAt(SetStatusAt(root, q[..n], Comparing), q, Leaf(root, val, id, MinX, MaxX, TreeRootY).(status := Active)), SideLine(q[n])))
  }

  /** `insertValue(val, id)`, with the tree passed in and returned. */
  method InsertValue(bars: seq<Bar>, root: Tree, val: int, id: nat) returns (root': Tree, steps: seq<Step>)
    requires Strip(root) == root
    ensures Inserted(bars, root, val, id, root', steps)
  {
    if root.Nil? {
      root' := Node(id, val, 50.0, TreeRootY, Nil, Nil, Active);
      steps := [TreeStep(bars, CloneTree(root'), 16)];
      root' := root'.(status := Default);
      Plant(bars, val, id, root', steps);
      return;
    }
    ghost var q := SearchPath(root, val);
    root' := root;
    var cur: Path := [];
    var minX, maxX := MinX, MaxX;
    steps := [];
    while true
      invariant |cur| < |q| && cur == q[..|cur|]
      invariant root' == root || (|cur| > 0 && root' == SetStatusAt(root, q[..|cur| - 1], Visited))
      invariant (minX, maxX) == Window(root, cur, MinX, MaxX)
      invariant Descended(bars, root, q, |cur|, steps)
      decreases |q| - |cur|
    {
      ghost var here := At(root, cur);
      var prev := steps;
      var node;
      root', node := Highlight(root, root', cur, val);
      var c := TreeStep(bars, CloneTree(root'), 19);
      steps := steps + [c];
      var d := if val < node.value then L else R;
      WindowSnoc(root, cur, d, MinX, MaxX);
      if d == L {
        maxX := node.x;
      } else {
        minX := node.x;
      }
      if Child(node, d).Nil? {
        // hang the new node in the empty slot; yield; both back to DEFAULT
        var s;
        root', s := Attach(bars, root, root', cur, node, d, minX, maxX, val, id, prev, c);
        steps := prev + [c, s];
        break;
      }
      // current.status = VISITED; current = child; yield
      var m;
      root', m := Advance(bars, root, root', cur, d, val);
      Pass(bars, root, q, |cur|, prev, c, m);
      cur := cur + [d];
      steps := prev + [c, m];
    }
  }

  /** Into an empty tree the new node becomes the root, at the top centre. */
  lemma Plant(bars: seq<Bar>, val: int, id: nat, root': Tree, steps: seq<Step>)
    requires root' == Node(id, val, 50.0, TreeRootY, Nil, Nil, Default)
    requires steps == [TreeStep(bars, root'.(status := Active), 16)]
    ensures Inserted(bars, Nil, val, id, root', steps)
  {
    assert (MinX + MaxX) / 2.0 == 50.0;
  }

  /** `resetTreeStatus(root)` then `current.status = COMPARING`: only the current node is highlighted. */
  method Highlight(ghost root: Tree, root': Tree, cur: Path, ghost val: int) returns (r: Tree, node: Tree)
    requires Strip(root) == root
    requires |cur| < |SearchPath(root, val)| && cur == SearchPath(root, val)[..|cur|]
    requires root' == root || (|cur| > 0 && root' == SetStatusAt(root, SearchPath(root, val)[..|cur| - 1], Visited))
    ensures ValidPath(root, cur) && At(root, cur).Node? && node == At(root, cur).(status := Comparing)
    ensures r == SetStatusAt(root, cur, Comparing) && r == ReplaceAt(root, cur, node)
    ensures var q := SearchPath(root, val);
      && q[|cur|] == (if val < node.value then L else R)
      && (Child(node, q[|cur|]).Nil? <==> |cur| + 1 == |q|)
  {
    ghost var k := |cur|;
    SearchPrefix(root, val, k);
    if root' != root {
      SearchNode(root, val, k - 1);
      ResetVisited(root, SearchPath(root, val)[..k - 1]);
    } else {
      ResetPlain(root);
    }
    r := ResetTreeStatus(root');
    r := SetStatusAt(r, cur, Comparing);
    node := At(r, cur);
    AtReplace(root, cur, At(root, cur).(status := Comparing));
  }

  /** `current.left` (or `right`) becomes the new ACTIVE node; the snapshot; then both back to DEFAULT. */
  method Attach(bars: seq<Bar>, ghost root: Tree, root': Tree, cur: Path, node: Tree, d: Dir, minX: real, maxX: real, val: int, id: nat,
                ghost prev: seq<Step>, ghost c: Step) returns (r: Tree, s: Step)
    requires Strip(root) == root && cur + [d] == SearchPath(root, val)
    requires ValidPath(root, cur) && At(root, cur).Node? && node == At(root, cur).(status := Comparing)
    requires root' == ReplaceAt(root, cur, node) && (minX, maxX) == Window(root, cur + [d], MinX, MaxX)
    requires Descended(bars, root, cur + [d], |cur|, prev) && c == TreeStep(bars, root', 19)
    ensures Inserted(bars, root, val, id, r, prev + [c, s])
  {
    var leaf := Node(id, val, (minX + maxX) / 2.0, node.y + TreeLayerHeight, Nil, Nil, Active);
    r := ReplaceAt(root', cur, if d == L then node.(left := leaf) else node.(right := leaf));
    s := TreeStep(bars, CloneTree(r), SideLine(d));
    var rest := leaf.(status := Default);
    r := ReplaceAt(r, cur, if d == L then node.(left := rest, status := Default) else node.(right := rest, status := Default));
    Hang(bars, root, val, id, cur, d, prev, leaf, r, prev + [c, s]);
  }

  /** `current.status = VISITED; current = child`, and the snapshot that follows. */
  method Advance(bars: seq<Bar>, ghost root: Tree, root': Tree, cur: Path, d: Dir, ghost val: int) returns (r: Tree, m: Step)
    requires ValidPath(root, cur) && At(root, cur).Node?
    requires root' == ReplaceAt(root, cur, At(root, cur).(status := Comparing))
    requires |cur| < |SearchPath(root, val)| && cur == SearchPath(root, val)[..|cur|] && d == SearchPath(root, val)[|cur|]
    ensures r == SetStatusAt(root, cur, Visited)
    ensures m == MoveStep(bars, root, SearchPath(root, val), |cur|)
  {
    AtReplace(root, cur, At(root, cur).(status := Comparing));
    ReplaceTwice(root, cur, At(root, cur).(status := Comparing), At(root, cur).(status := Visited));
    r := SetStatusAt(root', cur, Visited);
    m := TreeStep(bars, CloneTree(r), SideLine(d));
  }

  /** Comparing at and passing the k-th node extends the descent by one node. */
  lemma Pass(bars: seq<Bar>, root: Tree, q: Path, k: nat, prev: seq<Step>, c: Step, m: Step)
    requires k < |q| && Descended(bars, root, q, k, prev)
    requires c == CompareStep(bars, root, q, k) && m == MoveStep(bars, root, q, k)
    ensures Descended(bars, root, q, k + 1, prev + [c, m])
  {
    var steps := prev + [c, m];
    forall j | 0 <= j < k ensures steps[2 * j] == prev[2 * j] && steps[2 * j + 1] == prev[2 * j + 1] {
    }
  }

  /** The last node of the search path: the new leaf hangs there and the tree becomes `Grow`. */
  lemma Hang(bars: seq<Bar>, root: Tree, val: int, id: nat, cur: Path, d: Dir, prev: seq<Step>, leaf: Tree, root': Tree, steps: seq<Step>)
    requires Strip(root) == root && cur + [d] == SearchPath(root, val)
    requires ValidPath(root, cur) && At(root, cur).Node?
    requires var w := Window(root, cur + [d], MinX, MaxX);
      leaf == Node(id, val, (w.0 + w.1) / 2.0, At(root, cur).y + TreeLayerHeight, Nil, Nil, Active)
    requires Descended(bars, root, cur + [d], |cur|, prev)
    requires var node := At(root, cur).(status := Comparing);
      var r2 := ReplaceAt(root, cur, node);
      var hung := if d == L then node.(left := leaf) else node.(right := leaf);
      var rest := leaf.(status := Default);
      && steps == prev + [TreeStep(bars, r2, 19), TreeStep(bars, ReplaceAt(r2, cur, hung), SideLine(d))]
      && root' == ReplaceAt(ReplaceAt(r2, cur, hung), cur, if d == L then node.(left := rest, status := Default) else node.(right := rest, status := Default))
    ensures Inserted(bars, root, val, id, root', steps)
  {
    var q := cur + [d];
    var n := |cur|;
    var here := At(root, cur);
    var node := here.(status := Comparing);
    var r2 := ReplaceAt(root, cur, node);
    var hung := if d == L then node.(left := leaf) else node.(right := leaf);
    var rest := leaf.(status := Default);
    var last := if d == L then node.(left := rest, status := Default) else node.(right := rest, status := Default);
    assert q[..n] == cur && q[n] == d;
    // the new leaf is the one Grow hangs
    SlotYSnoc(root, cur, d, TreeRootY);
    assert Leaf(root, val, id, MinX, MaxX, TreeRootY) == rest;
    // the snapshot at the parent
    AtReplace(root, cur, node);
    ReplaceChild(r2, cur, d, leaf);
    assert SetStatusAt(root, cur, Comparing) == r2;
    // the tree afterwards
    UncolouredAt(root, cur);
    ReplaceTwice(r2, cur, hung, last);
    ReplaceTwice(root, cur, node, last);
    assert last == (if d == L then here.(left := rest) else here.(right := rest));
    ReplaceChild(root, cur, d, rest);
    GrowPlaces(root, val, id, MinX, MaxX, TreeRootY);
    assert steps[..2 * n] == prev;
  }

  /** Every subtree of an uncoloured tree is uncoloured. */
  lemma {:induction false} UncolouredAt(t: Tree, p: Path)
    requires Strip(t) == t
    ensures Strip(At(t, p)) == At(t, p)
    decreases p
  {
    if p != [] && t.Node? {
      UncolouredAt(Child(t, p[0]), p[1..]);
    }
  }

  /** Every proper prefix of the search path ends on a node, and the path turns by comparing val with it. */
  lemma {:induction false} SearchNode(t: Tree, val: int, k: nat)
    requires k < |SearchPath(t, val)|
    ensures var q := SearchPath(t, val);
      && ValidPath(t, q[..k]) && At(t, q[..k]).Node?
      && q[k] == (if val < At(t, q[..k]).value then L else R)
    decreases t
  {
    var q := SearchPath(t, val);
    var c := Child(t, q[0]);
    assert q == [q[0]] + SearchPath(c, val);
    if k > 0 {
      SearchNode(c, val, k - 1);
      var q' := SearchPath(c, val);
      assert q[..k] == [q[0]] + q'[..k - 1] && q[k] == q'[k - 1];
      assert ([q[0]] + q'[..k - 1])[1..] == q'[..k - 1];
    } else {
      assert q[..0] == [];
    }
  }

  /** The insertion stops at the last node of the search path: only there is the chosen child empty. */
  lemma SearchPrefix(t: Tree, val: int, k: nat)
    requires k < |SearchPath(t, val)|
    ensures var q := SearchPath(t, val);
      && ValidPath(t, q[..k]) && At(t, q[..k]).Node?
      && q[k] == (if val < At(t, q[..k]).value then L else R)
      && (Child(At(t, q[..k]), q[k]).Nil? <==> k + 1 == |q|)
  {
    var q := SearchPath(t, val);
    SearchNode(t, val, k);
    AtChild(t, q[..k], q[k]);
    if k + 1 < |q| {
      SearchNode(t, val, k + 1);
      assert q[..k] + [q[k]] == q[..k + 1];
    } else {
      assert q[..k] + [q[k]] == q;
    }
  }

  /** Going one step further down narrows the window on one side, to the node's x. */
  lemma {:induction false} WindowSnoc(t: Tree, p: Path, d: Dir, lo: real, hi: real)
    requires ValidPath(t, p) && At(t, p).Node?
    ensures Window(t, p + [d], lo, hi) ==
      if d == L then (Window(t, p, lo, hi).0, At(t, p).x) else (At(t, p).x, Window(t, p, lo, hi).1)
    decreases p
  {
    if p != [] {
      assert (p + [d])[1..] == p[1..] + [d];
      if p[0] == L {
        WindowSnoc(t.left, p[1..], d, lo, t.x);
      } else {
        WindowSnoc(t.right, p[1..], d, t.x, hi);
      }
    }
  }

  /** The slot under a node is one layer lower than the node. */
  lemma {:induction false} SlotYSnoc(t: Tree, p: Path, d: Dir, y: real)
    requires ValidPath(t, p) && At(t, p).Node?
    ensures SlotY(t, p + [d], y) == At(t, p).y + TreeLayerHeight
    decreases p
  {
    if p != [] {
      assert (p + [d])[1..] == p[1..] + [d];
      SlotYSnoc(Child(t, p[0]), p[1..], d, t.y + TreeLayerHeight);
    }
  }

  /** `resetTreeStatus` leaves an uncoloured tree as it is. */
  lemma {:induction false} ResetPlain(t: Tree)
    requires Strip(t) == t
    ensures ResetTreeStatus(t) == t
  {
    match t
    case Nil =>
    case Node(_, _, _, _, left, right, _) =>
      ResetPlain(left);
      ResetPlain(right);
  }

  /** `resetTreeStatus` clears the one VISITED mark left on an uncoloured tree. */
  lemma {:induction false} ResetVisited(t: Tree, p: Path)
    requires Strip(t) == t && ValidPath(t, p) && At(t, p).Node?
    ensures ResetTreeStatus(SetStatusAt(t, p, Visited)) == t
    decreases p
  {
    if p == [] {
      ResetPlain(t.left);
      ResetPlain(t.right);
    } else {
      var c := Child(t, p[0]);
      ResetVisited(c, p[1..]);
      if p[0] == L {
        ResetPlain(t.right);
      } else {
        ResetPlain(t.left);
      }
    }
  }

  // ----- the whole simulator -----

  /**
   * The block of snapshots for the j-th value: the array with bar j ACTIVE
   * beside the tree built so far (line 28), then that value's insertion.
   */
  ghost predicate Round(input: seq<Bar>, j: nat, block: seq<Step>)
    requires j < |input|
  {
    var values := Values(input);
    && |block| > 0
    && block[0] == Step(input[j := input[j].(status := Active)], Shown(Grown(values[..j])), None, [], [], [], Some(28))
    && Inserted(input, Grown(values[..j]), values[j], j, Grown(values[..j + 1]), block[1..])
  }

  /** steps[ends[j]..ends[j+1]] is the j-th round, for every j < |ends| - 1. */
  ghost predicate Rounds(input: seq<Bar>, steps: seq<Step>, ends: seq<int>)
  {
    && 0 < |ends| <= |input| + 1 && ends[0] == 1 && ends[|ends| - 1] == |steps|
    && (forall j | 0 <= j < |ends| - 1 :: RoundAt(input, steps, ends, j))
  }

  /** Round j lies between ends[j] and ends[j+1]. */
  ghost predicate RoundAt(input: seq<Bar>, steps: seq<Step>, ends: seq<int>, j: nat)
    requires j < |ends| - 1 <= |input|
  {
    0 <= ends[j] <= ends[j + 1] <= |steps| && Round(input, j, steps[ends[j]..ends[j + 1]])
  }

  /**
   * `generateBSTSteps(initialArray)`: an opening snapshot with no tree
   * (line 28), one round per value, and the finished tree all SORTED
   * (line 30). `at[j]` is where round j starts and `at[|input|]` is the
   * final snapshot.
   */
  method GenerateBSTSteps(input: seq<Bar>) returns (steps: seq<Step>, ghost at: seq<int>)
    ensures var n := |input|;
      && |steps| > 1 && steps[0] == Step(input, None, None, [], [], [], Some(28))
      && steps[|steps| - 1] == Step(input, Shown(Paint(Grown(Values(input)), Sorted)), None, [], [], [], Some(30))
      && |at| == n + 1 && at[n] == |steps| - 1
      && Rounds(input, steps[..|steps| - 1], at)
  {
    var values := Values(input);
    steps := [Step(input, None, None, [], [], [], Some(28))];
    at := [1];
    var root: Tree := Nil;
    var i := 0;
    while i < |values|
      invariant 0 <= i <= |values| && root == Grown(values[..i])
      invariant |at| == i + 1 && Rounds(input, steps, at)
      invariant |steps| > 0 && steps[0] == Step(input, None, None, [], [], [], Some(28))
    {
      // highlight the bar being inserted
      var arr := Clone(input);
      SetStatus(arr, i, Active);
      var s := Step(arr[..], if root.Nil? then None else Some(CloneTree(root)), None, [], [], [], Some(28));
      GrownFacts(values[..i]);
      var block;
      root, block := InsertValue(input, root, values[i], i);
      NextRound(input, i, values, root, s, block);
      Extend(input, steps, at, [s] + block);
      at := at + [|steps| + 1 + |block|];
      steps := steps + ([s] + block);
      i := i + 1;
    }
    assert values[..i] == values;
    // resetTreeStatus(root); markSorted(root)
    GrownFacts(values);
    ResetPlain(root);
    root := Paint(ResetTreeStatus(root), Sorted);
    assert steps + [Step(input, Shown(CloneTree(root)), None, [], [], [], Some(30))] == steps + [Step(input, Shown(root), None, [], [], [], Some(30))];
    steps := steps + [Step(input, if root.Nil? then None else Some(CloneTree(root)), None, [], [], [], Some(30))];
    assert steps[..|steps| - 1] == steps[..|steps| - 1];
  }

  /**
   * The finished tree: painted SORTED it is still the tree grown from the
   * values, a BST that reads the input values in sorted order in inorder.
   */
  lemma Finished(values: seq<int>)
    ensures Strip(Paint(Grown(values), Sorted)) == Grown(values)
    ensures Bst(Grown(values)) && Size(Grown(values)) == |values|
    ensures NonDecreasing(InorderValues(Grown(values)))
    ensures multiset(InorderValues(Grown(values))) == multiset(values)
  {
    GrownFacts(values);
    PaintTwice(Grown(values), Sorted, Default);
    GrownContents(values);
    GrownIsBuilt(values);
    BuiltInorderSorted(values);
  }

  /** One pass of the main loop makes the round for value i. */
  lemma NextRound(input: seq<Bar>, i: nat, values: seq<int>, root: Tree, s: Step, block: seq<Step>)
    requires values == Values(input) && i < |input|
    requires s == Step(input[i := input[i].(status := Active)], Shown(Grown(values[..i])), None, [], [], [], Some(28))
    requires Inserted(input, Grown(values[..i]), values[i], i, root, block)
    ensures root == Grown(values[..i + 1]) && Round(input, i, [s] + block)
  {
    assert values[..i + 1][..i] == values[..i];
    assert ([s] + block)[1..] == block;
  }

  /** Appending round j keeps the earlier rounds where they were. */
  lemma Extend(input: seq<Bar>, steps: seq<Step>, ends: seq<int>, block: seq<Step>)
    requires Rounds(input, steps, ends) && |ends| <= |input| && Round(input, |ends| - 1, block)
    ensures Rounds(input, steps + block, ends + [|steps| + |block|])
  {
    var steps' := steps + block;
    var ends' := ends + [|steps| + |block|];
    forall j | 0 <= j < |ends'| - 1
      ensures RoundAt(input, steps', ends', j)
    {
      if j < |ends| - 1 {
        KeepRound(input, steps, ends, block, j);
      } else {
        assert steps'[ends'[j]..ends'[j + 1]] == block;
      }
    }
  }

  /** An earlier round is unaffected by what is appended after it. */
  lemma KeepRound(input: seq<Bar>, steps: seq<Step>, ends: seq<int>, block: seq<Step>, j: nat)
    requires j < |ends| - 1 < |input| && ends[|ends| - 1] == |steps| && RoundAt(input, steps, ends, j)
    ensures RoundAt(input, steps + block, ends + [|steps| + |block|], j)
  {
    var ends' := ends + [|steps| + |block|];
    assert ends'[j] == ends[j] && ends'[j + 1] == ends[j + 1];
    assert (steps + block)[ends[j]..ends[j + 1]] == steps[ends[j]..ends[j + 1]];
  }
}
