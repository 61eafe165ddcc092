/**
 * Level-order traversal: build the BST from the input values, then walk it
 * with a FIFO queue of nodes seeded with the root. Each dequeued node is
 * shown ACTIVE and then coloured VISITED; each existing child, left first,
 * is enqueued and shown COMPARING in a step of its own.
 *
 * Nodes are held by their paths from the root, and `node.status = s` on a
 * queued node is `SetStatusAt` on the whole tree.
 */
module LevelOrder {
  import opened Types
  import opened Definitions
  import opened TreePaths
  import opened TreeHelpers
  import opened LevelOrderSpec

  /**
   * The queue discipline: `done` are the dequeued nodes in order, `queue` the
   * waiting ones. Together they increase in level order; every waiting node
   * other than the root has its parent dequeued; every node not yet dequeued
   * lies below a waiting one; and the nodes below the queue are exactly the
   * ones not yet dequeued.
   */
  ghost predicate QueueOk(t0: Tree, done: seq<Path>, queue: seq<Path>)
  {
    && (forall x | x in done + queue :: IsNode(t0, x))
    && Increasing(done + queue)
    && (done == [] ==> queue == [[]])
    && (done != [] ==> forall x | x in queue :: |x| > 0 && x[..|x| - 1] in done)
    && (forall p | IsNode(t0, p) :: p in done || Covered(queue, p))
    && |done| + Weight(t0, queue) == Size(t0)
  }

  /** The nodes shown COMPARING: the queued ones, once the root has been dequeued. */
  ghost function Waiting(done: seq<Path>, queue: seq<Path>): seq<Path>
  {
    if done == [] then [] else queue
  }

  /** s is the "Enqueuing" step for child c (code line 11 for a left child, 14 for a right one). */
  ghost predicate EnqueueShown(t0: Tree, s: Step, c: Path, visited: seq<Path>)
  {
    && |c| > 0
    && s.treeRoot.Some?
    && s == TreeStep([], s.treeRoot.value, if c[|c| - 1] == L then 11 else 14)
    && IsNode(s.treeRoot.value, c) && StatusOf(s.treeRoot.value, c) == Comparing
    && Shows(t0, s.treeRoot.value, [], visited)
  }

  /**
   * steps[k] is the visit of the i-th dequeued node, ACTIVE with exactly the
   * earlier ones VISITED, followed by one enqueue step per existing child.
   */
  ghost predicate VisitShown(t0: Tree, steps: seq<Step>, k: int, done: seq<Path>, i: int)
    requires 0 <= i < |done|
  {
    var kids := Kids(t0, done[i]);
    && 0 <= k && k + 1 + |kids| <= |steps|
    && steps[k].treeRoot.Some?
    && steps[k] == TreeStep([], steps[k].treeRoot.value, 8)
    && Shows(t0, steps[k].treeRoot.value, [done[i]], done[..i])
    && forall m | 0 <= m < |kids| :: EnqueueShown(t0, steps[k + 1 + m], kids[m], done[..i + 1])
  }

  /** The trace so far: the start step, then one visit block per dequeued node, back to back. */
  ghost predicate TraceOk(t0: Tree, steps: seq<Step>, done: seq<Path>, queue: seq<Path>, at: seq<int>)
  {
    && |steps| == 2 * |done| + |queue|
    && |steps| > 0 && steps[0] == TreeStep([], t0, 4)
    && |at| == |done|
    && (|done| > 0 ==> at[0] == 1 && at[|done| - 1] + 1 + |Kids(t0, done[|done| - 1])| == |steps|)
    && (forall i | 0 <= i < |done| - 1 :: at[i + 1] == at[i] + 1 + |Kids(t0, done[i])|)
    && (forall i | 0 <= i < |done| :: VisitShown(t0, steps, at[i], done, i))
  }

  /** The loop invariant of `generateLevelOrderSteps`. */
  ghost predicate Walking(t0: Tree, root: Tree, queue: seq<Path>, steps: seq<Step>, done: seq<Path>, at: seq<int>)
  {
    && Strip(t0) == t0
    && QueueOk(t0, done, queue)
    && Colours(t0, root, [], done, Waiting(done, queue))
    && TraceOk(t0, steps, done, queue, at)
  }

  /**
   * The trace of a level-order walk of t0 with n nodes: the tree, then (when
   * n > 0) one visit step per node in level order, each followed by one
   * enqueue step per child, then the all-VISITED tree. `order` is the order
   * of the visits and `at` their positions in the trace.
   */
  ghost predicate LevelTrace(t0: Tree, steps: seq<Step>, order: seq<Path>, at: seq<int>)
  {
    var n := Size(t0);
    && |steps| > 0 && steps[0] == TreeStep([], t0, 4)
    && (n == 0 ==> |steps| == 1)
    && (n > 0 ==> |steps| == 2 * n + 1 && steps[2 * n] == TreeStep([], Paint(t0, Visited), 16))
    && |order| == n && Increasing(order)
    && (forall x | x in order :: IsNode(t0, x))
    && (forall p | IsNode(t0, p) :: p in order)
    && |at| == n
    && (n > 0 ==> at[0] == 1)
    && (forall i | 0 <= i < n - 1 :: at[i + 1] == at[i] + 1 + |Kids(t0, order[i])|)
    && (forall i | 0 <= i < n :: VisitShown(t0, steps, at[i], order, i))
  }

  /**
   * `generateLevelOrderSteps`: the tree built from the input values, then,
   * for a non-empty tree, one visit step per node in level order, each
   * followed by one enqueue step per child, then the all-VISITED tree.
   * `order` is the order of the visits and `at` their positions in the trace.
   */
  method GenerateLevelOrderSteps(input: seq<Bar>) returns (steps: seq<Step>, ghost order: seq<Path>, ghost at: seq<int>)
    ensures |order| == |input| && LevelTrace(Built(Values(input)), steps, order, at)
  {
    var values := Values(input);
    var root := BuildBSTFromArray(values);
    ghost var t0 := root;
    steps := [TreeStep([], CloneTree(root), 4)];
    order, at := [], [];
    if root.Nil? {
      assert Size(t0) == 0;
      return;
    }
    var queue: seq<Path> := [[]];
    BuiltUncoloured(values);
    Start(t0, steps);
    while |queue| > 0
      invariant Walking(t0, root, queue, steps, order, at)
      decreases Weight(t0, queue)
    {
      root, queue, steps, order, at := Turn(t0, root, queue, steps, order, at);
    }
    steps := steps + [TreeStep([], CloneTree(root), 16)];
    Finish(t0, root, steps, order, at);
  }

  lemma Start(t0: Tree, steps: seq<Step>)
    requires t0.Node? && Strip(t0) == t0 && steps == [TreeStep([], t0, 4)]
    ensures Walking(t0, t0, [[]], steps, [], [])
  {
    forall p | IsNode(t0, p) ensures StatusOf(t0, p) == Default && Covered([[]], p) {
      UncolouredDefault(t0, p);
      var e: Path := [];
      assert e in [e] && e <= p;
    }
    assert Weight(t0, [[]]) == Size(t0) by {
      var e: Path := [];
      assert [e][1..] == [];
    }
  }

  /** Every node of an uncoloured tree is DEFAULT. */
  lemma {:induction false} UncolouredDefault(t: Tree, p: Path)
    requires Strip(t) == t && IsNode(t, p)
    ensures StatusOf(t, p) == Default
    decreases p
  {
    if p != [] {
      UncolouredDefault(Child(t, p[0]), p[1..]);
    }
  }

  /** Once the queue is empty every node has been visited once, in level order. */
  lemma Finish(t0: Tree, root: Tree, steps: seq<Step>, order: seq<Path>, at: seq<int>)
    requires |steps| > 0 && Walking(t0, root, [], steps[..|steps| - 1], order, at)
    requires steps[|steps| - 1] == TreeStep([], root, 16)
    ensures |order| == Size(t0) && |steps| == 2 * Size(t0) + 1
    ensures steps[0] == TreeStep([], t0, 4) && root == Paint(t0, Visited)
    ensures forall p | IsNode(t0, p) :: p in order
    ensures Increasing(order) && forall x | x in order :: IsNode(t0, x)
    ensures forall i | 0 <= i < |order| :: VisitShown(t0, steps, at[i], order, i)
    ensures LevelTrace(t0, steps, order, at)
  {
    var prev := steps[..|steps| - 1];
    assert order + [] == order;
    forall p | IsNode(t0, p) ensures p in order {
      assert !Covered([], p);
    }
    forall p | IsNode(t0, p) ensures IsNode(root, p) && StatusOf(root, p) == Visited {
    }
    AllVisited(t0, root);
    forall i | 0 <= i < |order| ensures VisitShown(t0, steps, at[i], order, i) {
      ShownExtend(t0, prev, steps, at[i], order, order, i);
    }
  }

  /** A visit block stays what it was when the trace and the order grow at the end. */
  lemma ShownExtend(t0: Tree, steps: seq<Step>, steps': seq<Step>, k: int, done: seq<Path>, done': seq<Path>, i: int)
    requires 0 <= i < |done| && done <= done' && steps <= steps'
    requires VisitShown(t0, steps, k, done, i)
    ensures VisitShown(t0, steps', k, done', i)
  {
    assert done'[..i] == done[..i] && done'[..i + 1] == done[..i + 1];
    assert steps'[..|steps|] == steps;
  }

  /** One turn of the `while` loop keeps the invariant and leaves less work. */
  method Turn(ghost t0: Tree, root: Tree, queue: seq<Path>, steps: seq<Step>, ghost done: seq<Path>, ghost at: seq<int>)
    returns (root': Tree, queue': seq<Path>, steps': seq<Step>, ghost done': seq<Path>, ghost at': seq<int>)
    requires Walking(t0, root, queue, steps, done, at) && |queue| > 0
    ensures Walking(t0, root', queue', steps', done', at')
    ensures Weight(t0, queue') < Weight(t0, queue)
  {
    QueueStep(t0, done, queue);
    root', queue', steps' := VisitNext(t0, root, queue, steps, done);
    TraceStep(t0, steps, steps', done, queue, at);
    done', at' := done + [queue[0]], at + [|steps|];
  }

  /**
   * One turn of the `while` loop: dequeue a node, show it ACTIVE, colour it
   * VISITED, then enqueue its existing children, left first, each shown
   * COMPARING. `done` are the nodes dequeued before.
   */
  method VisitNext(ghost t0: Tree, root: Tree, queue: seq<Path>, steps: seq<Step>, ghost done: seq<Path>)
    returns (root': Tree, queue': seq<Path>, steps': seq<Step>)
    requires |queue| > 0 && IsNode(t0, queue[0]) && queue[0] !in done
    requires forall c | c in Kids(t0, queue[0]) :: c !in done + [queue[0]]
    requires done == [] ==> queue == [[]]
    requires Colours(t0, root, [], done, Waiting(done, queue))
    ensures queue' == queue[1..] + Kids(t0, queue[0])
    ensures Colours(t0, root', [], done + [queue[0]], queue')
    ensures steps <= steps' && |steps'| == |steps| + 1 + |Kids(t0, queue[0])|
    ensures VisitShown(t0, steps', |steps|, done + [queue[0]], |done|)
  {
    var q := queue[0];
    queue' := queue[1..];
    ghost var rest := queue';
    ghost var done' := done + [q];
    assert queue == [q] + rest;
    var visit;
    root', visit := Visit(t0, root, q, done, Waiting(done, queue), rest);
    steps' := steps + [visit];
    var kids, enq;
    root', kids, enq := EnqueueKids(t0, root', q, done', rest);
    queue' := queue' + kids;
    steps' := steps' + enq;
    NewBlock(t0, steps, visit, enq, done, q);
  }

  /**
   * The two `if` statements of the loop body: enqueue node q's left child,
   * then its right child, each coloured COMPARING in a snapshot of its own.
   */
  method EnqueueKids(ghost t0: Tree, root: Tree, q: Path, ghost visited: seq<Path>, ghost waiting: seq<Path>)
    returns (root': Tree, kids: seq<Path>, enq: seq<Step>)
    requires IsNode(t0, q) && forall c | c in Kids(t0, q) :: c !in visited
    requires Colours(t0, root, [], visited, waiting)
    ensures kids == Kids(t0, q) && |enq| == |kids|
    ensures Colours(t0, root', [], visited, waiting + kids)
    ensures forall m | 0 <= m < |enq| :: EnqueueShown(t0, enq[m], kids[m], visited)
  {
    var node := At(root, q);
    ChildSlots(t0, root, q);
    root', kids, enq := root, [], [];
    if node.left.Node? {
      var c := q + [L];
      assert c in Kids(t0, q);
      var s;
      root', s := Enqueue(t0, root', c, visited, waiting, 11);
      kids, enq := [c], [s];
    }
    if node.right.Node? {
      var c := q + [R];
      assert c in Kids(t0, q);
      var s;
      assert waiting + kids + [c] == waiting + (kids + [c]);
      root', s := Enqueue(t0, root', c, visited, waiting + kids, 14);
      kids, enq := kids + [c], enq + [s];
    }
  }

  /** Dequeued node q: colour it ACTIVE, yield the snapshot (code line 8), then colour it VISITED. */
  method Visit(ghost t0: Tree, root: Tree, q: Path, ghost visited: seq<Path>, ghost waiting: seq<Path>, ghost rest: seq<Path>)
    returns (root': Tree, visit: Step)
    requires IsNode(t0, q) && q !in visited
    requires forall p | p != q :: p in waiting <==> p in rest
    requires Colours(t0, root, [], visited, waiting)
    ensures Colours(t0, root', [], visited + [q], rest)
    ensures visit.treeRoot.Some? && visit == TreeStep([], visit.treeRoot.value, 8)
    ensures Shows(t0, visit.treeRoot.value, [q], visited)
  {
    ColoursSet(t0, root, q, Active, [], visited, waiting, [q], visited, rest);
    root' := SetStatusAt(root, q, Active);
    ColoursShow(t0, root', [q], visited, rest);
    visit := TreeStep([], CloneTree(root'), 8);
    ColoursSet(t0, root', q, Visited, [q], visited, rest, [], visited + [q], rest);
    root' := SetStatusAt(root', q, Visited);
  }

  /** Enqueuing child c: colour it COMPARING and yield the snapshot (code line 11 or 14). */
  method Enqueue(ghost t0: Tree, root: Tree, c: Path, ghost visited: seq<Path>, ghost waiting: seq<Path>, line: nat)
    returns (root': Tree, s: Step)
    requires IsNode(t0, c) && c !in visited && |c| > 0 && line == (if c[|c| - 1] == L then 11 else 14)
    requires Colours(t0, root, [], visited, waiting)
    ensures Colours(t0, root', [], visited, waiting + [c])
    ensures s == TreeStep([], root', line)
    ensures EnqueueShown(t0, s, c, visited)
  {
    ColoursSet(t0, root, c, Comparing, [], visited, waiting, [], visited, waiting + [c]);
    root' := SetStatusAt(root, c, Comparing);
    ColoursShow(t0, root', [], visited, waiting + [c]);
    s := TreeStep([], CloneTree(root'), line);
  }

  /** Whether node q has a left or right child can be read off any tree of t0's shape. */
  lemma ChildSlots(t0: Tree, r: Tree, q: Path)
    requires Strip(r) == Strip(t0) && IsNode(t0, q)
    ensures IsNode(r, q)
    ensures At(r, q).left.Node? <==> IsNode(t0, q + [L])
    ensures At(r, q).right.Node? <==> IsNode(t0, q + [R])
  {
    ShapeNode(r, t0, q);
    AtChild(r, q, L);
    AtChild(r, q, R);
    if IsNode(t0, q + [L]) {
      ShapeNode(r, t0, q + [L]);
    }
    if IsNode(r, q + [L]) {
      ShapeNode(t0, r, q + [L]);
    }
    if IsNode(t0, q + [R]) {
      ShapeNode(r, t0, q + [R]);
    }
    if IsNode(r, q + [R]) {
      ShapeNode(t0, r, q + [R]);
    }
  }

  /**
   * Dequeuing the head q and enqueuing its children keeps the queue
   * discipline, and the children are new.
   */
  lemma QueueStep(t0: Tree, done: seq<Path>, queue: seq<Path>)
    requires QueueOk(t0, done, queue) && |queue| > 0
    ensures var q := queue[0];
      && q !in done
      && (forall c | c in Kids(t0, q) :: c !in done + [q])
      && QueueOk(t0, done + [q], queue[1..] + Kids(t0, q))
      && Weight(t0, queue[1..] + Kids(t0, q)) < Weight(t0, queue)
  {
    var q, rest := queue[0], queue[1..];
    var kids := Kids(t0, q);
    assert done + queue == done + ([q] + rest);
    IncreasingDisjoint(done, [q] + rest);
    assert q in [q] + rest;
    OrderStep(t0, done, queue);
    assert done + [q] + (rest + kids) == (done + [q]) + (rest + kids);
    IncreasingDisjoint(done + [q], rest + kids);
    assert forall c | c in kids :: c in rest + kids;
    WeightStep(t0, done, queue);
    CoverAll(t0, done, queue);
    ParentStep(t0, done, queue);
  }

  lemma WeightStep(t0: Tree, done: seq<Path>, queue: seq<Path>)
    requires QueueOk(t0, done, queue) && |queue| > 0
    ensures |done| + 1 + Weight(t0, queue[1..] + Kids(t0, queue[0])) == Size(t0)
  {
    var q := queue[0];
    assert IsNode(t0, q);
    KidsWeight(t0, q);
    WeightConcat(t0, queue[1..], Kids(t0, q));
  }

  lemma CoverAll(t0: Tree, done: seq<Path>, queue: seq<Path>)
    requires QueueOk(t0, done, queue) && |queue| > 0
    ensures forall p | IsNode(t0, p) :: p in done + [queue[0]] || Covered(queue[1..] + Kids(t0, queue[0]), p)
  {
    forall p | IsNode(t0, p) ensures p in done + [queue[0]] || Covered(queue[1..] + Kids(t0, queue[0]), p) {
      CoverStep(t0, done, queue, p);
    }
  }

  lemma CoverStep(t0: Tree, done: seq<Path>, queue: seq<Path>, p: Path)
    requires QueueOk(t0, done, queue) && |queue| > 0 && IsNode(t0, p)
    ensures p in done + [queue[0]] || Covered(queue[1..] + Kids(t0, queue[0]), p)
  {
    var q, rest := queue[0], queue[1..];
    if p !in done {
      var x :| x in queue && x <= p;
      if x != q {
        assert x in rest + Kids(t0, q);
      } else if p != q {
        var c := q + [p[|q|]];
        assert c <= p;
        PrefixNode(t0, c, p);
        if p[|q|] == L {
          assert c == q + [L];
        } else {
          assert c == q + [R];
        }
        assert c in Kids(t0, q);
        assert c in rest + Kids(t0, q);
      }
    }
  }

  lemma ParentStep(t0: Tree, done: seq<Path>, queue: seq<Path>)
    requires QueueOk(t0, done, queue) && |queue| > 0
    ensures forall x | x in queue[1..] + Kids(t0, queue[0]) :: |x| > 0 && x[..|x| - 1] in done + [queue[0]]
  {
    var q := queue[0];
    forall x | x in queue[1..] + Kids(t0, q) ensures |x| > 0 && x[..|x| - 1] in done + [q] {
      if x in Kids(t0, q) {
        assert x == q + [L] || x == q + [R];
        assert x[..|x| - 1] == q;
      } else {
        assert x in queue;
      }
    }
  }

  /** The children of the head follow everything already queued, in level order. */
  lemma OrderStep(t0: Tree, done: seq<Path>, queue: seq<Path>)
    requires QueueOk(t0, done, queue) && |queue| > 0
    ensures Increasing(done + [queue[0]] + (queue[1..] + Kids(t0, queue[0])))
    ensures forall x | x in done + [queue[0]] + (queue[1..] + Kids(t0, queue[0])) :: IsNode(t0, x)
  {
    var q, rest := queue[0], queue[1..];
    assert done + [q] + (rest + Kids(t0, q)) == (done + queue) + Kids(t0, q);
    KidsIncreasing(t0, done, queue);
  }

  /** Appending the head's children to the queued paths keeps them increasing and all nodes. */
  lemma KidsIncreasing(t0: Tree, done: seq<Path>, queue: seq<Path>)
    requires QueueOk(t0, done, queue) && |queue| > 0
    ensures Increasing((done + queue) + Kids(t0, queue[0]))
    ensures forall x | x in (done + queue) + Kids(t0, queue[0]) :: IsNode(t0, x)
  {
    var q := queue[0];
    var s := done + queue;
    var hasL, hasR := IsNode(t0, q + [L]), IsNode(t0, q + [R]);
    var s1 := if hasL then s + [q + [L]] else s;
    if hasL {
      FollowsLast(t0, done, queue, L);
      IncreasingSnoc(s, q + [L]);
    }
    if hasR {
      if hasL {
        LexSiblings(q);
      } else {
        FollowsLast(t0, done, queue, R);
      }
      IncreasingSnoc(s1, q + [R]);
    }
    var s2 := if hasR then s1 + [q + [R]] else s1;
    assert s + Kids(t0, q) == s2;
  }

  /** A child of the head comes after the last queued node in level order. */
  lemma FollowsLast(t0: Tree, done: seq<Path>, queue: seq<Path>, d: Dir)
    requires QueueOk(t0, done, queue) && |queue| > 0
    ensures LevelLess((done + queue)[|done + queue| - 1], queue[0] + [d])
  {
    var q := queue[0];
    var s := done + queue;
    var x := s[|s| - 1];
    if |queue| > 1 {
      assert done != [];
      assert x in queue;
      var par := x[..|x| - 1];
      assert par in done;
      var k :| 0 <= k < |done| && done[k] == par;
      assert s[k] == par && s[|done|] == q;
      assert LevelLess(par, q);
      LevelChildren(par, q, x[|x| - 1], d);
      assert par + [x[|x| - 1]] == x;
    } else {
      assert x == q;
    }
  }

  /** The trace grows by the visit step and the enqueue steps of the dequeued node. */
  lemma TraceStep(t0: Tree, steps: seq<Step>, steps': seq<Step>, done: seq<Path>, queue: seq<Path>, at: seq<int>)
    requires TraceOk(t0, steps, done, queue, at) && |queue| > 0 && (done == [] ==> |queue| == 1)
    requires steps <= steps' && |steps'| == |steps| + 1 + |Kids(t0, queue[0])|
    requires VisitShown(t0, steps', |steps|, done + [queue[0]], |done|)
    ensures TraceOk(t0, steps', done + [queue[0]], queue[1..] + Kids(t0, queue[0]), at + [|steps|])
  {
    var q := queue[0];
    var done', at' := done + [q], at + [|steps|];
    OldBlocks(t0, steps, steps', done, done', at);
    AtStep(t0, steps, done, at, q);
    assert steps'[0] == steps[0];
  }

  lemma AtStep(t0: Tree, steps: seq<Step>, done: seq<Path>, at: seq<int>, q: Path)
    requires |at| == |done|
    requires |done| > 0 ==> at[|done| - 1] + 1 + |Kids(t0, done[|done| - 1])| == |steps|
    requires forall i | 0 <= i < |done| - 1 :: at[i + 1] == at[i] + 1 + |Kids(t0, done[i])|
    ensures forall i | 0 <= i < |done| :: (at + [|steps|])[i + 1] == (at + [|steps|])[i] + 1 + |Kids(t0, (done + [q])[i])|
  {
    forall i | 0 <= i < |done| ensures (at + [|steps|])[i + 1] == (at + [|steps|])[i] + 1 + |Kids(t0, (done + [q])[i])| {
      assert (done + [q])[i] == done[i];
    }
  }

  lemma OldBlocks(t0: Tree, steps: seq<Step>, steps': seq<Step>, done: seq<Path>, done': seq<Path>, at: seq<int>)
    requires |at| == |done| && done <= done' && steps <= steps'
    requires forall i | 0 <= i < |done| :: VisitShown(t0, steps, at[i], done, i)
    ensures forall i | 0 <= i < |done| :: VisitShown(t0, steps', at[i], done', i)
  {
    forall i | 0 <= i < |done| ensures VisitShown(t0, steps', at[i], done', i) {
      ShownExtend(t0, steps, steps', at[i], done, done', i);
    }
  }

  lemma NewBlock(t0: Tree, steps: seq<Step>, visit: Step, enq: seq<Step>, done: seq<Path>, q: Path)
    requires |enq| == |Kids(t0, q)|
    requires visit.treeRoot.Some? && visit == TreeStep([], visit.treeRoot.value, 8)
    requires Shows(t0, visit.treeRoot.value, [q], done)
    requires forall m | 0 <= m < |enq| :: EnqueueShown(t0, enq[m], Kids(t0, q)[m], done + [q])
    ensures VisitShown(t0, steps + [visit] + enq, |steps|, done + [q], |done|)
  {
    var done', steps' := done + [q], steps + [visit] + enq;
    assert done'[..|done|] == done && done'[..|done| + 1] == done' && done'[|done|] == q;
    assert steps'[|steps|] == visit;
    forall m | 0 <= m < |enq| ensures steps'[|steps| + 1 + m] == enq[m] {
    }
  }
}
