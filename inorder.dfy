/**
 * Inorder traversal: build the BST from the input values, then walk it
 * left subtree, node, right subtree, colouring each node ACTIVE for one
 * snapshot and VISITED afterwards. On a BST the nodes come in ascending
 * order of value.
 */
module Inorder {
  import opened Types
  import opened Definitions
  import opened TreePaths
  import opened TreeHelpers
  import opened TraversalSpec

  /**
   * `traverse(node, root)`, with the node given by its path p in the whole
   * tree `root`; `root'` is the whole tree afterwards. The snapshots are the
   * walk's stops in inorder, and the subtree ends up all VISITED.
   */
  method Traverse(root: Tree, p: Path) returns (root': Tree, steps: seq<Step>)
    requires ValidPath(root, p)
    ensures root' == ReplaceAt(root, p, Paint(At(root, p), Visited))
    ensures steps == Shots(root, p, Marks(InOrder, At(root, p)), 9)
    decreases Size(At(root, p))
  {
    var node := At(root, p);
    if node.Nil? {
      ReplaceSame(root, p);
      return root, [];
    }
    var left, right;
    AtChild(root, p, L);
    root', left := Traverse(root, p + [L]);
    var s1 := node.(left := Paint(node.left, Visited));
    ReplaceChild(root, p, L, Paint(node.left, Visited));
    // node.status = ACTIVE; yield a snapshot
    AtReplace(root, p, s1);
    ReplaceTwice(root, p, s1, s1.(status := Active));
    root' := SetStatusAt(root', p, Active);
    var visit := TreeStep([], CloneTree(root'), 9);
    // node.status = VISITED
    var s2 := Resting(InOrder, node, R);
    AtReplace(root, p, s1.(status := Active));
    ReplaceTwice(root, p, s1.(status := Active), s2);
    root' := SetStatusAt(root', p, Visited);
    ReplaceUnder(root, p, s2, R, Paint(node.right, Visited));
    root', right := Traverse(root', p + [R]);
    steps := left + [visit] + right;
    WalkSteps(root, p, left, visit, right);
  }

  /** The walk of the left subtree, the visit of the node, then the walk of the right subtree. */
  lemma WalkSteps(root: Tree, p: Path, left: seq<Step>, visit: Step, right: seq<Step>)
    requires ValidPath(root, p) && At(root, p).Node?
    requires left == Shots(root, p + [L], Marks(InOrder, At(root, p + [L])), 9)
    requires visit == TreeStep([], ReplaceAt(root, p, At(root, p).(left := Paint(At(root, p).left, Visited), status := Active)), 9)
    requires var r := ReplaceAt(root, p, Resting(InOrder, At(root, p), R));
      right == Shots(r, p + [R], Marks(InOrder, At(r, p + [R])), 9)
    ensures left + [visit] + right == Shots(root, p, Marks(InOrder, At(root, p)), 9)
  {
    var t := At(root, p);
    var s2 := Resting(InOrder, t, R);
    var here := t.(left := Paint(t.left, Visited), status := Active);
    ReplaceSame(root, p);
    ReplaceUnder(root, p, t, L, t.left);
    ReplaceUnder(root, p, s2, R, t.right);
    ShotsUnder(root, p, t, L, Marks(InOrder, t.left), 9);
    ShotsUnder(root, p, s2, R, Marks(InOrder, t.right), 9);
    InorderMarks(t);
    ShotsConcat(root, p, PutAll(t, L, Marks(InOrder, t.left)), [here], 9);
    ShotsConcat(root, p, PutAll(t, L, Marks(InOrder, t.left)) + [here], PutAll(s2, R, Marks(InOrder, t.right)), 9);
  }

  /**
   * `generateInorderSteps`: the tree built from the input values, then one
   * snapshot per node in inorder, then the all-VISITED tree.
   */
  method GenerateInorderSteps(input: seq<Bar>) returns (steps: seq<Step>)
    ensures var t0 := Built(Values(input));
      && |steps| == |input| + 2
      && steps[0] == TreeStep([], t0, 1)
      && WholeWalk(InOrder, t0, steps[1..|input| + 1], 9)
      && steps[|input| + 1] == TreeStep([], Paint(t0, Visited), 13)
  {
    var values := Values(input);
    var root := BuildBSTFromArray(values);
    ghost var t0 := root;
    steps := [TreeStep([], CloneTree(root), 1)];
    var visits;
    root, visits := Traverse(root, []);
    ShotsRoot(InOrder, t0, 9);
    steps := steps + visits + [TreeStep([], CloneTree(root), 13)];
    assert steps[1..|input| + 1] == visits;
  }

  /**
   * On the tree `buildBSTFromArray` builds, the visited values come in
   * ascending order: the node ACTIVE at stop i of the walk holds a value no
   * larger than the node ACTIVE at any later stop j.
   */
  lemma VisitsAscending(values: seq<int>, i: int, j: int)
    requires 0 <= i <= j < |values|
    ensures var t0 := Built(values);
      && Flatten(InOrder, MarkTree(InOrder, t0, i))[i].status == Active
      && Flatten(InOrder, MarkTree(InOrder, t0, j))[j].status == Active
      && Flatten(InOrder, MarkTree(InOrder, t0, i))[i].value <= Flatten(InOrder, MarkTree(InOrder, t0, j))[j].value
  {
    var t0 := Built(values);
    BuiltUncoloured(values);
    BuiltInorderSorted(values);
    WalkColours(InOrder, t0, i, i);
    WalkColours(InOrder, t0, j, j);
    assert InorderValues(t0)[i] == Flatten(InOrder, t0)[i].value;
    assert InorderValues(t0)[j] == Flatten(InOrder, t0)[j].value;
    if i < j {
      assert NonDecreasingOn(InorderValues(t0), 0, |values|);
    }
  }
}
