/**
 * Preorder traversal: build the BST from the input values, then walk it
 * node, left subtree, right subtree, colouring each node ACTIVE for one
 * snapshot and VISITED afterwards.
 */
module Preorder {
  import opened Types
  import opened Definitions
  import opened TreePaths
  import opened TreeHelpers
  import opened TraversalSpec

  /**
   * `traverse(node, array, root)`, with the node given by its path p in the
   * whole tree `root`; `root'` is the whole tree afterwards. The snapshots are
   * the walk's visits in preorder, and the subtree ends up all VISITED.
   */
  method Traverse(root: Tree, p: Path) returns (root': Tree, steps: seq<Step>)
    requires ValidPath(root, p)
    ensures root' == ReplaceAt(root, p, Paint(At(root, p), Visited))
    ensures steps == Shots(root, p, Marks(PreOrder, At(root, p)), 6)
    decreases Size(At(root, p))
  {
    var node := At(root, p);
    if node.Nil? {
      ReplaceSame(root, p);
      return root, [];
    }
    // node.status = ACTIVE; yield a snapshot
    root' := SetStatusAt(root, p, Active);
    var visit := TreeStep([], CloneTree(root'), 6);
    // node.status = VISITED
    root' := SetStatusAt(root', p, Visited);
    var s1 := Resting(PreOrder, node, L);
    AtReplace(root, p, node.(status := Active));
    ReplaceTwice(root, p, node.(status := Active), s1);
    ReplaceUnder(root, p, s1, L, Paint(node.left, Visited));
    var left, right;
    root', left := Traverse(root', p + [L]);
    var s2 := Resting(PreOrder, node, R);
    ReplaceUnder(root, p, s2, R, Paint(node.right, Visited));
    root', right := Traverse(root', p + [R]);
    steps := [visit] + left + right;
    WalkSteps(root, p, visit, left, right);
  }

  /** The visit of the node, then the walks of its subtrees, make up the walk of the node. */
  lemma WalkSteps(root: Tree, p: Path, visit: Step, left: seq<Step>, right: seq<Step>)
    requires ValidPath(root, p) && At(root, p).Node?
    requires visit == TreeStep([], ReplaceAt(root, p, At(root, p).(status := Active)), 6)
    requires var r := ReplaceAt(root, p, Resting(PreOrder, At(root, p), L));
      left == Shots(r, p + [L], Marks(PreOrder, At(r, p + [L])), 6)
    requires var r := ReplaceAt(root, p, Resting(PreOrder, At(root, p), R));
      right == Shots(r, p + [R], Marks(PreOrder, At(r, p + [R])), 6)
    ensures [visit] + left + right == Shots(root, p, Marks(PreOrder, At(root, p)), 6)
  {
    var t := At(root, p);
    var s1, s2 := Resting(PreOrder, t, L), Resting(PreOrder, t, R);
    ReplaceUnder(root, p, s1, L, t.left);
    ReplaceUnder(root, p, s2, R, t.right);
    ShotsUnder(root, p, s1, L, Marks(PreOrder, t.left), 6);
    ShotsUnder(root, p, s2, R, Marks(PreOrder, t.right), 6);
    PreorderMarks(t);
    ShotsConcat(root, p, [t.(status := Active)], PutAll(s1, L, Marks(PreOrder, t.left)), 6);
    ShotsConcat(root, p, [t.(status := Active)] + PutAll(s1, L, Marks(PreOrder, t.left)), PutAll(s2, R, Marks(PreOrder, t.right)), 6);
  }

  /**
   * `generatePreorderSteps`: the tree built from the input values, then one
   * snapshot per node in preorder, then the all-VISITED tree.
   */
  method GeneratePreorderSteps(input: seq<Bar>) returns (steps: seq<Step>)
    ensures var t0 := Built(Values(input));
      && |steps| == |input| + 2
      && steps[0] == TreeStep([], t0, 1)
      && WholeWalk(PreOrder, t0, steps[1..|input| + 1], 6)
      && steps[|input| + 1] == TreeStep([], Paint(t0, Visited), 13)
  {
    var values := Values(input);
    var root := BuildBSTFromArray(values);
    ghost var t0 := root;
    steps := [TreeStep([], CloneTree(root), 1)];
    var visits;
    root, visits := Traverse(root, []);
    ShotsRoot(PreOrder, t0, 6);
    steps := steps + visits + [TreeStep([], CloneTree(root), 13)];
    assert steps[1..|input| + 1] == visits;
  }
}
