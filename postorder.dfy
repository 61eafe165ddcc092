/**
 * Postorder traversal: build the BST from the input values, then walk it
 * left subtree, right subtree, node, colouring each node ACTIVE for one
 * snapshot and VISITED afterwards. The root is the last node visited.
 */
module Postorder {
  import opened Types
  import opened Definitions
  import opened TreePaths
  import opened TreeHelpers
  import opened TraversalSpec

  /**
   * `traverse(node, root)`, with the node given by its path p in the whole
   * tree `root`; `root'` is the whole tree afterwards. The snapshots are the
   * walk's stops in postorder, and the subtree ends up all VISITED.
   */
  method Traverse(root: Tree, p: Path) returns (root': Tree, steps: seq<Step>)
    requires ValidPath(root, p)
    ensures root' == ReplaceAt(root, p, Paint(At(root, p), Visited))
    ensures steps == Shots(root, p, Marks(PostOrder, At(root, p)), 12)
    decreases Size(At(root, p))
  {
    var node := At(root, p);
    if node.Nil? {
      ReplaceSame(root, p);
      return root, [];
    }
    var left, right;
    AtChild(root, p, L);
    root', left := Traverse(root, p + [L]);
    var s2 := Resting(PostOrder, node, R);
    ReplaceChild(root, p, L, Paint(node.left, Visited));
    ReplaceUnder(root, p, s2, R, Paint(node.right, Visited));
    root', right := Traverse(root', p + [R]);
    // node.status = ACTIVE; yield a snapshot
    var s3 := s2.(right := Paint(node.right, Visited));
    AtReplace(root, p, s3);
    ReplaceTwice(root, p, s3, s3.(status := Active));
    root' := SetStatusAt(root', p, Active);
    var visit := TreeStep([], CloneTree(root'), 12);
    // node.status = VISITED
    AtReplace(root, p, s3.(status := Active));
    ReplaceTwice(root, p, s3.(status := Active), s3.(status := Visited));
    root' := SetStatusAt(root', p, Visited);
    steps := left + right + [visit];
    WalkSteps(root, p, left, right, visit);
  }

  /** The walks of the left and right subtrees, then the visit of the node. */
  lemma WalkSteps(root: Tree, p: Path, left: seq<Step>, right: seq<Step>, visit: Step)
    requires ValidPath(root, p) && At(root, p).Node?
    requires left == Shots(root, p + [L], Marks(PostOrder, At(root, p + [L])), 12)
    requires var r := ReplaceAt(root, p, Resting(PostOrder, At(root, p), R));
      right == Shots(r, p + [R], Marks(PostOrder, At(r, p + [R])), 12)
    requires var t := At(root, p);
      visit == TreeStep([], ReplaceAt(root, p, t.(left := Paint(t.left, Visited), right := Paint(t.right, Visited), status := Active)), 12)
    ensures left + right + [visit] == Shots(root, p, Marks(PostOrder, At(root, p)), 12)
  {
    var t := At(root, p);
    var s2 := Resting(PostOrder, t, R);
    var here := t.(left := Paint(t.left, Visited), right := Paint(t.right, Visited), status := Active);
    ReplaceSame(root, p);
    ReplaceUnder(root, p, t, L, t.left);
    ReplaceUnder(root, p, s2, R, t.right);
    ShotsUnder(root, p, t, L, Marks(PostOrder, t.left), 12);
    ShotsUnder(root, p, s2, R, Marks(PostOrder, t.right), 12);
    PostorderMarks(t);
    ShotsConcat(root, p, PutAll(t, L, Marks(PostOrder, t.left)), PutAll(s2, R, Marks(PostOrder, t.right)), 12);
    ShotsConcat(root, p, PutAll(t, L, Marks(PostOrder, t.left)) + PutAll(s2, R, Marks(PostOrder, t.right)), [here], 12);
  }

  /**
   * `generatePostorderSteps`: the tree built from the input values, then one
   * snapshot per node in postorder, then the all-VISITED tree.
   */
  method GeneratePostorderSteps(input: seq<Bar>) returns (steps: seq<Step>)
    ensures var t0 := Built(Values(input));
      && |steps| == |input| + 2
      && steps[0] == TreeStep([], t0, 1)
      && WholeWalk(PostOrder, t0, steps[1..|input| + 1], 12)
      && steps[|input| + 1] == TreeStep([], Paint(t0, Visited), 14)
  {
    var values := Values(input);
    var root := BuildBSTFromArray(values);
    ghost var t0 := root;
    steps := [TreeStep([], CloneTree(root), 1)];
    var visits;
    root, visits := Traverse(root, []);
    ShotsRoot(PostOrder, t0, 12);
    steps := steps + visits + [TreeStep([], CloneTree(root), 14)];
    assert steps[1..|input| + 1] == visits;
  }
}
