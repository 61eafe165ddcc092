/**
 * The shared data shapes of the step-generation engine: the visual status
 * tag, array bars, tree nodes, graph nodes and edges, and the step snapshot
 * that every simulator emits.
 */
module Types {

  datatype Option<T> = None | Some(value: T)

  /** The closed set of nine visual tags shared by bars, tree nodes and graph parts. */
  datatype Status =
    | Default
    | Comparing
    | Swapping
    | Overwriting
    | Sorted
    | Active
    | LeftHalf
    | RightHalf
    | Visited

  /** The family an algorithm belongs to. */
  datatype AlgorithmType = SortingType | TreeType | GraphType

  /** One element of the input list. Only `value` moves during a sort. */
  datatype Bar = Bar(id: string, value: int, labelText: Option<string>, status: Status, isSplitAfter: Option<bool>)

  /**
   * A binary tree whose children are exclusively owned: `Nil` is the null
   * reference. A node's id `node-i` is kept as its index `i`.
   */
  datatype Tree =
    | Nil
    | Node(id: nat, value: int, x: real, y: real, left: Tree, right: Tree, status: Status)

  /** A distance or key: a natural number or Infinity. */
  datatype Dist = Inf | Fin(d: nat)

  /** Graph node `node-i` is the node at index `i` of the node list. */
  datatype GraphNode = GraphNode(id: nat, labelText: string, distance: Dist, status: Status)

  /** An edge names its endpoints by node index; its id `edge-u-v` is determined by them. */
  datatype GraphEdge = GraphEdge(source: nat, target: nat, weight: nat, status: Status)

  datatype Graph = Graph(nodes: seq<GraphNode>, edges: seq<GraphEdge>)

  /**
   * One snapshot. `bars` (the source's `array`) and the three index lists are always present;
   * `treeRoot`, `graph` and `codeLine` are optional. The narration text is
   * not modelled.
   */
  datatype Step = Step(
    bars: seq<Bar>,
    treeRoot: Option<Tree>,
    graph: Option<Graph>,
    comparedIndices: seq<nat>,
    swappedIndices: seq<nat>,
    sortedIndices: seq<nat>,
    codeLine: Option<nat>)

  /** A step of a sorting simulator: the array is the payload. */
  function ArrayStep(a: seq<Bar>, compared: seq<nat>, swapped: seq<nat>, sorted: seq<nat>, line: nat): Step
  {
    Step(a, None, None, compared, swapped, sorted, Some(line))
  }

  /** `cloneTree(root)` in a snapshot: null for the empty tree. */
  function Shown(t: Tree): (r: Option<Tree>)
    ensures r.None? <==> t.Nil?
    ensures r.Some? ==> r.value == t
  {
    if t.Nil? then None else Some(t)
  }

  /** A step of a tree simulator: the tree is the payload, the index lists are empty. */
  function TreeStep(a: seq<Bar>, root: Tree, line: nat): Step
  {
    Step(a, Shown(root), None, [], [], [], Some(line))
  }

  /** A step of a graph simulator: the graph is the payload. */
  function GraphStep(g: Graph, line: nat): Step
  {
    Step([], None, Some(g), [], [], [], Some(line))
  }

  /** The list [0, 1, ..., n-1] (`Array.from({length: n}, (_, i) => i)`). */
  function Range(n: nat): seq<nat>
  {
    seq(n, i requires 0 <= i < n => i)
  }
}
