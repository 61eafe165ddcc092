/**
 * The registry of simulators: the fixed table of fifteen algorithm
 * definitions, lookup by id, and the common `generateSteps` entry point
 * that every definition exposes.
 */
module Registry {
  import opened Types
  import opened SortingSpec
  import BubbleSort
  import MergeSort
  import InsertionSort
  import SelectionSort
  import QuickSort
  import BinarySearchTree
  import Preorder
  import Inorder
  import Postorder
  import LevelOrder
  import Dijkstra
  import GraphBfs
  import GraphDfs
  import Prim
  import Kruskal
  import GraphHelpers

  /** Which simulator a definition's `generateSteps` runs. */
  datatype Simulator =
    | BubbleSortSim | MergeSortSim | InsertionSortSim | SelectionSortSim | QuickSortSim
    | BstSim | PreorderSim | InorderSim | PostorderSim | LevelOrderSim
    | DijkstraSim | BfsGraphSim | DfsGraphSim | PrimSim | KruskalSim

  /** An algorithm definition; the description and the displayed code are text only and are not modelled. */
  datatype AlgorithmDefinition = AlgorithmDefinition(id: string, name: string, kind: AlgorithmType, generator: Simulator)

  /** The family each simulator belongs to. */
  function KindOf(s: Simulator): AlgorithmType
  {
    match s
    case BubbleSortSim | MergeSortSim | InsertionSortSim | SelectionSortSim | QuickSortSim => SortingType
    case BstSim | PreorderSim | InorderSim | PostorderSim | LevelOrderSim => TreeType
    case _ => GraphType
  }

  /** The `ALGORITHMS` table, in its listed order. */
  const Algorithms: seq<AlgorithmDefinition> := [
    AlgorithmDefinition("bubble-sort", "Bubble Sort", SortingType, BubbleSortSim),
    AlgorithmDefinition("merge-sort", "Merge Sort", SortingType, MergeSortSim),
    AlgorithmDefinition("insertion-sort", "Insertion Sort", SortingType, InsertionSortSim),
    AlgorithmDefinition("selection-sort", "Selection Sort", SortingType, SelectionSortSim),
    AlgorithmDefinition("quick-sort", "Quick Sort", SortingType, QuickSortSim),
    AlgorithmDefinition("binary-search-tree", "Binary Search Tree", TreeType, BstSim),
    AlgorithmDefinition("preorder-traversal", "Preorder Traversal", TreeType, PreorderSim),
    AlgorithmDefinition("inorder-traversal", "Inorder Traversal", TreeType, InorderSim),
    AlgorithmDefinition("postorder-traversal", "Postorder Traversal", TreeType, PostorderSim),
    AlgorithmDefinition("level-order-traversal", "Level Order Traversal", TreeType, LevelOrderSim),
    AlgorithmDefinition("dijkstra", "Dijkstra Pathfinding", GraphType, DijkstraSim),
    AlgorithmDefinition("bfs-graph", "Breadth First Search", GraphType, BfsGraphSim),
    AlgorithmDefinition("dfs-graph", "Depth First Search", GraphType, DfsGraphSim),
    AlgorithmDefinition("prims", "Prim's Algorithm", GraphType, PrimSim),
    AlgorithmDefinition("kruskal", "Kruskal's Algorithm", GraphType, KruskalSim)
  ]

  /**
   * `table.find(algo => algo.id === id)`: the first entry with that id, or
   * None (`undefined`) when there is none.
   */
  function Find(table: seq<AlgorithmDefinition>, id: string): (r: Option<AlgorithmDefinition>)
    ensures r.None? <==> forall k | 0 <= k < |table| :: table[k].id != id
    ensures r.Some? ==> exists k | 0 <= k < |table| :: table[k] == r.value && r.value.id == id && forall j | 0 <= j < k :: table[j].id != id
    decreases |table|
  {
    if |table| == 0 then None
    else if table[0].id == id then Some(table[0])
    else
      var r := Find(table[1..], id);
      if r.Some? then
        var k :| 0 <= k < |table[1..]| && table[1..][k] == r.value && r.value.id == id && forall j | 0 <= j < k :: table[1..][j].id != id;
        assert table[k + 1] == r.value;
        r
      else r
  }

  /** `getAlgorithmById`. */
  function GetAlgorithmById(id: string): (r: Option<AlgorithmDefinition>)
    ensures r.Some? ==> r.value in Algorithms && r.value.id == id
    ensures r.None? <==> forall k | 0 <= k < |Algorithms| :: Algorithms[k].id != id
  {
    Find(Algorithms, id)
  }

  /** Five sorting, then five tree, then five graph entries; each entry's type is its simulator's family. */
  lemma TableShape()
    ensures |Algorithms| == 15
    ensures forall k | 0 <= k < 15 :: Algorithms[k].kind == (if k < 5 then SortingType else if k < 10 then TreeType else GraphType)
    ensures forall k | 0 <= k < 15 :: Algorithms[k].kind == KindOf(Algorithms[k].generator)
  {
  }

  /** No two entries share an id. */
  lemma DistinctIds()
    ensures forall i, j | 0 <= i < j < |Algorithms| :: Algorithms[i].id != Algorithms[j].id
  {
  }

  /** Since the ids are distinct, looking up an entry's id finds that very entry. */
  lemma {:induction false} LookupFindsEntry(k: nat)
    requires k < |Algorithms|
    ensures GetAlgorithmById(Algorithms[k].id) == Some(Algorithms[k])
  {
    DistinctIds();
    var r := GetAlgorithmById(Algorithms[k].id);
    assert r.Some?;
    var m :| 0 <= m < |Algorithms| && Algorithms[m] == r.value && r.value.id == Algorithms[k].id && forall j | 0 <= j < m :: Algorithms[j].id != Algorithms[k].id;
    assert m == k;
  }

  /** The random draws every graph simulator needs for its generated graph. */
  ghost predicate DrawsOk(input: seq<Bar>, draws: seq<real>)
  {
    && (forall i | 0 <= i < |draws| :: 0.0 <= draws[i] < 1.0)
    && |draws| >= GraphHelpers.DrawsNeeded(GraphHelpers.NodeCount(|input|))
  }

  /** A sorting definition's `generateSteps`: at least one step; on two or more bars the last is the sorted, all-SORTED array. */
  method GenerateSortingSteps(s: Simulator, input: seq<Bar>) returns (steps: seq<Step>)
    requires KindOf(s) == SortingType
    requires s == SelectionSortSim ==> |input| >= 1
    ensures |steps| > 0
    ensures |input| >= 2 ==> Completed(steps[|steps| - 1], input)
  {
    match s {
      case BubbleSortSim => steps := BubbleRun(input);
      case MergeSortSim => steps := MergeSort.GenerateMergeSortSteps(input);
      case InsertionSortSim => steps := InsertionSort.GenerateInsertionSortSteps(input);
      case SelectionSortSim => steps := SelectionSort.GenerateSelectionSortSteps(input);
      case QuickSortSim => steps := QuickSort.GenerateQuickSortSteps(input);
    }
  }

  /** Bubble sort's trace, its last step the sorted, all-SORTED array. */
  method BubbleRun(input: seq<Bar>) returns (steps: seq<Step>)
    ensures |steps| > 0 && Completed(steps[|steps| - 1], input)
  {
    steps := BubbleSort.GenerateBubbleSortSteps(input);
  }

  /** A tree definition's `generateSteps`: at least one step. */
  method GenerateTreeSteps(s: Simulator, input: seq<Bar>) returns (steps: seq<Step>)
    requires KindOf(s) == TreeType
    ensures |steps| > 0
  {
    match s {
      case BstSim => ghost var at; steps, at := BinarySearchTree.GenerateBSTSteps(input);
      case PreorderSim => steps := Preorder.GeneratePreorderSteps(input);
      case InorderSim => steps := Inorder.GenerateInorderSteps(input);
      case PostorderSim => steps := Postorder.GeneratePostorderSteps(input);
      case LevelOrderSim => ghost var order, at; steps, order, at := LevelOrder.GenerateLevelOrderSteps(input);
    }
  }

  /** A graph definition's `generateSteps`: the first step is a snapshot of the generated graph. */
  method GenerateGraphSteps(s: Simulator, input: seq<Bar>, draws: seq<real>) returns (steps: seq<Step>)
    requires KindOf(s) == GraphType && DrawsOk(input, draws)
    ensures |steps| > 0 && steps[0].graph.Some?
  {
    match s {
      case DijkstraSim => steps := DijkstraRun(input, draws);
      case BfsGraphSim => steps := BfsRun(input, draws);
      case DfsGraphSim => steps := DfsRun(input, draws);
      case PrimSim => steps := PrimRun(input, draws);
      case KruskalSim => steps := KruskalRun(input, draws);
    }
  }

  /** Dijkstra's trace, its first step a graph snapshot. */
  method DijkstraRun(input: seq<Bar>, draws: seq<real>) returns (steps: seq<Step>)
    requires DrawsOk(input, draws)
    ensures |steps| > 0 && steps[0].graph.Some?
  {
    ghost var g, final, parent, via, tree;
    steps, g, final, parent, via, tree := Dijkstra.GenerateDijkstraSteps(input, draws);
  }

  /** BFS's trace, its first step a graph snapshot. */
  method BfsRun(input: seq<Bar>, draws: seq<real>) returns (steps: seq<Step>)
    requires DrawsOk(input, draws)
    ensures |steps| > 0 && steps[0].graph.Some?
  {
    ghost var g, order, tree;
    steps, g, order, tree := GraphBfs.GenerateBfsSteps(input, draws);
  }

  /** DFS's trace, its first step a graph snapshot. */
  method DfsRun(input: seq<Bar>, draws: seq<real>) returns (steps: seq<Step>)
    requires DrawsOk(input, draws)
    ensures |steps| > 0 && steps[0].graph.Some?
  {
    ghost var g, r;
    steps, g, r := GraphDfs.GenerateDfsSteps(input, draws);
  }

  /** Prim's trace, its first step a graph snapshot. */
  method PrimRun(input: seq<Bar>, draws: seq<real>) returns (steps: seq<Step>)
    requires DrawsOk(input, draws)
    ensures |steps| > 0 && steps[0].graph.Some?
  {
    ghost var g, order, tree, final, at;
    steps, g, order, tree, final, at := Prim.GeneratePrimSteps(input, draws);
  }

  /** Kruskal's trace, its first step a graph snapshot. */
  method KruskalRun(input: seq<Bar>, draws: seq<real>) returns (steps: seq<Step>)
    requires DrawsOk(input, draws)
    ensures |steps| > 0 && steps[0].graph.Some?
  {
    ghost var g, examined;
    steps, g, examined := Kruskal.GenerateKruskalSteps(input, draws);
  }

  /**
   * `generateSteps`: run the simulator on the input bars (the graph
   * simulators also take their random draws). Every run yields at least one
   * step; a sorting run on two or more bars ends on the sorted, all-SORTED
   * array; a graph run starts with a snapshot of its graph.
   */
  method GenerateSteps(s: Simulator, input: seq<Bar>, draws: seq<real>) returns (steps: seq<Step>)
    requires s == SelectionSortSim ==> |input| >= 1
    requires KindOf(s) == GraphType ==> DrawsOk(input, draws)
    ensures |steps| > 0
    ensures KindOf(s) == SortingType && |input| >= 2 ==> Completed(steps[|steps| - 1], input)
    ensures KindOf(s) == GraphType ==> steps[0].graph.Some?
  {
    match KindOf(s) {
      case SortingType => steps := GenerateSortingSteps(s, input);
      case TreeType => steps := GenerateTreeSteps(s, input);
      case GraphType => steps := GenerateGraphSteps(s, input, draws);
    }
  }
}
