# zengorithms step engine, modelled in Dafny

zengorithms is an algorithm visualiser. Its engine (`algorithms/`, with the
shared types in `types.ts`) holds fifteen simulators. Each one takes a list of
bars (`ArrayBar`: id, value, label, status), replays one textbook algorithm,
and emits the ordered list of `SortingStep` snapshots that the UI plays back.
A snapshot is a copy of the working array, tree or graph, plus the compared,
swapped and sorted index lists and the line of pseudo-code being executed.

This project models that engine and proves what each simulator promises:

- **Sorting** (bubble, insertion, selection, merge, quick). Each runs on one
  `array<Bar>` working array, with the source's loops as `while`/`for` loops.
  - Only values move; the ids stay at their indices.
  - The last snapshot holds the sorted rearrangement of the input values, every
    bar SORTED, and reports every index sorted.
  - Every snapshot satisfies a per-code-line predicate (which pairs are
    compared, what a swap exchanges, which indices are final).
- **Trees** (the incremental BST builder, the shared static builder, four
  traversals). Trees are an inductive datatype.
  - In-place status changes and child attachments are updates of the root
    value along a path.
  - Proved: insertion places ties right and keeps the BST order and the
    contents; the layout coordinates; each walk visits in its own order, one
    step per node, ACTIVE then VISITED; the level-order queue is FIFO.
- **Graphs** (the ring-plus-chords generator, Dijkstra, BFS, DFS, Prim,
  Kruskal). Node ids are indices `0..n-1`, and `Math.random` is a sequence of
  draws in [0, 1) passed in by the caller.
  - Proved: the generated graph is simple and connected with weights 1..9;
    Dijkstra's distances are shortest-path distances and its parent edges form
    a shortest-path tree; BFS and DFS follow reference searches in edge-list
    order; Prim's and Kruskal's trees are spanning, with n-1 edges; each Prim
    edge is the lightest leaving the tree of its time, Kruskal accepts exactly
    the edges, in weight order, whose ends are not yet connected; union-find
    stays a forest whose sets are the components of the accepted edges.
- **Registry**: the table of fifteen definitions, `getAlgorithmById`, and the
  common `generateSteps` entry point.

JavaScript's deep copy before each `yield` is the identity on Dafny values, so
a snapshot is just the current value (`a[..]`, the tree, the graph). A
generator's output is the `seq<Step>` of its yields, and `yield*` is
concatenation.

Source lines below are paths relative to the repository root.

## Model

| member | source | states |
|---|---|---|
| Definitions.Reset | algorithms/definitions.ts:7-11 | the reset bars keep every value and every id |
| Definitions.SetRange | algorithms/definitions.ts:13-19 | the recoloured bars keep every value and every id |
| Definitions.Clone | algorithms/definitions.ts:5 | the working array is a fresh copy, bar for bar, of the input |
| Definitions.ResetStatus | algorithms/definitions.ts:7-11 | the array afterwards is `Reset` of the array before |
| Definitions.SetRangeStatus | algorithms/definitions.ts:13-19 | the array afterwards is `SetRange` of the array before, for any start and end, including out-of-range ones |
| Definitions.ResetStatusEffect | algorithms/definitions.ts:7-11 | the length is kept; a SORTED bar is unchanged; any other bar becomes DEFAULT and nothing else about it changes |
| Definitions.ResetIdempotent | algorithms/definitions.ts:7-11 | resetting twice is the same as resetting once |
| Definitions.SetRangeEffect | algorithms/definitions.ts:13-19 | the length is kept; indices outside [start..end] and SORTED bars are untouched; every other index in range gets the new status |
| Definitions.SetRangeEmpty | algorithms/definitions.ts:14 | with start > end nothing changes |
| Definitions.SwapValues | algorithms/bubbleSort/index.ts:56-58 | the two values are exchanged and the multiset of values is kept; ids and statuses stay at their indices |
| Definitions.MarkSorted | algorithms/bubbleSort/index.ts:91-93 | exactly the indices of the range become SORTED; values and ids are kept |
| SortingSpec.SortedUnique | algorithms/bubbleSort/index.ts:91-101 | two non-decreasing rearrangements of the same values are equal, so the completion snapshot's values are determined by the input |
| BubbleSort.ScanStep | algorithms/bubbleSort/index.ts:36-70 | comparing (i, i+1) and exchanging them when strictly inverted keeps the settled suffix, moves the prefix maximum to i+1, and keeps the prefix in order while nothing was swapped |
| BubbleSort.CompareAdjacent | algorithms/bubbleSort/index.ts:37-69 | one inner iteration advances the scan by one pair; `swapped` only goes from false to true; every new step is well formed and compares a pair below the unsettled bound; it adds a line-7 comparison step and, only when it swaps, a line-8 swap step, which it records as the witness of `swapped` |
| BubbleSort.SwapPair | algorithms/bubbleSort/index.ts:51-69 | a swap happens only on a strict inversion, exchanges exactly that pair, and sets `swapped` |
| BubbleSort.PassDone | algorithms/bubbleSort/index.ts:72-88 | at the end of a pass the index n-1-sortedCount holds the maximum of its prefix; a pass without swaps leaves the whole array sorted |
| BubbleSort.ScanPairs | algorithms/bubbleSort/index.ts:36-70 | the inner loop scans every pair (i, i+1) with i < n-1-sortedCount; the steps it adds are comparisons, plus swaps once `swapped` is set, and `swapped` names one of those swap steps; afterwards the settled suffix has grown by one and, without a swap, the whole array is sorted |
| BubbleSort.InnerLoop | algorithms/bubbleSort/index.ts:32-70 | after the inner loop the settled suffix has grown by one; no swap means the array is sorted; a swap means at least two unsettled indices remained; the steps it adds are comparisons and swaps, with a swap step among them exactly when `swapped` is true |
| BubbleSort.CompareStepOk | algorithms/bubbleSort/index.ts:38-49 | a comparison snapshot names an adjacent in-range pair, both COMPARING |
| BubbleSort.PassEndStepOk | algorithms/bubbleSort/index.ts:72-84 | the pass-end snapshot reports at most the one index n-1-sortedCount, SORTED and holding its final value |
| BubbleSort.InnerLines | algorithms/bubbleSort/index.ts:22-70 | read as code lines, the steps after the line-5 "checking" step are the inside of a pass, and that pass holds a swap exactly when `swapped` is set |
| BubbleSort.CloseBlock | algorithms/bubbleSort/index.ts:77-84 | the line-13 pass-end step closes the pass opened by the "checking" step; the pass swapped exactly when a line-8 step lies inside it; the earlier steps are untouched |
| BubbleSort.PassLines | algorithms/bubbleSort/index.ts:21-84 | a "checking" step, the comparisons and swaps after it, and a pass-end step form one pass block appended to the earlier trace; the block holds a swap exactly when `swapped` is set |
| BubbleSort.Pass | algorithms/bubbleSort/index.ts:21-86 | one round of the `do` body emits at least two steps: a block that opens with the line-5 step, holds only line-7 and line-8 steps and closes with the line-13 step; it returns `swapped` exactly when the block holds a swap; it compares only pairs below n-sortedCount and grows the settled suffix by one |
| BubbleSort.NextPass | algorithms/bubbleSort/index.ts:21-88 | a pass appended after the start step, or after a pass that swapped, keeps the rule that a pass is followed by another exactly when it swapped, and every pass-end step still closes exactly one pass |
| BubbleSort.Round | algorithms/bubbleSort/index.ts:21-88 | a round entered because the last pass swapped keeps the trace tracking the array, grows the settled suffix by one, and records whether its own pass swapped, with the early-exit rule intact |
| BubbleSort.RunPasses | algorithms/bubbleSort/index.ts:21-88 | the `do/while (swapped)` loop stops after a pass with no swap: the array is sorted, the trace ends with a pass-end step, and every pass before it that swapped is followed by another pass |
| BubbleSort.LastPass | algorithms/bubbleSort/index.ts:88-101 | after a pass without swaps, appending the completion step keeps the early-exit rule and the pass delimiting |
| BubbleSort.FinalLines | algorithms/bubbleSort/index.ts:88-101 | the same, read on the step trace: the completion step after a swap-free pass keeps the early-exit rule |
| BubbleSort.Complete | algorithms/bubbleSort/index.ts:90-101 | every bar is marked SORTED and one line-15 completion snapshot is appended after the last pass-end step; the trace stays a bubble sort trace and keeps the early-exit rule |
| BubbleSort.QuietLastPass | algorithms/bubbleSort/index.ts:86-88 | in a finished trace the pass just before the completion step made no swap, which is why the `do/while` stopped |
| BubbleSort.DoneStepOk | algorithms/bubbleSort/index.ts:90-101 | the completion snapshot reports every index sorted |
| BubbleSort.GenerateBubbleSortSteps | algorithms/bubbleSort/index.ts:6-102 | the trace opens with the input, values change only by exchanging strict adjacent inversions, ids never move, and the last snapshot is the sorted rearrangement of the input, all SORTED, reporting [0..n-1], on line 15 right after a line-13 pass-end step; every pass-end step closes a pass that opened with a line-5 step, and a pass is followed by another pass exactly when it swapped |
| InsertionSort.Inserted | algorithms/insertionSort/index.ts:58-81 | shifting (j..i) one slot right and writing the cached key at j+1 keeps the multiset of values |
| InsertionSort.InsertedSorted | algorithms/insertionSort/index.ts:58-81 | with [0..i) sorted, writing the key after the last value not larger than it leaves [0..i] sorted |
| InsertionSort.ShiftOne | algorithms/insertionSort/index.ts:58-74 | moving a value strictly larger than the key one slot right advances the shift to j-1 |
| InsertionSort.PlaceKey | algorithms/insertionSort/index.ts:81-82 | writing the key into the gap keeps the multiset, leaves [0..i] sorted, leaves (i..) untouched, and puts the key after every value not larger than it and before only strictly larger ones |
| InsertionSort.SelectStepOk | algorithms/insertionSort/index.ts:33-43 | the key snapshot shows the key ACTIVE, [i..) untouched, and reports [0..i) sorted |
| InsertionSort.CompareStepOk | algorithms/insertionSort/index.ts:48-56 | a comparison snapshot names (j, j+1) with j COMPARING |
| InsertionSort.ShiftStepOk | algorithms/insertionSort/index.ts:60-71 | a shift snapshot shows the value copied to j+1, marked SWAPPING |
| InsertionSort.InsertedStepOk | algorithms/insertionSort/index.ts:84-94 | the insertion snapshot shows [0..i] sorted and SORTED, the key placed, and reports [0..i] |
| InsertionSort.ShiftStep | algorithms/insertionSort/index.ts:47-78 | one round of the `while`: either the value at j is strictly larger than the key and has moved right, or the loop stops at the first value not larger than the key |
| InsertionSort.ShiftLarger | algorithms/insertionSort/index.ts:45-79 | the shift loop stops at j = -1 or at the first j whose value is not larger than the key; every value between moved one slot right |
| InsertionSort.WriteKey | algorithms/insertionSort/index.ts:81-94 | after writing the key, [0..i] is sorted and all SORTED, the values are a rearrangement of the input, and (i..) is untouched |
| InsertionSort.InsertOne | algorithms/insertionSort/index.ts:32-95 | one outer iteration extends the sorted prefix from [0..i) to [0..i] and keeps every step well formed |
| InsertionSort.StartInserting | algorithms/insertionSort/index.ts:23-30 | the start snapshot reports index 0 sorted and starts the outer loop's invariant |
| InsertionSort.DoneInserting | algorithms/insertionSort/index.ts:32-96 | a single-step trace belongs to an input of at most one bar; for two or more bars the last snapshot is the completed array |
| InsertionSort.InsertAll | algorithms/insertionSort/index.ts:32-95 | the outer loop runs i from 1 to n and leaves the whole array sorted |
| InsertionSort.GenerateInsertionSortSteps | algorithms/insertionSort/index.ts:19-96 | the start snapshot reports [0]; for n <= 1 it is the only step; for n >= 2 the last snapshot is the completed sorted rearrangement of the input; every step is well formed |
| SelectionSort.CompareWithMin | algorithms/selectionSort/index.ts:34-62 | the new minimum index is j exactly when v[j] is strictly smaller than the current minimum; values are untouched and the SORTED prefix keeps its colours |
| SelectionSort.FindMin | algorithms/selectionSort/index.ts:22-63 | `minIdx` ends on the FIRST occurrence of the minimum of [i..n): no later value is smaller, every earlier one is strictly larger; no value moves |
| SelectionSort.ScanMin | algorithms/selectionSort/index.ts:47-49 | comparing with strict < keeps the first minimum of the scanned range |
| SelectionSort.ExchangePlaces | algorithms/selectionSort/index.ts:65-68 | exchanging the first minimum into i extends the placed prefix to [0..i] |
| SelectionSort.MinInPlace | algorithms/selectionSort/index.ts:65 | when the minimum is already at i nothing moves and [0..i] is placed |
| SelectionSort.StartStepOk | algorithms/selectionSort/index.ts:23-32 | the announcement snapshot shows i ACTIVE and reports [0..i) sorted |
| SelectionSort.ExchangeStepOk | algorithms/selectionSort/index.ts:70-77 | the exchange snapshot names (i, minIdx) and shows index i holding a value strictly below everything up to minIdx |
| SelectionSort.Exchange | algorithms/selectionSort/index.ts:65-78 | when minIdx equals i nothing moves and no step is added; otherwise exactly the values at i and minIdx are exchanged and one line-9 snapshot naming (i, minIdx) is appended; afterwards [0..i] holds the i+1 smallest values in order; statuses are unchanged |
| SelectionSort.SelectOne | algorithms/selectionSort/index.ts:21-82 | one outer iteration puts the minimum of the suffix at i and marks [0..i] SORTED |
| SelectionSort.GenerateSelectionSortSteps | algorithms/selectionSort/index.ts:17-93 | every snapshot keeps ids in place and values a rearrangement of the input, values move only in exchange steps, and the last snapshot is the completed sorted array |
| MergeSort.PlainStepOk | algorithms/mergeSort/index.ts:25-43 | a snapshot without highlighted indices is well formed once ids and values are |
| MergeSort.SplitIndex | algorithms/mergeSort/index.ts:123 | for l < r the split index satisfies l <= m < r, and the left half is as long as the right one or one longer |
| MergeSort.ShiftedRight | algorithms/mergeSort/index.ts:76-85 | the shift keeps the length of the array |
| MergeSort.ShiftedRightPermutes | algorithms/mergeSort/index.ts:76-85 | the shift is a rotation of [start..start2]: it keeps the multiset of values and moves nothing outside that range |
| MergeSort.RunsStart | algorithms/mergeSort/index.ts:47 | two adjacent sorted runs are a merge state with empty output |
| MergeSort.RunsJoin | algorithms/mergeSort/index.ts:35-45 | two sorted adjacent runs whose boundary is in order already form one sorted run, which justifies the early return |
| MergeSort.KeepLeft | algorithms/mergeSort/index.ts:65-66 | keeping the left head when it is not larger than the right head (so ties keep the left element) extends the merged output by one |
| MergeSort.MoveRight | algorithms/mergeSort/index.ts:75-103 | moving a strictly smaller right head to `start` extends the output by one, slides the left run right, keeps the multiset, and advances start, mid and start2 by one |
| MergeSort.RunsDone | algorithms/mergeSort/index.ts:47 | when either run is exhausted, [lo..hi] is sorted |
| MergeSort.SetSplit | algorithms/mergeSort/index.ts:16-145 | only the split flag of one bar changes |
| MergeSort.SlideRight | algorithms/mergeSort/index.ts:80-83 | each value at start..start2-1 is copied one slot right; only values change |
| MergeSort.ShiftIn | algorithms/mergeSort/index.ts:76-85 | the values afterwards are the shifted values; ids, statuses and split flags stay put |
| MergeSort.MoveRound | algorithms/mergeSort/index.ts:75-113 | the shift branch yields exactly two steps, applies the shift, and advances the merge state by one |
| MergeSort.MergeRound | algorithms/mergeSort/index.ts:48-113 | one round compares the heads, keeps the values when the left head is not larger and shifts otherwise; start always advances, mid and start2 advance exactly on a shift |
| MergeSort.MergeLoop | algorithms/mergeSort/index.ts:47-114 | the merge loop leaves [lo..hi] sorted and moves nothing outside it |
| MergeSort.Merge | algorithms/mergeSort/index.ts:7-115 | merging two sorted adjacent ranges leaves [start..end] sorted as a rearrangement and touches no index outside it; when the boundary is already in order no value moves |
| MergeSort.ShowSplit | algorithms/mergeSort/index.ts:125-154 | the split announcement yields exactly two steps and moves no value |
| MergeSort.SortedKept | algorithms/mergeSort/index.ts:156-161 | sorting the right half does not disturb the already sorted left half |
| MergeSort.SortRange | algorithms/mergeSort/index.ts:117-175 | a range of at most one index yields nothing and changes nothing; otherwise values move only within [l..r], which ends sorted |
| MergeSort.ClearSplits | algorithms/mergeSort/index.ts:191 | every split flag becomes false and nothing else changes |
| MergeSort.FinalStepOk | algorithms/mergeSort/index.ts:193-204 | the final snapshot is the completed sorted array with every index reported |
| MergeSort.GenerateMergeSortSteps | algorithms/mergeSort/index.ts:177-205 | the trace opens with the start step (two steps in all for n <= 1), every step keeps ids and the values' multiset, and the last snapshot is the completed sorted array with no split gap |
| QuickSort.SplitLess | algorithms/quickSort/index.ts:53-58 | a value below the pivot is swapped to i+1, right after the smaller values, and the multiset is kept |
| QuickSort.SplitAtLeast | algorithms/quickSort/index.ts:74-76 | a value at or above the pivot stays where it is and joins the upper part |
| QuickSort.SplitDone | algorithms/quickSort/index.ts:79-82 | swapping the pivot into i+1 leaves [low..high] partitioned at i+1 with the pivot there, keeps the multiset, and moves nothing outside the range |
| QuickSort.PartitionRound | algorithms/quickSort/index.ts:41-76 | one scan iteration advances i exactly when the value at j is strictly below the pivot, and keeps the partition state |
| QuickSort.PlacedStepOk | algorithms/quickSort/index.ts:87-94 | the placement snapshot names (p, high) and reports [p], which is SORTED |
| QuickSort.PlacePivot | algorithms/quickSort/index.ts:79-96 | p = i+1; the range is partitioned at p with the pivot there, p is SORTED and is the one index reported |
| QuickSort.Partition | algorithms/quickSort/index.ts:27-97 | the pivot is the value at high; it ends at some low <= p <= high with smaller values before it and values at or above it after; values move only within [low..high] |
| QuickSort.SidesJoin | algorithms/quickSort/index.ts:113-114 | two sorted sides of a partition make one sorted range |
| QuickSort.SideSorted | algorithms/quickSort/index.ts:113-114 | sorting one side keeps the range partitioned at p |
| QuickSort.SortRange | algorithms/quickSort/index.ts:99-126 | an empty range yields nothing and changes nothing; a single index is marked SORTED with one step; otherwise [low..high] ends sorted and nothing outside it moves |
| QuickSort.FinalStepOk | algorithms/quickSort/index.ts:132-141 | the final snapshot is the completed sorted array with every index reported |
| QuickSort.GenerateQuickSortSteps | algorithms/quickSort/index.ts:128-142 | every step keeps ids and the values' multiset; the last snapshot is the completed sorted array; there is no start step, so an empty input yields one step and a single bar two |
| TreePaths.Paint | algorithms/treeTraversal/preorder.ts:32 | colouring every node keeps the node count |
| TreePaths.AtReplace | algorithms/binarySearchTree/index.ts:98-138 | after attaching a subtree at a path, the path still leads to a slot and that slot holds the subtree |
| TreePaths.ReplaceTwice | algorithms/binarySearchTree/index.ts:74-143 | writing the same slot twice keeps only the second write |
| TreePaths.RecolourKeepsShape | algorithms/treeTraversal/preorder.ts:22-32 | recolouring a node leaves the tree's shape, ids, values and coordinates as they were |
| TreePaths.FlattenReplace | algorithms/treeHelpers.ts:38-43 | in every depth-first order, the subtree at a path is listed contiguously between what comes before and after it |
| TreeHelpers.CloneTree | algorithms/treeHelpers.ts:5-12 | the clone equals the original: same shape, ids, values, coordinates and colours |
| TreeHelpers.ResetTreeStatus | algorithms/treeHelpers.ts:14-19 | the reset keeps shape, ids, values and coordinates |
| TreeHelpers.ResetListing | algorithms/treeHelpers.ts:14-19 | node by node, in any depth-first listing, SORTED nodes keep their colour and every other node becomes DEFAULT |
| TreeHelpers.ResetIdempotent | algorithms/treeHelpers.ts:14-19 | resetting twice is resetting once |
| TreeHelpers.ResetUnsorted | algorithms/treeHelpers.ts:14-19 | on a tree without SORTED nodes the reset clears every colour |
| TreeHelpers.SearchPath | algorithms/treeHelpers.ts:38-42 | the insertion path of a value (left when strictly less, right otherwise, so ties go right) is a valid path ending on an empty slot |
| TreeHelpers.InsertIntoBST | algorithms/treeHelpers.ts:22-44 | insertion adds exactly one node; a non-empty root keeps its own id, value, coordinates and colour (the same root is returned); into an empty tree the new node sits at the given x and y |
| TreeHelpers.InsertPlacesLeaf | algorithms/treeHelpers.ts:22-44 | the new node is a DEFAULT leaf with the given id and value at the end of the search path, and every other node is unchanged |
| TreeHelpers.InsertContents | algorithms/treeHelpers.ts:22-44 | the tree's values gain exactly the inserted value and its ids exactly the new id |
| TreeHelpers.InsertKeepsBst | algorithms/treeHelpers.ts:38-42 | insertion keeps the BST order: left values strictly smaller, right values at least the node's |
| TreeHelpers.InsertKeepsLayout | algorithms/treeHelpers.ts:39-41 | each node stays one TREE_LAYER_HEIGHT below its parent and the horizontal offsets keep halving per level |
| TreeHelpers.FillContents | algorithms/treeHelpers.ts:38-43 | hanging a subtree into an empty slot adds exactly its values and ids |
| TreeHelpers.FillKeepsBst | algorithms/treeHelpers.ts:38-42 | a leaf hung at the end of its value's search path keeps the BST order |
| TreeHelpers.BuildInsert | algorithms/treeHelpers.ts:52-60 | the builder's inserter adds exactly one node and keeps the root; into an empty tree the node sits at the given x and y |
| TreeHelpers.BuildInsertPlacesLeaf | algorithms/treeHelpers.ts:52-60 | the new node is a DEFAULT leaf `node-idx` at the end of the search path, and nothing else changes |
| TreeHelpers.BuildInsertContents | algorithms/treeHelpers.ts:52-60 | the values gain exactly v and the ids exactly idx |
| TreeHelpers.BuildInsertKeepsBst | algorithms/treeHelpers.ts:54-58 | the builder's inserter keeps the BST order, ties going right |
| TreeHelpers.BuildInsertKeepsLayout | algorithms/treeHelpers.ts:53-58 | with slot coordinates that agree with the nodes met, the layering and halving offsets are kept |
| TreeHelpers.BuildInsertUncoloured | algorithms/treeHelpers.ts:53 | inserting into an uncoloured tree gives an uncoloured tree |
| TreeHelpers.Built | algorithms/treeHelpers.ts:46-64 | the built tree has one node per input value, and it is empty exactly when the input is |
| TreeHelpers.BuiltContents | algorithms/treeHelpers.ts:46-64 | the built tree holds exactly the input values, and value i carries id `node-i` |
| TreeHelpers.BuildBSTFromArray | algorithms/treeHelpers.ts:46-64 | the `forEach` loop inserting each value from the root returns the built tree |
| TreeHelpers.BuiltBst | algorithms/treeHelpers.ts:46-64 | the built tree is a BST: left subtree values smaller than the node, right subtree values at least the node's |
| TreeHelpers.BuiltLayout | algorithms/treeHelpers.ts:53-61 | the root sits at x 50 and y TREE_ROOT_Y; each level is TREE_LAYER_HEIGHT lower; offsets start at 25 and halve per level |
| TreeHelpers.BuiltUncoloured | algorithms/treeHelpers.ts:53 | every node of the built tree is DEFAULT |
| TreeHelpers.BstInorderSorted | algorithms/treeTraversal/inorder.ts:70 | a BST lists its values in non-decreasing order when read in inorder |
| TreeHelpers.BuiltInorderSorted | algorithms/treeTraversal/inorder.ts:70 | the built tree's inorder listing is the input values, sorted |
| BstLayout.Grow | algorithms/binarySearchTree/index.ts:41-167 | one insertion adds exactly one node and keeps the root |
| BstLayout.GrowPlaces | algorithms/binarySearchTree/index.ts:86-154 | the new node is hung at the end of the search path (left on strictly less, right otherwise, so ties go right) and nothing else changes |
| BstLayout.GrowKeepsBst | algorithms/binarySearchTree/index.ts:86-125 | each insertion keeps the BST order |
| BstLayout.GrowContents | algorithms/binarySearchTree/index.ts:41-185 | each insertion adds exactly the value and the id `node-i` and keeps all existing values |
| BstLayout.GrowUncoloured | algorithms/binarySearchTree/index.ts:110-150 | after an insertion every node is DEFAULT again |
| BstLayout.GrowKeepsPlaced | algorithms/binarySearchTree/index.ts:88-135 | the new node's x is the middle of its window: going left narrows maxX to the ancestor's x, going right narrows minX |
| BstLayout.GrowKeepsLayered | algorithms/binarySearchTree/index.ts:47-135 | each node sits one TREE_LAYER_HEIGHT below its parent |
| BstLayout.PlacedInorder | algorithms/binarySearchTree/index.ts:88-135 | under the window layout no two nodes share an x, and reading the canvas left to right is reading the tree in inorder, strictly inside the window |
| BstLayout.SameLayout | algorithms/treeHelpers.ts:52-61 | on a tree laid out by windows, the static builder's halving offsets place the new node exactly where the incremental builder does |
| BstLayout.Grown | algorithms/binarySearchTree/index.ts:170-186 | the tree after inserting every value has one node per value |
| BstLayout.GrownContents | algorithms/binarySearchTree/index.ts:170-186 | the finished tree is a BST holding exactly the input values, value i as `node-i` |
| BstLayout.GrownFacts | algorithms/binarySearchTree/index.ts:42-135 | the finished tree is laid out by windows on the 0..100 canvas, layered from TREE_ROOT_Y, and uncoloured between insertions |
| BstLayout.GrownIsBuilt | algorithms/treeHelpers.ts:46-64 | the incremental builder and the traversals' static builder produce the same tree, coordinates included |
| BstLayout.GrownLayout | algorithms/binarySearchTree/index.ts:88-135 | nodes of the finished tree never share an x and read left to right in inorder |
| BinarySearchTree.InsertValue | algorithms/binarySearchTree/index.ts:41-167 | into an empty tree the new root sits at (50, TREE_ROOT_Y) and is shown ACTIVE once; otherwise each node on the path to the parent gets a COMPARING snapshot and a move snapshot with it VISITED, the new leaf is shown ACTIVE beside its COMPARING parent, and the tree ends as `Grow` |
| BinarySearchTree.Plant | algorithms/binarySearchTree/index.ts:42-62 | the first value becomes the root at x 50, y TREE_ROOT_Y |
| BinarySearchTree.Highlight | algorithms/binarySearchTree/index.ts:73-86 | after the reset only the current node is COMPARING; the side chosen is left exactly when val is strictly smaller, and the chosen child is empty exactly at the last node of the search path |
| BinarySearchTree.Attach | algorithms/binarySearchTree/index.ts:89-151 | the new leaf hangs at the chosen empty child with its window-middle x and one layer down, and the insertion is complete |
| BinarySearchTree.Advance | algorithms/binarySearchTree/index.ts:114-163 | the passed node becomes VISITED and the move snapshot shows it so |
| BinarySearchTree.Pass | algorithms/binarySearchTree/index.ts:72-166 | comparing at and passing one node extends the descent by one node and two snapshots, so each loop round descends one level |
| BinarySearchTree.SearchPrefix | algorithms/binarySearchTree/index.ts:86-128 | every proper prefix of the search path ends on a node, the next turn compares val with it, and only at the last node is the chosen child empty |
| BinarySearchTree.WindowSnoc | algorithms/binarySearchTree/index.ts:88-127 | one step down narrows the window on one side to the node's x |
| BinarySearchTree.SlotYSnoc | algorithms/binarySearchTree/index.ts:96-135 | the slot under a node is one layer lower |
| BinarySearchTree.ResetPlain | algorithms/binarySearchTree/index.ts:18-23 | the reset leaves an uncoloured tree as it is |
| BinarySearchTree.ResetVisited | algorithms/binarySearchTree/index.ts:18-73 | the reset at the top of the loop clears the one VISITED mark left by the previous round |
| Types.Shown | algorithms/binarySearchTree/index.ts:7-14 | the snapshot of the tree is absent exactly for the empty tree and otherwise equals the tree; every tree simulator's snapshots use it, so an empty tree always shows as null |
| BinarySearchTree.GenerateBSTSteps | algorithms/binarySearchTree/index.ts:25-208 | an opening snapshot with no tree, then for each value i a snapshot with bar i ACTIVE followed by that value's insertion (`node-i`), then the finished tree all SORTED; the caller's array is never changed |
| BinarySearchTree.Finished | algorithms/binarySearchTree/index.ts:188-197 | painting SORTED changes only colours; the finished tree is a BST with one node per value whose inorder listing is the input values, sorted |
| BinarySearchTree.NextRound | algorithms/binarySearchTree/index.ts:170-186 | one pass of the main loop turns the tree of the first i values into the tree of the first i+1 |
| TraversalSpec.MarkTree | algorithms/treeTraversal/preorder.ts:19-36 | at every stop of a walk the subtree keeps its node count |
| TraversalSpec.MarkTreeListing | algorithms/treeTraversal/preorder.ts:19-36 | at stop j of a walk the tree keeps shape and values, and in walk order the nodes before j are VISITED, node j is ACTIVE and the rest are untouched |
| TraversalSpec.PreorderMarking | algorithms/treeTraversal/preorder.ts:19-36 | the preorder walk (node, left, right) stands on the j-th node of the preorder listing at its j-th stop |
| TraversalSpec.InorderMarking | algorithms/treeTraversal/inorder.ts:19-37 | the inorder walk (left, node, right) stands on the j-th node of the inorder listing at its j-th stop |
| TraversalSpec.PostorderMarking | algorithms/treeTraversal/postorder.ts:19-36 | the postorder walk (left, right, node) stands on the j-th node of the postorder listing at its j-th stop |
| TraversalSpec.WalkColours | algorithms/treeTraversal/preorder.ts:22-32 | on an uncoloured tree, at stop j the nodes listed before j are VISITED, node j is ACTIVE, later ones DEFAULT, and shape, ids and values are unchanged: each node is ACTIVE at exactly its own stop and VISITED from then on |
| TraversalSpec.PreorderRootFirst | algorithms/treeTraversal/preorder.ts:22-35 | in preorder the root is ACTIVE at the first stop and VISITED at every later one |
| TraversalSpec.PostorderRootLast | algorithms/treeTraversal/postorder.ts:22-26 | in postorder the root's visit is the last stop and its colour is untouched before it |
| TraversalSpec.Marks | algorithms/treeTraversal/preorder.ts:19-36 | a walk has one stop per node |
| TraversalSpec.ShotsUnder | algorithms/treeTraversal/preorder.ts:25-35 | snapshots of the whole tree taken inside a child are snapshots of the recoloured parent's subtree |
| TraversalSpec.ShotsRoot | algorithms/treeTraversal/preorder.ts:52 | walking from the root is the walk of the whole tree |
| TraversalSpec.ChildMark | algorithms/treeTraversal/preorder.ts:32-35 | the child's j-th stop, seen from its parent, is the parent's stop Offset + j |
| TraversalSpec.LiftMarks | algorithms/treeTraversal/preorder.ts:34-35 | the stops of the walk of a child, with the parent resting, are a contiguous block of the parent's stops |
| TraversalSpec.PreorderMarks | algorithms/treeTraversal/preorder.ts:19-36 | the preorder stops are the node's own visit, then the left walk, then the right walk |
| TraversalSpec.InorderMarks | algorithms/treeTraversal/inorder.ts:19-37 | the inorder stops are the left walk, then the node's own visit with its left subtree VISITED, then the right walk |
| TraversalSpec.PostorderMarks | algorithms/treeTraversal/postorder.ts:19-36 | the postorder stops are the left walk, the right walk, then the node's own visit with both subtrees VISITED |
| Preorder.Traverse | algorithms/treeTraversal/preorder.ts:19-36 | the snapshots are one visit per node of the subtree in preorder, shown in the whole tree, and the subtree ends all VISITED with shape and values unchanged; an empty subtree yields nothing |
| Preorder.WalkSteps | algorithms/treeTraversal/preorder.ts:22-35 | the visit of the node followed by the walks of its subtrees is the walk of the node |
| Preorder.GeneratePreorderSteps | algorithms/treeTraversal/preorder.ts:38-63 | the built tree, then exactly one visit snapshot per node in preorder, then the all-VISITED tree: node count + 2 steps, and just the two for empty input |
| Inorder.Traverse | algorithms/treeTraversal/inorder.ts:19-37 | the snapshots are one visit per node of the subtree in inorder, and the subtree ends all VISITED with shape and values unchanged |
| Inorder.WalkSteps | algorithms/treeTraversal/inorder.ts:22-36 | the left walk, the node's visit and the right walk make up the walk of the node |
| Inorder.GenerateInorderSteps | algorithms/treeTraversal/inorder.ts:39-64 | the built tree, then exactly one visit snapshot per node in inorder, then the all-VISITED tree: node count + 2 steps |
| Inorder.VisitsAscending | algorithms/treeTraversal/inorder.ts:70 | on the built tree the visited values come in non-decreasing order: the node ACTIVE at stop i holds a value no larger than the node ACTIVE at any later stop |
| Postorder.Traverse | algorithms/treeTraversal/postorder.ts:19-36 | the snapshots are one visit per node of the subtree in postorder, and the subtree ends all VISITED with shape and values unchanged |
| Postorder.WalkSteps | algorithms/treeTraversal/postorder.ts:22-35 | the left walk, the right walk and then the node's visit make up the walk of the node |
| Postorder.GeneratePostorderSteps | algorithms/treeTraversal/postorder.ts:38-63 | the built tree, then exactly one visit snapshot per node in postorder, then the all-VISITED tree: node count + 2 steps |
| LevelOrderSpec.SetStatusOther | algorithms/treeTraversal/bfs.ts:43-70 | recolouring one node leaves every other node's colour as it was |
| LevelOrderSpec.SetStatusShape | algorithms/treeTraversal/bfs.ts:43-70 | recolouring a node keeps shape, ids and values |
| LevelOrderSpec.LevelChildren | algorithms/treeTraversal/bfs.ts:55-70 | children of nodes in level order come in the same level order |
| LevelOrderSpec.LexSiblings | algorithms/treeTraversal/bfs.ts:55-70 | a left child comes before its right sibling |
| LevelOrderSpec.IncreasingDistinct | algorithms/treeTraversal/bfs.ts:40-41 | a sequence increasing in level order holds no node twice |
| LevelOrderSpec.AllVisited | algorithms/treeTraversal/bfs.ts:53-91 | a tree of the built tree's shape with every node VISITED is the built tree painted VISITED |
| LevelOrderSpec.KidsWeight | algorithms/treeTraversal/bfs.ts:41-70 | dequeuing a node and enqueuing its children removes exactly one node from the work left, so the loop terminates |
| LevelOrder.GenerateLevelOrderSteps | algorithms/treeTraversal/bfs.ts:22-92 | the built tree, then for a non-empty tree one visit per node in level order (each node visited exactly once, ACTIVE with exactly the earlier ones VISITED), each followed by one COMPARING enqueue step per existing child, left first, then the all-VISITED tree: 2n+1 steps; an empty tree yields only the first step |
| LevelOrder.Start | algorithms/treeTraversal/bfs.ts:26-38 | the queue seeded with the root starts the loop invariant |
| LevelOrder.Finish | algorithms/treeTraversal/bfs.ts:40-91 | once the queue is empty every node was dequeued exactly once, in level order, the trace has 2n+1 steps and the tree is all VISITED |
| LevelOrder.Turn | algorithms/treeTraversal/bfs.ts:40-81 | one turn of the loop keeps the queue discipline, the colours and the trace shape, and leaves strictly less work |
| LevelOrder.VisitNext | algorithms/treeTraversal/bfs.ts:41-80 | the head is dequeued and its existing children enqueued at the back (FIFO); the node turns VISITED, and the trace grows by its visit step and one step per child |
| LevelOrder.EnqueueKids | algorithms/treeTraversal/bfs.ts:55-80 | exactly the existing children are enqueued, left first, each in a snapshot of its own showing it COMPARING |
| LevelOrder.Visit | algorithms/treeTraversal/bfs.ts:43-53 | the dequeued node is shown ACTIVE with exactly the earlier ones VISITED, then turns VISITED |
| LevelOrder.Enqueue | algorithms/treeTraversal/bfs.ts:56-79 | the enqueued child turns COMPARING and the snapshot shows it, with line 11 for a left child and 14 for a right one |
| LevelOrder.ChildSlots | algorithms/treeTraversal/bfs.ts:55-68 | whether a node has a left or right child can be read off any recoloured copy of the tree |
| LevelOrder.QueueStep | algorithms/treeTraversal/bfs.ts:41-69 | the dequeued node was not dequeued before, its children are new, and the queue discipline (level order, parent dequeued, every node not yet dequeued lies below a queued one) is kept |
| LevelOrder.OrderStep | algorithms/treeTraversal/bfs.ts:41-69 | after a turn, dequeued and queued nodes together still increase in level order |
| LevelOrder.TraceStep | algorithms/treeTraversal/bfs.ts:43-80 | the trace grows by exactly the visit block of the dequeued node |
| GraphHelpers.CloneGraph | algorithms/graphHelpers.ts:4-7 | the snapshot has node and edge lists of the same lengths with field-equal entries |
| GraphHelpers.NodeCount | algorithms/dijkstra/index.ts:7 | the node count lies in 3..10 and equals the input length when that is already in range |
| GraphHelpers.ChordTries | algorithms/graphHelpers.ts:48 | at least two chords are attempted, and at most about two thirds of the node count plus two |
| GraphHelpers.Scaled | algorithms/graphHelpers.ts:50 | a draw in [0, 1) times k lies in [0, k], strictly below k when k > 0 |
| GraphHelpers.Pick | algorithms/graphHelpers.ts:50-54 | `Math.floor(Math.random() * k)` is a valid index below k |
| GraphHelpers.Weight | algorithms/graphHelpers.ts:36 | every drawn weight is an integer in 1..9 |
| GraphHelpers.Label | algorithms/graphHelpers.ts:24 | node i below 26 is labelled by one capital letter |
| GraphHelpers.Keys | algorithms/dijkstra/index.ts:92-94 | the key list has one entry per node, holding that node's distance |
| GraphHelpers.KeysRepaint | algorithms/dijkstra/index.ts:58 | recolouring a node changes no distance |
| GraphHelpers.Other | algorithms/dijkstra/index.ts:73 | the far end of an edge touching u is joined to u by that edge |
| GraphHelpers.FindEdge | algorithms/graphHelpers.ts:58-61 | `edges.find` returns the first edge joining the two nodes in either direction, and none exactly when no edge does |
| GraphHelpers.Incident | algorithms/dijkstra/index.ts:71 | `edges.filter` keeps exactly the edges touching u, in list order |
| GraphHelpers.IncidentSameEnds | algorithms/graph/bfs.ts:60-61 | the incident edges depend only on the edges' ends, not on their colours |
| GraphHelpers.GenerateRandomGraph | algorithms/graphHelpers.ts:9-75 | exactly n nodes `node-i`, labelled 'A'+i, at distance Infinity and DEFAULT; the ring edges i -> (i+1) mod n first, then chords joining two different nodes that no earlier edge joins; weights 1..9; between n and n + ChordTries(n) edges; never more draws than supplied |
| GraphHelpers.MakeNodes | algorithms/graphHelpers.ts:13-30 | the nodes are `node-0` .. `node-(n-1)`, fresh |
| GraphHelpers.MakeRing | algorithms/graphHelpers.ts:32-45 | exactly n ring edges i -> (i+1) mod n with weights in 1..9 |
| GraphHelpers.TryChord | algorithms/graphHelpers.ts:49-71 | one attempt uses between 1 and 13 draws and either adds nothing or appends one well-formed chord |
| GraphHelpers.Redraw | algorithms/graphHelpers.ts:52-56 | the retry loop runs at most ten times and leaves v a node index |
| GraphHelpers.AddChord | algorithms/graphHelpers.ts:58-71 | a chord between two different nodes that no edge joins yet keeps the edge list well formed |
| GraphHelpers.GeneratedShape | algorithms/graphHelpers.ts:22-44 | in a generated graph node i has id i and every edge names two of its nodes |
| GraphHelpers.GeneratedSimple | algorithms/graphHelpers.ts:33-71 | with at least three nodes there is no self-loop and no two edges join the same pair |
| GraphHelpers.RingDistinct | algorithms/graphHelpers.ts:33-45 | two ring edges of a ring of at least three nodes join different pairs |
| GraphHelpers.RingCovers | algorithms/graphHelpers.ts:33-45 | every node is reachable from `node-0`: a node set holding node 0 that no edge leaves holds every node |
| StableSort.SortBy | algorithms/graph/kruskal.ts:56 | `sort` by a numeric key keeps the length |
| StableSort.SortByPermutes | algorithms/graph/kruskal.ts:56 | the sorted list is a permutation of the input, ordered by key |
| StableSort.FirstMin | algorithms/dijkstra/index.ts:43-55 | the position of the first entry with the smallest key: no entry has a smaller key and every earlier entry a larger one |
| StableSort.SortByHead | algorithms/dijkstra/index.ts:43-55 | `pq.sort` then `pq.shift()` takes the earliest entry of smallest distance (the sort is stable) |
| StableSort.SortByLex | algorithms/graph/kruskal.ts:56 | sorting the edge positions by weight leaves equal weights in list order |
| Connectivity.WalkKeepsLabel | algorithms/graph/kruskal.ts:84-88 | a labelling that agrees on the ends of every accepted edge agrees on both ends of every walk over them |
| Connectivity.ConnectedSameLabel | algorithms/graph/kruskal.ts:84-88 | nodes joined by accepted edges carry the same label (the same disjoint-set root) |
| Distinctness.Pigeon | algorithms/graph/bfs.ts:67-70 | the visited nodes, never repeated, number at most the node count, which bounds every search |
| SearchTree.TreeExtend | algorithms/graph/bfs.ts:67-72 | a node newly reached from a visited node along an edge extends the discovery tree |
| SearchTree.TreeDistinct | algorithms/graph/bfs.ts:72 | no edge is marked as a discovering edge twice |
| SearchTree.SearchClosed | algorithms/graph/bfs.ts:60-84 | once every visited node has had its neighbours examined, no edge leaves the visited set |
| SearchTree.Repaint | algorithms/graph/dfs.ts:60 | every node takes the given status and keeps its other fields |
| SearchTree.MarkTree | algorithms/graph/bfs.ts:72 | the discovering edges are SORTED and every other edge DEFAULT, each keeping its ends and weight |
| SearchTree.MarkEdge | algorithms/graph/dfs.ts:43 | marking a new discovering edge SORTED keeps "SORTED exactly on the tree" |
| SearchTree.FoundVia | algorithms/graph/prim.ts:69-72 | in a simple graph `edges.find` for a tree link returns that very edge, whatever the colours |
| SearchTree.Spans | algorithms/graph/bfs.ts:46-87 | a search from `node-0` of a generated graph visits all n nodes along n - 1 distinct discovering edges |
| Paths.NoShorter | algorithms/dijkstra/index.ts:92-95 | with every edge relaxed, no walk from a node reaches another more cheaply than their distances differ |
| Paths.WalkAppend | algorithms/dijkstra/index.ts:92 | extending a walk by an edge at its end adds the edge's weight |
| Paths.Rehang | algorithms/dijkstra/index.ts:94-96 | lowering v's distance through its parent p keeps a shortest-path tree (`parentMap.set`) |
| Paths.TreePath | algorithms/dijkstra/index.ts:96 | following the parents from v leads back to the source along a walk whose weight is v's distance |
| Paths.Shortest | algorithms/dijkstra/index.ts:42-131 | relaxed distances carried by a parent tree: no walk from the source is lighter, and the tree path attains the distance |
| Paths.AllShortest | algorithms/dijkstra/index.ts:42-131 | the distances are exactly the shortest-path distances from the source |
| Dijkstra.FindEntry | algorithms/dijkstra/index.ts:98 | `pq.find` returns the first entry for the node, and none exactly when the frontier holds no entry for it |
| Dijkstra.FrontierSorted | algorithms/dijkstra/index.ts:43 | sorting rearranges the frontier, which still holds exactly one entry per unvisited node of finite distance |
| Dijkstra.FrontierShift | algorithms/dijkstra/index.ts:55-59 | removing the first entry, whose node becomes visited, leaves such a frontier |
| Dijkstra.Picked | algorithms/dijkstra/index.ts:43-59 | the nearest frontier entry names an unvisited node of finite distance, no farther than any unvisited node and no nearer than any visited one |
| Dijkstra.Extract | algorithms/dijkstra/index.ts:43-69 | the extracted node is the earliest of the nearest entries (stable sort, then shift); it turns ACTIVE and visited; snapshots at lines 16 and 19 |
| Dijkstra.LowerFrontier | algorithms/dijkstra/index.ts:98-103 | updating the entry in place, or pushing one when there is none, keeps one entry per unvisited node of finite distance, with that distance |
| Dijkstra.LowerParents | algorithms/dijkstra/index.ts:95-96 | `parentMap.set(v, u)` keeps a shortest-path tree over the visited nodes; a new key goes last, an existing key keeps its place |
| Dijkstra.Compare | algorithms/dijkstra/index.ts:79-117 | when u's distance plus the weight is not strictly below v's, only a COMPARING snapshot is added; otherwise v's distance, the frontier, the parent map and the trace change as `Lower` states; no node is extracted |
| Dijkstra.Lower | algorithms/dijkstra/index.ts:95-113 | v's distance becomes d, its parent u, the frontier is requeued and a line-29 snapshot follows |
| Dijkstra.Check | algorithms/dijkstra/index.ts:74-77 | an edge whose far end is visited changes nothing; any other keeps the invariant and counts as relaxed |
| Dijkstra.Relax | algorithms/dijkstra/index.ts:71-118 | after the loop over `edges.filter(...)` every edge of u is relaxed and the invariant holds |
| Dijkstra.Leave | algorithms/dijkstra/index.ts:120 | u turning VISITED restores the invariant between extractions |
| Dijkstra.Round | algorithms/dijkstra/index.ts:42-130 | one pass visits exactly one new node, adds one line-19 snapshot and keeps the invariant |
| Dijkstra.Start | algorithms/dijkstra/index.ts:12-18 | `node-0` at distance 0, ACTIVE and alone on the frontier satisfies the invariant |
| Dijkstra.Drained | algorithms/dijkstra/index.ts:42 | when the frontier empties every node of the generated graph has been visited |
| Dijkstra.Across | algorithms/dijkstra/index.ts:42 | with an empty frontier no edge leads from a visited node to an unvisited one |
| Dijkstra.RunDijkstra | algorithms/dijkstra/index.ts:8-131 | the run starts on a line-11 snapshot, ends with an empty frontier and every node visited, and takes one line-19 snapshot per extraction |
| Dijkstra.AllRelaxed | algorithms/dijkstra/index.ts:71-118 | once every node is visited every edge is relaxed |
| Dijkstra.MarkChild | algorithms/dijkstra/index.ts:134-142 | for a parent-map entry the edge `edges.find` returns is the tree edge, which turns SORTED, and so does the child |
| Dijkstra.Highlight | algorithms/dijkstra/index.ts:133-144 | exactly the parent-map edges are SORTED; the children and `node-0` turn SORTED |
| Dijkstra.Hanging | algorithms/dijkstra/index.ts:96 | every key of the parent map hangs from its parent through a tree edge |
| Dijkstra.Spanning | algorithms/dijkstra/index.ts:134-143 | the marked edges are n - 1 distinct edges, one per node other than `node-0` |
| Dijkstra.Finished | algorithms/dijkstra/index.ts:133-154 | the final nodes are all SORTED with finite distances, the shortest-path distances from `node-0`, and the parent map is a shortest-path tree |
| Dijkstra.GenerateDijkstraSteps | algorithms/dijkstra/index.ts:6-155 | on a generated graph: one line-19 snapshot per node; the final distances are the shortest-path distances from `node-0`, all finite; the last snapshot (line 33) shows every node SORTED and exactly the n - 1 distinct parent edges SORTED |
| GraphBfs.Ends | algorithms/graph/bfs.ts:62-65 | the neighbour of each listed edge is its far end from the current node |
| GraphBfs.Discover | algorithms/graph/bfs.ts:67-70 | the edges along which one dequeue enqueues: each touches the node, their far ends are distinct and none was seen before |
| GraphBfs.DiscoverCovers | algorithms/graph/bfs.ts:67-70 | no neighbour is missed: each far end was seen before or is enqueued |
| GraphBfs.DiscoverNext | algorithms/graph/bfs.ts:67-72 | one more scanned edge is a discovering edge exactly when its far end is new |
| GraphBfs.ExtendTree | algorithms/graph/bfs.ts:67-72 | each enqueued node hangs off the dequeued node by its discovering edge |
| GraphBfs.ExploreHead | algorithms/graph/bfs.ts:60-84 | after its turn every edge of the dequeued node leads into the order |
| GraphBfs.SearchStep | algorithms/graph/bfs.ts:46-87 | one turn of the `while` keeps the search invariant |
| GraphBfs.BfsStep | algorithms/graph/bfs.ts:46-87 | one turn appends the newly discovered neighbours and the rest of the search continues from there |
| GraphBfs.BfsGrows | algorithms/graph/bfs.ts:70 | the search only appends to the visiting order |
| GraphBfs.BfsOrderOk | algorithms/graph/bfs.ts:68-70 | the order stays repetition-free and within the n nodes |
| GraphBfs.BfsKeeps | algorithms/graph/bfs.ts:46-87 | the search invariant holds when the queue empties |
| GraphBfs.BfsSpans | algorithms/graph/bfs.ts:26-98 | on a generated graph the search from `node-0` visits all n nodes once each along n - 1 distinct discovering edges |
| GraphBfs.AllVisited | algorithms/graph/bfs.ts:86 | once every node has been dequeued, every node is VISITED |
| GraphBfs.Activate | algorithms/graph/bfs.ts:47-48 | the dequeued node turns ACTIVE |
| GraphBfs.Finish | algorithms/graph/bfs.ts:86 | the dequeued node turns VISITED at the end of its turn |
| GraphBfs.Enqueue | algorithms/graph/bfs.ts:68-71 | an enqueued node turns COMPARING |
| GraphBfs.RunBfs | algorithms/graph/bfs.ts:29-87 | the loop follows the breadth-first search from `node-0` to the empty queue; one line-10 step per dequeue and one line-15 step per enqueue |
| GraphBfs.Dequeue | algorithms/graph/bfs.ts:46-87 | one turn dequeues the head, appends exactly the discovered neighbours to the queue and adds their discovering edges to the tree |
| GraphBfs.ScanNeighbours | algorithms/graph/bfs.ts:60-84 | the scan of the node's edges in list order enqueues exactly what `Discover` finds |
| GraphBfs.ScanEdge | algorithms/graph/bfs.ts:67-83 | an edge's far end is enqueued exactly when it is in neither the order nor the queue |
| GraphBfs.EnqueueNeighbour | algorithms/graph/bfs.ts:68-82 | the new node joins the queue and the visited set, its edge turns SORTED, and one line-15 step follows |
| GraphBfs.GenerateBfsSteps | algorithms/graph/bfs.ts:26-98 | on a generated graph: 2n + 1 steps, starting with `node-0` COMPARING (line 7); n dequeue steps and n - 1 enqueue steps; the last step (line 20) shows every node VISITED and exactly the n - 1 discovering edges SORTED |
| GraphDfs.Visit | algorithms/graph/dfs.ts:15-61 | `dfsRecursive` adds its node to the order and keeps the order repetition-free and within the n nodes |
| GraphDfs.Scan | algorithms/graph/dfs.ts:41-58 | the loop over the neighbours keeps the order repetition-free and only grows it |
| GraphDfs.VisitGrows | algorithms/graph/dfs.ts:15-61 | a call only appends: one discovering edge per node it adds after its own |
| GraphDfs.ScanGrows | algorithms/graph/dfs.ts:41-58 | the loop adds as many nodes as discovering edges |
| GraphDfs.VisitExplores | algorithms/graph/dfs.ts:15-61 | every node a call adds has all its edges leading into the order when the call returns |
| GraphDfs.ScanExplores | algorithms/graph/dfs.ts:41-58 | after the loop every scanned edge leads into the order |
| GraphDfs.VisitTree | algorithms/graph/dfs.ts:41-44 | each node a call adds hangs off an earlier one by its discovering edge |
| GraphDfs.ScanTree | algorithms/graph/dfs.ts:41-44 | the loop keeps the discovery tree linked |
| GraphDfs.DfsSpans | algorithms/graph/dfs.ts:63-90 | on a generated graph the search from `node-0` visits all n nodes once each along n - 1 distinct discovering edges |
| GraphDfs.PaintEnter | algorithms/graph/dfs.ts:21-22 | entering a node turns it ACTIVE and puts it on the recursion stack |
| GraphDfs.PaintLeave | algorithms/graph/dfs.ts:60 | leaving a node turns it VISITED and takes it off the stack |
| GraphDfs.PaintedShows | algorithms/graph/dfs.ts:24-32 | a snapshot shows every node on the recursion stack ACTIVE |
| GraphDfs.ShowsJoin | algorithms/graph/dfs.ts:44 | `yield*` of a nested call keeps the stack shown ACTIVE |
| GraphDfs.ShowsAppend | algorithms/graph/dfs.ts:48-56 | one more such snapshot keeps the stack shown ACTIVE |
| GraphDfs.DfsRecursive | algorithms/graph/dfs.ts:15-61 | the call follows `Visit`: one line-2 step per node reached, one line-8 step per discovering edge, its callers shown ACTIVE throughout, and its node left VISITED |
| GraphDfs.Neighbour | algorithms/graph/dfs.ts:41-58 | one pass skips a visited neighbour or descends into an unvisited one, as `Scan` does |
| GraphDfs.Descend | algorithms/graph/dfs.ts:42-44 | the edge turns SORTED and the nested search follows `Visit` from the far end |
| GraphDfs.Backtrack | algorithms/graph/dfs.ts:47-56 | the current node is shown ACTIVE again in one line-8 step; nothing else changes |
| GraphDfs.RunDfs | algorithms/graph/dfs.ts:66-79 | the search follows the depth-first search from `node-0`, with `node-0` ACTIVE in every snapshot after the start |
| GraphDfs.Finished | algorithms/graph/dfs.ts:60 | with the stack empty and every node reached, every node is VISITED |
| GraphDfs.GenerateDfsSteps | algorithms/graph/dfs.ts:63-90 | on a generated graph: 2n + 1 steps; the start (line 1) shows the fresh graph; n visit steps and n - 1 backtrack steps; the last step (line 9) shows every node VISITED and exactly the n - 1 discovering edges SORTED |
| Prim.InitKeys | algorithms/graph/prim.ts:31-32 | every key Infinity except `node-0`'s, which is 0; nothing else changes |
| Prim.MinKey | algorithms/graph/prim.ts:51-59 | no pick exactly when every node outside the MST has key Infinity; otherwise the first node outside the MST with the smallest finite key |
| Prim.ChosenUnique | algorithms/graph/prim.ts:54-58 | the strict `<` makes the pick unique: at most one node meets its description |
| Prim.StartPicks | algorithms/graph/prim.ts:31-59 | the first pick is `node-0` |
| Prim.PickKind | algorithms/graph/prim.ts:63-73 | after the first pick, the picked node has a parent in the MST, joined by an edge whose weight is its key |
| Prim.GreedyStep | algorithms/graph/prim.ts:49-73 | the joining edge weighs no more than any edge leaving the MST at that moment |
| Prim.JoinGrown | algorithms/graph/prim.ts:63-73 | the join order and the SORTED edges grow by the picked node and its edge, the tree staying linked and greedy |
| Prim.JoinKeys | algorithms/graph/prim.ts:63 | after the pick joins the MST, the keys still describe the parents, and the cut bound holds except at the new node's edges |
| Prim.SnapshotSorted | algorithms/graph/prim.ts:72 | a snapshot whose edges carry the tree statuses shows every tree edge SORTED |
| Prim.SortedAppend | algorithms/graph/prim.ts:75-83 | one more snapshot showing the tree SORTED extends the run of such snapshots |
| Prim.SortedJoin | algorithms/graph/prim.ts:75-114 | two runs of snapshots that show the tree SORTED, one after the other, form one |
| Prim.KeptGrow | algorithms/graph/prim.ts:72 | once SORTED, a tree edge stays SORTED in every later snapshot |
| Prim.Activate | algorithms/graph/prim.ts:64 | the picked node turns ACTIVE and joins the MST |
| Prim.Marked | algorithms/graph/prim.ts:72 | with the statuses the tree dictates every tree edge is SORTED |
| Prim.Join | algorithms/graph/prim.ts:63-83 | the pick joins the MST and turns ACTIVE; from the second pick on, exactly the edge to its parent turns SORTED; one line-13 snapshot |
| Prim.OffTree | algorithms/graph/prim.ts:91-92 | an edge from the MST to a node outside it is not a tree edge, so COMPARING never paints over SORTED |
| Prim.LowerKeyed | algorithms/graph/prim.ts:104-105 | lowering v's key through e makes u v's parent and e its key edge |
| Prim.LowerCut | algorithms/graph/prim.ts:103-105 | a strictly lighter edge lowers v's key to its weight; the cut bound then covers that edge too |
| Prim.KeepCut | algorithms/graph/prim.ts:103 | an edge that lowers nothing already meets the cut bound |
| Prim.TreeKeysKeep | algorithms/graph/prim.ts:104 | keys of nodes outside the MST do not affect the keys of tree nodes |
| Prim.LowerState | algorithms/graph/prim.ts:104 | lowering a key outside the MST changes exactly that key and no status |
| Prim.Check | algorithms/graph/prim.ts:87-117 | an edge to a node of the MST changes nothing; otherwise only a key outside the MST drops, strictly; tree edges stay SORTED |
| Prim.Compare | algorithms/graph/prim.ts:91-117 | the edge is shown COMPARING (line 16); when it is strictly lighter than v's key the key drops to its weight with u as parent (line 17); the edge list is unchanged afterwards |
| Prim.Lower | algorithms/graph/prim.ts:103-114 | v's key becomes the edge's weight, its parent u, and a line-17 snapshot follows |
| Prim.CutEnd | algorithms/graph/prim.ts:86-118 | once every edge of u is relaxed, every edge leaving the MST weighs at least its outside end's key |
| Prim.Relax | algorithms/graph/prim.ts:86-118 | after u's edges, in list order, the cut bound holds for the grown MST; only keys outside the MST changed, each strictly downwards |
| Prim.Leave | algorithms/graph/prim.ts:120 | u turning VISITED restores the invariant between picks |
| Prim.Start | algorithms/graph/prim.ts:30-47 | the initial keys satisfy the invariant with an empty MST |
| Prim.NoPick | algorithms/graph/prim.ts:61 | when no node outside the MST has a finite key, the MST is not empty and no edge leaves it |
| Prim.Round | algorithms/graph/prim.ts:49-121 | one round adds the pick to the MST and the join order, adds one line-13 snapshot and keeps the invariant |
| Prim.RunPrim | algorithms/graph/prim.ts:31-121 | a greedy tree grown from `node-0`: either all n nodes joined or no edge leaves the MST; every node VISITED or DEFAULT as the MST dictates; exactly the tree edges SORTED |
| Prim.Spanned | algorithms/graph/prim.ts:49-121 | on a generated graph the tree reaches every node along n - 1 distinct edges |
| Prim.GeneratePrimSteps | algorithms/graph/prim.ts:26-132 | on a generated graph: all n nodes join, `node-0` first, along n - 1 distinct edges, each the lightest leaving the tree of its time; a tree edge stays SORTED in every snapshot from the one where it joined; the last snapshot (line 19) shows every node VISITED |
| Kruskal.Root | algorithms/graph/kruskal.ts:36-39 | following parent links from x ends at a root, a key that is its own parent |
| Kruskal.RootAnyLevel | algorithms/graph/kruskal.ts:36-39 | the root found does not depend on the ranking that proves the links lead down |
| Kruskal.LinkRoot | algorithms/graph/kruskal.ts:43-44 | `parent[root1] = root2` keeps a forest; exactly the nodes of root1's set now have root root2 |
| Kruskal.LinkForest | algorithms/graph/kruskal.ts:44 | linking two different roots keeps a forest |
| Kruskal.LinkRoots | algorithms/graph/kruskal.ts:44 | linking two different roots removes exactly one root |
| Kruskal.DisjointSet.constructor | algorithms/graph/kruskal.ts:33-35 | every node is its own set; for numbered nodes the keys are exactly 0 .. n-1 |
| Kruskal.DisjointSet.Find | algorithms/graph/kruskal.ts:36-39 | `find` returns the root of x's set |
| Kruskal.DisjointSet.Union | algorithms/graph/kruskal.ts:40-48 | returns true exactly when the two roots differ, and then links the first root under the second; otherwise nothing changes |
| Kruskal.DisjointSet.Link | algorithms/graph/kruskal.ts:44 | the first root's parent becomes the second root and nothing else changes |
| Kruskal.Order | algorithms/graph/kruskal.ts:56 | the examination order lists positions of the edge list |
| Kruskal.OrderFacts | algorithms/graph/kruskal.ts:56 | edges are examined by weight, equal weights in list order, each edge exactly once |
| Kruskal.OrderCovers | algorithms/graph/kruskal.ts:56 | every edge has a place in the examination order |
| Kruskal.Marked | algorithms/graph/kruskal.ts:89-101 | the edge statuses after m examinations keep the edge count |
| Kruskal.MarkedEnds | algorithms/graph/kruskal.ts:89-101 | marking statuses changes no edge's ends or weight |
| Kruskal.TracksConnected | algorithms/graph/kruskal.ts:84-87 | two nodes are connected by the accepted edges exactly when `find` gives them the same root |
| Kruskal.TracksStart | algorithms/graph/kruskal.ts:57 | the fresh structure tracks the empty set of accepted edges |
| Kruskal.Bridge | algorithms/graph/kruskal.ts:87-89 | an accepted edge connects the two roots it merges |
| Kruskal.TracksLink | algorithms/graph/kruskal.ts:87-90 | accepting an edge between two sets and linking their roots keeps the sets equal to the components |
| Kruskal.LinkKeepsTogether | algorithms/graph/kruskal.ts:44 | nodes in one set stay in one set after a link |
| Kruskal.KeepInside | algorithms/graph/kruskal.ts:88 | every edge examined earlier stays inside one set after a link |
| Kruskal.AllOneRoot | algorithms/graph/kruskal.ts:36-48 | when every node shares `node-0`'s root, one set is left |
| Kruskal.OneSet | algorithms/graph/kruskal.ts:70-112 | with one set left every node is connected to `node-0` and n - 1 edges were accepted |
| Kruskal.ExamineStep | algorithms/graph/kruskal.ts:84-111 | examining the k-th edge appends it to the accepted edges exactly when its ends are unconnected, and marks it SORTED or VISITED accordingly |
| Kruskal.RejectKeeps | algorithms/graph/kruskal.ts:100-101 | an edge with both ends in one set is rejected and the sets stay as they were |
| Kruskal.KeptStart | algorithms/graph/kruskal.ts:57-69 | before any edge is examined the state invariant holds |
| Kruskal.ExtendShort | algorithms/graph/kruskal.ts:71 | the loop had accepted fewer than n - 1 edges before each examined edge |
| Kruskal.ExtendShown | algorithms/graph/kruskal.ts:73-111 | each examination appends its COMPARING and verdict steps, keeping the earlier ones |
| Kruskal.KeepShown | algorithms/graph/kruskal.ts:70-112 | later examinations only append steps |
| Kruskal.Finish | algorithms/graph/kruskal.ts:70-112 | whether the loop breaks at n - 1 accepted edges or runs out of edges, the accepted edges connect every node and number n - 1 |
| Kruskal.ExamineEdge | algorithms/graph/kruskal.ts:70-111 | one turn shows the edge COMPARING (line 15), then accepts it (line 19) or rejects it (line 18), keeping the union-find sets equal to the components of the accepted edges |
| Kruskal.AcceptEdge | algorithms/graph/kruskal.ts:87-99 | an edge between two sets is accepted, the sets are united, the edge turns SORTED and the count grows by one |
| Kruskal.Advance | algorithms/graph/kruskal.ts:70-112 | one turn of the loop, taken while fewer than n - 1 edges are accepted: the next edge of the order is examined, the union-find structure keeps tracking the accepted edges, and two more snapshots show the examination |
| Kruskal.RunKruskal | algorithms/graph/kruskal.ts:59-112 | the loop runs until n - 1 edges are accepted or every edge is examined, two steps per examined edge |
| Kruskal.GenerateKruskalSteps | algorithms/graph/kruskal.ts:51-123 | on a generated graph: the first step (line 6) shows the fresh graph; two steps per examined edge; the last (line 24); the accepted edges are the greedy choice, n - 1 of them, and connect every node |
| Registry.Find | algorithms/index.ts:40-42 | `find` returns the first entry with the id, and none exactly when no entry has it |
| Registry.GetAlgorithmById | algorithms/index.ts:40-42 | a found entry is in the table with the requested id; none exactly when no entry has the id |
| Registry.TableShape | algorithms/index.ts:19-38 | fifteen entries: five sorting, five tree and five graph algorithms, each of the family its simulator belongs to |
| Registry.DistinctIds | algorithms/index.ts:19-38 | no two entries share an id |
| Registry.LookupFindsEntry | algorithms/index.ts:40-42 | looking up an entry's own id returns that entry |
| Registry.GenerateSortingSteps | types.ts:69-76 | a sorting definition's run yields at least one step and, on two or more bars, ends on the sorted, all-SORTED array |
| Registry.GenerateTreeSteps | types.ts:69-76 | a tree definition's run yields at least one step |
| Registry.GenerateGraphSteps | types.ts:69-76 | a graph definition's run starts with a snapshot of its generated graph |
| Registry.GenerateSteps | types.ts:69-76 | every simulator yields at least one step; a sorting run on two or more bars ends on the sorted, all-SORTED array; a graph run starts with a snapshot of its graph |

## Left out

- Narration: the `description` strings of every snapshot, and each definition's `description` and `code` text, are not modelled. The code line of each snapshot is.
- Bar labels: the `label` text of bars is carried through but never stated about. Graph node coordinates (`x`, `y`: trigonometry on floats) are not modelled. Tree coordinates are modelled as reals with the layout constants.
- `Math.random` is not modelled as a source of randomness. The graph generator takes the caller's draws, a sequence of reals in [0, 1), and its callers require enough of them (`DrawsNeeded`: one weight per ring edge and thirteen draws per chord attempt).
- GraphHelpers.Label: `String.fromCharCode(65 + i)` is stated only for i below 26. A node count is at most 10, so every label the simulators produce is covered.
- GraphHelpers.ChordTries: `Math.floor(nodeCount / 1.5)` is written as the integer quotient `(2 * n) / 3`. The two agree for every node count from 0 to 10, which covers all the simulators use.
- Graph ids: node `node-i` is the number i and an edge is its position in the edge list. The edge `id` string is not modelled, because it is determined by the edge's ends.
- BinarySearchTree.InsertValue: requires the tree it is given to carry no highlights. `generateBSTSteps` resets the tree after every insertion, so this holds at every call the source makes.
- The local `cloneTree` and `resetTreeStatus` in algorithms/binarySearchTree/index.ts:8-23 are the same functions as those in algorithms/treeHelpers.ts. They are modelled once, as TreeHelpers.CloneTree and TreeHelpers.ResetTreeStatus.
- SelectionSort.GenerateSelectionSortSteps: requires at least one bar. On an empty array the source writes `array[n - 1].status` with n = 0, which throws; the model does not reproduce the exception.
- Dijkstra: the frontier bars (`updatePQDisplay`) are not modelled. Every Dijkstra snapshot is modelled with an empty bar list. The frontier itself is modelled as the list of (node, distance) entries.
- Dijkstra.Compare: requires the current node's distance to be finite. Every node taken off the frontier has a finite distance, so this is what the loop guarantees.
- Dijkstra, BFS, DFS, Prim, Kruskal: the step traces are stated for the graphs `generateRandomGraph` produces (`Generated`), the only graphs these simulators ever see. Prim.RunPrim and Dijkstra's highlighting require a simple graph, which GraphHelpers.GeneratedSimple proves of every generated graph.
- Prim.GeneratePrimSteps, Kruskal.GenerateKruskalSteps: the trees are proved spanning and greedy, but not of minimum total weight. Prim's contract states the cut property of each tree edge at its time. Kruskal's states that its edges are the greedy choice over the weight order.
- Kruskal.DisjointSet: ids are modelled as numbers. The facts that tie the union-find sets to the accepted edges are stated for the numbered nodes `0 .. n-1` of a generated graph.
- The COMPARING marks are removed within the same pass. Dijkstra puts one on an edge and on its far end; Prim puts one on the edge only. The model states these marks in the snapshots, not in the final state.
- LevelOrder.GenerateLevelOrderSteps: each visit and enqueue snapshot is stated to show exactly the ACTIVE node and the VISITED ones (`LevelOrderSpec.Shows`). The COMPARING colour of the nodes waiting in the queue is proved inside the loop (`Colours` in `Walking`), but it is not carried into the finished trace.
- Registry.GenerateSteps: states only what every simulator of a family shares. Each simulator's own contract (for example Dijkstra.GenerateDijkstraSteps) is the full statement.
- Bar and tree-node values (`number` in types.ts:17 and types.ts:26) are modelled as `int`. The simulators only compare values, so every contract carries over to finite numbers with the same order. NaN is not modelled: every comparison with NaN is false, so a source run on NaN values need not end sorted.
- The types of types.ts are modelled as datatypes (module `Types`). Their members are fields, with no contracts of their own. The optional `highlight` flag of a tree node (types.ts:32) has no counterpart: no simulator sets or reads it.
- `services/`, `components/` and `constants.ts` beyond the layout constants are not part of this model: the UI, playback and chat are outside the step engine.
