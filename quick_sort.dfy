/**
 * Quick sort with Lomuto partitioning over one shared working array: the
 * last value of a range is the pivot, smaller values are swapped to the
 * front, and the pivot is swapped into the slot after them and marked
 * SORTED. There is no start step.
 *
 * Every generator appends its yields to the trace so far, so `yield*` (and
 * the manual re-yield loop around `partition`) is concatenation.
 */
module QuickSort {
  import opened Types
  import opened Definitions
  import opened SortingSpec

  /**
   * What one snapshot shows: the input ids at their indices and a
   * rearrangement of the input values; a comparison (line 6) names j and the
   * pivot slot, j COMPARING and the pivot ACTIVE; a swap (line 8) names i <= j,
   * both SWAPPING; the pivot placement (line 11) names p <= high and reports p,
   * which is SORTED.
   */
  ghost predicate StepOk(st: Step, input: seq<Bar>)
  {
    && Ids(st.bars) == Ids(input) && multiset(Values(st.bars)) == multiset(Values(input))
    && (st.codeLine == Some(6) ==>
          && |st.comparedIndices| == 2
          && st.comparedIndices[0] < st.comparedIndices[1] < |st.bars|
          && st.bars[st.comparedIndices[0]].status == Comparing
          && st.bars[st.comparedIndices[1]].status == Active)
    && (st.codeLine == Some(8) ==>
          && |st.swappedIndices| == 2
          && st.swappedIndices[0] <= st.swappedIndices[1] < |st.bars|
          && st.bars[st.swappedIndices[0]].status == Swapping
          && st.bars[st.swappedIndices[1]].status == Swapping)
    && (st.codeLine == Some(11) ==>
          && |st.swappedIndices| == 2 && st.sortedIndices == [st.swappedIndices[0]]
          && st.swappedIndices[0] <= st.swappedIndices[1] < |st.bars|
          && st.bars[st.swappedIndices[0]].status == Sorted)
  }

  ghost predicate QuickTrace(steps: seq<Step>, input: seq<Bar>)
  {
    forall k :: 0 <= k < |steps| ==> StepOk(steps[k], input)
  }

  /**
   * The trace so far is a quick sort trace, and the working array, seen
   * through its values `v` and ids `ids`, holds the input ids and a
   * rearrangement of the input values.
   */
  ghost predicate Tracking(steps: seq<Step>, v: seq<int>, ids: seq<string>, input: seq<Bar>)
  {
    && ids == Ids(input) && multiset(v) == multiset(Values(input))
    && QuickTrace(steps, input)
  }

  lemma AppendStep(steps: seq<Step>, v: seq<int>, ids: seq<string>, st: Step, input: seq<Bar>)
    requires Tracking(steps, v, ids, input) && StepOk(st, input)
    ensures Tracking(steps + [st], Values(st.bars), Ids(st.bars), input)
  {
    var t := steps + [st];
    forall k | 0 <= k < |t|
      ensures StepOk(t[k], input)
    {
      if k < |steps| {
        assert t[k] == steps[k];
      }
    }
  }

  /**
   * The state of the partition loop of [low..high] before index j: the pivot
   * still sits at high, [low..i] holds values below it, (i..j) values at or
   * above it, and nothing outside [low..high] has moved since `v0`.
   */
  ghost predicate Split(v: seq<int>, v0: seq<int>, low: int, high: int, i: int, j: int, pivot: int)
  {
    && 0 <= low <= j <= high < |v| && low - 1 <= i < j
    && v[high] == pivot
    && (forall k :: low <= k <= i ==> v[k] < pivot)
    && (forall k :: i < k < j ==> pivot <= v[k])
    && Unchanged(v, v0, low, high)
  }

  /** A value below the pivot is swapped to i+1, just after the smaller values. */
  lemma SplitLess(v: seq<int>, v0: seq<int>, low: int, high: int, i: int, j: int, pivot: int)
    requires Split(v, v0, low, high, i, j, pivot) && j < high && v[j] < pivot
    ensures Split(v[i + 1 := v[j]][j := v[i + 1]], v0, low, high, i + 1, j + 1, pivot)
    ensures multiset(v[i + 1 := v[j]][j := v[i + 1]]) == multiset(v)
  {
  }

  /** A value at or above the pivot stays where it is. */
  lemma SplitAtLeast(v: seq<int>, v0: seq<int>, low: int, high: int, i: int, j: int, pivot: int)
    requires Split(v, v0, low, high, i, j, pivot) && j < high && pivot <= v[j]
    ensures Split(v, v0, low, high, i, j + 1, pivot)
  {
  }

  /** Partitioned around p: below the pivot before p, the pivot at p, at or above it after p. */
  ghost predicate PartitionedAt(v: seq<int>, low: int, p: int, high: int)
  {
    && 0 <= low <= p <= high < |v|
    && (forall k :: low <= k < p ==> v[k] < v[p])
    && (forall k :: p < k <= high ==> v[p] <= v[k])
  }

  /** Swapping the pivot into i+1 after the scan leaves [low..high] partitioned at i+1. */
  lemma SplitDone(v: seq<int>, v0: seq<int>, low: int, high: int, i: int, pivot: int)
    requires Split(v, v0, low, high, i, high, pivot)
    ensures PartitionedAt(v[i + 1 := v[high]][high := v[i + 1]], low, i + 1, high)
    ensures v[i + 1 := v[high]][high := v[i + 1]][i + 1] == pivot
    ensures Unchanged(v[i + 1 := v[high]][high := v[i + 1]], v0, low, high)
    ensures multiset(v[i + 1 := v[high]][high := v[i + 1]]) == multiset(v)
  {
  }

  /** The partition loop state together with the trace; the pivot slot stays ACTIVE. */
  ghost predicate Partitioning(steps: seq<Step>, bars: seq<Bar>, v0: seq<int>, input: seq<Bar>,
                               low: int, high: int, i: int, j: int, pivot: int)
  {
    && Tracking(steps, Values(bars), Ids(bars), input)
    && Split(Values(bars), v0, low, high, i, j, pivot)
    && bars[high].status == Active
  }

  /**
   * One iteration of the `for (let j = low; j < high; j++)` loop: mark j
   * COMPARING and yield; if its value is below the pivot advance i, swap the
   * values at i and j, yield the swap and recolour (i LEFT_HALF, j DEFAULT
   * unless i = j); otherwise colour j RIGHT_HALF.
   */
  method PartitionRound(a: array<Bar>, low: nat, high: nat, i: int, j: nat, pivot: int, ghost v0: seq<int>,
                        ghost input: seq<Bar>, steps0: seq<Step>)
    returns (steps: seq<Step>, i': int)
    requires j < high && Partitioning(steps0, a[..], v0, input, low, high, i, j, pivot)
    modifies a
    ensures |steps| > |steps0| && i' == if old(a[j].value) < pivot then i + 1 else i
    ensures Partitioning(steps, a[..], v0, input, low, high, i', j + 1, pivot)
  {
    SetStatus(a, j, Comparing);
    var compare := ArrayStep(a[..], [j, high], [], [], 6);
    assert StepOk(compare, input);
    AppendStep(steps0, Values(a[..]), Ids(a[..]), compare, input);
    steps := steps0 + [compare];
    i' := i;
    if a[j].value < pivot {
      i' := i + 1;
      SplitLess(Values(a[..]), v0, low, high, i, j, pivot);
      SwapValues(a, i', j);
      SetStatus(a, i', Swapping);
      SetStatus(a, j, Swapping);
      var swap := ArrayStep(a[..], [], [i', j], [], 8);
      assert StepOk(swap, input);
      AppendStep(steps, Values(a[..]), Ids(a[..]), swap, input);
      steps := steps + [swap];
      SetStatus(a, i', LeftHalf);
      if i' != j {
        SetStatus(a, j, Default);
      }
    } else {
      SplitAtLeast(Values(a[..]), v0, low, high, i, j, pivot);
      SetStatus(a, j, RightHalf);
    }
  }

  lemma PlacedStepOk(bars: seq<Bar>, p: nat, high: nat, input: seq<Bar>)
    requires p <= high < |bars| && bars[p].status == Sorted
    requires Ids(bars) == Ids(input) && multiset(Values(bars)) == multiset(Values(input))
    ensures StepOk(ArrayStep(bars, [], [p, high], [p], 11), input)
  {
  }

  /** The closing swap of `partition`: the pivot into i+1, which turns SORTED, and the placement step. */
  method PlacePivot(a: array<Bar>, low: nat, high: nat, i: int, pivot: int, ghost v0: seq<int>,
                    ghost input: seq<Bar>, steps0: seq<Step>)
    returns (steps: seq<Step>, p: nat)
    requires Partitioning(steps0, a[..], v0, input, low, high, i, high, pivot)
    modifies a
    ensures p == i + 1 && |steps| == |steps0| + 1
    ensures Tracking(steps, Values(a[..]), Ids(a[..]), input)
    ensures PartitionedAt(Values(a[..]), low, p, high) && Values(a[..])[p] == pivot
    ensures Unchanged(Values(a[..]), v0, low, high) && a[p].status == Sorted
    ensures steps[|steps| - 1].sortedIndices == [p]
  {
    p := i + 1;
    ghost var v := Values(a[..]);
    SplitDone(v, v0, low, high, i, pivot);
    assert a[p].value == v[p] && a[high].value == v[high];
    SwapValues(a, p, high);
    SetStatus(a, high, Default);
    SetStatus(a, p, Sorted);
    var placed := ArrayStep(a[..], [], [p, high], [p], 11);
    PlacedStepOk(a[..], p, high, input);
    AppendStep(steps0, Values(a[..]), Ids(a[..]), placed, input);
    steps := steps0 + [placed];
  }

  /**
   * `partition(array, low, high)`: the pivot is the value at high, marked
   * ACTIVE (yield); the scan moves the values below it to the front; the
   * pivot lands at p = i+1, low <= p <= high, which is marked SORTED and
   * reported. Values move only within [low..high].
   */
  method Partition(a: array<Bar>, low: nat, high: nat, ghost input: seq<Bar>, steps0: seq<Step>)
    returns (steps: seq<Step>, p: nat)
    requires low <= high < a.Length && Tracking(steps0, Values(a[..]), Ids(a[..]), input)
    modifies a
    ensures low <= p <= high && |steps| > |steps0|
    ensures Tracking(steps, Values(a[..]), Ids(a[..]), input)
    ensures PartitionedAt(Values(a[..]), low, p, high) && Values(a[..])[p] == old(a[high].value)
    ensures Unchanged(Values(a[..]), old(Values(a[..])), low, high)
    ensures a[p].status == Sorted && steps[|steps| - 1].sortedIndices == [p]
  {
    ghost var v0 := Values(a[..]);
    var pivot := a[high].value;
    SetStatus(a, high, Active);
    var first := ArrayStep(a[..], [], [], [], 2);
    assert StepOk(first, input);
    AppendStep(steps0, Values(a[..]), Ids(a[..]), first, input);
    steps := steps0 + [first];
    var i: int := low - 1;
    var j := low;
    while j < high
      invariant j <= high && |steps| > |steps0|
      invariant Partitioning(steps, a[..], v0, input, low, high, i, j, pivot)
    {
      steps, i := PartitionRound(a, low, high, i, j, pivot, v0, input, steps);
      j := j + 1;
    }
    steps, p := PlacePivot(a, low, high, i, pivot, v0, input, steps);
  }

  /** Two sorted sides of a partition, below and above the pivot, make one sorted range. */
  lemma SidesJoin(v: seq<int>, low: int, p: int, high: int)
    requires PartitionedAt(v, low, p, high)
    requires NonDecreasingOn(v, low, p) && NonDecreasingOn(v, p + 1, high + 1)
    ensures NonDecreasingOn(v, low, high + 1)
  {
  }

  /**
   * Sorting one side of a partition (a rearrangement of that side, nothing
   * else moving) keeps the range partitioned at p.
   */
  lemma SideSorted(v: seq<int>, w: seq<int>, low: int, p: int, high: int, lo: int, hi: int)
    requires PartitionedAt(v, low, p, high)
    requires (lo == low && hi == p - 1) || (lo == p + 1 && hi == high)
    requires multiset(w) == multiset(v) && Unchanged(w, v, lo, hi)
    ensures PartitionedAt(w, low, p, high)
  {
    SegmentPermutes(v, w, lo, hi);
    forall k | lo <= k <= hi
      ensures if k < p then w[k] < w[p] else w[p] <= w[k]
    {
      assert w[k] in multiset(w[lo..hi + 1]) by {
        assert w[k] == w[lo..hi + 1][k - lo];
      }
      assert w[k] in multiset(v[lo..hi + 1]);
      var u :| 0 <= u < hi + 1 - lo && v[lo..hi + 1][u] == w[k];
      assert v[lo + u] == w[k];
    }
  }

  /**
   * `quickSortRecursive(array, low, high)`: a range of two or more indices
   * is recoloured DEFAULT (SORTED bars stay), partitioned, and both sides are
   * sorted recursively; a single index is marked SORTED with its own step
   * (line 18); an empty range yields nothing and changes nothing. Values move
   * only within [low..high], which ends sorted.
   */
  method SortRange(a: array<Bar>, low: int, high: int, ghost input: seq<Bar>, steps0: seq<Step>)
    returns (steps: seq<Step>)
    requires 0 <= low <= high + 1 && high < a.Length && Tracking(steps0, Values(a[..]), Ids(a[..]), input)
    modifies a
    decreases high - low
    ensures low > high ==> steps == steps0 && a[..] == old(a[..])
    ensures low == high ==> |steps| == |steps0| + 1 && a[low].status == Sorted
    ensures Tracking(steps, Values(a[..]), Ids(a[..]), input)
    ensures NonDecreasingOn(Values(a[..]), low, high + 1) && Unchanged(Values(a[..]), old(Values(a[..])), low, high)
  {
    steps := steps0;
    if low < high {
      ghost var v0 := Values(a[..]);
      SetRangeStatus(a, low, high, Default);
      var p: int;
      steps, p := Partition(a, low, high, input, steps);
      ghost var v1 := Values(a[..]);
      steps := SortRange(a, low, p - 1, input, steps);
      ghost var v2 := Values(a[..]);
      SideSorted(v1, v2, low, p, high, low, p - 1);
      steps := SortRange(a, p + 1, high, input, steps);
      ghost var v3 := Values(a[..]);
      SideSorted(v2, v3, low, p, high, p + 1, high);
      assert NonDecreasingOn(v3, low, p);
      SidesJoin(v3, low, p, high);
      assert Unchanged(v3, v0, low, high);
    } else if low == high {
      SetStatus(a, low, Sorted);
      var single := ArrayStep(a[..], [], [], [], 18);
      assert StepOk(single, input);
      AppendStep(steps, Values(a[..]), Ids(a[..]), single, input);
      steps := steps + [single];
    }
  }

  /** The final snapshot shows the sorted rearrangement with every bar SORTED. */
  lemma FinalStepOk(bars: seq<Bar>, input: seq<Bar>)
    requires Ids(bars) == Ids(input) && multiset(Values(bars)) == multiset(Values(input))
    requires NonDecreasingOn(Values(bars), 0, |bars|)
    requires forall k :: 0 <= k < |bars| ==> bars[k].status == Sorted
    ensures StepOk(ArrayStep(bars, [], [], Range(|bars|), 20), input)
    ensures Completed(ArrayStep(bars, [], [], Range(|bars|), 20), input)
  {
    assert |Ids(bars)| == |Ids(input)|;
  }

  /**
   * generateQuickSortSteps: the recursion on [0..n-1], then every bar
   * SORTED and the completion step. An empty input yields only that step.
   */
  method GenerateQuickSortSteps(input: seq<Bar>) returns (steps: seq<Step>)
    ensures |steps| >= 1 && QuickTrace(steps, input)
    ensures Completed(steps[|steps| - 1], input)
    ensures |input| == 0 ==> |steps| == 1
    ensures |input| == 1 ==> |steps| == 2
  {
    var a := Clone(input);
    steps := SortRange(a, 0, a.Length - 1, input, []);
    MarkSorted(a, 0, a.Length);
    var done := ArrayStep(a[..], [], [], Range(a.Length), 20);
    FinalStepOk(a[..], input);
    AppendStep(steps, Values(a[..]), Ids(a[..]), done, input);
    steps := steps + [done];
  }
}
