/**
 * Selection sort: for each index i < n-1, scan the suffix for the first
 * occurrence of its minimum and exchange it into place when it is not
 * already there.
 */
module SelectionSort {
  import opened Types
  import opened Definitions
  import opened SortingSpec

  /** What each kind of step shows, by its code line. */
  ghost predicate StepOk(st: Step, n: nat)
  {
    var v := Values(st.bars);
    && |st.bars| == n
    // start of iteration i = |sortedIndices|: [0..i) holds the i smallest values, SORTED
    && (st.codeLine == Some(4) ==>
          var i := |st.sortedIndices|;
          && i + 1 < n
          && st.sortedIndices == Range(i)
          && st.bars[i].status == Active
          && Placed(v, i)
          && (forall k :: 0 <= k < i ==> st.bars[k].status == Sorted))
    // comparing candidate j with the current minimum, which lies before it
    && (st.codeLine == Some(6) ==>
          && |st.comparedIndices| == 2
          && st.comparedIndices[1] < st.comparedIndices[0] < n
          && st.bars[st.comparedIndices[0]].status == Comparing
          && st.bars[st.comparedIndices[1]].status == Comparing)
    // a new minimum was found
    && (st.codeLine == Some(7) ==>
          && |st.swappedIndices| == 1
          && st.swappedIndices[0] < n
          && st.bars[st.swappedIndices[0]].status == Swapping)
    // the exchange: index i now holds the first minimum of the suffix, strictly below what it passed over
    && (st.codeLine == Some(9) ==>
          && |st.swappedIndices| == 2
          && st.swappedIndices[0] < st.swappedIndices[1] < n
          && Placed(v, st.swappedIndices[0] + 1)
          && (forall k :: st.swappedIndices[0] < k <= st.swappedIndices[1] ==> v[st.swappedIndices[0]] < v[k]))
  }

  /** Values change between snapshots only in an exchange step, which swaps its two indices. */
  ghost predicate MovesAt(steps: seq<Step>, k: int)
    requires 0 < k < |steps|
  {
    Moves(steps[k - 1], steps[k])
  }

  ghost predicate Moves(prev: Step, cur: Step)
  {
    || Values(cur.bars) == Values(prev.bars)
    || (&& cur.codeLine == Some(9)
        && |cur.swappedIndices| == 2
        && cur.swappedIndices[0] < cur.swappedIndices[1] < |prev.bars|
        && Values(cur.bars) == Values(prev.bars)
             [cur.swappedIndices[0] := Values(prev.bars)[cur.swappedIndices[1]]]
             [cur.swappedIndices[1] := Values(prev.bars)[cur.swappedIndices[0]]])
  }

  ghost predicate SelectionTrace(steps: seq<Step>, input: seq<Bar>)
  {
    && Faithful(steps, input)
    && (|steps| > 0 ==> Values(steps[0].bars) == Values(input))
    && (forall k :: 0 <= k < |steps| ==> StepOk(steps[k], |input|))
    && (forall k :: 0 < k < |steps| ==> MovesAt(steps, k))
  }

  /** The values `v` of the working array are those of the last snapshot, or of the input before any. */
  ghost predicate Synced(steps: seq<Step>, v: seq<int>, input: seq<Bar>)
  {
    if |steps| > 0 then Values(steps[|steps| - 1].bars) == v else v == Values(input)
  }

  /**
   * The trace so far is a selection sort trace, and `bars` is the working
   * array: its values are those of the last snapshot and a rearrangement of
   * the input values, its ids those of the input.
   */
  ghost predicate Tracking(steps: seq<Step>, bars: seq<Bar>, input: seq<Bar>)
  {
    && SelectionTrace(steps, input) && Synced(steps, Values(bars), input)
    && Ids(bars) == Ids(input) && multiset(Values(bars)) == multiset(Values(input))
  }

  lemma Append(steps: seq<Step>, st: Step, input: seq<Bar>)
    requires SelectionTrace(steps, input)
    requires Ids(st.bars) == Ids(input) && multiset(Values(st.bars)) == multiset(Values(input))
    requires StepOk(st, |input|)
    requires if |steps| > 0 then Moves(steps[|steps| - 1], st) else Values(st.bars) == Values(input)
    ensures SelectionTrace(steps + [st], input)
  {
    var t := steps + [st];
    forall k | 0 < k < |t|
      ensures MovesAt(t, k)
    {
      assert t[k] == if k < |steps| then steps[k] else st;
      assert t[k - 1] == steps[k - 1];
      if k < |steps| {
        assert MovesAt(steps, k);
      }
    }
  }

  /** One iteration of the inner `for`: compare bar j with the current minimum. */
  method CompareWithMin(a: array<Bar>, i: nat, j: nat, minIdx: nat, ghost v0: seq<int>, ghost input: seq<Bar>, steps0: seq<Step>)
    returns (steps: seq<Step>, newMin: nat)
    requires i <= minIdx < j < a.Length == |input| && v0 == Values(a[..])
    requires Tracking(steps0, a[..], input)
    modifies a
    ensures newMin == (if v0[j] < v0[minIdx] then j else minIdx)
    ensures |steps| > |steps0|
    ensures Tracking(steps, a[..], input) && Values(a[..]) == v0
    ensures forall k :: 0 <= k < i ==> a[k].status == old(a[k].status)
  {
    SetStatus(a, j, Comparing);
    SetStatus(a, minIdx, Comparing);
    var compare := ArrayStep(a[..], [j, minIdx], [], [], 6);
    Append(steps0, compare, input);
    steps := steps0 + [compare];
    assert a[j].value == v0[j] && a[minIdx].value == v0[minIdx] by {
      assert Values(a[..])[j] == a[j].value && Values(a[..])[minIdx] == a[minIdx].value;
    }
    newMin := minIdx;
    if a[j].value < a[minIdx].value {
      if minIdx != i {
        SetStatus(a, minIdx, Default);
      }
      newMin := j;
      SetStatus(a, newMin, Swapping);
      var found := ArrayStep(a[..], [], [newMin], [], 7);
      Append(steps, found, input);
      steps := steps + [found];
    } else {
      SetStatus(a, j, Default);
    }
  }

  /**
   * The inner `for` over j in (i, n): compares bar j with the current
   * minimum and moves `minIdx` only on a strictly smaller value.
   */
  method FindMin(a: array<Bar>, i: nat, ghost v0: seq<int>, ghost input: seq<Bar>, steps0: seq<Step>)
    returns (steps: seq<Step>, minIdx: nat)
    requires i + 1 < a.Length == |input| && v0 == Values(a[..])
    requires Tracking(steps0, a[..], input)
    modifies a
    ensures i <= minIdx < a.Length && |steps| >= |steps0|
    ensures Tracking(steps, a[..], input) && Values(a[..]) == v0
    ensures forall k :: i <= k < |v0| ==> v0[minIdx] <= v0[k]
    ensures forall k :: i <= k < minIdx ==> v0[minIdx] < v0[k]
    ensures forall k :: 0 <= k < i ==> a[k].status == old(a[k].status)
  {
    steps := steps0;
    minIdx := i;
    for j := i + 1 to a.Length
      invariant i <= minIdx < j && |steps| >= |steps0|
      invariant Tracking(steps, a[..], input) && Values(a[..]) == v0
      invariant forall k :: i <= k < j ==> v0[minIdx] <= v0[k]
      invariant forall k :: i <= k < minIdx ==> v0[minIdx] < v0[k]
      invariant forall k :: 0 <= k < i ==> a[k].status == old(a[k].status)
    {
      var more, newMin := CompareWithMin(a, i, j, minIdx, v0, input, steps);
      ScanMin(v0, i, j, minIdx, newMin);
      steps, minIdx := more, newMin;
    }
  }

  /** Comparing j with the first minimum of [i..j) by strict < yields the first minimum of [i..j]. */
  lemma ScanMin(v: seq<int>, i: nat, j: nat, m: nat, m2: nat)
    requires i <= m < j < |v|
    requires forall k :: i <= k < j ==> v[m] <= v[k]
    requires forall k :: i <= k < m ==> v[m] < v[k]
    requires m2 == if v[j] < v[m] then j else m
    ensures i <= m2 <= j
    ensures forall k :: i <= k <= j ==> v[m2] <= v[k]
    ensures forall k :: i <= k < m2 ==> v[m2] < v[k]
  {
  }

  /** The exchange puts the first minimum of the suffix at i. */
  lemma ExchangePlaces(v: seq<int>, w: seq<int>, i: nat, m: nat)
    requires i < m < |v| && Placed(v, i)
    requires forall k :: i <= k < |v| ==> v[m] <= v[k]
    requires forall k :: i <= k < m ==> v[m] < v[k]
    requires w == v[i := v[m]][m := v[i]]
    ensures Placed(w, i + 1)
    ensures forall k :: i < k <= m ==> w[i] < w[k]
  {
  }

  /** When the minimum is already at i, nothing moves and [0..i] is placed. */
  lemma MinInPlace(v: seq<int>, i: nat)
    requires i < |v| && Placed(v, i)
    requires forall k :: i <= k < |v| ==> v[i] <= v[k]
    ensures Placed(v, i + 1)
  {
  }

  lemma StartStepOk(bars: seq<Bar>, i: nat)
    requires i + 1 < |bars| && bars[i].status == Active
    requires Placed(Values(bars), i) && forall k :: 0 <= k < i ==> bars[k].status == Sorted
    ensures StepOk(ArrayStep(bars, [], [], Range(i), 4), |bars|)
  {
  }

  lemma ExchangeStepOk(bars: seq<Bar>, i: nat, m: nat)
    requires i < m < |bars| && Placed(Values(bars), i + 1)
    requires forall k :: i < k <= m ==> Values(bars)[i] < Values(bars)[k]
    ensures StepOk(ArrayStep(bars, [], [i, m], [], 9), |bars|)
  {
  }

  /** Lines 65-78: exchange the minimum into index i when it lies elsewhere. */
  method Exchange(a: array<Bar>, i: nat, minIdx: nat, ghost v: seq<int>, ghost input: seq<Bar>, steps0: seq<Step>)
    returns (steps: seq<Step>)
    requires i <= minIdx < a.Length == |input| && v == Values(a[..])
    requires |steps0| > 0 && Tracking(steps0, a[..], input)
    requires Placed(v, i)
    requires forall k :: i <= k < |v| ==> v[minIdx] <= v[k]
    requires forall k :: i <= k < minIdx ==> v[minIdx] < v[k]
    modifies a
    ensures Tracking(steps, a[..], input)
    ensures Placed(Values(a[..]), i + 1)
    ensures forall k :: 0 <= k < a.Length ==> a[k].status == old(a[k].status)
    ensures minIdx == i ==> steps == steps0 && a[..] == old(a[..])
    ensures minIdx != i ==> Values(a[..]) == v[i := v[minIdx]][minIdx := v[i]]
    ensures minIdx != i ==> steps == steps0 + [ArrayStep(a[..], [], [i, minIdx], [], 9)]
  {
    steps := steps0;
    if minIdx != i {
      assert a[i].value == v[i] && a[minIdx].value == v[minIdx] by {
        assert Values(a[..])[i] == a[i].value && Values(a[..])[minIdx] == a[minIdx].value;
      }
      SwapValues(a, i, minIdx);
      assert Values(a[..]) == v[i := v[minIdx]][minIdx := v[i]];
      ExchangePlaces(v, Values(a[..]), i, minIdx);
      var exchange := ArrayStep(a[..], [], [i, minIdx], [], 9);
      ExchangeStepOk(a[..], i, minIdx);
      Append(steps, exchange, input);
      steps := steps + [exchange];
    } else {
      MinInPlace(v, i);
    }
  }

  /** One iteration of the outer `for`: announce index i, find the minimum, exchange, mark i SORTED. */
  method SelectOne(a: array<Bar>, i: nat, ghost input: seq<Bar>, steps0: seq<Step>) returns (steps: seq<Step>)
    requires i + 1 < a.Length == |input|
    requires Tracking(steps0, a[..], input)
    requires Placed(Values(a[..]), i) && forall k :: 0 <= k < i ==> a[k].status == Sorted
    modifies a
    ensures Tracking(steps, a[..], input)
    ensures Placed(Values(a[..]), i + 1) && forall k :: 0 <= k <= i ==> a[k].status == Sorted
  {
    SetStatus(a, i, Active);
    var start := ArrayStep(a[..], [], [], Range(i), 4);
    StartStepOk(a[..], i);
    Append(steps0, start, input);
    var minIdx;
    steps, minIdx := FindMin(a, i, Values(a[..]), input, steps0 + [start]);
    steps := Exchange(a, i, minIdx, Values(a[..]), input, steps);
    SetStatus(a, minIdx, Default);
    SetStatus(a, i, Sorted);
  }

  /**
   * generateSelectionSortSteps: one iteration per index 0..n-2, then the
   * last index is marked SORTED and the completion step is emitted. The
   * source writes `array[n-1]` unguarded, so an empty input fails.
   */
  method GenerateSelectionSortSteps(input: seq<Bar>) returns (steps: seq<Step>)
    requires |input| >= 1
    ensures |steps| >= 1
    ensures SelectionTrace(steps, input)
    ensures Completed(steps[|steps| - 1], input)
  {
    var a := Clone(input);
    var n := a.Length;
    steps := [];
    var i := 0;
    while i < n - 1
      invariant 0 <= i <= n - 1
      invariant Tracking(steps, a[..], input)
      invariant Placed(Values(a[..]), i) && forall k :: 0 <= k < i ==> a[k].status == Sorted
    {
      steps := SelectOne(a, i, input, steps);
      i := i + 1;
    }
    SetStatus(a, n - 1, Sorted);
    var done := ArrayStep(a[..], [], [], Range(n), 11);
    Append(steps, done, input);
    steps := steps + [done];
  }
}
