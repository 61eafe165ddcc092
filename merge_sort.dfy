/**
 * Top-down merge sort over one shared working array. Each range [l..r] is
 * split at its midpoint, both halves are sorted recursively, and the halves
 * are merged in place: when the right head is smaller it is lifted out, the
 * rest of the left run shifts one slot right, and the lifted value lands in
 * the gap.
 *
 * Every generator appends its yields to the trace so far, so `yield*` is the
 * concatenation of traces.
 */
module MergeSort {
  import opened Types
  import opened Definitions
  import opened SortingSpec

  /** The first yield of `generateMergeSortSteps`. */
  function Start(input: seq<Bar>): Step
  {
    ArrayStep(input, [], [], [], 14)
  }

  /**
   * What one snapshot shows: the input ids at their indices and a
   * rearrangement of the input values; a comparison names a left and a right
   * index, both COMPARING; a move names the index the right value landed at,
   * SWAPPING.
   */
  ghost predicate StepOk(st: Step, input: seq<Bar>)
  {
    && Ids(st.bars) == Ids(input) && multiset(Values(st.bars)) == multiset(Values(input))
    && (|st.comparedIndices| == 2 ==>
          && st.comparedIndices[0] < st.comparedIndices[1] < |st.bars|
          && st.bars[st.comparedIndices[0]].status == Comparing
          && st.bars[st.comparedIndices[1]].status == Comparing)
    && (|st.swappedIndices| == 1 ==>
          && st.swappedIndices[0] < |st.bars|
          && st.bars[st.swappedIndices[0]].status == Swapping)
  }

  ghost predicate MergeTrace(steps: seq<Step>, input: seq<Bar>)
  {
    forall k :: 0 <= k < |steps| ==> StepOk(steps[k], input)
  }

  /**
   * The trace so far opens with the start step and is a merge sort trace;
   * the working array, seen through its values `v` and ids `ids`, still
   * holds the input ids and a rearrangement of the input values.
   */
  ghost predicate Tracking(steps: seq<Step>, v: seq<int>, ids: seq<string>, input: seq<Bar>)
  {
    && |steps| >= 1 && steps[0] == Start(input)
    && ids == Ids(input) && multiset(v) == multiset(Values(input))
    && MergeTrace(steps, input)
  }

  lemma AppendStep(steps: seq<Step>, v: seq<int>, ids: seq<string>, st: Step, input: seq<Bar>)
    requires Tracking(steps, v, ids, input) && StepOk(st, input)
    ensures Tracking(steps + [st], Values(st.bars), Ids(st.bars), input)
  {
    var t := steps + [st];
    forall k | 0 <= k < |t|
      ensures StepOk(t[k], input)
    {
      if k < |steps| {
        assert t[k] == steps[k];
      }
    }
  }

  /** A snapshot with no highlighted indices is well formed as soon as ids and values are. */
  lemma PlainStepOk(bars: seq<Bar>, input: seq<Bar>, line: nat)
    requires Ids(bars) == Ids(input) && multiset(Values(bars)) == multiset(Values(input))
    ensures StepOk(ArrayStep(bars, [], [], [], line), input)
  {
  }

  /** `l + Math.floor((r - l) / 2)`: the last index of the left half. */
  function SplitIndex(l: int, r: int): (m: int)
    requires l < r
    ensures l <= m < r && (m - l) - (r - m - 1) in {0, 1}
  {
    l + (r - l) / 2
  }

  /**
   * `v` with the value at q lifted out, v[s..q-1] moved one slot right and
   * the lifted value written at s: the effect of the shift branch of `merge`.
   */
  function ShiftedRight(v: seq<int>, s: int, q: int): (w: seq<int>)
    requires 0 <= s <= q < |v|
    ensures |w| == |v|
  {
    seq(|v|, k requires 0 <= k < |v| => if k == s then v[q] else if s < k <= q then v[k - 1] else v[k])
  }

  /** The shift is a rotation of v[s..q], so no value is lost or duplicated. */
  lemma ShiftedRightPermutes(v: seq<int>, s: int, q: int)
    requires 0 <= s <= q < |v|
    ensures multiset(ShiftedRight(v, s, q)) == multiset(v)
    ensures Unchanged(ShiftedRight(v, s, q), v, s, q)
  {
    var w := ShiftedRight(v, s, q);
    assert w == v[..s] + [v[q]] + v[s..q] + v[q + 1..];
    assert v == v[..s] + v[s..q] + [v[q]] + v[q + 1..];
    calc {
      multiset(w);
      multiset(v[..s]) + multiset{v[q]} + multiset(v[s..q]) + multiset(v[q + 1..]);
      multiset(v[..s]) + multiset(v[s..q]) + multiset{v[q]} + multiset(v[q + 1..]);
      multiset(v);
    }
  }

  /**
   * The state of an in-place merge of [lo..hi]: [lo..s) is merged output,
   * no larger than anything still to merge; the rest of the left run is
   * [s..m] and the right run is [m+1..hi], both sorted; nothing outside
   * [lo..hi] has moved since `v0`.
   */
  ghost predicate Runs(v: seq<int>, v0: seq<int>, lo: int, s: int, m: int, hi: int)
  {
    && 0 <= lo <= s <= m + 1 <= hi + 1 <= |v|
    && NonDecreasingOn(v, lo, s) && NonDecreasingOn(v, s, m + 1) && NonDecreasingOn(v, m + 1, hi + 1)
    && (forall p, q :: lo <= p < s <= q <= hi ==> v[p] <= v[q])
    && Unchanged(v, v0, lo, hi)
  }

  /** Two adjacent sorted runs form a merge state with empty output. */
  lemma RunsStart(v: seq<int>, lo: int, m: int, hi: int)
    requires 0 <= lo <= m < hi < |v|
    requires NonDecreasingOn(v, lo, m + 1) && NonDecreasingOn(v, m + 1, hi + 1)
    ensures Runs(v, v, lo, lo, m, hi)
  {
  }

  /** Two sorted adjacent runs whose boundary is in order form one sorted run. */
  lemma RunsJoin(v: seq<int>, lo: int, m: int, hi: int)
    requires 0 <= lo <= m < hi < |v|
    requires NonDecreasingOn(v, lo, m + 1) && NonDecreasingOn(v, m + 1, hi + 1)
    requires v[m] <= v[m + 1]
    ensures NonDecreasingOn(v, lo, hi + 1)
  {
    forall p, q | lo <= p < q < hi + 1
      ensures v[p] <= v[q]
    {
      if p <= m < q {
        assert v[p] <= v[m] && v[m + 1] <= v[q];
      }
    }
  }

  /** Keeping the left head (it is no larger than the right head) extends the output by one. */
  lemma KeepLeft(v: seq<int>, v0: seq<int>, lo: int, s: int, m: int, hi: int)
    requires Runs(v, v0, lo, s, m, hi) && s <= m < hi && v[s] <= v[m + 1]
    ensures Runs(v, v0, lo, s + 1, m, hi)
  {
    forall p, q | lo <= p < s + 1 <= q <= hi
      ensures v[p] <= v[q]
    {
      if p == s && q > m {
        assert v[m + 1] <= v[q];
      }
    }
  }

  /**
   * Moving the smaller right head to s extends the output by one; the left
   * run slides one slot right and the right run loses its head.
   */
  lemma MoveRight(v: seq<int>, v0: seq<int>, lo: int, s: int, m: int, hi: int)
    requires Runs(v, v0, lo, s, m, hi) && s <= m < hi && v[s] > v[m + 1]
    ensures Runs(ShiftedRight(v, s, m + 1), v0, lo, s + 1, m + 1, hi)
    ensures multiset(ShiftedRight(v, s, m + 1)) == multiset(v)
  {
    var w := ShiftedRight(v, s, m + 1);
    ShiftedRightPermutes(v, s, m + 1);
    forall p, q | lo <= p < q < s + 1
      ensures w[p] <= w[q]
    {
      if q == s {
        assert v[p] <= v[m + 1];
      }
    }
    forall p, q | lo <= p < s + 1 <= q <= hi
      ensures w[p] <= w[q]
    {
      if p == s {
        if q <= m + 1 {
          assert v[m + 1] < v[s] <= v[q - 1];
        } else {
          assert v[m + 1] <= v[q];
        }
      } else if q <= m + 1 {
        assert v[p] <= v[q - 1];
      }
    }
  }

  /** When either run is exhausted, [lo..hi] is sorted. */
  lemma RunsDone(v: seq<int>, v0: seq<int>, lo: int, s: int, m: int, hi: int)
    requires Runs(v, v0, lo, s, m, hi) && !(s <= m && m + 1 <= hi)
    ensures NonDecreasingOn(v, lo, hi + 1)
  {
    forall p, q | lo <= p < q < hi + 1
      ensures v[p] <= v[q]
    {
    }
  }

  /** The merge state together with the trace. */
  ghost predicate Merging(steps: seq<Step>, v: seq<int>, ids: seq<string>, v0: seq<int>, input: seq<Bar>,
                          lo: int, s: int, m: int, hi: int)
  {
    Tracking(steps, v, ids, input) && Runs(v, v0, lo, s, m, hi)
  }

  /** `array[i].isSplitAfter = flag`: only the split flag of bar i changes. */
  method SetSplit(a: array<Bar>, i: nat, flag: bool)
    requires i < a.Length
    modifies a
    ensures a[..] == old(a[..])[i := old(a[i]).(isSplitAfter := Some(flag))]
    ensures Values(a[..]) == Values(old(a[..])) && Ids(a[..]) == Ids(old(a[..]))
  {
    a[i] := a[i].(isSplitAfter := Some(flag));
  }

  /**
   * The inner `while (index !== start)`: each value at s..q-1 is copied one
   * slot right, leaving the value at s duplicated at s+1 (the lifted value
   * is still held by the caller). Only values change.
   */
  method SlideRight(a: array<Bar>, s: nat, q: nat)
    requires s <= q < a.Length
    modifies a
    ensures forall k {:trigger a[k]} :: 0 <= k < a.Length ==> a[k] == old(a[k]).(value := a[k].value)
    ensures forall k {:trigger a[k]} :: 0 <= k < a.Length ==>
      a[k].value == (if s < k <= q then old(a[k - 1].value) else old(a[k].value))
  {
    ghost var v := Values(a[..]);
    var index := q;
    while index != s
      invariant s <= index <= q
      invariant forall k {:trigger a[k]} :: 0 <= k < a.Length ==> a[k] == old(a[k]).(value := a[k].value)
      invariant forall k {:trigger a[k]} :: 0 <= k < a.Length ==> a[k].value == (if index < k <= q then v[k - 1] else v[k])
      decreases index
    {
      a[index] := a[index].(value := a[index - 1].value);
      index := index - 1;
    }
  }

  /**
   * The shift branch of `merge` up to the write at `start`: the value at q
   * is lifted out, the values at s..q-1 each move one slot right, and the
   * lifted value lands at s. Ids, statuses and split flags stay put.
   */
  method ShiftIn(a: array<Bar>, s: nat, q: nat)
    requires s <= q < a.Length
    modifies a
    ensures forall k {:trigger a[k]} :: 0 <= k < a.Length ==> a[k] == old(a[k]).(value := a[k].value)
    ensures Values(a[..]) == ShiftedRight(Values(old(a[..])), s, q) && Ids(a[..]) == Ids(old(a[..]))
  {
    ghost var w := ShiftedRight(Values(a[..]), s, q);
    var value := a[q].value;
    SlideRight(a, s, q);
    a[s] := a[s].(value := value);
    assert forall k :: 0 <= k < a.Length ==> Values(a[..])[k] == w[k];
    assert forall k :: 0 <= k < a.Length ==> Ids(a[..])[k] == Ids(old(a[..]))[k];
  }

  /**
   * The `else` branch of the merge loop: shift, mark the landing index
   * SWAPPING, restore the half colours, yield the move, advance start, mid
   * and start2, and yield again.
   */
  method MoveRound(a: array<Bar>, lo: nat, s: nat, m: nat, hi: nat, ghost v0: seq<int>, ghost input: seq<Bar>,
                   steps0: seq<Step>)
    returns (steps: seq<Step>)
    requires s <= m < hi && Merging(steps0, Values(a[..]), Ids(a[..]), v0, input, lo, s, m, hi)
    requires a[s].value > a[m + 1].value
    modifies a
    ensures |steps| == |steps0| + 2
    ensures Values(a[..]) == ShiftedRight(old(Values(a[..])), s, m + 1)
    ensures Merging(steps, Values(a[..]), Ids(a[..]), v0, input, lo, s + 1, m + 1, hi)
  {
    ghost var v := Values(a[..]);
    MoveRight(v, v0, lo, s, m, hi);
    ShiftIn(a, s, m + 1);
    SetStatus(a, s, Swapping);
    SetRangeStatus(a, s + 1, m + 1, LeftHalf);
    SetRangeStatus(a, m + 2, hi, RightHalf);
    var moved := ArrayStep(a[..], [], [s], [], 11);
    assert StepOk(moved, input);
    AppendStep(steps0, v, Ids(a[..]), moved, input);
    var updated := ArrayStep(a[..], [], [], [], 11);
    PlainStepOk(a[..], input, 11);
    AppendStep(steps0 + [moved], Values(a[..]), Ids(a[..]), updated, input);
    steps := steps0 + [moved] + [updated];
  }

  /**
   * One round of the merge loop: colour the halves, compare the heads at
   * start and start2 (yield), then keep the left head (`<=`, so ties keep
   * the left element) or move the right head in. Returns the new start,
   * mid and start2.
   */
  method MergeRound(a: array<Bar>, lo: nat, s: nat, m: nat, s2: nat, hi: nat, ghost v0: seq<int>,
                    ghost input: seq<Bar>, steps0: seq<Step>)
    returns (steps: seq<Step>, s': nat, m': nat, s2': nat)
    requires s <= m && s2 == m + 1 <= hi && Merging(steps0, Values(a[..]), Ids(a[..]), v0, input, lo, s, m, hi)
    modifies a
    ensures |steps| > |steps0| && s' == s + 1 && s2' == m' + 1 && m <= m' <= m + 1
    ensures old(Values(a[..]))[s] <= old(Values(a[..]))[m + 1] ==> m' == m && Values(a[..]) == old(Values(a[..]))
    ensures old(Values(a[..]))[s] > old(Values(a[..]))[m + 1] ==>
      m' == m + 1 && Values(a[..]) == ShiftedRight(old(Values(a[..])), s, m + 1)
    ensures Merging(steps, Values(a[..]), Ids(a[..]), v0, input, lo, s', m', hi)
  {
    ResetStatus(a);
    SetRangeStatus(a, s, m, LeftHalf);
    SetRangeStatus(a, s2, hi, RightHalf);
    SetStatus(a, s, Comparing);
    SetStatus(a, s2, Comparing);
    var compare := ArrayStep(a[..], [s, s2], [], [], 11);
    assert StepOk(compare, input);
    AppendStep(steps0, Values(a[..]), Ids(a[..]), compare, input);
    steps := steps0 + [compare];
    if a[s].value <= a[s2].value {
      KeepLeft(Values(a[..]), v0, lo, s, m, hi);
      s', m', s2' := s + 1, m, s2;
      var kept := ArrayStep(a[..], [], [], [], 11);
      PlainStepOk(a[..], input, 11);
      AppendStep(steps, Values(a[..]), Ids(a[..]), kept, input);
      steps := steps + [kept];
    } else {
      steps := MoveRound(a, lo, s, m, hi, v0, input, steps);
      s', m', s2' := s + 1, m + 1, s2 + 1;
    }
  }

  /** The `while (start <= mid && start2 <= end)` loop of `merge`. */
  method MergeLoop(a: array<Bar>, lo: nat, mid: nat, hi: nat, ghost input: seq<Bar>, steps0: seq<Step>)
    returns (steps: seq<Step>)
    requires Merging(steps0, Values(a[..]), Ids(a[..]), Values(a[..]), input, lo, lo, mid, hi)
    modifies a
    ensures |steps| >= |steps0| && Tracking(steps, Values(a[..]), Ids(a[..]), input)
    ensures NonDecreasingOn(Values(a[..]), lo, hi + 1) && Unchanged(Values(a[..]), old(Values(a[..])), lo, hi)
  {
    ghost var v0 := Values(a[..]);
    steps := steps0;
    var start, m, start2 := lo, mid, mid + 1;
    while start <= m && start2 <= hi
      invariant |steps| >= |steps0|
      invariant start2 == m + 1 && Merging(steps, Values(a[..]), Ids(a[..]), v0, input, lo, start, m, hi)
      decreases hi - start
    {
      steps, start, m, start2 := MergeRound(a, lo, start, m, start2, hi, v0, input, steps);
    }
    RunsDone(Values(a[..]), v0, lo, start, m, hi);
  }

  /**
   * `merge(array, start, mid, end)`: clear the split flag at mid, colour the
   * halves and yield; if the halves are already in order yield once more and
   * return without moving a value, otherwise run the merge loop. Either way
   * [start..end] ends sorted and nothing outside it moves.
   */
  method Merge(a: array<Bar>, start: nat, mid: nat, end: nat, ghost input: seq<Bar>, steps0: seq<Step>)
    returns (steps: seq<Step>)
    requires start <= mid < end < a.Length
    requires Tracking(steps0, Values(a[..]), Ids(a[..]), input)
    requires NonDecreasingOn(Values(a[..]), start, mid + 1) && NonDecreasingOn(Values(a[..]), mid + 1, end + 1)
    modifies a
    ensures |steps| > |steps0|
    ensures Tracking(steps, Values(a[..]), Ids(a[..]), input)
    ensures NonDecreasingOn(Values(a[..]), start, end + 1) && Unchanged(Values(a[..]), old(Values(a[..])), start, end)
    ensures old(Values(a[..]))[mid] <= old(Values(a[..]))[mid + 1] ==> Values(a[..]) == old(Values(a[..]))
  {
    SetSplit(a, mid, false);
    ResetStatus(a);
    SetRangeStatus(a, start, mid, LeftHalf);
    SetRangeStatus(a, mid + 1, end, RightHalf);
    var first := ArrayStep(a[..], [], [], [], 23);
    PlainStepOk(a[..], input, 23);
    AppendStep(steps0, Values(a[..]), Ids(a[..]), first, input);
    steps := steps0 + [first];
    if a[mid].value <= a[mid + 1].value {
      RunsJoin(Values(a[..]), start, mid, end);
      AppendStep(steps, Values(a[..]), Ids(a[..]), first, input);
      steps := steps + [first];
      return;
    }
    RunsStart(Values(a[..]), start, mid, end);
    steps := MergeLoop(a, start, mid, end, input, steps);
  }

  /**
   * The two yields that open a range: [l..r] ACTIVE (line 14), then the
   * halves coloured and the split flag set after m (line 17). No value moves.
   */
  method ShowSplit(a: array<Bar>, l: nat, m: nat, r: nat, ghost input: seq<Bar>, steps0: seq<Step>)
    returns (steps: seq<Step>)
    requires l <= m < r < a.Length && Tracking(steps0, Values(a[..]), Ids(a[..]), input)
    modifies a
    ensures |steps| == |steps0| + 2
    ensures Values(a[..]) == old(Values(a[..])) && Ids(a[..]) == old(Ids(a[..]))
    ensures Tracking(steps, Values(a[..]), Ids(a[..]), input)
  {
    ResetStatus(a);
    SetRangeStatus(a, l, r, Active);
    var active := ArrayStep(a[..], [], [], [], 14);
    PlainStepOk(a[..], input, 14);
    AppendStep(steps0, Values(a[..]), Ids(a[..]), active, input);
    ResetStatus(a);
    SetRangeStatus(a, l, m, LeftHalf);
    SetRangeStatus(a, m + 1, r, RightHalf);
    SetSplit(a, m, true);
    var split := ArrayStep(a[..], [], [], [], 17);
    PlainStepOk(a[..], input, 17);
    AppendStep(steps0 + [active], Values(a[..]), Ids(a[..]), split, input);
    steps := steps0 + [active] + [split];
  }

  /** Sortedness of [lo..hi) survives changes made outside it. */
  lemma SortedKept(v: seq<int>, w: seq<int>, lo: int, hi: int, clo: int, chi: int)
    requires NonDecreasingOn(v, lo, hi) && Unchanged(w, v, clo, chi)
    requires 0 <= lo && hi <= clo
    ensures NonDecreasingOn(w, lo, hi)
  {
  }

  /**
   * `mergeSortRecursive(array, l, r)`: a range of at most one index yields
   * nothing and changes nothing; a longer one yields its split, sorts both
   * halves, yields "Both halves sorted" and merges. Values move only within
   * [l..r], which ends sorted.
   */
  method SortRange(a: array<Bar>, l: int, r: int, ghost input: seq<Bar>, steps0: seq<Step>)
    returns (steps: seq<Step>)
    requires 0 <= l && r < a.Length && Tracking(steps0, Values(a[..]), Ids(a[..]), input)
    modifies a
    decreases r - l
    ensures l >= r ==> steps == steps0 && a[..] == old(a[..])
    ensures Tracking(steps, Values(a[..]), Ids(a[..]), input)
    ensures NonDecreasingOn(Values(a[..]), l, r + 1) && Unchanged(Values(a[..]), old(Values(a[..])), l, r)
  {
    steps := steps0;
    if l < r {
      var m := SplitIndex(l, r);
      ghost var v0 := Values(a[..]);
      steps := ShowSplit(a, l, m, r, input, steps);
      steps := SortRange(a, l, m, input, steps);
      ghost var v1 := Values(a[..]);
      steps := SortRange(a, m + 1, r, input, steps);
      SortedKept(v1, Values(a[..]), l, m + 1, m + 1, r);
      ghost var v2 := Values(a[..]);
      var ready := ArrayStep(a[..], [], [], [], 23);
      PlainStepOk(a[..], input, 23);
      AppendStep(steps, Values(a[..]), Ids(a[..]), ready, input);
      steps := steps + [ready];
      steps := Merge(a, l, m, r, input, steps);
      assert Unchanged(v2, v0, l, r);
    }
  }

  /** `array.forEach(bar => bar.isSplitAfter = false)`. */
  method ClearSplits(a: array<Bar>)
    modifies a
    ensures forall k :: 0 <= k < a.Length ==> a[k] == old(a[k]).(isSplitAfter := Some(false))
    ensures Values(a[..]) == Values(old(a[..])) && Ids(a[..]) == Ids(old(a[..]))
  {
    for i := 0 to a.Length
      invariant forall k :: 0 <= k < a.Length ==> a[k] == if k < i then old(a[k]).(isSplitAfter := Some(false)) else old(a[k])
    {
      a[i] := a[i].(isSplitAfter := Some(false));
    }
    assert forall k :: 0 <= k < a.Length ==> Values(a[..])[k] == Values(old(a[..]))[k];
  }

  /** No bar carries a split gap. */
  ghost predicate NoSplitGaps(bars: seq<Bar>)
  {
    forall k :: 0 <= k < |bars| ==> bars[k].isSplitAfter == Some(false)
  }

  /** The final snapshot shows the sorted rearrangement, every bar SORTED and no split gap. */
  lemma FinalStepOk(bars: seq<Bar>, input: seq<Bar>)
    requires Ids(bars) == Ids(input) && multiset(Values(bars)) == multiset(Values(input))
    requires NonDecreasingOn(Values(bars), 0, |bars|)
    requires forall k :: 0 <= k < |bars| ==> bars[k].status == Sorted
    ensures StepOk(ArrayStep(bars, [], [], Range(|bars|), 25), input)
    ensures Completed(ArrayStep(bars, [], [], Range(|bars|), 25), input)
  {
    assert |Ids(bars)| == |Ids(input)|;
  }

  /**
   * generateMergeSortSteps: the start step, the whole recursion on
   * [0..n-1], then every split flag cleared, every bar SORTED and the
   * completion step.
   */
  method GenerateMergeSortSteps(input: seq<Bar>) returns (steps: seq<Step>)
    ensures |steps| >= 2 && steps[0] == Start(input)
    ensures |input| <= 1 ==> |steps| == 2
    ensures MergeTrace(steps, input)
    ensures Completed(steps[|steps| - 1], input)
    ensures NoSplitGaps(steps[|steps| - 1].bars)
  {
    var a := Clone(input);
    steps := [Start(a[..])];
    PlainStepOk(input, input, 14);
    steps := SortRange(a, 0, a.Length - 1, input, steps);
    ClearSplits(a);
    MarkSorted(a, 0, a.Length);
    var done := ArrayStep(a[..], [], [], Range(a.Length), 25);
    FinalStepOk(a[..], input);
    AppendStep(steps, Values(a[..]), Ids(a[..]), done, input);
    steps := steps + [done];
  }
}
