/**
 * Insertion sort with a cached key: each value in turn is lifted out, the
 * larger values of the sorted prefix are shifted one slot right, and the key
 * is written into the gap.
 */
module InsertionSort {
  import opened Types
  import opened Definitions
  import opened SortingSpec

  /**
   * The key (the input value at index m-1) sits at some `pos` of the sorted
   * prefix [0..m) with only strictly larger values after it: shifting stopped
   * at the first value not larger than the key.
   */
  ghost predicate KeyPlaced(v: seq<int>, m: nat, key: int)
  {
    m <= |v| && exists pos :: 0 <= pos < m && v[pos] == key && forall q :: pos < q < m ==> key < v[q]
  }

  /** What each kind of step of the trace shows, by its code line. */
  ghost predicate StepOk(st: Step, input: seq<Bar>)
  {
    var v := Values(st.bars);
    var n := |input|;
    && Ids(st.bars) == Ids(input)
    // selecting the key of iteration i = |sortedIndices|: nothing at i or beyond has moved yet
    && (st.codeLine == Some(4) ==>
          var i := |st.sortedIndices|;
          && 1 <= i < n
          && st.sortedIndices == Range(i)
          && st.bars[i].status == Active
          && v[i..] == Values(input)[i..])
    // comparing bar j with the key, which belongs at j+1
    && (st.codeLine == Some(7) ==>
          && |st.comparedIndices| == 2
          && st.comparedIndices[1] == st.comparedIndices[0] + 1 < n
          && st.bars[st.comparedIndices[0]].status == Comparing)
    // shifting: bar j+1 has taken the value of bar j
    && (st.codeLine == Some(8) ==>
          && |st.swappedIndices| == 1
          && 1 <= st.swappedIndices[0] < n
          && v[st.swappedIndices[0]] == v[st.swappedIndices[0] - 1]
          && st.bars[st.swappedIndices[0]].status == Swapping)
    // end of iteration m-1: prefix [0..m) sorted and SORTED, suffix untouched, a permutation
    && (st.codeLine == Some(11) ==>
          var m := |st.sortedIndices|;
          && 2 <= m <= n
          && st.sortedIndices == Range(m)
          && NonDecreasingOn(v, 0, m)
          && (forall k :: 0 <= k < m ==> st.bars[k].status == Sorted)
          && multiset(v) == multiset(Values(input))
          && v[m..] == Values(input)[m..]
          && KeyPlaced(v, m, Values(input)[m - 1]))
  }

  /** The values after the shift loop has stopped at j and the key is written at j+1. */
  lemma Inserted(v0: seq<int>, v: seq<int>, i: nat, pos: nat)
    requires i < |v0| == |v| && pos <= i
    requires forall p :: 0 <= p < pos ==> v[p] == v0[p]
    requires v[pos] == v0[i]
    requires forall p :: pos <= p < i ==> v[p + 1] == v0[p]
    requires forall p :: i < p < |v| ==> v[p] == v0[p]
    ensures multiset(v) == multiset(v0)
  {
    assert v == v0[..pos] + [v0[i]] + v0[pos..i] + v0[i + 1..];
    assert v0 == v0[..pos] + v0[pos..i] + [v0[i]] + v0[i + 1..];
  }

  /** With the prefix [0..i) sorted, writing the key after every value not larger than it keeps [0..i] sorted. */
  lemma InsertedSorted(v0: seq<int>, v: seq<int>, i: nat, pos: nat)
    requires i < |v0| == |v| && pos <= i && NonDecreasingOn(v0, 0, i)
    requires forall p :: 0 <= p < pos ==> v[p] == v0[p]
    requires v[pos] == v0[i]
    requires forall p :: pos <= p < i ==> v[p + 1] == v0[p] && v0[i] < v0[p]
    requires pos > 0 ==> v0[pos - 1] <= v0[i]
    ensures NonDecreasingOn(v, 0, i + 1)
  {
    forall p, q | 0 <= p < q < i + 1
      ensures v[p] <= v[q]
    {
      if q < pos {
      } else if q == pos {
        if p < pos {
          assert v0[p] <= v0[pos - 1];
        }
      } else {
        assert v[q] == v0[q - 1];
        if p < pos {
          assert v0[p] <= v0[q - 1];
        } else if p > pos {
          assert v[p] == v0[p - 1];
        }
      }
    }
  }

  /**
   * The values `w` while the shift loop of iteration i stands at j: [0..j]
   * and (i..) as they were (`v0`), and every value of (j..i) moved one slot
   * right, each strictly larger than the key.
   */
  ghost predicate Shifted(w: seq<int>, v0: seq<int>, i: nat, j: int, key: int)
  {
    && -1 <= j <= i - 1 && i < |v0| == |w|
    && (forall p :: 0 <= p <= j ==> w[p] == v0[p])
    && (forall p :: j + 1 <= p < i ==> w[p + 1] == v0[p] && key < v0[p])
    && (forall p :: i < p < |w| ==> w[p] == v0[p])
  }

  /** Shifting the value at j, strictly larger than the key, one slot right moves the loop to j-1. */
  lemma ShiftOne(w: seq<int>, v0: seq<int>, i: nat, j: nat, key: int)
    requires Shifted(w, v0, i, j, key) && w[j] > key
    ensures Shifted(w[j + 1 := w[j]], v0, i, j - 1, key)
  {
  }

  /** Writing the key into the gap left by the shift loop completes the insertion. */
  lemma PlaceKey(v0: seq<int>, w: seq<int>, i: nat, j: int)
    requires i < |v0| && NonDecreasingOn(v0, 0, i) && Shifted(w, v0, i, j, v0[i])
    requires j >= 0 ==> v0[j] <= v0[i]
    ensures multiset(w[j + 1 := v0[i]]) == multiset(v0)
    ensures NonDecreasingOn(w[j + 1 := v0[i]], 0, i + 1)
    ensures w[j + 1 := v0[i]][i + 1..] == v0[i + 1..]
    ensures KeyPlaced(w[j + 1 := v0[i]], i + 1, v0[i])
  {
    var v := w[j + 1 := v0[i]];
    forall q | j + 1 < q <= i
      ensures v[q] == v0[q - 1] && v0[i] < v[q]
    {
      assert w[(q - 1) + 1] == v0[q - 1];
    }
    Inserted(v0, v, i, j + 1);
    InsertedSorted(v0, v, i, j + 1);
    var tail, tail0 := v[i + 1..], v0[i + 1..];
    forall k | 0 <= k < |tail|
      ensures tail[k] == tail0[k]
    {
      assert v[i + 1 + k] == w[i + 1 + k];
    }
    assert tail == tail0;
    assert v[j + 1] == v0[i];
  }

  lemma SelectStepOk(bars: seq<Bar>, i: nat, input: seq<Bar>)
    requires 1 <= i < |input| == |bars| && Ids(bars) == Ids(input)
    requires bars[i].status == Active && Values(bars)[i..] == Values(input)[i..]
    ensures StepOk(ArrayStep(bars, [], [], Range(i), 4), input)
  {
  }

  lemma InsertedStepOk(bars: seq<Bar>, i: nat, input: seq<Bar>)
    requires 1 <= i < |input| == |bars| && Ids(bars) == Ids(input)
    requires var v := Values(bars);
      && NonDecreasingOn(v, 0, i + 1)
      && (forall k :: 0 <= k <= i ==> bars[k].status == Sorted)
      && multiset(v) == multiset(Values(input))
      && v[i + 1..] == Values(input)[i + 1..]
      && KeyPlaced(v, i + 1, Values(input)[i])
    ensures StepOk(ArrayStep(bars, [], [], Range(i + 1), 11), input)
  {
  }

  lemma CompareStepOk(bars: seq<Bar>, j: nat, input: seq<Bar>)
    requires j + 1 < |input| == |bars| && Ids(bars) == Ids(input) && bars[j].status == Comparing
    ensures StepOk(ArrayStep(bars, [j, j + 1], [], [], 7), input)
  {
  }

  lemma ShiftStepOk(bars: seq<Bar>, j: nat, input: seq<Bar>)
    requires j + 1 < |input| == |bars| && Ids(bars) == Ids(input)
    requires bars[j + 1].value == bars[j].value && bars[j + 1].status == Swapping
    ensures StepOk(ArrayStep(bars, [], [j + 1], [], 8), input)
  {
  }

  /** Every step of the trace is well formed. */
  ghost predicate InsertionTrace(steps: seq<Step>, input: seq<Bar>)
  {
    forall k :: 0 <= k < |steps| ==> StepOk(steps[k], input)
  }

  lemma Append(steps: seq<Step>, st: Step, input: seq<Bar>)
    requires InsertionTrace(steps, input) && StepOk(st, input)
    ensures InsertionTrace(steps + [st], input)
  {
    var t := steps + [st];
    forall k | 0 <= k < |t|
      ensures StepOk(t[k], input)
    {
      if k < |steps| {
        assert t[k] == steps[k];
      }
    }
  }

  /**
   * Everything the shift loop of iteration i keeps while it stands at j:
   * the trace opens with the start step and every step is well formed, and
   * the values `bars` are shifted up to j.
   */
  ghost predicate Shifting(steps: seq<Step>, bars: seq<Bar>, v0: seq<int>, input: seq<Bar>, i: nat, j: int, key: int)
  {
    && |steps| >= 1 && steps[0] == ArrayStep(input, [], [], [0], 1)
    && InsertionTrace(steps, input)
    && Ids(bars) == Ids(input) && |input| == |v0|
    && Shifted(Values(bars), v0, i, j, key)
  }

  /**
   * One round of the inner `while (j >= 0)`: compare bar j with the cached
   * key and, when it is strictly larger, shift its value one slot right.
   */
  method ShiftStep(a: array<Bar>, i: nat, j: nat, keyVal: int, ghost v0: seq<int>, ghost input: seq<Bar>, steps0: seq<Step>)
    returns (steps: seq<Step>, shifted: bool)
    requires a.Length == |input| && Shifting(steps0, a[..], v0, input, i, j, keyVal)
    modifies a
    ensures shifted ==> Shifting(steps, a[..], v0, input, i, j - 1, keyVal)
    ensures !shifted ==> Shifting(steps, a[..], v0, input, i, j, keyVal) && v0[j] <= keyVal
  {
    SetStatus(a, j, Comparing);
    var compare := ArrayStep(a[..], [j, j + 1], [], [], 7);
    CompareStepOk(a[..], j, input);
    Append(steps0, compare, input);
    steps := steps0 + [compare];
    shifted := a[j].value > keyVal;
    if shifted {
      ShiftOne(Values(a[..]), v0, i, j, keyVal);
      SetValue(a, j + 1, a[j].value);
      SetStatus(a, j, Default);
      SetStatus(a, j + 1, Swapping);
      var shift := ArrayStep(a[..], [], [j + 1], [], 8);
      ShiftStepOk(a[..], j, input);
      Append(steps, shift, input);
      steps := steps + [shift];
      SetStatus(a, j + 1, Default);
    } else {
      assert v0[j] == a[j].value;
      SetStatus(a, j, Default);
    }
  }

  /** The inner `while (j >= 0)`: shifts every value larger than the key one slot right. */
  method ShiftLarger(a: array<Bar>, i: nat, keyVal: int, ghost v0: seq<int>, ghost input: seq<Bar>, steps0: seq<Step>)
    returns (steps: seq<Step>, j: int)
    requires 1 <= i < a.Length == |input| && Shifting(steps0, a[..], v0, input, i, i - 1, keyVal)
    modifies a
    ensures Shifting(steps, a[..], v0, input, i, j, keyVal)
    ensures j >= 0 ==> v0[j] <= keyVal
  {
    steps := steps0;
    j := i - 1;
    while j >= 0
      invariant Shifting(steps, a[..], v0, input, i, j, keyVal)
    {
      var shifted;
      steps, shifted := ShiftStep(a, i, j, keyVal, v0, input, steps);
      if !shifted {
        break;
      }
      j := j - 1;
    }
  }


  /**
   * The working array at the start of iteration i: a rearrangement of the
   * input, [0..i) non-decreasing and [i..) not yet touched.
   */
  ghost predicate SortedPrefix(bars: seq<Bar>, input: seq<Bar>, i: nat)
  {
    && i <= |bars| == |input|
    && Ids(bars) == Ids(input) && multiset(Values(bars)) == multiset(Values(input))
    && NonDecreasingOn(Values(bars), 0, i) && Values(bars)[i..] == Values(input)[i..]
  }

  /** Lines 81-85: write the key into the gap at j+1 and mark [0..i] SORTED. */
  method WriteKey(a: array<Bar>, i: nat, j: int, keyVal: int, ghost v0: seq<int>, ghost input: seq<Bar>)
    requires i < a.Length == |input| == |v0| && keyVal == v0[i] == Values(input)[i]
    requires NonDecreasingOn(v0, 0, i) && Shifted(Values(a[..]), v0, i, j, keyVal)
    requires j >= 0 ==> v0[j] <= keyVal
    requires Ids(a[..]) == Ids(input) && multiset(v0) == multiset(Values(input))
    requires v0[i + 1..] == Values(input)[i + 1..]
    modifies a
    ensures SortedPrefix(a[..], input, i + 1) && forall k :: 0 <= k <= i ==> a[k].status == Sorted
    ensures i >= 1 ==> StepOk(ArrayStep(a[..], [], [], Range(i + 1), 11), input)
  {
    PlaceKey(v0, Values(a[..]), i, j);
    SetValue(a, j + 1, keyVal);
    SetStatus(a, j + 1, Sorted);
    MarkSorted(a, 0, i + 1);
    if i >= 1 {
      InsertedStepOk(a[..], i, input);
    }
  }

  /**
   * Everything the outer `for` keeps at the start of iteration i: the trace
   * opens with the start step, every step is well formed, the last one (from
   * the second iteration on) reports [0..i) sorted, and the working array
   * `bars` has its sorted prefix.
   */
  ghost predicate Inserting(steps: seq<Step>, bars: seq<Bar>, input: seq<Bar>, i: nat)
  {
    && |steps| >= 1 && steps[0] == ArrayStep(input, [], [], [0], 1)
    && (i <= 1 <==> |steps| == 1)
    && InsertionTrace(steps, input)
    && (i >= 2 ==> steps[|steps| - 1].codeLine == Some(11) && steps[|steps| - 1].sortedIndices == Range(i))
    && (i <= |bars| ==> SortedPrefix(bars, input, i))
  }

  /**
   * One iteration of the outer `for`: select the key, shift larger values
   * right, write the key into the gap and mark [0..i] SORTED.
   */
  method InsertOne(a: array<Bar>, i: nat, ghost input: seq<Bar>, steps0: seq<Step>) returns (steps: seq<Step>)
    requires 1 <= i < a.Length && Inserting(steps0, a[..], input, i)
    modifies a
    ensures Inserting(steps, a[..], input, i + 1)
  {
    ghost var v0 := Values(a[..]);
    var keyVal := a[i].value;
    assert keyVal == Values(input)[i] by { assert v0[i..][0] == Values(input)[i..][0]; }
    assert v0[i + 1..] == Values(input)[i + 1..] by { assert v0[i + 1..] == v0[i..][1..]; }
    SetStatus(a, i, Active);
    var select := ArrayStep(a[..], [], [], Range(i), 4);
    SelectStepOk(a[..], i, input);
    Append(steps0, select, input);
    var j;
    steps, j := ShiftLarger(a, i, keyVal, Values(a[..]), input, steps0 + [select]);
    WriteKey(a, i, j, keyVal, v0, input);
    var last := ArrayStep(a[..], [], [], Range(i + 1), 11);
    Append(steps, last, input);
    steps := steps + [last];
  }

  /** Before the outer `for`, the trace is the start step alone. */
  lemma StartInserting(input: seq<Bar>)
    ensures Inserting([ArrayStep(input, [], [], [0], 1)], input, input, 1)
  {
    assert StepOk(ArrayStep(input, [], [], [0], 1), input);
  }

  /**
   * When the outer `for` ends, a trace of more than one step ends with the
   * completed array, and a single-step trace belongs to an input of at most
   * one bar.
   */
  lemma DoneInserting(steps: seq<Step>, bars: seq<Bar>, input: seq<Bar>, i: nat)
    requires 1 <= i && i >= |input| && (|input| >= 1 ==> i == |input|)
    requires Inserting(steps, bars, input, i)
    ensures |input| <= 1 ==> |steps| == 1
    ensures |input| >= 2 ==> Completed(steps[|steps| - 1], input)
  {
    if |input| >= 2 {
      var st := steps[|steps| - 1];
      assert StepOk(st, input);
      assert |st.sortedIndices| == |input|;
    }
  }

  /** The outer `for (let i = 1; i < n; i++)`: inserts every index after the first. */
  method InsertAll(a: array<Bar>, input: seq<Bar>, steps0: seq<Step>) returns (steps: seq<Step>, i: nat)
    requires a.Length == |input| && Inserting(steps0, a[..], input, 1)
    modifies a
    ensures 1 <= i && i >= |input| && (|input| >= 1 ==> i == |input|)
    ensures Inserting(steps, a[..], input, i)
  {
    steps := steps0;
    i := 1;
    while i < a.Length
      invariant 1 <= i && (a.Length >= 1 ==> i <= a.Length)
      invariant Inserting(steps, a[..], input, i)
    {
      steps := InsertOne(a, i, input, steps);
      i := i + 1;
    }
  }

  /**
   * generateInsertionSortSteps: the start step (index 0 reported sorted),
   * then one iteration per index 1..n-1. There is no separate completion
   * step: for n >= 2 the last iteration's step is the completed array.
   */
  method GenerateInsertionSortSteps(input: seq<Bar>) returns (steps: seq<Step>)
    ensures |steps| >= 1 && steps[0] == ArrayStep(input, [], [], [0], 1)
    ensures |input| <= 1 ==> |steps| == 1
    ensures |input| >= 2 ==> Completed(steps[|steps| - 1], input)
    ensures InsertionTrace(steps, input)
  {
    var a := Clone(input);
    StartInserting(input);
    var i;
    steps, i := InsertAll(a, input, [ArrayStep(a[..], [], [], [0], 1)]);
    DoneInserting(steps, a[..], input, i);
  }
}
