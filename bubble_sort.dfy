/**
 * Early-exit bubble sort: passes over a shrinking prefix, comparing and
 * swapping adjacent values, marking the last index of each pass SORTED, until
 * a pass makes no swap.
 */
module BubbleSort {
  import opened Types
  import opened Definitions
  import opened SortingSpec

  /** `cur` is `prev` with the strict inversion at (i, i+1) exchanged. */
  ghost predicate SwapsInversion(prev: seq<int>, cur: seq<int>, i: int)
  {
    0 <= i && i + 1 < |prev| && prev[i] > prev[i + 1] && cur == prev[i := prev[i + 1]][i + 1 := prev[i]]
  }

  /** Values change between snapshots only in a swap step, which exchanges an adjacent strict inversion. */
  ghost predicate Moves(prev: Step, cur: Step)
  {
    || Values(cur.bars) == Values(prev.bars)
    || (&& cur.codeLine == Some(8)
        && |cur.swappedIndices| == 2
        && cur.swappedIndices[1] == cur.swappedIndices[0] + 1
        && SwapsInversion(Values(prev.bars), Values(cur.bars), cur.swappedIndices[0]))
  }

  ghost predicate MovesAt(steps: seq<Step>, k: int)
    requires 0 < k < |steps|
  {
    Moves(steps[k - 1], steps[k])
  }

  /**
   * What one snapshot shows: the input ids at their indices and a
   * rearrangement of the input values; a comparison step names an adjacent
   * in-range pair, both COMPARING; a pass-end step reports at most one index,
   * SORTED and holding its final value (nothing after it is smaller than
   * anything before it).
   */
  ghost predicate StepOk(st: Step, input: seq<Bar>)
  {
    && Ids(st.bars) == Ids(input) && multiset(Values(st.bars)) == multiset(Values(input))
    && (st.codeLine == Some(7) ==>
          && |st.comparedIndices| == 2
          && st.comparedIndices[1] == st.comparedIndices[0] + 1
          && st.comparedIndices[1] < |st.bars|
          && st.bars[st.comparedIndices[0]].status == Comparing
          && st.bars[st.comparedIndices[1]].status == Comparing)
    && (st.codeLine == Some(13) ==>
          || st.sortedIndices == []
          || (&& |st.sortedIndices| == 1
              && st.sortedIndices[0] < |st.bars|
              && st.bars[st.sortedIndices[0]].status == Sorted
              && Settled(Values(st.bars), st.sortedIndices[0])))
  }

  /** The properties every prefix of a bubble sort trace has. */
  ghost predicate BubbleTrace(steps: seq<Step>, input: seq<Bar>)
  {
    && (forall k :: 0 <= k < |steps| ==> StepOk(steps[k], input))
    && (forall k :: 0 < k < |steps| ==> MovesAt(steps, k))
  }

  /**
   * The trace so far is a bubble sort trace that opens with the start step
   * and whose last snapshot is the working array `bars`.
   */
  ghost predicate Tracking(steps: seq<Step>, bars: seq<Bar>, input: seq<Bar>)
  {
    && |steps| >= 1 && steps[0] == ArrayStep(input, [], [], [], 1) && steps[|steps| - 1].bars == bars
    && Ids(bars) == Ids(input) && multiset(Values(bars)) == multiset(Values(input))
    && BubbleTrace(steps, input)
  }

  /** Every comparison step from index `from` on names a pair below `b`. */
  ghost predicate ComparesBelow(steps: seq<Step>, from: nat, b: int)
  {
    forall k :: from <= k < |steps| && steps[k].codeLine == Some(7) && |steps[k].comparedIndices| == 2 ==>
      steps[k].comparedIndices[1] < b
  }

  /** The code line of every step, in order. */
  ghost function Lines(steps: seq<Step>): (r: seq<Option<nat>>)
    ensures |r| == |steps|
  {
    if steps == [] then [] else Lines(steps[..|steps| - 1]) + [steps[|steps| - 1].codeLine]
  }

  lemma {:induction false} LineAt(steps: seq<Step>, k: nat)
    requires k < |steps|
    ensures Lines(steps)[k] == steps[k].codeLine
    decreases |steps|
  {
    if k < |steps| - 1 {
      LineAt(steps[..|steps| - 1], k);
    }
  }

  lemma LinesSnoc(steps: seq<Step>, st: Step)
    ensures Lines(steps + [st]) == Lines(steps) + [st.codeLine]
  {
    assert (steps + [st])[..|steps|] == steps;
  }

  /** Only comparison (line 7) and swap (line 8) steps lie strictly between j and k. */
  ghost predicate Inner(lines: seq<Option<nat>>, j: int, k: int)
    requires 0 <= j < k <= |lines|
  {
    forall m | j < m < k :: lines[m] == Some(7) || lines[m] == Some(8)
  }

  /** A swap (line 8) step lies strictly between j and k. */
  ghost predicate HasSwap(lines: seq<Option<nat>>, j: int, k: int)
    requires 0 <= j < k <= |lines|
  {
    Some(8) in lines[j + 1..k]
  }

  /**
   * Steps j..k are one pass of the `do` body: the "checking" step (line 5),
   * its comparisons and swaps, and the pass-end step (line 13).
   */
  ghost predicate PassBlock(lines: seq<Option<nat>>, j: int, k: int)
  {
    && 0 <= j < k < |lines|
    && lines[j] == Some(5) && lines[k] == Some(13)
    && Inner(lines, j, k)
  }

  /**
   * The `do/while (swapped)` exit: a pass is followed by another pass exactly
   * when it swapped something.
   */
  ghost predicate EarlyExit(lines: seq<Option<nat>>)
  {
    forall j, k | PassBlock(lines, j, k) && k + 1 < |lines| ::
      lines[k + 1] == Some(5) <==> HasSwap(lines, j, k)
  }

  /** Some pass ends at step k. */
  ghost predicate Opened(lines: seq<Option<nat>>, k: int)
  {
    exists j :: PassBlock(lines, j, k)
  }

  /** Every pass-end step closes a pass. */
  ghost predicate Delimited(lines: seq<Option<nat>>)
  {
    forall k {:trigger Opened(lines, k)} | 0 <= k < |lines| && lines[k] == Some(13) :: Opened(lines, k)
  }

  /** The pass opened at j ends the trace and swapped exactly when `swapped` holds. */
  ghost predicate Closing(lines: seq<Option<nat>>, j: int, swapped: bool)
  {
    PassBlock(lines, j, |lines| - 1) && (swapped <==> HasSwap(lines, j, |lines| - 1))
  }

  /** The passes so far, the last of which swapped exactly when `swapped` holds. */
  ghost predicate Rounds(lines: seq<Option<nat>>, swapped: bool)
  {
    && EarlyExit(lines) && Delimited(lines)
    && (|lines| > 1 ==> exists j :: Closing(lines, j, swapped))
  }

  /**
   * The current pass continues `head`, whose last step is its "checking"
   * step, and has swapped exactly when `swapped` holds.
   */
  ghost predicate Since(lines: seq<Option<nat>>, head: seq<Option<nat>>, swapped: bool)
  {
    && 0 < |head| && head <= lines && head[|head| - 1] == Some(5)
    && Inner(lines, |head| - 1, |lines|)
    && (swapped <==> HasSwap(lines, |head| - 1, |lines|))
  }

  /** The pass-end step closes the current pass. */
  lemma CloseBlock(lines: seq<Option<nat>>, head: seq<Option<nat>>, swapped: bool)
    requires Since(lines, head, swapped)
    ensures var t := lines + [Some(13)];
      && head[..|head| - 1] <= t
      && PassBlock(t, |head| - 1, |t| - 1) && (swapped <==> HasSwap(t, |head| - 1, |t| - 1))
  {
    var t := lines + [Some(13)];
    assert forall m | 0 <= m < |lines| :: t[m] == lines[m];
    assert head[..|head| - 1] <= t by {
      assert t[..|head| - 1] == lines[..|head| - 1] == head[..|head| - 1];
    }
    assert t[|head|..|t| - 1] == lines[|head|..|lines|];
  }

  /** The step-level account of a pass in progress, read on its code lines. */
  lemma InnerLines(steps: seq<Step>, pre: seq<Step>, swapped: bool, w: int)
    requires InnerSteps(steps, pre, swapped, w) && |pre| >= 1 && pre[|pre| - 1].codeLine == Some(5)
    ensures Since(Lines(steps), Lines(pre), swapped)
  {
    var lines, head := Lines(steps), Lines(pre);
    forall k | 0 <= k < |steps|
      ensures lines[k] == steps[k].codeLine
    {
      LineAt(steps, k);
    }
    forall k | 0 <= k < |pre|
      ensures head[k] == pre[k].codeLine
    {
      LineAt(pre, k);
    }
    assert head <= lines;
    if swapped {
      assert lines[w] in lines[|pre|..|lines|];
    } else {
      assert Some(8) !in lines[|pre|..|lines|];
    }
  }

  /**
   * A "checking" step, the comparisons and swaps after it, and a pass-end
   * step form one pass that swapped exactly when a swap step lies inside it.
   */
  lemma PassLines(steps0: seq<Step>, checking: Step, inner: seq<Step>, passEnd: Step, swapped: bool, w: int)
    requires checking.codeLine == Some(5) && passEnd.codeLine == Some(13)
    requires InnerSteps(inner, steps0 + [checking], swapped, w)
    ensures var steps := inner + [passEnd];
      && Lines(steps0) <= Lines(steps)
      && PassBlock(Lines(steps), |steps0|, |steps| - 1) && (swapped <==> HasSwap(Lines(steps), |steps0|, |steps| - 1))
  {
    var pre, steps := steps0 + [checking], inner + [passEnd];
    LinesSnoc(steps0, checking);
    var head := Lines(pre);
    InnerLines(inner, pre, swapped, w);
    LinesSnoc(inner, passEnd);
    CloseBlock(Lines(inner), head, swapped);
    assert head[..|head| - 1] == Lines(steps0);
  }

  /** Two passes cannot end at the same step. */
  lemma BlockUnique(lines: seq<Option<nat>>, j: int, j2: int, k: int)
    requires PassBlock(lines, j, k) && PassBlock(lines, j2, k)
    ensures j == j2
  {
  }

  /** A pass inside a prefix is a pass of the whole trace, and conversely. */
  lemma BlockPrefix(lines: seq<Option<nat>>, lines0: seq<Option<nat>>, j: int, k: int)
    requires lines0 <= lines && 0 <= j < k < |lines0|
    ensures PassBlock(lines, j, k) <==> PassBlock(lines0, j, k)
    ensures HasSwap(lines, j, k) <==> HasSwap(lines0, j, k)
  {
    assert lines[j + 1..k] == lines0[j + 1..k];
  }

  /** A pass appended after a swapping pass (or after the start step) keeps the exit discipline. */
  lemma {:induction false} NextPass(lines0: seq<Option<nat>>, lines: seq<Option<nat>>, open: int, swapped: bool)
    requires |lines0| >= 1 && EarlyExit(lines0) && Delimited(lines0) && lines0 <= lines
    requires |lines0| == 1 || Closing(lines0, open, true)
    requires PassBlock(lines, |lines0|, |lines| - 1)
    requires swapped <==> HasSwap(lines, |lines0|, |lines| - 1)
    ensures EarlyExit(lines) && Delimited(lines) && Closing(lines, |lines0|, swapped)
  {
    var n0 := |lines0|;
    assert forall m | 0 <= m < n0 :: lines[m] == lines0[m];
    forall j, k | PassBlock(lines, j, k) && k + 1 < |lines|
      ensures lines[k + 1] == Some(5) <==> HasSwap(lines, j, k)
    {
      if k >= n0 {
        assert false;
      }
      BlockPrefix(lines, lines0, j, k);
      if k + 1 == n0 {
        BlockUnique(lines0, j, open, k);
      }
    }
    forall k | 0 <= k < |lines| && lines[k] == Some(13)
      ensures Opened(lines, k)
    {
      if k < n0 {
        assert Opened(lines0, k);
        var j :| PassBlock(lines0, j, k);
        BlockPrefix(lines, lines0, j, k);
      } else {
        assert k == |lines| - 1;
        assert PassBlock(lines, n0, k);
      }
    }
    assert Closing(lines, n0, swapped);
  }

  /** The completion step after a pass without swaps ends the trace with the exit discipline. */
  lemma {:induction false} LastPass(lines: seq<Option<nat>>)
    requires |lines| > 1 && Rounds(lines, false)
    ensures EarlyExit(lines + [Some(15)]) && Delimited(lines + [Some(15)])
  {
    var t := lines + [Some(15)];
    var n := |lines|;
    assert lines <= t;
    forall j, k | PassBlock(t, j, k) && k + 1 < |t|
      ensures t[k + 1] == Some(5) <==> HasSwap(t, j, k)
    {
      BlockPrefix(t, lines, j, k);
      if k + 1 == n {
        var j2 :| Closing(lines, j2, false);
        BlockUnique(lines, j, j2, k);
      }
    }
    forall k | 0 <= k < |t| && t[k] == Some(13)
      ensures Opened(t, k)
    {
      assert Opened(lines, k);
      var j :| PassBlock(lines, j, k);
      BlockPrefix(t, lines, j, k);
    }
  }

  lemma AppendStep(steps: seq<Step>, bars: seq<Bar>, st: Step, input: seq<Bar>)
    requires Tracking(steps, bars, input)
    requires StepOk(st, input) && Moves(steps[|steps| - 1], st)
    ensures Tracking(steps + [st], st.bars, input)
  {
    var t := steps + [st];
    forall k | 0 <= k < |t|
      ensures StepOk(t[k], input)
    {
      if k < |steps| {
        assert t[k] == steps[k];
      }
    }
    forall k | 0 < k < |t|
      ensures MovesAt(t, k)
    {
      assert t[k - 1] == steps[k - 1];
      if k < |steps| {
        assert t[k] == steps[k] && MovesAt(steps, k);
      }
    }
  }

  lemma AppendBelow(steps: seq<Step>, st: Step, from: nat, b: int)
    requires ComparesBelow(steps, from, b)
    requires st.codeLine == Some(7) && |st.comparedIndices| == 2 ==> st.comparedIndices[1] < b
    ensures ComparesBelow(steps + [st], from, b)
  {
    var t := steps + [st];
    forall k | from <= k < |steps|
      ensures t[k] == steps[k]
    {
    }
  }

  /**
   * The state of a pass after comparing the pairs up to (i-1, i): [b..) is
   * settled, index i holds the maximum of [0..i], and without a swap so far
   * [0..i] is in order.
   */
  ghost predicate Scanned(v: seq<int>, b: int, i: nat, swapped: bool)
  {
    && Settled(v, b)
    && (i < |v| ==> forall p :: 0 <= p <= i ==> v[p] <= v[i])
    && (!swapped ==> NonDecreasingOn(v, 0, i + 1))
  }

  /** Comparing (i, i+1), and exchanging them when inverted, advances the scan by one. */
  lemma ScanStep(v: seq<int>, w: seq<int>, b: int, i: nat, swapped: bool, swappedHere: bool)
    requires i + 1 < b <= |v| && Scanned(v, b, i, swapped)
    requires swappedHere ==> SwapsInversion(v, w, i)
    requires !swappedHere ==> w == v && v[i] <= v[i + 1]
    ensures Scanned(w, b, i + 1, swapped || swappedHere)
  {
    if swappedHere {
      assert Settled(w, b);
    }
  }

  lemma CompareStepOk(bars: seq<Bar>, i: nat, input: seq<Bar>)
    requires i + 1 < |bars| && Ids(bars) == Ids(input) && multiset(Values(bars)) == multiset(Values(input))
    requires bars[i].status == Comparing && bars[i + 1].status == Comparing
    ensures StepOk(ArrayStep(bars, [i, i + 1], [], [], 7), input)
  {
  }

  /**
   * Everything the inner `for` keeps while it stands at pair (i, i+1): the
   * trace tracks the working array, comparisons since `from` stay below `b`,
   * and the values are scanned up to i.
   */
  ghost predicate InPass(steps: seq<Step>, bars: seq<Bar>, input: seq<Bar>, from: nat, b: int, i: nat, swapped: bool)
  {
    && Tracking(steps, bars, input) && ComparesBelow(steps, from, b)
    && Scanned(Values(bars), b, i, swapped)
  }

  /**
   * The trace continues `pre`, and every step after it is a comparison (line
   * 7) or, once `swapped`, a swap (line 8); when `swapped`, step w is a swap.
   */
  ghost predicate InnerSteps(steps: seq<Step>, pre: seq<Step>, swapped: bool, w: int)
  {
    && pre <= steps
    && (forall k :: |pre| <= k < |steps| ==> steps[k].codeLine == Some(7) || (swapped && steps[k].codeLine == Some(8)))
    && (swapped ==> |pre| <= w < |steps| && steps[w].codeLine == Some(8))
  }

  lemma AppendInner(steps: seq<Step>, pre: seq<Step>, swapped: bool, w: int, st: Step)
    requires InnerSteps(steps, pre, swapped, w)
    requires st.codeLine == Some(7) || st.codeLine == Some(8)
    ensures InnerSteps(steps + [st], pre, swapped || st.codeLine == Some(8), if st.codeLine == Some(8) then |steps| else w)
  {
    var t := steps + [st];
    assert t[..|pre|] == steps[..|pre|];
    forall k | 0 <= k < |steps|
      ensures t[k] == steps[k]
    {
    }
  }

  /** InPass, and the steps after `pre` form the current pass so far. */
  ghost predicate Scanning(steps: seq<Step>, bars: seq<Bar>, input: seq<Bar>, from: nat, b: int, i: nat, swapped: bool,
                           pre: seq<Step>, w: int)
  {
    InPass(steps, bars, input, from, b, i, swapped) && InnerSteps(steps, pre, swapped, w)
  }

  /**
   * One iteration of the inner `for`: reset highlights, compare bars i and
   * i+1, and swap their values when the left one is strictly larger.
   * `swapped` becomes true on a swap and otherwise keeps its value.
   */
  method CompareAdjacent(a: array<Bar>, i: nat, b: nat, swapped0: bool, ghost input: seq<Bar>,
                         steps0: seq<Step>, ghost from: nat, ghost pre: seq<Step>, ghost w0: int)
    returns (steps: seq<Step>, swapped: bool, ghost w: int)
    requires i + 1 < b <= a.Length
    requires Scanning(steps0, a[..], input, from, b, i, swapped0, pre, w0)
    modifies a
    ensures |steps| > |steps0| && (swapped0 ==> swapped)
    ensures Scanning(steps, a[..], input, from, b, i + 1, swapped, pre, w)
  {
    ghost var bars := a[..];
    ResetStatus(a);
    SetStatus(a, i, Comparing);
    SetStatus(a, i + 1, Comparing);
    var compare := ArrayStep(a[..], [i, i + 1], [], [], 7);
    CompareStepOk(a[..], i, input);
    AppendStep(steps0, bars, compare, input);
    AppendBelow(steps0, compare, from, b);
    AppendInner(steps0, pre, swapped0, w0, compare);
    steps := steps0 + [compare];
    swapped := swapped0;
    w := w0;
    if a[i].value > a[i + 1].value {
      ghost var mid := steps;
      steps := SwapPair(a, i, b, swapped0, input, steps, from);
      AppendInner(mid, pre, swapped0, w0, steps[|mid|]);
      swapped := true;
      w := |mid|;
    } else {
      ScanStep(Values(a[..]), Values(a[..]), b, i, swapped0, false);
    }
  }

  /** The `if (array[i].value > array[i + 1].value)` branch: mark both SWAPPING and exchange the values. */
  method SwapPair(a: array<Bar>, i: nat, b: nat, ghost swapped0: bool, ghost input: seq<Bar>,
                  steps0: seq<Step>, ghost from: nat)
    returns (steps: seq<Step>)
    requires i + 1 < b <= a.Length && a[i].value > a[i + 1].value
    requires InPass(steps0, a[..], input, from, b, i, swapped0)
    modifies a
    ensures |steps| == |steps0| + 1 && steps == steps0 + [steps[|steps0|]] && steps[|steps0|].codeLine == Some(8)
    ensures InPass(steps, a[..], input, from, b, i + 1, true)
  {
    ghost var v := Values(a[..]);
    ghost var bars := a[..];
    SetStatus(a, i, Swapping);
    SetStatus(a, i + 1, Swapping);
    SwapValues(a, i, i + 1);
    var swap := ArrayStep(a[..], [], [i, i + 1], [], 8);
    assert SwapsInversion(v, Values(a[..]), i);
    AppendStep(steps0, bars, swap, input);
    AppendBelow(steps0, swap, from, b);
    steps := steps0 + [swap];
    ScanStep(v, Values(a[..]), b, i, swapped0, true);
  }

  /**
   * At the end of a pass over [0..m], the prefix maximum at m joins the
   * settled suffix; a pass without swaps leaves the whole array sorted.
   */
  lemma PassDone(v: seq<int>, m: int, swapped: bool)
    requires m < |v| && Settled(v, m + 1)
    requires 0 <= m ==> Scanned(v, m + 1, m, swapped)
    ensures Settled(v, m)
    ensures !swapped ==> Settled(v, 0)
  {
  }

  /** Before the first comparison the pass is empty and the scan stands at pair (0, 1). */
  lemma StartScan(steps: seq<Step>, bars: seq<Bar>, input: seq<Bar>, from: nat, b: int)
    requires 2 <= b <= |bars| && Tracking(steps, bars, input) && ComparesBelow(steps, from, b)
    requires Settled(Values(bars), b)
    ensures Scanning(steps, bars, input, from, b, 0, false, steps, 0)
  {
  }

  /** The inner `for` of one pass: compares (i, i+1) for every i < n-1-sortedCount. */
  method InnerLoop(a: array<Bar>, sortedCount: nat, ghost input: seq<Bar>, steps0: seq<Step>, ghost from: nat)
    returns (steps: seq<Step>, swapped: bool, ghost w: int)
    requires Tracking(steps0, a[..], input) && ComparesBelow(steps0, from, a.Length - sortedCount)
    requires Settled(Values(a[..]), a.Length - sortedCount)
    modifies a
    ensures InnerSteps(steps, steps0, swapped, w)
    ensures Tracking(steps, a[..], input) && ComparesBelow(steps, from, a.Length - sortedCount)
    ensures Settled(Values(a[..]), a.Length - sortedCount - 1)
    ensures !swapped ==> Settled(Values(a[..]), 0)
    ensures swapped ==> sortedCount + 2 <= a.Length
  {
    var n := a.Length;
    var b := n - sortedCount;
    if b >= 2 {
      StartScan(steps0, a[..], input, from, b);
      steps, swapped, w := ScanPairs(a, b, input, steps0, from);
    } else {
      steps, swapped, w := steps0, false, 0;
      PassDone(Values(a[..]), b - 1, false);
    }
  }

  /** The inner `for (let i = 0; i < n - 1 - sortedCount; i++)` over the unsettled prefix of length b. */
  method ScanPairs(a: array<Bar>, b: nat, ghost input: seq<Bar>, steps0: seq<Step>, ghost from: nat)
    returns (steps: seq<Step>, swapped: bool, ghost w: int)
    requires 2 <= b <= a.Length && Scanning(steps0, a[..], input, from, b, 0, false, steps0, 0)
    modifies a
    ensures InnerSteps(steps, steps0, swapped, w)
    ensures Tracking(steps, a[..], input) && ComparesBelow(steps, from, b)
    ensures Settled(Values(a[..]), b - 1)
    ensures !swapped ==> Settled(Values(a[..]), 0)
  {
    steps, swapped, w := steps0, false, 0;
    var i: nat := 0;
    while i < b - 1
      invariant i <= b - 1 && Scanning(steps, a[..], input, from, b, i, swapped, steps0, w)
    {
      steps, swapped, w := CompareAdjacent(a, i, b, swapped, input, steps, from, steps0, w);
      i := i + 1;
    }
    PassDone(Values(a[..]), b - 1, swapped);
  }

  lemma PassEndStepOk(bars: seq<Bar>, s: int, input: seq<Bar>)
    requires s < |bars| && Ids(bars) == Ids(input) && multiset(Values(bars)) == multiset(Values(input))
    requires s >= 0 ==> bars[s].status == Sorted && Settled(Values(bars), s)
    ensures StepOk(ArrayStep(bars, [], [], if s >= 0 then [s] else [], 13), input)
  {
  }

  /**
   * One round of the `do` body: the "checking" step, the inner `for`, then
   * the SORTED mark on index n-1-sortedCount and the pass-end step. Every
   * comparison of the round names a pair below n - sortedCount.
   */
  method Pass(a: array<Bar>, sortedCount: nat, ghost input: seq<Bar>, steps0: seq<Step>)
    returns (steps: seq<Step>, swapped: bool)
    requires Tracking(steps0, a[..], input)
    requires Settled(Values(a[..]), a.Length - sortedCount)
    modifies a
    ensures |steps| >= |steps0| + 2 && Lines(steps0) <= Lines(steps)
    ensures PassBlock(Lines(steps), |steps0|, |steps| - 1) && (swapped <==> HasSwap(Lines(steps), |steps0|, |steps| - 1))
    ensures Tracking(steps, a[..], input) && ComparesBelow(steps, |steps0|, a.Length - sortedCount)
    ensures Settled(Values(a[..]), a.Length - sortedCount - 1)
    ensures !swapped ==> Settled(Values(a[..]), 0)
    ensures swapped ==> sortedCount + 2 <= a.Length
  {
    var n := a.Length;
    var b := n - sortedCount;
    var checking := ArrayStep(a[..], [], [], [], 5);
    AppendStep(steps0, a[..], checking, input);
    var pre := steps0 + [checking];
    var inner;
    ghost var w;
    inner, swapped, w := InnerLoop(a, sortedCount, input, pre, |steps0|);
    var sortedIndex := n - 1 - sortedCount;
    ghost var bars := a[..];
    if 0 <= sortedIndex < n {
      SetStatus(a, sortedIndex, Sorted);
    }
    var passEnd := ArrayStep(a[..], [], [], if sortedIndex >= 0 then [sortedIndex] else [], 13);
    PassEndStepOk(a[..], sortedIndex, input);
    AppendStep(inner, bars, passEnd, input);
    AppendBelow(inner, passEnd, |steps0|, b);
    steps := inner + [passEnd];
    PassLines(steps0, checking, inner, passEnd, swapped, w);
  }

  lemma DoneStepOk(bars: seq<Bar>, input: seq<Bar>)
    requires Ids(bars) == Ids(input) && multiset(Values(bars)) == multiset(Values(input))
    ensures StepOk(ArrayStep(bars, [], [], Range(|bars|), 15), input)
  {
  }

  /** The completion step closes a trace whose last pass made no swap. */
  lemma FinalLines(steps: seq<Step>, done: Step)
    requires |steps| > 1 && Rounds(Lines(steps), false) && done.codeLine == Some(15)
    requires steps[|steps| - 1].codeLine == Some(13)
    ensures EarlyExit(Lines(steps + [done])) && Delimited(Lines(steps + [done]))
  {
    LinesSnoc(steps, done);
    LastPass(Lines(steps));
  }

  /**
   * In a finished trace (a pass-end step, then the completion step) the last
   * pass made no swap: that is why the `do/while` stopped.
   */
  lemma QuietLastPass(lines: seq<Option<nat>>, k: int)
    requires 0 <= k && k + 2 == |lines| && EarlyExit(lines) && Delimited(lines)
    requires lines[k] == Some(13) && lines[k + 1] == Some(15)
    ensures exists j :: PassBlock(lines, j, k) && !HasSwap(lines, j, k)
  {
    assert Opened(lines, k);
  }

  /**
   * The state between two rounds of the `do/while`: the trace tracks the
   * working array, [n-sortedCount..) is settled, the passes so far obey the
   * exit discipline and the last one opened at `open` and swapped exactly
   * when `swapped` holds; once it did not swap, the whole array is sorted.
   */
  ghost predicate Between(steps: seq<Step>, bars: seq<Bar>, input: seq<Bar>, sortedCount: nat, swapped: bool, open: int)
  {
    && sortedCount <= |bars| + 1 && (swapped ==> sortedCount <= |bars|)
    && Tracking(steps, bars, input)
    && Settled(Values(bars), |bars| - sortedCount)
    && (!swapped ==> Settled(Values(bars), 0) && |steps| >= 3)
    && EarlyExit(Lines(steps)) && Delimited(Lines(steps))
    && (|steps| > 1 ==> Closing(Lines(steps), open, swapped))
    && (|steps| == 1 || steps[|steps| - 1].codeLine == Some(13))
  }

  /** One round of the `do/while`, entered because the previous pass swapped. */
  method Round(a: array<Bar>, sortedCount: nat, ghost input: seq<Bar>, steps0: seq<Step>, ghost open0: int)
    returns (steps: seq<Step>, swapped: bool, ghost open: int)
    requires Between(steps0, a[..], input, sortedCount, true, open0)
    modifies a
    ensures Between(steps, a[..], input, sortedCount + 1, swapped, open)
  {
    steps, swapped := Pass(a, sortedCount, input, steps0);
    LineAt(steps0, |steps0| - 1);
    NextPass(Lines(steps0), Lines(steps), open0, swapped);
    open := |steps0|;
    LineAt(steps, |steps| - 1);
  }

  /**
   * The `do { ... } while (swapped)` loop: passes over a shrinking prefix
   * until one makes no swap, after which the whole array is sorted.
   */
  method RunPasses(a: array<Bar>, ghost input: seq<Bar>, steps0: seq<Step>) returns (steps: seq<Step>)
    requires Tracking(steps0, a[..], input) && |steps0| == 1
    requires EarlyExit(Lines(steps0)) && Delimited(Lines(steps0))
    modifies a
    ensures Tracking(steps, a[..], input) && Settled(Values(a[..]), 0) && |steps| >= 3
    ensures Rounds(Lines(steps), false) && steps[|steps| - 1].codeLine == Some(13)
  {
    steps := steps0;
    var swapped := true;
    var sortedCount: nat := 0;
    ghost var open := 0;
    while swapped
      invariant Between(steps, a[..], input, sortedCount, swapped, open)
      decreases a.Length + 1 - sortedCount
    {
      steps, swapped, open := Round(a, sortedCount, input, steps, open);
      sortedCount := sortedCount + 1;
    }
    assert Closing(Lines(steps), open, false);
  }

  /** After the loop: mark every bar SORTED and emit the completion step. */
  method Complete(a: array<Bar>, ghost input: seq<Bar>, steps0: seq<Step>) returns (steps: seq<Step>)
    requires Tracking(steps0, a[..], input) && Settled(Values(a[..]), 0) && |steps0| >= 3
    requires Rounds(Lines(steps0), false) && steps0[|steps0| - 1].codeLine == Some(13)
    modifies a
    ensures |steps| == |steps0| + 1 && steps[0] == steps0[0]
    ensures BubbleTrace(steps, input) && Completed(steps[|steps| - 1], input)
    ensures steps[|steps| - 2].codeLine == Some(13) && steps[|steps| - 1].codeLine == Some(15)
    ensures EarlyExit(Lines(steps)) && Delimited(Lines(steps))
  {
    var n := a.Length;
    ghost var bars := a[..];
    MarkSorted(a, 0, n);
    var done := ArrayStep(a[..], [], [], Range(n), 15);
    DoneStepOk(a[..], input);
    AppendStep(steps0, bars, done, input);
    FinalLines(steps0, done);
    steps := steps0 + [done];
  }

  /**
   * generateBubbleSortSteps: the start step, one pass per round of the
   * `do/while`, then a completion step with every bar SORTED. Another pass
   * follows a pass exactly when it swapped something.
   */
  method GenerateBubbleSortSteps(input: seq<Bar>) returns (steps: seq<Step>)
    ensures |steps| >= 4
    ensures steps[0] == ArrayStep(input, [], [], [], 1)
    ensures BubbleTrace(steps, input)
    ensures Completed(steps[|steps| - 1], input)
    ensures steps[|steps| - 2].codeLine == Some(13) && steps[|steps| - 1].codeLine == Some(15)
    ensures EarlyExit(Lines(steps)) && Delimited(Lines(steps))
  {
    var a := Clone(input);
    var start := ArrayStep(a[..], [], [], [], 1);
    assert Lines([start]) == [Some(1)];
    steps := RunPasses(a, input, [start]);
    steps := Complete(a, input, steps);
  }
}
