/**
 * The array helpers every sorting simulator uses: resetting highlights,
 * colouring a range, and the projections (values, ids) in which the
 * sorting contracts are stated.
 */
module Definitions {
  import opened Types

  /** The `value` of every bar, in index order. */
  function Values(s: seq<Bar>): seq<int>
  {
    seq(|s|, i requires 0 <= i < |s| => s[i].value)
  }

  /** The `id` of every bar, in index order. */
  function Ids(s: seq<Bar>): seq<string>
  {
    seq(|s|, i requires 0 <= i < |s| => s[i].id)
  }

  /** v[lo..hi) is non-decreasing. */
  ghost predicate NonDecreasingOn(v: seq<int>, lo: int, hi: int)
  {
    forall p, q :: 0 <= lo <= p < q < hi <= |v| ==> v[p] <= v[q]
  }

  ghost predicate NonDecreasing(v: seq<int>)
  {
    NonDecreasingOn(v, 0, |v|)
  }

  /** Every bar that is not SORTED goes back to DEFAULT. */
  function ResetBar(b: Bar): Bar
  {
    if b.status == Sorted then b else b.(status := Default)
  }

  /** The state `resetStatus` leaves behind. */
  function Reset(s: seq<Bar>): (r: seq<Bar>)
    ensures Values(r) == Values(s) && Ids(r) == Ids(s)
  {
    seq(|s|, i requires 0 <= i < |s| => ResetBar(s[i]))
  }

  /** The state `setRangeStatus(arr, start, end, st)` leaves behind. */
  function SetRange(s: seq<Bar>, start: int, end: int, st: Status): (r: seq<Bar>)
    ensures Values(r) == Values(s) && Ids(r) == Ids(s)
  {
    seq(|s|, i requires 0 <= i < |s| =>
      if start <= i <= end && s[i].status != Sorted then s[i].(status := st) else s[i])
  }

  /**
   * `clone(initialArray)` as the simulators use it: a fresh working array
   * holding a copy of every bar. Snapshots taken with `clone(array)` before
   * each yield are the value `a[..]` itself.
   */
  method Clone(s: seq<Bar>) returns (a: array<Bar>)
    ensures fresh(a) && a[..] == s
  {
    a := new Bar[|s|](i requires 0 <= i < |s| => s[i]);
  }

  /** `resetStatus`: walks the bars and clears every highlight except SORTED. */
  method ResetStatus(a: array<Bar>)
    modifies a
    ensures a[..] == Reset(old(a[..]))
  {
    for i := 0 to a.Length
      invariant forall k :: 0 <= k < i ==> a[k] == ResetBar(old(a[k]))
      invariant forall k :: i <= k < a.Length ==> a[k] == old(a[k])
    {
      if a[i].status != Sorted {
        a[i] := a[i].(status := Default);
      }
    }
  }

  /** `setRangeStatus`: colours start..end inclusive, skipping indices outside the array and SORTED bars. */
  method SetRangeStatus(a: array<Bar>, start: int, end: int, status: Status)
    modifies a
    ensures a[..] == SetRange(old(a[..]), start, end, status)
  {
    var i := start;
    while i <= end
      invariant start <= i && (i <= end + 1 || i == start)
      invariant forall k :: 0 <= k < a.Length ==>
        a[k] == if start <= k < i && old(a[k]).status != Sorted then old(a[k]).(status := status) else old(a[k])
      decreases end - i
    {
      if 0 <= i < a.Length && a[i].status != Sorted {
        a[i] := a[i].(status := status);
      }
      i := i + 1;
    }
    assert forall k :: 0 <= k < a.Length ==> a[k] == SetRange(old(a[..]), start, end, status)[k];
  }

  /** `array[i].status = st`: recolours one bar. */
  method SetStatus(a: array<Bar>, i: nat, st: Status)
    requires i < a.Length
    modifies a
    ensures a[..] == old(a[..])[i := old(a[i]).(status := st)]
    ensures a[i] == old(a[i]).(status := st) && forall k :: 0 <= k < a.Length && k != i ==> a[k] == old(a[k])
    ensures Values(a[..]) == Values(old(a[..])) && Ids(a[..]) == Ids(old(a[..]))
  {
    a[i] := a[i].(status := st);
  }

  /** `array[i].value = x`: overwrites one value; the id and status stay. */
  method SetValue(a: array<Bar>, i: nat, x: int)
    requires i < a.Length
    modifies a
    ensures a[..] == old(a[..])[i := old(a[i]).(value := x)]
    ensures a[i] == old(a[i]).(value := x) && forall k :: 0 <= k < a.Length && k != i ==> a[k] == old(a[k])
    ensures Values(a[..]) == Values(old(a[..]))[i := x] && Ids(a[..]) == Ids(old(a[..]))
  {
    a[i] := a[i].(value := x);
  }

  /** Marks start..end-1 SORTED (the `for (...) array[i].status = SORTED` loops of the sorts). */
  method MarkSorted(a: array<Bar>, start: nat, end: nat)
    requires start <= end <= a.Length
    modifies a
    ensures forall k :: 0 <= k < a.Length ==>
      a[k] == if start <= k < end then old(a[k]).(status := Sorted) else old(a[k])
    ensures Values(a[..]) == Values(old(a[..])) && Ids(a[..]) == Ids(old(a[..]))
  {
    for i := start to end
      invariant forall k :: 0 <= k < a.Length ==>
        a[k] == if start <= k < i then old(a[k]).(status := Sorted) else old(a[k])
    {
      a[i] := a[i].(status := Sorted);
    }
  }

  /** Exchanges the values of two bars; ids and statuses stay at their indices. */
  method SwapValues(a: array<Bar>, i: nat, j: nat)
    requires i < a.Length && j < a.Length
    modifies a
    ensures Values(a[..]) == Values(old(a[..]))[i := old(a[j].value)][j := old(a[i].value)]
    ensures multiset(Values(a[..])) == multiset(Values(old(a[..])))
    ensures forall k :: 0 <= k < a.Length ==> a[k].id == old(a[k].id) && a[k].status == old(a[k].status)
    ensures Ids(a[..]) == Ids(old(a[..]))
  {
    var temp := a[i].value;
    a[i] := a[i].(value := a[j].value);
    a[j] := a[j].(value := temp);
  }

  // Properties of the two status helpers.

  /** resetStatus keeps SORTED bars, sends every other bar to DEFAULT, and touches nothing else. */
  lemma ResetStatusEffect(s: seq<Bar>, i: int)
    requires 0 <= i < |s|
    ensures |Reset(s)| == |s|
    ensures s[i].status == Sorted ==> Reset(s)[i] == s[i]
    ensures s[i].status != Sorted ==> Reset(s)[i] == s[i].(status := Default)
  {
  }

  /** Applying resetStatus twice is the same as applying it once. */
  lemma ResetIdempotent(s: seq<Bar>)
    ensures Reset(Reset(s)) == Reset(s)
  {
  }

  /** setRangeStatus touches only in-range indices and never a SORTED bar. */
  lemma SetRangeEffect(s: seq<Bar>, start: int, end: int, st: Status, i: int)
    requires 0 <= i < |s|
    ensures |SetRange(s, start, end, st)| == |s|
    ensures (i < start || end < i || s[i].status == Sorted) ==> SetRange(s, start, end, st)[i] == s[i]
    ensures s[i].status == Sorted ==> SetRange(s, start, end, st)[i].status == Sorted
    ensures start <= i <= end && s[i].status != Sorted ==> SetRange(s, start, end, st)[i] == s[i].(status := st)
  {
  }

  /** setRangeStatus with start > end changes nothing. */
  lemma SetRangeEmpty(s: seq<Bar>, start: int, end: int, st: Status)
    requires start > end
    ensures SetRange(s, start, end, st) == s
  {
  }
}
