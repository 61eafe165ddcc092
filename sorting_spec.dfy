/**
 * What every sorting simulator promises about its trace: ids never move,
 * the values in every snapshot are a rearrangement of the input values, and
 * the completion snapshot shows the sorted rearrangement with every bar
 * SORTED.
 */
module SortingSpec {
  import opened Types
  import opened Definitions

  /** Every position at or after `b` holds a value no smaller than anything before it. */
  ghost predicate Settled(v: seq<int>, b: int)
  {
    forall p, q :: 0 <= p < q < |v| && b <= q ==> v[p] <= v[q]
  }

  /** Every position before `i` holds a value no larger than anything after it. */
  ghost predicate Placed(v: seq<int>, i: int)
  {
    forall p, q :: 0 <= p < q < |v| && p < i ==> v[p] <= v[q]
  }

  /** Values outside [lo..hi] are those of `v0`. */
  ghost predicate Unchanged(v: seq<int>, v0: seq<int>, lo: int, hi: int)
  {
    |v| == |v0| && forall k :: 0 <= k < |v| && (k < lo || hi < k) ==> v[k] == v0[k]
  }

  /**
   * A rearrangement of the whole sequence that leaves everything outside
   * [lo..hi] in place is a rearrangement of [lo..hi].
   */
  lemma SegmentPermutes(v: seq<int>, w: seq<int>, lo: int, hi: int)
    requires 0 <= lo <= hi + 1 <= |v|
    requires multiset(w) == multiset(v) && Unchanged(w, v, lo, hi)
    ensures multiset(w[lo..hi + 1]) == multiset(v[lo..hi + 1])
  {
    assert v == v[..lo] + v[lo..hi + 1] + v[hi + 1..];
    assert w == w[..lo] + w[lo..hi + 1] + w[hi + 1..];
    assert w[..lo] == v[..lo] && w[hi + 1..] == v[hi + 1..];
    var outside := multiset(v[..lo]) + multiset(v[hi + 1..]);
    calc {
      multiset(w[lo..hi + 1]);
      multiset(w) - outside;
      multiset(v) - outside;
      multiset(v[lo..hi + 1]);
    }
  }

  /** Every snapshot keeps each id at its input index and the multiset of input values. */
  ghost predicate Faithful(steps: seq<Step>, input: seq<Bar>)
  {
    forall k :: 0 <= k < |steps| ==>
      Ids(steps[k].bars) == Ids(input) && multiset(Values(steps[k].bars)) == multiset(Values(input))
  }

  /** The completion snapshot: the sorted rearrangement of the input, all SORTED, sortedIndices [0..n-1]. */
  ghost predicate Completed(st: Step, input: seq<Bar>)
  {
    && Ids(st.bars) == Ids(input)
    && multiset(Values(st.bars)) == multiset(Values(input))
    && NonDecreasing(Values(st.bars))
    && (forall k :: 0 <= k < |st.bars| ==> st.bars[k].status == Sorted)
    && st.sortedIndices == Range(|input|)
  }

  lemma SettledAtZero(v: seq<int>)
    requires Settled(v, 0)
    ensures NonDecreasing(v)
  {
  }

  /** The least element of a non-decreasing sequence comes first. */
  lemma {:induction false} HeadIsMinimum(s: seq<int>, x: int)
    requires NonDecreasing(s) && x in multiset(s)
    ensures |s| > 0 && s[0] <= x
  {
    assert x in s;
    var k :| 0 <= k < |s| && s[k] == x;
    assert k == 0 || s[0] <= s[k];
  }

  lemma TailNonDecreasing(s: seq<int>)
    requires |s| > 0 && NonDecreasing(s)
    ensures NonDecreasing(s[1..])
  {
    forall p, q | 0 <= p < q < |s| - 1
      ensures s[1..][p] <= s[1..][q]
    {
      assert s[1..][p] == s[p + 1] && s[1..][q] == s[q + 1];
    }
  }

  /** Removing equal heads from two rearrangements of each other leaves rearrangements of each other. */
  lemma TailsPermute(s: seq<int>, t: seq<int>)
    requires |s| > 0 && |t| > 0 && s[0] == t[0] && multiset(s) == multiset(t)
    ensures multiset(s[1..]) == multiset(t[1..])
  {
    assert s == [s[0]] + s[1..] && t == [t[0]] + t[1..];
    calc {
      multiset(s[1..]);
      multiset(s) - multiset{s[0]};
      multiset(t) - multiset{t[0]};
      multiset(t[1..]);
    }
  }

  /**
   * Two non-decreasing rearrangements of the same values are equal, so every
   * sorting simulator ends with the same values for the same input.
   */
  lemma {:induction false} SortedUnique(s: seq<int>, t: seq<int>)
    requires NonDecreasing(s) && NonDecreasing(t)
    requires multiset(s) == multiset(t)
    ensures s == t
    decreases |s|
  {
    assert |s| == |multiset(s)| == |multiset(t)| == |t|;
    if |s| > 0 {
      assert s[0] in multiset(t) && t[0] in multiset(s);
      HeadIsMinimum(t, s[0]);
      HeadIsMinimum(s, t[0]);
      TailsPermute(s, t);
      TailNonDecreasing(s);
      TailNonDecreasing(t);
      SortedUnique(s[1..], t[1..]);
      assert s == [s[0]] + s[1..] && t == [t[0]] + t[1..];
    }
  }
}
