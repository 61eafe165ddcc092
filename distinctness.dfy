/**
 * Sequences without repeated elements, and the counting facts the graph
 * searches need: a repetition-free list of node indices below n is at most
 * n long, and a list holding every index below n is at least n long.
 */
module Distinctness {
  import opened Types

  ghost predicate Distinct<T>(s: seq<T>)
  {
    forall i, j | 0 <= i < j < |s| :: s[i] != s[j]
  }

  /** Two repetition-free lists with no element in common concatenate to one. */
  lemma DistinctAppend<T>(a: seq<T>, b: seq<T>)
    requires Distinct(a) && Distinct(b) && forall k | 0 <= k < |b| :: b[k] !in a
    ensures Distinct(a + b)
  {
    forall i, j | 0 <= i < j < |a + b| ensures (a + b)[i] != (a + b)[j] {
      if j >= |a| && i < |a| {
        assert (a + b)[j] == b[j - |a|];
      }
    }
  }

  /** A repetition-free list whose elements all occur in b is no longer than b. */
  lemma {:induction false} Fewer<T>(a: seq<T>, b: seq<T>)
    requires Distinct(a) && forall k | 0 <= k < |a| :: a[k] in b
    ensures |a| <= |b|
    decreases |a|
  {
    if a != [] {
      var x := a[|a| - 1];
      var i :| 0 <= i < |b| && b[i] == x;
      var b' := b[..i] + b[i + 1..];
      var a' := a[..|a| - 1];
      forall k | 0 <= k < |a'| ensures a'[k] in b' {
        assert a'[k] == a[k] && a[k] != x;
        var m :| 0 <= m < |b| && b[m] == a'[k];
        if m < i {
          assert b'[m] == b[m];
        } else {
          assert b'[m - 1] == b[m];
        }
      }
      Fewer(a', b');
    }
  }

  /** Pigeonhole: a repetition-free list of indices below n has at most n elements. */
  lemma Pigeon(a: seq<nat>, n: nat)
    requires Distinct(a) && forall k | 0 <= k < |a| :: a[k] < n
    ensures |a| <= n
  {
    forall k | 0 <= k < |a| ensures a[k] in Range(n) {
      assert Range(n)[a[k]] == a[k];
    }
    Fewer(a, Range(n));
  }

  /** A list holding every index below n has at least n elements. */
  lemma Covers(a: seq<nat>, n: nat)
    requires forall x | 0 <= x < n :: x in a
    ensures |a| >= n
  {
    Fewer(Range(n), a);
  }

  /** A repetition-free list of n indices below n holds every index below n. */
  lemma Full(a: seq<nat>, n: nat)
    requires Distinct(a) && |a| == n && forall k | 0 <= k < |a| :: a[k] < n
    ensures forall x | 0 <= x < n :: x in a
  {
    forall x | 0 <= x < n ensures x in a {
      if x !in a {
        var others := Range(n)[..x] + Range(n)[x + 1..];
        forall k | 0 <= k < |a| ensures a[k] in others {
          if a[k] < x {
            assert others[a[k]] == a[k];
          } else {
            assert others[a[k] - 1] == a[k];
          }
        }
        Fewer(a, others);
      }
    }
  }

  /** In a repetition-free list every element occurs once. */
  lemma {:induction false} DistinctOnce<T>(s: seq<T>, x: T)
    requires Distinct(s)
    ensures multiset(s)[x] <= 1
    decreases |s|
  {
    if s != [] {
      var t := s[..|s| - 1];
      assert s == t + [s[|s| - 1]];
      DistinctOnce(t, x);
      assert s[|s| - 1] !in t;
    }
  }

  /** A rearrangement of a repetition-free list is repetition-free. */
  lemma DistinctPermutation<T>(a: seq<T>, b: seq<T>)
    requires Distinct(a) && multiset(a) == multiset(b)
    ensures Distinct(b)
  {
    forall i, j | 0 <= i < j < |b| ensures b[i] != b[j] {
      var x := b[i];
      DistinctOnce(a, x);
      assert b == b[..j] + b[j..];
      assert x in b[..j] && b[j] in b[j..];
      assert multiset(b)[x] == multiset(b[..j])[x] + multiset(b[j..])[x];
    }
  }

  /** Being a prefix is transitive. */
  lemma PrefixTrans<T>(a: seq<T>, b: seq<T>, c: seq<T>)
    requires a <= b && b <= c
    ensures a <= c
  {
    assert a == b[..|a|] && b == c[..|b|];
    assert c[..|b|][..|a|] == c[..|a|];
  }

  /** The prefix of length k + 1 is the prefix of length k and then element k. */
  lemma PrefixSnoc<T>(s: seq<T>, k: nat)
    requires k < |s|
    ensures s[..k + 1] == s[..k] + [s[k]]
  {
    assert forall i | 0 <= i <= k :: s[..k + 1][i] == (s[..k] + [s[k]])[i];
  }
}
