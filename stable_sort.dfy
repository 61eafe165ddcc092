/**
 * `Array.prototype.sort` with a numeric comparator `(a, b) => key(a) - key(b)`,
 * which the language guarantees to be stable: the result is ordered by key
 * and elements with equal keys keep their relative order. It is modelled by
 * insertion sort, one stable sort among many with the same result.
 */
module StableSort {

  /** Inserts x in front of the first element whose key is at least x's. */
  function InsertBy<T>(x: T, s: seq<T>, key: T -> int): (r: seq<T>)
    ensures |r| == |s| + 1 && multiset(r) == multiset(s) + multiset{x}
    ensures forall y | y in r :: y == x || y in s
  {
    if s == [] || key(x) <= key(s[0]) then [x] + s
    else
      assert s == [s[0]] + s[1..];
      [s[0]] + InsertBy(x, s[1..], key)
  }

  /** `[...s].sort((a, b) => key(a) - key(b))`. */
  function SortBy<T>(s: seq<T>, key: T -> int): (r: seq<T>)
    ensures |r| == |s|
  {
    if s == [] then [] else InsertBy(s[0], SortBy(s[1..], key), key)
  }

  ghost predicate SortedBy<T>(s: seq<T>, key: T -> int)
  {
    forall i, j | 0 <= i < j < |s| :: key(s[i]) <= key(s[j])
  }

  lemma {:induction false} InsertSorted<T>(x: T, s: seq<T>, key: T -> int)
    requires SortedBy(s, key)
    ensures SortedBy(InsertBy(x, s, key), key)
    decreases |s|
  {
    if s != [] && key(x) > key(s[0]) {
      InsertSorted(x, s[1..], key);
      var r := InsertBy(x, s, key);
      assert r == [s[0]] + InsertBy(x, s[1..], key);
      forall k | 0 < k < |r| ensures key(s[0]) <= key(r[k]) {
        assert r[k] == InsertBy(x, s[1..], key)[k - 1];
        assert r[k] in InsertBy(x, s[1..], key);
        if r[k] != x {
          var m :| 0 <= m < |s[1..]| && s[1..][m] == r[k];
          assert s[1..][m] == s[m + 1];
        }
      }
    }
  }

  /** The result is a permutation of the input ordered by key. */
  lemma {:induction false} SortByPermutes<T>(s: seq<T>, key: T -> int)
    ensures SortedBy(SortBy(s, key), key)
    ensures multiset(SortBy(s, key)) == multiset(s)
    decreases |s|
  {
    if s != [] {
      SortByPermutes(s[1..], key);
      InsertSorted(s[0], SortBy(s[1..], key), key);
      assert s == [s[0]] + s[1..];
    }
  }

  /** The position of the first element of s with the smallest key. */
  function FirstMin<T>(s: seq<T>, key: T -> int): (i: nat)
    requires s != []
    ensures i < |s|
    ensures forall j | 0 <= j < |s| :: key(s[i]) <= key(s[j])
    ensures forall j | 0 <= j < i :: key(s[i]) < key(s[j])
  {
    if |s| == 1 then 0
    else
      var m := FirstMin(s[1..], key) + 1;
      assert forall j | 1 <= j < |s| :: s[j] == s[1..][j - 1];
      if key(s[0]) <= key(s[m]) then 0 else m
  }

  /** Stability at the front: the first element after sorting is the earliest of the minimal ones. */
  lemma {:induction false} SortByHead<T>(s: seq<T>, key: T -> int)
    requires s != []
    ensures SortBy(s, key)[0] == s[FirstMin(s, key)]
    decreases |s|
  {
    if |s| > 1 {
      SortByHead(s[1..], key);
      var t := SortBy(s[1..], key);
      var m := FirstMin(s[1..], key) + 1;
      assert s[1..][m - 1] == s[m];
    }
  }

  /** s is strictly increasing. */
  ghost predicate Increasing(s: seq<nat>)
  {
    forall i, j | 0 <= i < j < |s| :: s[i] < s[j]
  }

  /** Ordered by key, and by position among equal keys. */
  ghost predicate LexSorted(s: seq<nat>, key: nat -> int)
  {
    forall i, j | 0 <= i < j < |s| :: key(s[i]) < key(s[j]) || (key(s[i]) == key(s[j]) && s[i] < s[j])
  }

  lemma {:induction false} InsertLex(x: nat, s: seq<nat>, key: nat -> int)
    requires LexSorted(s, key) && forall k | 0 <= k < |s| :: x < s[k]
    ensures LexSorted(InsertBy(x, s, key), key)
    decreases |s|
  {
    if s != [] && key(x) > key(s[0]) {
      InsertLex(x, s[1..], key);
      var r := InsertBy(x, s, key);
      assert r == [s[0]] + InsertBy(x, s[1..], key);
      forall k | 0 < k < |r| ensures key(s[0]) < key(r[k]) || (key(s[0]) == key(r[k]) && s[0] < r[k]) {
        assert r[k] == InsertBy(x, s[1..], key)[k - 1];
        assert r[k] in InsertBy(x, s[1..], key);
        if r[k] != x {
          var m :| 0 <= m < |s[1..]| && s[1..][m] == r[k];
          assert s[1..][m] == s[m + 1];
        }
      }
    }
  }

  /**
   * Stability for a list of distinct positions given in increasing order
   * (`[...edges].sort(...)` over the edge list): equal keys stay in
   * position order.
   */
  lemma {:induction false} SortByLex(s: seq<nat>, key: nat -> int)
    requires Increasing(s)
    ensures LexSorted(SortBy(s, key), key)
    decreases |s|
  {
    if s != [] {
      SortByLex(s[1..], key);
      SortByPermutes(s[1..], key);
      var t := SortBy(s[1..], key);
      forall k | 0 <= k < |t| ensures s[0] < t[k] {
        assert t[k] in multiset(s[1..]);
        var m :| 0 <= m < |s[1..]| && s[1..][m] == t[k];
        assert s[1..][m] == s[m + 1];
      }
      InsertLex(s[0], t, key);
    }
  }
}
