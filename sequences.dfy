/**
 * Sequence facts shared by the aggregations: distinct elements, sums of a
 * per-element quantity, and a sort into non-increasing order of a key
 * (pandas' `sort_values(..., ascending=False)` and `value_counts()`).
 */
module Sequences {

  ghost predicate Distinct<T>(s: seq<T>)
  {
    forall i, j :: 0 <= i < j < |s| ==> s[i] != s[j]
  }

  /** Sum of `f` over the elements of `s`. */
  function SumOf<T>(s: seq<T>, f: T -> int): int
    decreases |s|
  {
    if |s| == 0 then 0 else f(s[0]) + SumOf(s[1..], f)
  }

  predicate NonIncreasing<T>(s: seq<T>, key: T -> int)
  {
    forall i, j :: 0 <= i < j < |s| ==> key(s[i]) >= key(s[j])
  }

  // ---------------------------------------------------------------- distinct elements

  lemma {:induction false} DistinctAtMostOnce<T>(s: seq<T>)
    requires Distinct(s)
    ensures forall x :: multiset(s)[x] <= 1
    decreases |s|
  {
    if s != [] {
      assert Distinct(s[1..]);
      DistinctAtMostOnce(s[1..]);
      assert s == [s[0]] + s[1..];
      assert s[0] !in s[1..];
    }
  }

  lemma TwiceCountsTwo<T>(s: seq<T>, i: nat, j: nat)
    requires i < j < |s|
    ensures s[i] == s[j] ==> multiset(s)[s[i]] >= 2
  {
    assert s == s[..j] + s[j..];
    assert s[i] in s[..j];
    assert s[j] in s[j..];
  }

  lemma AtMostOnceDistinct<T>(s: seq<T>)
    requires forall x :: multiset(s)[x] <= 1
    ensures Distinct(s)
  {
    forall i, j | 0 <= i < j < |s| ensures s[i] != s[j] {
      TwiceCountsTwo(s, i, j);
    }
  }

  /** Reordering a sequence of distinct elements gives distinct elements. */
  lemma PermutationKeepsDistinct<T>(r: seq<T>, s: seq<T>)
    requires multiset(r) == multiset(s) && Distinct(s)
    ensures Distinct(r)
  {
    DistinctAtMostOnce(s);
    AtMostOnceDistinct(r);
  }

  /** A permutation has the same members. */
  lemma PermutationMembers<T>(r: seq<T>, s: seq<T>)
    requires multiset(r) == multiset(s)
    ensures forall x :: x in r <==> x in s
  {
    forall x ensures x in r <==> x in s {
      assert x in r <==> x in multiset(r);
      assert x in s <==> x in multiset(s);
    }
  }

  // ---------------------------------------------------------------- sums

  lemma {:induction false} SumOfConcat<T>(a: seq<T>, b: seq<T>, f: T -> int)
    ensures SumOf(a + b, f) == SumOf(a, f) + SumOf(b, f)
    decreases |a|
  {
    if |a| == 0 {
      assert a + b == b;
    } else {
      assert (a + b)[0] == a[0];
      assert (a + b)[1..] == a[1..] + b;
      SumOfConcat(a[1..], b, f);
    }
  }

  /** Reordering a sequence does not change a sum over it. */
  lemma {:induction false} SumOfPermutation<T>(r: seq<T>, s: seq<T>, f: T -> int)
    requires multiset(r) == multiset(s)
    ensures SumOf(r, f) == SumOf(s, f)
    decreases |r|
  {
    if r == [] {
      assert |s| == |multiset(s)| == 0;
    } else {
      assert r[0] in multiset(s);
      var k :| 0 <= k < |s| && s[k] == r[0];
      PermutationTail(r, s, k);
      SumOfRemove(s, k, f);
      SumOfPermutation(r[1..], s[..k] + s[k + 1..], f);
    }
  }

  /** Taking the first element off one side and an equal one off the other keeps a permutation. */
  lemma PermutationTail<T>(r: seq<T>, s: seq<T>, k: nat)
    requires multiset(r) == multiset(s) && |r| > 0 && k < |s| && s[k] == r[0]
    ensures multiset(r[1..]) == multiset(s[..k] + s[k + 1..])
  {
    MultisetRemove([], r[0], r[1..]);
    assert [] + ([r[0]] + r[1..]) == r;
    MultisetRemove(s[..k], s[k], s[k + 1..]);
    assert s[..k] + ([s[k]] + s[k + 1..]) == s;
  }

  /** Replacing one element changes the sum by the difference of the two values. */
  lemma {:induction false} SumOfUpdate<T>(s: seq<T>, n: nat, x: T, f: T -> int)
    requires n < |s|
    ensures SumOf(s[n := x], f) == SumOf(s, f) - f(s[n]) + f(x)
    decreases n
  {
    if n > 0 {
      SumOfUpdate(s[1..], n - 1, x, f);
      assert s[n := x][1..] == s[1..][n - 1 := x];
    }
  }

  /** Taking one element out of a sequence takes its value out of the sum. */
  lemma {:induction false} SumOfRemove<T>(s: seq<T>, k: nat, f: T -> int)
    requires k < |s|
    ensures SumOf(s, f) == f(s[k]) + SumOf(s[..k] + s[k + 1..], f)
    decreases k
  {
    if k == 0 {
      assert s[..k] + s[k + 1..] == s[1..];
    } else {
      SumOfRemove(s[1..], k - 1, f);
      var rest := s[1..][..k - 1] + s[1..][k..];
      assert s[..k] + s[k + 1..] == [s[0]] + rest;
      assert ([s[0]] + rest)[1..] == rest;
    }
  }

  lemma MultisetRemove<T>(a: seq<T>, x: T, b: seq<T>)
    ensures multiset(a + b) == multiset(a + ([x] + b)) - multiset{x}
  {
    assert multiset(a + ([x] + b)) == multiset(a) + multiset{x} + multiset(b);
    assert multiset(a + b) == multiset(a) + multiset(b);
  }

  // ---------------------------------------------------------------- sorting

  /** Places `x` before the first element whose key is not larger than its own. */
  function Insert<T>(x: T, s: seq<T>, key: T -> int): (r: seq<T>)
    requires NonIncreasing(s, key)
    ensures NonIncreasing(r, key)
    ensures multiset(r) == multiset(s) + multiset{x}
    ensures |r| == |s| + 1
    ensures key(r[0]) == key(x) || (|s| > 0 && key(r[0]) == key(s[0]))
    decreases |s|
  {
    if |s| == 0 || key(x) >= key(s[0]) then
      ConsNonIncreasing(x, s, key);
      [x] + s
    else
      var t := Insert(x, s[1..], key);
      assert s == [s[0]] + s[1..];
      ConsNonIncreasing(s[0], t, key);
      [s[0]] + t
  }

  /** An element no smaller than the head of a non-increasing sequence can go in front of it. */
  lemma ConsNonIncreasing<T>(y: T, t: seq<T>, key: T -> int)
    requires NonIncreasing(t, key) && (|t| == 0 || key(y) >= key(t[0]))
    ensures NonIncreasing([y] + t, key)
  {
    var r := [y] + t;
    forall i, j | 0 <= i < j < |r| ensures key(r[i]) >= key(r[j]) {
      assert r[j] == t[j - 1];
      if i > 0 {
        assert r[i] == t[i - 1];
      }
    }
  }

  /** Insertion sort into non-increasing order of `key`. */
  function SortDesc<T>(s: seq<T>, key: T -> int): (r: seq<T>)
    ensures NonIncreasing(r, key)
    ensures multiset(r) == multiset(s)
    ensures |r| == |s|
    decreases |s|
  {
    if |s| == 0 then []
    else
      assert s == [s[0]] + s[1..];
      Insert(s[0], SortDesc(s[1..], key), key)
  }
}
