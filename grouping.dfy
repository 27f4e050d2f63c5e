/**
 * pandas' `groupby(column, sort=False)` over a sequence of rows: rows whose
 * key is missing are dropped, the others are collected into one group per
 * key, groups in order of first appearance and rows in dataset order.
 * `GroupBy` is the one-pass fold a dictionary of groups performs; `Select`
 * and `FirstAt` are the reference definitions it is proved against.
 */
module Grouping {
  import opened Common

  datatype Group<K, T> = Group(key: K, members: seq<T>)

  ghost predicate KeysDistinct<K, T>(gs: seq<Group<K, T>>)
  {
    forall i, j :: 0 <= i < j < |gs| ==> gs[i].key != gs[j].key
  }

  /** The rows of `s` whose key is `k`, in dataset order. */
  function Select<T, K(==)>(s: seq<T>, key: T -> Option<K>, k: K): (r: seq<T>)
    ensures |r| <= |s|
    decreases |s|
  {
    if |s| == 0 then []
    else
      var init := Select(s[..|s| - 1], key, k);
      if key(s[|s| - 1]) == Some(k) then init + [s[|s| - 1]] else init
  }

  /** `Select` keeps exactly the rows of `s` whose key is `k`. */
  lemma {:induction false} SelectMembers<T, K>(s: seq<T>, key: T -> Option<K>, k: K)
    ensures forall x :: x in Select(s, key, k) ==> x in s && key(x) == Some(k)
    ensures forall n :: 0 <= n < |s| && key(s[n]) == Some(k) ==> s[n] in Select(s, key, k)
    decreases |s|
  {
    if |s| > 0 {
      var init := s[..|s| - 1];
      SelectMembers(init, key, k);
      assert forall n :: 0 <= n < |init| ==> s[n] == init[n];
    }
  }

  /** `Select` keeps every row whose key is `k` as often as it occurs in `s`, and no other row. */
  lemma {:induction false} SelectMultiset<T, K>(s: seq<T>, key: T -> Option<K>, k: K)
    ensures forall x :: multiset(Select(s, key, k))[x] == if key(x) == Some(k) then multiset(s)[x] else 0
    decreases |s|
  {
    if |s| > 0 {
      var init := s[..|s| - 1];
      SelectMultiset(init, key, k);
      assert s == init + [s[|s| - 1]];
    }
  }

  /** The rows of `s` that have a key at all. */
  function Keyed<T, K>(s: seq<T>, key: T -> Option<K>): (r: seq<T>)
    ensures |r| <= |s|
    decreases |s|
  {
    if |s| == 0 then []
    else
      var init := Keyed(s[..|s| - 1], key);
      if key(s[|s| - 1]).Some? then init + [s[|s| - 1]] else init
  }

  /** Position of the first row whose key is `k`; `|s|` when there is none. */
  function FirstAt<T, K(==)>(s: seq<T>, key: T -> Option<K>, k: K): (n: nat)
    ensures n <= |s|
    decreases |s|
  {
    if |s| == 0 then 0
    else if key(s[0]) == Some(k) then 0
    else 1 + FirstAt(s[1..], key, k)
  }

  /** Number of rows of `s` satisfying `p`. */
  function Count<T>(s: seq<T>, p: T -> bool): (n: nat)
    ensures n <= |s|
    decreases |s|
  {
    if |s| == 0 then 0 else (if p(s[0]) then 1 else 0) + Count(s[1..], p)
  }

  /** The position of the group with key `k`, or `|gs|` when there is none. */
  function GroupOf<K(==), T>(gs: seq<Group<K, T>>, k: K): (n: nat)
    ensures n <= |gs|
    ensures n < |gs| ==> gs[n].key == k
    ensures forall i :: 0 <= i < n ==> gs[i].key != k
    decreases |gs|
  {
    if |gs| == 0 then 0
    else if gs[0].key == k then 0
    else 1 + GroupOf(gs[1..], k)
  }

  /** Adds row `x` with key `k`: to the group of `k` when there is one, else to a new last group. */
  function Place<K(==), T>(gs: seq<Group<K, T>>, k: K, x: T): (r: seq<Group<K, T>>)
    requires KeysDistinct(gs)
    ensures KeysDistinct(r)
    ensures |r| == |gs| || |r| == |gs| + 1
    ensures |r| == |gs| + 1 <==> forall i :: 0 <= i < |gs| ==> gs[i].key != k
    ensures |r| == |gs| + 1 ==> r[|gs|] == Group(k, [x])
    ensures forall i :: 0 <= i < |gs| ==> r[i].key == gs[i].key
    ensures forall i :: 0 <= i < |gs| ==>
              r[i].members == if gs[i].key == k then gs[i].members + [x] else gs[i].members
  {
    var n := GroupOf(gs, k);
    if n == |gs| then gs + [Group(k, [x])]
    else gs[n := Group(k, gs[n].members + [x])]
  }

  /** The fold: rows in order, each added to the group of its key; keyless rows skipped. */
  function GroupBy<T, K(==)>(s: seq<T>, key: T -> Option<K>): (gs: seq<Group<K, T>>)
    ensures KeysDistinct(gs)
    decreases |s|
  {
    if |s| == 0 then []
    else
      var gs := GroupBy(s[..|s| - 1], key);
      var x := s[|s| - 1];
      if key(x).None? then gs else Place(gs, key(x).value, x)
  }

  /** Each group holds exactly the rows of its key, in dataset order, and is not empty. */
  lemma GroupBySelect<T, K>(s: seq<T>, key: T -> Option<K>)
    ensures forall i :: 0 <= i < |GroupBy(s, key)| ==>
              GroupBy(s, key)[i].members == Select(s, key, GroupBy(s, key)[i].key) && GroupBy(s, key)[i].members != []
  {
    forall i | 0 <= i < |GroupBy(s, key)|
      ensures GroupBy(s, key)[i].members == Select(s, key, GroupBy(s, key)[i].key) && GroupBy(s, key)[i].members != []
    {
      GroupBySelectAt(s, key, i);
    }
  }

  /** The i-th group, followed back through the fold: groups keep their position as rows are added. */
  lemma {:induction false} GroupBySelectAt<T, K>(s: seq<T>, key: T -> Option<K>, i: nat)
    requires i < |GroupBy(s, key)|
    ensures GroupBy(s, key)[i].members == Select(s, key, GroupBy(s, key)[i].key)
    ensures GroupBy(s, key)[i].members != []
    decreases |s|
  {
    var init := s[..|s| - 1];
    var x := s[|s| - 1];
    var gs := GroupBy(init, key);
    var r := GroupBy(s, key);
    var k := r[i].key;
    assert Select(s, key, k) == if key(x) == Some(k) then Select(init, key, k) + [x] else Select(init, key, k);
    if key(x).None? {
      assert r == gs;
      GroupBySelectAt(init, key, i);
    } else {
      assert r == Place(gs, key(x).value, x);
      if i < |gs| {
        GroupBySelectAt(init, key, i);
        assert k == gs[i].key;
      } else {
        assert r[i] == Group(key(x).value, [x]);
        assert forall j :: 0 <= j < |gs| ==> gs[j].key != k;
        AbsentKeySelectsNothing(init, key, k);
      }
    }
  }

  /** Every row that has a key lies in some group. */
  lemma {:induction false} GroupByCovers<T, K>(s: seq<T>, key: T -> Option<K>)
    ensures forall n :: 0 <= n < |s| && key(s[n]).Some? ==>
              exists i :: 0 <= i < |GroupBy(s, key)| && GroupBy(s, key)[i].key == key(s[n]).value
    decreases |s|
  {
    if |s| > 0 {
      var init := s[..|s| - 1];
      var x := s[|s| - 1];
      GroupByCovers(init, key);
      var gs := GroupBy(init, key);
      var r := GroupBy(s, key);
      assert key(x).None? ==> r == gs;
      assert key(x).Some? ==> r == Place(gs, key(x).value, x);
      assert forall i :: 0 <= i < |gs| ==> r[i].key == gs[i].key;
      forall n | 0 <= n < |s| && key(s[n]).Some?
        ensures exists i :: 0 <= i < |r| && r[i].key == key(s[n]).value
      {
        if n < |init| {
          assert s[n] == init[n];
          var i :| 0 <= i < |gs| && gs[i].key == key(init[n]).value;
          assert r[i].key == gs[i].key;
        } else if |r| == |gs| + 1 {
          assert s[n] == x;
          assert r[|gs|].key == key(s[n]).value;
        } else {
          assert s[n] == x;
          var i :| 0 <= i < |gs| && gs[i].key == key(x).value;
          assert r[i].key == gs[i].key;
        }
      }
      assert r == GroupBy(s, key);
    }
  }

  /** A key that names no group is carried by no row. */
  lemma AbsentKeySelectsNothing<T, K>(s: seq<T>, key: T -> Option<K>, k: K)
    requires forall i :: 0 <= i < |GroupBy(s, key)| ==> GroupBy(s, key)[i].key != k
    ensures Select(s, key, k) == []
  {
    FirstAtSelect(s, key, k);
    FirstAtIsKey(s, key, k);
    GroupByCovers(s, key);
  }

  // ---------------------------------------------------------------- first appearance

  lemma {:induction false} FirstAtSnoc<T, K>(s: seq<T>, key: T -> Option<K>, k: K, x: T)
    ensures FirstAt(s + [x], key, k) ==
              if FirstAt(s, key, k) < |s| then FirstAt(s, key, k)
              else if key(x) == Some(k) then |s| else |s| + 1
    decreases |s|
  {
    if |s| > 0 {
      assert (s + [x])[1..] == s[1..] + [x];
      FirstAtSnoc(s[1..], key, k, x);
    }
  }

  /** The row at the first position of a key carries that key. */
  lemma {:induction false} FirstAtIsKey<T, K>(s: seq<T>, key: T -> Option<K>, k: K)
    ensures FirstAt(s, key, k) < |s| ==> key(s[FirstAt(s, key, k)]) == Some(k)
    decreases |s|
  {
    if |s| > 0 && key(s[0]) != Some(k) {
      FirstAtIsKey(s[1..], key, k);
    }
  }

  /** A key has a first position exactly when some row carries it. */
  lemma {:induction false} FirstAtSelect<T, K>(s: seq<T>, key: T -> Option<K>, k: K)
    ensures FirstAt(s, key, k) < |s| <==> Select(s, key, k) != []
    decreases |s|
  {
    if |s| > 0 {
      var init := s[..|s| - 1];
      FirstAtSelect(init, key, k);
      FirstAtSnoc(init, key, k, s[|s| - 1]);
      assert init + [s[|s| - 1]] == s;
    }
  }

  /** Groups come in the order in which their keys first appear in `s` (`sort=False`). */
  lemma {:induction false} GroupByFirstAppearance<T, K>(s: seq<T>, key: T -> Option<K>)
    ensures forall i, j :: 0 <= i < j < |GroupBy(s, key)| ==>
              FirstAt(s, key, GroupBy(s, key)[i].key) < FirstAt(s, key, GroupBy(s, key)[j].key)
    decreases |s|
  {
    if |s| > 0 {
      var init := s[..|s| - 1];
      var x := s[|s| - 1];
      assert init + [x] == s;
      GroupByFirstAppearance(init, key);
      var gs := GroupBy(init, key);
      var r := GroupBy(s, key);
      assert key(x).None? ==> r == gs;
      assert key(x).Some? ==> r == Place(gs, key(x).value, x);
      assert forall i :: 0 <= i < |gs| ==> r[i].key == gs[i].key;
      forall i | 0 <= i < |gs|
        ensures FirstAt(s, key, r[i].key) == FirstAt(init, key, gs[i].key) < |init|
      {
        GroupBySelect(init, key);
        FirstAtSelect(init, key, gs[i].key);
        FirstAtSnoc(init, key, gs[i].key, x);
      }
      if |r| == |gs| + 1 {
        var k := key(x).value;
        assert r[|gs|].key == k;
        AbsentKeySelectsNothing(init, key, k);
        FirstAtSelect(init, key, k);
        FirstAtSnoc(init, key, k, x);
        assert FirstAt(s, key, r[|gs|].key) == |init|;
        forall i, j | 0 <= i < j < |r|
          ensures FirstAt(s, key, r[i].key) < FirstAt(s, key, r[j].key)
        {
          if j < |gs| {
            assert FirstAt(init, key, gs[i].key) < FirstAt(init, key, gs[j].key);
          } else {
            assert j == |gs|;
          }
        }
      } else {
        forall i, j | 0 <= i < j < |r|
          ensures FirstAt(s, key, r[i].key) < FirstAt(s, key, r[j].key)
        {
          assert FirstAt(init, key, gs[i].key) < FirstAt(init, key, gs[j].key);
        }
      }
      assert r == GroupBy(s, key);
    }
  }

  // ---------------------------------------------------------------- counting over groups

  /** Sum over the groups of the number of members satisfying `p`. */
  function GroupCount<K, T>(gs: seq<Group<K, T>>, p: T -> bool): nat
    decreases |gs|
  {
    if |gs| == 0 then 0 else Count(gs[0].members, p) + GroupCount(gs[1..], p)
  }

  lemma {:induction false} CountSnoc<T>(s: seq<T>, x: T, p: T -> bool)
    ensures Count(s + [x], p) == Count(s, p) + if p(x) then 1 else 0
    decreases |s|
  {
    if |s| == 0 {
      assert s + [x] == [x];
    } else {
      assert (s + [x])[1..] == s[1..] + [x];
      CountSnoc(s[1..], x, p);
    }
  }

  lemma {:induction false} GroupCountPlace<K, T>(gs: seq<Group<K, T>>, k: K, x: T, p: T -> bool)
    requires KeysDistinct(gs)
    ensures GroupCount(Place(gs, k, x), p) == GroupCount(gs, p) + if p(x) then 1 else 0
  {
    var n := GroupOf(gs, k);
    if n == |gs| {
      GroupCountSnoc(gs, Group(k, [x]), p);
      assert Count([x], p) == Count([x][1..], p) + if p(x) then 1 else 0;
    } else {
      GroupCountUpdate(gs, n, Group(k, gs[n].members + [x]), p);
      CountSnoc(gs[n].members, x, p);
    }
  }

  lemma {:induction false} GroupCountSnoc<K, T>(gs: seq<Group<K, T>>, g: Group<K, T>, p: T -> bool)
    ensures GroupCount(gs + [g], p) == GroupCount(gs, p) + Count(g.members, p)
    decreases |gs|
  {
    if |gs| == 0 {
      assert gs + [g] == [g];
    } else {
      assert (gs + [g])[1..] == gs[1..] + [g];
      GroupCountSnoc(gs[1..], g, p);
    }
  }

  lemma {:induction false} GroupCountUpdate<K, T>(gs: seq<Group<K, T>>, n: nat, g: Group<K, T>, p: T -> bool)
    requires n < |gs|
    ensures GroupCount(gs[n := g], p) == GroupCount(gs, p) - Count(gs[n].members, p) + Count(g.members, p)
    decreases n
  {
    if n > 0 {
      GroupCountUpdate(gs[1..], n - 1, g, p);
      assert gs[n := g][1..] == gs[1..][n - 1 := g];
    }
  }

  /** Grouping loses and duplicates nothing: every keyed row is counted in exactly one group. */
  lemma {:induction false} GroupByCount<T, K>(s: seq<T>, key: T -> Option<K>, p: T -> bool)
    ensures GroupCount(GroupBy(s, key), p) == Count(Keyed(s, key), p)
    decreases |s|
  {
    if |s| > 0 {
      var init := s[..|s| - 1];
      var x := s[|s| - 1];
      GroupByCount(init, key, p);
      if key(x).Some? {
        GroupCountPlace(GroupBy(init, key), key(x).value, x, p);
        CountSnoc(Keyed(init, key), x, p);
      }
    }
  }
}
