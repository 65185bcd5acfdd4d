/** Grouped counts: what a pandas group count and `collections.Counter`
    produce, and the sum of such counts. */
module Counting {

  /** The number of occurrences of each value of `xs`, for the values that
      occur. */
  function CountBy<T(==,!new)>(xs: seq<T>): (m: map<T, nat>)
    ensures forall k :: k in m <==> k in xs
  {
    if |xs| == 0 then map[]
    else
      var init := xs[..|xs| - 1];
      var x := xs[|xs| - 1];
      assert xs == init + [x];
      var m := CountBy(init);
      m[x := (if x in m then m[x] else 0) + 1]
  }

  /** Each count is the number of occurrences of its value. */
  lemma {:induction false} CountByCounts<T(!new)>(xs: seq<T>)
    ensures forall k :: k in CountBy(xs) ==> CountBy(xs)[k] == multiset(xs)[k] > 0
  {
    if |xs| > 0 {
      var init := xs[..|xs| - 1];
      var x := xs[|xs| - 1];
      assert xs == init + [x];
      CountByCounts(init);
    }
  }

  /** The values of `xs` in order of first occurrence, each once. */
  function Distinct<T(==,!new)>(xs: seq<T>): (d: seq<T>)
    ensures forall x :: x in d <==> x in xs
    ensures forall i, j :: 0 <= i < j < |d| ==> d[i] != d[j]
  {
    if |xs| == 0 then []
    else
      var init := xs[..|xs| - 1];
      var x := xs[|xs| - 1];
      assert xs == init + [x];
      var d := Distinct(init);
      if x in d then d else d + [x]
  }

  /** The sum of the counts of the keys `ks`. */
  function SumOver<T>(m: map<T, nat>, ks: seq<T>): nat
    requires forall k :: k in ks ==> k in m
  {
    if |ks| == 0 then 0 else SumOver(m, ks[..|ks| - 1]) + m[ks[|ks| - 1]]
  }

  /** `ks` lists every key of `m` exactly once, so that `SumOver(m, ks)` is
      the sum of all counts of `m`. */
  ghost predicate ListsKeys<T(!new)>(m: map<T, nat>, ks: seq<T>) {
    && (forall k :: k in ks <==> k in m)
    && (forall i, j :: 0 <= i < j < |ks| ==> ks[i] != ks[j])
  }

  /** Changing the count of a key the list does not name leaves the sum. */
  lemma {:induction false} SumOverOther<T>(m: map<T, nat>, ks: seq<T>, x: T, v: nat)
    requires forall k :: k in ks ==> k in m
    requires x !in ks
    ensures SumOver(m[x := v], ks) == SumOver(m, ks)
  {
    if |ks| > 0 {
      var init := ks[..|ks| - 1];
      assert forall k :: k in init ==> k in ks;
      SumOverOther(m, init, x, v);
    }
  }

  /** Adding one to the count of a key the list names once adds one to the
      sum. */
  lemma {:induction false} SumOverBump<T>(m: map<T, nat>, ks: seq<T>, x: T)
    requires forall k :: k in ks ==> k in m
    requires forall i, j :: 0 <= i < j < |ks| ==> ks[i] != ks[j]
    requires x in ks
    ensures SumOver(m[x := m[x] + 1], ks) == SumOver(m, ks) + 1
  {
    var init := ks[..|ks| - 1];
    var last := ks[|ks| - 1];
    assert forall k :: k in init ==> k in ks;
    if last == x {
      SumOverOther(m, init, x, m[x] + 1);
    } else {
      assert x in init by {
        var i :| 0 <= i < |ks| && ks[i] == x;
        assert i < |ks| - 1 && init[i] == x;
      }
      SumOverBump(m, init, x);
    }
  }

  /** The distinct values list the keys of the counts. */
  lemma CountByKeys<T(!new)>(xs: seq<T>)
    ensures ListsKeys(CountBy(xs), Distinct(xs))
  {
  }

  /** The counts of `CountBy` add up to the number of values counted. */
  lemma {:induction false} CountBySum<T(!new)>(xs: seq<T>)
    ensures SumOver(CountBy(xs), Distinct(xs)) == |xs|
  {
    if |xs| > 0 {
      var init := xs[..|xs| - 1];
      var x := xs[|xs| - 1];
      var m, d := CountBy(init), Distinct(init);
      assert CountBy(xs) == m[x := (if x in m then m[x] else 0) + 1];
      CountBySum(init);
      if x in d {
        assert Distinct(xs) == d;
        SumOverBump(m, d, x);
      } else {
        assert Distinct(xs) == d + [x];
        SumOverOther(m, d, x, 1);
        assert (d + [x])[..|d|] == d;
      }
    }
  }
}
