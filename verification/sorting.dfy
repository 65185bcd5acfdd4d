/** Stable insertion sort under a total preorder, the model of pandas'
    `sort_values` on the orderings the store uses. */
module Sorting {
  import opened Seqs

  /** `le` is total and transitive: a ranking that may have ties. */
  ghost predicate TotalPreorder<T(!new)>(le: (T, T) -> bool) {
    && (forall a, b :: le(a, b) || le(b, a))
    && (forall a, b, c :: le(a, b) && le(b, c) ==> le(a, c))
  }

  /** Puts `x` before the first element it ranks no lower than. */
  function Insert<T>(le: (T, T) -> bool, x: T, s: seq<T>): (r: seq<T>)
    ensures multiset(r) == multiset(s) + multiset{x}
    ensures |r| == |s| + 1
  {
    if |s| == 0 || le(x, s[0]) then [x] + s
    else
      assert s == [s[0]] + s[1..];
      [s[0]] + Insert(le, x, s[1..])
  }

  function InsertionSort<T>(le: (T, T) -> bool, s: seq<T>): (r: seq<T>)
    ensures multiset(r) == multiset(s)
    ensures |r| == |s|
  {
    if |s| == 0 then []
    else
      assert s == [s[0]] + s[1..];
      Insert(le, s[0], InsertionSort(le, s[1..]))
  }

  lemma {:induction false} InsertKeepsSorted<T(!new)>(le: (T, T) -> bool, x: T, s: seq<T>)
    requires TotalPreorder(le) && Pairwise(le, s)
    ensures Pairwise(le, Insert(le, x, s))
  {
    if |s| > 0 && !le(x, s[0]) {
      var t := Insert(le, x, s[1..]);
      InsertKeepsSorted(le, x, s[1..]);
      assert le(s[0], x);
      forall y | y in t
        ensures le(s[0], y)
      {
        assert y in multiset(t);
        if y != x {
          assert y in multiset(s[1..]);
          var k :| 0 <= k < |s| - 1 && s[1..][k] == y;
          assert s[k + 1] == y;
        }
      }
      var r := [s[0]] + t;
      forall i, j | 0 <= i < j < |r|
        ensures le(r[i], r[j])
      {
        if i == 0 {
          assert r[j] == t[j - 1];
        } else {
          assert r[i] == t[i - 1] && r[j] == t[j - 1];
        }
      }
    }
  }

  /** The sort's output is ranked by `le`. */
  lemma {:induction false} SortIsSorted<T(!new)>(le: (T, T) -> bool, s: seq<T>)
    requires TotalPreorder(le)
    ensures Pairwise(le, InsertionSort(le, s))
  {
    if |s| > 0 {
      SortIsSorted(le, s[1..]);
      InsertKeepsSorted(le, s[0], InsertionSort(le, s[1..]));
    }
  }

  /** Sorting an already ranked sequence changes nothing. */
  lemma {:induction false} SortOfSorted<T>(le: (T, T) -> bool, s: seq<T>)
    requires Pairwise(le, s)
    ensures InsertionSort(le, s) == s
  {
    if |s| > 0 {
      assert Pairwise(le, s[1..]) by {
        forall i, j | 0 <= i < j < |s| - 1
          ensures le(s[1..][i], s[1..][j])
        {
          assert s[1..][i] == s[i + 1] && s[1..][j] == s[j + 1];
        }
      }
      SortOfSorted(le, s[1..]);
      assert s == [s[0]] + s[1..];
    }
  }
}
