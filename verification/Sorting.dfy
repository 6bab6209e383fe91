/** The stable insertion sort that stands for Python's sort, for any ordering. */
module Sorting {
  import opened Common

  function Insert<T>(sorted: seq<T>, x: T, less: (T, T) -> bool): (out: seq<T>)
    ensures |out| == |sorted| + 1
  {
    if sorted != [] && less(x, sorted[|sorted| - 1])
    then Insert(sorted[..|sorted| - 1], x, less) + [sorted[|sorted| - 1]]
    else sorted + [x]
  }

  function Sort<T>(s: seq<T>, less: (T, T) -> bool): (out: seq<T>)
    ensures |out| == |s|
  {
    if s == [] then [] else Insert(Sort(s[..|s| - 1], less), s[|s| - 1], less)
  }

  /** Not being less is transitive, and of two elements at most one is less. */
  ghost predicate Orders<T(!new)>(less: (T, T) -> bool) {
    && (forall x, y :: less(x, y) ==> !less(y, x))
    && forall x, y, z :: !less(y, x) && !less(z, y) ==> !less(z, x)
  }

  ghost predicate Ascending<T>(s: seq<T>, less: (T, T) -> bool) {
    forall i, k :: 0 <= i < k < |s| ==> !less(s[k], s[i])
  }

  lemma {:induction false} AscendingAppend<T>(s: seq<T>, x: T, less: (T, T) -> bool)
    requires Ascending(s, less) && forall y :: y in s ==> !less(x, y)
    ensures Ascending(s + [x], less)
  {
    var all := s + [x];
    forall i, k | 0 <= i < k < |all| ensures !less(all[k], all[i]) {
      if k == |s| { assert s[i] in s; }
    }
  }

  lemma {:induction false} LastIsGreatest<T(!new)>(s: seq<T>, x: T, less: (T, T) -> bool)
    requires Orders(less) && Ascending(s, less) && s != [] && !less(x, s[|s| - 1])
    ensures forall y :: y in s ==> !less(x, y)
  {
    var last := s[|s| - 1];
    forall i | 0 <= i < |s| ensures !less(x, s[i]) {
      if i < |s| - 1 { assert !less(last, s[i]); }
    }
  }

  lemma {:induction false} InsertSorts<T(!new)>(sorted: seq<T>, x: T, less: (T, T) -> bool)
    requires Orders(less) && Ascending(sorted, less)
    ensures Ascending(Insert(sorted, x, less), less)
    ensures multiset(Insert(sorted, x, less)) == multiset(sorted) + multiset{x}
    ensures forall y :: y in Insert(sorted, x, less) <==> y in sorted || y == x
    ensures Distinct(sorted) && x !in sorted ==> Distinct(Insert(sorted, x, less))
  {
    var n := |sorted|;
    if n > 0 && less(x, sorted[n - 1]) {
      var rest, last := sorted[..n - 1], sorted[n - 1];
      assert sorted == rest + [last];
      InsertSorts(rest, x, less);
      LastIsGreatest(rest + [last], last, less);
      assert !less(last, x);
      DistinctAppend(rest, last);
      DistinctAppend(Insert(rest, x, less), last);
      hide Ascending, Distinct, Orders;
      AscendingAppend(Insert(rest, x, less), last, less);
    } else {
      if n > 0 { LastIsGreatest(sorted, x, less); }
      DistinctAppend(sorted, x);
      hide Ascending, Distinct, Orders;
      AscendingAppend(sorted, x, less);
    }
  }

  /** The sort orders its input and permutes it. */
  lemma {:induction false} SortSorts<T(!new)>(s: seq<T>, less: (T, T) -> bool)
    requires Orders(less)
    ensures Ascending(Sort(s, less), less) && multiset(Sort(s, less)) == multiset(s)
    ensures forall y :: y in Sort(s, less) <==> y in s
    ensures Distinct(s) ==> Distinct(Sort(s, less))
  {
    if s != [] {
      var rest, last := s[..|s| - 1], s[|s| - 1];
      assert s == rest + [last];
      assert Sort(s, less) == Insert(Sort(rest, less), last, less);
      DistinctAppend(rest, last);
      hide *;
      SortSorts(rest, less);
      InsertSorts(Sort(rest, less), last, less);
    }
  }

  // ---------------------------------------------------------------- stability

  predicate Tie<T>(x: T, y: T, less: (T, T) -> bool) { !less(x, y) && !less(y, x) }

  /** The elements that are neither less nor greater than x, in order. */
  function Ties<T>(s: seq<T>, x: T, less: (T, T) -> bool): seq<T> {
    if s == [] then []
    else Ties(s[..|s| - 1], x, less) + if Tie(s[|s| - 1], x, less) then [s[|s| - 1]] else []
  }

  lemma {:induction false} InsertKeepsTies<T(!new)>(s: seq<T>, y: T, x: T, less: (T, T) -> bool)
    requires Orders(less)
    ensures Ties(Insert(s, y, less), x, less) == Ties(s, x, less) + if Tie(y, x, less) then [y] else []
  {
    if s != [] && less(y, s[|s| - 1]) {
      var rest, last := s[..|s| - 1], s[|s| - 1];
      InsertKeepsTies(rest, y, x, less);
      assert (Insert(rest, y, less) + [last])[..|rest| + 1] == Insert(rest, y, less);
      assert !(Tie(y, x, less) && Tie(last, x, less));
    } else {
      assert (s + [y])[..|s|] == s;
    }
  }

  /** Elements that tie keep their order. */
  lemma {:induction false} SortIsStable<T(!new)>(s: seq<T>, x: T, less: (T, T) -> bool)
    requires Orders(less)
    ensures Ties(Sort(s, less), x, less) == Ties(s, x, less)
  {
    if s != [] {
      SortIsStable(s[..|s| - 1], x, less);
      InsertKeepsTies(Sort(s[..|s| - 1], less), s[|s| - 1], x, less);
    }
  }
}
