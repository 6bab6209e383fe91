/** The assignment problem as arena/scoring/scorer.py solves it: Kuhn-Munkres with
    potentials over exact reals.  Rows and columns of the working arrays are numbered
    from 1, and column 0 is the artificial column that holds the row being inserted. */
module Assignment {

  type Matrix = seq<seq<real>>

  /** A running minimum: float("inf") until a first value is seen. */
  datatype Bound = Infinite | Finite(value: real)

  predicate Less(a: Bound, b: Bound) {
    a.Finite? && (b.Infinite? || a.value < b.value)
  }

  /** Infinity stays infinity. */
  function Minus(a: Bound, d: real): Bound {
    if a.Finite? then Finite(a.value - d) else Infinite
  }

  ghost predicate Shape(cost: Matrix, rows: nat, cols: nat) {
    && |cost| >= rows
    && forall r :: 0 <= r < rows ==> |cost[r]| >= cols
  }

  /** Every row gets a column of its own. */
  ghost predicate Assigns(a: seq<int>, rows: nat, cols: nat) {
    && |a| == rows
    && (forall r :: 0 <= r < rows ==> 0 <= a[r] < cols)
    && forall r, s :: 0 <= r < s < rows ==> a[r] != a[s]
  }

  /** Cost of the first k rows under assignment a. */
  ghost function Total(cost: Matrix, a: seq<int>, k: nat): real
    requires k <= |a| && k <= |cost|
    requires forall r :: 0 <= r < k ==> 0 <= a[r] < |cost[r]|
  {
    if k == 0 then 0.0 else Total(cost, a, k - 1) + cost[k - 1][a[k - 1]]
  }

  // ---------------------------------------------------------------- sums

  ghost function SumTo(s: seq<real>, k: nat): real
    requires k <= |s|
  {
    if k == 0 then 0.0 else SumTo(s, k - 1) + s[k - 1]
  }

  ghost function SumOf(u: seq<real>, v: seq<real>): real {
    SumTo(u, |u|) + SumTo(v, |v|)
  }

  lemma {:induction false} SumUpdate(s: seq<real>, i: nat, x: real, k: nat)
    requires i < |s| && k <= |s|
    ensures SumTo(s[i := x], k) == SumTo(s, k) + if i < k then x - s[i] else 0.0
  {
    if k > 0 { SumUpdate(s, i, x, k - 1); }
  }

  lemma {:induction false} SumZero(s: seq<real>, k: nat)
    requires k <= |s| && forall j :: 0 <= j < k ==> s[j] == 0.0
    ensures SumTo(s, k) == 0.0
  {
    if k > 0 { SumZero(s, k - 1); }
  }

  lemma {:induction false} SumNonPositive(s: seq<real>, k: nat)
    requires k <= |s| && forall j :: 0 <= j < k ==> s[j] <= 0.0
    ensures SumTo(s, k) <= 0.0
  {
    if k > 0 { SumNonPositive(s, k - 1); }
  }

  /** Sum of w over the first k entries of a. */
  ghost function Picked(w: seq<real>, a: seq<int>, k: nat): real
    requires k <= |a| && forall r :: 0 <= r < k ==> 0 <= a[r] < |w|
  {
    if k == 0 then 0.0 else Picked(w, a, k - 1) + w[a[k - 1]]
  }

  lemma {:induction false} PickedFrame(w: seq<real>, a: seq<int>, k: nat, c: nat, x: real)
    requires k <= |a| && c < |w|
    requires forall r :: 0 <= r < k ==> 0 <= a[r] < |w| && a[r] != c
    ensures Picked(w[c := x], a, k) == Picked(w, a, k)
  {
    if k > 0 { PickedFrame(w, a, k - 1, c, x); }
  }

  /** Distinct picks of non-positive numbers weigh at least as much as all of them. */
  lemma {:induction false} PickedAtLeastSum(w: seq<real>, a: seq<int>, k: nat)
    requires k <= |a| && forall r :: 0 <= r < k ==> 0 <= a[r] < |w|
    requires forall r, s :: 0 <= r < s < k ==> a[r] != a[s]
    requires forall j :: 0 <= j < |w| ==> w[j] <= 0.0
    ensures Picked(w, a, k) >= SumTo(w, |w|)
    decreases k
  {
    if k == 0 {
      SumNonPositive(w, |w|);
    } else {
      var c := a[k - 1];
      PickedFrame(w, a, k - 1, c, 0.0);
      SumUpdate(w, c, 0.0, |w|);
      PickedAtLeastSum(w[c := 0.0], a, k - 1);
    }
  }

  ghost predicate NotPicked(a: seq<int>, k: nat, j: int)
    requires k <= |a|
  {
    forall r :: 0 <= r < k ==> a[r] != j
  }

  /** Distinct picks weigh exactly as much as all of them when everything not picked is zero. */
  lemma {:induction false} PickedIsSum(w: seq<real>, a: seq<int>, k: nat)
    requires k <= |a| && forall r :: 0 <= r < k ==> 0 <= a[r] < |w|
    requires forall r, s :: 0 <= r < s < k ==> a[r] != a[s]
    requires forall j :: 0 <= j < |w| && NotPicked(a, k, j) ==> w[j] == 0.0
    ensures Picked(w, a, k) == SumTo(w, |w|)
    decreases k
  {
    if k == 0 {
      SumZero(w, |w|);
    } else {
      var c := a[k - 1];
      PickedFrame(w, a, k - 1, c, 0.0);
      SumUpdate(w, c, 0.0, |w|);
      forall j | 0 <= j < |w| && NotPicked(a, k - 1, j) && j != c ensures w[j] == 0.0 {
        assert NotPicked(a, k, j);
      }
      PickedIsSum(w[c := 0.0], a, k - 1);
    }
  }

  // ---------------------------------------------------------------- duality

  ghost predicate Sized(cost: Matrix, u: seq<real>, v: seq<real>) {
    |u| >= 1 && |v| >= 1 && Shape(cost, |u| - 1, |v| - 1)
  }

  /** Reduced cost of row r in column j (both numbered from 1). */
  ghost function Slack(cost: Matrix, u: seq<real>, v: seq<real>, r: int, j: int): real
    requires Sized(cost, u, v) && 1 <= r < |u| && 1 <= j < |v|
  {
    cost[r - 1][j - 1] - u[r] - v[j]
  }

  ghost predicate Feasible(cost: Matrix, u: seq<real>, v: seq<real>, i: int)
    requires Sized(cost, u, v) && i < |u|
  {
    forall r, j :: 1 <= r <= i && 1 <= j < |v| ==> Slack(cost, u, v, r, j) >= 0.0
  }

  /** col inverts p: rows 1..i sit in one column each, and no other row sits anywhere.
      Column `hole` is disregarded (use -1 for none). */
  ghost predicate Inverse(p: seq<nat>, col: seq<nat>, i: nat, hole: int)
    requires i < |col|
  {
    && (forall r :: 1 <= r <= i ==> col[r] < |p| && col[r] != hole && p[col[r]] == r)
    && (forall j :: 0 <= j < |p| && j != hole && p[j] != 0 ==> p[j] <= i && col[p[j]] == j)
  }

  ghost predicate Tight(cost: Matrix, u: seq<real>, v: seq<real>, p: seq<nat>, hole: int)
    requires Sized(cost, u, v) && |p| == |v|
  {
    forall j :: 1 <= j < |v| && j != hole && p[j] != 0 ==> p[j] < |u| && Slack(cost, u, v, p[j], j) == 0.0
  }

  ghost predicate Settled(v: seq<real>, p: seq<nat>, hole: int)
    requires |p| == |v|
  {
    forall j :: 1 <= j < |v| ==> v[j] <= 0.0 && (j != hole && p[j] == 0 ==> v[j] == 0.0)
  }

  /** The primal-dual invariant once rows 1..i have been inserted. */
  ghost predicate Solved(cost: Matrix, u: seq<real>, v: seq<real>, p: seq<nat>, col: seq<nat>, i: nat) {
    && Sized(cost, u, v) && |p| == |v| && |col| == |u| && i < |u|
    && Inverse(p, col, i, 0)
    && Tight(cost, u, v, p, 0)
    && Settled(v, p, 0)
    && Feasible(cost, u, v, i)
    && Untouched(u, i)
    && SumOf(u, v) == 0.0
  }

  /** Potentials of rows not inserted yet, and of the unused row 0, are still zero. */
  ghost predicate Untouched(u: seq<real>, i: nat) {
    && |u| >= 1 && u[0] == 0.0
    && forall r :: i < r < |u| ==> u[r] == 0.0
  }

  /** The columns, numbered from 0, in which `col` puts rows 1..i. */
  ghost function Columns(col: seq<nat>, i: nat): (a: seq<int>)
    requires i < |col|
    ensures |a| == i && forall r :: 0 <= r < i ==> a[r] == col[r + 1] as int - 1
  {
    seq(i, r requires 0 <= r < i => col[r + 1] as int - 1)
  }

  lemma {:induction false} TotalByPotentials(cost: Matrix, u: seq<real>, v: seq<real>, a: seq<int>, k: nat)
    requires Sized(cost, u, v) && k < |u| && k <= |a|
    requires forall r :: 0 <= r < k ==> 0 <= a[r] < |v| - 1
    ensures (forall r :: 0 <= r < k ==> Slack(cost, u, v, r + 1, a[r] + 1) >= 0.0) ==>
              Total(cost, a, k) >= SumTo(u, k + 1) - u[0] + Picked(v[1..], a, k)
    ensures (forall r :: 0 <= r < k ==> Slack(cost, u, v, r + 1, a[r] + 1) == 0.0) ==>
              Total(cost, a, k) == SumTo(u, k + 1) - u[0] + Picked(v[1..], a, k)
  {
    if k == 0 {
      assert SumTo(u, 1) == SumTo(u, 0) + u[0];
    } else {
      TotalByPotentials(cost, u, v, a, k - 1);
      assert v[1..][a[k - 1]] == v[a[k - 1] + 1];
      assert Slack(cost, u, v, k, a[k - 1] + 1) == cost[k - 1][a[k - 1]] - u[k] - v[a[k - 1] + 1];
    }
  }

  lemma {:induction false} SumTail(v: seq<real>, k: nat)
    requires 1 <= k <= |v|
    ensures SumTo(v, k) == v[0] + SumTo(v[1..], k - 1)
  {
    if k == 1 {
      assert SumTo(v, 1) == SumTo(v, 0) + v[0];
    } else {
      SumTail(v, k - 1);
    }
  }

  lemma {:induction false} SumIgnoresZeros(u: seq<real>, i: nat, k: nat)
    requires i <= k <= |u| && forall r :: i <= r < k ==> u[r] == 0.0
    ensures SumTo(u, k) == SumTo(u, i)
  {
    if i < k { SumIgnoresZeros(u, i, k - 1); }
  }

  lemma {:induction false} ColumnsAssign(p: seq<nat>, col: seq<nat>, i: nat)
    requires i < |col| && |p| >= 1 && Inverse(p, col, i, 0)
    ensures Assigns(Columns(col, i), i, |p| - 1)
    ensures forall r :: 0 <= r < i ==> p[Columns(col, i)[r] + 1] == r + 1
    ensures forall j :: 1 <= j < |p| && p[j] != 0 ==> j - 1 in Columns(col, i)
  {
    var a := Columns(col, i);
    forall r, s | 0 <= r < s < i ensures a[r] != a[s] {
      assert p[col[r + 1]] == r + 1 && p[col[s + 1]] == s + 1;
    }
    forall j | 1 <= j < |p| && p[j] != 0 ensures j - 1 in a {
      assert a[p[j] - 1] == j - 1;
    }
  }

  lemma {:induction false} MatchedColumnPotentials(v: seq<real>, p: seq<nat>, col: seq<nat>, i: nat)
    requires i < |col| && |p| == |v| >= 1 && Inverse(p, col, i, 0) && Settled(v, p, 0)
    ensures Assigns(Columns(col, i), i, |v| - 1)
    ensures Picked(v[1..], Columns(col, i), i) == SumTo(v, |v|) - v[0]
  {
    var a, w := Columns(col, i), v[1..];
    ColumnsAssign(p, col, i);
    forall j | 0 <= j < |w| && NotPicked(a, i, j) ensures w[j] == 0.0 {
      assert w[j] == v[j + 1] && j !in a;
    }
    PickedIsSum(w, a, i);
    SumTail(v, |v|);
  }

  /** Strong duality: the potential of the artificial column is minus the cost of the
      matching held in p, which is an assignment of the rows inserted so far. */
  lemma {:induction false} ArtificialColumnIsMinusCost(cost: Matrix, u: seq<real>, v: seq<real>,
                                                       p: seq<nat>, col: seq<nat>, i: nat)
    requires Solved(cost, u, v, p, col, i)
    ensures Assigns(Columns(col, i), i, |v| - 1)
    ensures Total(cost, Columns(col, i), i) == -v[0]
  {
    MatchedColumnPotentials(v, p, col, i);
    TotalByPotentials(cost, u, v, Columns(col, i), i);
    SumIgnoresZeros(u, i + 1, |u|);
  }

  /** Weak duality: no assignment of all rows beats the potentials. */
  lemma {:induction false} NoAssignmentIsCheaper(cost: Matrix, u: seq<real>, v: seq<real>,
                                                 p: seq<nat>, col: seq<nat>, a: seq<int>)
    requires |u| >= 1 && Solved(cost, u, v, p, col, |u| - 1)
    requires Assigns(a, |u| - 1, |v| - 1)
    ensures Total(cost, a, |u| - 1) >= -v[0]
  {
    forall r | 0 <= r < |a| ensures Slack(cost, u, v, r + 1, a[r] + 1) >= 0.0 {}
    TotalByPotentials(cost, u, v, a, |a|);
    PickedAtLeastSum(v[1..], a, |a|);
    SumTail(v, |v|);
  }

  // ---------------------------------------------------------------- the search for one row

  /** The matching, its potentials and the row i parked in column 0, during a search. */
  ghost predicate Searching(cost: Matrix, u: seq<real>, v: seq<real>, p: seq<nat>, col: seq<nat>, i: nat) {
    && Sized(cost, u, v) && |p| == |v| && |col| == |u| && 1 <= i < |u| && |u| <= |v|
    && p[0] == i
    && Inverse(p, col, i, -1)
    && Tight(cost, u, v, p, -1)
    && Settled(v, p, -1)
    && Feasible(cost, u, v, i - 1)
    && Untouched(u, i)
    && SumOf(u, v) == 0.0
  }

  /** Used columns hold rows. */
  ghost predicate Marked(p: seq<nat>, used: seq<bool>, rows: int) {
    |used| == |p| && forall k :: 0 <= k < |p| && used[k] ==> 1 <= p[k] <= rows
  }

  /** Column j is reached by a tight edge from the row in the used column w. */
  ghost predicate Hangs(cost: Matrix, u: seq<real>, v: seq<real>, p: seq<nat>, used: seq<bool>, w: nat, j: int)
    requires Sized(cost, u, v) && |p| == |v| && Marked(p, used, |u| - 1) && 1 <= j < |v|
  {
    w < |v| && used[w] && Slack(cost, u, v, p[w], j) == 0.0
  }

  /** The alternating tree: each used column but 0 hangs under an older one. */
  ghost predicate Tree(cost: Matrix, u: seq<real>, v: seq<real>, p: seq<nat>,
                       used: seq<bool>, way: seq<nat>, rank: seq<nat>)
    requires Sized(cost, u, v) && |p| == |v| && Marked(p, used, |u| - 1)
  {
    && |way| == |rank| == |v|
    && (forall j {:trigger Hangs(cost, u, v, p, used, way[j], j)} ::
          1 <= j < |v| && used[j] ==> Hangs(cost, u, v, p, used, way[j], j))
    && (forall j {:trigger rank[way[j]]} ::
          1 <= j < |v| && used[j] ==> way[j] < |v| && rank[way[j]] < rank[j])
  }

  /** m is the least slack from a used column's row to column j; column w attains it. */
  ghost predicate Least(cost: Matrix, u: seq<real>, v: seq<real>, p: seq<nat>,
                        used: seq<bool>, w: nat, m: Bound, j: int)
    requires Sized(cost, u, v) && |p| == |v| && Marked(p, used, |u| - 1) && 1 <= j < |v|
  {
    && m.Finite?
    && w < |v| && used[w] && m.value == Slack(cost, u, v, p[w], j)
    && forall k {:trigger Slack(cost, u, v, p[k], j)} :: 0 <= k < |v| && used[k] ==> m.value <= Slack(cost, u, v, p[k], j)
  }

  /** The minima of the unused columns below `end` are exact. */
  ghost predicate Frontier(cost: Matrix, u: seq<real>, v: seq<real>, p: seq<nat>,
                           used: seq<bool>, way: seq<nat>, minv: seq<Bound>, end: nat)
    requires Sized(cost, u, v) && |p| == |v| && Marked(p, used, |u| - 1)
  {
    && |way| == |minv| == |v| && end <= |v|
    && forall j {:trigger Least(cost, u, v, p, used, way[j], minv[j], j)} ::
         1 <= j < end && !used[j] ==> Least(cost, u, v, p, used, way[j], minv[j], j)
  }

  /** Every unused column is at distance at least d from the tree. */
  ghost predicate AtLeast(used: seq<bool>, minv: seq<Bound>, d: real) {
    |used| == |minv| && forall j :: 1 <= j < |used| && !used[j] ==> minv[j].Finite? && minv[j].value >= d
  }

  ghost predicate NoneUsed(used: seq<bool>, first: nat) {
    forall j :: first <= j < |used| ==> !used[j]
  }

  /** Row r sits in a used column. */
  ghost predicate UsedRow(p: seq<nat>, col: seq<nat>, used: seq<bool>, r: int) {
    0 <= r < |col| && col[r] < |p| && col[r] < |used| && used[col[r]] && p[col[r]] == r
  }

  /** One dual step: rows of used columns gain delta, used columns lose it. */
  ghost predicate Shifted(u: seq<real>, v: seq<real>, u': seq<real>, v': seq<real>,
                          p: seq<nat>, col: seq<nat>, used: seq<bool>, delta: real) {
    && |u'| == |u| && |v'| == |v| == |used|
    && (forall j :: 0 <= j < |v| ==> v'[j] == v[j] - if used[j] then delta else 0.0)
    && forall r :: 0 <= r < |u| ==> u'[r] == u[r] + if UsedRow(p, col, used, r) then delta else 0.0
  }

  lemma {:induction false} ShiftKeepsFeasible(cost: Matrix, u: seq<real>, v: seq<real>, u': seq<real>, v': seq<real>,
                                              p: seq<nat>, col: seq<nat>, used: seq<bool>,
                                              way: seq<nat>, minv: seq<Bound>, delta: real, i: nat)
    requires Sized(cost, u, v) && Shifted(u, v, u', v', p, col, used, delta)
    requires |p| == |v| && |col| == |u| && 1 <= i < |u| && Inverse(p, col, i, -1) && Marked(p, used, |u| - 1)
    requires p[0] == i && used[0] && Feasible(cost, u, v, i - 1)
    requires Frontier(cost, u, v, p, used, way, minv, |v|) && AtLeast(used, minv, delta)
    requires NoneUsed(used, 1) || (delta >= 0.0 && Feasible(cost, u, v, i))
    ensures Feasible(cost, u', v', i)
  {
    forall r, j | 1 <= r <= i && 1 <= j < |v| ensures Slack(cost, u', v', r, j) >= 0.0 {
      assert p[col[r]] == r;
      if UsedRow(p, col, used, r) && !used[j] {
        assert Least(cost, u, v, p, used, way[j], minv[j], j);
        assert minv[j].value <= Slack(cost, u, v, p[col[r]], j);
      } else if used[j] {
        assert Slack(cost, u, v, r, j) >= 0.0;
      } else {
        assert col[i] == 0 && r != i;
        assert Slack(cost, u, v, r, j) >= 0.0;
      }
    }
  }

  lemma {:induction false} ShiftKeepsTree(cost: Matrix, u: seq<real>, v: seq<real>, u': seq<real>, v': seq<real>,
                                          p: seq<nat>, col: seq<nat>, used: seq<bool>,
                                          way: seq<nat>, rank: seq<nat>, delta: real, i: nat)
    requires Sized(cost, u, v) && Shifted(u, v, u', v', p, col, used, delta)
    requires |p| == |v| && |col| == |u| && i < |u| && Inverse(p, col, i, -1) && Marked(p, used, |u| - 1)
    requires Tree(cost, u, v, p, used, way, rank)
    ensures Tree(cost, u', v', p, used, way, rank)
  {
    forall j | 1 <= j < |v| && used[j] ensures Hangs(cost, u', v', p, used, way[j], j) {
      assert Hangs(cost, u, v, p, used, way[j], j);
      assert col[p[way[j]]] == way[j];
    }
  }

  lemma {:induction false} ShiftKeepsLeast(cost: Matrix, u: seq<real>, v: seq<real>, u': seq<real>, v': seq<real>,
                                           p: seq<nat>, col: seq<nat>, used: seq<bool>,
                                           w: nat, m: Bound, delta: real, i: nat, j: nat)
    requires Sized(cost, u, v) && Shifted(u, v, u', v', p, col, used, delta)
    requires |p| == |v| && |col| == |u| && i < |u| && Inverse(p, col, i, -1) && Marked(p, used, |u| - 1)
    requires 1 <= j < |v| && !used[j] && Least(cost, u, v, p, used, w, m, j)
    ensures Least(cost, u', v', p, used, w, Finite(m.value - delta), j)
  {
    forall k | 0 <= k < |v| && used[k]
      ensures Slack(cost, u', v', p[k], j) == Slack(cost, u, v, p[k], j) - delta
    {
      assert col[p[k]] == k;
    }
  }

  // ---------------------------------------------------------------- a free column exists

  /** k distinct numbers, each between 1 and n, are at most n numbers. */
  lemma {:induction false} DistinctNumbersFit(s: seq<int>, n: nat)
    requires forall x :: 0 <= x < |s| ==> 1 <= s[x] <= n
    requires forall x, y :: 0 <= x < y < |s| ==> s[x] != s[y]
    ensures |s| <= n
    decreases n
  {
    if s == [] {
    } else if n in s {
      var x :| 0 <= x < |s| && s[x] == n;
      DistinctNumbersFit(s[..x] + s[x + 1..], n - 1);
    } else {
      assert 1 <= s[0] < n;
      DistinctNumbersFit(s, n - 1);
    }
  }

  lemma {:induction false} SomeColumnIsFree(p: seq<nat>, col: seq<nat>, used: seq<bool>, i: nat)
    requires 1 <= i < |col| <= |p| && |used| == |p|
    requires p[0] == i && Inverse(p, col, i, -1) && Marked(p, used, |col| - 1)
    ensures exists j :: 1 <= j < |p| && !used[j]
  {
    if forall j :: 1 <= j < |p| ==> used[j] {
      var s := p[1..];
      forall x | 0 <= x < |s| ensures 1 <= s[x] <= i - 1 && col[s[x]] == x + 1 {
        assert s[x] == p[x + 1] && used[x + 1];
        assert col[p[0]] == 0;
      }
      DistinctNumbersFit(s, i - 1);
      assert false;
    }
  }

  // ---------------------------------------------------------------- the algorithm

  /** Taking the row of the new column j0 into account keeps a column's minimum exact. */
  lemma {:induction false} LeastExtends(cost: Matrix, u: seq<real>, v: seq<real>, p: seq<nat>, used: seq<bool>,
                                        j0: nat, w: nat, m: Bound, j: int)
    requires Sized(cost, u, v) && |p| == |v| && Marked(p, used, |u| - 1) && 1 <= j < |v|
    requires j0 < |v| && used[j0]
    requires if NoneUsed(used[j0 := false], 0) then m.Infinite?
             else Least(cost, u, v, p, used[j0 := false], w, m, j)
    ensures
      var cur := Finite(Slack(cost, u, v, p[j0], j));
      if Less(cur, m) then Least(cost, u, v, p, used, j0, cur, j) else Least(cost, u, v, p, used, w, m, j)
  {
    var others := used[j0 := false];
    forall k | 0 <= k < |v| && used[k] && k != j0 ensures others[k] && m.Finite? {}
  }

  /** Let the row in column j0 compete for the unused column j. */
  method RelaxColumn(cost: Matrix, u: array<real>, v: array<real>, p: array<nat>, ghost used: seq<bool>,
                     way: array<nat>, minv: array<Bound>, j0: nat, j: nat)
    requires way != p && j0 < v.Length == p.Length == way.Length == minv.Length && 1 <= j < v.Length
    requires Sized(cost, u[..], v[..]) && Marked(p[..], used, u.Length - 1) && used[j0] && !used[j]
    requires if NoneUsed(used[j0 := false], 0) then minv[j].Infinite?
             else Least(cost, u[..], v[..], p[..], used[j0 := false], way[j], minv[j], j)
    modifies way, minv
    ensures Least(cost, u[..], v[..], p[..], used, way[j], minv[j], j)
    ensures way[..] == old(way[..])[j := way[j]] && minv[..] == old(minv[..])[j := minv[j]]
  {
    LeastExtends(cost, u[..], v[..], p[..], used, j0, way[j], minv[j], j);
    var i0 := p[j0];
    var cur := cost[i0 - 1][j - 1] - u[i0] - v[j];
    if Less(Finite(cur), minv[j]) {
      minv[j] := Finite(cur);
      way[j] := j0;
    }
  }

  /** Before the row in column j0 is scanned: the minima are exact for the other used columns. */
  ghost predicate ScanReady(cost: Matrix, u: seq<real>, v: seq<real>, p: seq<nat>, used: seq<bool>,
                            way: seq<nat>, minv: seq<Bound>, j0: nat)
    requires Sized(cost, u, v) && |p| == |v| && Marked(p, used, |u| - 1)
  {
    && |way| == |minv| == |v| && j0 < |v| && used[j0]
    && if NoneUsed(used[j0 := false], 0) then forall j :: 1 <= j < |v| ==> minv[j].Infinite?
       else Frontier(cost, u, v, p, used[j0 := false], way, minv, |v|)
  }

  /** One scan over the columns: refresh minv/way with the row in column j0, pick the closest. */
  method ScanColumns(cost: Matrix, u: array<real>, v: array<real>, p: array<nat>, used: array<bool>,
                     way: array<nat>, minv: array<Bound>, j0: nat)
    returns (delta: real, j1: nat)
    requires way != p && v.Length == p.Length == used.Length == way.Length == minv.Length
    requires Sized(cost, u[..], v[..]) && Marked(p[..], used[..], u.Length - 1)
    requires exists j :: 1 <= j < p.Length && !used[j]
    requires ScanReady(cost, u[..], v[..], p[..], used[..], way[..], minv[..], j0)
    modifies way, minv
    ensures Frontier(cost, u[..], v[..], p[..], used[..], way[..], minv[..], v.Length)
    ensures forall k :: 0 <= k < used.Length && used[k] ==> way[k] == old(way[k])
    ensures 1 <= j1 < used.Length && !used[j1] && minv[j1] == Finite(delta)
    ensures AtLeast(used[..], minv[..], delta)
  {
    ghost var us, vs, ps, marks := u[..], v[..], p[..], used[..];
    ghost var ways0, mins0 := way[..], minv[..];
    ghost var ways, mins := ways0, mins0;
    var least := Infinite;
    j1 := 0;
    for j := 1 to v.Length
      invariant u[..] == us && v[..] == vs && p[..] == ps && used[..] == marks && way[..] == ways && minv[..] == mins
      invariant least.Infinite? ==> forall k :: 1 <= k < j ==> marks[k]
      invariant least.Finite? ==> 1 <= j1 < j && !marks[j1] && mins[j1] == least
      invariant Frontier(cost, us, vs, ps, marks, ways, mins, j)
      invariant forall k :: 1 <= k < j && !marks[k] ==> !Less(mins[k], least) && mins[k].Finite?
      invariant forall k :: j <= k < |mins| ==> mins[k] == mins0[k]
      invariant forall k :: 0 <= k < |ways| && (marks[k] || j <= k) ==> ways[k] == ways0[k]
    {
      if !used[j] {
        RelaxColumn(cost, u, v, p, marks, way, minv, j0, j);
        ways, mins := ways[j := way[j]], mins[j := minv[j]];
        if Less(minv[j], least) {
          least := minv[j];
          j1 := j;
        }
      }
    }
    delta := least.value;
  }

  /** Shifting one more column, and its row, extends the shift by that column. */
  lemma {:induction false} ShiftOneMore(u0: seq<real>, v0: seq<real>, u: seq<real>, v: seq<real>,
                                        p: seq<nat>, col: seq<nat>, done: seq<bool>, j: nat, delta: real)
    requires Shifted(u0, v0, u, v, p, col, done, delta)
    requires j < |v| == |p| && !done[j] && p[j] < |u| == |col| && col[p[j]] == j
    ensures
      var u', v' := u[p[j] := u[p[j]] + delta], v[j := v[j] - delta];
      && Shifted(u0, v0, u', v', p, col, done[j := true], delta)
      && SumOf(u', v') == SumOf(u, v)
  {
    SumUpdate(u, p[j], u[p[j]] + delta, |u|);
    SumUpdate(v, j, v[j] - delta, |v|);
    forall r | 0 <= r < |u| && r != p[j]
      ensures UsedRow(p, col, done[j := true], r) == UsedRow(p, col, done, r)
    {}
  }

  method ShiftColumn(u: array<real>, v: array<real>, p: array<nat>, j: nat, delta: real,
                     ghost u0: seq<real>, ghost v0: seq<real>, ghost col: seq<nat>, ghost done: seq<bool>)
    requires u != v && j < v.Length == p.Length && p[j] < u.Length == |col| && col[p[j]] == j
    requires Shifted(u0, v0, u[..], v[..], p[..], col, done, delta) && !done[j]
    modifies u, v
    ensures Shifted(u0, v0, u[..], v[..], p[..], col, done[j := true], delta)
    ensures SumOf(u[..], v[..]) == old(SumOf(u[..], v[..]))
  {
    ghost var us, vs := u[..], v[..];
    ShiftOneMore(u0, v0, us, vs, p[..], col, done, j, delta);
    u[p[j]] := u[p[j]] + delta;
    v[j] := v[j] - delta;
    assert u[..] == us[p[j] := us[p[j]] + delta] && v[..] == vs[j := vs[j] - delta];
  }

  /** The dual step: shift the potentials of used columns and their rows by delta, and move the
      minima of the unused columns along. */
  method ShiftPotentials(u: array<real>, v: array<real>, p: array<nat>, used: array<bool>,
                         minv: array<Bound>, delta: real, ghost col: seq<nat>)
    requires u != v && v.Length == p.Length == used.Length == minv.Length && |col| == u.Length
    requires forall k :: 0 <= k < p.Length && used[k] ==> p[k] < u.Length && col[p[k]] == k
    modifies u, v, minv
    ensures Shifted(old(u[..]), old(v[..]), u[..], v[..], p[..], col, used[..], delta)
    ensures SumOf(u[..], v[..]) == old(SumOf(u[..], v[..]))
    ensures forall j :: 0 <= j < minv.Length ==>
              minv[j] == if used[j] then old(minv[j]) else Minus(old(minv[j]), delta)
  {
    ghost var u0, v0, mins := u[..], v[..], minv[..];
    ghost var done := seq(v.Length, _ => false);
    assert Shifted(u0, v0, u[..], v[..], p[..], col, done, delta);
    hide Shifted, SumOf;
    for j := 0 to v.Length
      invariant |done| == v.Length && forall k :: 0 <= k < v.Length ==> done[k] == (k < j && used[k])
      invariant Shifted(u0, v0, u[..], v[..], p[..], col, done, delta)
      invariant SumOf(u[..], v[..]) == SumOf(u0, v0)
      invariant forall k :: 0 <= k < minv.Length ==>
                  minv[k] == if k < j && !used[k] then Minus(mins[k], delta) else mins[k]
    {
      if used[j] {
        ShiftColumn(u, v, p, j, delta, u0, v0, col, done);
        done := done[j := true];
      } else {
        minv[j] := Minus(minv[j], delta);
      }
    }
    assert done == used[..];
  }

  // ---------------------------------------------------------------- one row

  /** A dual step by the least minimum keeps the search invariant, makes row i feasible, and
      makes the edge to the closest column tight. */
  lemma {:induction false} DualStep(cost: Matrix, u: seq<real>, v: seq<real>, u': seq<real>, v': seq<real>,
                                    p: seq<nat>, col: seq<nat>, used: seq<bool>, way: seq<nat>, rank: seq<nat>,
                                    minv: seq<Bound>, minv': seq<Bound>, delta: real, j1: nat, i: nat)
    requires Searching(cost, u, v, p, col, i) && Marked(p, used, |u| - 1) && used[0]
    requires Tree(cost, u, v, p, used, way, rank)
    requires Frontier(cost, u, v, p, used, way, minv, |v|) && AtLeast(used, minv, delta)
    requires 1 <= j1 < |v| && !used[j1] && minv[j1] == Finite(delta)
    requires NoneUsed(used, 1) || Feasible(cost, u, v, i)
    requires Shifted(u, v, u', v', p, col, used, delta)
    requires SumOf(u', v') == 0.0
    requires |minv'| == |v| && forall j :: 0 <= j < |v| && !used[j] && minv[j].Finite? ==> minv'[j] == Finite(minv[j].value - delta)
    ensures Searching(cost, u', v', p, col, i) && Feasible(cost, u', v', i)
    ensures Tree(cost, u', v', p, used, way, rank)
    ensures Frontier(cost, u', v', p, used, way, minv', |v|)
    ensures Hangs(cost, u', v', p, used, way[j1], j1)
  {
    assert Least(cost, u, v, p, used, way[j1], minv[j1], j1);
    assert col[p[way[j1]]] == way[j1];
    assert NoneUsed(used, 1) || delta >= 0.0;
    ShiftKeepsFeasible(cost, u, v, u', v', p, col, used, way, minv, delta, i);
    ShiftKeepsTree(cost, u, v, u', v', p, col, used, way, rank, delta, i);
    forall j | 1 <= j < |v| && !used[j] ensures Least(cost, u', v', p, used, way[j], minv'[j], j) {
      assert Least(cost, u, v, p, used, way[j], minv[j], j);
      ShiftKeepsLeast(cost, u, v, u', v', p, col, used, way[j], minv[j], delta, i, j);
    }
    assert Least(cost, u', v', p, used, way[j1], minv'[j1], j1);
    assert Feasible(cost, u', v', i - 1);
  }

  /** The tree is consistent; every used column is older than `time`. */
  ghost predicate Grown(cost: Matrix, u: seq<real>, v: seq<real>, p: seq<nat>, col: seq<nat>, i: nat,
                        used: seq<bool>, way: seq<nat>, rank: seq<nat>, time: nat) {
    && Searching(cost, u, v, p, col, i)
    && |rank| == |p| && Marked(p, used, |u| - 1) && Tree(cost, u, v, p, used, way, rank)
    && forall k :: 0 <= k < |p| && used[k] ==> rank[k] < time
  }

  /** Nothing has been scanned, and column 0 is next. */
  ghost predicate Fresh(used: seq<bool>, minv: seq<Bound>, last: nat) {
    && last == 0 && NoneUsed(used, 0) && |minv| == |used|
    && forall j :: 1 <= j < |minv| ==> minv[j].Infinite?
  }

  /** A scan and a dual step have just reached column `last`. */
  ghost predicate Reached(cost: Matrix, u: seq<real>, v: seq<real>, p: seq<nat>, i: nat,
                          used: seq<bool>, way: seq<nat>, minv: seq<Bound>, last: nat)
    requires Sized(cost, u, v) && |p| == |v| && Marked(p, used, |u| - 1) && i < |u|
  {
    && 1 <= last < |v| && used[0] && |way| == |v| && Feasible(cost, u, v, i)
    && Frontier(cost, u, v, p, used, way, minv, |v|)
    && Hangs(cost, u, v, p, used, way[last], last)
  }

  lemma {:induction false} MarkKeepsGrown(cost: Matrix, u: seq<real>, v: seq<real>, p: seq<nat>, col: seq<nat>, i: nat,
                                          used: seq<bool>, way: seq<nat>, rank: seq<nat>, minv: seq<Bound>,
                                          last: nat, time: nat)
    requires Grown(cost, u, v, p, col, i, used, way, rank, time)
    requires last < |p| && !used[last] && 1 <= p[last]
    requires Fresh(used, minv, last) || Reached(cost, u, v, p, i, used, way, minv, last)
    ensures
      var used', rank' := used[last := true], rank[last := time];
      && Grown(cost, u, v, p, col, i, used', way, rank', time + 1)
      && used'[0] && (NoneUsed(used', 1) || Feasible(cost, u, v, i))
      && ScanReady(cost, u, v, p, used', way, minv, last)
  {
    var used', rank' := used[last := true], rank[last := time];
    assert used'[last := false] == used;
    assert p[last] < |u| by {
      assert last == 0 || col[p[last]] == last;
    }
    forall j | 1 <= j < |v| && used'[j]
      ensures Hangs(cost, u, v, p, used', way[j], j) && rank'[way[j]] < rank'[j]
    {
      assert Hangs(cost, u, v, p, used, way[j], j);
      assert j != last ==> rank[way[j]] < rank[j];
    }
  }

  lemma {:induction false} ScanKeepsTree(cost: Matrix, u: seq<real>, v: seq<real>, p: seq<nat>, used: seq<bool>,
                                         way: seq<nat>, way': seq<nat>, rank: seq<nat>)
    requires Sized(cost, u, v) && |p| == |v| && Marked(p, used, |u| - 1)
    requires Tree(cost, u, v, p, used, way, rank)
    requires |way'| == |v| && forall k :: 0 <= k < |v| && used[k] ==> way'[k] == way[k]
    ensures Tree(cost, u, v, p, used, way', rank)
  {
    forall j | 1 <= j < |v| && used[j]
      ensures Hangs(cost, u, v, p, used, way'[j], j) && rank[way'[j]] < rank[j]
    {
      assert Hangs(cost, u, v, p, used, way[j], j) && rank[way[j]] < rank[j];
    }
  }

  ghost function Unused(used: seq<bool>): set<int> {
    set k | 0 <= k < |used| && !used[k]
  }

  lemma {:induction false} MarkingShrinks(used: seq<bool>, k: nat)
    requires k < |used| && !used[k]
    ensures Unused(used[k := true]) < Unused(used)
  {
    assert k in Unused(used) && k !in Unused(used[k := true]);
  }

  /** One round of the search: mark column `last`, scan from its row, shift, find the next column. */
  method SearchRound(cost: Matrix, i: nat, u: array<real>, v: array<real>, p: array<nat>, way: array<nat>,
                     minv: array<Bound>, used: array<bool>, last: nat,
                     ghost col: seq<nat>, ghost rank: seq<nat>, ghost time: nat)
    returns (next: nat)
    requires u != v && way != p && used.Length == minv.Length == way.Length == v.Length == p.Length
    requires Grown(cost, u[..], v[..], p[..], col, i, used[..], way[..], rank, time)
    requires last < p.Length && !used[last] && 1 <= p[last]
    requires Fresh(used[..], minv[..], last) || Reached(cost, u[..], v[..], p[..], i, used[..], way[..], minv[..], last)
    modifies u, v, way, minv, used
    ensures used[..] == old(used[..])[last := true]
    ensures Grown(cost, u[..], v[..], p[..], col, i, used[..], way[..], rank[last := time], time + 1)
    ensures next < p.Length && !used[next]
    ensures Reached(cost, u[..], v[..], p[..], i, used[..], way[..], minv[..], next)
  {
    hide Tree, Frontier, Feasible, Tight, Settled, Untouched, Shape, Shifted, NoneUsed, Fresh, Hangs, Least, ScanReady;
    ghost var us, vs, ps, rank' := u[..], v[..], p[..], rank[last := time];
    assert forall k :: 0 <= k < |ps| && ps[k] != 0 ==> col[ps[k]] == k;
    hide Inverse;
    MarkKeepsGrown(cost, us, vs, ps, col, i, used[..], way[..], rank, minv[..], last, time);
    ghost var older := used[..];
    used[last] := true;
    ghost var marks := used[..];
    assert marks == older[last := true];
    SomeColumnIsFree(ps, col, marks, i);
    ghost var ways0 := way[..];
    var delta, j1 := ScanColumns(cost, u, v, p, used, way, minv, last);
    ghost var ways, mins := way[..], minv[..];
    ScanKeepsTree(cost, us, vs, ps, marks, ways0, ways, rank');
    assert u[..] == us && v[..] == vs && p[..] == ps && used[..] == marks;
    ShiftPotentials(u, v, p, used, minv, delta, col);
    assert p[..] == ps && used[..] == marks && way[..] == ways;
    assert Shifted(us, vs, u[..], v[..], ps, col, marks, delta);
    assert SumOf(u[..], v[..]) == 0.0;
    assert Frontier(cost, us, vs, ps, marks, ways, mins, |vs|);
    DualStep(cost, us, vs, u[..], v[..], ps, col, marks, ways, rank', mins, minv[..], delta, j1, i);
    next := j1;
  }

  lemma {:induction false} StartSearch(cost: Matrix, u: seq<real>, v: seq<real>, p: seq<nat>, col: seq<nat>, i: nat,
                                       used: seq<bool>, way: seq<nat>, rank: seq<nat>, minv: seq<Bound>)
    requires Searching(cost, u, v, p, col, i)
    requires |used| == |way| == |rank| == |minv| == |v|
    requires forall j :: 0 <= j < |v| ==> !used[j] && minv[j] == Infinite
    ensures Grown(cost, u, v, p, col, i, used, way, rank, 0) && Fresh(used, minv, 0)
    ensures |v| > 0 && !used[0] && 1 <= p[0]
  {
  }

  lemma {:induction false} FinishSearch(cost: Matrix, u: seq<real>, v: seq<real>, p: seq<nat>, col: seq<nat>, i: nat,
                                        used: seq<bool>, way: seq<nat>, rank: seq<nat>, minv: seq<Bound>,
                                        last: nat, time: nat)
    requires Grown(cost, u, v, p, col, i, used, way, rank, time)
    requires last < |p| && !used[last] && Reached(cost, u, v, p, i, used, way, minv, last)
    ensures 1 <= last && Feasible(cost, u, v, i) && Hangs(cost, u, v, p, used, way[last], last)
    ensures Tree(cost, u, v, p, used, way, rank[last := time])
    ensures forall k :: 0 <= k < |p| && used[k] ==> rank[last := time][k] < time
  {
    var rank' := rank[last := time];
    forall j | 1 <= j < |v| && used[j]
      ensures Hangs(cost, u, v, p, used, way[j], j) && rank'[way[j]] < rank'[j]
    {
      assert Hangs(cost, u, v, p, used, way[j], j) && rank[way[j]] < rank[j];
    }
  }

  /** Grow the alternating tree from row i until it reaches an unmatched column. */
  method Search(cost: Matrix, i: nat, u: array<real>, v: array<real>, p: array<nat>, way: array<nat>,
                ghost col: seq<nat>)
    returns (last: nat, ghost marks: seq<bool>, ghost rank: seq<nat>)
    requires u != v && way != p && way.Length == v.Length
    requires Searching(cost, u[..], v[..], p[..], col, i)
    modifies u, v, way
    ensures Searching(cost, u[..], v[..], p[..], col, i) && Feasible(cost, u[..], v[..], i)
    ensures Marked(p[..], marks, u.Length - 1) && Tree(cost, u[..], v[..], p[..], marks, way[..], rank)
    ensures 1 <= last < p.Length && p[last] == 0
    ensures Hangs(cost, u[..], v[..], p[..], marks, way[last], last)
    ensures forall k :: 0 <= k < p.Length && marks[k] ==> rank[k] < rank[last]
  {
    hide Tree, Frontier, Feasible, Tight, Settled, Untouched, Shape, Inverse, Hangs, NoneUsed, Fresh, Reached;
    var minv := new Bound[v.Length](_ => Infinite);
    var used := new bool[v.Length](_ => false);
    ghost var time := 0;
    rank := seq(v.Length, _ => 0);
    last := 0;
    StartSearch(cost, u[..], v[..], p[..], col, i, used[..], way[..], rank, minv[..]);
    while true
      invariant Grown(cost, u[..], v[..], p[..], col, i, used[..], way[..], rank, time)
      invariant last < p.Length && !used[last] && 1 <= p[last]
      invariant Fresh(used[..], minv[..], last) || Reached(cost, u[..], v[..], p[..], i, used[..], way[..], minv[..], last)
      decreases Unused(used[..])
    {
      ghost var older := used[..];
      var j1 := SearchRound(cost, i, u, v, p, way, minv, used, last, col, rank, time);
      MarkingShrinks(older, last);
      rank, time := rank[last := time], time + 1;
      last := j1;
      if p[last] == 0 { break; }
    }
    FinishSearch(cost, u[..], v[..], p[..], col, i, used[..], way[..], rank, minv[..], last, time);
    marks := used[..];
    rank := rank[last := time];
  }

  // ---------------------------------------------------------------- augmentation

  /** Moving the row in column j into the empty column `hole` makes j the hole. */
  lemma {:induction false} MoveKeepsInverse(p: seq<nat>, col: seq<nat>, i: nat, hole: nat, j: nat)
    requires i < |col| && Inverse(p, col, i, hole)
    requires hole < |p| && j < |p| && j != hole && p[j] != 0
    ensures p[j] < |col| && Inverse(p[hole := p[j]], col[p[j] := hole], i, j)
  {
  }

  /** Walk back along `way`, moving each row one column towards the free column. */
  method Augment(cost: Matrix, ghost u: seq<real>, ghost v: seq<real>, p: array<nat>, way: array<nat>, last: nat,
                 ghost col: seq<nat>, ghost i: nat, ghost used: seq<bool>, ghost rank: seq<nat>)
    returns (ghost col': seq<nat>)
    requires way != p && Sized(cost, u, v) && p.Length == |v| && |col| == |u| && i < |u|
    requires Inverse(p[..], col, i, -1) && Tight(cost, u, v, p[..], -1)
    requires Marked(p[..], used, |u| - 1) && Tree(cost, u, v, p[..], used, way[..], rank)
    requires 1 <= last < p.Length && p[last] == 0 && Hangs(cost, u, v, p[..], used, way[last], last)
    requires forall k :: 0 <= k < |v| && used[k] ==> rank[k] < rank[last]
    modifies p
    ensures |col'| == |col| && Inverse(p[..], col', i, 0) && Tight(cost, u, v, p[..], 0)
    ensures forall j :: 1 <= j < |v| && old(p[j]) != 0 ==> p[j] != 0
  {
    ghost var was, ways := p[..], way[..];
    col' := col;
    var j0 := last;
    while j0 != 0
      invariant way[..] == ways && j0 < |v| && |col'| == |col|
      invariant j0 == last || used[j0]
      invariant forall k :: 0 <= k < |v| && used[k] && rank[k] <= rank[j0] ==> p[k] == was[k]
      invariant Inverse(p[..], col', i, j0) && Tight(cost, u, v, p[..], j0)
      invariant forall j :: 1 <= j < |v| && j != j0 && was[j] != 0 ==> p[j] != 0
      decreases rank[j0]
    {
      var j1 := way[j0];
      assert Hangs(cost, u, v, was, used, ways[j0], j0) && rank[j1] < rank[j0];
      ghost var ps := p[..];
      MoveKeepsInverse(ps, col', i, j0, j1);
      col' := col'[p[j1] := j0];
      p[j0] := p[j1];
      assert p[..] == ps[j0 := ps[j1]];
      j0 := j1;
    }
  }

  /** Row i is parked in column 0. */
  lemma {:induction false} ParkRow(cost: Matrix, u: seq<real>, v: seq<real>, p: seq<nat>, col: seq<nat>, i: nat)
    requires 1 <= i < |u| <= |v| && Solved(cost, u, v, p, col, i - 1)
    ensures Searching(cost, u, v, p[0 := i], col[i := 0], i)
  {
  }

  /** A free column was filled: row i is now part of the solved problem. */
  lemma {:induction false} RowInserted(cost: Matrix, u: seq<real>, v: seq<real>, p: seq<nat>, p': seq<nat>,
                                       col: seq<nat>, col': seq<nat>, i: nat)
    requires Searching(cost, u, v, p, col, i) && Feasible(cost, u, v, i)
    requires |p'| == |p| && |col'| == |col| && Inverse(p', col', i, 0) && Tight(cost, u, v, p', 0)
    requires forall j :: 1 <= j < |v| && p[j] != 0 ==> p'[j] != 0
    ensures Solved(cost, u, v, p', col', i)
  {
  }

  lemma {:induction false} NothingSolvedYet(cost: Matrix, u: seq<real>, v: seq<real>, p: seq<nat>, col: seq<nat>)
    requires Sized(cost, u, v) && |p| == |v| && |col| == |u|
    requires forall r :: 0 <= r < |u| ==> u[r] == 0.0 && col[r] == 0
    requires forall j :: 0 <= j < |v| ==> v[j] == 0.0 && p[j] == 0
    ensures Solved(cost, u, v, p, col, 0)
  {
    SumZero(u, |u|);
    SumZero(v, |v|);
  }

  /** The matching p as a list of columns, numbered from 0. */
  method ReadAssignment(p: array<nat>, rows: nat, ghost col: seq<nat>) returns (assignment: seq<int>)
    requires |col| == rows + 1 && p.Length >= 1 && Inverse(p[..], col, rows, 0)
    ensures assignment == Columns(col, rows)
  {
    var columns := new int[rows](_ => -1);
    for j := 1 to p.Length
      invariant forall r :: 0 <= r < rows ==> columns[r] == if col[r + 1] < j then col[r + 1] as int - 1 else -1
    {
      if p[j] > 0 { columns[p[j] - 1] := j - 1; }
    }
    assignment := columns[..];
  }

  /** One iteration of the outer loop: row i joins the matching. */
  method InsertRow(cost: Matrix, i: nat, u: array<real>, v: array<real>, p: array<nat>, way: array<nat>,
                   ghost col: seq<nat>)
    returns (ghost col': seq<nat>)
    requires u != v && way != p && way.Length == v.Length
    requires 1 <= i < u.Length <= v.Length && Solved(cost, u[..], v[..], p[..], col, i - 1)
    modifies u, v, p, way
    ensures Solved(cost, u[..], v[..], p[..], col', i)
  {
    hide Tree, Feasible, Tight, Settled, Untouched, Hangs, Inverse, Shape;
    ghost var ps: seq<nat> := p[..];
    ParkRow(cost, u[..], v[..], ps, col, i);
    p[0] := i;
    assert p[..] == ps[0 := i];
    ghost var parked := col[i := 0];
    ps := p[..];
    var last;
    ghost var used, rank;
    last, used, rank := Search(cost, i, u, v, p, way, parked);
    col' := Augment(cost, u[..], v[..], p, way, last, parked, i, used, rank);
    RowInserted(cost, u[..], v[..], ps, p[..], parked, col', i);
  }

  /** All rows inserted: the matching is an assignment that no other assignment undercuts. */
  lemma {:induction false} SolvedIsOptimal(cost: Matrix, u: seq<real>, v: seq<real>, p: seq<nat>, col: seq<nat>,
                                           rows: nat, cols: nat)
    requires |u| == rows + 1 && |v| == cols + 1 && Solved(cost, u, v, p, col, rows)
    ensures Assigns(Columns(col, rows), rows, cols)
    ensures forall a :: Assigns(a, rows, cols) ==> Total(cost, Columns(col, rows), rows) <= Total(cost, a, rows)
  {
    ArtificialColumnIsMinusCost(cost, u, v, p, col, rows);
    forall a | Assigns(a, rows, cols) ensures Total(cost, Columns(col, rows), rows) <= Total(cost, a, rows) {
      NoAssignmentIsCheaper(cost, u, v, p, col, a);
    }
  }

  /** A minimum-cost assignment of rows to distinct columns. */
  method HungarianMinCost(cost: Matrix, rows: nat, cols: nat) returns (assignment: seq<int>)
    requires Shape(cost, rows, cols) && rows <= cols
    ensures Assigns(assignment, rows, cols)
    ensures forall a :: Assigns(a, rows, cols) ==> Total(cost, assignment, rows) <= Total(cost, a, rows)
  {
    var u := new real[rows + 1](_ => 0.0);
    var v := new real[cols + 1](_ => 0.0);
    var p := new nat[cols + 1](_ => 0);
    var way := new nat[cols + 1](_ => 0);
    ghost var col: seq<nat> := seq(rows + 1, _ => 0);
    NothingSolvedYet(cost, u[..], v[..], p[..], col);
    for i: nat := 1 to rows + 1
      invariant Solved(cost, u[..], v[..], p[..], col, i - 1)
    {
      col := InsertRow(cost, i, u, v, p, way, col);
    }
    SolvedIsOptimal(cost, u[..], v[..], p[..], col, rows, cols);
    assignment := ReadAssignment(p, rows, col);
  }
}
