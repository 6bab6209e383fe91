/** Maximum-weight one-to-one matching of bugs to findings, by reduction to the assignment
    problem (arena/scoring/scorer.py:86-89,144-176).  A pair (bug, finding) is eligible when
    it is a key of `weights`. */
module Matching {
  import opened Assignment

  type Weights = map<(int, int), real>

  const FORBIDDEN_COST := 1000000000.0

  /** A partial one-to-one matching that uses eligible pairs only. */
  ghost predicate IsMatching(weights: Weights, bugs: nat, m: map<int, int>) {
    && (forall b :: b in m ==> 0 <= b < bugs && (b, m[b]) in weights)
    && forall b, c :: b in m && c in m && b != c ==> m[b] != m[c]
  }

  /** The weight that bug b contributes to matching m. */
  ghost function PairWeight(weights: Weights, m: map<int, int>, b: int): real {
    if b in m && (b, m[b]) in weights then weights[(b, m[b])] else 0.0
  }

  ghost function Weight(weights: Weights, m: map<int, int>, bugs: nat): real {
    if bugs == 0 then 0.0 else Weight(weights, m, bugs - 1) + PairWeight(weights, m, bugs - 1)
  }

  lemma {:induction false} EqualPairsEqualWeight(weights: Weights, m: map<int, int>,
                                                 weights': Weights, m': map<int, int>, bugs: nat)
    requires forall b :: 0 <= b < bugs ==> PairWeight(weights, m, b) == PairWeight(weights', m', b)
    ensures Weight(weights, m, bugs) == Weight(weights', m', bugs)
  {
    if bugs > 0 { EqualPairsEqualWeight(weights, m, weights', m', bugs - 1); }
  }

  /** m is a matching, and no matching weighs more. */
  ghost predicate IsMaximum(weights: Weights, bugs: nat, m: map<int, int>) {
    && IsMatching(weights, bugs, m)
    && forall other :: IsMatching(weights, bugs, other) ==> Weight(weights, other, bugs) <= Weight(weights, m, bugs)
  }

  // ---------------------------------------------------------------- the columns

  /** ids lists, in ascending order, the findings that occur in an eligible pair. */
  ghost predicate FindingColumns(weights: Weights, ids: seq<int>) {
    && (forall x, y :: 0 <= x < y < |ids| ==> ids[x] < ids[y])
    && forall key :: key in weights ==> key.1 in ids
  }

  lemma {:induction false} EmptyIfNothingIn(s: set<int>)
    ensures (forall z :: z !in s) ==> s == {}
  {
    if forall z :: z !in s { assert s == {}; }
  }

  lemma {:induction false} LeastElement(s: set<int>) returns (x: int)
    requires s != {}
    ensures x in s && forall y :: y in s ==> x <= y
  {
    EmptyIfNothingIn(s);
    var z :| z in s;
    x := z;
    if s != {z} {
      var least := LeastElement(s - {z});
      x := if least < z then least else z;
      assert forall y :: y in s ==> y == z || y in s - {z};
    }
  }

  method SortedIds(ids: set<int>) returns (sorted: seq<int>)
    ensures forall x, y :: 0 <= x < y < |sorted| ==> sorted[x] < sorted[y]
    ensures forall x :: x in sorted <==> x in ids
  {
    sorted := [];
    var rest := ids;
    while rest != {}
      invariant rest <= ids && forall x :: x in sorted <==> x in ids - rest
      invariant forall x, y :: 0 <= x < |sorted| && y in rest ==> sorted[x] < y
      invariant forall x, y :: 0 <= x < y < |sorted| ==> sorted[x] < sorted[y]
      decreases rest
    {
      ghost var first := LeastElement(rest);
      var next :| next in rest && forall y :: y in rest ==> next <= y;
      sorted := sorted + [next];
      rest := rest - {next};
    }
  }

  // ---------------------------------------------------------------- the cost matrix

  /** What bug b pays for column c: minus the weight, the forbidden cost, or nothing for a dummy. */
  function CostAt(weights: Weights, ids: seq<int>, b: int, c: nat): real {
    if c >= |ids| then 0.0
    else if (b, ids[c]) in weights then -weights[(b, ids[c])]
    else FORBIDDEN_COST
  }

  ghost predicate IsCostMatrix(weights: Weights, ids: seq<int>, bugs: nat, cost: Matrix) {
    && |cost| == bugs
    && (forall b :: 0 <= b < bugs ==> |cost[b]| == |ids| + bugs)
    && forall b, c :: 0 <= b < bugs && 0 <= c < |ids| + bugs ==> cost[b][c] == CostAt(weights, ids, b, c)
  }

  method BuildCost(weights: Weights, ids: seq<int>, bugs: nat) returns (cost: Matrix)
    ensures IsCostMatrix(weights, ids, bugs, cost)
  {
    var columns := |ids| + bugs;
    cost := seq(bugs, _ => seq(columns, _ => 0.0));
    for bug := 0 to bugs
      invariant |cost| == bugs && forall b :: 0 <= b < bugs ==> |cost[b]| == columns
      invariant forall b, c :: 0 <= b < bugs && 0 <= c < columns ==>
                  cost[b][c] == if b < bug then CostAt(weights, ids, b, c) else 0.0
    {
      ghost var before := cost;
      for index := 0 to |ids|
        invariant |cost| == bugs && |cost[bug]| == columns
        invariant forall b :: 0 <= b < bugs && b != bug ==> cost[b] == before[b]
        invariant forall c :: 0 <= c < columns ==>
                    cost[bug][c] == if c < index then CostAt(weights, ids, bug, c) else 0.0
      {
        var entry := if (bug, ids[index]) in weights then -weights[(bug, ids[index])] else FORBIDDEN_COST;
        cost := cost[bug := cost[bug][index := entry]];
      }
    }
  }

  // ---------------------------------------------------------------- from assignments to matchings

  lemma {:induction false} TotalUpdate(cost: Matrix, a: seq<int>, b: nat, c: nat, k: nat)
    requires b < |a| && k <= |a| && k <= |cost|
    requires forall r :: 0 <= r < k ==> 0 <= a[r] < |cost[r]|
    requires b < k ==> c < |cost[b]|
    ensures Total(cost, a[b := c], k) == Total(cost, a, k) + if b < k then cost[b][c] - cost[b][a[b]] else 0.0
  {
    if k > 0 { TotalUpdate(cost, a, b, c, k - 1); }
  }

  /** Row b does not occupy one of the `bugs` dummy columns, so some dummy is free. */
  lemma {:induction false} SomeDummyIsFree(a: seq<int>, realCols: nat, bugs: nat, b: nat)
    requires Assigns(a, bugs, realCols + bugs) && b < bugs && a[b] < realCols
    ensures exists d :: realCols <= d < realCols + bugs && d !in a
  {
    if forall d :: realCols <= d < realCols + bugs ==> d in a {
      var rows := seq(bugs, x requires 0 <= x < bugs => RowNumber(a, realCols + x));
      forall x | 0 <= x < bugs ensures 1 <= rows[x] <= bugs && a[rows[x] - 1] == realCols + x {
        var c := realCols + x;
        assert c in a && rows[x] == RowNumber(a, c);
      }
      DistinctNumbersFit([b + 1] + rows, bugs);
      assert false;
    }
  }

  /** The row in column c, numbered from 1, or 0 for none. */
  ghost function RowNumber(a: seq<int>, c: int): (r: nat)
    ensures c in a ==> 1 <= r <= |a| && a[r - 1] == c
  {
    if c in a then RowOf(a, c) + 1 else 0
  }

  ghost function RowOf(a: seq<int>, c: int): (r: nat)
    requires c in a
    ensures r < |a| && a[r] == c
  {
    var r :| 0 <= r < |a| && a[r] == c; r
  }

  /** Exchange argument: a minimum-cost assignment never pays the forbidden cost, because
      moving the offending bug to a free dummy column would be cheaper. */
  lemma {:induction false} OptimumAvoidsForbidden(weights: Weights, ids: seq<int>, bugs: nat, cost: Matrix,
                                                  a: seq<int>, b: nat)
    requires IsCostMatrix(weights, ids, bugs, cost) && Assigns(a, bugs, |ids| + bugs)
    requires forall other :: Assigns(other, bugs, |ids| + bugs) ==> Total(cost, a, bugs) <= Total(cost, other, bugs)
    requires b < bugs && a[b] < |ids|
    ensures (b, ids[a[b]]) in weights
  {
    SomeDummyIsFree(a, |ids|, bugs, b);
    var d :| |ids| <= d < |ids| + bugs && d !in a;
    assert Assigns(a[b := d], bugs, |ids| + bugs);
    TotalUpdate(cost, a, b, d, bugs);
    assert cost[b][d] == 0.0 && cost[b][a[b]] == CostAt(weights, ids, b, a[b]);
  }

  /** The column that matching m gives bug b: its finding's column, or b's own dummy. */
  ghost function ColumnOf(ids: seq<int>, m: map<int, int>, b: nat): int
    requires forall c :: c in m ==> m[c] in ids
  {
    if b in m then RowOf(ids, m[b]) else |ids| + b
  }

  ghost function AsAssignment(ids: seq<int>, m: map<int, int>, bugs: nat): seq<int>
    requires forall c :: c in m ==> m[c] in ids
  {
    seq(bugs, b requires 0 <= b < bugs => ColumnOf(ids, m, b))
  }

  /** If a puts every bug of m in its finding's column and every other bug in a dummy, then the
      cost of a is minus the weight of m. */
  lemma {:induction false} CostIsMinusWeight(weights: Weights, ids: seq<int>, bugs: nat, cost: Matrix,
                                             m: map<int, int>, a: seq<int>, k: nat)
    requires IsCostMatrix(weights, ids, bugs, cost) && Assigns(a, bugs, |ids| + bugs) && k <= bugs
    requires forall b :: b in m ==> (b, m[b]) in weights
    requires forall b :: 0 <= b < k ==> if b in m then a[b] < |ids| && ids[a[b]] == m[b] else a[b] >= |ids|
    ensures Total(cost, a, k) == -Weight(weights, m, k)
  {
    if k > 0 {
      CostIsMinusWeight(weights, ids, bugs, cost, m, a, k - 1);
      assert cost[k - 1][a[k - 1]] == CostAt(weights, ids, k - 1, a[k - 1]);
    }
  }

  lemma {:induction false} MatchingIsAssignment(weights: Weights, ids: seq<int>, bugs: nat, m: map<int, int>)
    requires FindingColumns(weights, ids) && IsMatching(weights, bugs, m)
    ensures forall c :: c in m ==> m[c] in ids
    ensures Assigns(AsAssignment(ids, m, bugs), bugs, |ids| + bugs)
  {
    forall c | c in m ensures m[c] in ids {
      assert (c, m[c]).1 in ids;
    }
    var a := AsAssignment(ids, m, bugs);
    forall r, s | 0 <= r < s < bugs ensures a[r] != a[s] {
      assert r in m ==> ids[a[r]] == m[r];
      assert s in m ==> ids[a[s]] == m[s];
    }
  }

  /** The matching read off an optimal assignment is a maximum-weight matching. */
  lemma {:induction false} OptimalAssignmentIsMaximum(weights: Weights, ids: seq<int>, bugs: nat, cost: Matrix,
                                                      a: seq<int>, m: map<int, int>)
    requires FindingColumns(weights, ids) && IsCostMatrix(weights, ids, bugs, cost)
    requires Assigns(a, bugs, |ids| + bugs)
    requires forall other :: Assigns(other, bugs, |ids| + bugs) ==> Total(cost, a, bugs) <= Total(cost, other, bugs)
    requires forall b :: b in m <==> 0 <= b < bugs && a[b] < |ids| && (b, ids[a[b]]) in weights
    requires forall b :: b in m ==> m[b] == ids[a[b]]
    ensures IsMaximum(weights, bugs, m)
  {
    forall b | 0 <= b < bugs && a[b] < |ids| ensures b in m {
      OptimumAvoidsForbidden(weights, ids, bugs, cost, a, b);
    }
    forall b, c | b in m && c in m && b != c ensures m[b] != m[c] {
      assert a[b] != a[c];
    }
    CostIsMinusWeight(weights, ids, bugs, cost, m, a, bugs);
    forall other | IsMatching(weights, bugs, other)
      ensures Weight(weights, other, bugs) <= Weight(weights, m, bugs)
    {
      MatchingIsAssignment(weights, ids, bugs, other);
      CostIsMinusWeight(weights, ids, bugs, cost, other, AsAssignment(ids, other, bugs), bugs);
    }
  }

  lemma {:induction false} NoPairNoWeight(m: map<int, int>, bugs: nat)
    ensures Weight(map[], m, bugs) == 0.0
  {
    if bugs > 0 { NoPairNoWeight(m, bugs - 1); }
  }

  lemma {:induction false} NothingEligible(weights: Weights, bugs: nat)
    requires bugs == 0 || weights == map[]
    ensures IsMaximum(weights, bugs, map[])
  {
    forall m | IsMatching(weights, bugs, m) ensures Weight(weights, m, bugs) == 0.0 {
      if bugs > 0 {
        NoPairNoWeight(m, bugs);
      }
    }
  }

  lemma {:induction false} FoundColumns(weights: Weights, found: set<int>, ids: seq<int>)
    requires found == set key | key in weights :: key.1
    requires forall x, y :: 0 <= x < y < |ids| ==> ids[x] < ids[y]
    requires forall x :: x in ids <==> x in found
    ensures FindingColumns(weights, ids)
  {
    forall key | key in weights ensures key.1 in ids {
      var id := key.1;
      assert id in found;
    }
  }

  /** A maximum-weight matching for any weights whatever: negative ones, ones above the forbidden
      cost, and pairs of bugs out of range (which are never matched). */
  method MaxWeightMatching(weights: Weights, bugs: nat) returns (result: map<int, int>)
    ensures IsMaximum(weights, bugs, result)
  {
    if bugs == 0 || weights == map[] {
      NothingEligible(weights, bugs);
      return map[];
    }
    var found := set key | key in weights :: key.1;
    var ids := SortedIds(found);
    FoundColumns(weights, found, ids);
    var cost := BuildCost(weights, ids, bugs);
    var assignment := HungarianMinCost(cost, bugs, |ids| + bugs);
    result := map[];
    for bug := 0 to bugs
      invariant forall b :: b in result <==> 0 <= b < bug && assignment[b] < |ids| && (b, ids[assignment[b]]) in weights
      invariant forall b :: b in result ==> result[b] == ids[assignment[b]]
    {
      var column := assignment[bug];
      if 0 <= column < |ids| && (bug, ids[column]) in weights {
        result := result[bug := ids[column]];
      }
    }
    OptimalAssignmentIsMaximum(weights, ids, bugs, cost, assignment, result);
  }
}
