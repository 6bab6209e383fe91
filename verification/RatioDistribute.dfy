/** ratio_distribute: an integer total handed out edge by edge in proportion to ratios
    (benchmark_sets/realfix_seed_v0/rich_table_padding_width_001/after/rich/_ratio.py). */
module RatioDistribute {
  import opened Common

  /** AssertionFailed stands for the source's assert on the sum of the ratios. */
  datatype Result<+T> = Ok(value: T) | AssertionFailed

  /** A ratio with its minimum. */
  datatype Part = Part(ratio: int, minimum: int)

  function Sum(s: seq<int>): int {
    if s == [] then 0 else s[0] + Sum(s[1..])
  }

  function Ratios(parts: seq<Part>): int {
    if parts == [] then 0 else parts[0].ratio + Ratios(parts[1..])
  }

  /** a / b rounded up (CeilDivBrackets), by taking off one b at a time. */
  function CeilDiv(a: int, b: int): int
    requires b > 0
    decreases if a > 0 then a else -a
  {
    if a > 0 then 1 + (if a <= b then 0 else CeilDiv(a - b, b))
    else if a <= -b then CeilDiv(a + b, b) - 1
    else 0
  }

  lemma {:induction false} CeilDivBrackets(a: int, b: int)
    requires b > 0
    ensures (CeilDiv(a, b) - 1) * b < a <= CeilDiv(a, b) * b
    decreases if a > 0 then a else -a
  {
    if a > b {
      CeilDivBrackets(a - b, b);
    } else if a <= -b {
      CeilDivBrackets(a + b, b);
    }
  }

  /** What the next part gets of the rest. */
  function Served(rest: int, ratios: int, p: Part): int {
    if ratios > 0 then Max(p.minimum, CeilDiv(p.ratio * rest, ratios)) else rest
  }

  function Shares(rest: int, ratios: int, parts: seq<Part>): (out: seq<int>)
    ensures |out| == |parts|
    decreases |parts|
  {
    if parts == [] then []
    else
      var d := Served(rest, ratios, parts[0]);
      [d] + Shares(rest - d, ratios - parts[0].ratio, parts[1..])
  }

  // ---------------------------------------------------------------- the arguments

  /** zip(ratios, minimums), where a minimum of 0 switches its ratio off. */
  function Zip(ratios: seq<int>, minimums: seq<int>): seq<Part> {
    if ratios == [] || minimums == [] then []
    else [Part(if minimums[0] != 0 then ratios[0] else 0, minimums[0])] + Zip(ratios[1..], minimums[1..])
  }

  /** Without minimums every ratio counts and every minimum is 0. */
  function Plain(ratios: seq<int>): (parts: seq<Part>)
    ensures |parts| == |ratios| && forall i :: 0 <= i < |parts| ==> parts[i] == Part(ratios[i], 0)
  {
    seq(|ratios|, i requires 0 <= i < |ratios| => Part(ratios[i], 0))
  }

  /** The parts that are served and the sum of ratios that is checked.  An empty list of minimums
      switches no ratio off, yet serves nobody. */
  function Arguments(ratios: seq<int>, minimums: Option<seq<int>>): (seq<Part>, int) {
    match minimums
    case None => (Plain(ratios), Ratios(Plain(ratios)))
    case Some(ms) => if ms == [] then ([], Sum(ratios)) else (Zip(ratios, ms), Ratios(Zip(ratios, ms)))
  }

  method RatioDistribute(total: int, ratios: seq<int>, minimums: Option<seq<int>>) returns (r: Result<seq<int>>)
    ensures
      var (parts, sum) := Arguments(ratios, minimums);
      r == if sum <= 0 then AssertionFailed else Ok(Shares(total, sum, parts))
  {
    hide CeilDiv, Served, Arguments;
    var (parts, sum) := Arguments(ratios, minimums);
    var totalRatio, totalRemaining := sum, total;
    if totalRatio <= 0 { return AssertionFailed; }
    var out: seq<int> := [];
    assert parts[0..] == parts && out + Shares(total, sum, parts) == Shares(total, sum, parts);
    for i := 0 to |parts|
      invariant out + Shares(totalRemaining, totalRatio, parts[i..]) == Shares(total, sum, parts)
    {
      ghost var rest := parts[i..];
      var distributed := Served(totalRemaining, totalRatio, parts[i]);
      assert rest[0] == parts[i] && rest[1..] == parts[i + 1..];
      assert out + ([distributed] + Shares(totalRemaining - distributed, totalRatio - parts[i].ratio, rest[1..]))
          == out + [distributed] + Shares(totalRemaining - distributed, totalRatio - parts[i].ratio, rest[1..]);
      out := out + [distributed];
      totalRatio, totalRemaining := totalRatio - parts[i].ratio, totalRemaining - distributed;
    }
    assert out + [] == out;
    return Ok(out);
  }

  // ---------------------------------------------------------------- does it sum to the total?

  lemma {:induction false} WholeOf(p: int, b: int)
    requires b > 0
    ensures CeilDiv(b * p, b) == p
  {
    var q := CeilDiv(b * p, b);
    CeilDivBrackets(b * p, b);
    hide CeilDiv;
    if q < p { MultiplyBoth(q, p - 1, b); } else if q > p { MultiplyBoth(p, q - 1, b); }
  }

  /** The sum is the total exactly when, at the last part, no ratio is left or its minimum fits into
      what the parts before it left over. */
  lemma {:induction false} SumsToTotalExactly(rest: int, parts: seq<Part>)
    requires parts != []
    ensures
      var n, out := |parts| - 1, Shares(rest, Ratios(parts), parts);
      && (Sum(out) == rest <==> parts[n].ratio <= 0 || parts[n].minimum <= rest - Sum(out[..n]))
      && (parts[n].ratio > 0 ==> Sum(out) >= rest)
    decreases |parts|
  {
    var out := Shares(rest, Ratios(parts), parts);
    var d := Served(rest, Ratios(parts), parts[0]);
    if parts[0].ratio > 0 { WholeOf(rest, parts[0].ratio); }
    hide CeilDiv;
    if |parts| == 1 {
      assert Ratios(parts[1..]) == 0 && Shares(rest - d, 0, parts[1..]) == [];
      assert out == [d] && out[..0] == [] && out[1..] == [];
      assert Sum(out) == d + Sum(out[1..]) == d;
      assert d == if parts[0].ratio > 0 then Max(parts[0].minimum, rest) else rest;
    } else {
      SumsToTotalExactly(rest - d, parts[1..]);
      var n := |parts| - 1;
      var later := Shares(rest - d, Ratios(parts[1..]), parts[1..]);
      assert out == [d] + later && out[1..] == later;
      assert out[..n][1..] == later[..n - 1] && out[..n][0] == d;
      assert parts[1..][n - 1] == parts[n];
    }
  }

  /** Whatever is served while ratios are left is at least the minimum. */
  lemma {:induction false} MinimumsAreServed(rest: int, parts: seq<Part>, k: nat)
    requires k < |parts| && forall i :: 0 <= i < |parts| ==> parts[i].ratio > 0
    ensures Shares(rest, Ratios(parts), parts)[k] >= parts[k].minimum
    decreases |parts|
  {
    hide CeilDiv;
    RatiosPositive(parts);
    if k > 0 {
      var d := Served(rest, Ratios(parts), parts[0]);
      MinimumsAreServed(rest - d, parts[1..], k - 1);
    }
  }

  lemma {:induction false} RatiosPositive(parts: seq<Part>)
    requires forall i :: 0 <= i < |parts| ==> parts[i].ratio > 0
    ensures Ratios(parts) >= |parts|
  {
    if parts != [] { RatiosPositive(parts[1..]); }
  }

  lemma {:induction false} RatiosNotNegative(parts: seq<Part>)
    requires forall i :: 0 <= i < |parts| ==> parts[i].ratio >= 0
    ensures Ratios(parts) >= 0
  {
    if parts != [] { RatiosNotNegative(parts[1..]); }
  }

  /** A share of something that is not negative lies between 0 and all of it. */
  lemma {:induction false} ShareFits(ratio: int, rest: int, ratios: int)
    requires 0 <= ratio <= ratios && ratios > 0 && rest >= 0
    ensures 0 <= CeilDiv(ratio * rest, ratios) <= rest
  {
    CeilDivBrackets(ratio * rest, ratios);
    MultiplyBoth(0, ratio, rest);
    MultiplyBoth(ratio, ratios, rest);
    hide CeilDiv;
    Between(CeilDiv(ratio * rest, ratios), ratio * rest, rest, ratios);
  }

  lemma {:induction false} MultiplyBoth(x: int, y: int, factor: int)
    requires x <= y && factor >= 0
    ensures x * factor <= y * factor
  {
  }

  lemma {:induction false} Between(q: int, amount: int, rest: int, ratios: int)
    requires ratios > 0 && (q - 1) * ratios < amount <= q * ratios && 0 <= amount <= ratios * rest
    ensures 0 <= q <= rest
  {
    if q < 0 {
      MultiplyBoth(q, -1, ratios);
    } else if q > rest {
      MultiplyBoth(rest, q - 1, ratios);
    }
  }

  /** Without minimums, a total that is not negative is handed out completely. */
  lemma {:induction false} PlainSumsToTotal(rest: int, parts: seq<Part>)
    requires forall i :: 0 <= i < |parts| ==> parts[i].ratio >= 0 && parts[i].minimum == 0
    requires rest >= 0 && (Ratios(parts) > 0 || rest == 0)
    ensures Sum(Shares(rest, Ratios(parts), parts)) == rest
    ensures forall k :: 0 <= k < |parts| ==> 0 <= Shares(rest, Ratios(parts), parts)[k] <= rest
  {
    if parts != [] {
      RatiosNotNegative(parts);
      RatiosNotNegative(parts[1..]);
      var d := Served(rest, Ratios(parts), parts[0]);
      if Ratios(parts) > 0 {
        ShareFits(parts[0].ratio, rest, Ratios(parts));
        if Ratios(parts[1..]) == 0 { WholeOf(rest, Ratios(parts)); }
      }
      PlainSumsToTotal(rest - d, parts[1..]);
      var later := Shares(rest - d, Ratios(parts[1..]), parts[1..]);
      var out := Shares(rest, Ratios(parts), parts);
      assert out == [d] + later && out[1..] == later;
    }
  }

  // ---------------------------------------------------------------- the call with minimums

  /** No ratio is negative and the last one counts. */
  ghost predicate LastCounts(parts: seq<Part>) {
    && parts != [] && parts[|parts| - 1].ratio > 0
    && forall i :: 0 <= i < |parts| ==> parts[i].ratio >= 0
  }

  lemma {:induction false} LastRatioIsLeft(parts: seq<Part>)
    requires LastCounts(parts)
    ensures Ratios(parts) > 0
    decreases |parts|
  {
    if |parts| > 1 { LastRatioIsLeft(parts[1..]); }
  }

  /** The least total that is enough: what the later parts need, together with this minimum, and
      scaled up by what this part's ratio takes from them. */
  ghost function Enough(parts: seq<Part>): int
    requires LastCounts(parts)
    decreases |parts|
  {
    if |parts| == 1 then parts[0].minimum
    else
      LastRatioIsLeft(parts[1..]);
      Max(Enough(parts[1..]) + parts[0].minimum, CeilDiv(Enough(parts[1..]) * Ratios(parts), Ratios(parts[1..])))
  }

  lemma {:induction false} CeilAtMost(a: int, b: int, x: int)
    requires b > 0
    ensures CeilDiv(a, b) <= x <==> a <= x * b
  {
    var q := CeilDiv(a, b);
    CeilDivBrackets(a, b);
    hide CeilDiv;
    if q <= x { MultiplyBoth(q, x, b); } else { MultiplyBoth(x, q - 1, b); }
  }

  /** Serving the first part leaves `need` exactly when there is enough for its minimum too, and for
      the share that its ratio takes. */
  lemma {:induction false} LeavesEnough(rest: int, p: Part, left: int, need: int)
    requires p.ratio >= 0 && left > p.ratio
    ensures rest - Served(rest, left, p) >= need
       <==> rest >= Max(need + p.minimum, CeilDiv(need * left, left - p.ratio))
  {
    CeilAtMost(p.ratio * rest, left, rest - need);
    CeilAtMost(need * left, left - p.ratio, rest);
    hide CeilDiv;
    assert (rest - need) * left == rest * left - need * left;
    assert rest * (left - p.ratio) == rest * left - p.ratio * rest;
  }

  lemma {:induction false} SumsFromEnough(rest: int, parts: seq<Part>)
    requires LastCounts(parts)
    ensures Sum(Shares(rest, Ratios(parts), parts)) == rest <==> rest >= Enough(parts)
    decreases |parts|
  {
    LastRatioIsLeft(parts);
    var d := Served(rest, Ratios(parts), parts[0]);
    var later := Shares(rest - d, Ratios(parts[1..]), parts[1..]);
    assert Shares(rest, Ratios(parts), parts) == [d] + later && ([d] + later)[1..] == later;
    if |parts| == 1 {
      WholeOf(rest, parts[0].ratio);
      hide CeilDiv;
      assert parts[1..] == [] && later == [];
    } else {
      LastRatioIsLeft(parts[1..]);
      LeavesEnough(rest, parts[0], Ratios(parts), Enough(parts[1..]));
      hide CeilDiv, Served;
      SumsFromEnough(rest - d, parts[1..]);
    }
  }

  lemma {:induction false} NothingIsEnough(parts: seq<Part>)
    requires LastCounts(parts) && forall i :: 0 <= i < |parts| ==> parts[i].minimum == 0
    ensures Enough(parts) == 0
    decreases |parts|
  {
    if |parts| > 1 {
      LastRatioIsLeft(parts[1..]);
      NothingIsEnough(parts[1..]);
    }
  }

  /** The call without minimums sums to the total exactly when the total is not negative, or the last
      ratio is 0. */
  lemma {:induction false} DistributesTotal(total: int, ratios: seq<int>)
    requires (forall i :: 0 <= i < |ratios| ==> ratios[i] >= 0) && Arguments(ratios, None).1 > 0
    ensures
      var (parts, sum) := Arguments(ratios, None);
      ratios != [] && (Sum(Shares(total, sum, parts)) == total <==> total >= 0 || ratios[|ratios| - 1] == 0)
  {
    var parts := Plain(ratios);
    assert ratios != [];
    SumsToTotalExactly(total, parts);
    hide CeilDiv, Served;
    if LastCounts(parts) {
      NothingIsEnough(parts);
      SumsFromEnough(total, parts);
    }
  }

  /** The parts of a zip: as many as the shorter list has, and no ratio where the minimum is 0. */
  lemma {:induction false} ZipParts(ratios: seq<int>, minimums: seq<int>)
    ensures |Zip(ratios, minimums)| == if |ratios| < |minimums| then |ratios| else |minimums|
    ensures forall i :: 0 <= i < |Zip(ratios, minimums)| ==>
              Zip(ratios, minimums)[i] == Part(if minimums[i] != 0 then ratios[i] else 0, minimums[i])
  {
    if ratios != [] && minimums != [] { ZipParts(ratios[1..], minimums[1..]); }
  }

  /** The call with minimums sums to the total exactly when the last ratio does not count - it is 0,
      or its minimum is - or the total is at least a bound that the arguments determine.  With an empty
      list of minimums nothing is handed out. */
  lemma {:induction false} CallSumsExactly(total: int, ratios: seq<int>, minimums: seq<int>)
    requires forall i :: 0 <= i < |ratios| ==> ratios[i] >= 0
    requires Arguments(ratios, Some(minimums)).1 > 0
    ensures
      var (parts, sum) := Arguments(ratios, Some(minimums));
      (Sum(Shares(total, sum, parts)) == total) ==
      (if minimums == [] then total == 0 else !LastCounts(parts) || total >= Enough(parts))
    ensures
      var last := (if |ratios| < |minimums| then |ratios| else |minimums|) - 1;
      minimums != [] ==>
        last >= 0 && (LastCounts(Arguments(ratios, Some(minimums)).0) <==> minimums[last] != 0 && ratios[last] > 0)
  {
    if minimums != [] {
      var parts := Zip(ratios, minimums);
      ZipParts(ratios, minimums);
      SumsToTotalExactly(total, parts);
      if LastCounts(parts) { SumsFromEnough(total, parts); }
    }
  }

  /** Minimums can break the sum although they fit into the total: 9 + 5 for a total of 10 with
      minimums 1 and 5. */
  lemma {:induction false} MinimumsCanOverrun()
    ensures
      var (parts, sum) := Arguments([9, 1], Some([1, 5]));
      sum == 10 && Shares(10, sum, parts) == [9, 5] && Sum([1, 5]) <= 10 < Sum([9, 5])
    ensures LastCounts([Part(9, 1), Part(1, 5)]) && Enough([Part(9, 1), Part(1, 5)]) == 50
  {
    var parts := [Part(9, 1), Part(1, 5)];
    var last := [Part(1, 5)];
    assert Zip([1], [5]) == last by { assert Zip([], []) == []; }
    assert [9, 1][1..] == [1] && [1, 5][1..] == [5];
    assert Zip([9, 1], [1, 5]) == parts;
    assert parts[1..] == last && last[1..] == [];
    assert Ratios(last) == 1;
    assert Ratios(parts) == 10;
    assert LastCounts(last) && LastCounts(parts);
    CeilDivBrackets(50, 1);
    assert Enough(last) == 5;
    assert Enough(parts) == Max(Enough(last) + 1, CeilDiv(Enough(last) * 10, 1));
    hide CeilDiv, Served, Zip, Ratios;
    assert Shares(1, 1, last) == [5];
    assert Shares(10, 10, parts) == [9, 5];
    assert Sum([5]) == 5;
    assert [9, 5][1..] == [5];
  }
}
