/** Dividing a length among layout edges (`ratio_resolve` of the vendored rich/_ratio.py) over
    exact fractions.  Edges with a fixed size keep it; the others share what remains in
    proportion to their ratios, but none gets less than its minimum. */
module RatioResolve {
  import opened Common

  datatype Edge = Edge(size: Option<int>, ratio: int, minimum: int)
  {
    /** The fixed size; a size of 0 counts as not given. */
    function Fixed(): Option<int> {
      if size == Some(0) then None else size
    }

    /** The ratio, or 1 when it is 0. */
    function Share(): int { if ratio == 0 then 1 else ratio }

    /** The minimum, or 1 when it is 0. */
    function RoomlessSize(): int { if minimum == 0 then 1 else minimum }
  }

  type Sizes = seq<Option<int>>

  ghost predicate NoNegativeRatio(edges: seq<Edge>) {
    forall k :: 0 <= k < |edges| ==> edges[k].ratio >= 0
  }

  ghost predicate PositiveRatios(edges: seq<Edge>) {
    forall k :: 0 <= k < |edges| ==> edges[k].ratio >= 1
  }

  // ---------------------------------------------------------------- sums over the first k edges

  function Sum(s: seq<int>): int {
    if s == [] then 0 else Sum(s[..|s| - 1]) + s[|s| - 1]
  }

  /** Sizes determined so far. */
  function Known(sizes: Sizes, k: nat): int
    requires k <= |sizes|
  {
    if k == 0 then 0 else Known(sizes, k - 1) + if sizes[k - 1].Some? then sizes[k - 1].value else 0
  }

  /** Total ratio of the edges without a size. */
  function OpenShares(edges: seq<Edge>, sizes: Sizes, k: nat): int
    requires k <= |sizes| == |edges|
  {
    if k == 0 then 0 else OpenShares(edges, sizes, k - 1) + if sizes[k - 1].None? then edges[k - 1].Share() else 0
  }

  function OpenCount(sizes: Sizes, k: nat): (n: nat)
    requires k <= |sizes|
    ensures n == 0 <==> forall i :: 0 <= i < k ==> sizes[i].Some?
  {
    if k == 0 then 0 else OpenCount(sizes, k - 1) + if sizes[k - 1].None? then 1 else 0
  }

  lemma {:induction false} SharesArePositive(edges: seq<Edge>, sizes: Sizes, k: nat)
    requires k <= |sizes| == |edges| && NoNegativeRatio(edges)
    ensures OpenShares(edges, sizes, k) >= OpenCount(sizes, k)
  {
    if k > 0 { SharesArePositive(edges, sizes, k - 1); }
  }

  lemma {:induction false} GivingASize(edges: seq<Edge>, sizes: Sizes, j: nat, m: int, k: nat)
    requires k <= |sizes| == |edges| && j < |sizes| && sizes[j].None?
    ensures
      var sizes' := sizes[j := Some(m)];
      && Known(sizes', k) == Known(sizes, k) + (if j < k then m else 0)
      && OpenShares(edges, sizes', k) == OpenShares(edges, sizes, k) - (if j < k then edges[j].Share() else 0)
      && OpenCount(sizes', k) == OpenCount(sizes, k) - (if j < k then 1 else 0)
  {
    if k > 0 { GivingASize(edges, sizes, j, m, k - 1); }
  }

  // ---------------------------------------------------------------- the algorithm as a function

  /** One share of the remaining length. */
  function Portion(remaining: int, shares: int): real
    requires shares != 0
  {
    remaining as real / shares as real
  }

  /** What an edge would get at this portion, before rounding. */
  function Part(e: Edge, portion: real): real { portion * e.ratio as real }

  predicate TooSmall(e: Edge, size: Option<int>, portion: real) {
    size.None? && Part(e, portion) <= e.minimum as real
  }

  /** The first open edge at or after k whose part is not above its minimum. */
  function FirstTooSmall(edges: seq<Edge>, sizes: Sizes, portion: real, k: nat): (j: nat)
    requires k <= |sizes| == |edges|
    ensures k <= j <= |sizes| && (j < |sizes| ==> TooSmall(edges[j], sizes[j], portion))
    ensures forall i :: k <= i < j ==> !TooSmall(edges[i], sizes[i], portion)
    decreases |sizes| - k
  {
    if k == |sizes| || TooSmall(edges[k], sizes[k], portion) then k else FirstTooSmall(edges, sizes, portion, k + 1)
  }

  /** No room left: minimums for the edges without a size. */
  function Roomless(edges: seq<Edge>, sizes: Sizes, k: nat): (out: seq<int>)
    requires k <= |sizes| == |edges|
    ensures |out| == k
    ensures forall i :: 0 <= i < k ==> out[i] == if sizes[i].None? then edges[i].RoomlessSize() else sizes[i].value
  {
    if k == 0 then []
    else Roomless(edges, sizes, k - 1) + [if sizes[k - 1].None? then edges[k - 1].RoomlessSize() else sizes[k - 1].value]
  }

  /** The first k sizes, and the fraction carried to the next edge. */
  function Distribute(edges: seq<Edge>, sizes: Sizes, portion: real, k: nat): (r: (seq<int>, real))
    requires k <= |sizes| == |edges|
    ensures |r.0| == k && 0.0 <= r.1 < 1.0
    ensures forall i :: 0 <= i < k && sizes[i].Some? ==> r.0[i] == sizes[i].value
  {
    if k == 0 then ([], 0.0)
    else
      var (out, carried) := Distribute(edges, sizes, portion, k - 1);
      if sizes[k - 1].Some? then (out + [sizes[k - 1].value], carried)
      else
        var exact := Part(edges[k - 1], portion) + carried;
        (out + [exact.Floor], exact - exact.Floor as real)
  }

  /** The sizes, or None when the source divides by a total ratio of 0. */
  function Resolve(total: int, edges: seq<Edge>, sizes: Sizes): (out: Option<seq<int>>)
    requires |sizes| == |edges|
    ensures out.Some? ==> |out.value| == |edges|
    decreases OpenCount(sizes, |sizes|)
  {
    var n := |sizes|;
    var remaining := total - Known(sizes, n);
    if OpenCount(sizes, n) == 0 || remaining <= 0 then Some(Roomless(edges, sizes, n))
    else if OpenShares(edges, sizes, n) == 0 then None
    else
      var portion := Portion(remaining, OpenShares(edges, sizes, n));
      var j := FirstTooSmall(edges, sizes, portion, 0);
      if j < n then
        GivingASize(edges, sizes, j, edges[j].minimum, n);
        Resolve(total, edges, sizes[j := Some(edges[j].minimum)])
      else Some(Distribute(edges, sizes, portion, n).0)
  }

  lemma {:induction false} NeverDividesByZero(total: int, edges: seq<Edge>, sizes: Sizes)
    requires |sizes| == |edges| && NoNegativeRatio(edges)
    ensures Resolve(total, edges, sizes).Some?
    decreases OpenCount(sizes, |sizes|)
  {
    var n := |sizes|;
    SharesArePositive(edges, sizes, n);
    if OpenCount(sizes, n) > 0 && total > Known(sizes, n) {
      var j := FirstTooSmall(edges, sizes, Portion(total - Known(sizes, n), OpenShares(edges, sizes, n)), 0);
      if j < n {
        GivingASize(edges, sizes, j, edges[j].minimum, n);
        NeverDividesByZero(total, edges, sizes[j := Some(edges[j].minimum)]);
      }
    }
  }

  /** Without negative ratios there is always a result. */
  ghost function Resolved(total: int, edges: seq<Edge>, sizes: Sizes): (out: seq<int>)
    requires |sizes| == |edges| && NoNegativeRatio(edges)
    ensures |out| == |edges| && Resolve(total, edges, sizes) == Some(out)
  {
    NeverDividesByZero(total, edges, sizes);
    Resolve(total, edges, sizes).value
  }

  function Given(edges: seq<Edge>): (sizes: Sizes)
    ensures |sizes| == |edges| && forall k :: 0 <= k < |edges| ==> sizes[k] == edges[k].Fixed()
  {
    seq(|edges|, k requires 0 <= k < |edges| => edges[k].Fixed())
  }

  // ---------------------------------------------------------------- the loops compute the function

  method FindTooSmall(edges: seq<Edge>, sizes: Sizes, portion: real) returns (index: nat)
    requires |sizes| == |edges|
    ensures index == FirstTooSmall(edges, sizes, portion, 0)
  {
    index := 0;
    while index < |edges| && !TooSmall(edges[index], sizes[index], portion)
      invariant index <= |edges|
      invariant FirstTooSmall(edges, sizes, portion, 0) == FirstTooSmall(edges, sizes, portion, index)
    {
      index := index + 1;
    }
  }

  method DistributeRemaining(edges: seq<Edge>, sizes: Sizes, portion: real) returns (out: seq<int>)
    requires |sizes| == |edges|
    ensures out == Distribute(edges, sizes, portion, |edges|).0
  {
    hide Part;
    var remainder := 0.0;
    out := [];
    for k := 0 to |edges|
      invariant out == Distribute(edges, sizes, portion, k).0 && remainder == Distribute(edges, sizes, portion, k).1
    {
      if sizes[k].Some? {
        out := out + [sizes[k].value];
      } else {
        var exact := Part(edges[k], portion) + remainder;
        out, remainder := out + [exact.Floor], exact - exact.Floor as real;
      }
    }
  }

  method RatioResolve(total: int, edges: seq<Edge>) returns (result: Option<seq<int>>)
    ensures result == Resolve(total, edges, Given(edges))
  {
    hide FirstTooSmall, Distribute, Known, OpenShares, Portion, Part, Roomless, OpenCount;
    var n := |edges|;
    var sizes := Given(edges);
    while OpenCount(sizes, n) > 0
      invariant |sizes| == n && Resolve(total, edges, sizes) == Resolve(total, edges, Given(edges))
      decreases OpenCount(sizes, n)
    {
      var remaining := total - Known(sizes, n);
      if remaining <= 0 {
        return Some(Roomless(edges, sizes, n));
      }
      if OpenShares(edges, sizes, n) == 0 { return None; }
      var portion := Portion(remaining, OpenShares(edges, sizes, n));
      var index := FindTooSmall(edges, sizes, portion);
      if index == n {
        var out := DistributeRemaining(edges, sizes, portion);
        return Some(out);
      }
      GivingASize(edges, sizes, index, edges[index].minimum, n);
      sizes := sizes[index := Some(edges[index].minimum)];
    }
    return Some(Roomless(edges, sizes, n));
  }

  // ---------------------------------------------------------------- what every edge gets

  /** Fixed edges keep their size; open ones have none yet, or their minimum. */
  ghost predicate Consistent(edges: seq<Edge>, sizes: Sizes) {
    && |sizes| == |edges|
    && forall k :: 0 <= k < |edges| ==>
         if edges[k].Fixed().Some? then sizes[k] == edges[k].Fixed()
         else sizes[k] == None || sizes[k] == Some(edges[k].minimum)
  }

  /** Above the minimum before rounding means at least the minimum after it. */
  lemma {:induction false} DistributeRespectsMinimums(edges: seq<Edge>, sizes: Sizes, portion: real, k: nat)
    requires Consistent(edges, sizes) && k <= |edges|
    requires forall i :: 0 <= i < |edges| ==> !TooSmall(edges[i], sizes[i], portion)
    ensures forall i :: 0 <= i < k ==>
              var size := Distribute(edges, sizes, portion, k).0[i];
              if edges[i].Fixed().Some? then size == edges[i].Fixed().value else size >= edges[i].minimum
  {
    if k > 0 {
      DistributeRespectsMinimums(edges, sizes, portion, k - 1);
      if sizes[k - 1].None? {
        assert !TooSmall(edges[k - 1], sizes[k - 1], portion);
        var exact := Part(edges[k - 1], portion) + Distribute(edges, sizes, portion, k - 1).1;
      }
    }
  }

  /** An edge of a given size other than 0 has that size, and every other at least its minimum. */
  ghost predicate Respects(edges: seq<Edge>, out: seq<int>) {
    && |out| == |edges|
    && forall k :: 0 <= k < |edges| ==>
         if edges[k].size.Some? && edges[k].size.value != 0 then out[k] == edges[k].size.value else out[k] >= edges[k].minimum
  }

  lemma {:induction false} EdgesAreRespectedFrom(total: int, edges: seq<Edge>, sizes: Sizes)
    requires Consistent(edges, sizes)
    ensures Resolve(total, edges, sizes).Some? ==> Respects(edges, Resolve(total, edges, sizes).value)
    decreases OpenCount(sizes, |sizes|)
  {
    hide Part, Portion, Known, OpenShares;
    var n := |sizes|;
    var remaining := total - Known(sizes, n);
    if OpenCount(sizes, n) > 0 && remaining > 0 && OpenShares(edges, sizes, n) != 0 {
      var portion := Portion(remaining, OpenShares(edges, sizes, n));
      var j := FirstTooSmall(edges, sizes, portion, 0);
      if j < n {
        GivingASize(edges, sizes, j, edges[j].minimum, n);
        EdgesAreRespectedFrom(total, edges, sizes[j := Some(edges[j].minimum)]);
      } else {
        DistributeRespectsMinimums(edges, sizes, portion, n);
      }
    }
  }

  /** Every fixed edge keeps its size and every other edge gets at least its minimum, for all
      lengths, fixed sizes, minimums and ratios - whenever there is a result, which there is
      without negative ratios. */
  lemma {:induction false} EdgesAreRespected(total: int, edges: seq<Edge>)
    ensures Resolve(total, edges, Given(edges)).Some? ==> Respects(edges, Resolve(total, edges, Given(edges)).value)
    ensures NoNegativeRatio(edges) ==> Resolve(total, edges, Given(edges)).Some?
  {
    EdgesAreRespectedFrom(total, edges, Given(edges));
    if NoNegativeRatio(edges) { NeverDividesByZero(total, edges, Given(edges)); }
  }

  // ---------------------------------------------------------------- the water level

  /** What an open edge demands at a level: its part, or its minimum if that is not less. */
  ghost function Demand(e: Edge, level: real): real {
    var part := Part(e, level);
    if part <= e.minimum as real then e.minimum as real else part
  }

  /** Fixed sizes plus what the other edges demand at the level. */
  ghost function TotalDemand(edges: seq<Edge>, level: real, k: nat): real
    requires k <= |edges|
  {
    if k == 0 then 0.0
    else TotalDemand(edges, level, k - 1)
         + if edges[k - 1].Fixed().Some? then edges[k - 1].Fixed().value as real else Demand(edges[k - 1], level)
  }

  /** The edges below the level sit at their minimum; the others are still open. */
  ghost function AtLevel(edges: seq<Edge>, level: real): (sizes: Sizes)
    ensures |sizes| == |edges|
  {
    seq(|edges|, k requires 0 <= k < |edges| =>
      if edges[k].Fixed().Some? then edges[k].Fixed()
      else if Part(edges[k], level) <= edges[k].minimum as real then Some(edges[k].minimum)
      else None)
  }

  /** At this level the demands fill the length exactly, and some edge is above its minimum. */
  ghost predicate IsLevel(total: int, edges: seq<Edge>, level: real) {
    && level > 0.0
    && TotalDemand(edges, level, |edges|) == total as real
    && exists k :: 0 <= k < |edges| && AtLevel(edges, level)[k].None?
  }

  /** Sizes plus the minimums positive edges need, over the first k edges. */
  ghost function Needed(edges: seq<Edge>, k: nat): int
    requires k <= |edges|
  {
    if k == 0 then 0
    else Needed(edges, k - 1)
         + if edges[k - 1].Fixed().Some? then edges[k - 1].Fixed().value
           else if edges[k - 1].minimum > 0 then edges[k - 1].minimum else 0
  }

  /** Sizes plus what the other edges get when there is no room. */
  ghost function NeededWithoutRoom(edges: seq<Edge>, k: nat): int
    requires k <= |edges|
  {
    if k == 0 then 0
    else NeededWithoutRoom(edges, k - 1)
         + if edges[k - 1].Fixed().Some? then edges[k - 1].Fixed().value
           else if edges[k - 1].minimum != 0 then edges[k - 1].minimum else 1
  }

  /** What that many shares take at this portion. */
  ghost function Scaled(portion: real, shares: int): real { portion * shares as real }

  ghost predicate SomeFlexible(edges: seq<Edge>) {
    exists k :: 0 <= k < |edges| && edges[k].Fixed().None?
  }

  /** The edges already held at their minimum are below this level, and the remaining length does
      not exceed what the open edges take at it.  `level` is absent until an edge was held. */
  ghost predicate Descending(total: int, edges: seq<Edge>, sizes: Sizes, level: Option<real>) {
    && Consistent(edges, sizes)
    && match level
       case None => sizes == Given(edges)
       case Some(l) =>
         && l > 0.0 && SomeFlexible(edges)
         && (forall k :: 0 <= k < |edges| && edges[k].Fixed().None? && sizes[k].Some? ==>
               Part(edges[k], l) <= edges[k].minimum as real)
         && (total - Known(sizes, |sizes|)) as real <= Scaled(l, OpenShares(edges, sizes, |sizes|))
  }

  lemma {:induction false} PartMonotone(e: Edge, low: real, high: real)
    requires e.ratio >= 1
    ensures low <= high ==> Part(e, low) <= Part(e, high)
    ensures low < high ==> Part(e, low) < Part(e, high)
    ensures low > 0.0 ==> Part(e, low) > 0.0
  {
    var r := e.ratio as real;
    assert r >= 1.0;
    if low <= high { assert (high - low) * r >= 0.0; }
    if low < high { assert (high - low) * r > 0.0; }
    if low > 0.0 { assert low * r > 0.0; }
  }

  /** The portion splits what remains exactly among the open shares. */
  ghost predicate IsPortion(total: int, edges: seq<Edge>, sizes: Sizes, portion: real)
    requires |sizes| == |edges|
  {
    && portion > 0.0 && OpenShares(edges, sizes, |sizes|) > 0
    && Scaled(portion, OpenShares(edges, sizes, |sizes|)) == (total - Known(sizes, |sizes|)) as real
  }

  lemma {:induction false} PortionSplits(remaining: int, shares: int)
    requires remaining > 0 && shares > 0
    ensures Portion(remaining, shares) > 0.0
    ensures Scaled(Portion(remaining, shares), shares) == remaining as real
  {
  }

  lemma {:induction false} PortionAtMost(portion: real, shares: int, level: real)
    requires shares > 0 && Scaled(portion, shares) <= Scaled(level, shares)
    ensures portion <= level
  {
    var s := shares as real;
    assert (level - portion) * s >= 0.0;
  }

  lemma {:induction false} PortionBelowLevel(total: int, edges: seq<Edge>, sizes: Sizes, level: Option<real>, portion: real)
    requires Descending(total, edges, sizes, level) && IsPortion(total, edges, sizes, portion) && level.Some?
    ensures portion <= level.value
  {
    hide Scaled;
    PortionAtMost(portion, OpenShares(edges, sizes, |sizes|), level.value);
  }

  /** The level only falls: holding another edge keeps every held edge below the new level. */
  lemma {:induction false} HoldingAnEdge(total: int, edges: seq<Edge>, sizes: Sizes, level: Option<real>, j: nat, portion: real)
    requires PositiveRatios(edges) && Descending(total, edges, sizes, level)
    requires j < |sizes| && IsPortion(total, edges, sizes, portion)
    requires TooSmall(edges[j], sizes[j], portion)
    ensures Descending(total, edges, sizes[j := Some(edges[j].minimum)], Some(portion))
  {
    var n := |sizes|;
    hide Part, Scaled;
    GivingASize(edges, sizes, j, edges[j].minimum, n);
    forall k | 0 <= k < |edges| && edges[k].Fixed().None? && sizes[k].Some?
      ensures Part(edges[k], portion) <= edges[k].minimum as real
    {
      PortionBelowLevel(total, edges, sizes, level, portion);
      PartMonotone(edges[k], portion, level.value);
    }
    HeldRemainder(edges[j], portion, total - Known(sizes, n), OpenShares(edges, sizes, n));
    assert edges[j].Fixed().None?;
  }

  lemma {:induction false} HeldRemainder(e: Edge, portion: real, remaining: int, shares: int)
    requires e.ratio >= 1 && Part(e, portion) <= e.minimum as real
    requires Scaled(portion, shares) == remaining as real
    ensures (remaining - e.minimum) as real <= Scaled(portion, shares - e.Share())
  {
    var s, r := shares as real, e.ratio as real;
    assert portion * (s - r) == portion * s - portion * r;
  }

  lemma {:induction false} AddShare(e: Edge, portion: real, shares: int)
    requires e.ratio >= 1
    ensures Scaled(portion, shares + e.Share()) == Scaled(portion, shares) + Part(e, portion)
  {
    var s, r := shares as real, e.ratio as real;
    assert portion * (s + r) == portion * s + portion * r;
  }

  /** No edge of ratio 0 is still open. */
  ghost predicate OpenRatiosPositive(edges: seq<Edge>, sizes: Sizes) {
    |sizes| == |edges| && forall k :: 0 <= k < |edges| && sizes[k].None? ==> edges[k].ratio >= 1
  }

  /** Distributing hands out exactly the known sizes plus the parts, up to the carried fraction. */
  lemma {:induction false} DistributeSums(edges: seq<Edge>, sizes: Sizes, portion: real, k: nat)
    requires OpenRatiosPositive(edges, sizes) && k <= |edges|
    ensures Sum(Distribute(edges, sizes, portion, k).0) as real + Distribute(edges, sizes, portion, k).1
         == Known(sizes, k) as real + Scaled(portion, OpenShares(edges, sizes, k))
  {
    hide Part, Scaled;
    ScaledZero(portion);
    if k > 0 {
      DistributeSums(edges, sizes, portion, k - 1);
      var out := Distribute(edges, sizes, portion, k - 1).0;
      var out' := Distribute(edges, sizes, portion, k).0;
      assert out'[..|out'| - 1] == out;
      if sizes[k - 1].None? { AddShare(edges[k - 1], portion, OpenShares(edges, sizes, k - 1)); }
    }
  }

  lemma {:induction false} ScaledZero(portion: real)
    ensures Scaled(portion, 0) == 0.0
  {
  }

  lemma {:induction false} DemandIsKnownPlusParts(edges: seq<Edge>, level: real, k: nat)
    requires PositiveRatios(edges) && k <= |edges|
    ensures TotalDemand(edges, level, k)
         == Known(AtLevel(edges, level), k) as real + Scaled(level, OpenShares(edges, AtLevel(edges, level), k))
  {
    hide Part, Scaled;
    ScaledZero(level);
    if k > 0 {
      DemandIsKnownPlusParts(edges, level, k - 1);
      AddShare(edges[k - 1], level, OpenShares(edges, AtLevel(edges, level), k - 1));
    }
  }

  /** An edge above its minimum demands more than it needs. */
  lemma {:induction false} DemandExceedsNeed(edges: seq<Edge>, level: real, k: nat)
    requires PositiveRatios(edges) && level > 0.0 && k <= |edges|
    ensures TotalDemand(edges, level, k) >= Needed(edges, k) as real
    ensures (exists i :: 0 <= i < k && AtLevel(edges, level)[i].None?) ==> TotalDemand(edges, level, k) > Needed(edges, k) as real
  {
    if k > 0 {
      DemandExceedsNeed(edges, level, k - 1);
      PartMonotone(edges[k - 1], level, level);
    }
  }

  /** When everything open gets its roomless size, and held edges have a positive minimum. */
  lemma {:induction false} RoomlessSums(edges: seq<Edge>, sizes: Sizes, k: nat)
    requires Consistent(edges, sizes) && k <= |edges|
    requires forall i :: 0 <= i < |edges| && edges[i].Fixed().None? && sizes[i].Some? ==> edges[i].minimum > 0
    ensures Sum(Roomless(edges, sizes, k)) == NeededWithoutRoom(edges, k)
    ensures Known(sizes, k) <= Needed(edges, k)
  {
    if k > 0 {
      RoomlessSums(edges, sizes, k - 1);
      var out := Roomless(edges, sizes, k);
      assert out[..|out| - 1] == Roomless(edges, sizes, k - 1);
    }
  }

  /** What the result is: the length exactly when there is more than is needed (rounded shares
      at the water level), and the roomless sizes otherwise. */
  ghost predicate Outcome(total: int, edges: seq<Edge>, out: seq<int>) {
    if SomeFlexible(edges) && total > Needed(edges, |edges|) then
      && Sum(out) == total
      && exists level: real :: IsLevel(total, edges, level) && out == Distribute(edges, AtLevel(edges, level), level, |edges|).0
    else
      Sum(out) == NeededWithoutRoom(edges, |edges|)
  }

  /** The open edges are exactly those above the level of the final portion. */
  lemma {:induction false} FinalPortionIsLevel(total: int, edges: seq<Edge>, sizes: Sizes, level: Option<real>, portion: real)
    requires PositiveRatios(edges) && Descending(total, edges, sizes, level)
    requires IsPortion(total, edges, sizes, portion) && OpenCount(sizes, |sizes|) > 0
    requires forall i :: 0 <= i < |sizes| ==> !TooSmall(edges[i], sizes[i], portion)
    ensures AtLevel(edges, portion) == sizes && IsLevel(total, edges, portion)
    ensures Sum(Distribute(edges, sizes, portion, |edges|).0) == total
  {
    var n := |sizes|;
    hide Part, Scaled;
    forall k | 0 <= k < n ensures AtLevel(edges, portion)[k] == sizes[k] {
      if edges[k].Fixed().None? {
        if sizes[k].Some? {
          PortionBelowLevel(total, edges, sizes, level, portion);
          PartMonotone(edges[k], portion, level.value);
        } else {
          assert !TooSmall(edges[k], sizes[k], portion);
        }
      }
    }
    assert AtLevel(edges, portion) == sizes;
    DemandIsKnownPlusParts(edges, portion, n);
    DistributeSums(edges, sizes, portion, n);
    assert Scaled(portion, OpenShares(edges, sizes, n)) == (total - Known(sizes, n)) as real;
    assert Distribute(edges, sizes, portion, n).1 < 1.0;
    hide Distribute, TotalDemand, AtLevel, Known, OpenShares;
    WholeAndFraction(Sum(Distribute(edges, sizes, portion, n).0), Distribute(edges, sizes, portion, n).1, total);
  }

  lemma {:induction false} WholeAndFraction(whole: int, fraction: real, total: int)
    requires whole as real + fraction == total as real && 0.0 <= fraction < 1.0
    ensures whole == total
  {
  }

  lemma {:induction false} LevelOutcome(total: int, edges: seq<Edge>, level: real, out: seq<int>)
    requires PositiveRatios(edges) && IsLevel(total, edges, level)
    requires out == Distribute(edges, AtLevel(edges, level), level, |edges|).0 && Sum(out) == total
    ensures Outcome(total, edges, out)
  {
    hide Part, Distribute, TotalDemand;
    LevelMeansMoreThanNeeded(total, edges, level);
  }

  lemma {:induction false} HeldMinimumsArePositive(total: int, edges: seq<Edge>, sizes: Sizes, level: Option<real>)
    requires PositiveRatios(edges) && Descending(total, edges, sizes, level)
    ensures forall i :: 0 <= i < |edges| && edges[i].Fixed().None? && sizes[i].Some? ==> edges[i].minimum > 0
  {
    hide Part, Scaled;
    forall i | 0 <= i < |edges| && edges[i].Fixed().None? && sizes[i].Some? ensures edges[i].minimum > 0 {
      PartMonotone(edges[i], level.value, level.value);
    }
  }

  lemma {:induction false} RoomlessOutcome(total: int, edges: seq<Edge>, sizes: Sizes, level: Option<real>)
    requires PositiveRatios(edges) && Descending(total, edges, sizes, level)
    requires OpenCount(sizes, |sizes|) == 0 || total <= Known(sizes, |sizes|)
    ensures Outcome(total, edges, Roomless(edges, sizes, |sizes|))
  {
    hide Part, Scaled;
    HeldMinimumsArePositive(total, edges, sizes, level);
    RoomlessSums(edges, sizes, |sizes|);
    if OpenCount(sizes, |sizes|) == 0 && SomeFlexible(edges) {
      NothingOpenNoShares(edges, sizes, |sizes|);
      ScaledZero(if level.Some? then level.value else 0.0);
    }
  }

  lemma {:induction false} OutcomeFrom(total: int, edges: seq<Edge>, sizes: Sizes, level: Option<real>)
    requires PositiveRatios(edges) && Descending(total, edges, sizes, level)
    ensures Outcome(total, edges, Resolved(total, edges, sizes))
    decreases OpenCount(sizes, |sizes|)
  {
    hide Part, Scaled, Distribute, TotalDemand, AtLevel, Outcome, Roomless;
    var n := |sizes|;
    var remaining := total - Known(sizes, n);
    if OpenCount(sizes, n) == 0 || remaining <= 0 {
      RoomlessOutcome(total, edges, sizes, level);
    } else {
      SharesArePositive(edges, sizes, n);
      PortionSplits(remaining, OpenShares(edges, sizes, n));
      var portion := Portion(remaining, OpenShares(edges, sizes, n));
      hide Portion;
      var j := FirstTooSmall(edges, sizes, portion, 0);
      if j < n {
        HoldingAnEdge(total, edges, sizes, level, j, portion);
        GivingASize(edges, sizes, j, edges[j].minimum, n);
        OutcomeFrom(total, edges, sizes[j := Some(edges[j].minimum)], Some(portion));
      } else {
        FinalPortionIsLevel(total, edges, sizes, level, portion);
        LevelOutcome(total, edges, portion, Distribute(edges, sizes, portion, n).0);
      }
    }
  }

  lemma {:induction false} LevelMeansMoreThanNeeded(total: int, edges: seq<Edge>, level: real)
    requires PositiveRatios(edges) && IsLevel(total, edges, level)
    ensures SomeFlexible(edges) && total > Needed(edges, |edges|)
  {
    DemandExceedsNeed(edges, level, |edges|);
    var k :| 0 <= k < |edges| && AtLevel(edges, level)[k].None?;
    assert edges[k].Fixed().None?;
  }

  lemma {:induction false} NothingOpenNoShares(edges: seq<Edge>, sizes: Sizes, k: nat)
    requires k <= |sizes| == |edges| && forall i :: 0 <= i < k ==> sizes[i].Some?
    ensures OpenShares(edges, sizes, k) == 0
  {
    if k > 0 { NothingOpenNoShares(edges, sizes, k - 1); }
  }

  // ---------------------------------------------------------------- main results

  /** With positive ratios: if there is more length than the fixed sizes and positive minimums
      need, the sizes add up to it exactly; otherwise every edge falls back to its roomless size. */
  lemma {:induction false} ResolvedSum(total: int, edges: seq<Edge>)
    requires PositiveRatios(edges)
    ensures Sum(Resolved(total, edges, Given(edges)))
         == if SomeFlexible(edges) && total > Needed(edges, |edges|) then total else NeededWithoutRoom(edges, |edges|)
  {
    OutcomeFrom(total, edges, Given(edges), None);
  }

  ghost predicate FlexibleMinimumsAtLeast(edges: seq<Edge>, m: int) {
    forall k :: 0 <= k < |edges| && edges[k].Fixed().None? ==> edges[k].minimum >= m
  }

  ghost predicate SomeZeroMinimum(edges: seq<Edge>, n: nat)
    requires n <= |edges|
  {
    exists k :: 0 <= k < n && edges[k].Fixed().None? && edges[k].minimum == 0
  }

  lemma {:induction false} RoomlessExtra(edges: seq<Edge>, k: nat)
    requires k <= |edges| && FlexibleMinimumsAtLeast(edges, 0)
    ensures if SomeZeroMinimum(edges, k) then NeededWithoutRoom(edges, k) > Needed(edges, k)
            else NeededWithoutRoom(edges, k) == Needed(edges, k)
  {
    if k > 0 {
      RoomlessExtra(edges, k - 1);
      assert SomeZeroMinimum(edges, k) <==>
             SomeZeroMinimum(edges, k - 1) || (edges[k - 1].Fixed().None? && edges[k - 1].minimum == 0);
    }
  }

  /** With minimums of at least 1, as the layout code uses them, the sizes add up to the length,
      or to the fixed sizes and minimums when those need more. */
  lemma {:induction false} ResolvedSumIsLengthOrNeed(total: int, edges: seq<Edge>)
    requires PositiveRatios(edges) && SomeFlexible(edges) && FlexibleMinimumsAtLeast(edges, 1)
    ensures Sum(Resolved(total, edges, Given(edges))) == Max(total, Needed(edges, |edges|))
  {
    ResolvedSum(total, edges);
    RoomlessExtra(edges, |edges|);
  }

  /** With minimums of 0 allowed, that sum is met exactly when there is room or no minimum is 0:
      without room the code turns a minimum of 0 into 1. */
  lemma {:induction false} ZeroMinimumsExactly(total: int, edges: seq<Edge>)
    requires PositiveRatios(edges) && SomeFlexible(edges) && FlexibleMinimumsAtLeast(edges, 0)
    ensures Sum(Resolved(total, edges, Given(edges))) == Max(total, Needed(edges, |edges|))
       <==> total > Needed(edges, |edges|) || !SomeZeroMinimum(edges, |edges|)
  {
    ResolvedSum(total, edges);
    RoomlessExtra(edges, |edges|);
  }

  lemma {:induction false} DemandGrows(edges: seq<Edge>, low: real, high: real, k: nat)
    requires PositiveRatios(edges) && low < high && k <= |edges|
    ensures TotalDemand(edges, low, k) <= TotalDemand(edges, high, k)
    ensures (exists i :: 0 <= i < k && AtLevel(edges, high)[i].None?) ==> TotalDemand(edges, low, k) < TotalDemand(edges, high, k)
  {
    hide Part;
    if k > 0 {
      DemandGrows(edges, low, high, k - 1);
      PartMonotone(edges[k - 1], low, high);
    }
  }

  /** There is at most one water level. */
  lemma {:induction false} LevelIsUnique(total: int, edges: seq<Edge>, p: real, q: real)
    requires PositiveRatios(edges) && IsLevel(total, edges, p) && IsLevel(total, edges, q)
    ensures p == q
  {
    hide Part, TotalDemand, AtLevel;
    if p < q { DemandGrows(edges, p, q, |edges|); }
    if q < p { DemandGrows(edges, q, p, |edges|); }
  }

  /** The result, without the algorithm: whenever a level fills the length, every edge whose part
      at that level is not above its minimum gets its minimum, and the others get their parts
      rounded cumulatively - whatever order the code held edges in. */
  lemma {:induction false} ResolvesAtTheLevel(total: int, edges: seq<Edge>, level: real)
    requires PositiveRatios(edges) && IsLevel(total, edges, level)
    ensures Resolved(total, edges, Given(edges)) == Distribute(edges, AtLevel(edges, level), level, |edges|).0
  {
    hide Part, TotalDemand, AtLevel, Distribute, Resolve, Resolved;
    OutcomeFrom(total, edges, Given(edges), None);
    LevelMeansMoreThanNeeded(total, edges, level);
    var q: real :| IsLevel(total, edges, q)
                && Resolved(total, edges, Given(edges)) == Distribute(edges, AtLevel(edges, q), q, |edges|).0;
    LevelIsUnique(total, edges, level, q);
  }

  /** A level exists exactly when there is more length than needed. */
  lemma {:induction false} LevelExistsExactly(total: int, edges: seq<Edge>)
    requires PositiveRatios(edges)
    ensures (exists level: real :: IsLevel(total, edges, level)) <==> SomeFlexible(edges) && total > Needed(edges, |edges|)
  {
    hide Part, TotalDemand, AtLevel, Distribute, Resolve, Resolved;
    OutcomeFrom(total, edges, Given(edges), None);
    if level: real :| IsLevel(total, edges, level) {
      LevelMeansMoreThanNeeded(total, edges, level);
    }
  }

  /** Sizes handed to the open edges among the first k. */
  ghost function OpenSizes(sizes: Sizes, out: seq<int>, k: nat): int
    requires k <= |sizes| && k <= |out|
  {
    if k == 0 then 0 else OpenSizes(sizes, out, k - 1) + if sizes[k - 1].None? then out[k - 1] else 0
  }

  lemma {:induction false} OpenSizesPrefix(sizes: Sizes, out: seq<int>, more: seq<int>, k: nat)
    requires k <= |sizes| && k <= |out|
    ensures OpenSizes(sizes, out + more, k) == OpenSizes(sizes, out, k)
  {
    if k > 0 { OpenSizesPrefix(sizes, out, more, k - 1); }
  }

  /** Cumulative rounding: after every prefix of edges the sizes handed out are the exact parts of
      that prefix rounded down, and each single size is less than 1 away from its part. */
  lemma {:induction false} RoundingIsCumulative(edges: seq<Edge>, sizes: Sizes, portion: real, k: nat)
    requires OpenRatiosPositive(edges, sizes) && k <= |edges|
    ensures
      var (out, carried) := Distribute(edges, sizes, portion, k);
      && OpenSizes(sizes, out, k) as real + carried == Scaled(portion, OpenShares(edges, sizes, k))
      && OpenSizes(sizes, out, k) == Scaled(portion, OpenShares(edges, sizes, k)).Floor
    ensures forall i :: 0 <= i < k && sizes[i].None? ==>
              -1.0 < Distribute(edges, sizes, portion, k).0[i] as real - Part(edges[i], portion) < 1.0
  {
    hide Part, Scaled;
    ScaledZero(portion);
    if k > 0 {
      RoundingIsCumulative(edges, sizes, portion, k - 1);
      var (out, carried) := Distribute(edges, sizes, portion, k - 1);
      var out' := Distribute(edges, sizes, portion, k).0;
      assert out' == out + [out'[k - 1]];
      OpenSizesPrefix(sizes, out, [out'[k - 1]], k - 1);
      if sizes[k - 1].None? { AddShare(edges[k - 1], portion, OpenShares(edges, sizes, k - 1)); }
    }
  }

  // ---------------------------------------------------------------- ratios of 0

  /** Minimums of the open edges among the first k. */
  ghost function OpenMinimums(edges: seq<Edge>, sizes: Sizes, k: nat): int
    requires k <= |sizes| == |edges|
  {
    if k == 0 then 0 else OpenMinimums(edges, sizes, k - 1) + if sizes[k - 1].None? then edges[k - 1].minimum else 0
  }

  /** Fixed sizes, and the minimums of the flexible edges before z, over the first k edges. */
  ghost function NeededBefore(edges: seq<Edge>, z: nat, k: nat): int
    requires k <= |edges|
  {
    if k == 0 then 0
    else NeededBefore(edges, z, k - 1)
         + if edges[k - 1].Fixed().Some? then edges[k - 1].Fixed().value else if k - 1 < z then edges[k - 1].minimum else 0
  }

  /** Shares of the flexible edges from z on, over the first k edges. */
  ghost function SharesFrom(edges: seq<Edge>, z: nat, k: nat): int
    requires k <= |edges|
  {
    if k == 0 then 0
    else
      SharesFrom(edges, z, k - 1)
      + if edges[k - 1].Fixed().None? && z <= k - 1 then if edges[k - 1].ratio != 0 then edges[k - 1].ratio else 1 else 0
  }

  /** If everything before z were held at its minimum, the rest would still give edge e more than
      its minimum, although edge z takes a share of it. */
  ghost predicate Outlasts(total: int, edges: seq<Edge>, e: nat, z: nat)
    requires e < |edges|
  {
    Times(edges[e].minimum, SharesFrom(edges, z, |edges|))
      < Times(edges[e].ratio, total - NeededBefore(edges, z, |edges|))
  }

  ghost predicate ZeroRatioAt(edges: seq<Edge>, sizes: Sizes, z: nat)
    requires |sizes| == |edges|
  {
    z < |edges| && sizes[z].None? && edges[z].ratio == 0
  }

  /** Open edge e has a ratio, and outlasts every open edge of ratio 0 behind it. */
  ghost predicate Survives(total: int, edges: seq<Edge>, sizes: Sizes, e: nat)
    requires |sizes| == |edges|
  {
    && e < |edges| && sizes[e].None? && edges[e].ratio >= 1
    && forall z :: e < z && ZeroRatioAt(edges, sizes, z) ==> Outlasts(total, edges, e, z)
  }

  ghost predicate SomeSurvivor(total: int, edges: seq<Edge>, sizes: Sizes)
    requires |sizes| == |edges|
  {
    exists e :: Survives(total, edges, sizes, e)
  }

  /** Behind an open edge of ratio 0 no flexible edge has been held. */
  ghost predicate HeldInOrder(edges: seq<Edge>, sizes: Sizes)
    requires |sizes| == |edges|
  {
    forall z: nat, i :: ZeroRatioAt(edges, sizes, z) && z < i < |edges| && edges[i].Fixed().None? ==> sizes[i].None?
  }

  lemma {:induction false} SplitAt(edges: seq<Edge>, sizes: Sizes, z: nat, k: nat)
    requires Consistent(edges, sizes) && NoNegativeRatio(edges) && z <= |edges| && k <= |edges|
    requires forall i :: z <= i < |edges| && edges[i].Fixed().None? ==> sizes[i].None?
    ensures OpenShares(edges, sizes, k) == OpenShares(edges, sizes, if k < z then k else z) + SharesFrom(edges, z, k)
    ensures NeededBefore(edges, z, k) == Known(sizes, k) + OpenMinimums(edges, sizes, if k < z then k else z)
    ensures SharesFrom(edges, z, k) >= if z < k && edges[z].Fixed().None? then 1 else 0
  {
    if k > 0 { SplitAt(edges, sizes, z, k - 1); }
  }

  lemma {:induction false} TooSmallExactly(e: Edge, remaining: int, shares: int)
    requires shares > 0
    ensures Part(e, Portion(remaining, shares)) <= e.minimum as real <==> Times(e.ratio, remaining) <= Times(e.minimum, shares)
  {
    var portion, n := Portion(remaining, shares), shares as real;
    assert portion * n == remaining as real;
    assert Part(e, portion) * n == e.ratio as real * remaining as real;
    var gap := e.minimum as real - Part(e, portion);
    assert gap * n == e.minimum as real * n - Part(e, portion) * n;
  }

  /** Minimums and ratios compared at two rates: a rate of r/s, and a higher one of slack/from. */
  lemma {:induction false} HigherRate(minimum: int, ratio: int, from: int, slack: int, r: int, s: int)
    requires s > 0 && from > 0 && ratio >= 1
    ensures Times(minimum, s) < Times(ratio, r) && Times(from, r) < Times(slack, s) ==> Times(minimum, from) < Times(ratio, slack)
    ensures Times(ratio, r) <= Times(minimum, s) && Times(minimum, from) < Times(ratio, slack) ==> Times(from, r) < Times(slack, s)
  {
    hide Times;
    Scale(Times(minimum, s), Times(ratio, r), from);
    Scale(Times(ratio, r), Times(minimum, s), from);
    Scale(Times(from, r), Times(slack, s), ratio);
    Scale(Times(minimum, from), Times(ratio, slack), s);
    Regroup(minimum, s, from);
    Regroup(ratio, r, from);
    Regroup(from, r, ratio);
    Regroup(slack, s, ratio);
    Regroup(ratio, slack, s);
    Commute(ratio, from);
    Commute(ratio, slack);
  }

  /** At rate r/s, edge i does not get more than its minimum. */
  ghost predicate Low(edges: seq<Edge>, i: nat, r: int, s: int)
    requires i < |edges|
  {
    Times(edges[i].ratio, r) <= Times(edges[i].minimum, s)
  }

  lemma {:induction false} Weigh(edges: seq<Edge>, sizes: Sizes, r: int, s: int, k: nat)
    requires k <= |sizes| == |edges| && forall i :: 0 <= i < k && sizes[i].None? ==> edges[i].ratio >= 1
    ensures (forall i :: 0 <= i < k && sizes[i].None? ==> Low(edges, i, r, s)) ==>
              Times(OpenShares(edges, sizes, k), r) <= Times(OpenMinimums(edges, sizes, k), s)
    ensures (forall i :: 0 <= i < k && sizes[i].None? ==> !Low(edges, i, r, s)) ==>
              && Times(OpenMinimums(edges, sizes, k), s) <= Times(OpenShares(edges, sizes, k), r)
              && (OpenCount(sizes, k) > 0 ==> Times(OpenMinimums(edges, sizes, k), s) < Times(OpenShares(edges, sizes, k), r))
  {
    ZeroTimes(r);
    ZeroTimes(s);
    hide Times, Part;
    if k > 0 {
      Weigh(edges, sizes, r, s, k - 1);
      AddTimes(OpenShares(edges, sizes, k - 1), edges[k - 1].ratio, r);
      AddTimes(OpenMinimums(edges, sizes, k - 1), edges[k - 1].minimum, s);
    }
  }

  /** One round of the loop with room and something open: r is what remains, s the open shares. */
  ghost predicate Round(total: int, edges: seq<Edge>, sizes: Sizes, r: int, s: int) {
    && Consistent(edges, sizes) && NoNegativeRatio(edges) && FlexibleMinimumsAtLeast(edges, 0) && HeldInOrder(edges, sizes)
    && r == total - Known(sizes, |sizes|) && r > 0
    && s == OpenShares(edges, sizes, |sizes|) && s > 0
  }

  /** Whether an edge outlasts z is a comparison of its minimum with the rate behind z, and that
      rate is above r/s exactly when the open edges before z would get more than their minimums. */
  lemma {:induction false} RateBehind(total: int, edges: seq<Edge>, sizes: Sizes, r: int, s: int, z: nat)
    requires Round(total, edges, sizes, r, s) && ZeroRatioAt(edges, sizes, z)
    ensures SharesFrom(edges, z, |edges|) >= 1
    ensures Times(SharesFrom(edges, z, |edges|), r) < Times(total - NeededBefore(edges, z, |edges|), s)
       <==> Times(OpenMinimums(edges, sizes, z), s) < Times(OpenShares(edges, sizes, z), r)
  {
    hide Times, Part;
    SplitAt(edges, sizes, z, |edges|);
    AddTimes(s, OpenShares(edges, sizes, z), r);
    AddTimes(r, OpenMinimums(edges, sizes, z), s);
    Commute(r, s);
  }

  /** Holding the first open edge of ratio 0, when every edge before it gets more than its
      minimum: all of those outlast it. */
  lemma {:induction false} HoldingZeroRatio(total: int, edges: seq<Edge>, sizes: Sizes, r: int, s: int, z: nat)
    requires Round(total, edges, sizes, r, s) && ZeroRatioAt(edges, sizes, z)
    requires forall i :: 0 <= i < z && sizes[i].None? ==> edges[i].ratio >= 1 && !Low(edges, i, r, s)
    ensures SomeSurvivor(total, edges, sizes) <==> SomeSurvivor(total, edges, sizes[z := Some(edges[z].minimum)])
  {
    hide Times, Part;
    var held := sizes[z := Some(edges[z].minimum)];
    if e: nat :| Survives(total, edges, sizes, e) {
      assert Survives(total, edges, held, e);
    }
    if e: nat :| Survives(total, edges, held, e) {
      if e < z {
        Weigh(edges, sizes, r, s, z);
        RateBehind(total, edges, sizes, r, s, z);
        HigherRate(edges[e].minimum, edges[e].ratio, SharesFrom(edges, z, |edges|), total - NeededBefore(edges, z, |edges|), r, s);
        assert Outlasts(total, edges, e, z);
      }
      assert Survives(total, edges, sizes, e) by {
        forall y | e < y && ZeroRatioAt(edges, sizes, y) ensures Outlasts(total, edges, e, y) {
          assert y == z || ZeroRatioAt(edges, held, y);
        }
      }
    }
  }

  lemma {:induction false} FirstZeroRatio(edges: seq<Edge>, sizes: Sizes, k: nat) returns (z: nat)
    requires k <= |sizes| == |edges|
    ensures k <= z <= |edges| && (z < |edges| ==> ZeroRatioAt(edges, sizes, z))
    ensures forall y: nat :: k <= y < z ==> !ZeroRatioAt(edges, sizes, y)
    decreases |edges| - k
  {
    if k == |edges| || ZeroRatioAt(edges, sizes, k) { return k; }
    z := FirstZeroRatio(edges, sizes, k + 1);
  }

  /** When an edge that outlasts all open edges of ratio 0 is held, another one is left that gets
      more than its minimum, and that one outlasts them too. */
  lemma {:induction false} AnotherSurvivor(total: int, edges: seq<Edge>, sizes: Sizes, r: int, s: int, j: nat)
    requires Round(total, edges, sizes, r, s) && total > Needed(edges, |edges|)
    requires Survives(total, edges, sizes, j) && Low(edges, j, r, s)
    requires forall z: nat :: ZeroRatioAt(edges, sizes, z) ==> j < z
    ensures SomeSurvivor(total, edges, sizes[j := Some(edges[j].minimum)])
  {
    hide Times, Part;
    var n := |edges|;
    var held := sizes[j := Some(edges[j].minimum)];
    var z0 := FirstZeroRatio(edges, sizes, 0);
    assert forall i: nat :: i < z0 && sizes[i].None? ==> !ZeroRatioAt(edges, sizes, i) && edges[i].ratio >= 1;
    Weigh(edges, sizes, r, s, z0);
    if z0 < n {
      RateBehind(total, edges, sizes, r, s, z0);
      HigherRate(edges[j].minimum, edges[j].ratio, SharesFrom(edges, z0, n), total - NeededBefore(edges, z0, n), r, s);
    } else {
      SplitAt(edges, sizes, n, n);
      NeededIsAllMinimums(edges, n);
      Scale(OpenMinimums(edges, sizes, n), r, s);
      Commute(s, r);
    }
    var i: nat :| i < z0 && sizes[i].None? && !Low(edges, i, r, s);
    forall z | i < z && ZeroRatioAt(edges, held, z) ensures Outlasts(total, edges, i, z) {
      assert ZeroRatioAt(edges, sizes, z);
      RateBehind(total, edges, sizes, r, s, z);
      assert Outlasts(total, edges, j, z);
      HigherRate(edges[j].minimum, edges[j].ratio, SharesFrom(edges, z, n), total - NeededBefore(edges, z, n), r, s);
      HigherRate(edges[i].minimum, edges[i].ratio, SharesFrom(edges, z, n), total - NeededBefore(edges, z, n), r, s);
    }
    assert Survives(total, edges, held, i);
  }

  lemma {:induction false} NeededIsAllMinimums(edges: seq<Edge>, k: nat)
    requires FlexibleMinimumsAtLeast(edges, 0) && k <= |edges|
    ensures NeededBefore(edges, |edges|, k) == Needed(edges, k)
  {
    if k > 0 { NeededIsAllMinimums(edges, k - 1); }
  }

  /** Holding the first edge that gets no more than its minimum keeps a survivor, if there is one,
      and makes none. */
  lemma {:induction false} HoldingKeepsSurvivors(total: int, edges: seq<Edge>, sizes: Sizes, r: int, s: int, j: nat)
    requires Round(total, edges, sizes, r, s) && total > Needed(edges, |edges|)
    requires j < |edges| && sizes[j].None? && Low(edges, j, r, s)
    requires forall i :: 0 <= i < j && sizes[i].None? ==> edges[i].ratio >= 1 && !Low(edges, i, r, s)
    ensures SomeSurvivor(total, edges, sizes) <==> SomeSurvivor(total, edges, sizes[j := Some(edges[j].minimum)])
    ensures HeldInOrder(edges, sizes[j := Some(edges[j].minimum)])
  {
    hide Times, Part;
    var held := sizes[j := Some(edges[j].minimum)];
    assert forall z: nat :: ZeroRatioAt(edges, held, z) ==> ZeroRatioAt(edges, sizes, z) && j < z;
    if edges[j].ratio == 0 {
      HoldingZeroRatio(total, edges, sizes, r, s, j);
    } else {
      assert forall z: nat :: ZeroRatioAt(edges, sizes, z) ==> ZeroRatioAt(edges, held, z) && j < z;
      if e: nat :| Survives(total, edges, held, e) {
        assert Survives(total, edges, sizes, e);
      }
      if e: nat :| Survives(total, edges, sizes, e) {
        if e == j {
          AnotherSurvivor(total, edges, sizes, r, s, j);
        } else {
          assert Survives(total, edges, held, e);
        }
      }
    }
  }

  /** When no edge gets too little, nothing of ratio 0 is open, and there is more than is needed. */
  lemma {:induction false} AllGetEnough(total: int, edges: seq<Edge>, sizes: Sizes, r: int, s: int)
    requires Round(total, edges, sizes, r, s) && OpenCount(sizes, |sizes|) > 0
    requires forall i :: 0 <= i < |edges| && sizes[i].None? ==> !Low(edges, i, r, s)
    ensures OpenRatiosPositive(edges, sizes) && total > Needed(edges, |edges|)
    ensures SomeSurvivor(total, edges, sizes)
  {
    hide Part;
    var n := |edges|;
    forall i | 0 <= i < n && sizes[i].None? ensures edges[i].ratio >= 1 {
      if edges[i].ratio == 0 { ZeroIsLow(edges, i, r, s); }
    }
    hide Times;
    Weigh(edges, sizes, r, s, n);
    SplitAt(edges, sizes, n, n);
    NeededIsAllMinimums(edges, n);
    Scale(OpenMinimums(edges, sizes, n), r, s);
    Commute(s, r);
    var e: nat :| e < n && sizes[e].None?;
    assert Survives(total, edges, sizes, e);
  }

  lemma {:induction false} ZeroIsLow(edges: seq<Edge>, i: nat, r: int, s: int)
    requires i < |edges| && edges[i].ratio == 0 && edges[i].minimum >= 0 && s > 0
    ensures Low(edges, i, r, s)
  {
  }

  lemma {:induction false} FirstTooSmallIsLow(total: int, edges: seq<Edge>, sizes: Sizes, r: int, s: int, j: nat)
    requires Round(total, edges, sizes, r, s) && j == FirstTooSmall(edges, sizes, Portion(r, s), 0)
    ensures j < |edges| ==> sizes[j].None? && Low(edges, j, r, s)
    ensures forall i :: 0 <= i < j && sizes[i].None? ==> !Low(edges, i, r, s) && edges[i].ratio >= 1
  {
    hide Times, Part, Portion;
    if j < |edges| { TooSmallExactly(edges[j], r, s); }
    forall i | 0 <= i < j && sizes[i].None? ensures !Low(edges, i, r, s) && edges[i].ratio >= 1 {
      assert !TooSmall(edges[i], sizes[i], Portion(r, s));
      TooSmallExactly(edges[i], r, s);
      if edges[i].ratio == 0 { ZeroIsLow(edges, i, r, s); }
    }
  }

  /** Everything held: the sizes are what is needed. */
  lemma {:induction false} AllHeldSum(edges: seq<Edge>, sizes: Sizes, k: nat)
    requires Consistent(edges, sizes) && FlexibleMinimumsAtLeast(edges, 0) && k <= |edges|
    requires forall i :: 0 <= i < |edges| ==> sizes[i].Some?
    ensures Sum(Roomless(edges, sizes, k)) == Needed(edges, k)
  {
    if k > 0 {
      AllHeldSum(edges, sizes, k - 1);
      var out := Roomless(edges, sizes, k);
      assert out[..|out| - 1] == Roomless(edges, sizes, k - 1);
    }
  }

  lemma {:induction false} KnownAtMostNeeded(edges: seq<Edge>, sizes: Sizes, k: nat)
    requires Consistent(edges, sizes) && FlexibleMinimumsAtLeast(edges, 0) && k <= |edges|
    ensures Known(sizes, k) <= Needed(edges, k)
  {
    if k > 0 { KnownAtMostNeeded(edges, sizes, k - 1); }
  }

  lemma {:induction false} DistributedSum(total: int, edges: seq<Edge>, sizes: Sizes, r: int, s: int)
    requires OpenRatiosPositive(edges, sizes) && r == total - Known(sizes, |sizes|) && r > 0
    requires s == OpenShares(edges, sizes, |sizes|) && s > 0
    ensures Sum(Distribute(edges, sizes, Portion(r, s), |edges|).0) == total
  {
    DistributeSums(edges, sizes, Portion(r, s), |edges|);
    PortionSplits(r, s);
    hide Distribute, Portion, Scaled;
    WholeAndFraction(Sum(Distribute(edges, sizes, Portion(r, s), |edges|).0), Distribute(edges, sizes, Portion(r, s), |edges|).1, total);
  }

  /** With more room than is needed, the length is filled exactly when some edge survives. */
  lemma {:induction false} FilledFrom(total: int, edges: seq<Edge>, sizes: Sizes)
    requires Consistent(edges, sizes) && NoNegativeRatio(edges) && FlexibleMinimumsAtLeast(edges, 0) && HeldInOrder(edges, sizes)
    requires total > Needed(edges, |edges|)
    ensures Sum(Resolved(total, edges, sizes)) == if SomeSurvivor(total, edges, sizes) then total else Needed(edges, |edges|)
    decreases OpenCount(sizes, |sizes|)
  {
    hide Part, Times, Distribute, Roomless, Portion;
    var n := |edges|;
    if OpenCount(sizes, n) == 0 {
      AllHeldSum(edges, sizes, n);
    } else {
      KnownAtMostNeeded(edges, sizes, n);
      SharesArePositive(edges, sizes, n);
      var r, s := total - Known(sizes, n), OpenShares(edges, sizes, n);
      assert Round(total, edges, sizes, r, s);
      var j := FirstTooSmall(edges, sizes, Portion(r, s), 0);
      FirstTooSmallIsLow(total, edges, sizes, r, s, j);
      if j < n {
        HoldingKeepsSurvivors(total, edges, sizes, r, s, j);
        GivingASize(edges, sizes, j, edges[j].minimum, n);
        FilledFrom(total, edges, sizes[j := Some(edges[j].minimum)]);
      } else {
        AllGetEnough(total, edges, sizes, r, s);
        DistributedSum(total, edges, sizes, r, s);
      }
    }
  }

  /** Without more room than is needed, every edge is held or gets its roomless size. */
  lemma {:induction false} NoRoomFrom(total: int, edges: seq<Edge>, sizes: Sizes)
    requires Consistent(edges, sizes) && NoNegativeRatio(edges) && FlexibleMinimumsAtLeast(edges, 1) && HeldInOrder(edges, sizes)
    requires total <= Needed(edges, |edges|)
    ensures Sum(Resolved(total, edges, sizes)) == Needed(edges, |edges|)
    decreases OpenCount(sizes, |sizes|)
  {
    hide Part, Times, Distribute, Roomless, Portion;
    var n := |edges|;
    var r, s := total - Known(sizes, n), OpenShares(edges, sizes, n);
    if OpenCount(sizes, n) == 0 || r <= 0 {
      RoomlessSums(edges, sizes, n);
      RoomlessExtra(edges, n);
    } else {
      SharesArePositive(edges, sizes, n);
      assert Round(total, edges, sizes, r, s);
      var j := FirstTooSmall(edges, sizes, Portion(r, s), 0);
      FirstTooSmallIsLow(total, edges, sizes, r, s, j);
      if j < n {
        GivingASize(edges, sizes, j, edges[j].minimum, n);
        FirstIsInOrder(edges, sizes, j);
        NoRoomFrom(total, edges, sizes[j := Some(edges[j].minimum)]);
      } else {
        AllGetEnough(total, edges, sizes, r, s);
      }
    }
  }

  lemma {:induction false} FirstIsInOrder(edges: seq<Edge>, sizes: Sizes, j: nat)
    requires |sizes| == |edges| && HeldInOrder(edges, sizes) && j < |edges| && sizes[j].None?
    requires forall i :: 0 <= i < j && sizes[i].None? ==> edges[i].ratio >= 1
    ensures HeldInOrder(edges, sizes[j := Some(edges[j].minimum)])
  {
    var held := sizes[j := Some(edges[j].minimum)];
    assert forall z: nat :: ZeroRatioAt(edges, held, z) ==> ZeroRatioAt(edges, sizes, z) && j < z;
  }

  /** The sum for all ratios that are not negative: the length, if there is more of it than is
      needed and some flexible edge with a ratio outlasts every edge of ratio 0 behind it; what is
      needed, in every other case.  Minimums of 0 matter only when there is no room. */
  lemma {:induction false} SumExactly(total: int, edges: seq<Edge>)
    requires NoNegativeRatio(edges) && FlexibleMinimumsAtLeast(edges, 0)
    requires total > Needed(edges, |edges|) || FlexibleMinimumsAtLeast(edges, 1)
    ensures Sum(Resolved(total, edges, Given(edges)))
         == if total > Needed(edges, |edges|) && SomeSurvivor(total, edges, Given(edges)) then total else Needed(edges, |edges|)
  {
    if total > Needed(edges, |edges|) {
      FilledFrom(total, edges, Given(edges));
    } else {
      NoRoomFrom(total, edges, Given(edges));
    }
  }

  ghost predicate Flexible(edges: seq<Edge>, k: int) { 0 <= k < |edges| && edges[k].Fixed().None? }

  /** An edge with a ratio behind all edges of ratio 0 fills the length whenever there is room, and
      without any flexible edge with a ratio all room is lost. */
  lemma {:induction false} ZeroRatioCases(total: int, edges: seq<Edge>)
    requires NoNegativeRatio(edges) && FlexibleMinimumsAtLeast(edges, 0) && total > Needed(edges, |edges|)
    ensures (exists e :: Flexible(edges, e) && edges[e].ratio >= 1 && forall z :: Flexible(edges, z) && edges[z].ratio == 0 ==> z < e)
            ==> Sum(Resolved(total, edges, Given(edges))) == total
    ensures (forall e :: Flexible(edges, e) ==> edges[e].ratio == 0)
            ==> Sum(Resolved(total, edges, Given(edges))) == Needed(edges, |edges|)
  {
    hide Times, Needed, NeededBefore, SharesFrom;
    SumExactly(total, edges);
    var sizes := Given(edges);
    if e :| Flexible(edges, e) && edges[e].ratio >= 1 && forall z :: Flexible(edges, z) && edges[z].ratio == 0 ==> z < e {
      assert forall z: nat :: ZeroRatioAt(edges, sizes, z) ==> Flexible(edges, z);
      assert Survives(total, edges, sizes, e);
    }
    if forall e :: Flexible(edges, e) ==> edges[e].ratio == 0 {
      forall e: nat ensures !Survives(total, edges, sizes, e) {
        if e < |edges| && sizes[e].None? { assert Flexible(edges, e); }
      }
    }
  }

  /** A ratio of 0 breaks the sum: it counts as 1 when shares are added up, but as 0 when the part
      is taken, so its edge is held at its minimum and the rest of the length is lost. */
  lemma {:induction false} ZeroRatioLosesLength()
    ensures
      var edges := [Edge(None, 0, 1)];
      NoNegativeRatio(edges) && Resolve(10, edges, Given(edges)) == Some([1]) && Needed(edges, 1) == 1
  {
    var edges := [Edge(None, 0, 1)];
    var open: Sizes := [None];
    assert Given(edges) == open;
    assert edges[0].Share() == 1;
    assert Known(open, 0) == 0 && OpenShares(edges, open, 0) == 0 && OpenCount(open, 0) == 0;
    assert Known(open, 1) == 0 && OpenShares(edges, open, 1) == 1 && OpenCount(open, 1) == 1;
    assert Portion(10, 1) == 10.0;
    assert TooSmall(edges[0], open[0], 10.0);
    assert FirstTooSmall(edges, open, 10.0, 0) == 0;
    var held: Sizes := [Some(1)];
    assert open[0 := Some(1)] == held;
    assert OpenCount(held, 1) == 0;
    assert Roomless(edges, held, 1) == [1];
    assert Resolve(10, edges, held) == Some([1]);
    assert Needed(edges, 0) == 0;
  }
}
