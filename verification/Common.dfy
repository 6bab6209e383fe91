/** Small definitions that the other modules share. */
module Common {

  datatype Option<+T> = None | Some(value: T)

  function Max(x: int, y: int): (m: int)
    ensures m == x || m == y
  {
    if x < y then y else x
  }

  function MaxReal(x: real, y: real): real { if x < y then y else x }

  function MinReal(x: real, y: real): real { if x < y then x else y }

  ghost predicate AllTrue(s: seq<bool>) { forall i :: 0 <= i < |s| ==> s[i] }

  /** No element occurs twice. */
  ghost predicate Distinct<T>(s: seq<T>) {
    forall i, k :: 0 <= i < k < |s| ==> s[i] != s[k]
  }

  lemma {:induction false} DistinctAppend<T>(s: seq<T>, x: T)
    ensures Distinct(s + [x]) <==> Distinct(s) && x !in s
  {
    var all := s + [x];
    assert all[|s|] == x && forall k :: 0 <= k < |s| ==> all[k] == s[k];
  }

  lemma {:induction false} NonNegativeProduct(x: real, y: real)
    requires x >= 0.0 && y >= 0.0
    ensures x * y >= 0.0
  {
  }

  // ---------------------------------------------------------------- products of integers

  /** A product that proofs can keep hidden and rewrite by the lemmas below. */
  function Times(x: int, y: int): int { x * y }

  lemma {:induction false} ZeroTimes(x: int)
    ensures Times(0, x) == 0 && Times(1, x) == x
  {
  }

  lemma {:induction false} AddTimes(x: int, y: int, factor: int)
    ensures Times(x + y, factor) == Times(x, factor) + Times(y, factor)
    ensures Times(x - y, factor) == Times(x, factor) - Times(y, factor)
  {
  }

  lemma {:induction false} Commute(x: int, y: int)
    ensures Times(x, y) == Times(y, x)
  {
  }

  lemma {:induction false} Regroup(x: int, y: int, z: int)
    ensures Times(Times(x, y), z) == Times(Times(x, z), y)
  {
  }

  lemma {:induction false} Scale(x: int, y: int, factor: int)
    requires factor >= 0
    ensures x <= y ==> Times(x, factor) <= Times(y, factor)
    ensures factor > 0 ==> (x < y <==> Times(x, factor) < Times(y, factor))
  {
  }
}
