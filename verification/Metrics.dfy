/** The metric formulas of arena/scoring/metrics.py over exact reals, before rounding. */
module Metrics {
  import opened Common

  function Fraction(part: nat, whole: nat): real
    requires whole >= 1
  {
    part as real / whole as real
  }

  /** Share of true positives among all positives; zero when nothing was reported. */
  function Precision(truePositives: nat, falsePositives: nat): real {
    if truePositives + falsePositives == 0 then 0.0 else Fraction(truePositives, truePositives + falsePositives)
  }

  function Recall(truePositives: nat, falseNegatives: nat): real {
    if truePositives + falseNegatives == 0 then 0.0 else Fraction(truePositives, truePositives + falseNegatives)
  }

  function FNumerator(precision: real, recall: real, b2: real): real { (1.0 + b2) * precision * recall }

  function FDenominator(precision: real, recall: real, b2: real): real { b2 * precision + recall }

  lemma {:induction false} QuotientBounds(x: real, d: real, low: real, high: real)
    requires d > 0.0 && low * d <= x <= high * d
    ensures low <= x / d <= high
  {
    var q := x / d;
    assert q * d == x;
    assert (q - low) * d >= 0.0 && (high - q) * d >= 0.0;
  }

  /** When p <= r, both orders of the weighted harmonic mean lie between p and r. */
  lemma {:induction false} WeightedMeanBounds(p: real, r: real, b2: real)
    requires 0.0 <= p <= r && b2 > 0.0 && r > 0.0
    ensures FDenominator(p, r, b2) > 0.0 && FDenominator(r, p, b2) > 0.0
    ensures p * FDenominator(p, r, b2) <= FNumerator(p, r, b2) <= r * FDenominator(p, r, b2)
    ensures p * FDenominator(r, p, b2) <= FNumerator(r, p, b2) <= r * FDenominator(r, p, b2)
  {
    NonNegativeProduct(b2, p);
    var gap := r - p;
    NonNegativeProduct(p, gap);
    NonNegativeProduct(r, gap);
    NonNegativeProduct(b2, p * gap);
    NonNegativeProduct(b2, r * gap);
  }

  function Squared(x: real): real { x * x }

  function Product(x: real, y: real): real { x * y }

  lemma {:induction false} ProductIsPositive(x: real, y: real)
    requires x > 0.0 && y > 0.0
    ensures Product(x, y) > 0.0
  {
  }

  lemma {:induction false} SquaredIsPositive(x: real)
    requires x > 0.0
    ensures Squared(x) > 0.0
  {
    ProductIsPositive(x, x);
    assert Squared(x) == Product(x, x);
    hide *;
  }

  function FBeta(precision: real, recall: real, beta: real): real
    requires (precision == 0.0 && recall == 0.0) || FDenominator(precision, recall, Squared(beta)) != 0.0
  {
    if precision == 0.0 && recall == 0.0 then 0.0
    else FNumerator(precision, recall, Squared(beta)) / FDenominator(precision, recall, Squared(beta))
  }

  /** F-beta never divides by zero and lies between precision and recall. */
  lemma {:induction false} FBetaBetween(precision: real, recall: real, beta: real)
    requires 0.0 <= precision <= 1.0 && 0.0 <= recall <= 1.0 && beta > 0.0
    ensures (precision == 0.0 && recall == 0.0) || FDenominator(precision, recall, Squared(beta)) != 0.0
    ensures
      var f := FBeta(precision, recall, beta);
      if precision <= recall then precision <= f <= recall else recall <= f <= precision
  {
    hide Squared, FNumerator, FDenominator, Product;
    SquaredIsPositive(beta);
    var b2 := Squared(beta);
    if precision == 0.0 && recall == 0.0 {
    } else if precision <= recall {
      WeightedMeanBounds(precision, recall, b2);
      QuotientBounds(FNumerator(precision, recall, b2), FDenominator(precision, recall, b2), precision, recall);
    } else {
      WeightedMeanBounds(recall, precision, b2);
      QuotientBounds(FNumerator(precision, recall, b2), FDenominator(precision, recall, b2), recall, precision);
    }
  }

  lemma {:induction false} CancelFactor(x: real, y: real, factor: real)
    requires factor > 0.0 && x * factor == y * factor
    ensures x == y
  {
    if x < y { ProductIsPositive(y - x, factor); } else if y < x { ProductIsPositive(x - y, factor); }
  }

  lemma {:induction false} ClearDenominators(f: real, p: real, r: real, b2: real, t: real, a: real, b: real)
    requires t > 0.0 && p * a == t && r * b == t && f * (b2 * p + r) == (1.0 + b2) * p * r
    ensures f * (b2 * b + a) == (1.0 + b2) * t
  {
    assert (b2 * p + r) * (a * b) == b2 * (p * a) * b + (r * b) * a == (b2 * b + a) * t;
    assert ((1.0 + b2) * p * r) * (a * b) == (1.0 + b2) * (p * a) * (r * b) == (1.0 + b2) * t * t;
    var x, y := f * (b2 * b + a), (1.0 + b2) * t;
    assert x * t == f * ((b2 * b + a) * t) == f * ((b2 * p + r) * (a * b)) == (f * (b2 * p + r)) * (a * b);
    CancelFactor(x, y, t);
  }

  /** F-beta in terms of what was counted: against 1 + beta^2 for each true positive, a missed bug
      weighs beta^2 and a false alarm 1. */
  lemma {:induction false} FBetaOfCounts(tp: nat, fp: nat, fn: nat, beta: real)
    requires beta > 0.0
    ensures
      var p, r := Precision(tp, fp), Recall(tp, fn);
      && ((p == 0.0 && r == 0.0) || FDenominator(p, r, Squared(beta)) != 0.0)
      && FBeta(p, r, beta) * ((1.0 + beta * beta) * tp as real + beta * beta * fn as real + fp as real)
         == (1.0 + beta * beta) * tp as real
  {
    var p, r, b2 := Precision(tp, fp), Recall(tp, fn), beta * beta;
    var t, a, b := tp as real, tp as real + fp as real, tp as real + fn as real;
    SquaredIsPositive(beta);
    if tp > 0 {
      assert p * a == t && r * b == t;
      QuotientIsPositive(t, a);
      QuotientIsPositive(t, b);
      ProductIsPositive(b2, p);
      var d := FDenominator(p, r, b2);
      assert d > 0.0;
      assert FBeta(p, r, beta) * d == FNumerator(p, r, b2);
      ClearDenominators(FBeta(p, r, beta), p, r, b2, t, a, b);
      assert b2 * b + a == (1.0 + b2) * t + b2 * fn as real + fp as real;
    }
  }

  lemma {:induction false} QuotientIsPositive(x: real, d: real)
    requires x > 0.0 && d > 0.0
    ensures x / d > 0.0
  {
    var q := x / d;
    assert q * d == x;
    if q <= 0.0 { NonNegativeProduct(-q, d); }
  }

  // ---------------------------------------------------------------- Wilson interval

  /** What stands under the square root. */
  function Radicand(p: real, n: real, z: real): real
    requires n > 0.0
  {
    p * (1.0 - p) / n + z * z / (4.0 * n * n)
  }

  function Center(p: real, n: real, z: real): real
    requires n > 0.0
  {
    (p + z * z / (2.0 * n)) / (1.0 + z * z / n)
  }

  function Margin(n: real, z: real, root: real): real
    requires n > 0.0
  {
    z * root / (1.0 + z * z / n)
  }

  /** The interval for a given value of the square root; None when there is nothing to estimate. */
  function WilsonInterval(successes: int, total: int, z: real, root: real): Interval {
    if total <= 0 then NoInterval
    else
      var p, n := successes as real / total as real, total as real;
      var low, high := Center(p, n, z) - Margin(n, z, root), Center(p, n, z) + Margin(n, z, root);
      Between(if low < 0.0 then 0.0 else low, if high > 1.0 then 1.0 else high)
  }

  datatype Interval = NoInterval | Between(low: real, high: real)

  lemma {:induction false} SquareGrows(x: real, y: real)
    requires 0.0 <= y < x
    ensures y * y < x * x
  {
    assert x * (x - y) > 0.0;
    assert y * (x - y) >= 0.0;
  }

  lemma {:induction false} SquareOrder(x: real, y: real)
    requires y >= 0.0 && x * x <= y * y
    ensures x <= y
  {
    if x > y { SquareGrows(x, y); }
  }

  /** With a = z*z/n and r = z*root: the four inequalities behind the interval. */
  lemma {:induction false} WilsonInequalities(p: real, a: real, r: real)
    requires 0.0 <= p <= 1.0 && a >= 0.0 && r >= 0.0
    requires r * r == a * (p * (1.0 - p)) + a * a / 4.0
    ensures r <= p + a / 2.0
    ensures r <= (1.0 - p) + a / 2.0
    ensures a * (0.5 - p) <= r
    ensures a * (p - 0.5) <= r
  {
    var q := 1.0 - p;
    NonNegativeProduct(p, q);
    NonNegativeProduct(p, p);
    NonNegativeProduct(q, q);
    assert (p + a / 2.0) * (p + a / 2.0) - r * r == p * p + a * (p * p) by {
      assert a * (p * q) == a * p - a * (p * p);
    }
    assert (q + a / 2.0) * (q + a / 2.0) - r * r == q * q + a * (q * q) by {
      assert a * (p * q) == a * q - a * (q * q);
    }
    NonNegativeProduct(a, p * p);
    NonNegativeProduct(a, q * q);
    SquareOrder(r, p + a / 2.0);
    SquareOrder(r, q + a / 2.0);
    var d := a * (0.5 - p);
    assert d * d == a * a / 4.0 - (a * a) * (p * q);
    NonNegativeProduct(a, a);
    NonNegativeProduct(a * a, p * q);
    NonNegativeProduct(a, p * q);
    SquareOrder(d, r);
    SquareOrder(-d, r);
  }

  lemma {:induction false} ScaledRadicand(p: real, n: real, z: real, root: real)
    requires n > 0.0 && root * root == Radicand(p, n, z)
    ensures
      var a, r := z * z / n, z * root;
      r * r == a * (p * (1.0 - p)) + a * a / 4.0
  {
    var a := z * z / n;
    var inv := 1.0 / n;
    var w := p * (1.0 - p);
    assert n * inv == 1.0;
    assert w / n == w * inv;
    assert a == z * z * inv;
    assert z * z / (4.0 * n * n) == z * z * inv * inv / 4.0 by {
      var lhs := z * z / (4.0 * n * n);
      assert lhs * (4.0 * n * n) == z * z;
      assert (z * z * inv * inv / 4.0) * (4.0 * n * n) == z * z * ((inv * n) * (inv * n));
    }
    assert (z * root) * (z * root) == (z * z) * (root * root);
    assert (z * z) * (w * inv) == a * w;
    assert (z * z) * (z * z * inv * inv / 4.0) == a * a / 4.0;
  }

  /** The clamps never act: the exact bounds already lie in [0, 1], and they enclose the proportion. */
  lemma {:induction false} WilsonEncloses(successes: nat, total: nat, z: real, root: real)
    requires successes <= total && total >= 1 && z >= 0.0 && root >= 0.0
    requires root * root == Radicand(successes as real / total as real, total as real, z)
    ensures
      var p, n := successes as real / total as real, total as real;
      var low, high := Center(p, n, z) - Margin(n, z, root), Center(p, n, z) + Margin(n, z, root);
      && 0.0 <= low <= p <= high <= 1.0
      && WilsonInterval(successes, total, z, root) == Between(low, high)
  {
    var n := total as real;
    var p := successes as real / n;
    QuotientBounds(successes as real, n, 0.0, 1.0);
    var a, r := z * z / n, z * root;
    QuotientNonNegative(z * z, n);
    NonNegativeProduct(z, root);
    ScaledRadicand(p, n, z, root);
    WilsonInequalities(p, a, r);
    HalfQuotient(z * z, n);
    EnclosingQuotients(p, a, r);
  }

  /** The score test at x: the squared distance from p is at most z * z times the variance x (1 - x) / n. */
  ghost predicate NotRejected(p: real, n: real, z: real, x: real) {
    n * ((x - p) * (x - p)) <= z * z * (x * (1.0 - x))
  }

  /** The interval consists of exactly the proportions that the score test does not reject. */
  lemma {:induction false} WilsonIsScoreTest(successes: nat, total: nat, z: real, root: real, x: real)
    requires successes <= total && total >= 1 && z >= 0.0 && root >= 0.0
    requires root * root == Radicand(successes as real / total as real, total as real, z)
    ensures
      var interval := WilsonInterval(successes, total, z, root);
      && interval.Between?
      && (interval.low <= x <= interval.high <==> NotRejected(successes as real / total as real, total as real, z, x))
  {
    var n := total as real;
    var p := successes as real / n;
    var a, r := z * z / n, z * root;
    WilsonBounds(successes, total, z, root, p, a, r);
    hide *;
    InsideExactly(p, a, r, x);
    ScoreTest(p, n, z, x);
  }

  lemma {:induction false} WilsonBounds(successes: nat, total: nat, z: real, root: real, p: real, a: real, r: real)
    requires successes <= total && total >= 1 && z >= 0.0 && root >= 0.0
    requires p == successes as real / total as real && a == z * z / total as real && r == z * root
    requires root * root == Radicand(p, total as real, z)
    ensures a >= 0.0 && r >= 0.0 && r * r == a * (p * (1.0 - p)) + a * a / 4.0
    ensures
      var m, d := p + a / 2.0, 1.0 + a;
      WilsonInterval(successes, total, z, root) == Between(m / d - r / d, m / d + r / d)
  {
    WilsonEncloses(successes, total, z, root);
    QuotientNonNegative(z * z, total as real);
    NonNegativeProduct(z, root);
    ScaledRadicand(p, total as real, z, root);
    BoundsAre(p, total as real, z, root);
    hide *;
  }

  lemma {:induction false} BoundsAre(p: real, n: real, z: real, root: real)
    requires n > 0.0
    ensures Center(p, n, z) == (p + (z * z / n) / 2.0) / (1.0 + z * z / n) && Margin(n, z, root) == z * root / (1.0 + z * z / n)
  {
    HalfQuotient(z * z, n);
  }

  lemma {:induction false} ScoreTest(p: real, n: real, z: real, x: real)
    requires n > 0.0
    ensures (x - p) * (x - p) <= (z * z / n) * (x * (1.0 - x)) <==> NotRejected(p, n, z, x)
  {
    var a, s, v := z * z / n, (x - p) * (x - p), x * (1.0 - x);
    Multiply(z * z, a, n, v);
    ScaledOrder(s, a * v, n);
  }

  lemma {:induction false} Multiply(z2: real, a: real, n: real, v: real)
    requires n > 0.0 && a == z2 / n
    ensures z2 * v == n * (a * v)
  {
    assert a * n == z2;
  }

  lemma {:induction false} ScaledOrder(x: real, y: real, factor: real)
    requires factor > 0.0
    ensures x <= y <==> factor * x <= factor * y
  {
    if x <= y { NonNegativeProduct(y - x, factor); } else { ProductIsPositive(x - y, factor); }
  }

  lemma {:induction false} InsideExactly(p: real, a: real, r: real, x: real)
    requires a >= 0.0 && r >= 0.0 && r * r == a * (p * (1.0 - p)) + a * a / 4.0
    ensures
      var m, d := p + a / 2.0, 1.0 + a;
      m / d - r / d <= x <= m / d + r / d <==> (x - p) * (x - p) <= a * (x * (1.0 - x))
  {
    var m, d := p + a / 2.0, 1.0 + a;
    var y := x * d - m;
    var gap := (x - p) * (x - p) - a * (x * (1.0 - x));
    BetweenQuotients(m, r, d, x);
    SquaresCompare(y, r);
    Gap(p, a, r, x);
    ScaledOrder(gap, 0.0, d);
  }

  lemma {:induction false} BetweenQuotients(m: real, r: real, d: real, x: real)
    requires d > 0.0
    ensures m / d - r / d <= x <= m / d + r / d <==> -r <= x * d - m <= r
  {
    var u, v := m / d, r / d;
    assert u * d == m && v * d == r;
    ScaledOrder(u - v, x, d);
    ScaledOrder(x, u + v, d);
    assert d * (u - v) == m - r && d * (u + v) == m + r;
  }

  lemma {:induction false} Gap(p: real, a: real, r: real, x: real)
    requires r * r == a * (p * (1.0 - p)) + a * a / 4.0
    ensures
      var m, d := p + a / 2.0, 1.0 + a;
      (x * d - m) * (x * d - m) - r * r == d * ((x - p) * (x - p) - a * (x * (1.0 - x)))
  {
    var m, d := p + a / 2.0, 1.0 + a;
    assert (x - p) * (x - p) - a * (x * (1.0 - x)) == d * (x * x) - 2.0 * m * x + p * p;
    assert m * m - r * r == p * p * d;
    assert (x * d - m) * (x * d - m) == d * (d * (x * x)) - d * (2.0 * m * x) + m * m;
  }

  lemma {:induction false} SquaresCompare(y: real, r: real)
    requires r >= 0.0
    ensures -r <= y <= r <==> y * y <= r * r
  {
    if y * y <= r * r {
      SquareOrder(y, r);
      SquareOrder(-y, r);
    }
    if -r <= y <= r { NonNegativeProduct(r - y, r + y); }
  }

  lemma {:induction false} EnclosingQuotients(p: real, a: real, r: real)
    requires 0.0 <= p <= 1.0 && a >= 0.0 && r >= 0.0
    requires r <= p + a / 2.0 && r <= (1.0 - p) + a / 2.0
    requires a * (0.5 - p) <= r && a * (p - 0.5) <= r
    ensures
      var x, d := p + a / 2.0, 1.0 + a;
      0.0 <= x / d - r / d <= p <= x / d + r / d <= 1.0
  {
    var x, d := p + a / 2.0, 1.0 + a;
    assert p * d == p + a * p;
    QuotientBounds(x - r, d, 0.0, p);
    QuotientBounds(x + r, d, p, 1.0);
    assert (x / d + r / d) * d == x + r && (x / d - r / d) * d == x - r;
    QuotientIs(x / d + r / d, x + r, d);
    QuotientIs(x / d - r / d, x - r, d);
  }

  lemma {:induction false} QuotientIs(q: real, x: real, d: real)
    requires d > 0.0 && q * d == x
    ensures q == x / d
  {
    var e := x / d;
    assert e * d == x;
    if q < e { ProductIsPositive(e - q, d); } else if e < q { ProductIsPositive(q - e, d); }
  }

  lemma {:induction false} HalfQuotient(x: real, n: real)
    requires n > 0.0
    ensures x / (2.0 * n) == (x / n) / 2.0
  {
    var half := (x / n) / 2.0;
    assert half * (2.0 * n) == x;
  }

  lemma {:induction false} QuotientNonNegative(x: real, n: real)
    requires x >= 0.0 && n > 0.0
    ensures x / n >= 0.0 && (x / n) * n == x
  {
  }
}
