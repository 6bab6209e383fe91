/** Scoring findings against seeded bugs (arena/scoring/scorer.py:59-83,179-373), with exact
    reals and no rounding.  What the text heuristics report about a finding and a bug is an
    input (`Signal`). */
module Scoring {
  import opened Matching
  import opened Common

  datatype LineQuality = Full | Partial | SameFile | WrongFile

  function LineRatio(q: LineQuality): real {
    match q
    case Full => 1.0
    case Partial => 8.0 / 15.0
    case SameFile => 3.0 / 15.0
    case WrongFile => 0.0
  }

  /** What the heuristics say about one finding and one bug. */
  datatype Signal = Signal(fileMatches: bool, quality: LineQuality, concept: real, severity: real, fix: real)

  datatype FindingSignals = FindingSignals(signals: seq<Signal>, acceptable: bool)

  datatype Components = Components(concept: real, file: real, line: real, severity: real, fix: real, quality: LineQuality)

  datatype ScoreWeights =
    ScoreWeights(concept: real, file: real, line: real, severity: real, fix: real, noFalsePositives: real)
  {
    function Sum(): real { concept + file + line + severity + fix + noFalsePositives }
  }

  datatype Case = Case(bugs: nat, weights: ScoreWeights, fpPenalty: real, fpCap: real, invalidPenalty: real)

  datatype Verdict = TruePositive(bug: int) | Neutral | FalsePositive

  datatype Breakdown =
    Breakdown(concept: real, file: real, line: real, severity: real, fix: real,
              noFalsePositives: real, fpPenalty: real, invalidPenalty: real, total: real)
  {
    function ComponentSum(): real { concept + file + line + severity + fix }
  }

  datatype ScoreResult =
    ScoreResult(scored: seq<Verdict>, breakdown: Breakdown, primaryFound: bool,
                bugsTotal: nat, bugsMatched: nat, falsePositives: nat)

  type Pairing = map<int, (int, Components)>

  predicate Ratio(x: real) { 0.0 <= x <= 1.0 }

  /** Schema bounds (arena/core/models.py:145,216-232): at least one bug, nothing negative. */
  ghost predicate ValidCase(c: Case) {
    && c.bugs >= 1
    && c.weights.concept >= 0.0 && c.weights.file >= 0.0 && c.weights.line >= 0.0
    && c.weights.severity >= 0.0 && c.weights.fix >= 0.0 && c.weights.noFalsePositives >= 0.0
    && c.fpPenalty >= 0.0 && c.fpCap >= 0.0 && c.invalidPenalty >= 0.0
  }

  /** Each finding was compared with each bug, and the heuristics report fractions. */
  ghost predicate ValidFindings(c: Case, findings: seq<FindingSignals>) {
    forall f :: 0 <= f < |findings| ==> ValidSignals(c, findings[f].signals)
  }

  ghost predicate ValidSignals(c: Case, signals: seq<Signal>) {
    && |signals| == c.bugs
    && forall b :: 0 <= b < |signals| ==> Ratio(signals[b].concept) && Ratio(signals[b].severity) && Ratio(signals[b].fix)
  }

  function PairComponents(s: Signal): Option<Components> {
    if !s.fileMatches || s.concept <= 0.0 then None
    else Some(Components(s.concept, 1.0, LineRatio(s.quality), s.severity, s.fix, s.quality))
  }

  function Earned(ratio: real, weight: real): real { ratio * weight }

  function WeightedValue(c: Components, w: ScoreWeights): real {
    Earned(c.concept, w.concept) + Earned(c.file, w.file) + Earned(c.line, w.line)
    + Earned(c.severity, w.severity) + Earned(c.fix, w.fix)
  }

  ghost predicate Eligible(c: Case, findings: seq<FindingSignals>, b: int, f: int) {
    && 0 <= f < |findings| && 0 <= b < |findings[f].signals| && b < c.bugs
    && PairComponents(findings[f].signals[b]).Some?
  }

  ghost function ComponentsOf(c: Case, findings: seq<FindingSignals>, b: int, f: int): Components
    requires Eligible(c, findings, b, f)
  {
    PairComponents(findings[f].signals[b]).value
  }

  /** Every eligible (bug, finding) pair with its weighted value. */
  ghost function EligibleWeights(c: Case, findings: seq<FindingSignals>): (weights: Weights)
    ensures forall b, f :: (b, f) in weights <==> Eligible(c, findings, b, f)
    ensures forall b, f :: (b, f) in weights ==> weights[(b, f)] == WeightedValue(ComponentsOf(c, findings, b, f), c.weights)
  {
    map b, f | 0 <= b < c.bugs && 0 <= f < |findings| && Eligible(c, findings, b, f)
      :: (b, f) := WeightedValue(ComponentsOf(c, findings, b, f), c.weights)
  }

  /** A finding and a bug can be paired exactly when the finding is in one of the bug's files and
      names something of its concept. */
  lemma {:induction false} EligibleExactly(c: Case, findings: seq<FindingSignals>, b: int, f: int)
    requires ValidFindings(c, findings) && 0 <= f < |findings| && 0 <= b < c.bugs
    ensures b < |findings[f].signals|
    ensures Eligible(c, findings, b, f) <==> findings[f].signals[b].fileMatches && findings[f].signals[b].concept > 0.0
  {
    assert ValidSignals(c, findings[f].signals);
  }

  /** What a pair is worth: the whole weight of the file, the reported fractions of the other
      weights, and of the line's weight all, eight fifteenths, a fifth or nothing. */
  ghost function PairValue(s: Signal, w: ScoreWeights): real {
    s.concept * w.concept + w.file + LineValue(s.quality, w.line) + s.severity * w.severity + s.fix * w.fix
  }

  ghost function LineValue(q: LineQuality, weight: real): real {
    match q
    case Full => weight
    case Partial => 8.0 * weight / 15.0
    case SameFile => weight / 5.0
    case WrongFile => 0.0
  }

  lemma {:induction false} LineIsLineValue(q: LineQuality, weight: real)
    ensures Earned(LineRatio(q), weight) == LineValue(q, weight)
  {
  }

  lemma {:induction false} WeightIsPairValue(c: Case, findings: seq<FindingSignals>, b: int, f: int)
    requires Eligible(c, findings, b, f)
    ensures EligibleWeights(c, findings)[(b, f)] == PairValue(findings[f].signals[b], c.weights)
  {
    LineIsLineValue(findings[f].signals[b].quality, c.weights.line);
    hide LineRatio, LineValue;
    assert (b, f) in EligibleWeights(c, findings);
  }

  lemma {:induction false} WeightIsPositive(c: Case, findings: seq<FindingSignals>, b: int, f: int)
    requires ValidCase(c) && ValidFindings(c, findings) && Eligible(c, findings, b, f)
    requires c.weights.concept > 0.0 || c.weights.file > 0.0
    ensures EligibleWeights(c, findings)[(b, f)] > 0.0
  {
    WeightIsPairValue(c, findings, b, f);
    assert ValidSignals(c, findings[f].signals) && findings[f].signals[b].concept > 0.0;
    hide PairValue;
    PairValueIsPositive(findings[f].signals[b], c.weights);
  }

  lemma {:induction false} PairValueIsPositive(s: Signal, w: ScoreWeights)
    requires s.concept > 0.0 && Ratio(s.severity) && Ratio(s.fix)
    requires w.concept >= 0.0 && w.file >= 0.0 && w.line >= 0.0 && w.severity >= 0.0 && w.fix >= 0.0
    requires w.concept > 0.0 || w.file > 0.0
    ensures PairValue(s, w) > 0.0
  {
    NonNegativeProduct(s.concept, w.concept);
    NonNegativeProduct(s.severity, w.severity);
    NonNegativeProduct(s.fix, w.fix);
    PositiveProduct(s.concept, w.concept);
    var line := LineValue(s.quality, w.line);
    assert line >= 0.0;
    hide LineValue;
    SumIsPositive(s.concept * w.concept, w.file, line, s.severity * w.severity, s.fix * w.fix);
    assert PairValue(s, w) == s.concept * w.concept + w.file + line + s.severity * w.severity + s.fix * w.fix;
  }

  lemma {:induction false} SumIsPositive(a: real, b: real, c: real, d: real, e: real)
    requires a >= 0.0 && b >= 0.0 && c >= 0.0 && d >= 0.0 && e >= 0.0 && (a > 0.0 || b > 0.0)
    ensures a + b + c + d + e > 0.0
  {
  }

  lemma {:induction false} PositiveProduct(x: real, y: real)
    requires x > 0.0
    ensures y > 0.0 ==> x * y > 0.0
  {
  }

  // ---------------------------------------------------------------- assignment

  /** The findings chosen by an assignment, without their components. */
  ghost function Chosen(pairs: Pairing): map<int, int> {
    map b | b in pairs :: pairs[b].0
  }

  /** A maximum-weight one-to-one assignment, each pair with its components. */
  ghost predicate BestAssignment(c: Case, findings: seq<FindingSignals>, pairs: Pairing) {
    && (forall b :: b in pairs ==>
          Eligible(c, findings, b, pairs[b].0) && pairs[b].1 == ComponentsOf(c, findings, b, pairs[b].0))
    && IsMaximum(EligibleWeights(c, findings), c.bugs, Chosen(pairs))
  }

  method BuildWeights(c: Case, findings: seq<FindingSignals>)
    returns (components: map<(int, int), Components>, weights: Weights)
    requires ValidFindings(c, findings)
    ensures weights == EligibleWeights(c, findings)
    ensures forall b, f :: (b, f) in weights <==>
              && 0 <= f < |findings| && 0 <= b < c.bugs && b < |findings[f].signals|
              && findings[f].signals[b].fileMatches && findings[f].signals[b].concept > 0.0
    ensures forall b, f :: (b, f) in weights ==> weights[(b, f)] == PairValue(findings[f].signals[b], c.weights)
    ensures components.Keys == weights.Keys
    ensures forall b, f :: (b, f) in components ==> components[(b, f)] == ComponentsOf(c, findings, b, f)
  {
    components, weights := map[], map[];
    for f := 0 to |findings|
      invariant forall b, g :: (b, g) in weights <==> g < f && Eligible(c, findings, b, g)
      invariant forall b, g :: (b, g) in components <==> g < f && Eligible(c, findings, b, g)
      invariant forall b, g :: (b, g) in weights ==> weights[(b, g)] == WeightedValue(ComponentsOf(c, findings, b, g), c.weights)
      invariant forall b, g :: (b, g) in components ==> components[(b, g)] == ComponentsOf(c, findings, b, g)
    {
      assert ValidSignals(c, findings[f].signals);
      for bug := 0 to c.bugs
        invariant forall b, g :: (b, g) in weights <==> (g < f || (g == f && b < bug)) && Eligible(c, findings, b, g)
        invariant forall b, g :: (b, g) in components <==> (g < f || (g == f && b < bug)) && Eligible(c, findings, b, g)
        invariant forall b, g :: (b, g) in weights ==> weights[(b, g)] == WeightedValue(ComponentsOf(c, findings, b, g), c.weights)
        invariant forall b, g :: (b, g) in components ==> components[(b, g)] == ComponentsOf(c, findings, b, g)
      {
        var pair := PairComponents(findings[f].signals[bug]);
        if pair.Some? {
          components := components[(bug, f) := pair.value];
          weights := weights[(bug, f) := WeightedValue(pair.value, c.weights)];
        }
      }
    }
    ghost var all := EligibleWeights(c, findings);
    forall key: (int, int)
      ensures key in weights <==> key in all
      ensures key in components <==> key in weights
      ensures key in weights ==> weights[key] == all[key]
    {
      var (b, f) := key;
      assert (b, f) in weights <==> (b, f) in all;
    }
    assert components.Keys == weights.Keys && weights == all;
    forall b, f | (b, f) in weights ensures weights[(b, f)] == PairValue(findings[f].signals[b], c.weights) {
      WeightIsPairValue(c, findings, b, f);
    }
  }

  method AssignFindingsToBugs(c: Case, findings: seq<FindingSignals>) returns (pairs: Pairing)
    requires ValidFindings(c, findings)
    ensures BestAssignment(c, findings, pairs)
    ensures forall b :: b in pairs ==>
              && 0 <= b < c.bugs && 0 <= pairs[b].0 < |findings| && b < |findings[pairs[b].0].signals|
              && findings[pairs[b].0].signals[b].fileMatches && findings[pairs[b].0].signals[b].concept > 0.0
  {
    var components, weights := BuildWeights(c, findings);
    var matching := MaxWeightMatching(weights, c.bugs);
    hide PairValue, ValidSignals;
    assert forall b :: b in matching ==> (b, matching[b]) in components.Keys;
    pairs := map b | b in matching :: (matching[b], components[(b, matching[b])]);
    assert Chosen(pairs) == matching;
  }

  // ---------------------------------------------------------------- which findings are matched

  lemma {:induction false} WeightWithPair(weights: Weights, m: map<int, int>, b: int, f: int, k: nat)
    requires b !in m && (b, f) in weights
    ensures Weight(weights, m[b := f], k) == Weight(weights, m, k) + if 0 <= b < k then weights[(b, f)] else 0.0
  {
    if k > 0 { WeightWithPair(weights, m, b, f, k - 1); }
  }

  lemma {:induction false} PairCanBeAdded(weights: Weights, bugs: nat, m: map<int, int>, b: int, f: int)
    requires IsMatching(weights, bugs, m) && b !in m && 0 <= b < bugs && (b, f) in weights
    requires forall x :: x in m ==> m[x] != f
    ensures IsMatching(weights, bugs, m[b := f])
  {
    var more := m[b := f];
    forall x | x in more ensures 0 <= x < bugs && (x, more[x]) in weights {
      if x != b { assert x in m && more[x] == m[x]; }
    }
    forall x, y | x in more && y in more && x != y ensures more[x] != more[y] {
      if x != b && y != b { assert m[x] != m[y]; }
    }
  }

  /** Where concept or file weigh anything, no finding and bug that could be paired are both left over. */
  lemma {:induction false} NoPairIsMissed(c: Case, findings: seq<FindingSignals>, pairs: Pairing, b: int, f: int)
    requires ValidCase(c) && ValidFindings(c, findings) && BestAssignment(c, findings, pairs)
    requires c.weights.concept > 0.0 || c.weights.file > 0.0
    requires 0 <= b < c.bugs && 0 <= f < |findings| && b !in pairs && forall x :: x in pairs ==> pairs[x].0 != f
    ensures b < |findings[f].signals|
    ensures !(findings[f].signals[b].fileMatches && findings[f].signals[b].concept > 0.0)
  {
    EligibleExactly(c, findings, b, f);
    if Eligible(c, findings, b, f) {
      var weights, m := EligibleWeights(c, findings), Chosen(pairs);
      WeightIsPositive(c, findings, b, f);
      WeightWithPair(weights, m, b, f, c.bugs);
      PairCanBeAdded(weights, c.bugs, m, b, f);
    }
  }

  // ---------------------------------------------------------------- component shares

  datatype Part = Concept | File | Line | Severity | Fix
  {
    function Of(c: Components): real {
      match this
      case Concept => c.concept
      case File => c.file
      case Line => c.line
      case Severity => c.severity
      case Fix => c.fix
    }

    function WeightIn(w: ScoreWeights): real {
      match this
      case Concept => w.concept
      case File => w.file
      case Line => w.line
      case Severity => w.severity
      case Fix => w.fix
    }
  }

  function PerBug(x: real, bugs: nat): real
    requires bugs >= 1
  {
    x / bugs as real
  }

  /** One component score: the per-bug weighted ratios of the first k bugs, averaged over all bugs. */
  ghost function Share(part: Part, w: ScoreWeights, pairs: Pairing, bugs: nat, k: nat): real
    requires bugs >= 1
  {
    if k == 0 then 0.0
    else Share(part, w, pairs, bugs, k - 1)
         + if k - 1 in pairs then PerBug(Earned(part.Of(pairs[k - 1].1), part.WeightIn(w)), bugs) else 0.0
  }

  ghost predicate ValidComponents(pairs: Pairing) {
    forall b, part: Part :: b in pairs ==> Ratio(part.Of(pairs[b].1))
  }

  lemma {:induction false} EligibleComponentsAreRatios(c: Case, findings: seq<FindingSignals>, pairs: Pairing)
    requires ValidFindings(c, findings) && BestAssignment(c, findings, pairs)
    ensures ValidComponents(pairs)
  {
    forall b, part: Part | b in pairs ensures Ratio(part.Of(pairs[b].1)) {
      assert ValidSignals(c, findings[pairs[b].0].signals);
    }
  }

  lemma {:induction false} PerBugAdds(x: real, y: real, bugs: nat)
    requires bugs >= 1
    ensures PerBug(x + y, bugs) == PerBug(x, bugs) + PerBug(y, bugs)
  {
  }

  lemma {:induction false} PerBugMonotone(x: real, y: real, bugs: nat)
    requires bugs >= 1 && x <= y
    ensures PerBug(x, bugs) <= PerBug(y, bugs)
  {
    assert (y - x) / bugs as real >= 0.0;
  }

  lemma {:induction false} ScaledRatio(x: real, w: real)
    requires Ratio(x) && w >= 0.0
    ensures 0.0 <= Earned(x, w) <= w
  {
    NonNegativeProduct(x, w);
    NonNegativeProduct(1.0 - x, w);
  }

  lemma {:induction false} ShareIsBounded(part: Part, w: ScoreWeights, pairs: Pairing, bugs: nat, k: nat)
    requires bugs >= 1 && ValidComponents(pairs) && part.WeightIn(w) >= 0.0
    ensures 0.0 <= Share(part, w, pairs, bugs, k) <= k as real * PerBug(part.WeightIn(w), bugs)
  {
    assert PerBug(0.0, bugs) == 0.0;
    hide PerBug, Earned;
    var weight := part.WeightIn(w);
    var unit := PerBug(weight, bugs);
    PerBugMonotone(0.0, weight, bugs);
    if k > 0 {
      ShareIsBounded(part, w, pairs, bugs, k - 1);
      if k - 1 in pairs {
        var x := part.Of(pairs[k - 1].1);
        ScaledRatio(x, weight);
        PerBugMonotone(0.0, Earned(x, weight), bugs);
        PerBugMonotone(Earned(x, weight), weight, bugs);
      }
    }
  }

  /** A component score never exceeds its weight. */
  lemma {:induction false} ShareFitsWeight(part: Part, w: ScoreWeights, pairs: Pairing, bugs: nat)
    requires bugs >= 1 && ValidComponents(pairs) && part.WeightIn(w) >= 0.0
    ensures 0.0 <= Share(part, w, pairs, bugs, bugs) <= part.WeightIn(w)
  {
    ShareIsBounded(part, w, pairs, bugs, bugs);
    assert bugs as real * PerBug(part.WeightIn(w), bugs) == part.WeightIn(w);
  }

  ghost function AllShares(w: ScoreWeights, pairs: Pairing, bugs: nat, k: nat): real
    requires bugs >= 1
  {
    Share(Concept, w, pairs, bugs, k) + Share(File, w, pairs, bugs, k) + Share(Line, w, pairs, bugs, k)
    + Share(Severity, w, pairs, bugs, k) + Share(Fix, w, pairs, bugs, k)
  }

  lemma {:induction false} PairShares(x: Components, w: ScoreWeights, bugs: nat)
    requires bugs >= 1
    ensures
      PerBug(Earned(x.concept, w.concept), bugs) + PerBug(Earned(x.file, w.file), bugs) + PerBug(Earned(x.line, w.line), bugs)
      + PerBug(Earned(x.severity, w.severity), bugs) + PerBug(Earned(x.fix, w.fix), bugs)
      == PerBug(WeightedValue(x, w), bugs)
  {
    hide PerBug, Earned;
    var a, b, c := Earned(x.concept, w.concept), Earned(x.file, w.file), Earned(x.line, w.line);
    var d, e := Earned(x.severity, w.severity), Earned(x.fix, w.fix);
    PerBugAdds(a, b, bugs);
    PerBugAdds(a + b, c, bugs);
    PerBugAdds(a + b + c, d, bugs);
    PerBugAdds(a + b + c + d, e, bugs);
  }

  lemma {:induction false} AllSharesStep(w: ScoreWeights, pairs: Pairing, bugs: nat, b: nat)
    requires bugs >= 1
    ensures AllShares(w, pairs, bugs, b + 1)
         == AllShares(w, pairs, bugs, b) + if b in pairs then PerBug(WeightedValue(pairs[b].1, w), bugs) else 0.0
  {
    if b in pairs { PairShares(pairs[b].1, w, bugs); }
  }

  lemma {:induction false} ChosenWeightStep(c: Case, findings: seq<FindingSignals>, pairs: Pairing, b: nat)
    requires BestAssignment(c, findings, pairs) && b < c.bugs
    ensures Weight(EligibleWeights(c, findings), Chosen(pairs), b + 1)
         == Weight(EligibleWeights(c, findings), Chosen(pairs), b)
            + if b in pairs then WeightedValue(pairs[b].1, c.weights) else 0.0
  {
    var weights := EligibleWeights(c, findings);
    hide WeightedValue;
    if b in pairs {
      assert (b, pairs[b].0) in weights;
    }
  }

  lemma {:induction false} NoShares(c: Case, findings: seq<FindingSignals>, pairs: Pairing)
    requires c.bugs >= 1
    ensures AllShares(c.weights, pairs, c.bugs, 0) == PerBug(Weight(EligibleWeights(c, findings), Chosen(pairs), 0), c.bugs)
  {
  }

  /** The five component scores add up to the weight of the matching, averaged over the bugs. */
  lemma {:induction false} SharesAreMatchingWeight(c: Case, findings: seq<FindingSignals>, pairs: Pairing, k: nat)
    requires c.bugs >= 1 && BestAssignment(c, findings, pairs) && k <= c.bugs
    ensures AllShares(c.weights, pairs, c.bugs, k) == PerBug(Weight(EligibleWeights(c, findings), Chosen(pairs), k), c.bugs)
  {
    hide *;
    if k == 0 {
      NoShares(c, findings, pairs);
    } else {
      var b := k - 1;
      AllSharesStep(c.weights, pairs, c.bugs, b);
      ChosenWeightStep(c, findings, pairs, b);
      SharesAreMatchingWeight(c, findings, pairs, b);
      if b in pairs {
        PerBugAdds(Weight(EligibleWeights(c, findings), Chosen(pairs), b), WeightedValue(pairs[b].1, c.weights), c.bugs);
      }
    }
  }

  // ---------------------------------------------------------------- classification

  datatype Tally = Tally(matched: nat, neutral: nat, falsePositives: nat)

  ghost function TallyOf(scored: seq<Verdict>): Tally {
    if scored == [] then Tally(0, 0, 0)
    else
      var t := TallyOf(scored[..|scored| - 1]);
      match scored[|scored| - 1]
      case TruePositive(_) => t.(matched := t.matched + 1)
      case Neutral => t.(neutral := t.neutral + 1)
      case FalsePositive => t.(falsePositives := t.falsePositives + 1)
  }

  /** A finding is a true positive for the bug it is paired with; otherwise neutral when the case
      accepts it, and a false positive when not. */
  ghost predicate Classified(findings: seq<FindingSignals>, pairs: Pairing, scored: seq<Verdict>) {
    && |scored| <= |findings|
    && forall f :: 0 <= f < |scored| ==>
         match scored[f]
         case TruePositive(b) => b in pairs && pairs[b].0 == f
         case Neutral => findings[f].acceptable && forall b :: b in pairs ==> pairs[b].0 != f
         case FalsePositive => !findings[f].acceptable && forall b :: b in pairs ==> pairs[b].0 != f
  }

  /** The bugs matched by the first findings. */
  ghost function MatchedBugs(scored: seq<Verdict>): set<int> {
    set f | 0 <= f < |scored| && scored[f].TruePositive? :: scored[f].bug
  }

  /** Counting true positives counts distinct bugs; nothing is counted twice or lost. */
  lemma {:induction false} TallyCountsBugs(findings: seq<FindingSignals>, pairs: Pairing, scored: seq<Verdict>)
    requires Classified(findings, pairs, scored)
    ensures
      var t := TallyOf(scored);
      && t.matched == |MatchedBugs(scored)|
      && t.matched + t.neutral + t.falsePositives == |scored|
  {
    if scored == [] {
      assert MatchedBugs(scored) == {};
    } else {
      var n := |scored| - 1;
      var rest := scored[..n];
      TallyCountsBugs(findings, pairs, rest);
      assert forall f :: 0 <= f < n ==> rest[f] == scored[f];
      if scored[n].TruePositive? {
        var b := scored[n].bug;
        assert MatchedBugs(scored) == MatchedBugs(rest) + {b};
        forall f | 0 <= f < n && rest[f].TruePositive? ensures rest[f].bug != b {
          assert pairs[rest[f].bug].0 == f;
        }
        assert b !in MatchedBugs(rest);
      } else {
        assert MatchedBugs(scored) == MatchedBugs(rest);
      }
    }
  }

  lemma {:induction false} EveryPairIsScored(c: Case, findings: seq<FindingSignals>, pairs: Pairing, scored: seq<Verdict>)
    requires BestAssignment(c, findings, pairs) && Classified(findings, pairs, scored) && |scored| == |findings|
    ensures MatchedBugs(scored) == pairs.Keys
  {
    forall b | b in pairs ensures b in MatchedBugs(scored) {
      var f := pairs[b].0;
      assert Eligible(c, findings, b, f);
      assert scored[f].TruePositive?;
      var b' := scored[f].bug;
      assert Chosen(pairs)[b] == Chosen(pairs)[b'];
      assert b == b';
    }
    forall b | b in MatchedBugs(scored) ensures b in pairs {}
  }

  // ---------------------------------------------------------------- the score

  /** Each false positive costs, up to the cap. */
  function FpPenalty(c: Case, falsePositives: nat): real {
    MinReal(falsePositives as real * c.fpPenalty, c.fpCap)
  }

  /** The unrounded total from the parts of a breakdown. */
  function TotalOf(b: Breakdown): real {
    MaxReal(0.0, b.ComponentSum() + b.noFalsePositives - b.fpPenalty - b.invalidPenalty)
  }

  /** The breakdown of a case with the given pairs and number of false positives. */
  ghost predicate IsBreakdown(c: Case, pairs: Pairing, falsePositives: nat, invalidOutput: bool, b: Breakdown)
    requires c.bugs >= 1
  {
    && b.concept == Share(Concept, c.weights, pairs, c.bugs, c.bugs)
    && b.file == Share(File, c.weights, pairs, c.bugs, c.bugs)
    && b.line == Share(Line, c.weights, pairs, c.bugs, c.bugs)
    && b.severity == Share(Severity, c.weights, pairs, c.bugs, c.bugs)
    && b.fix == Share(Fix, c.weights, pairs, c.bugs, c.bugs)
    && b.noFalsePositives == (if falsePositives == 0 then c.weights.noFalsePositives else 0.0)
    && b.fpPenalty == FpPenalty(c, falsePositives)
    && b.invalidPenalty == (if invalidOutput then c.invalidPenalty else 0.0)
    && b.total == TotalOf(b)
  }

  lemma {:induction false} TotalIsBounded(c: Case, pairs: Pairing, falsePositives: nat, invalidOutput: bool, b: Breakdown)
    requires ValidCase(c) && ValidComponents(pairs) && IsBreakdown(c, pairs, falsePositives, invalidOutput, b)
    ensures 0.0 <= b.total <= c.weights.Sum()
  {
    ShareFitsWeight(Concept, c.weights, pairs, c.bugs);
    ShareFitsWeight(File, c.weights, pairs, c.bugs);
    ShareFitsWeight(Line, c.weights, pairs, c.bugs);
    ShareFitsWeight(Severity, c.weights, pairs, c.bugs);
    ShareFitsWeight(Fix, c.weights, pairs, c.bugs);
    assert falsePositives as real * c.fpPenalty >= 0.0;
  }

  // ---------------------------------------------------------------- the breakdown, from the verdicts

  /** The fraction of a part's weight that a matched finding earns. */
  ghost function Fraction(part: Part, s: Signal): real {
    match part
    case Concept => s.concept
    case File => 1.0
    case Line => if s.quality.Full? then 1.0 else if s.quality.Partial? then 8.0 / 15.0 else if s.quality.SameFile? then 0.2 else 0.0
    case Severity => s.severity
    case Fix => s.fix
  }

  /** The fractions that the first n findings earn for the bugs below k that they are matched to. */
  ghost function EarnedBelow(findings: seq<FindingSignals>, scored: seq<Verdict>, part: Part, n: nat, k: int): real
    requires n <= |scored| <= |findings|
  {
    if n == 0 then 0.0
    else
      var v, signals := scored[n - 1], findings[n - 1].signals;
      EarnedBelow(findings, scored, part, n - 1, k)
      + if v.TruePositive? && 0 <= v.bug < |signals| && v.bug < k then Fraction(part, signals[v.bug]) else 0.0
  }

  lemma {:induction false} NothingBelowZero(findings: seq<FindingSignals>, scored: seq<Verdict>, part: Part, n: nat)
    requires n <= |scored| <= |findings|
    ensures EarnedBelow(findings, scored, part, n, 0) == 0.0
  {
    if n > 0 { NothingBelowZero(findings, scored, part, n - 1); }
  }

  /** The true positives are the pairs. */
  ghost predicate Paired(findings: seq<FindingSignals>, pairs: Pairing, scored: seq<Verdict>, bugs: nat) {
    && |scored| == |findings|
    && (forall f :: 0 <= f < |scored| && scored[f].TruePositive? ==> scored[f].bug in pairs && pairs[scored[f].bug].0 == f)
    && forall b :: b in pairs ==>
         && 0 <= pairs[b].0 < |findings| && 0 <= b < bugs && b < |findings[pairs[b].0].signals|
         && scored[pairs[b].0] == TruePositive(b)
  }

  lemma {:induction false} VerdictsArePairs(c: Case, findings: seq<FindingSignals>, pairs: Pairing, scored: seq<Verdict>)
    requires BestAssignment(c, findings, pairs) && Classified(findings, pairs, scored) && |scored| == |findings|
    ensures Paired(findings, pairs, scored, c.bugs)
  {
    PairedFindingsDiffer(c, findings, pairs);
    forall b | b in pairs
      ensures 0 <= pairs[b].0 < |findings| && 0 <= b < c.bugs && b < |findings[pairs[b].0].signals|
      ensures scored[pairs[b].0] == TruePositive(b)
    {
      assert Eligible(c, findings, b, pairs[b].0);
    }
  }

  lemma {:induction false} EarnedForBug(findings: seq<FindingSignals>, pairs: Pairing, scored: seq<Verdict>, part: Part, bugs: nat, n: nat, k: nat)
    requires Paired(findings, pairs, scored, bugs) && n <= |scored|
    ensures EarnedBelow(findings, scored, part, n, k + 1)
         == EarnedBelow(findings, scored, part, n, k)
            + if k in pairs && pairs[k].0 < n then Fraction(part, findings[pairs[k].0].signals[k]) else 0.0
  {
    hide Fraction;
    if n > 0 { EarnedForBug(findings, pairs, scored, part, bugs, n - 1, k); }
  }

  lemma {:induction false} FractionOfPair(c: Case, findings: seq<FindingSignals>, pairs: Pairing, part: Part, b: int)
    requires BestAssignment(c, findings, pairs) && b in pairs
    ensures 0 <= pairs[b].0 < |findings| && 0 <= b < |findings[pairs[b].0].signals|
    ensures part.Of(pairs[b].1) == Fraction(part, findings[pairs[b].0].signals[b])
  {
    assert Eligible(c, findings, b, pairs[b].0);
  }

  /** x for every bug. */
  ghost function ForBugs(x: real, bugs: nat): real { x * bugs as real }

  lemma {:induction false} ForBugsAdds(x: real, y: real, bugs: nat)
    requires bugs >= 1
    ensures ForBugs(0.0, bugs) == 0.0 && ForBugs(x + PerBug(y, bugs), bugs) == ForBugs(x, bugs) + y
  {
  }

  lemma {:induction false} EarnedAdds(x: real, y: real, weight: real)
    ensures Earned(0.0, weight) == 0.0 && Earned(x + y, weight) == Earned(x, weight) + Earned(y, weight)
  {
  }

  /** The fraction that the pair of bug k earns, if there is one. */
  ghost function PairFraction(findings: seq<FindingSignals>, pairs: Pairing, scored: seq<Verdict>, part: Part, bugs: nat, k: nat): real
    requires Paired(findings, pairs, scored, bugs)
  {
    if k in pairs then Fraction(part, findings[pairs[k].0].signals[k]) else 0.0
  }

  lemma {:induction false} ShareAdds(c: Case, findings: seq<FindingSignals>, pairs: Pairing, scored: seq<Verdict>, part: Part, k: nat)
    requires c.bugs >= 1 && BestAssignment(c, findings, pairs) && Paired(findings, pairs, scored, c.bugs)
    ensures ForBugs(Share(part, c.weights, pairs, c.bugs, k + 1), c.bugs)
         == ForBugs(Share(part, c.weights, pairs, c.bugs, k), c.bugs)
            + Earned(PairFraction(findings, pairs, scored, part, c.bugs, k), part.WeightIn(c.weights))
  {
    hide ForBugs, PerBug, Earned, BestAssignment;
    var before, weight := Share(part, c.weights, pairs, c.bugs, k), part.WeightIn(c.weights);
    if k in pairs {
      FractionOfPair(c, findings, pairs, part, k);
      ForBugsAdds(before, Earned(part.Of(pairs[k].1), weight), c.bugs);
    } else {
      EarnedAdds(0.0, 0.0, weight);
      assert Share(part, c.weights, pairs, c.bugs, k + 1) == before + 0.0 == before;
    }
  }

  lemma {:induction false} VerdictsAdd(findings: seq<FindingSignals>, pairs: Pairing, scored: seq<Verdict>, part: Part, bugs: nat, k: nat,
                                       weight: real)
    requires Paired(findings, pairs, scored, bugs)
    ensures |scored| == |findings|
    ensures Earned(EarnedBelow(findings, scored, part, |findings|, k + 1), weight)
         == Earned(EarnedBelow(findings, scored, part, |findings|, k), weight)
            + Earned(PairFraction(findings, pairs, scored, part, bugs, k), weight)
    ensures Earned(EarnedBelow(findings, scored, part, |findings|, 0), weight) == 0.0
  {
    hide EarnedBelow, Earned, Fraction;
    NothingBelowZero(findings, scored, part, |findings|);
    EarnedForBug(findings, pairs, scored, part, bugs, |findings|, k);
    EarnedAdds(EarnedBelow(findings, scored, part, |findings|, k), PairFraction(findings, pairs, scored, part, bugs, k), weight);
  }

  lemma {:induction false} NoShareYet(part: Part, w: ScoreWeights, pairs: Pairing, bugs: nat)
    requires bugs >= 1
    ensures ForBugs(Share(part, w, pairs, bugs, 0), bugs) == 0.0
  {
  }

  lemma {:induction false} ShareOfVerdicts(c: Case, findings: seq<FindingSignals>, pairs: Pairing, scored: seq<Verdict>, part: Part, k: nat)
    requires c.bugs >= 1 && BestAssignment(c, findings, pairs) && Paired(findings, pairs, scored, c.bugs)
    ensures |scored| == |findings|
    ensures ForBugs(Share(part, c.weights, pairs, c.bugs, k), c.bugs)
         == Earned(EarnedBelow(findings, scored, part, |findings|, k), part.WeightIn(c.weights))
  {
    hide *;
    var before := if k == 0 then 0 else k - 1;
    VerdictsAdd(findings, pairs, scored, part, c.bugs, before, part.WeightIn(c.weights));
    if k == 0 {
      NoShareYet(part, c.weights, pairs, c.bugs);
    } else {
      ShareOfVerdicts(c, findings, pairs, scored, part, k - 1);
      ShareAdds(c, findings, pairs, scored, part, k - 1);
    }
  }

  /** x, times the number of bugs, is the weight times what the matched findings report of the part
      for the bugs that they are matched to. */
  ghost predicate EarnedByVerdicts(findings: seq<FindingSignals>, scored: seq<Verdict>, part: Part, bugs: nat, x: real, weight: real)
    requires |scored| == |findings|
  {
    x * bugs as real == EarnedBelow(findings, scored, part, |findings|, bugs) * weight
  }

  /** The five component scores, read off the verdicts alone. */
  ghost predicate FromVerdicts(c: Case, findings: seq<FindingSignals>, scored: seq<Verdict>, b: Breakdown)
    requires |scored| == |findings|
  {
    && EarnedByVerdicts(findings, scored, Concept, c.bugs, b.concept, c.weights.concept)
    && EarnedByVerdicts(findings, scored, File, c.bugs, b.file, c.weights.file)
    && EarnedByVerdicts(findings, scored, Line, c.bugs, b.line, c.weights.line)
    && EarnedByVerdicts(findings, scored, Severity, c.bugs, b.severity, c.weights.severity)
    && EarnedByVerdicts(findings, scored, Fix, c.bugs, b.fix, c.weights.fix)
  }

  lemma {:induction false} BreakdownOfVerdicts(c: Case, findings: seq<FindingSignals>, pairs: Pairing, scored: seq<Verdict>,
                                               falsePositives: nat, invalidOutput: bool, b: Breakdown)
    requires c.bugs >= 1 && BestAssignment(c, findings, pairs) && Classified(findings, pairs, scored) && |scored| == |findings|
    requires IsBreakdown(c, pairs, falsePositives, invalidOutput, b)
    ensures FromVerdicts(c, findings, scored, b)
  {
    VerdictsArePairs(c, findings, pairs, scored);
    hide BestAssignment, Classified, Share, Paired, EarnedByVerdicts;
    PartOfVerdicts(c, findings, pairs, scored, Concept, b.concept);
    PartOfVerdicts(c, findings, pairs, scored, File, b.file);
    PartOfVerdicts(c, findings, pairs, scored, Line, b.line);
    PartOfVerdicts(c, findings, pairs, scored, Severity, b.severity);
    PartOfVerdicts(c, findings, pairs, scored, Fix, b.fix);
  }

  lemma {:induction false} PartOfVerdicts(c: Case, findings: seq<FindingSignals>, pairs: Pairing, scored: seq<Verdict>, part: Part, x: real)
    requires c.bugs >= 1 && BestAssignment(c, findings, pairs) && Paired(findings, pairs, scored, c.bugs)
    requires x == Share(part, c.weights, pairs, c.bugs, c.bugs)
    ensures |scored| == |findings| && EarnedByVerdicts(findings, scored, part, c.bugs, x, part.WeightIn(c.weights))
  {
    hide *;
    ShareOfVerdicts(c, findings, pairs, scored, part, c.bugs);
    AsProducts(findings, scored, part, c.bugs, x, part.WeightIn(c.weights));
  }

  lemma {:induction false} AsProducts(findings: seq<FindingSignals>, scored: seq<Verdict>, part: Part, bugs: nat, x: real, weight: real)
    requires |scored| == |findings| && ForBugs(x, bugs) == Earned(EarnedBelow(findings, scored, part, |findings|, bugs), weight)
    ensures EarnedByVerdicts(findings, scored, part, bugs, x, weight)
  {
    hide EarnedBelow;
  }

  /** A finding that counts for a bug is in one of its files and names something of its concept. */
  ghost predicate TruePositivesAgree(findings: seq<FindingSignals>, scored: seq<Verdict>) {
    forall f :: 0 <= f < |scored| && f < |findings| && scored[f].TruePositive? ==>
      && 0 <= scored[f].bug < |findings[f].signals|
      && findings[f].signals[scored[f].bug].fileMatches && findings[f].signals[scored[f].bug].concept > 0.0
  }

  /** No bug is left unmatched together with an uncounted finding that agrees with it. */
  ghost predicate NoneMissed(bugs: nat, findings: seq<FindingSignals>, scored: seq<Verdict>) {
    forall f, b :: 0 <= f < |scored| && f < |findings| && !scored[f].TruePositive? && 0 <= b < bugs && b < |findings[f].signals|
                   && findings[f].signals[b].fileMatches && findings[f].signals[b].concept > 0.0 ==>
      exists g :: 0 <= g < |scored| && scored[g] == TruePositive(b)
  }

  ghost predicate NothingInAnyFile(findings: seq<FindingSignals>) {
    forall f, b :: 0 <= f < |findings| && 0 <= b < |findings[f].signals| ==> !findings[f].signals[b].fileMatches
  }

  lemma {:induction false} VerdictsAgree(c: Case, findings: seq<FindingSignals>, pairs: Pairing, scored: seq<Verdict>)
    requires ValidCase(c) && ValidFindings(c, findings) && BestAssignment(c, findings, pairs)
    requires Classified(findings, pairs, scored) && |scored| == |findings|
    ensures TruePositivesAgree(findings, scored)
    ensures c.weights.concept > 0.0 || c.weights.file > 0.0 ==> NoneMissed(c.bugs, findings, scored)
  {
    VerdictsArePairs(c, findings, pairs, scored);
    hide ValidFindings, Classified, ValidCase;
    forall f | 0 <= f < |scored| && scored[f].TruePositive?
      ensures 0 <= scored[f].bug < |findings[f].signals|
      ensures findings[f].signals[scored[f].bug].fileMatches && findings[f].signals[scored[f].bug].concept > 0.0
    {
      assert Eligible(c, findings, scored[f].bug, f);
    }
    hide BestAssignment;
    forall f, b | 0 <= f < |scored| && !scored[f].TruePositive? && 0 <= b < c.bugs && b < |findings[f].signals|
                  && findings[f].signals[b].fileMatches && findings[f].signals[b].concept > 0.0
                  && (c.weights.concept > 0.0 || c.weights.file > 0.0)
      ensures exists g :: 0 <= g < |scored| && scored[g] == TruePositive(b)
    {
      if b in pairs {
        assert scored[pairs[b].0] == TruePositive(b);
      } else {
        NoPairIsMissed(c, findings, pairs, b, f);
      }
    }
  }

  /** A review without a finding in any bug's files matches nothing and earns nothing. */
  lemma {:induction false} NothingInAnyFileEarnsNothing(c: Case, findings: seq<FindingSignals>, pairs: Pairing)
    requires BestAssignment(c, findings, pairs) && NothingInAnyFile(findings)
    ensures pairs == map[] && Weight(EligibleWeights(c, findings), Chosen(pairs), c.bugs) == 0.0
  {
    forall b ensures b !in pairs {
      if b in pairs { PairIsInFile(c, findings, pairs, b); }
    }
    assert pairs == map[];
    NoMatchNoWeight(EligibleWeights(c, findings), Chosen(pairs), c.bugs);
  }

  lemma {:induction false} PairIsInFile(c: Case, findings: seq<FindingSignals>, pairs: Pairing, b: int)
    requires BestAssignment(c, findings, pairs) && b in pairs
    ensures 0 <= pairs[b].0 < |findings| && 0 <= b < |findings[pairs[b].0].signals|
    ensures findings[pairs[b].0].signals[b].fileMatches
  {
    assert Eligible(c, findings, b, pairs[b].0);
  }

  lemma {:induction false} NoMatchNoWeight(weights: Weights, m: map<int, int>, k: nat)
    requires m == map[]
    ensures Weight(weights, m, k) == 0.0
  {
    if k > 0 { NoMatchNoWeight(weights, m, k - 1); }
  }

  /** What the deductions leave: the components and the reward for no false positive, less a
      penalty for each false positive up to the cap, less the penalty for invalid output. */
  ghost predicate LeftByCosts(c: Case, falsePositives: nat, invalidOutput: bool, b: Breakdown) {
    var n := falsePositives as real;
    var earned := b.concept + b.file + b.line + b.severity + b.fix + if falsePositives == 0 then c.weights.noFalsePositives else 0.0;
    var cost := (if n * c.fpPenalty <= c.fpCap then n * c.fpPenalty else c.fpCap) + if invalidOutput then c.invalidPenalty else 0.0;
    b.total == if earned > cost then earned - cost else 0.0
  }

  lemma {:induction false} TotalIsLeftByCosts(c: Case, pairs: Pairing, falsePositives: nat, invalidOutput: bool, b: Breakdown)
    requires c.bugs >= 1 && IsBreakdown(c, pairs, falsePositives, invalidOutput, b)
    ensures LeftByCosts(c, falsePositives, invalidOutput, b)
  {
    hide Share;
  }

  /** Invalid output costs its penalty, as far as there is a total to take it from. */
  lemma {:induction false} InvalidOutputCosts(c: Case, pairs: Pairing, falsePositives: nat, b: Breakdown, b': Breakdown)
    requires ValidCase(c) && IsBreakdown(c, pairs, falsePositives, false, b) && IsBreakdown(c, pairs, falsePositives, true, b')
    ensures b'.total == if b.total > c.invalidPenalty then b.total - c.invalidPenalty else 0.0
  {
    hide Share;
  }

  lemma {:induction false} AllEarned(findings: seq<FindingSignals>, scored: seq<Verdict>, part: Part, n: nat, bugs: nat)
    requires n <= |scored| <= |findings|
    requires forall f :: 0 <= f < n && scored[f].TruePositive? ==>
               && 0 <= scored[f].bug < |findings[f].signals| && scored[f].bug < bugs
               && Fraction(part, findings[f].signals[scored[f].bug]) == 1.0
    ensures EarnedBelow(findings, scored, part, n, bugs) == TallyOf(scored[..n]).matched as real
  {
    if n > 0 {
      AllEarned(findings, scored, part, n - 1, bugs);
      assert scored[..n][..n - 1] == scored[..n - 1];
    }
  }

  /** The finding matches the bug in every respect. */
  ghost predicate Perfect(s: Signal) {
    s.fileMatches && s.quality.Full? && s.concept == 1.0 && s.severity == 1.0 && s.fix == 1.0
  }

  /** A review that finds every bug in every respect, and nothing else, earns all six weights. */
  lemma {:induction false} PerfectReviewEarnsAll(c: Case, findings: seq<FindingSignals>, pairs: Pairing, scored: seq<Verdict>, b: Breakdown)
    requires ValidCase(c) && BestAssignment(c, findings, pairs) && Classified(findings, pairs, scored) && |scored| == |findings|
    requires IsBreakdown(c, pairs, TallyOf(scored).falsePositives, false, b)
    requires |pairs| == c.bugs && TallyOf(scored).falsePositives == 0
    requires forall f :: 0 <= f < |scored| && scored[f].TruePositive? && 0 <= scored[f].bug < |findings[f].signals| ==>
               Perfect(findings[f].signals[scored[f].bug])
    ensures b.total == c.weights.concept + c.weights.file + c.weights.line + c.weights.severity + c.weights.fix
                       + c.weights.noFalsePositives
  {
    hide BestAssignment, Classified, EarnedBelow, IsBreakdown, TallyOf;
    VerdictsArePairs(c, findings, pairs, scored);
    EveryPairIsScored(c, findings, pairs, scored);
    TallyCountsBugs(findings, pairs, scored);
    assert |pairs| == |pairs.Keys|;
    assert scored[..|findings|] == scored;
    forall part: Part ensures EarnedBelow(findings, scored, part, |findings|, c.bugs) == c.bugs as real {
      AllEarned(findings, scored, part, |findings|, c.bugs);
    }
    BreakdownOfVerdicts(c, findings, pairs, scored, 0, false, b);
    TotalIsLeftByCosts(c, pairs, 0, false, b);
    hide Paired, MatchedBugs, EarnedByVerdicts;
    WholeWeight(findings, scored, Concept, c.bugs, b.concept, c.weights.concept);
    WholeWeight(findings, scored, File, c.bugs, b.file, c.weights.file);
    WholeWeight(findings, scored, Line, c.bugs, b.line, c.weights.line);
    WholeWeight(findings, scored, Severity, c.bugs, b.severity, c.weights.severity);
    WholeWeight(findings, scored, Fix, c.bugs, b.fix, c.weights.fix);
  }

  lemma {:induction false} WholeWeight(findings: seq<FindingSignals>, scored: seq<Verdict>, part: Part, bugs: nat, x: real, weight: real)
    requires bugs >= 1 && |scored| == |findings| && EarnedByVerdicts(findings, scored, part, bugs, x, weight)
    requires EarnedBelow(findings, scored, part, |findings|, bugs) == bugs as real
    ensures x == weight
  {
    hide EarnedBelow;
    assert (x - weight) * bugs as real == 0.0;
  }

  // ---------------------------------------------------------------- classification and score

  lemma {:induction false} ClassifyOneMore(findings: seq<FindingSignals>, pairs: Pairing, scored: seq<Verdict>, v: Verdict)
    requires Classified(findings, pairs, scored) && |scored| < |findings|
    requires
      var f := |scored|;
      match v
      case TruePositive(b) => b in pairs && pairs[b].0 == f
      case Neutral => findings[f].acceptable && forall b :: b in pairs ==> pairs[b].0 != f
      case FalsePositive => !findings[f].acceptable && forall b :: b in pairs ==> pairs[b].0 != f
    ensures Classified(findings, pairs, scored + [v])
    ensures TallyOf(scored + [v]).falsePositives == TallyOf(scored).falsePositives + if v.FalsePositive? then 1 else 0
  {
    assert (scored + [v])[..|scored|] == scored;
  }

  lemma {:induction false} PairedFindingsDiffer(c: Case, findings: seq<FindingSignals>, pairs: Pairing)
    requires BestAssignment(c, findings, pairs)
    ensures forall b, b' :: b in pairs && b' in pairs && b != b' ==> pairs[b].0 != pairs[b'].0
  {
    forall b, b' | b in pairs && b' in pairs && b != b' ensures pairs[b].0 != pairs[b'].0 {
      assert Chosen(pairs)[b] != Chosen(pairs)[b'];
    }
  }

  method ClassifyFindings(findings: seq<FindingSignals>, pairs: Pairing)
    returns (scored: seq<Verdict>, falsePositives: nat)
    requires forall b, b' :: b in pairs && b' in pairs && b != b' ==> pairs[b].0 != pairs[b'].0
    ensures |scored| == |findings| && Classified(findings, pairs, scored)
    ensures falsePositives == TallyOf(scored).falsePositives
  {
    var findingToBug := map b | b in pairs :: pairs[b].0 := b;
    assert forall b :: b in pairs ==> pairs[b].0 in findingToBug;
    scored, falsePositives := [], 0;
    for f := 0 to |findings|
      invariant |scored| == f && Classified(findings, pairs, scored)
      invariant falsePositives == TallyOf(scored).falsePositives
    {
      var verdict;
      if f in findingToBug {
        verdict := TruePositive(findingToBug[f]);
      } else if findings[f].acceptable {
        verdict := Neutral;
      } else {
        falsePositives := falsePositives + 1;
        verdict := FalsePositive;
      }
      ClassifyOneMore(findings, pairs, scored, verdict);
      scored := scored + [verdict];
    }
  }

  method ComponentScores(w: ScoreWeights, assignment: Pairing, bugs: nat)
    returns (concept: real, file: real, line: real, severity: real, fix: real)
    requires bugs >= 1
    ensures concept == Share(Concept, w, assignment, bugs, bugs) && file == Share(File, w, assignment, bugs, bugs)
    ensures line == Share(Line, w, assignment, bugs, bugs) && severity == Share(Severity, w, assignment, bugs, bugs)
    ensures fix == Share(Fix, w, assignment, bugs, bugs)
  {
    hide PerBug, Earned;
    concept, file, line, severity, fix := 0.0, 0.0, 0.0, 0.0, 0.0;
    for bug := 0 to bugs
      invariant concept == Share(Concept, w, assignment, bugs, bug) && file == Share(File, w, assignment, bugs, bug)
      invariant line == Share(Line, w, assignment, bugs, bug) && severity == Share(Severity, w, assignment, bugs, bug)
      invariant fix == Share(Fix, w, assignment, bugs, bug)
    {
      if bug in assignment {
        var components := assignment[bug].1;
        concept := concept + PerBug(Earned(components.concept, w.concept), bugs);
        file := file + PerBug(Earned(components.file, w.file), bugs);
        line := line + PerBug(Earned(components.line, w.line), bugs);
        severity := severity + PerBug(Earned(components.severity, w.severity), bugs);
        fix := fix + PerBug(Earned(components.fix, w.fix), bugs);
      }
    }
  }

  method ScoreCase(c: Case, findings: seq<FindingSignals>, invalidOutput: bool)
    returns (result: ScoreResult, ghost pairs: Pairing)
    requires ValidCase(c) && ValidFindings(c, findings)
    ensures BestAssignment(c, findings, pairs)
    ensures |result.scored| == |findings| && Classified(findings, pairs, result.scored)
    ensures MatchedBugs(result.scored) == pairs.Keys
    ensures TallyOf(result.scored).matched == result.bugsMatched == |pairs|
    ensures result.falsePositives == TallyOf(result.scored).falsePositives
    ensures |findings| == result.bugsMatched + TallyOf(result.scored).neutral + result.falsePositives
    ensures result.bugsTotal == c.bugs && result.primaryFound == (0 in pairs)
    ensures IsBreakdown(c, pairs, result.falsePositives, invalidOutput, result.breakdown)
    ensures result.breakdown.ComponentSum() == PerBug(Weight(EligibleWeights(c, findings), Chosen(pairs), c.bugs), c.bugs)
    ensures 0.0 <= result.breakdown.total <= c.weights.Sum()
    ensures TruePositivesAgree(findings, result.scored)
    ensures c.weights.concept > 0.0 || c.weights.file > 0.0 ==> NoneMissed(c.bugs, findings, result.scored)
    ensures NothingInAnyFile(findings) ==> result.bugsMatched == 0 && result.breakdown.ComponentSum() == 0.0
    ensures FromVerdicts(c, findings, result.scored, result.breakdown)
    ensures LeftByCosts(c, result.falsePositives, invalidOutput, result.breakdown)
  {
    hide BestAssignment, Classified, ValidSignals, PerBug, Earned, EligibleWeights, FpPenalty, Share, Weight;
    hide TruePositivesAgree, NoneMissed, NothingInAnyFile, FromVerdicts, LeftByCosts;
    var assignment := AssignFindingsToBugs(c, findings);
    pairs := assignment;
    PairedFindingsDiffer(c, findings, pairs);
    var scored, falsePositives := ClassifyFindings(findings, assignment);
    TallyCountsBugs(findings, pairs, scored);
    EveryPairIsScored(c, findings, pairs, scored);
    var w := c.weights;
    var concept, file, line, severity, fix := ComponentScores(w, assignment, c.bugs);
    var noFp := if falsePositives == 0 then w.noFalsePositives else 0.0;
    var fpPenalty := FpPenalty(c, falsePositives);
    var invalidPenalty := if invalidOutput then c.invalidPenalty else 0.0;
    var total := MaxReal(0.0, concept + file + line + severity + fix + noFp - fpPenalty - invalidPenalty);
    var breakdown := Breakdown(concept, file, line, severity, fix, noFp, fpPenalty, invalidPenalty, total);
    result := ScoreResult(scored, breakdown, 0 in assignment, c.bugs, |assignment|, falsePositives);
    assert |pairs| == |pairs.Keys|;
    EligibleComponentsAreRatios(c, findings, pairs);
    SharesAreMatchingWeight(c, findings, pairs, c.bugs);
    TotalIsBounded(c, pairs, falsePositives, invalidOutput, breakdown);
    assert IsBreakdown(c, pairs, falsePositives, invalidOutput, breakdown);
    hide IsBreakdown, MatchedBugs, TallyOf;
    VerdictsAgree(c, findings, pairs, scored);
    BreakdownOfVerdicts(c, findings, pairs, scored, falsePositives, invalidOutput, breakdown);
    TotalIsLeftByCosts(c, pairs, falsePositives, invalidOutput, breakdown);
    if NothingInAnyFile(findings) {
      NothingInAnyFileEarnsNothing(c, findings, pairs);
      NothingPerBug(c.bugs);
    }
  }

  lemma {:induction false} NothingPerBug(bugs: nat)
    requires bugs >= 1
    ensures PerBug(0.0, bugs) == 0.0
  {
  }

  // ---------------------------------------------------------------- more findings

  /** place[f] is the position in `longer` of finding f. */
  ghost predicate Embeds(findings: seq<FindingSignals>, longer: seq<FindingSignals>, place: seq<int>) {
    && |place| == |findings|
    && (forall f :: 0 <= f < |findings| ==> 0 <= place[f] < |longer| && longer[place[f]].signals == findings[f].signals)
    && forall f, g :: 0 <= f < g < |findings| ==> place[f] != place[g]
  }

  ghost function Moved(pairs: Pairing, place: seq<int>): map<int, int>
    requires forall b :: b in pairs ==> 0 <= pairs[b].0 < |place|
  {
    map b | b in pairs :: place[pairs[b].0]
  }

  lemma {:induction false} MovedWeight(c: Case, findings: seq<FindingSignals>, longer: seq<FindingSignals>,
                                       place: seq<int>, pairs: Pairing)
    requires BestAssignment(c, findings, pairs) && Embeds(findings, longer, place)
    ensures Weight(EligibleWeights(c, longer), Moved(pairs, place), c.bugs)
         == Weight(EligibleWeights(c, findings), Chosen(pairs), c.bugs)
  {
    forall b | 0 <= b < c.bugs
      ensures PairWeight(EligibleWeights(c, longer), Moved(pairs, place), b)
           == PairWeight(EligibleWeights(c, findings), Chosen(pairs), b)
    {
    }
    EqualPairsEqualWeight(EligibleWeights(c, longer), Moved(pairs, place), EligibleWeights(c, findings), Chosen(pairs), c.bugs);
  }

  /** A review that contains all findings of another, in any order, scores at least its components. */
  lemma {:induction false} MoreFindingsNeverLowerComponents(c: Case, findings: seq<FindingSignals>, longer: seq<FindingSignals>,
                                                            place: seq<int>, pairs: Pairing, pairs': Pairing)
    requires c.bugs >= 1 && Embeds(findings, longer, place)
    requires BestAssignment(c, findings, pairs) && BestAssignment(c, longer, pairs')
    ensures AllShares(c.weights, pairs, c.bugs, c.bugs) <= AllShares(c.weights, pairs', c.bugs, c.bugs)
  {
    var weights, m := EligibleWeights(c, longer), Moved(pairs, place);
    PairedFindingsDiffer(c, findings, pairs);
    forall b | b in m ensures 0 <= b < c.bugs && (b, m[b]) in weights {
      assert Eligible(c, findings, b, pairs[b].0) && Eligible(c, longer, b, place[pairs[b].0]);
    }
    forall b, b' | b in m && b' in m && b != b' ensures m[b] != m[b'] {
      assert pairs[b].0 != pairs[b'].0;
      assert Eligible(c, findings, b, pairs[b].0) && Eligible(c, findings, b', pairs[b'].0);
    }
    assert IsMatching(weights, c.bugs, m);
    MovedWeight(c, findings, longer, place, pairs);
    SharesAreMatchingWeight(c, findings, pairs, c.bugs);
    SharesAreMatchingWeight(c, longer, pairs', c.bugs);
    PerBugMonotone(Weight(weights, m, c.bugs), Weight(weights, Chosen(pairs'), c.bugs), c.bugs);
  }

  /** Inserting one finding anywhere never lowers the component scores. */
  lemma {:induction false} AddingAFindingNeverLowersComponents(c: Case, before: seq<FindingSignals>, extra: FindingSignals,
                                                               after: seq<FindingSignals>, pairs: Pairing, pairs': Pairing)
    requires c.bugs >= 1
    requires BestAssignment(c, before + after, pairs) && BestAssignment(c, before + [extra] + after, pairs')
    ensures AllShares(c.weights, pairs, c.bugs, c.bugs) <= AllShares(c.weights, pairs', c.bugs, c.bugs)
  {
    hide BestAssignment;
    var n := |before|;
    var place := seq(n + |after|, f requires 0 <= f < n + |after| => if f < n then f else f + 1);
    MoreFindingsNeverLowerComponents(c, before + after, before + [extra] + after, place, pairs, pairs');
  }

  /** Two reviews that list the same findings in different orders earn the same components. */
  lemma {:induction false} OrderDoesNotMatter(c: Case, findings: seq<FindingSignals>, reordered: seq<FindingSignals>,
                                              there: seq<int>, back: seq<int>, pairs: Pairing, pairs': Pairing)
    requires c.bugs >= 1 && Embeds(findings, reordered, there) && Embeds(reordered, findings, back)
    requires BestAssignment(c, findings, pairs) && BestAssignment(c, reordered, pairs')
    ensures AllShares(c.weights, pairs, c.bugs, c.bugs) == AllShares(c.weights, pairs', c.bugs, c.bugs)
  {
    MoreFindingsNeverLowerComponents(c, findings, reordered, there, pairs, pairs');
    MoreFindingsNeverLowerComponents(c, reordered, findings, back, pairs', pairs);
  }

  // ---------------------------------------------------------------- when a finding costs points

  /** What n false positives cost: the penalty, and the reward for having none. */
  function Cost(c: Case, n: nat): real {
    FpPenalty(c, n) - if n == 0 then c.weights.noFalsePositives else 0.0
  }

  /** One more false positive costs something. */
  predicate NextOneCosts(c: Case, n: nat) {
    (n == 0 && c.weights.noFalsePositives > 0.0) || (c.fpPenalty > 0.0 && n as real * c.fpPenalty < c.fpCap)
  }

  lemma {:induction false} NextFalsePositive(c: Case, n: nat)
    requires ValidCase(c)
    ensures if NextOneCosts(c, n) then Cost(c, n + 1) > Cost(c, n) else Cost(c, n + 1) == Cost(c, n)
  {
    var penalty := n as real * c.fpPenalty;
    assert (n + 1) as real * c.fpPenalty == penalty + c.fpPenalty;
    NonNegativeProduct(n as real, c.fpPenalty);
  }

  /** Between any two reviews of a case: the total falls exactly when there was one and the
      components gain less than the false positives cost. */
  lemma {:induction false} TotalFallsExactly(c: Case, pairs: Pairing, pairs': Pairing, n: nat, n': nat, invalidOutput: bool,
                                             b: Breakdown, b': Breakdown)
    requires c.bugs >= 1 && IsBreakdown(c, pairs, n, invalidOutput, b) && IsBreakdown(c, pairs', n', invalidOutput, b')
    ensures b'.total < b.total <==> b.total > 0.0 && b'.ComponentSum() - b.ComponentSum() < Cost(c, n') - Cost(c, n)
  {
    hide FpPenalty, Share;
  }

  lemma {:induction false} CostGrows(c: Case, n: nat, m: nat)
    requires ValidCase(c) && n <= m
    ensures Cost(c, n) <= Cost(c, m)
    decreases m - n
  {
    if n < m {
      NextFalsePositive(c, n);
      CostGrows(c, n + 1, m);
    }
  }

  /** A review that contains all findings of another, in any places, has a lower total only if it has
      more false positives and the total was above 0. */
  lemma {:induction false} OnlyFalsePositivesLowerTotal(c: Case, findings: seq<FindingSignals>, longer: seq<FindingSignals>,
                                                        place: seq<int>, pairs: Pairing, pairs': Pairing, n: nat, n': nat,
                                                        invalidOutput: bool, b: Breakdown, b': Breakdown)
    requires ValidCase(c) && Embeds(findings, longer, place)
    requires BestAssignment(c, findings, pairs) && BestAssignment(c, longer, pairs')
    requires IsBreakdown(c, pairs, n, invalidOutput, b) && IsBreakdown(c, pairs', n', invalidOutput, b')
    ensures b'.total < b.total ==> n' > n && b.total > 0.0
  {
    MoreFindingsNeverLowerComponents(c, findings, longer, place, pairs, pairs');
    TotalFallsExactly(c, pairs, pairs', n, n', invalidOutput, b, b');
    if n' <= n { CostGrows(c, n', n); }
    hide Cost, BestAssignment, Embeds, Share;
  }

  ghost predicate MatchesNothing(extra: FindingSignals) {
    forall b :: 0 <= b < |extra.signals| ==> PairComponents(extra.signals[b]).None?
  }

  lemma {:induction false} UnmatchedKeepsAssignment(c: Case, findings: seq<FindingSignals>, extra: FindingSignals, pairs: Pairing)
    requires MatchesNothing(extra) && BestAssignment(c, findings, pairs)
    ensures BestAssignment(c, findings + [extra], pairs)
  {
    var longer := findings + [extra];
    forall b, f ensures Eligible(c, longer, b, f) <==> Eligible(c, findings, b, f)
      ensures Eligible(c, findings, b, f) ==> ComponentsOf(c, longer, b, f) == ComponentsOf(c, findings, b, f)
    {
      if 0 <= f < |findings| { assert longer[f] == findings[f]; }
    }
    hide IsMaximum, Eligible, ComponentsOf, WeightedValue;
    var weights, weights' := EligibleWeights(c, findings), EligibleWeights(c, longer);
    forall key: (int, int) ensures key in weights' <==> key in weights
      ensures key in weights ==> weights'[key] == weights[key]
    {
      var (b, f) := key;
      assert (b, f) in weights' <==> (b, f) in weights;
    }
    assert weights' == weights;
  }

  lemma {:induction false} UnmatchedVerdict(c: Case, findings: seq<FindingSignals>, extra: FindingSignals, pairs: Pairing,
                                            scored: seq<Verdict>, scored': seq<Verdict>)
    requires BestAssignment(c, findings, pairs) && |scored| == |findings| && Classified(findings, pairs, scored)
    requires |scored'| == |findings| + 1 && Classified(findings + [extra], pairs, scored')
    ensures scored' == scored + [if extra.acceptable then Neutral else FalsePositive]
  {
    var n := |findings|;
    PairedFindingsDiffer(c, findings, pairs);
    forall b | b in pairs ensures pairs[b].0 < n { assert Eligible(c, findings, b, pairs[b].0); }
    hide BestAssignment;
    forall f | 0 <= f < n ensures scored'[f] == scored[f] {
      assert (findings + [extra])[f] == findings[f];
    }
    assert (findings + [extra])[n] == extra;
  }

  /** A finding that matches no bug lowers the total exactly when the case does not accept it, the
      total was above 0, and the next false positive costs something. */
  lemma {:induction false} UnmatchedFindingLowersTotal(c: Case, findings: seq<FindingSignals>, extra: FindingSignals, pairs: Pairing,
                                                       scored: seq<Verdict>, scored': seq<Verdict>, invalidOutput: bool,
                                                       b: Breakdown, b': Breakdown)
    requires ValidCase(c) && MatchesNothing(extra) && BestAssignment(c, findings, pairs)
    requires |scored| == |findings| && Classified(findings, pairs, scored)
    requires |scored'| == |findings| + 1 && Classified(findings + [extra], pairs, scored')
    requires IsBreakdown(c, pairs, TallyOf(scored).falsePositives, invalidOutput, b)
    requires IsBreakdown(c, pairs, TallyOf(scored').falsePositives, invalidOutput, b')
    ensures BestAssignment(c, findings + [extra], pairs)
    ensures b'.total < b.total <==> !extra.acceptable && b.total > 0.0 && NextOneCosts(c, TallyOf(scored).falsePositives)
    ensures b'.total <= b.total
  {
    UnmatchedKeepsAssignment(c, findings, extra, pairs);
    UnmatchedVerdict(c, findings, extra, pairs, scored, scored');
    assert scored'[..|scored|] == scored;
    var n, n' := TallyOf(scored).falsePositives, TallyOf(scored').falsePositives;
    assert n' == n + if extra.acceptable then 0 else 1;
    hide BestAssignment, Classified, TallyOf;
    TotalFallsExactly(c, pairs, pairs, n, n', invalidOutput, b, b');
    NextFalsePositive(c, n);
  }

  // ---------------------------------------------------------------- execution evidence

  const WEAK_FIX_CAP := 8.0 / 15.0

  function AtLeastOne(n: nat): (m: nat)
    ensures m >= 1
  {
    if n < 1 then 1 else n
  }

  function ExecutedFixRatio(ratio: real, validated: bool): real {
    if validated then 1.0 else MinReal(ratio, WEAK_FIX_CAP)
  }

  /** The same pairs, with the primary bug's fix ratio judged by execution. */
  ghost function Judged(pairs: Pairing, validated: bool): Pairing {
    if 0 in pairs then
      var (f, x) := pairs[0];
      pairs[0 := (f, x.(fix := ExecutedFixRatio(x.fix, validated)))]
    else pairs
  }

  lemma {:induction false} JudgedShare(part: Part, w: ScoreWeights, pairs: Pairing, validated: bool, bugs: nat, k: nat)
    requires bugs >= 1 && 0 in pairs
    ensures
      var x := pairs[0].1.fix;
      Share(part, w, Judged(pairs, validated), bugs, k)
      == Share(part, w, pairs, bugs, k)
         + if part.Fix? && k > 0 then PerBug(Earned(ExecutedFixRatio(x, validated) - x, w.fix), bugs) else 0.0
  {
    var x := pairs[0].1.fix;
    assert Earned(ExecutedFixRatio(x, validated), w.fix) == Earned(x, w.fix) + Earned(ExecutedFixRatio(x, validated) - x, w.fix);
    PerBugAdds(Earned(x, w.fix), Earned(ExecutedFixRatio(x, validated) - x, w.fix), bugs);
    hide PerBug, Earned, ExecutedFixRatio;
    if k > 0 { JudgedShare(part, w, pairs, validated, bugs, k - 1); }
  }

  /** The override equals scoring with the primary bug's fix ratio replaced: full marks for a
      validated repair, at most the weak-fallback fraction otherwise. */
  method ApplyExecutionFixQuality(c: Case, findings: seq<FindingSignals>, result: ScoreResult, validated: bool,
                                  ghost pairs: Pairing, ghost invalidOutput: bool)
    returns (updated: ScoreResult)
    requires ValidCase(c) && ValidFindings(c, findings) && BestAssignment(c, findings, pairs)
    requires |result.scored| == |findings| && Classified(findings, pairs, result.scored)
    requires IsBreakdown(c, pairs, result.falsePositives, invalidOutput, result.breakdown) && result.bugsTotal == c.bugs
    ensures updated == result.(breakdown := updated.breakdown)
    ensures IsBreakdown(c, Judged(pairs, validated), result.falsePositives, invalidOutput, updated.breakdown)
    ensures if validated then updated.breakdown.total >= result.breakdown.total
            else updated.breakdown.total <= result.breakdown.total
    ensures 0.0 <= updated.breakdown.total <= c.weights.Sum()
    ensures LeftByCosts(c, result.falsePositives, invalidOutput, updated.breakdown)
    ensures (forall f :: 0 <= f < |findings| ==> result.scored[f] != TruePositive(0)) ==> updated == result
    ensures forall f :: 0 <= f < |findings| && result.scored[f] == TruePositive(0) ==>
              && |findings[f].signals| > 0
              && FixJudged(c, findings[f].signals[0].fix, validated, result.breakdown, updated.breakdown)
  {
    EligibleComponentsAreRatios(c, findings, pairs);
    TotalIsBounded(c, pairs, result.falsePositives, invalidOutput, result.breakdown);
    PrimaryFinding(c, findings, pairs, result.scored);
    hide BestAssignment, Classified, ValidFindings, ValidComponents, ValidCase, IsBreakdown, Judged, FixJudged, LeftByCosts;
    updated := result;
    var primary := FindPrimary(result.scored);
    if primary < |result.scored| {
      updated := OverrideFix(c, result, findings[primary].signals[0].fix, validated, pairs, invalidOutput);
    } else {
      NotJudged(pairs, validated);
    }
    ScoredCase(c);
    TotalIsLeftByCosts(c, Judged(pairs, validated), result.falsePositives, invalidOutput, updated.breakdown);
  }

  lemma {:induction false} ScoredCase(c: Case)
    requires ValidCase(c)
    ensures c.bugs >= 1
  {
  }

  lemma {:induction false} NotJudged(pairs: Pairing, validated: bool)
    requires 0 !in pairs
    ensures Judged(pairs, validated) == pairs
  {
  }

  /** At most one finding counts for the primary bug, and it is the one paired with it. */
  lemma {:induction false} PrimaryFinding(c: Case, findings: seq<FindingSignals>, pairs: Pairing, scored: seq<Verdict>)
    requires BestAssignment(c, findings, pairs) && Classified(findings, pairs, scored) && |scored| == |findings|
    ensures forall f :: 0 <= f < |scored| && scored[f] == TruePositive(0) ==>
              && 0 in pairs && pairs[0].0 == f && |findings[f].signals| > 0 && pairs[0].1.fix == findings[f].signals[0].fix
    ensures 0 in pairs ==> exists f :: 0 <= f < |scored| && scored[f] == TruePositive(0)
  {
    VerdictsArePairs(c, findings, pairs, scored);
    if 0 in pairs { FractionOfPair(c, findings, pairs, Fix, 0); }
    hide BestAssignment, Classified;
  }

  /** Only the fix score and the total differ.  The primary bug earns the whole fix weight for a
      validated repair, and otherwise what was reported, up to eight fifteenths of it. */
  ghost predicate FixJudged(c: Case, reported: real, validated: bool, b: Breakdown, b': Breakdown) {
    && b' == b.(fix := b'.fix, total := b'.total)
    && (b'.fix - b.fix) * c.bugs as real
       == c.weights.fix * (if validated then 1.0 - reported else if reported <= 8.0 / 15.0 then 0.0 else 8.0 / 15.0 - reported)
  }

  method OverrideFix(c: Case, result: ScoreResult, oldRatio: real, validated: bool,
                     ghost pairs: Pairing, ghost invalidOutput: bool)
    returns (updated: ScoreResult)
    requires ValidCase(c) && ValidComponents(pairs) && 0 in pairs && pairs[0].1.fix == oldRatio
    requires IsBreakdown(c, pairs, result.falsePositives, invalidOutput, result.breakdown) && result.bugsTotal == c.bugs
    ensures updated == result.(breakdown := updated.breakdown)
    ensures IsBreakdown(c, Judged(pairs, validated), result.falsePositives, invalidOutput, updated.breakdown)
    ensures if validated then updated.breakdown.total >= result.breakdown.total
            else updated.breakdown.total <= result.breakdown.total
    ensures 0.0 <= updated.breakdown.total <= c.weights.Sum()
    ensures FixJudged(c, oldRatio, validated, result.breakdown, updated.breakdown)
  {
    TotalIsBounded(c, pairs, result.falsePositives, invalidOutput, result.breakdown);
    assert Part.Fix.Of(pairs[0].1) == oldRatio;
    hide PerBug, Earned, FpPenalty, Share, IsBreakdown, FixJudged;
    updated := result;
    var newRatio := ExecutedFixRatio(oldRatio, validated);
    if newRatio == oldRatio {
      assert Judged(pairs, validated) == pairs;
      FixStays(c, oldRatio, validated, result.breakdown);
    } else {
      var delta := PerBug(Earned(newRatio - oldRatio, c.weights.fix), AtLeastOne(result.bugsTotal));
      var b := result.breakdown.(fix := result.breakdown.fix + delta);
      updated := result.(breakdown := b.(total := TotalOf(b)));
      JudgedBreakdown(c, pairs, validated, result.falsePositives, invalidOutput, result.breakdown, updated.breakdown);
      FixMoves(c, oldRatio, validated, result.breakdown, updated.breakdown);
    }
  }

  lemma {:induction false} FixStays(c: Case, reported: real, validated: bool, b: Breakdown)
    requires ExecutedFixRatio(reported, validated) == reported
    ensures FixJudged(c, reported, validated, b, b)
  {
    assert (b.fix - b.fix) * c.bugs as real == 0.0 == c.weights.fix * 0.0;
  }

  lemma {:induction false} FixMoves(c: Case, reported: real, validated: bool, b: Breakdown, b': Breakdown)
    requires c.bugs >= 1
    requires b' == b.(fix := b.fix + PerBug(Earned(ExecutedFixRatio(reported, validated) - reported, c.weights.fix), c.bugs), total := b'.total)
    ensures FixJudged(c, reported, validated, b, b')
  {
    GainForBugs(ExecutedFixRatio(reported, validated) - reported, c.weights.fix, c.bugs);
    hide PerBug, Earned;
    assert b'.fix - b.fix == PerBug(Earned(ExecutedFixRatio(reported, validated) - reported, c.weights.fix), c.bugs);
  }

  lemma {:induction false} GainForBugs(gain: real, weight: real, bugs: nat)
    requires bugs >= 1
    ensures PerBug(Earned(gain, weight), bugs) * bugs as real == weight * gain
  {
  }

  /** The first finding matched to bug 0, or the length when there is none. */
  method FindPrimary(scored: seq<Verdict>) returns (primary: nat)
    ensures primary <= |scored|
    ensures if primary < |scored| then scored[primary] == TruePositive(0)
            else forall f :: 0 <= f < |scored| ==> scored[f] != TruePositive(0)
  {
    primary := 0;
    while primary < |scored| && scored[primary] != TruePositive(0)
      invariant primary <= |scored|
      invariant forall f :: 0 <= f < primary ==> scored[f] != TruePositive(0)
    {
      primary := primary + 1;
    }
  }

  lemma {:induction false} JudgedBreakdown(c: Case, pairs: Pairing, validated: bool, falsePositives: nat, invalidOutput: bool,
                                           b: Breakdown, b': Breakdown)
    requires ValidCase(c) && ValidComponents(pairs) && 0 in pairs && Ratio(pairs[0].1.fix)
    requires IsBreakdown(c, pairs, falsePositives, invalidOutput, b)
    requires
      var x := pairs[0].1.fix;
      var delta := PerBug(Earned(ExecutedFixRatio(x, validated) - x, c.weights.fix), c.bugs);
      b' == b.(fix := b.fix + delta, total := TotalOf(b.(fix := b.fix + delta)))
    ensures IsBreakdown(c, Judged(pairs, validated), falsePositives, invalidOutput, b')
    ensures if validated then b'.total >= b.total else b'.total <= b.total
    ensures 0.0 <= b'.total <= c.weights.Sum()
  {
    var x, w := pairs[0].1.fix, c.weights;
    var gain := ExecutedFixRatio(x, validated) - x;
    JudgedShare(Concept, w, pairs, validated, c.bugs, c.bugs);
    JudgedShare(File, w, pairs, validated, c.bugs, c.bugs);
    JudgedShare(Line, w, pairs, validated, c.bugs, c.bugs);
    JudgedShare(Severity, w, pairs, validated, c.bugs, c.bugs);
    JudgedShare(Fix, w, pairs, validated, c.bugs, c.bugs);
    SignOfGain(gain, w.fix, c.bugs);
    assert ValidComponents(Judged(pairs, validated)) by {
      forall k, part: Part | k in pairs ensures Ratio(part.Of(Judged(pairs, validated)[k].1)) {
        assert Ratio(part.Of(pairs[k].1));
      }
    }
    hide PerBug, Earned, FpPenalty, Share, ExecutedFixRatio;
    TotalIsBounded(c, Judged(pairs, validated), falsePositives, invalidOutput, b');
  }

  lemma {:induction false} SignOfGain(gain: real, weight: real, bugs: nat)
    requires bugs >= 1 && weight >= 0.0
    ensures gain >= 0.0 ==> PerBug(Earned(gain, weight), bugs) >= 0.0
    ensures gain <= 0.0 ==> PerBug(Earned(gain, weight), bugs) <= 0.0
  {
    if gain >= 0.0 {
      assert gain * weight >= 0.0;
      PerBugMonotone(0.0, gain * weight, bugs);
    }
    if gain <= 0.0 {
      assert gain * weight <= 0.0;
      PerBugMonotone(gain * weight, 0.0, bugs);
    }
  }
}
