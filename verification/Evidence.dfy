/** From one reviewed case to the published rates: the decision logic of
    arena/benchmark/benchmark_runner.py:177-507 and arena/scoring/deterministic_scorer.py.
    What applying the patch, running the tests and running the validators report is an input. */
module Evidence {
  import opened Common
  import opened Scoring
  import opened Matching
  import Metrics

  datatype DetectionRequirement = AllBugs | AtLeastOne

  /** The parts of a case that decide how it is executed and judged. */
  datatype Gate =
    Gate(patchRequired: bool, testsRequired: bool, validatorCount: nat, maxFalsePositives: nat,
         detection: DetectionRequirement, runTests: bool, hasTestCommand: bool, hasTestsDir: bool)
  {
    predicate TestsRequired() { runTests || testsRequired }

    predicate Eligible() { TestsRequired() || validatorCount > 0 }
  }

  datatype Patch = Patch(provided: bool, applied: bool, unsafePaths: bool, touchedProtected: bool)

  datatype TestOutcome = TestOutcome(ran: bool, passed: bool)

  /** What the outside world answers when asked: the test executor, the comparison of the hidden
      tests before and after, and the structural validators. */
  datatype World = World(tests: TestOutcome, testsChanged: bool, validators: seq<bool>)

  /** What one evaluation is given: the review's findings and whether its output was invalid, the
      result of applying its patch, and the world. */
  datatype Inputs = Inputs(signals: seq<FindingSignals>, invalidOutput: bool, patch: Patch, world: World)

  datatype Reason =
    | DetectionFailed | IncompleteBugDetection | UnsafePaths | TouchedProtected
    | PatchMissing | PatchApplyFailed | TestsFailed | StructuralFailed | TooManyFalsePositives
    | NoExecutionEvidence | TestIntegrityViolation | ExecutionError

  datatype DeterministicScore =
    DeterministicScore(detected: bool, patchProvided: bool, patchApplied: bool,
                       testsRan: bool, testsPassed: Option<bool>, structuralRan: bool, structuralPassed: Option<bool>,
                       truePositives: nat, falsePositives: nat, falseNegatives: nat,
                       pass: bool, eligible: bool, reasons: seq<Reason>)

  datatype CaseStatus =
    CompleteRepair | PartialRepair | DetectedButUnrepaired | NoDetection | Tampering | Inconclusive

  datatype FindingStatus = NeutralFinding | Unsupported | RepairValidated | FoundButUnrepaired

  datatype BugRepair = BugRepair(detected: bool, repaired: bool)

  datatype CaseResult =
    CaseResult(review: ScoreResult, score: Option<DeterministicScore>, status: Option<CaseStatus>,
               repairs: seq<BugRepair>, findings: seq<FindingStatus>)

  // ---------------------------------------------------------------- what gets executed

  /** Tests run only on an applied patch, and only when the case both asks for them and says how. */
  function Executed(g: Gate, patch: Patch, w: World): Option<TestOutcome> {
    if patch.applied && g.runTests && g.hasTestCommand then Some(w.tests) else None
  }

  function Tampered(g: Gate, patch: Patch, w: World): bool {
    Executed(g, patch, w).Some? && g.hasTestsDir && w.testsChanged
  }

  /** One verdict per configured validator, and only on an applied patch. */
  function Validated(g: Gate, patch: Patch, w: World): seq<bool>
    requires |w.validators| == g.validatorCount
  {
    if patch.applied && g.validatorCount > 0 then w.validators else []
  }

  // ---------------------------------------------------------------- deterministic score

  /** Whether the tests passed; None when they did not run. */
  ghost function TestsPassed(tests: Option<TestOutcome>): Option<bool> {
    if tests.Some? && tests.value.ran then Some(tests.value.passed) else None
  }

  ghost function StructuralPassed(validators: seq<bool>): Option<bool> {
    if validators == [] then None else Some(AllTrue(validators))
  }

  /** When the scorer reports each failure reason; the last two come from elsewhere. */
  predicate Holds(r: Reason, g: Gate, review: ScoreResult, patch: Patch,
                  testsPassed: Option<bool>, structuralPassed: Option<bool>) {
    match r
    case DetectionFailed => !review.primaryFound
    case IncompleteBugDetection =>
      review.primaryFound && g.detection.AllBugs? && !(review.bugsTotal > 0 && review.bugsMatched >= review.bugsTotal)
    case UnsafePaths => patch.unsafePaths
    case TouchedProtected => patch.touchedProtected
    case PatchMissing => g.patchRequired && !patch.provided
    case PatchApplyFailed => g.patchRequired && !patch.applied
    case TestsFailed => g.TestsRequired() && testsPassed != Some(true)
    case StructuralFailed => g.validatorCount > 0 && structuralPassed != Some(true)
    case TooManyFalsePositives => review.falsePositives > g.maxFalsePositives
    case NoExecutionEvidence => g.patchRequired && !g.Eligible()
    case TestIntegrityViolation => false
    case ExecutionError => false
  }

  ghost predicate Reported(reasons: seq<Reason>, r: Reason) { r in reasons }

  ghost predicate ListsExactly(reasons: seq<Reason>, g: Gate, review: ScoreResult, patch: Patch,
                               testsPassed: Option<bool>, structuralPassed: Option<bool>) {
    forall r :: Reported(reasons, r) <==> Holds(r, g, review, patch, testsPassed, structuralPassed)
  }

  ghost predicate IsScore(g: Gate, review: ScoreResult, patch: Patch, tests: Option<TestOutcome>,
                          validators: seq<bool>, s: DeterministicScore) {
    && ListsExactly(s.reasons, g, review, patch, TestsPassed(tests), StructuralPassed(validators))
    && s.pass == (s.reasons == [])
    && s.eligible == g.Eligible()
    && s.detected == review.primaryFound
    && s.patchProvided == patch.provided && s.patchApplied == patch.applied
    && s.testsRan == (tests.Some? && tests.value.ran)
    && s.testsPassed == TestsPassed(tests)
    && s.structuralRan == (validators != [])
    && s.structuralPassed == StructuralPassed(validators)
    && s.truePositives == review.bugsMatched && s.falsePositives == review.falsePositives
    && s.falseNegatives == (if review.bugsMatched <= review.bugsTotal then review.bugsTotal - review.bugsMatched else 0)
  }

  method EveryValidatorPassed(validators: seq<bool>) returns (all: bool)
    ensures all == AllTrue(validators)
  {
    for i := 0 to |validators|
      invariant forall j :: 0 <= j < i ==> validators[j]
    {
      if !validators[i] { return false; }
    }
    return true;
  }

  /** The order in which the code appends the reasons. */
  const CHECK_ORDER := [DetectionFailed, IncompleteBugDetection, UnsafePaths, TouchedProtected, PatchMissing,
                        PatchApplyFailed, TestsFailed, StructuralFailed, TooManyFalsePositives, NoExecutionEvidence]

  /** The reasons among `checks` whose condition holds, in order. */
  function Reasons(checks: seq<Reason>, g: Gate, review: ScoreResult, patch: Patch,
                   testsPassed: Option<bool>, structuralPassed: Option<bool>): seq<Reason> {
    if checks == [] then []
    else
      (if Holds(checks[0], g, review, patch, testsPassed, structuralPassed) then [checks[0]] else [])
      + Reasons(checks[1..], g, review, patch, testsPassed, structuralPassed)
  }

  lemma {:induction false} ReasonsAreThoseThatHold(r: Reason, checks: seq<Reason>, g: Gate, review: ScoreResult, patch: Patch,
                                                   testsPassed: Option<bool>, structuralPassed: Option<bool>)
    ensures Reported(Reasons(checks, g, review, patch, testsPassed, structuralPassed), r)
            <==> r in checks && Holds(r, g, review, patch, testsPassed, structuralPassed)
  {
    if checks != [] {
      ReasonsAreThoseThatHold(r, checks[1..], g, review, patch, testsPassed, structuralPassed);
      assert checks == [checks[0]] + checks[1..];
    }
  }

  lemma {:induction false} AllReasonsListed(g: Gate, review: ScoreResult, patch: Patch, testsPassed: Option<bool>, structuralPassed: Option<bool>)
    ensures ListsExactly(Reasons(CHECK_ORDER, g, review, patch, testsPassed, structuralPassed),
                         g, review, patch, testsPassed, structuralPassed)
  {
    hide Reasons, Reported;
    forall r
      ensures Reported(Reasons(CHECK_ORDER, g, review, patch, testsPassed, structuralPassed), r)
              <==> Holds(r, g, review, patch, testsPassed, structuralPassed)
    {
      ReasonsAreThoseThatHold(r, CHECK_ORDER, g, review, patch, testsPassed, structuralPassed);
    }
  }

  method ScoreDeterministicCase(g: Gate, review: ScoreResult, patch: Patch, tests: Option<TestOutcome>, validators: seq<bool>)
    returns (s: DeterministicScore)
    ensures IsScore(g, review, patch, tests, validators, s)
    ensures s.reasons == Reasons(CHECK_ORDER, g, review, patch, TestsPassed(tests), StructuralPassed(validators))
  {
    var falseNegatives := if review.bugsTotal > review.bugsMatched then review.bugsTotal - review.bugsMatched else 0;
    var structuralRan := validators != [];
    var allPassed := EveryValidatorPassed(validators);
    var structuralPassed := if structuralRan then Some(allPassed) else None;
    var testsRan := tests.Some? && tests.value.ran;
    var testsPassed := if testsRan then Some(tests.value.passed) else None;
    var reasons := Reasons(CHECK_ORDER, g, review, patch, testsPassed, structuralPassed);
    AllReasonsListed(g, review, patch, testsPassed, structuralPassed);
    hide ListsExactly, Reasons;
    s := DeterministicScore(review.primaryFound, patch.provided, patch.applied, testsRan, testsPassed,
                            structuralRan, structuralPassed, review.bugsMatched, review.falsePositives, falseNegatives,
                            reasons == [], g.Eligible(), reasons);
  }

  // ---------------------------------------------------------------- attribution

  /** Reasons that withdraw the verdict "the repair works". */
  predicate Blocking(r: Reason) {
    r.PatchMissing? || r.PatchApplyFailed? || r.TestsFailed? || r.StructuralFailed?
    || r.TestIntegrityViolation? || r.NoExecutionEvidence?
  }

  /** The stored score: tampering turns a pass into a failure. */
  function FoldTampering(s: DeterministicScore, tampered: bool): DeterministicScore {
    if tampered then s.(pass := false, reasons := s.reasons + [TestIntegrityViolation]) else s
  }

  ghost predicate RepairWorks(s: DeterministicScore) {
    s.patchApplied && forall r :: r in s.reasons ==> !Blocking(r)
  }

  function FindingStatusOf(v: Verdict, validated: bool): FindingStatus {
    match v
    case Neutral => NeutralFinding
    case FalsePositive => Unsupported
    case TruePositive(_) => if validated then RepairValidated else FoundButUnrepaired
  }

  function StatusOf(s: DeterministicScore, validated: bool, tampered: bool, detected: nat, total: nat): CaseStatus {
    if tampered then Tampering
    else if !(s.testsRan || s.structuralRan) then Inconclusive
    else if validated && detected == total then CompleteRepair
    else if validated then PartialRepair
    else if detected > 0 then DetectedButUnrepaired
    else NoDetection
  }

  ghost function DetectedCount(repairs: seq<BugRepair>): nat {
    if repairs == [] then 0
    else DetectedCount(repairs[..|repairs| - 1]) + if repairs[|repairs| - 1].detected then 1 else 0
  }

  lemma {:induction false} DetectedCountBound(repairs: seq<BugRepair>)
    ensures DetectedCount(repairs) <= |repairs|
    ensures DetectedCount(repairs) == |repairs| <==> forall b :: 0 <= b < |repairs| ==> repairs[b].detected
  {
    if repairs != [] {
      var rest := repairs[..|repairs| - 1];
      DetectedCountBound(rest);
      assert forall b :: 0 <= b < |rest| ==> rest[b] == repairs[b];
    }
  }

  /** Every bug carries its own detection and the verdict shared by the whole case. */
  ghost predicate Attributed(bugs: nat, scored: seq<Verdict>, s: DeterministicScore, validated: bool, tampered: bool,
                             repairs: seq<BugRepair>, findings: seq<FindingStatus>, status: CaseStatus) {
    && |repairs| == bugs
    && (forall b :: 0 <= b < bugs ==> repairs[b] == BugRepair(b in MatchedBugs(scored), validated))
    && |findings| == |scored|
    && (forall f :: 0 <= f < |scored| ==> findings[f] == FindingStatusOf(scored[f], validated))
    && status == StatusOf(s, validated, tampered, DetectedCount(repairs), bugs)
  }

  /** When each status is given: `all` and `none` say whether all bugs were detected, or none. */
  ghost predicate StatusFollows(status: CaseStatus, tampered: bool, ran: bool, works: bool, all: bool, none: bool) {
    && (status.Tampering? <==> tampered)
    && (status.Inconclusive? <==> !tampered && !ran)
    && (status.CompleteRepair? <==> !tampered && ran && works && all)
    && (status.PartialRepair? <==> !tampered && ran && works && !all)
    && (status.DetectedButUnrepaired? <==> !tampered && ran && !works && !none)
    && (status.NoDetection? <==> !tampered && ran && !works && none)
  }

  /** What each finding is stamped with. */
  ghost predicate FindingsFollow(scored: seq<Verdict>, findings: seq<FindingStatus>, works: bool) {
    && |findings| == |scored|
    && forall f :: 0 <= f < |scored| ==>
         && (findings[f].NeutralFinding? <==> scored[f].Neutral?)
         && (findings[f].Unsupported? <==> scored[f].FalsePositive?)
         && (findings[f].RepairValidated? <==> scored[f].TruePositive? && works)
         && (findings[f].FoundButUnrepaired? <==> scored[f].TruePositive? && !works)
  }

  /** A bug counts as detected exactly when some finding is a true positive for it. */
  ghost predicate RepairsFollow(bugs: nat, scored: seq<Verdict>, repairs: seq<BugRepair>, works: bool) {
    && |repairs| == bugs
    && forall b :: 0 <= b < bugs ==>
         && repairs[b].repaired == works
         && (repairs[b].detected <==> exists f :: 0 <= f < |scored| && scored[f] == TruePositive(b))
  }

  lemma {:induction false} NoneDetected(repairs: seq<BugRepair>)
    ensures DetectedCount(repairs) == 0 <==> forall b :: 0 <= b < |repairs| ==> !repairs[b].detected
  {
    if repairs != [] {
      var rest := repairs[..|repairs| - 1];
      NoneDetected(rest);
      assert forall b :: 0 <= b < |rest| ==> rest[b] == repairs[b];
    }
  }

  lemma {:induction false} MatchedExactly(scored: seq<Verdict>, b: int)
    ensures b in MatchedBugs(scored) <==> exists f :: 0 <= f < |scored| && scored[f] == TruePositive(b)
  {
    if b in MatchedBugs(scored) {
      var f :| 0 <= f < |scored| && scored[f].TruePositive? && scored[f].bug == b;
      assert scored[f] == TruePositive(b);
    }
  }

  lemma {:induction false} RepairsAttributed(bugs: nat, scored: seq<Verdict>, validated: bool, repairs: seq<BugRepair>)
    requires |repairs| == bugs && forall b :: 0 <= b < bugs ==> repairs[b] == BugRepair(b in MatchedBugs(scored), validated)
    ensures RepairsFollow(bugs, scored, repairs, validated)
  {
    forall b | 0 <= b < bugs ensures repairs[b].detected <==> exists f :: 0 <= f < |scored| && scored[f] == TruePositive(b) {
      MatchedExactly(scored, b);
    }
  }

  lemma {:induction false} AttributedFollows(bugs: nat, scored: seq<Verdict>, s: DeterministicScore, validated: bool, tampered: bool,
                                             repairs: seq<BugRepair>, findings: seq<FindingStatus>, status: CaseStatus)
    requires Attributed(bugs, scored, s, validated, tampered, repairs, findings, status)
    ensures RepairsFollow(bugs, scored, repairs, validated) && FindingsFollow(scored, findings, validated)
    ensures StatusFollows(status, tampered, s.testsRan || s.structuralRan, validated,
                          forall b :: 0 <= b < bugs ==> repairs[b].detected, forall b :: 0 <= b < bugs ==> !repairs[b].detected)
  {
    hide RepairsFollow, MatchedBugs;
    DetectedCountBound(repairs);
    NoneDetected(repairs);
    RepairsAttributed(bugs, scored, validated, repairs);
  }

  method AttributeEvidence(bugs: nat, scored: seq<Verdict>, s: DeterministicScore, validated: bool, tampered: bool)
    returns (repairs: seq<BugRepair>, findings: seq<FindingStatus>, status: CaseStatus)
    ensures Attributed(bugs, scored, s, validated, tampered, repairs, findings, status)
    ensures RepairsFollow(bugs, scored, repairs, validated) && FindingsFollow(scored, findings, validated)
    ensures StatusFollows(status, tampered, s.testsRan || s.structuralRan, validated,
                          forall b :: 0 <= b < bugs ==> repairs[b].detected, forall b :: 0 <= b < bugs ==> !repairs[b].detected)
  {
    var matched := set f | 0 <= f < |scored| && scored[f].TruePositive? :: scored[f].bug;
    repairs, findings := [], [];
    var detected := 0;
    for b := 0 to bugs
      invariant |repairs| == b && detected == DetectedCount(repairs)
      invariant forall c :: 0 <= c < b ==> repairs[c] == BugRepair(c in matched, validated)
    {
      ghost var before := repairs;
      repairs := repairs + [BugRepair(b in matched, validated)];
      assert repairs[..b] == before;
      if b in matched { detected := detected + 1; }
    }
    for f := 0 to |scored|
      invariant |findings| == f
      invariant forall e :: 0 <= e < f ==> findings[e] == FindingStatusOf(scored[e], validated)
    {
      findings := findings + [FindingStatusOf(scored[f], validated)];
    }
    status := StatusOf(s, validated, tampered, detected, bugs);
    AttributedFollows(bugs, scored, s, validated, tampered, repairs, findings, status);
  }

  method AnyBlocking(reasons: seq<Reason>) returns (any: bool)
    ensures any <==> exists r :: r in reasons && Blocking(r)
  {
    for i := 0 to |reasons|
      invariant forall r :: r in reasons[..i] ==> !Blocking(r)
    {
      if Blocking(reasons[i]) { return true; }
      assert reasons[..i + 1] == reasons[..i] + [reasons[i]];
    }
    assert reasons[..|reasons|] == reasons;
    return false;
  }

  // ---------------------------------------------------------------- one case, end to end

  /** The review of these findings: a best pairing, the verdicts and counts that follow from it, and
      the breakdown with the primary bug's fix ratio judged by execution. */
  ghost predicate IsReview(c: Case, signals: seq<FindingSignals>, invalidOutput: bool, validated: bool,
                           pairs: Pairing, review: ScoreResult) {
    && c.bugs >= 1 && BestAssignment(c, signals, pairs)
    && |review.scored| == |signals| && Classified(signals, pairs, review.scored)
    && review.bugsTotal == c.bugs && review.bugsMatched == |pairs| && review.primaryFound == (0 in pairs)
    && review.falsePositives == TallyOf(review.scored).falsePositives
    && IsBreakdown(c, Judged(pairs, validated), review.falsePositives, invalidOutput, review.breakdown)
  }

  /** r is what evaluating the case reports on these inputs: a review of the findings, and everything
      else as it follows from what the world answered. */
  ghost predicate IsEvaluation(g: Gate, c: Case, x: Inputs, r: CaseResult) {
    && |x.world.validators| == g.validatorCount
    && r.score.Some? && r.status.Some?
    && (exists pairs :: IsReview(c, x.signals, x.invalidOutput, RepairWorks(r.score.value), pairs, r.review))
    && exists raw :: IsVerdict(g, c, x, raw, r)
  }

  /** The score before tampering is folded in, and what follows from it. */
  ghost predicate IsVerdict(g: Gate, c: Case, x: Inputs, raw: DeterministicScore, r: CaseResult)
    requires |x.world.validators| == g.validatorCount && r.score.Some? && r.status.Some?
  {
    && IsScore(g, r.review, x.patch, Executed(g, x.patch, x.world), Validated(g, x.patch, x.world), raw)
    && r.score.value == FoldTampering(raw, Tampered(g, x.patch, x.world))
    && Attributed(c.bugs, r.review.scored, r.score.value, RepairWorks(r.score.value), Tampered(g, x.patch, x.world),
                  r.repairs, r.findings, r.status.value)
  }

  /** The counts of a review, without its pairing and its breakdown. */
  ghost predicate FromScorer(bugs: nat, review: ScoreResult) {
    && review.bugsTotal == bugs
    && (forall b :: b in MatchedBugs(review.scored) ==> 0 <= b < bugs)
    && review.bugsMatched == |MatchedBugs(review.scored)| == TallyOf(review.scored).matched
    && review.primaryFound == (0 in MatchedBugs(review.scored))
    && review.falsePositives == TallyOf(review.scored).falsePositives
  }

  lemma {:induction false} ReviewCounts(c: Case, signals: seq<FindingSignals>, invalidOutput: bool, validated: bool,
                                        pairs: Pairing, review: ScoreResult)
    requires IsReview(c, signals, invalidOutput, validated, pairs, review)
    ensures FromScorer(c.bugs, review)
  {
    hide IsBreakdown;
    EveryPairIsScored(c, signals, pairs, review.scored);
    TallyCountsBugs(signals, pairs, review.scored);
    PairsAreInRange(c, signals, pairs);
    assert |pairs| == |pairs.Keys|;
  }

  lemma {:induction false} EvaluationCounts(g: Gate, c: Case, x: Inputs, r: CaseResult)
    requires IsEvaluation(g, c, x, r)
    ensures FromScorer(c.bugs, r.review)
  {
    var pairs :| IsReview(c, x.signals, x.invalidOutput, RepairWorks(r.score.value), pairs, r.review);
    ReviewCounts(c, x.signals, x.invalidOutput, RepairWorks(r.score.value), pairs, r.review);
  }

  /** The result recorded for a case whose evaluation raised an exception. */
  function FailedCase(g: Gate, bugs: nat): CaseResult {
    CaseResult(
      ScoreResult([], Breakdown(0.0, 0.0, 0.0, 0.0, 0.0, 0.0, 0.0, 0.0, 0.0), false, bugs, 0, 0),
      Some(DeterministicScore(false, false, false, false, None, false, None, 0, 0, bugs, false, g.Eligible(), [ExecutionError])),
      None, [], [])
  }

  /** Evaluation outside review mode.  The final review carries the breakdown that execution
      evidence corrected. */
  method EvaluateCase(g: Gate, c: Case, x: Inputs) returns (r: CaseResult)
    requires ValidCase(c) && ValidFindings(c, x.signals) && |x.world.validators| == g.validatorCount
    ensures IsEvaluation(g, c, x, r)
    ensures 0.0 <= r.review.breakdown.total <= c.weights.Sum()
    ensures TruePositivesAgree(x.signals, r.review.scored)
    ensures c.weights.concept > 0.0 || c.weights.file > 0.0 ==> NoneMissed(c.bugs, x.signals, r.review.scored)
    ensures StatusesFollow(g, c, x, r) && ReasonsFollow(g, c, x, r)
    ensures FactsFollow(g, c, x, r) && (r.score.value.pass <==> Passes(g, c, x, r.review))
  {
    hide Holds, TallyOf, MatchedBugs, BestAssignment, Classified, IsBreakdown, ListsExactly, Attributed, Judged;
    hide RepairsFollow, FindingsFollow, StatusFollows, TruePositivesAgree, NoneMissed, NothingInAnyFile, FromVerdicts, LeftByCosts, FixJudged;
    var review;
    ghost var pairs;
    review, pairs := ScoreCase(c, x.signals, x.invalidOutput);
    var tests := Executed(g, x.patch, x.world);
    var tampered := Tampered(g, x.patch, x.world);
    var validators := Validated(g, x.patch, x.world);
    var raw := ScoreDeterministicCase(g, review, x.patch, tests, validators);
    var score := FoldTampering(raw, tampered);
    var blocked := AnyBlocking(score.reasons);
    var validated := score.patchApplied && !blocked;
    var updated := ApplyExecutionFixQuality(c, x.signals, review, validated, pairs, x.invalidOutput);
    BreakdownIsNotJudged(g, review, updated, x.patch, tests, validators, raw);
    hide FoldTampering, Executed, Tampered, Validated, IsScore;
    var repairs, findings, status := AttributeEvidence(c.bugs, updated.scored, score, validated, tampered);
    r := CaseResult(updated, Some(score), Some(status), repairs, findings);
    assert IsReview(c, x.signals, x.invalidOutput, validated, pairs, updated);
    assert IsVerdict(g, c, x, raw, r);
    hide StatusesFollow, ReasonsFollow, FactsFollow, Passes, RepairWorks;
    RecordedFacts(g, c, x, r);
    StatusesExactly(g, c, x, r);
    ReasonsExactly(g, c, x, r);
    PassesExactly(g, c, x, r);
  }

  lemma {:induction false} PairsAreInRange(c: Case, signals: seq<FindingSignals>, pairs: Pairing)
    requires BestAssignment(c, signals, pairs)
    ensures forall b :: b in pairs ==> 0 <= b < c.bugs
  {
    assert forall b :: b in pairs ==> b in Chosen(pairs);
  }

  /** The score does not depend on the breakdown that execution evidence corrects. */
  lemma {:induction false} BreakdownIsNotJudged(g: Gate, review: ScoreResult, updated: ScoreResult, patch: Patch,
                                                tests: Option<TestOutcome>, validators: seq<bool>, s: DeterministicScore)
    requires updated == review.(breakdown := updated.breakdown)
    requires IsScore(g, review, patch, tests, validators, s)
    ensures IsScore(g, updated, patch, tests, validators, s)
  {
    forall x
      ensures Holds(x, g, updated, patch, TestsPassed(tests), StructuralPassed(validators))
              <==> Holds(x, g, review, patch, TestsPassed(tests), StructuralPassed(validators))
    {}
  }

  // ---------------------------------------------------------------- what a validated case implies

  ghost function UpTo(n: nat): (s: set<int>)
    ensures forall b :: b in s <==> 0 <= b < n
    ensures |s| == n
  {
    if n == 0 then {} else UpTo(n - 1) + {n - 1}
  }

  lemma {:induction false} FullSubset(s: set<int>, t: set<int>)
    requires s <= t
    ensures |s| <= |t|
    ensures |s| == |t| ==> s == t
  {
    assert t == s + (t - s);
    assert |t| == |s| + |t - s|;
  }

  /** One-to-one matching: as many matched bugs as seeded bugs means every bug was detected. */
  lemma {:induction false} AllBugsDetected(bugs: nat, review: ScoreResult, repairs: seq<BugRepair>, validated: bool)
    requires FromScorer(bugs, review)
    requires |repairs| == bugs && forall b :: 0 <= b < bugs ==> repairs[b] == BugRepair(b in MatchedBugs(review.scored), validated)
    ensures review.bugsMatched <= bugs
    ensures DetectedCount(repairs) == bugs <==> review.bugsMatched == bugs
  {
    var matched := MatchedBugs(review.scored);
    FullSubset(matched, UpTo(bugs));
    DetectedCountBound(repairs);
    if DetectedCount(repairs) == bugs {
      assert forall b :: b in UpTo(bugs) ==> b in matched;
      assert matched == UpTo(bugs);
    }
  }

  // ---------------------------------------------------------------- in terms of the inputs

  /** Tests are executed on an applied patch, where the case runs tests and has a command for them. */
  ghost predicate TestsExecuted(g: Gate, x: Inputs) { x.patch.applied && g.runTests && g.hasTestCommand }

  ghost predicate HiddenTestsChanged(g: Gate, x: Inputs) { TestsExecuted(g, x) && g.hasTestsDir && x.world.testsChanged }

  ghost predicate AnythingRan(g: Gate, x: Inputs) {
    (TestsExecuted(g, x) && x.world.tests.ran) || (x.patch.applied && g.validatorCount > 0)
  }

  /** Every gate that the case asks for ran and passed. */
  ghost predicate GatesPassed(g: Gate, x: Inputs) {
    && (g.runTests || g.testsRequired ==> TestsExecuted(g, x) && x.world.tests.ran && x.world.tests.passed)
    && (g.validatorCount > 0 ==> x.patch.applied && forall v :: v in x.world.validators ==> v)
  }

  ghost predicate HasGate(g: Gate) { g.runTests || g.testsRequired || g.validatorCount > 0 }

  /** The repair works: the patch applied, the hidden tests stayed as they were, the gates passed,
      and a required patch was provided and is checked by some gate. */
  ghost predicate Repaired(g: Gate, x: Inputs) {
    && x.patch.applied && !HiddenTestsChanged(g, x) && GatesPassed(g, x)
    && (g.patchRequired ==> x.patch.provided && HasGate(g))
  }

  /** The case passes. */
  ghost predicate Passes(g: Gate, c: Case, x: Inputs, review: ScoreResult) {
    && review.primaryFound && (g.detection.AllBugs? ==> review.bugsMatched == c.bugs)
    && review.falsePositives <= g.maxFalsePositives
    && !x.patch.unsafePaths && !x.patch.touchedProtected
    && (g.patchRequired ==> x.patch.provided && x.patch.applied && HasGate(g))
    && GatesPassed(g, x) && !HiddenTestsChanged(g, x)
  }

  /** The condition of each failure reason. */
  ghost predicate GivenFor(r: Reason, g: Gate, c: Case, x: Inputs, review: ScoreResult) {
    match r
    case DetectionFailed => !review.primaryFound
    case IncompleteBugDetection => review.primaryFound && g.detection.AllBugs? && review.bugsMatched < c.bugs
    case UnsafePaths => x.patch.unsafePaths
    case TouchedProtected => x.patch.touchedProtected
    case PatchMissing => g.patchRequired && !x.patch.provided
    case PatchApplyFailed => g.patchRequired && !x.patch.applied
    case TestsFailed => (g.runTests || g.testsRequired) && !(TestsExecuted(g, x) && x.world.tests.ran && x.world.tests.passed)
    case StructuralFailed => g.validatorCount > 0 && !(x.patch.applied && forall v :: v in x.world.validators ==> v)
    case TooManyFalsePositives => review.falsePositives > g.maxFalsePositives
    case NoExecutionEvidence => g.patchRequired && !HasGate(g)
    case TestIntegrityViolation => HiddenTestsChanged(g, x)
    case ExecutionError => false
  }

  /** What tests and validators answer, in terms of the inputs. */
  lemma {:induction false} Answers(g: Gate, x: Inputs)
    requires |x.world.validators| == g.validatorCount
    ensures
      var tests, validators := Executed(g, x.patch, x.world), Validated(g, x.patch, x.world);
      && (TestsPassed(tests) == Some(true) <==> TestsExecuted(g, x) && x.world.tests.ran && x.world.tests.passed)
      && ((tests.Some? && tests.value.ran) <==> TestsExecuted(g, x) && x.world.tests.ran)
      && (g.validatorCount > 0 ==>
            (StructuralPassed(validators) == Some(true) <==> x.patch.applied && forall v :: v in x.world.validators ==> v))
      && (validators != [] <==> x.patch.applied && g.validatorCount > 0)
      && (Tampered(g, x.patch, x.world) <==> HiddenTestsChanged(g, x))
  {
    var all := x.world.validators;
    assert (forall v :: v in all ==> v) <==> AllTrue(all) by {
      if forall v :: v in all ==> v { assert forall i :: 0 <= i < |all| ==> all[i] in all; }
    }
  }

  /** The reasons on record are exactly those whose condition the inputs meet. */
  ghost predicate ReasonsFollow(g: Gate, c: Case, x: Inputs, r: CaseResult)
    requires r.score.Some?
  {
    forall reason: Reason :: Reported(r.score.value.reasons, reason) <==> GivenFor(reason, g, c, x, r.review)
  }

  lemma {:induction false} ReasonsExactly(g: Gate, c: Case, x: Inputs, r: CaseResult)
    requires IsEvaluation(g, c, x, r)
    ensures ReasonsFollow(g, c, x, r)
  {
    hide IsReview, Attributed, Executed, Validated, Tampered, TestsExecuted, HiddenTestsChanged;
    EvaluationCounts(g, c, x, r);
    MatchedFit(c.bugs, r.review);
    var raw :| IsVerdict(g, c, x, raw, r);
    Answers(g, x);
    hide FromScorer, IsEvaluation, TestsPassed, StructuralPassed;
    forall reason: Reason ensures Reported(r.score.value.reasons, reason) <==> GivenFor(reason, g, c, x, r.review) {
      assert Reported(raw.reasons, reason) <==>
          Holds(reason, g, r.review, x.patch, TestsPassed(Executed(g, x.patch, x.world)), StructuralPassed(Validated(g, x.patch, x.world)));
    }
  }

  lemma {:induction false} MatchedFit(bugs: nat, review: ScoreResult)
    requires FromScorer(bugs, review)
    ensures review.bugsTotal == bugs && review.bugsMatched <= bugs
  {
    FullSubset(MatchedBugs(review.scored), UpTo(bugs));
  }

  lemma {:induction false} NoneBlocking(s: DeterministicScore)
    ensures RepairWorks(s) <==>
              && s.patchApplied
              && !Reported(s.reasons, PatchMissing) && !Reported(s.reasons, PatchApplyFailed) && !Reported(s.reasons, TestsFailed)
              && !Reported(s.reasons, StructuralFailed) && !Reported(s.reasons, TestIntegrityViolation)
              && !Reported(s.reasons, NoExecutionEvidence)
  {
  }

  lemma {:induction false} NoneReported(reasons: seq<Reason>)
    ensures reasons == [] <==> forall reason :: !Reported(reasons, reason)
  {
    if reasons != [] { assert Reported(reasons, reasons[0]); }
  }

  /** What the score records of the review, the patch, the tests and the validators. */
  ghost predicate FactsFollow(g: Gate, c: Case, x: Inputs, r: CaseResult) {
    && r.score.Some?
    && var s := r.score.value;
       && s.detected == r.review.primaryFound && s.truePositives == r.review.bugsMatched <= c.bugs
       && s.falseNegatives == c.bugs - r.review.bugsMatched && s.falsePositives == r.review.falsePositives
       && s.patchProvided == x.patch.provided && s.patchApplied == x.patch.applied
       && (s.testsRan <==> TestsExecuted(g, x) && x.world.tests.ran)
       && s.testsPassed == (if s.testsRan then Some(x.world.tests.passed) else None)
       && (s.structuralRan <==> x.patch.applied && g.validatorCount > 0)
       && (s.structuralPassed.Some? <==> s.structuralRan)
       && (s.structuralRan ==> (s.structuralPassed == Some(true) <==> forall v :: v in x.world.validators ==> v))
       && (s.pass <==> s.reasons == []) && (s.eligible <==> HasGate(g))
  }

  lemma {:induction false} RecordedFacts(g: Gate, c: Case, x: Inputs, r: CaseResult)
    requires IsEvaluation(g, c, x, r)
    ensures FactsFollow(g, c, x, r)
  {
    hide IsReview, Attributed, ListsExactly, TestsExecuted;
    EvaluationCounts(g, c, x, r);
    MatchedFit(c.bugs, r.review);
    var raw :| IsVerdict(g, c, x, raw, r);
    Answers(g, x);
    assert TestsExecuted(g, x) ==> Executed(g, x.patch, x.world) == Some(x.world.tests) by { TestsAre(g, x); }
  }

  lemma {:induction false} TestsAre(g: Gate, x: Inputs)
    ensures TestsExecuted(g, x) ==> Executed(g, x.patch, x.world) == Some(x.world.tests)
  {
  }

  /** A repair is taken to work exactly when the inputs show that it does. */
  lemma {:induction false} RepairWorksExactly(g: Gate, c: Case, x: Inputs, r: CaseResult)
    requires IsEvaluation(g, c, x, r)
    ensures RepairWorks(r.score.value) <==> Repaired(g, x)
    ensures r.score.value.testsRan || r.score.value.structuralRan <==> AnythingRan(g, x)
  {
    hide IsEvaluation, Reported, RepairWorks, TestsExecuted, HiddenTestsChanged, HasGate;
    RecordedFacts(g, c, x, r);
    ReasonsExactly(g, c, x, r);
    NoneBlocking(r.score.value);
  }

  /** A case passes exactly under these conditions on its inputs and its review. */
  lemma {:induction false} PassesExactly(g: Gate, c: Case, x: Inputs, r: CaseResult)
    requires IsEvaluation(g, c, x, r)
    ensures r.score.value.pass <==> Passes(g, c, x, r.review)
    ensures r.score.value.eligible <==> HasGate(g)
  {
    hide IsEvaluation, Reported, AnythingRan, TestsExecuted, HiddenTestsChanged, HasGate;
    RecordedFacts(g, c, x, r);
    ReasonsExactly(g, c, x, r);
    NoneReported(r.score.value.reasons);
    if r.score.value.reasons == [] {
      NothingGiven(g, c, x, r);
    }
  }

  lemma {:induction false} NothingGiven(g: Gate, c: Case, x: Inputs, r: CaseResult)
    requires r.score.Some? && ReasonsFollow(g, c, x, r) && r.review.bugsMatched <= c.bugs
    requires forall reason :: !Reported(r.score.value.reasons, reason)
    ensures Passes(g, c, x, r.review)
  {
    hide TestsExecuted, HiddenTestsChanged, HasGate;
    var reasons := r.score.value.reasons;
    assert !Reported(reasons, DetectionFailed) && !Reported(reasons, IncompleteBugDetection) && !Reported(reasons, UnsafePaths);
    assert !Reported(reasons, TouchedProtected) && !Reported(reasons, PatchMissing) && !Reported(reasons, PatchApplyFailed);
    assert !Reported(reasons, TestsFailed) && !Reported(reasons, StructuralFailed) && !Reported(reasons, TooManyFalsePositives);
    assert !Reported(reasons, NoExecutionEvidence) && !Reported(reasons, TestIntegrityViolation);
  }

  /** The status of the case, of every bug and of every finding, in terms of the inputs. */
  ghost predicate StatusesFollow(g: Gate, c: Case, x: Inputs, r: CaseResult)
    requires r.status.Some?
  {
    && StatusFollows(r.status.value, HiddenTestsChanged(g, x), AnythingRan(g, x), Repaired(g, x),
                     r.review.bugsMatched == c.bugs, r.review.bugsMatched == 0)
    && RepairsFollow(c.bugs, r.review.scored, r.repairs, Repaired(g, x))
    && FindingsFollow(r.review.scored, r.findings, Repaired(g, x))
  }

  lemma {:induction false} StatusesExactly(g: Gate, c: Case, x: Inputs, r: CaseResult)
    requires IsEvaluation(g, c, x, r)
    ensures StatusesFollow(g, c, x, r)
  {
    hide IsReview, Repaired, AnythingRan, Holds;
    EvaluationCounts(g, c, x, r);
    var raw :| IsVerdict(g, c, x, raw, r);
    AttributedFollows(c.bugs, r.review.scored, r.score.value, RepairWorks(r.score.value), Tampered(g, x.patch, x.world),
                      r.repairs, r.findings, r.status.value);
    AllBugsDetected(c.bugs, r.review, r.repairs, RepairWorks(r.score.value));
    DetectedCountBound(r.repairs);
    NoneDetected(r.repairs);
    NothingDetected(c.bugs, r.review, r.repairs, RepairWorks(r.score.value));
    RepairWorksExactly(g, c, x, r);
    Answers(g, x);
    hide RepairWorks, Tampered, HiddenTestsChanged, IsScore, FromScorer, IsEvaluation;
  }

  lemma {:induction false} NothingDetected(bugs: nat, review: ScoreResult, repairs: seq<BugRepair>, validated: bool)
    requires FromScorer(bugs, review)
    requires |repairs| == bugs && forall b :: 0 <= b < bugs ==> repairs[b] == BugRepair(b in MatchedBugs(review.scored), validated)
    ensures review.bugsMatched == 0 <==> forall b :: 0 <= b < bugs ==> !repairs[b].detected
  {
    var matched := MatchedBugs(review.scored);
    if matched != {} {
      var b :| b in matched;
      assert repairs[b].detected;
    }
  }

  /** A case that counts as validated. */
  predicate CountsAsValidated(r: CaseResult) {
    r.score.Some? && r.score.value.eligible && r.score.value.pass
  }

  /** A case that counts as completely repaired. */
  predicate CountsAsComplete(r: CaseResult) {
    r.score.Some? && r.score.value.eligible && r.status == Some(CompleteRepair)
  }

  /** A validated case rests on an applied patch and a gate that ran and passed, with the hidden
      tests untouched; it always found the primary bug, and it is a complete repair exactly when
      every bug was matched. */
  lemma {:induction false} ValidatedMeansExecuted(g: Gate, c: Case, x: Inputs, r: CaseResult)
    requires IsEvaluation(g, c, x, r) && CountsAsValidated(r)
    ensures x.patch.applied && !x.patch.unsafePaths && !x.patch.touchedProtected && !Tampered(g, x.patch, x.world)
    ensures r.score.value.testsRan || r.score.value.structuralRan
    ensures g.TestsRequired() ==> Executed(g, x.patch, x.world) == Some(x.world.tests) && x.world.tests == TestOutcome(true, true)
    ensures g.validatorCount > 0 ==> AllTrue(x.world.validators)
    ensures r.review.primaryFound && r.review.falsePositives <= g.maxFalsePositives
    ensures 1 <= r.review.bugsMatched <= c.bugs
    ensures r.status.value == if r.review.bugsMatched == c.bugs then CompleteRepair else PartialRepair
    ensures g.detection.AllBugs? ==> r.review.bugsMatched == c.bugs
  {
    EvaluationCounts(g, c, x, r);
    var raw :| IsVerdict(g, c, x, raw, r);
    assert raw.pass && raw.reasons == [] && r.score.value == raw;
    NoReasonHolds(g, r.review, x.patch, TestsPassed(Executed(g, x.patch, x.world)),
                  StructuralPassed(Validated(g, x.patch, x.world)), raw.reasons);
    assert RepairWorks(raw);
    AllBugsDetected(c.bugs, r.review, r.repairs, true);
    assert 0 in MatchedBugs(r.review.scored);
  }

  lemma {:induction false} NoReasonHolds(g: Gate, review: ScoreResult, patch: Patch, testsPassed: Option<bool>, structuralPassed: Option<bool>,
                                         reasons: seq<Reason>)
    requires reasons == [] && ListsExactly(reasons, g, review, patch, testsPassed, structuralPassed)
    ensures forall r :: !Holds(r, g, review, patch, testsPassed, structuralPassed)
    ensures review.primaryFound && !patch.unsafePaths && !patch.touchedProtected
    ensures g.TestsRequired() ==> testsPassed == Some(true)
    ensures g.validatorCount > 0 ==> structuralPassed == Some(true)
    ensures review.falsePositives <= g.maxFalsePositives
    ensures g.detection.AllBugs? ==> review.bugsMatched >= review.bugsTotal
  {
    forall r ensures !Holds(r, g, review, patch, testsPassed, structuralPassed) {
      assert !Reported(reasons, r);
    }
    assert !Holds(DetectionFailed, g, review, patch, testsPassed, structuralPassed);
    assert !Holds(IncompleteBugDetection, g, review, patch, testsPassed, structuralPassed);
    assert !Holds(UnsafePaths, g, review, patch, testsPassed, structuralPassed);
    assert !Holds(TouchedProtected, g, review, patch, testsPassed, structuralPassed);
    assert !Holds(TestsFailed, g, review, patch, testsPassed, structuralPassed);
    assert !Holds(StructuralFailed, g, review, patch, testsPassed, structuralPassed);
    assert !Holds(TooManyFalsePositives, g, review, patch, testsPassed, structuralPassed);
  }

  /** A complete repair rests on executed evidence too, whether or not the case passes. */
  lemma {:induction false} CompleteRepairMeansExecuted(g: Gate, c: Case, x: Inputs, r: CaseResult)
    requires IsEvaluation(g, c, x, r) && r.status == Some(CompleteRepair)
    ensures x.patch.applied && !Tampered(g, x.patch, x.world)
    ensures r.score.value.testsRan || r.score.value.structuralRan
    ensures g.TestsRequired() ==> x.world.tests == TestOutcome(true, true)
    ensures g.validatorCount > 0 ==> AllTrue(x.world.validators)
    ensures r.review.bugsMatched == c.bugs && |r.repairs| == c.bugs
    ensures forall b :: 0 <= b < c.bugs ==> r.repairs[b] == BugRepair(true, true)
  {
    hide IsReview, FromScorer, BestAssignment, Classified, IsBreakdown;
    EvaluationCounts(g, c, x, r);
    var raw :| IsVerdict(g, c, x, raw, r);
    hide IsEvaluation;
    var tests, structural := TestsPassed(Executed(g, x.patch, x.world)), StructuralPassed(Validated(g, x.patch, x.world));
    assert RepairWorks(raw);
    assert !Reported(raw.reasons, TestsFailed) && !Holds(TestsFailed, g, r.review, x.patch, tests, structural);
    assert !Reported(raw.reasons, StructuralFailed) && !Holds(StructuralFailed, g, r.review, x.patch, tests, structural);
    AllBugsDetected(c.bugs, r.review, r.repairs, true);
    DetectedCountBound(r.repairs);
  }

  // ---------------------------------------------------------------- a run and its rates

  /** What the run loop records for one case: an evaluation of some inputs, or the failure record. */
  ghost predicate Produced(g: Gate, c: Case, r: CaseResult) {
    || r == FailedCase(g, c.bugs)
    || exists x: Inputs :: ValidFindings(c, x.signals) && IsEvaluation(g, c, x, r)
  }

  ghost predicate ValidCases(gates: seq<Gate>, cases: seq<Case>) {
    |gates| == |cases| && forall k :: 0 <= k < |cases| ==> ValidCase(cases[k])
  }

  ghost predicate IsRun(gates: seq<Gate>, cases: seq<Case>, results: seq<CaseResult>) {
    && ValidCases(gates, cases) && |results| == |cases|
    && forall k :: 0 <= k < |results| ==> Produced(gates[k], cases[k], results[k])
  }

  datatype Feature = ScoredCase | Validatable | ValidatedCase | CompleteCase | BugComplete

  predicate Has(r: CaseResult, f: Feature) {
    match f
    case ScoredCase => r.score.Some?
    case Validatable => r.score.Some? && r.score.value.eligible
    case ValidatedCase => CountsAsValidated(r)
    case CompleteCase => CountsAsComplete(r)
    case BugComplete => r.score.Some? && r.repairs != [] && forall b :: 0 <= b < |r.repairs| ==> r.repairs[b].detected
  }

  function Count(results: seq<CaseResult>, f: Feature): nat {
    if results == [] then 0 else (if Has(results[0], f) then 1 else 0) + Count(results[1..], f)
  }

  datatype Amount = TruePositives | FalseNegatives | FalsePositives

  function AmountOf(r: CaseResult, a: Amount): nat {
    if r.score.None? then 0
    else match a
         case TruePositives => r.score.value.truePositives
         case FalseNegatives => r.score.value.falseNegatives
         case FalsePositives => r.score.value.falsePositives
  }

  function Total(results: seq<CaseResult>, a: Amount): nat {
    if results == [] then 0 else AmountOf(results[0], a) + Total(results[1..], a)
  }

  function Rate(part: nat, whole: nat): real {
    if whole == 0 then 0.0 else Metrics.Fraction(part, whole)
  }

  datatype RunMetrics =
    RunMetrics(validatedCaseRate: real, completeRepairRate: real, bugCompletenessRate: real,
               detectionPrecision: real, detectionRecall: real, falsePositivesPerCase: real)

  /** The published case-level rates, unrounded. */
  function AggregateMetrics(results: seq<CaseResult>): RunMetrics {
    var validatable, scored := Count(results, Validatable), Count(results, ScoredCase);
    var tp, fn, fp := Total(results, TruePositives), Total(results, FalseNegatives), Total(results, FalsePositives);
    RunMetrics(Rate(Count(results, ValidatedCase), validatable), Rate(Count(results, CompleteCase), validatable),
               Rate(Count(results, BugComplete), scored), Metrics.Precision(tp, fp), Metrics.Recall(tp, fn),
               Rate(fp, scored))
  }

  // ---------------------------------------------------------------- the rates, from reviews and gates

  /** Bugs matched by the reviews of a run. */
  function BugsMatched(results: seq<CaseResult>): nat {
    if results == [] then 0 else results[0].review.bugsMatched + BugsMatched(results[1..])
  }

  function FalseAlarms(results: seq<CaseResult>): nat {
    if results == [] then 0 else results[0].review.falsePositives + FalseAlarms(results[1..])
  }

  function HowMany(flags: seq<bool>): nat {
    if flags == [] then 0 else (if flags[0] then 1 else 0) + HowMany(flags[1..])
  }

  /** What the rates count, in one case. */
  lemma {:induction false} CountedInCase(g: Gate, c: Case, r: CaseResult)
    requires Produced(g, c, r) && ValidCase(c)
    ensures AmountOf(r, TruePositives) == r.review.bugsMatched && AmountOf(r, FalsePositives) == r.review.falsePositives
    ensures Has(r, ScoredCase) && (Has(r, Validatable) <==> HasGate(g))
    ensures Has(r, BugComplete) <==> r.review.bugsMatched == c.bugs
  {
    if r != FailedCase(g, c.bugs) {
      var x: Inputs :| ValidFindings(c, x.signals) && IsEvaluation(g, c, x, r);
      EvaluationCounted(g, c, x, r);
    }
  }

  lemma {:induction false} EvaluationCounted(g: Gate, c: Case, x: Inputs, r: CaseResult)
    requires IsEvaluation(g, c, x, r) && ValidCase(c)
    ensures AmountOf(r, TruePositives) == r.review.bugsMatched && AmountOf(r, FalsePositives) == r.review.falsePositives
    ensures Has(r, ScoredCase) && (Has(r, Validatable) <==> HasGate(g))
    ensures Has(r, BugComplete) <==> r.review.bugsMatched == c.bugs
  {
    hide IsReview, ListsExactly, ValidFindings;
    EvaluationCounts(g, c, x, r);
    var raw :| IsVerdict(g, c, x, raw, r);
    AllBugsDetected(c.bugs, r.review, r.repairs, RepairWorks(r.score.value));
    DetectedCountBound(r.repairs);
    hide MatchedBugs, RepairWorks;
  }

  /** The flags of a run: which cases have a gate, and which reviews matched every bug. */
  ghost function Gated(gates: seq<Gate>): (flags: seq<bool>)
    ensures |flags| == |gates| && forall k :: 0 <= k < |gates| ==> flags[k] == HasGate(gates[k])
  {
    seq(|gates|, k requires 0 <= k < |gates| => HasGate(gates[k]))
  }

  ghost function Complete(cases: seq<Case>, results: seq<CaseResult>): (flags: seq<bool>)
    requires |results| == |cases|
    ensures |flags| == |cases| && forall k :: 0 <= k < |cases| ==> flags[k] == (results[k].review.bugsMatched == cases[k].bugs)
  {
    seq(|cases|, k requires 0 <= k < |cases| => results[k].review.bugsMatched == cases[k].bugs)
  }

  lemma {:induction false} RunWithoutFirst(gates: seq<Gate>, cases: seq<Case>, results: seq<CaseResult>)
    requires IsRun(gates, cases, results) && results != []
    ensures IsRun(gates[1..], cases[1..], results[1..])
    ensures Gated(gates)[1..] == Gated(gates[1..]) && Complete(cases, results)[1..] == Complete(cases[1..], results[1..])
  {
    forall k | 0 <= k < |results| - 1 ensures Produced(gates[1..][k], cases[1..][k], results[1..][k]) && ValidCase(cases[1..][k]) {
      assert Produced(gates[k + 1], cases[k + 1], results[k + 1]);
    }
  }

  lemma {:induction false} CountedInRun(gates: seq<Gate>, cases: seq<Case>, results: seq<CaseResult>)
    requires IsRun(gates, cases, results)
    ensures Total(results, TruePositives) == BugsMatched(results) && Total(results, FalsePositives) == FalseAlarms(results)
    ensures Count(results, ScoredCase) == |results| && Count(results, Validatable) == HowMany(Gated(gates))
    ensures Count(results, BugComplete) == HowMany(Complete(cases, results))
  {
    if results != [] {
      assert Produced(gates[0], cases[0], results[0]) && ValidCase(cases[0]);
      CountedInCase(gates[0], cases[0], results[0]);
      RunWithoutFirst(gates, cases, results);
      hide IsRun, Produced, Has, AmountOf;
      CountedInRun(gates[1..], cases[1..], results[1..]);
    }
  }

  ghost predicate IsShare(rate: real, part: nat, whole: nat) { rate * whole as real == part as real }

  lemma {:induction false} RateIsShare(part: nat, whole: nat)
    requires whole == 0 ==> part == 0
    ensures IsShare(Rate(part, whole), part, whole)
  {
  }

  lemma {:induction false} FractionIsShare(part: nat, other: nat)
    ensures IsShare(Metrics.Precision(part, other), part, part + other)
    ensures IsShare(Metrics.Recall(part, other), part, part + other)
  {
  }

  lemma {:induction false} RatesAreShares(results: seq<CaseResult>)
    ensures
      var m := AggregateMetrics(results);
      && IsShare(m.detectionRecall, Total(results, TruePositives), Total(results, TruePositives) + Total(results, FalseNegatives))
      && IsShare(m.detectionPrecision, Total(results, TruePositives), Total(results, TruePositives) + Total(results, FalsePositives))
      && IsShare(m.bugCompletenessRate, Count(results, BugComplete), Count(results, ScoredCase))
      && IsShare(m.validatedCaseRate, Count(results, ValidatedCase), Count(results, Validatable))
      && IsShare(m.completeRepairRate, Count(results, CompleteCase), Count(results, Validatable))
    ensures
      (Count(results, ScoredCase) == 0 ==> Total(results, FalsePositives) == 0) ==>
        IsShare(AggregateMetrics(results).falsePositivesPerCase, Total(results, FalsePositives), Count(results, ScoredCase))
  {
    hide IsShare, Rate, Metrics.Precision, Metrics.Recall, Count, Total;
    CountMonotone(results, ValidatedCase, Validatable);
    CountMonotone(results, CompleteCase, Validatable);
    CountMonotone(results, BugComplete, ScoredCase);
    FractionIsShare(Total(results, TruePositives), Total(results, FalsePositives));
    FractionIsShare(Total(results, TruePositives), Total(results, FalseNegatives));
    RateIsShare(Count(results, ValidatedCase), Count(results, Validatable));
    RateIsShare(Count(results, CompleteCase), Count(results, Validatable));
    RateIsShare(Count(results, BugComplete), Count(results, ScoredCase));
    if Count(results, ScoredCase) == 0 ==> Total(results, FalsePositives) == 0 {
      RateIsShare(Total(results, FalsePositives), Count(results, ScoredCase));
    }
  }

  /** The rates in terms of the reviews and gates of the run: recall over all seeded bugs, precision
      over all claims, bug completeness over all cases, and the case-level rates over the cases
      that have a gate. */
  lemma {:induction false} RatesExactly(gates: seq<Gate>, cases: seq<Case>, results: seq<CaseResult>)
    requires IsRun(gates, cases, results)
    ensures
      var m := AggregateMetrics(results);
      && IsShare(m.detectionRecall, BugsMatched(results), SeededBugs(cases))
      && IsShare(m.detectionPrecision, BugsMatched(results), BugsMatched(results) + FalseAlarms(results))
      && IsShare(m.bugCompletenessRate, HowMany(Complete(cases, results)), |cases|)
      && IsShare(m.falsePositivesPerCase, FalseAlarms(results), |cases|)
      && IsShare(m.validatedCaseRate, Count(results, ValidatedCase), HowMany(Gated(gates)))
      && IsShare(m.completeRepairRate, Count(results, CompleteCase), HowMany(Gated(gates)))
  {
    hide *;
    NoCasesNoAlarms(gates, cases, results);
    CountedInRun(gates, cases, results);
    DetectionIsConserved(gates, cases, results);
    RatesAreShares(results);
  }

  lemma {:induction false} NoCasesNoAlarms(gates: seq<Gate>, cases: seq<Case>, results: seq<CaseResult>)
    requires IsRun(gates, cases, results)
    ensures |results| == |cases| && (|results| == 0 ==> FalseAlarms(results) == 0)
  {
  }

  lemma {:induction false} CountMonotone(results: seq<CaseResult>, f: Feature, f': Feature)
    requires forall k :: 0 <= k < |results| ==> Has(results[k], f) ==> Has(results[k], f')
    ensures Count(results, f) <= Count(results, f')
  {
    if results != [] { CountMonotone(results[1..], f, f'); }
  }

  lemma {:induction false} RateMonotone(x: nat, y: nat, whole: nat)
    requires x <= y
    ensures Rate(x, whole) <= Rate(y, whole)
    ensures whole > 0 && x < y ==> Rate(x, whole) < Rate(y, whole)
  {
    if whole > 0 {
      var p, q, n := Rate(x, whole), Rate(y, whole), whole as real;
      assert p * n == x as real && q * n == y as real;
      assert (q - p) * n == y as real - x as real;
    }
  }

  // ---------------------------------------------------------------- the order of the two rates

  /** The case has a gate that can be run, so that some submission can pass it. */
  predicate CanPass(g: Gate) {
    g.Eligible() && (g.TestsRequired() ==> g.runTests && g.hasTestCommand)
  }

  /** The case demands every bug, has only one, or can never be passed. */
  predicate NeedsAllBugs(g: Gate, bugs: nat) {
    g.detection.AllBugs? || bugs == 1 || !CanPass(g)
  }

  lemma {:induction false} ValidatedIsComplete(g: Gate, c: Case, r: CaseResult)
    requires Produced(g, c, r) && NeedsAllBugs(g, c.bugs) && CountsAsValidated(r)
    ensures CountsAsComplete(r)
  {
    var x: Inputs :| ValidFindings(c, x.signals) && IsEvaluation(g, c, x, r);
    ValidatedMeansExecuted(g, c, x, r);
  }

  /** In a run whose cases all satisfy that, every validated case is a complete repair, so the
      validated rate never exceeds the complete-repair rate. */
  lemma {:induction false} ValidatedRateAtMostCompleteRate(gates: seq<Gate>, cases: seq<Case>, results: seq<CaseResult>)
    requires IsRun(gates, cases, results)
    requires forall k :: 0 <= k < |gates| ==> NeedsAllBugs(gates[k], cases[k].bugs)
    ensures AggregateMetrics(results).validatedCaseRate <= AggregateMetrics(results).completeRepairRate
  {
    forall k | 0 <= k < |results| ensures Has(results[k], ValidatedCase) ==> Has(results[k], CompleteCase) {
      if CountsAsValidated(results[k]) { ValidatedIsComplete(gates[k], cases[k], results[k]); }
    }
    CountMonotone(results, ValidatedCase, CompleteCase);
    RateMonotone(Count(results, ValidatedCase), Count(results, CompleteCase), Count(results, Validatable));
  }

  /** Complete repairs are bug-complete, so they are at most the bug-complete cases. */
  lemma {:induction false} CompleteRepairsAreBugComplete(gates: seq<Gate>, cases: seq<Case>, results: seq<CaseResult>)
    requires IsRun(gates, cases, results)
    ensures Count(results, CompleteCase) <= Count(results, BugComplete)
  {
    forall k | 0 <= k < |results| && Has(results[k], CompleteCase) ensures Has(results[k], BugComplete) {
      var g, c, r := gates[k], cases[k], results[k];
      assert Produced(g, c, r);
      var x: Inputs :| ValidFindings(c, x.signals) && IsEvaluation(g, c, x, r);
      CompleteRepairMeansExecuted(g, c, x, r);
    }
    CountMonotone(results, CompleteCase, BugComplete);
  }

  ghost function SeededBugs(cases: seq<Case>): nat {
    if cases == [] then 0 else cases[0].bugs + SeededBugs(cases[1..])
  }

  lemma {:induction false} EvaluationConserves(g: Gate, c: Case, x: Inputs, r: CaseResult)
    requires IsEvaluation(g, c, x, r)
    ensures AmountOf(r, TruePositives) + AmountOf(r, FalseNegatives) == c.bugs
  {
    hide IsReview, Attributed, ListsExactly, TallyOf, MatchedBugs, StatusOf;
    EvaluationCounts(g, c, x, r);
    var raw :| IsVerdict(g, c, x, raw, r);
    FullSubset(MatchedBugs(r.review.scored), UpTo(c.bugs));
  }

  lemma {:induction false} OneCaseConserves(g: Gate, c: Case, r: CaseResult)
    requires Produced(g, c, r)
    ensures AmountOf(r, TruePositives) + AmountOf(r, FalseNegatives) == c.bugs
  {
    if r != FailedCase(g, c.bugs) {
      var x: Inputs :| ValidFindings(c, x.signals) && IsEvaluation(g, c, x, r);
      EvaluationConserves(g, c, x, r);
    }
  }

  /** Every seeded bug of a run is counted once, as found or as missed. */
  lemma {:induction false} DetectionIsConserved(gates: seq<Gate>, cases: seq<Case>, results: seq<CaseResult>)
    requires IsRun(gates, cases, results)
    ensures Total(results, TruePositives) + Total(results, FalseNegatives) == SeededBugs(cases)
  {
    if results != [] {
      OneCaseConserves(gates[0], cases[0], results[0]);
      assert IsRun(gates[1..], cases[1..], results[1..]) by {
        forall k | 0 <= k < |results| - 1 ensures Produced(gates[1..][k], cases[1..][k], results[1..][k]) {
          assert Produced(gates[k + 1], cases[k + 1], results[k + 1]);
        }
      }
      DetectionIsConserved(gates[1..], cases[1..], results[1..]);
    }
  }

  /** The published confidence interval encloses the published validated rate. */
  lemma {:induction false} IntervalEnclosesValidatedRate(results: seq<CaseResult>, z: real, root: real)
    requires Count(results, Validatable) >= 1 && z >= 0.0 && root >= 0.0
    requires
      root * root == Metrics.Radicand(AggregateMetrics(results).validatedCaseRate, Count(results, Validatable) as real, z)
    ensures
      var interval := Metrics.WilsonInterval(Count(results, ValidatedCase), Count(results, Validatable), z, root);
      && interval.Between?
      && 0.0 <= interval.low <= AggregateMetrics(results).validatedCaseRate <= interval.high <= 1.0
  {
    CountMonotone(results, ValidatedCase, Validatable);
    Metrics.WilsonEncloses(Count(results, ValidatedCase), Count(results, Validatable), z, root);
  }

  /** One finding that matches bug 0 in every respect, and no other bug. */
  function PrimaryOnly(bugs: nat): (signals: seq<FindingSignals>) {
    [FindingSignals(seq(bugs, b => if b == 0 then Signal(true, Full, 1.0, 1.0, 1.0) else Signal(false, WrongFile, 0.0, 0.0, 0.0)), false)]
  }

  const ALL_MATCH := Components(1.0, 1.0, 1.0, 1.0, 1.0, Full)

  ghost function PrimaryPair(): Pairing { map[0 := (0, ALL_MATCH)] }

  lemma {:induction false} OnePairWeight(weights: Weights, m: map<int, int>, k: nat)
    requires forall b, f :: (b, f) in weights <==> b == 0 && f == 0
    ensures Weight(weights, m, k) == if k > 0 && 0 in m && m[0] == 0 then weights[(0, 0)] else 0.0
  {
    if k > 0 {
      OnePairWeight(weights, m, k - 1);
      if k - 1 in m {
        var f := m[k - 1];
        assert (k - 1, f) in weights <==> k - 1 == 0 && f == 0;
      }
    }
  }

  lemma {:induction false} PrimaryOnlyIsBest(c: Case)
    requires ValidCase(c)
    ensures ValidFindings(c, PrimaryOnly(c.bugs)) && BestAssignment(c, PrimaryOnly(c.bugs), PrimaryPair())
  {
    var signals := PrimaryOnly(c.bugs);
    var weights := EligibleWeights(c, signals);
    assert PairComponents(signals[0].signals[0]) == Some(ALL_MATCH);
    forall b, f ensures (b, f) in weights <==> b == 0 && f == 0 {
      assert (b, f) in weights <==> Eligible(c, signals, b, f);
    }
    assert weights[(0, 0)] >= 0.0;
    var chosen := Chosen(PrimaryPair());
    assert chosen == map[0 := 0];
    forall other | IsMatching(weights, c.bugs, other) ensures Weight(weights, other, c.bugs) <= Weight(weights, chosen, c.bugs) {
      OnePairWeight(weights, other, c.bugs);
      OnePairWeight(weights, chosen, c.bugs);
    }
  }

  ghost function BreakdownOf(c: Case, pairs: Pairing, falsePositives: nat, invalidOutput: bool): (b: Breakdown)
    requires c.bugs >= 1
    ensures IsBreakdown(c, pairs, falsePositives, invalidOutput, b)
  {
    var b := Breakdown(Share(Concept, c.weights, pairs, c.bugs, c.bugs), Share(File, c.weights, pairs, c.bugs, c.bugs),
                       Share(Line, c.weights, pairs, c.bugs, c.bugs), Share(Severity, c.weights, pairs, c.bugs, c.bugs),
                       Share(Fix, c.weights, pairs, c.bugs, c.bugs),
                       if falsePositives == 0 then c.weights.noFalsePositives else 0.0, FpPenalty(c, falsePositives),
                       if invalidOutput then c.invalidPenalty else 0.0, 0.0);
    b.(total := TotalOf(b))
  }

  /** A patch that applies, and a world in which everything that runs passes. */
  function GoodInputs(g: Gate, bugs: nat): Inputs {
    Inputs(PrimaryOnly(bugs), false, Patch(true, true, false, false),
           World(TestOutcome(true, true), false, seq(g.validatorCount, _ => true)))
  }

  /** What evaluating those inputs reports. */
  ghost function PartialResult(g: Gate, c: Case): CaseResult
    requires c.bugs >= 1
  {
    var ran := g.runTests && g.hasTestCommand;
    var structural := g.validatorCount > 0;
    CaseResult(ScoreResult([TruePositive(0)], BreakdownOf(c, Judged(PrimaryPair(), true), 0, false), true, c.bugs, 1, 0),
               Some(DeterministicScore(true, true, true, ran, if ran then Some(true) else None, structural,
                                       if structural then Some(true) else None, 1, 0, c.bugs - 1, true, g.Eligible(), [])),
               Some(PartialRepair), seq(c.bugs, b => BugRepair(b == 0, true)), [RepairValidated])
  }

  lemma {:induction false} PartialResultIsReview(g: Gate, c: Case)
    requires ValidCase(c)
    ensures IsReview(c, PrimaryOnly(c.bugs), false, true, PrimaryPair(), PartialResult(g, c).review)
    ensures MatchedBugs(PartialResult(g, c).review.scored) == {0}
  {
    hide BestAssignment, IsBreakdown, Judged, ValidFindings, ValidCase;
    var scored := [TruePositive(0)];
    PrimaryOnlyIsBest(c);
    assert MatchedBugs(scored) == {0} by { assert scored[0].bug == 0; }
    assert TallyOf(scored) == Tally(1, 0, 0) by { assert scored[..0] == []; }
    assert |PrimaryPair()| == 1;
  }

  /** Where a case wants only one of several bugs and can be passed, finding its primary bug and
      repairing it validates the case without making it a complete repair. */
  lemma {:induction false} PartialRepairCanBeValidated(g: Gate, c: Case)
    requires ValidCase(c) && !NeedsAllBugs(g, c.bugs)
    ensures ValidFindings(c, PrimaryOnly(c.bugs)) && IsEvaluation(g, c, GoodInputs(g, c.bugs), PartialResult(g, c))
    ensures CountsAsValidated(PartialResult(g, c)) && PartialResult(g, c).status == Some(PartialRepair)
  {
    var x, r := GoodInputs(g, c.bugs), PartialResult(g, c);
    PrimaryOnlyIsBest(c);
    PartialResultIsReview(g, c);
    ReviewCounts(c, x.signals, false, true, PrimaryPair(), r.review);
    AllBugsDetected(c.bugs, r.review, r.repairs, true);
    hide IsReview, BestAssignment, IsBreakdown, FromScorer, ValidFindings;
    var raw := r.score.value;
    assert StructuralPassed(Validated(g, x.patch, x.world)) == raw.structuralPassed;
    assert IsScore(g, r.review, x.patch, Executed(g, x.patch, x.world), Validated(g, x.patch, x.world), raw);
    assert RepairWorks(raw);
    assert IsVerdict(g, c, x, raw, r);
  }

  lemma {:induction false} SomeHas(results: seq<CaseResult>, f: Feature, k: nat)
    requires k < |results| && Has(results[k], f)
    ensures Count(results, f) >= 1
  {
    if k > 0 { SomeHas(results[1..], f, k - 1); }
  }

  lemma {:induction false} NoneHas(results: seq<CaseResult>, f: Feature)
    requires forall k :: 0 <= k < |results| ==> !Has(results[k], f)
    ensures Count(results, f) == 0
  {
    if results != [] { NoneHas(results[1..], f); }
  }

  ghost predicate RatesInOrder(results: seq<CaseResult>) {
    AggregateMetrics(results).validatedCaseRate <= AggregateMetrics(results).completeRepairRate
  }

  /** A run in which one case is partially repaired and all the others fail. */
  lemma {:induction false} RatesOutOfOrder(gates: seq<Gate>, cases: seq<Case>, k: nat) returns (results: seq<CaseResult>)
    requires ValidCases(gates, cases) && k < |cases| && !NeedsAllBugs(gates[k], cases[k].bugs)
    ensures IsRun(gates, cases, results) && !RatesInOrder(results)
  {
    hide IsEvaluation, PartialResult, PrimaryOnly, ValidFindings;
    var r := PartialResult(gates[k], cases[k]);
    PartialRepairCanBeValidated(gates[k], cases[k]);
    assert Produced(gates[k], cases[k], r);
    hide NeedsAllBugs;
    results := seq(|cases|, i requires 0 <= i < |cases| => if i == k then r else FailedCase(gates[i], cases[i].bugs));
    SomeHas(results, ValidatedCase, k);
    NoneHas(results, CompleteCase);
    CountMonotone(results, ValidatedCase, Validatable);
    RateMonotone(0, Count(results, ValidatedCase), Count(results, Validatable));
  }

  /** For these gates and cases, the validated rate stays at or below the complete-repair rate in
      every run exactly when every case demands all bugs, has only one, or cannot be passed. */
  lemma {:induction false} RateOrderExactly(gates: seq<Gate>, cases: seq<Case>)
    requires ValidCases(gates, cases)
    ensures (forall results :: IsRun(gates, cases, results) ==> RatesInOrder(results))
       <==> forall k :: 0 <= k < |cases| ==> NeedsAllBugs(gates[k], cases[k].bugs)
  {
    if forall k :: 0 <= k < |cases| ==> NeedsAllBugs(gates[k], cases[k].bugs) {
      forall results | IsRun(gates, cases, results) ensures RatesInOrder(results) {
        ValidatedRateAtMostCompleteRate(gates, cases, results);
      }
    } else {
      var k: nat :| k < |cases| && !NeedsAllBugs(gates[k], cases[k].bugs);
      var results := RatesOutOfOrder(gates, cases, k);
    }
  }

  const TWO_BUGS := Case(2, ScoreWeights(35.0, 20.0, 15.0, 10.0, 15.0, 5.0), 5.0, 15.0, 20.0)

  const ONE_BUG_IS_ENOUGH := Gate(true, true, 0, 0, AtLeastOne, true, true, true)

  const FOUND_FIRST_ONLY := FindingSignals([Signal(true, Full, 1.0, 1.0, 1.0), Signal(false, WrongFile, 0.0, 0.0, 0.0)], false)

  lemma {:induction false} CountOne(r: CaseResult, f: Feature)
    ensures Count([r], f) == if Has(r, f) then 1 else 0
  {
    assert [r][1..] == [];
  }

  /** Two bugs, one finding that matches the first: a validated rate of 1 and no complete repair. */
  lemma {:induction false} OneOfTwoBugs()
    ensures GoodInputs(ONE_BUG_IS_ENOUGH, 2) == Inputs([FOUND_FIRST_ONLY], false, Patch(true, true, false, false),
                                                       World(TestOutcome(true, true), false, []))
    ensures
      var r := PartialResult(ONE_BUG_IS_ENOUGH, TWO_BUGS);
      && IsEvaluation(ONE_BUG_IS_ENOUGH, TWO_BUGS, GoodInputs(ONE_BUG_IS_ENOUGH, 2), r)
      && AggregateMetrics([r]).validatedCaseRate == 1.0 && AggregateMetrics([r]).completeRepairRate == 0.0
  {
    assert PrimaryOnly(2)[0].signals == FOUND_FIRST_ONLY.signals;
    var r := PartialResult(ONE_BUG_IS_ENOUGH, TWO_BUGS);
    PartialRepairCanBeValidated(ONE_BUG_IS_ENOUGH, TWO_BUGS);
    hide IsEvaluation, PartialResult;
    assert Rate(1, 1) == 1.0 && Rate(0, 1) == 0.0;
    hide Rate;
    CountOne(r, Validatable);
    CountOne(r, ValidatedCase);
    CountOne(r, CompleteCase);
  }
}
