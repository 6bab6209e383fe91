# A verified model of CodeReview Arena's deciding logic

CodeReview Arena scores code reviews and repairs. This Dafny 4.11 project models the code that decides
a score and proves what that code is relied on for. Check it with `dafny verify dfyconfig.toml`.

| file | what it models |
|---|---|
| `Assignment.dfy` | the Kuhn-Munkres solver `_hungarian_min_cost`, on arrays, with exact reals and an explicit infinity |
| `Matching.dfy` | `_max_weight_matching`: the reduction with dummy columns and a forbidden cost |
| `Scoring.dfy` | pairing findings with bugs, `score_case`, and the fix component judged by execution |
| `Metrics.dfy` | F-beta and the Wilson interval over exact reals |
| `Evidence.dfy` | `score_deterministic_case`, `_attribute_evidence`, `_evaluate_case`, the published case-level rates |
| `RatioResolve.dfy`, `RatioDistribute.dfy` | the two integer space allocators of the vendored `_ratio.py` |
| `Mutation.dfy` | the AST mutator: breadth-first walk, in-place edit of a copy, all mutants |
| `GitRecords.dfy` | the NUL-framed parsers of `git diff --raw -z` and `git ls-files -s -z` |
| `CommaScanner.dfy`, `StrictJson.dfy`, `Salvage.dfy` | reviewer-output parsing: comma scanner, structure limits, three-stage salvage |
| `JobQueue.dfy` | the job queue as a state machine over all interleavings, and as an object |
| `ContextPacking.dfy` | the budgeted choice of source files shown to a reviewer |
| `Pagination.dfy` | composite-cursor paging from the audit benchmark |
| `Common.dfy`, `Sorting.dfy` | shared definitions, and the stable sort that stands for Python's |

How to read it: loops and mutable objects of the source are methods, loops and classes here, each proved
against a specification - a property stated outright (`HungarianMinCost`, `MaxWeightMatching`,
`ValidateStructure`, `ReadRelevantFiles`) or a function (`Resolve`, `Clean`, `RawChanges`, `Mutants`, `Next`)
about which the lemmas then speak. Foreign code (decoders, schema validation, UTF-8, unparsing, file reads,
test results, text heuristics, the square root) is a parameter, and the results hold for every value of it.

The definitions that the main results rest on are stated a second time without the functions that compute
them: what a literal is by a grammar, what an order is by first differences, what makes a pair eligible or
gives a status over raw inputs, what a score is as an equation between other quantities.

Limits of the code, as the model proves them:

- `ratio_resolve`: a ratio of 0 counts as 1 in the total of ratios but as 0 when the part is taken, so
  length can be lost. `SumExactly` gives the sum for all ratios >= 0: the length is filled exactly when there
  is more of it than is needed and some edge with a ratio outlasts every ratio-0 edge behind it, a comparison
  of given numbers; `ZeroRatioLosesLength` is an input. A minimum of 0 becomes 1 once there is no room
  (`ZeroMinimumsExactly`).
- `ratio_distribute` is documented as guaranteed to sum to the total; without minimums it does
  exactly for totals that are not negative or a last ratio of 0 (`DistributesTotal`), and with minimums it can
  overrun although they fit (`MinimumsCanOverrun`). `CallSumsExactly` computes from the arguments the least
  total that sums.
- `_strip_trailing_commas` leaves a comma when two stand before a closer (`DoubledCommaSurvives`, and
  `CleanIsFinalExactly` for the exact condition).
- The tolerant transform strips white space without recording an action. For any one decoder and validator
  the evidence invariants fail exactly for texts that no transform changes, that do not decode, and that
  stripped decode to a complete review, one of which nothing is defaulted or dropped (`EvidenceFailsExactly`);
  such a review behind a no-break space is an example (`NoBreakSpaceLosesEvidence`). Over all decoders together that ignore the white space JSON
  ignores, they hold exactly for texts around which `str.strip` removes nothing more than that, or that a
  transform changes (`EvidenceHoldsExactly`).
- Under `at_least_one` a case can be validated without being a complete repair (`PartialRepairCanBeValidated`,
  `OneOfTwoBugs`). The validated rate stays at or below the complete-repair rate in every run exactly when
  every case demands all bugs, has one only, or cannot be passed for want of a gate that runs (`RateOrderExactly`).
- Following the cursor skips records when a page boundary falls between equal keys (`EqualKeysAreSkipped`,
  `WalkIsComplete` for the exact condition).
- A comparison mutant by `<`, `<=`, `>` or `>=` is the negation only for operands that are ordered
  (`CompareMutantNegatesExactly`).
- Adding findings never lowers the component sum, but can lower the total, and only by more false positives
  (`OnlyFalsePositivesLowerTotal`; `UnmatchedFindingLowersTotal` for the exact condition for one).

No lemma relies on Dafny's automatic induction.

## Model

| member | source | states |
|---|---|---|
| Assignment.HungarianMinCost | arena/scoring/scorer.py:92-141 | For every cost matrix with rows <= cols the result gives each row its own column, and no assignment whatever is cheaper. |
| Assignment.InsertRow | arena/scoring/scorer.py:105-136 | One outer iteration turns a solved problem for rows below i into one for rows up to i: feasible potentials, tight matched edges, column potentials <= 0 and 0 on free columns. |
| Assignment.Search | arena/scoring/scorer.py:106-132 | The search terminates at an unmatched column that hangs by tight edges under an alternating tree, with row i now feasible. |
| Assignment.SearchRound | arena/scoring/scorer.py:111-132 | One round marks exactly one more column, keeps the alternating tree and the exact minima, and always finds a next unused column, also when the first step is negative. |
| Assignment.SomeColumnIsFree | arena/scoring/scorer.py:113-123 | Counting: a column outside the tree remains, so the minimum exists and the next column is never missing. |
| Assignment.DualStep | arena/scoring/scorer.py:124-129 | Shifting the potentials by the least minimum keeps feasibility, tightness, the tree and all minima, and makes the edge to the closest column tight. |
| Assignment.Augment | arena/scoring/scorer.py:133-136 | The walk back along `way` reaches column 0; afterwards rows 1..i sit in one column each on tight edges, and no matched column becomes free. |
| Assignment.ArtificialColumnIsMinusCost | arena/scoring/scorer.py:105-136 | After every iteration the potential of the artificial column is minus the total cost of the current matching. |
| Assignment.NoAssignmentIsCheaper | arena/scoring/scorer.py:92-141 | Weak duality: every assignment of all rows costs at least minus that potential. |
| Assignment.SolvedIsOptimal | arena/scoring/scorer.py:137-141 | Once all rows are inserted, the columns read off the matching form an assignment of minimum cost. |
| Matching.MaxWeightMatching | arena/scoring/scorer.py:144-176 | For any weights the result is a one-to-one set of eligible pairs, and no such set weighs more. |
| Matching.OptimumAvoidsForbidden | arena/scoring/scorer.py:86-89 | Exchange argument: with a dummy column per bug, a minimum-cost assignment never uses a pair that is not eligible. |
| Matching.SomeDummyIsFree | arena/scoring/scorer.py:162-171 | A bug that is not on a dummy column leaves one of the dummies free. |
| Matching.CostIsMinusWeight | arena/scoring/scorer.py:165-170 | The cost of an assignment that follows a matching is minus the weight of the matching. |
| Matching.OptimalAssignmentIsMaximum | arena/scoring/scorer.py:171-176 | The pairs kept from any optimal assignment form a maximum-weight matching. |
| Scoring.AssignFindingsToBugs | arena/scoring/scorer.py:179-195 | The pairing is a maximum-weight one-to-one pairing, each pair with its own components; whatever is paired is in one of the bug's files and names something of its concept. |
| Scoring.BuildWeights | arena/scoring/scorer.py:179-192 | The weight table has exactly the pairs that agree on file and concept, each with the value that concept, file, line, severity and fix earn. |
| Scoring.EligibleExactly | arena/scoring/scorer.py:59-83 | A finding can be paired with a bug exactly when it is in one of the bug's files and its concept ratio is above 0. |
| Scoring.NoPairIsMissed | arena/scoring/scorer.py:144-195 | Where concept or file weigh anything, a best pairing leaves no bug and finding over that could be paired. |
| Scoring.ScoreCase | arena/scoring/scorer.py:225-332 | findings = matched + neutral + false positives with distinct matched bugs; whatever counts agrees with its bug on file and concept, and no agreeing pair is left over; a review outside all bugs' files matches and earns nothing; each component score follows from the verdicts alone; the components sum to the weight of the best matching over the number of bugs; the total is what the deductions leave and lies in [0, sum of weights]. |
| Scoring.ClassifyFindings | arena/scoring/scorer.py:233-264 | Every finding gets one verdict: the bug it is paired with, else neutral if accepted, else a false positive. |
| Scoring.TallyCountsBugs | arena/scoring/scorer.py:238-264 | The number of true positives is the number of distinct matched bugs, and the three tallies add up to the findings. |
| Scoring.EveryPairIsScored | arena/scoring/scorer.py:232-264 | The matched bugs are exactly the bugs of the pairing. |
| Scoring.SharesAreMatchingWeight | arena/scoring/scorer.py:266-275 | The five component scores add up to the matching's weight divided by the number of bugs, for every prefix of bugs. |
| Scoring.ShareFitsWeight | arena/scoring/scorer.py:266-275 | No component score exceeds its weight or falls below 0. |
| Scoring.BreakdownOfVerdicts | arena/scoring/scorer.py:225-293 | Read off the verdicts: each component score times the number of bugs is its weight times what the true positives report for their bugs. |
| Scoring.TotalIsLeftByCosts | arena/scoring/scorer.py:277-293 | The total is components and reward less the capped false-positive penalty and the invalid-output penalty, and never below 0. |
| Scoring.InvalidOutputCosts | arena/scoring/scorer.py:282-293 | Invalid output lowers the total by its penalty, or to 0. |
| Scoring.PerfectReviewEarnsAll | arena/scoring/scorer.py:266-293 | A review that finds every bug in every respect, and nothing else, earns the sum of all six weights. |
| Scoring.TotalIsBounded | arena/scoring/scorer.py:277-293 | The total after penalty and clamp lies between 0 and the sum of the weights. |
| Scoring.MoreFindingsNeverLowerComponents | arena/scoring/scorer.py:179-195 | A review that contains another's findings, in any places, earns at least its component sum. |
| Scoring.AddingAFindingNeverLowersComponents | arena/scoring/scorer.py:179-195 | Inserting one finding anywhere never lowers the component sum. |
| Scoring.OrderDoesNotMatter | arena/scoring/scorer.py:179-195 | Reordering the findings leaves the component sum unchanged. |
| Scoring.NextFalsePositive | arena/scoring/scorer.py:277-281 | One more false positive costs something exactly when it is the first and there is a reward for none, or the penalty is below its cap. |
| Scoring.OnlyFalsePositivesLowerTotal | arena/scoring/scorer.py:277-293 | A review that contains all findings of another, in any places, has a lower total only if it has more false positives and the total was above 0. |
| Scoring.UnmatchedFindingLowersTotal | arena/scoring/scorer.py:240-293 | A finding that matches no bug keeps the pairing, and lowers the total exactly when the case does not accept it, the total was above 0 and the next false positive costs something. |
| Scoring.ApplyExecutionFixQuality | arena/scoring/scorer.py:335-373 | Only the fix score and the total change: the primary bug earns the whole fix weight for a validated repair and at most eight fifteenths of it otherwise; a validated repair never lowers the total and a failed one never raises it. |
| Metrics.FBetaBetween | arena/scoring/metrics.py:16-25 | For beta > 0, F-beta never divides by zero and lies between precision and recall. |
| Metrics.FBetaOfCounts | arena/scoring/metrics.py:6-25 | F-beta of the counts: (1 + beta^2) TP over (1 + beta^2) TP + beta^2 FN + FP. |
| Metrics.WilsonEncloses | arena/scoring/metrics.py:32-46 | The exact bounds already lie in [0, 1], so the clamps change nothing, and they enclose the proportion. |
| Metrics.WilsonIsScoreTest | arena/scoring/metrics.py:32-46 | The interval consists of exactly the proportions that the score test does not reject. |
| Evidence.ScoreDeterministicCase | arena/scoring/deterministic_scorer.py:17-93 | The score's facts follow from patch, tests and validators; a reason is listed exactly when its condition holds, in the order of the checks, and the case passes exactly when none is. |
| Evidence.AllReasonsListed | arena/scoring/deterministic_scorer.py:40-68 | The sequence of checks lists every reason that holds and no other. |
| Evidence.AttributeEvidence | arena/benchmark/benchmark_runner.py:177-226 | Every bug carries its own detection and the shared verdict; the exact condition of each finding status and of each case status. |
| Evidence.AnyBlocking | arena/benchmark/benchmark_runner.py:374-384 | The verdict is withdrawn exactly when some listed reason is a blocking one. |
| Evidence.EvaluateCase | arena/benchmark/benchmark_runner.py:244-446 | The whole chain from findings to case status: a best pairing and its verdicts, the breakdown with the primary fix judged by execution, and for every input the exact condition of each recorded fact, each failure reason, the pass, each case status and each finding status. |
| Evidence.StatusesExactly | arena/benchmark/benchmark_runner.py:191-226 | In terms of patch, tests, validators and matched bugs: exactly when a case is tampering, inconclusive, a complete or partial repair, detected but unrepaired, or without detection, and what each bug and finding is stamped with. |
| Evidence.RepairWorksExactly | arena/benchmark/benchmark_runner.py:374-384 | The repair counts as working exactly when the patch applied, hidden tests stayed as they were, every gate ran and passed, and a required patch was provided and is checked by a gate. |
| Evidence.ReasonsExactly | arena/scoring/deterministic_scorer.py:40-68 | Each failure reason is on record exactly when the inputs meet its condition. |
| Evidence.PassesExactly | arena/scoring/deterministic_scorer.py:40-91 | The exact condition on inputs and review under which a case passes. |
| Evidence.RecordedFacts | arena/scoring/deterministic_scorer.py:28-92 | The counts, flags and verdicts that the score records follow from the inputs. |
| Evidence.AllBugsDetected | arena/benchmark/benchmark_runner.py:191-226 | Pigeonhole: as many matched bugs as seeded ones means that every single bug was detected. |
| Evidence.ValidatedMeansExecuted | arena/benchmark/benchmark_runner.py:319-384 | A validated case has an applied, safe patch, a gate that ran and passed and untouched tests; it found the primary bug; it is a complete repair exactly when all bugs were matched. |
| Evidence.CompleteRepairMeansExecuted | arena/benchmark/benchmark_runner.py:191-226 | A complete repair rests on executed evidence and on every bug being detected and repaired. |
| Evidence.ValidatedRateAtMostCompleteRate | arena/scoring/deterministic_scorer.py:116-169 | In every run whose cases each demand all bugs, have one only or cannot be passed - so in every run of `all_bugs` cases - validated_case_rate <= complete_repair_rate. |
| Evidence.RateOrderExactly | arena/scoring/deterministic_scorer.py:116-169 | For given gates and cases, the rates are in that order in every run exactly when every case demands all bugs, has one only or cannot be passed. |
| Evidence.CompleteRepairsAreBugComplete | arena/scoring/deterministic_scorer.py:136-170 | Complete repairs are among the bug-complete cases, in every run. |
| Evidence.DetectionIsConserved | arena/scoring/deterministic_scorer.py:104-109 | Over a run, found and missed bugs add up to the seeded ones. |
| Evidence.RatesExactly | arena/scoring/deterministic_scorer.py:96-169 | Over every run: recall is the share of seeded bugs matched, precision the share of claims matched, and the case-level rates are shares of exactly the cases that have a gate. |
| Evidence.IntervalEnclosesValidatedRate | arena/scoring/deterministic_scorer.py:121-166 | The published interval encloses the published validated rate. |
| Evidence.PartialRepairCanBeValidated | arena/benchmark/benchmark_runner.py:191-226 | For every other case, one finding that matches the primary bug only, with a patch that works, is evaluated as validated and as a partial repair. |
| Evidence.OneOfTwoBugs | arena/scoring/deterministic_scorer.py:40-46 | Such an input with two bugs under `at_least_one`, written out: a validated rate of 1 and a complete-repair rate of 0. |
| RatioResolve.RatioResolve | benchmark_sets/realfix_seed_v0/rich_table_padding_width_001/after/rich/_ratio.py:30-72 | For any edges the nested loops terminate and compute the function the lemmas below speak about, or stop at a division by zero. |
| RatioResolve.EdgesAreRespected | benchmark_sets/realfix_seed_v0/rich_table_padding_width_001/after/rich/_ratio.py:30-72 | For any ratios: whenever there is a result, every fixed edge keeps its size and every flexible one gets at least its minimum; without negative ratios there always is one. |
| RatioResolve.ResolvedSumIsLengthOrNeed | benchmark_sets/realfix_seed_v0/rich_table_padding_width_001/after/rich/_ratio.py:13-72 | With a flexible edge, ratios >= 1 and minimums >= 1, the sizes sum to exactly max(total, fixed sizes + minimums). |
| RatioResolve.ResolvedSum | benchmark_sets/realfix_seed_v0/rich_table_padding_width_001/after/rich/_ratio.py:30-72 | With ratios >= 1 and any minimums: the sum is the total when there is more than is needed, and the no-room sum otherwise. |
| RatioResolve.ZeroMinimumsExactly | benchmark_sets/realfix_seed_v0/rich_table_padding_width_001/after/rich/_ratio.py:44-50 | With ratios >= 1 and minimums of 0 allowed, the closed form holds exactly when there is room or no minimum is 0. |
| RatioResolve.ResolvesAtTheLevel | benchmark_sets/realfix_seed_v0/rich_table_padding_width_001/after/rich/_ratio.py:51-70 | With ratios >= 1, the result without the algorithm: at the level that fills the length, edges at or below their minimum get it and the others their rounded parts, whatever order the loop held edges in. |
| RatioResolve.LevelIsUnique | benchmark_sets/realfix_seed_v0/rich_table_padding_width_001/after/rich/_ratio.py:51-70 | With ratios >= 1, at most one level fills the length. |
| RatioResolve.LevelExistsExactly | benchmark_sets/realfix_seed_v0/rich_table_padding_width_001/after/rich/_ratio.py:43-70 | With ratios >= 1, a level exists exactly when there is more length than is needed. |
| RatioResolve.RoundingIsCumulative | benchmark_sets/realfix_seed_v0/rich_table_padding_width_001/after/rich/_ratio.py:62-70 | When no edge of ratio 0 is open: after every prefix of edges the sizes handed out are the exact parts rounded down; each size is less than 1 off. |
| RatioResolve.SumExactly | benchmark_sets/realfix_seed_v0/rich_table_padding_width_001/after/rich/_ratio.py:36-72 | For all ratios >= 0 and minimums >= 0 (>= 1 without room): the sum is the total exactly when there is more than is needed and some edge with a ratio outlasts every ratio-0 edge behind it, and what is needed otherwise. |
| RatioResolve.ZeroRatioCases | benchmark_sets/realfix_seed_v0/rich_table_padding_width_001/after/rich/_ratio.py:51-61 | An edge with a ratio behind all ratio-0 edges fills the length whenever there is room; without any ratio all room is lost. |
| RatioResolve.HoldingKeepsSurvivors | benchmark_sets/realfix_seed_v0/rich_table_padding_width_001/after/rich/_ratio.py:57-61 | One round of the loop keeps a surviving edge, if there is one, and makes none. |
| RatioResolve.ZeroRatioLosesLength | benchmark_sets/realfix_seed_v0/rich_table_padding_width_001/after/rich/_ratio.py:51-61 | One edge of ratio 0 and minimum 1 gets 1 of 10. |
| RatioDistribute.RatioDistribute | benchmark_sets/realfix_seed_v0/rich_table_padding_width_001/after/rich/_ratio.py:107-140 | The loop computes the shares, or fails its assertion when no ratio is left. |
| RatioDistribute.SumsToTotalExactly | benchmark_sets/realfix_seed_v0/rich_table_padding_width_001/after/rich/_ratio.py:117-140 | For any parts, the shares sum to the total exactly when the last part has no ratio or its minimum fits into what is left there. |
| RatioDistribute.CallSumsExactly | benchmark_sets/realfix_seed_v0/rich_table_padding_width_001/after/rich/_ratio.py:107-140 | For ratios >= 0, the call with minimums sums to the total exactly when the last ratio or minimum is 0, or the total reaches a bound computed from the arguments; with an empty list of minimums, exactly for a total of 0. |
| RatioDistribute.LeavesEnough | benchmark_sets/realfix_seed_v0/rich_table_padding_width_001/after/rich/_ratio.py:132-139 | Serving one part leaves the later ones enough exactly when the rest covers their need with its minimum, and their need scaled up by its ratio. |
| RatioDistribute.PlainSumsToTotal | benchmark_sets/realfix_seed_v0/rich_table_padding_width_001/after/rich/_ratio.py:117-140 | Without minimums a rest >= 0 is handed out completely, in shares between 0 and the rest. |
| RatioDistribute.DistributesTotal | benchmark_sets/realfix_seed_v0/rich_table_padding_width_001/after/rich/_ratio.py:107-140 | For ratios >= 0, the call without minimums sums to the total exactly when the total is not negative or the last ratio is 0. |
| RatioDistribute.MinimumsAreServed | benchmark_sets/realfix_seed_v0/rich_table_padding_width_001/after/rich/_ratio.py:132-136 | With positive ratios every share is at least its minimum. |
| RatioDistribute.MinimumsCanOverrun | benchmark_sets/realfix_seed_v0/rich_table_padding_width_001/after/rich/_ratio.py:107-119 | Ratios 9 and 1, minimums 1 and 5, total 10: the shares are 9 and 5; a total of 50 would have been enough. |
| Mutation.WalkIsLevelOrder | arena/benchmark/mutation.py:71-71 | The walk lists every node exactly once, by level and from left to right. |
| Mutation.SitesAre | arena/benchmark/mutation.py:68-84 | The sites are exactly the nodes with a mutation kind, each once, in walk order. |
| Mutation.SiteLabels | arena/benchmark/mutation.py:68-84 | Exactly the comparisons by one operator, the and/or nodes, the four arithmetic operations and the boolean constants are sites, each of its kind. |
| Mutation.Eligible | arena/benchmark/mutation.py:68-84 | The queue loop over node objects collects the objects at the sites of the tree, in order. |
| Mutation.Apply | arena/benchmark/mutation.py:87-108 | The node's label becomes the swapped one, and the text describes that edit. |
| Mutation.SwapIsInvolution | arena/benchmark/mutation.py:28-48 | Swapping changes the label, keeps its kind, and done twice restores it. |
| Mutation.MutantDiffersAtOneNode | arena/benchmark/mutation.py:87-122 | The mutant has the original's shape and differs from it at the k-th site and nowhere else. |
| Mutation.MutationKeepsSites | arena/benchmark/mutation.py:68-84 | The mutant has the same sites: same number, order, kinds and places. |
| Mutation.MutationIsUndone | arena/benchmark/mutation.py:87-108 | Mutating the same site again restores the tree. |
| Mutation.MutantsAreDistinct | arena/benchmark/mutation.py:119-122 | Different sites give different mutants, none of them the original. |
| Mutation.ConstMutantNegates | arena/benchmark/mutation.py:106-108 | A bool-constant mutant evaluates its node to the negation. |
| Mutation.ArithMutantUndoes | arena/benchmark/mutation.py:43-48 | An arithmetic mutant uses the operator that undoes the original one. |
| Mutation.CompareMutantNegatesExactly | arena/benchmark/mutation.py:28-41 | A comparison mutant is the negation exactly when the operands are ordered or the operator does not ask for an order. |
| Mutation.BoolOpMutantAgreesExactly | arena/benchmark/mutation.py:42-42 | An and/or mutant agrees with the original exactly when all operands agree. |
| Mutation.Copy | arena/benchmark/mutation.py:120-120 | The copy consists of fresh objects, none shared, that represent the same tree. |
| Mutation.MutateCopy | arena/benchmark/mutation.py:120-124 | Copying, finding the site in the copy, editing it in place and reading the copy yields the k-th mutant. |
| Mutation.GenerateMutants | arena/benchmark/mutation.py:111-129 | Those mutants of the sites that can be printed, are not blank and differ from the source: at most limit, beginning with those of the first limit sites. |
| Mutation.MutantsAreSingleEdits | arena/benchmark/mutation.py:111-129 | The mutants are exactly the printings, with their descriptions, of the tree with one of those sites edited, where printing succeeds and differs from the source. |
| Mutation.MutantsInSiteOrder | arena/benchmark/mutation.py:117-128 | They come in the order of their sites, one for each. |
| Mutation.DescriptionNamesBoth | arena/benchmark/mutation.py:87-108 | The description names what stood at the site and what stands there in the mutant. |
| GitRecords.SplitZExactly | arena/patching/git_pipeline.py:366-372 | Splitting accepts exactly the NUL-terminated joinings of NUL-free parts and returns those parts. |
| GitRecords.SplitExactly | arena/patching/git_pipeline.py:369-383 | Splitting at a separator and joining with it are inverse to each other. |
| GitRecords.ParseRawZ | arena/patching/git_pipeline.py:375-427 | The loop returns a list of changes exactly when the data is their printing (two paths for R and C, any status suffix) and their new paths are distinct; otherwise it returns the failure of the first bad record. |
| GitRecords.RawExactly | arena/patching/git_pipeline.py:375-427 | Round trip in both directions for raw diff output. |
| GitRecords.RawFailsExactly | arena/patching/git_pipeline.py:359-427 | Raw output is refused with a given failure exactly when it does not end in NUL, or prints changes up to a record for which that failure is due. |
| GitRecords.RecordFailsExactly | arena/patching/git_pipeline.py:379-422 | Which failure is due: for bad metadata, missing paths, or the first path that does not decode or is empty. |
| GitRecords.PrintedBytes | arena/patching/git_pipeline.py:381-391 | The printing of a change, byte by byte. |
| GitRecords.FieldsInCharacters | arena/patching/git_pipeline.py:57-59 | Modes, object ids and status letters, spelled as characters. |
| GitRecords.RecordExactly | arena/patching/git_pipeline.py:381-422 | One record is read exactly when the parts begin with the printing of a well-formed change. |
| GitRecords.MetaExactly | arena/patching/git_pipeline.py:381-401 | Metadata is read exactly when it is the printing of five well-formed fields. |
| GitRecords.WordsExactly | arena/patching/git_pipeline.py:441-441 | Splitting at white space yields exactly the words that white space separates. |
| GitRecords.EntryExactly | arena/patching/git_pipeline.py:435-451 | A record is read exactly when it is a well-formed stage-0 entry. |
| GitRecords.ParseLsFilesZ | arena/patching/git_pipeline.py:430-455 | The loop returns a list of entries exactly when the data lists them and their paths are distinct. |
| GitRecords.LsFilesExactly | arena/patching/git_pipeline.py:430-455 | Round trip in both directions for index listings. |
| GitRecords.LsFilesFailsExactly | arena/patching/git_pipeline.py:430-455 | A listing is refused with a given failure exactly when it does not end in NUL, or that failure is due for its first bad record. |
| GitRecords.EntryFailsExactly | arena/patching/git_pipeline.py:434-451 | A record is unmerged exactly when all before its path is well-formed and its stage is not 0, and unsafe exactly when its stage is 0 and its path does not decode. |
| GitRecords.ModesInCharacters | arena/patching/git_pipeline.py:58-58 | The known modes and the white space, spelled as characters. |
| CommaScanner.StripTrailingCommas | arena/reviewers/response_parser.py:64-96 | However the text is made of literals and other characters, the loop with its two flags and its lookahead returns them without the commas before a closer. |
| CommaScanner.CleanTidies | arena/reviewers/response_parser.py:64-96 | For a grammar of string literals with escapes, independent of the scanner: cleaning drops exactly the comma marks that only white space separates from a closer. |
| CommaScanner.EveryTextIsLexical | arena/reviewers/response_parser.py:64-96 | Every text is made of such tokens, if need be with an unfinished literal at its end. |
| CommaScanner.LiteralIsCopied | arena/reviewers/response_parser.py:78-83 | A literal is copied whole, escaped quotes and commas included, and what follows it is cleaned as text outside literals. |
| CommaScanner.QuoteEndsAfterEvenRun | arena/reviewers/response_parser.py:78-83 | In a literal, a quote after a run of backslashes ends it exactly when the run is even. |
| CommaScanner.CleanDropsExactlyTrailingCommas | arena/reviewers/response_parser.py:64-96 | The result is the text at exactly the positions that hold no comma outside strings before a closer, with the scanner in the same state at each of them. |
| CommaScanner.CleanKeepsAllButCommas | arena/reviewers/response_parser.py:65-70 | Cleaning changes neither what the scanner takes to be inside literals, nor anything outside them but commas, nor the state it ends in. |
| CommaScanner.CleanChangesOnlyTrailingCommas | arena/reviewers/response_parser.py:65-70 | Text is unchanged exactly when it has no trailing comma. |
| CommaScanner.CleanIsFinalExactly | arena/reviewers/response_parser.py:89-95 | One pass suffices exactly when no comma stands before a trailing comma. |
| CommaScanner.DoubledCommaSurvives | arena/reviewers/response_parser.py:89-95 | `[1,,]` becomes `[1,]`. |
| StrictJson.ValidateStructure | arena/reviewers/strict_json.py:45-65 | The explicit-stack loop, whichever pending value it visits next, accepts a value exactly when recursive depth, node count and finiteness are within bounds, and each error names a bound that is broken. |
| StrictJson.AcceptableByPaths | arena/reviewers/strict_json.py:45-65 | Acceptable means: no path of as many steps as the depth bound, at most as many distinct paths as the node bound, and no path to a float that is not finite. |
| StrictJson.PushChildren | arena/reviewers/strict_json.py:58-65 | Pushing children adds exactly their nodes, depths and floats to what is pending. |
| StrictJson.NoDuplicateKeys | arena/reviewers/strict_json.py:36-42 | The check passes exactly when no key occurs twice. |
| Salvage.ParsedResponseIsValid | arena/reviewers/response_parser.py:234-284 | For every decoder and validator, text that is trimmed, or that decodes alike when stripped, yields a response that meets the evidence invariants. |
| Salvage.EvidenceFailsExactly | arena/reviewers/response_parser.py:99-252 | For every single decoder and validator: the invariants fail exactly when no transform changes the text, it does not decode, and stripped it decodes to a complete review. |
| Salvage.SilentExactly | arena/reviewers/response_parser.py:183-252 | After a failed exact stage, a repair records no action exactly for such a text. |
| Salvage.EvidenceHoldsExactly | arena/core/models.py:448-482 | The invariants hold under all JSON decoders and all validators together exactly for texts around which there is only white space that JSON ignores, or that a transform changes. |
| Salvage.UntrimmedTextLosesEvidence | arena/reviewers/response_parser.py:99-117 | For every other text there is a decoder that ignores JSON white space and under which the invariants fail: one that reads nothing but the stripped text, as a review. |
| Salvage.NoBreakSpaceLosesEvidence | arena/reviewers/response_parser.py:99-117 | A JSON object without a trailing comma behind a no-break space: the invariants fail under exactly those decoders and validators that reject this text and read the object as a complete review. |
| Salvage.ActionsRecordChange | arena/reviewers/response_parser.py:99-117 | An action is recorded exactly when the stripped text changed, and then it became shorter. |
| Salvage.StripExactly | arena/reviewers/response_parser.py:101-101 | Stripping takes off all white space at both ends and nothing else. |
| Salvage.ExtractExactly | arena/reviewers/response_parser.py:109-112 | What is extracted reaches from the first opening brace to the last closing one, both included, and leaves something out. |
| Salvage.ProseIsCutOff | arena/reviewers/response_parser.py:109-117 | An object in prose becomes the cleaned object, with the extraction on record. |
| Salvage.FencedIsCleaned | arena/reviewers/response_parser.py:103-117 | An object in a fence, with or without a language tag, becomes the cleaned object, with the fence on record. |
| Salvage.TransformedIsReadAlike | arena/reviewers/response_parser.py:168-180 | Where only the transformed text is an exact review, the outcome is that review, marked as tolerant. |
| Salvage.PathIsAdmitted | arena/reviewers/response_parser.py:120-131 | Admission replaces the file of a finding by its admitted path, or refuses the finding, and changes nothing else. |
| Salvage.KeptExactly | arena/reviewers/response_parser.py:134-150 | Repair keeps, in order, exactly the findings with an admissible path that are then valid on their own. |
| Salvage.RepairReviewsSurvivors | arena/reviewers/response_parser.py:196-231 | A repaired outcome is the review of the survivors with the two defaults where a field was absent, nothing else changed, and the actions say which. |
| Salvage.BareListIsWrapped | arena/reviewers/response_parser.py:183-231 | A bare list that is repaired is wrapped as the findings of a review with both defaults. |
| Salvage.RepairFindings | arena/reviewers/response_parser.py:134-150 | The loop keeps the surviving findings in order and notes each dropped one: input = kept + dropped. |
| Salvage.NothingDropped | arena/reviewers/response_parser.py:120-150 | When nothing is dropped, lenient and strict admission keep the same findings. |
| Salvage.UnchangedRepairWasExact | arena/reviewers/response_parser.py:183-231 | A repair without any action would have been accepted exactly. |
| Salvage.RepairedHasActions | arena/reviewers/response_parser.py:183-252 | After a failed exact stage, a repaired outcome of such text has at least one action. |
| Salvage.RepairKeepsEvidence | arena/reviewers/response_parser.py:183-231 | Every outcome of the repair stage keeps counts, actions and drops consistent and within their bounds. |
| JobQueue.StepKeepsInvariant | arena/server/jobs.py:55-83 | Every step of every thread keeps the table, the place of each active job, the history and the bounds consistent. |
| JobQueue.StepWrites | arena/server/jobs.py:61-80 | What each step writes, field by field: a run that returned ends as completed with its run id, one that raised as failed with its error. |
| JobQueue.EveryRunIsSafe | arena/server/jobs.py:34-88 | In every interleaving from a consistent state: active jobs <= max_pending, stored jobs <= max_pending + max_finished, at most one running, active jobs always stored, jobs started once each in hand-over order; a job is completed exactly when it has a run id and no error, failed exactly when it has an error and no run id, active exactly when it has no completion time. |
| JobQueue.NewQueueIsSafe | arena/server/jobs.py:34-88 | The same for every run of a new queue, in terms of the limits it was given. |
| JobQueue.StepMovesForward | arena/server/jobs.py:55-83 | A status only moves queued, running, and then completed after a return or failed after an exception; nothing else about the job changes; an active job is never evicted. |
| JobQueue.RunsMoveForward | arena/server/jobs.py:55-83 | The same over whole runs; an evicted id never comes back. |
| JobQueue.EvictionKeepsMostRecent | arena/server/jobs.py:42-53 | Only finished jobs go, at most max_finished stay, and whatever goes finished no later than whatever finished stays. |
| JobQueue.EvictedCompletedFirst | arena/server/jobs.py:42-53 | What a submission evicts was completed, and no later than any finished job that stays. |
| JobQueue.WorkIsTakenOff | arena/server/jobs.py:65-82 | Every other step takes one piece of work off; while work is left some such step is possible; none is left exactly when no job is active. |
| JobQueue.QueueDrains | arena/server/jobs.py:65-82 | Once submissions stop, every run that does all the work, in any order, ends with all jobs completed or failed. |
| JobQueue.Queue.Evict | arena/server/jobs.py:42-53 | The method removes exactly the evicted ids from the dictionary. |
| JobQueue.Queue.Submit | arena/server/jobs.py:55-63 | The locked part of a submission is the machine's submit step, returns a job exactly when there was room, and stores it as queued with its time and nothing else. |
| JobQueue.Queue.HandOver | arena/server/jobs.py:82-83 | Giving the job to the executor, outside the lock, is the machine's hand-over step. |
| JobQueue.Queue.Start | arena/server/jobs.py:65-68 | Beginning a job is the machine's start step: the first job of the backlog is running, with its time. |
| JobQueue.Queue.Finish | arena/server/jobs.py:69-80 | Ending a job is the machine's finish step: a return leaves it completed with the run id, an exception failed with the error. |
| JobQueue.Queue.Get | arena/server/jobs.py:85-88 | A lookup finds every active job and returns what is stored. |
| ContextPacking.ReadRelevantFiles | arena/benchmark/case_loader.py:119-155 | The included files are the longest fitting prefix of the ordered list, the omitted ones the rest, both budgets hold, and the flag is set exactly when something is cut or omitted. |
| ContextPacking.OrderedIsPermutation | arena/benchmark/case_loader.py:125-129 | The ordered list has every file once, those touched by the diff first. |
| ContextPacking.OrderIsStable | arena/benchmark/case_loader.py:125-130 | Touched files come in the order of the diff, and the others in the order of the given list. |
| ContextPacking.NothingOmittedExactly | arena/benchmark/case_loader.py:135-155 | Nothing is omitted exactly when all files fit the two budgets and the byte budget is not used up before the last one. |
| ContextPacking.TouchedFiles | arena/patching/patch_parser.py:22-31 | The targets of a diff, each once, in the order of their first occurrences. |
| Pagination.FetchPage | benchmark_sets/audit_v1/api_pagination_cursor_skip_001/before/app/pagination.py:4-22 | For any cursor and limit: the records ascend by time and id, and the page holds the next limit of those later than the cursor, or what Python's slice leaves for a negative limit, with the key of its last record as cursor when it is full. |
| Pagination.CursorLeadsOn | benchmark_sets/audit_v1/api_pagination_cursor_skip_001/before/app/pagination.py:9-16 | A page's cursor leads past everything delivered, and directly behind it exactly when no equal key follows. |
| Pagination.DistinctKeysWalk | benchmark_sets/audit_v1/api_pagination_cursor_skip_001/before/app/pagination.py:4-22 | With distinct keys and limit >= 1 the pages together are the sorted list: nothing skipped, nothing repeated. |
| Pagination.WalkIsComplete | benchmark_sets/audit_v1/api_pagination_cursor_skip_001/before/app/pagination.py:4-22 | For any records: the walk is the sorted list exactly when no page boundary falls between equal keys; nothing is ever repeated. |
| Pagination.SortedSorts | benchmark_sets/audit_v1/api_pagination_cursor_skip_001/before/app/pagination.py:7-7 | The list has exactly the given records, ascending by time, and among equal times by id with the first difference deciding. |
| Pagination.SortedIsStable | benchmark_sets/audit_v1/api_pagination_cursor_skip_001/before/app/pagination.py:7-7 | Records with the same key keep the order in which they were given. |
| Pagination.EqualKeysAreSkipped | benchmark_sets/audit_v1/api_pagination_cursor_skip_001/before/app/pagination.py:11-22 | Two records with one key, one a page: the second is never delivered. |

## Left out

- Floating point: costs, weights, ratios and rates are exact reals, and the rounding to 2 or 6 digits at the end is not modelled; the exact equalities do not survive it.
- The remark that ties go to the lowest finding index: the code fixes the scan order only, and several matchings can be optimal.
- The text heuristics (concept, file, line, severity and fix matching, validators): a finding and a bug come with what they report.
- Metrics.WilsonEncloses: the square root is a parameter whose square is the radicand; computing roots is not modelled.
- Evidence.ScoreDeterministicCase: the precision, recall and F fields of the score are not part of it; their formulas are in `Metrics.dfy`.
- Evidence.EvaluateCase: decision logic only; applying patches and running tests are answers of an arbitrary world, and messages are reduced to their kinds.
- `run_benchmark`, run directories, manifests, timeouts, `_repair_confidence` and `_run_status`.
- RatioResolve.EdgesAreRespected: for negative ratios the sum of the sizes and when a division by zero occurs are not stated.
- RatioResolve.SumExactly: negative minimums, and minimums of 0 without room, are excluded here; for ratios >= 1 `ResolvedSum` covers both.
- `ratio_reduce`: its Python rounding to even adds nothing to the two allocators modelled.
- RatioDistribute.PlainSumsToTotal: a negative rest is excluded; `DistributesTotal` covers negative totals.
- RatioDistribute.CallSumsExactly: negative ratios are excluded; `SumsToTotalExactly` covers them by what is left at the last part.
- RatioDistribute.RatioDistribute: the division before rounding up is exact, where the source divides floats.
- Mutation.GenerateMutants: parsing and unparsing text are parameters; operator nodes are folded into their parent's label; running the tests on mutants is not modelled.
- GitRecords.ParseRawZ: a path is kept as its bytes, and strict UTF-8 decoding is a predicate on bytes.
- Running git, the result policy (protected paths, collisions), tree copies and hashing.
- ContextPacking.TouchedFiles: reading the lines of a diff and normalising their paths.
- Salvage.ParsedResponseIsValid: JSON decoding, schema validation and path admission are arbitrary functions, and the schema is assumed to keep every listed finding and bound their number.
- JobQueue.Queue.Submit: fresh identifiers and clock readings are arguments; the returned job is an identifier, not the live object that the worker goes on updating; executor shutdown is not modelled.
- ContextPacking.ReadRelevantFiles: a file read yields its final text, its encoded size and whether it was cut; directory walks and the per-file cap are behind it.
- Pagination.FetchPage: the sort is the stable insertion sort as a function; records changing between two pages are not modelled.
- Dashboard, command line, reports, HTTP, SQLite, contamination scan, leaderboard and model field checks.
