/** The in-process job queue (arena/server/jobs.py): every action that the code takes under its
    lock, every hand-over to the executor and every step of the single worker thread is one step
    of a state machine, and steps of different threads interleave freely. */
module JobQueue {
  import opened Common
  import Sorting

  type JobId = nat

  datatype Status = Queued | Running | Completed | Failed

  datatype Job =
    Job(status: Status, submittedAt: int, startedAt: Option<int>, completedAt: Option<int>,
        runId: Option<string>, error: Option<string>)
  {
    predicate Active() { status.Queued? || status.Running? }

    /** The sort key of eviction. */
    function FinishTime(): int { if completedAt.Some? then completedAt.value else submittedAt }
  }

  type Jobs = map<JobId, Job>

  /** What a submitted callable does: returns a run id or raises. */
  datatype Result = Returned(runId: string) | Raised(error: string)

  // ---------------------------------------------------------------- lists of jobs

  ghost predicate Known(order: seq<JobId>, jobs: Jobs) {
    forall id :: id in order ==> id in jobs
  }

  /** The active (or the finished) jobs, in insertion order. */
  function Select(order: seq<JobId>, jobs: Jobs, active: bool): seq<JobId>
    requires Known(order, jobs)
  {
    if order == [] then []
    else
      var last := order[|order| - 1];
      Select(order[..|order| - 1], jobs, active) + if jobs[last].Active() == active then [last] else []
  }

  lemma {:induction false} SelectIsSublist(order: seq<JobId>, jobs: Jobs, active: bool)
    requires Known(order, jobs)
    ensures forall id :: id in Select(order, jobs, active) <==> id in order && jobs[id].Active() == active
    ensures Distinct(order) ==> Distinct(Select(order, jobs, active))
  {
    if order != [] {
      var rest, last := order[..|order| - 1], order[|order| - 1];
      assert order == rest + [last];
      SelectIsSublist(rest, jobs, active);
    }
  }

  lemma {:induction false} SelectSplits(order: seq<JobId>, jobs: Jobs)
    requires Known(order, jobs)
    ensures |Select(order, jobs, true)| + |Select(order, jobs, false)| == |order|
  {
    if order != [] { SelectSplits(order[..|order| - 1], jobs); }
  }

  /** When no job becomes active, the number of active jobs does not grow. */
  lemma {:induction false} FewerActive(order: seq<JobId>, jobs: Jobs, jobs': Jobs)
    requires Known(order, jobs) && Known(order, jobs')
    requires forall id :: id in order && jobs'[id].Active() ==> jobs[id].Active()
    ensures |Select(order, jobs', true)| <= |Select(order, jobs, true)|
  {
    if order != [] {
      var rest := order[..|order| - 1];
      assert order == rest + [order[|order| - 1]];
      FewerActive(rest, jobs, jobs');
    }
  }

  lemma {:induction false} SelectFrame(order: seq<JobId>, jobs: Jobs, jobs': Jobs, active: bool)
    requires Known(order, jobs) && Known(order, jobs')
    requires forall id :: id in order ==> jobs'[id].Active() == jobs[id].Active()
    ensures Select(order, jobs', active) == Select(order, jobs, active)
  {
    if order != [] {
      var rest := order[..|order| - 1];
      assert order == rest + [order[|order| - 1]];
      SelectFrame(rest, jobs, jobs', active);
    }
  }

  // ---------------------------------------------------------------- stable sort by finish time

  function FinishKey(jobs: Jobs, id: JobId): int { if id in jobs then jobs[id].FinishTime() else 0 }

  function Earlier(jobs: Jobs): (JobId, JobId) -> bool {
    (a: JobId, b: JobId) => FinishKey(jobs, a) < FinishKey(jobs, b)
  }

  function SortByFinish(ids: seq<JobId>, jobs: Jobs): (sorted: seq<JobId>)
    ensures |sorted| == |ids|
  {
    Sorting.Sort(ids, Earlier(jobs))
  }

  ghost predicate SortedByFinish(ids: seq<JobId>, jobs: Jobs) {
    forall i, k :: 0 <= i < k < |ids| ==> FinishKey(jobs, ids[i]) <= FinishKey(jobs, ids[k])
  }

  lemma {:induction false} SortSorts(ids: seq<JobId>, jobs: Jobs)
    ensures SortedByFinish(SortByFinish(ids, jobs), jobs)
    ensures forall id :: id in SortByFinish(ids, jobs) <==> id in ids
    ensures Distinct(ids) ==> Distinct(SortByFinish(ids, jobs))
  {
    hide FinishKey;
    Sorting.SortSorts(ids, Earlier(jobs));
    hide Distinct;
  }

  /** In a sorted list, everything in a prefix finished no later than everything after it. */
  lemma {:induction false} PrefixFinishedFirst(sorted: seq<JobId>, jobs: Jobs, k: nat)
    requires SortedByFinish(sorted, jobs) && k <= |sorted|
    ensures forall early, late :: early in sorted[..k] && late in sorted[k..] ==> FinishKey(jobs, early) <= FinishKey(jobs, late)
  {
    hide FinishKey;
    forall early, late | early in sorted[..k] && late in sorted[k..] ensures FinishKey(jobs, early) <= FinishKey(jobs, late) {
      var i :| 0 <= i < k && sorted[i] == early;
      var j :| 0 <= j < |sorted| - k && sorted[k..][j] == late;
      assert sorted[k + j] == late;
    }
  }

  // ---------------------------------------------------------------- eviction

  /** The finished jobs that are too many: the ones that finished first. */
  function Evicted(order: seq<JobId>, jobs: Jobs, maxFinished: nat): seq<JobId>
    requires Known(order, jobs)
  {
    SelectIsSublist(order, jobs, false);
    var finished := Select(order, jobs, false);
    if |finished| <= maxFinished then [] else SortByFinish(finished, jobs)[..|finished| - maxFinished]
  }

  function Without(order: seq<JobId>, gone: seq<JobId>): seq<JobId> {
    if order == [] then []
    else
      var last := order[|order| - 1];
      Without(order[..|order| - 1], gone) + if last in gone then [] else [last]
  }

  lemma {:induction false} WithoutRemoves(order: seq<JobId>, gone: seq<JobId>)
    ensures forall id :: id in Without(order, gone) <==> id in order && id !in gone
    ensures Distinct(order) ==> Distinct(Without(order, gone))
  {
    if order != [] {
      var rest, last := order[..|order| - 1], order[|order| - 1];
      assert order == rest + [last];
      WithoutRemoves(rest, gone);
    }
  }

  ghost function Ids(ids: seq<JobId>): set<JobId> { set id | id in ids }

  lemma {:induction false} DistinctCount(ids: seq<JobId>)
    requires Distinct(ids)
    ensures |Ids(ids)| == |ids|
  {
    if ids != [] {
      var rest, last := ids[..|ids| - 1], ids[|ids| - 1];
      assert ids == rest + [last];
      DistinctCount(rest);
      assert Ids(ids) == Ids(rest) + {last};
    } else {
      assert Ids(ids) == {};
    }
  }

  /** Two lists without repetition and with the same elements are equally long. */
  lemma {:induction false} SameElementsSameLength(a: seq<JobId>, b: seq<JobId>)
    requires Distinct(a) && Distinct(b) && forall id :: id in a <==> id in b
    ensures |a| == |b|
  {
    DistinctCount(a);
    DistinctCount(b);
    assert Ids(a) == Ids(b);
  }

  /** Eviction removes finished jobs only, keeps at most maxFinished of them, and every job it
      removes finished no later than every finished job it keeps. */
  lemma {:induction false} EvictionKeepsMostRecent(order: seq<JobId>, jobs: Jobs, maxFinished: nat)
    requires Known(order, jobs) && Distinct(order)
    ensures
      var gone := Evicted(order, jobs, maxFinished);
      var kept := Without(order, gone);
      && (forall id :: id in gone ==> id in order && !jobs[id].Active())
      && Known(kept, jobs) && Distinct(kept)
      && |Select(kept, jobs, false)| == (if |Select(order, jobs, false)| <= maxFinished then |Select(order, jobs, false)| else maxFinished)
      && |Select(kept, jobs, true)| == |Select(order, jobs, true)|
      && (forall early, late :: early in gone && late in kept && !jobs[late].Active() ==>
            jobs[early].FinishTime() <= jobs[late].FinishTime())
  {
    var gone := Evicted(order, jobs, maxFinished);
    var kept := Without(order, gone);
    var finished := Select(order, jobs, false);
    SelectIsSublist(order, jobs, false);
    SelectIsSublist(order, jobs, true);
    WithoutRemoves(order, gone);
    SelectIsSublist(kept, jobs, false);
    SelectIsSublist(kept, jobs, true);
    if |finished| > maxFinished {
      var sorted := SortByFinish(finished, jobs);
      SortSorts(finished, jobs);
      hide Select, Without, SortByFinish;
      EarliestGone(finished, jobs, sorted, |finished| - maxFinished, Select(kept, jobs, false));
    } else {
      hide Select, Without;
      SameElementsSameLength(finished, Select(kept, jobs, false));
    }
    hide Select, Without, Evicted;
    SameElementsSameLength(Select(order, jobs, true), Select(kept, jobs, true));
  }

  lemma {:induction false} EarliestGone(finished: seq<JobId>, jobs: Jobs, sorted: seq<JobId>, k: nat, kept: seq<JobId>)
    requires Known(finished, jobs) && Distinct(finished) && k <= |finished|
    requires Distinct(sorted) && (forall id :: id in sorted <==> id in finished) && |sorted| == |finished|
    requires SortedByFinish(sorted, jobs)
    requires Distinct(kept) && forall id :: id in kept <==> id in finished && id !in sorted[..k]
    ensures |kept| == |finished| - k
    ensures forall id :: id in sorted[..k] ==> id in finished
    ensures forall early, late :: early in sorted[..k] && late in kept ==> jobs[early].FinishTime() <= jobs[late].FinishTime()
  {
    PrefixFinishedFirst(sorted, jobs, k);
    hide SortedByFinish;
    RestIsKept(sorted, k, kept);
    assert sorted == sorted[..k] + sorted[k..];
  }

  lemma {:induction false} RestIsKept(sorted: seq<JobId>, k: nat, kept: seq<JobId>)
    requires Distinct(sorted) && Distinct(kept) && k <= |sorted|
    requires forall id :: id in kept <==> id in sorted && id !in sorted[..k]
    ensures |kept| == |sorted| - k
    ensures forall id :: id in kept <==> id in sorted[k..]
  {
    var rest := sorted[k..];
    assert sorted == sorted[..k] + rest;
    forall id | id in rest ensures id !in sorted[..k] {
    }
    SameElementsSameLength(rest, kept);
  }

  // ---------------------------------------------------------------- the state machine

  /** `order` is the insertion order of the job table.  A job that was accepted is first in the
      hands of the submitting thread, then in the executor's backlog, then on the worker.
      `issued`, `handed` and `started` remember the history. */
  datatype State =
    State(maxPending: nat, maxFinished: nat, order: seq<JobId>, jobs: Jobs,
          inHand: set<JobId>, backlog: seq<JobId>, running: Option<JobId>,
          issued: set<JobId>, handed: seq<JobId>, started: seq<JobId>)

  datatype Event =
    | Submit(id: JobId, now: int)   // the locked part of submit, with a fresh id
    | HandOver(who: JobId)          // self._executor.submit(execute)
    | Start(at: int)                // the worker takes the next callable and marks it running
    | Finish(when: int, result: Result)

  ghost function Initial(maxPending: nat, maxFinished: nat): State {
    State(maxPending, maxFinished, [], map[], {}, [], None, {}, [], [])
  }

  ghost predicate Enabled(s: State, e: Event) {
    match e
    case Submit(id, _) => id !in s.issued
    case HandOver(id) => id in s.inHand
    case Start(_) => s.running.None? && s.backlog != []
    case Finish(_, _) => s.running.Some?
  }

  function NewJob(now: int): Job { Job(Queued, now, None, None, None, None) }

  function StartedJob(job: Job, now: int): Job { job.(status := Running, startedAt := Some(now)) }

  function FinishedJob(job: Job, now: int, result: Result): Job {
    match result
    case Returned(runId) => job.(status := Completed, runId := Some(runId), completedAt := Some(now))
    case Raised(error) => job.(status := Failed, error := Some(error), completedAt := Some(now))
  }

  /** There is room for another active job. */
  ghost predicate HasRoom(s: State)
    requires Known(s.order, s.jobs)
  {
    |Select(s.order, s.jobs, true)| < s.maxPending
  }

  function Restrict(jobs: Jobs, ids: seq<JobId>): Jobs {
    map id | id in jobs && id in ids :: jobs[id]
  }

  ghost function Next(s: State, e: Event): State
    requires Invariant(s) && Enabled(s, e)
  {
    match e
    case Submit(id, now) =>
      if !HasRoom(s) then s
      else
        var kept := Without(s.order, Evicted(s.order, s.jobs, s.maxFinished));
        s.(order := kept + [id], jobs := Restrict(s.jobs, kept)[id := NewJob(now)],
           inHand := s.inHand + {id}, issued := s.issued + {id})
    case HandOver(id) =>
      s.(inHand := s.inHand - {id}, backlog := s.backlog + [id], handed := s.handed + [id])
    case Start(now) =>
      var id := s.backlog[0];
      s.(backlog := s.backlog[1..], running := Some(id), started := s.started + [id],
         jobs := s.jobs[id := StartedJob(s.jobs[id], now)])
    case Finish(now, result) =>
      var id := s.running.value;
      s.(running := None, jobs := s.jobs[id := FinishedJob(s.jobs[id], now, result)])
  }

  /** The job table is consistent. */
  ghost predicate TableOk(s: State) {
    && Known(s.order, s.jobs) && Distinct(s.order)
    && (forall id :: id in s.jobs ==> id in s.order && id in s.issued)
  }

  /** Every active job is in exactly one place, and its status says which. */
  ghost predicate PlacesOk(s: State) {
    && (forall id :: id in s.jobs ==>
          && (s.jobs[id].status.Running? <==> s.running == Some(id))
          && (s.jobs[id].status.Queued? <==> id in s.inHand || id in s.backlog))
    && (forall id :: id in s.inHand ==> id in s.jobs && id !in s.backlog)
    && (forall id :: id in s.backlog ==> id in s.jobs)
    && (s.running.Some? ==> s.running.value in s.jobs)
  }

  /** Jobs start once each, in the order in which they were handed over. */
  ghost predicate HistoryOk(s: State) {
    && s.handed == s.started + s.backlog && Distinct(s.handed)
    && (forall id :: id in s.handed ==> id in s.issued && id !in s.inHand)
    && (s.running.Some? ==> s.started != [] && s.started[|s.started| - 1] == s.running.value)
  }

  ghost predicate BoundsOk(s: State)
    requires Known(s.order, s.jobs)
  {
    && |Select(s.order, s.jobs, true)| <= s.maxPending
    && |s.order| <= s.maxPending + s.maxFinished
  }

  /** What a job carries says how far it is: times for what has happened to it, a run id exactly
      when its run returned, and an error exactly when it raised. */
  ghost predicate RecordOk(job: Job) {
    && (job.status.Queued? <==> job.startedAt.None?)
    && (job.status.Queued? || job.status.Running? <==> job.completedAt.None?)
    && (job.status.Completed? <==> job.runId.Some? && job.error.None?)
    && (job.status.Failed? <==> job.error.Some? && job.runId.None?)
    && (job.status.Queued? || job.status.Running? <==> job.runId.None? && job.error.None?)
  }

  ghost predicate RecordsOk(s: State) {
    forall id :: id in s.jobs ==> RecordOk(s.jobs[id])
  }

  ghost predicate Invariant(s: State) {
    TableOk(s) && PlacesOk(s) && HistoryOk(s) && BoundsOk(s) && RecordsOk(s)
  }

  // ---------------------------------------------------------------- every step keeps the invariant

  /** Adding a fresh queued job to a table. */
  lemma {:induction false} AddedJob(kept: seq<JobId>, jobs: Jobs, id: JobId, now: int)
    requires Known(kept, jobs) && id !in kept
    ensures
      var jobs' := Restrict(jobs, kept)[id := NewJob(now)];
      && Known(kept + [id], jobs')
      && |Select(kept + [id], jobs', true)| == |Select(kept, jobs, true)| + 1
  {
    var jobs' := Restrict(jobs, kept)[id := NewJob(now)];
    assert (kept + [id])[..|kept|] == kept;
    SelectFrame(kept, jobs, jobs', true);
  }

  /** The table after an accepted submission. */
  lemma {:induction false} SubmitTable(s: State, id: JobId, now: int)
    requires Invariant(s) && id !in s.issued && HasRoom(s)
    ensures
      var kept := Without(s.order, Evicted(s.order, s.jobs, s.maxFinished));
      var jobs := Restrict(s.jobs, kept)[id := NewJob(now)];
      && id !in kept && Known(kept + [id], jobs) && Distinct(kept + [id])
      && (forall x :: x in kept ==> x in s.jobs)
      && (forall x :: x in s.jobs && s.jobs[x].Active() ==> x in kept)
      && |Select(kept + [id], jobs, true)| == |Select(s.order, s.jobs, true)| + 1
      && |kept| <= |Select(s.order, s.jobs, true)| + s.maxFinished
  {
    hide Evicted, Without, Select, PlacesOk, HistoryOk, BoundsOk;
    var gone := Evicted(s.order, s.jobs, s.maxFinished);
    var kept := Without(s.order, gone);
    EvictionKeepsMostRecent(s.order, s.jobs, s.maxFinished);
    WithoutRemoves(s.order, gone);
    SelectSplits(kept, s.jobs);
    AddedJob(kept, s.jobs, id, now);
  }

  /** A fresh job in the submitter's hands; every active job keeps its place. */
  lemma {:induction false} SubmitPlaces(s: State, s': State, kept: seq<JobId>, id: JobId, now: int)
    requires PlacesOk(s) && id !in s.jobs && id !in s.backlog
    requires s'.jobs == Restrict(s.jobs, kept)[id := NewJob(now)] && s'.inHand == s.inHand + {id}
    requires s'.backlog == s.backlog && s'.running == s.running
    requires forall x :: x in s.jobs && s.jobs[x].Active() ==> x in kept
    ensures PlacesOk(s')
  {
    forall x | x in s'.jobs && x != id ensures x in s.jobs && s'.jobs[x] == s.jobs[x] {}
  }

  lemma {:induction false} SubmitRecords(s: State, s': State, kept: seq<JobId>, id: JobId, now: int)
    requires RecordsOk(s) && s'.jobs == Restrict(s.jobs, kept)[id := NewJob(now)]
    ensures RecordsOk(s')
  {
    forall x | x in s'.jobs && x != id ensures x in s.jobs && s'.jobs[x] == s.jobs[x] {}
  }

  lemma {:induction false} SubmitKeepsInvariant(s: State, id: JobId, now: int)
    requires Invariant(s) && id !in s.issued
    ensures Invariant(Next(s, Submit(id, now)))
  {
    if HasRoom(s) {
      SubmitTable(s, id, now);
      var s' := Next(s, Submit(id, now));
      var kept := Without(s.order, Evicted(s.order, s.jobs, s.maxFinished));
      hide Without, Evicted, Select;
      SubmitPlaces(s, s', kept, id, now);
      SubmitRecords(s, s', kept, id, now);
      hide PlacesOk, RecordsOk;
      assert TableOk(s') && BoundsOk(s');
    }
  }

  lemma {:induction false} HandOverKeepsInvariant(s: State, id: JobId)
    requires Invariant(s) && id in s.inHand
    ensures Invariant(Next(s, HandOver(id)))
  {
    hide Select;
    var s' := Next(s, HandOver(id));
    assert s'.handed == s'.started + s'.backlog;
  }

  lemma {:induction false} StartHistory(s: State, s': State)
    requires HistoryOk(s) && s.backlog != []
    requires s'.backlog == s.backlog[1..] && s'.started == s.started + [s.backlog[0]] && s'.running == Some(s.backlog[0])
    requires s'.handed == s.handed && s'.issued == s.issued && s'.inHand == s.inHand
    ensures HistoryOk(s') && s.backlog[0] !in s.backlog[1..] && s.backlog[0] !in s.inHand
  {
    assert s'.handed == s'.started + s'.backlog;
    assert forall i :: 0 <= i < |s.backlog| ==> s.handed[|s.started| + i] == s.backlog[i];
    assert s.backlog[0] in s.handed;
  }

  lemma {:induction false} StartKeepsInvariant(s: State, now: int)
    requires Invariant(s) && s.running.None? && s.backlog != []
    ensures Invariant(Next(s, Start(now)))
  {
    var s' := Next(s, Start(now));
    var id := s.backlog[0];
    assert s.backlog == [id] + s.backlog[1..];
    assert id in s.jobs && s.jobs[id].status.Queued?;
    SelectFrame(s.order, s.jobs, s'.jobs, true);
    hide Select;
    StartHistory(s, s');
    hide HistoryOk;
    assert PlacesOk(s');
  }

  lemma {:induction false} FinishKeepsInvariant(s: State, now: int, result: Result)
    requires Invariant(s) && s.running.Some?
    ensures Invariant(Next(s, Finish(now, result)))
  {
    var s' := Next(s, Finish(now, result));
    FewerActive(s.order, s.jobs, s'.jobs);
    hide Select;
    assert PlacesOk(s');
  }

  /** Every step that is possible keeps the invariant. */
  lemma {:induction false} StepKeepsInvariant(s: State, e: Event)
    requires Invariant(s)
    ensures Enabled(s, e) ==> Invariant(Next(s, e))
  {
    if Enabled(s, e) {
      match e
      case Submit(id, now) => SubmitKeepsInvariant(s, id, now);
      case HandOver(id) => HandOverKeepsInvariant(s, id);
      case Start(now) => StartKeepsInvariant(s, now);
      case Finish(now, result) => FinishKeepsInvariant(s, now, result);
    }
  }

  // ---------------------------------------------------------------- all runs

  /** s' is reached from s by these steps, in any interleaving of threads. */
  ghost predicate Reaches(s: State, events: seq<Event>, s': State)
    requires Invariant(s)
    decreases |events|
  {
    if events == [] then s' == s
    else
      StepKeepsInvariant(s, events[0]);
      Enabled(s, events[0]) && Reaches(Next(s, events[0]), events[1..], s')
  }

  /** Safety of every run: bounded active and stored jobs, at most one
      running, every active job still in the table, and jobs started once each in hand-over order. */
  lemma {:induction false} EveryRunIsSafe(s: State, events: seq<Event>, s': State)
    requires Invariant(s) && Reaches(s, events, s')
    decreases |events|
    ensures Invariant(s')
    ensures |s'.jobs| <= s'.maxPending + s'.maxFinished
    ensures |Select(s'.order, s'.jobs, true)| <= s'.maxPending
    ensures forall x, y :: x in s'.jobs && y in s'.jobs && s'.jobs[x].status.Running? && s'.jobs[y].status.Running? ==> x == y
    ensures forall id :: id in s'.inHand || id in s'.backlog || s'.running == Some(id) ==> id in s'.jobs
    ensures s'.started <= s'.handed && Distinct(s'.handed)
    ensures forall id :: id in s'.jobs ==> RecordOk(s'.jobs[id])
  {
    if events == [] {
      DistinctCount(s'.order);
      assert s'.jobs.Keys == Ids(s'.order);
    } else {
      StepKeepsInvariant(s, events[0]);
      EveryRunIsSafe(Next(s, events[0]), events[1..], s');
    }
  }

  lemma {:induction false} EmptyQueueIsSafe(maxPending: nat, maxFinished: nat)
    ensures Invariant(Initial(maxPending, maxFinished))
  {
  }

  /** s is reached from a new queue with these limits. */
  ghost predicate Reachable(maxPending: nat, maxFinished: nat, events: seq<Event>, s: State) {
    EmptyQueueIsSafe(maxPending, maxFinished);
    Reaches(Initial(maxPending, maxFinished), events, s)
  }

  lemma {:induction false} LimitsStay(s: State, events: seq<Event>, s': State)
    requires Invariant(s) && Reaches(s, events, s')
    decreases |events|
    ensures s'.maxPending == s.maxPending && s'.maxFinished == s.maxFinished
  {
    if events != [] {
      StepKeepsInvariant(s, events[0]);
      LimitsStay(Next(s, events[0]), events[1..], s');
    }
  }

  /** The same for the runs of a new queue, in terms of its limits. */
  lemma {:induction false} NewQueueIsSafe(maxPending: nat, maxFinished: nat, events: seq<Event>, s: State)
    requires Reachable(maxPending, maxFinished, events, s)
    ensures Invariant(s)
    ensures |s.jobs| <= maxPending + maxFinished && |Select(s.order, s.jobs, true)| <= maxPending
    ensures forall id :: id in s.inHand || id in s.backlog || s.running == Some(id) ==> id in s.jobs
    ensures s.started <= s.handed && Distinct(s.handed)
    ensures forall id :: id in s.jobs ==> RecordOk(s.jobs[id])
  {
    EmptyQueueIsSafe(maxPending, maxFinished);
    EveryRunIsSafe(Initial(maxPending, maxFinished), events, s);
    LimitsStay(Initial(maxPending, maxFinished), events, s);
  }

  /** Progress of one job: queued, running, then completed or failed. */
  function Stage(status: Status): nat {
    match status
    case Queued => 0
    case Running => 1
    case Completed => 2
    case Failed => 2
  }

  /** What a step may do to one job: no stage is skipped or reversed, an active job is not lost, a
      finished one does not change, and one that is gone does not come back. */
  ghost predicate Forward(before: Jobs, after: Jobs, id: JobId) {
    if id !in before then id !in after
    else if before[id].Active() then
      && id in after && Stage(before[id].status) <= Stage(after[id].status) <= Stage(before[id].status) + 1
      && (Stage(after[id].status) == Stage(before[id].status) ==> after[id] == before[id])
    else id in after ==> after[id] == before[id]
  }

  /** Every step moves every known job forward. */
  lemma {:induction false} StepMovesForward(s: State, e: Event, id: JobId)
    requires Invariant(s) && Enabled(s, e) && id in s.issued
    ensures Forward(s.jobs, Next(s, e).jobs, id)
    ensures id in s.jobs && id in Next(s, e).jobs && s.jobs[id].status != Next(s, e).jobs[id].status && e.Finish? ==>
              Next(s, e).jobs[id].status == if e.result.Returned? then Completed else Failed
    ensures s.issued <= Next(s, e).issued && s.handed <= Next(s, e).handed && s.started <= Next(s, e).started
  {
    hide Select;
    match e
    case Submit(new_, now) =>
      if HasRoom(s) { SubmitTable(s, new_, now); }
    case HandOver(who) =>
    case Start(at) =>
      assert s.backlog[0] in s.backlog;
    case Finish(at, result) =>
  }

  /** What each step writes into the job that it is about, field by field. */
  lemma {:induction false} StepWrites(s: State, e: Event)
    requires Invariant(s) && Enabled(s, e)
    ensures
      var after := Next(s, e).jobs;
      match e
      case Submit(id, now) =>
        |Select(s.order, s.jobs, true)| < s.maxPending ==> id in after && after[id] == Job(Queued, now, None, None, None, None)
      case HandOver(id) => after == s.jobs
      case Start(at) =>
        var id := s.backlog[0];
        id in s.jobs && after == s.jobs[id := Job(Running, s.jobs[id].submittedAt, Some(at), None, None, None)]
      case Finish(when, result) =>
        var id := s.running.value;
        && id in s.jobs
        && after == s.jobs[id :=
             if result.Returned?
             then Job(Completed, s.jobs[id].submittedAt, s.jobs[id].startedAt, Some(when), Some(result.runId), None)
             else Job(Failed, s.jobs[id].submittedAt, s.jobs[id].startedAt, Some(when), None, Some(result.error))]
  {
    hide Select, HistoryOk, BoundsOk;
    if e.Start? { assert s.backlog[0] in s.backlog; }
  }

  /** The jobs that a submission evicts were completed, and no later than any finished job it keeps. */
  lemma {:induction false} EvictedCompletedFirst(s: State, id: JobId, now: int)
    requires Invariant(s) && id !in s.issued
    ensures
      var after := Next(s, Submit(id, now)).jobs;
      forall early, late :: early in s.jobs && early !in after && late in s.jobs && late in after && s.jobs[late].completedAt.Some? ==>
        s.jobs[early].completedAt.Some? && s.jobs[early].completedAt.value <= s.jobs[late].completedAt.value
  {
    EvictionKeepsMostRecent(s.order, s.jobs, s.maxFinished);
    WithoutRemoves(s.order, Evicted(s.order, s.jobs, s.maxFinished));
    hide Select, Without, Evicted, PlacesOk, HistoryOk, BoundsOk;
  }

  /** Over whole runs: statuses only move forward and ids never come back. */
  lemma {:induction false} RunsMoveForward(s: State, events: seq<Event>, s': State, id: JobId)
    requires Invariant(s) && Reaches(s, events, s') && id in s.issued
    decreases |events|
    ensures id in s.jobs && id in s'.jobs ==> Stage(s.jobs[id].status) <= Stage(s'.jobs[id].status)
    ensures id in s.jobs && !s.jobs[id].Active() && id in s'.jobs ==> s'.jobs[id] == s.jobs[id]
    ensures id !in s.jobs ==> id !in s'.jobs
    ensures s.handed <= s'.handed && s.started <= s'.started
  {
    if events != [] {
      var e := events[0];
      var t := Next(s, e);
      StepKeepsInvariant(s, e);
      StepMovesForward(s, e, id);
      RunsMoveForward(t, events[1..], s', id);
    }
  }

  /** A submission is refused exactly when maxPending jobs are active, whatever their places. */
  lemma {:induction false} RefusedExactlyWhenFull(s: State, id: JobId, now: int)
    requires Invariant(s) && id !in s.issued
    ensures Next(s, Submit(id, now)) == s <==> |Select(s.order, s.jobs, true)| == s.maxPending
  {
    if HasRoom(s) {
      assert id in Next(s, Submit(id, now)).issued;
    }
  }

  // ---------------------------------------------------------------- draining

  /** Steps that are still to be taken for the jobs accepted so far. */
  ghost function WorkLeft(s: State): nat {
    3 * |s.inHand| + 2 * |s.backlog| + if s.running.Some? then 1 else 0
  }

  /** Every step but a submission takes one piece of work off, such a step is possible as long as
      work is left, and nothing is left exactly when no job is active. */
  lemma {:induction false} WorkIsTakenOff(s: State, e: Event)
    requires Invariant(s)
    ensures Enabled(s, e) && !e.Submit? ==> WorkLeft(Next(s, e)) == WorkLeft(s) - 1 && Next(s, e).jobs.Keys == s.jobs.Keys
    ensures WorkLeft(s) > 0 ==> exists next: Event :: !next.Submit? && Enabled(s, next)
    ensures WorkLeft(s) == 0 <==> forall id :: id in s.jobs ==> !s.jobs[id].Active()
  {
    hide Select;
    if s.inHand != {} {
      var id :| id in s.inHand;
      assert Enabled(s, HandOver(id));
      assert s.jobs[id].Active();
    } else if s.backlog != [] {
      assert s.backlog[0] in s.jobs && s.jobs[s.backlog[0]].Active();
    }
    if s.running.Some? {
      assert Enabled(s, Finish(0, Raised("")));
    } else if s.backlog != [] {
      assert Enabled(s, Start(0));
    }
  }

  ghost predicate NoSubmission(events: seq<Event>) {
    forall i :: 0 <= i < |events| ==> !events[i].Submit?
  }

  /** Once submissions stop, a run has exactly as many steps as it does work, and the run that does
      all of it, in whatever order, ends with every job completed or failed. */
  lemma {:induction false} QueueDrains(s: State, events: seq<Event>, s': State)
    requires Invariant(s) && Reaches(s, events, s') && NoSubmission(events)
    decreases |events|
    ensures Invariant(s') && WorkLeft(s') + |events| == WorkLeft(s)
    ensures |events| == WorkLeft(s) <==> forall id :: id in s'.jobs ==> !s'.jobs[id].Active()
    ensures s'.jobs.Keys == s.jobs.Keys
  {
    if events == [] {
      WorkIsTakenOff(s, Start(0));
    } else {
      StepKeepsInvariant(s, events[0]);
      WorkIsTakenOff(s, events[0]);
      QueueDrains(Next(s, events[0]), events[1..], s');
    }
  }

  // ---------------------------------------------------------------- the queue object

  lemma {:induction false} WithoutOneMore(order: seq<JobId>, gone: seq<JobId>, id: JobId)
    ensures Without(Without(order, gone), [id]) == Without(order, gone + [id])
  {
    if order != [] {
      var rest, last := order[..|order| - 1], order[|order| - 1];
      WithoutOneMore(rest, gone, id);
      var kept := Without(rest, gone);
      if last in gone {
        assert kept + [] == kept;
      } else {
        assert Without(order, gone) == kept + [last];
      }
    }
  }

  lemma {:induction false} WithoutNothing(order: seq<JobId>)
    ensures Without(order, []) == order
  {
    if order != [] {
      WithoutNothing(order[..|order| - 1]);
    }
  }

  lemma {:induction false} SelectStep(order: seq<JobId>, jobs: Jobs, active: bool, k: nat)
    requires Known(order, jobs) && k < |order|
    ensures Known(order[..k], jobs) && Known(order[..k + 1], jobs)
    ensures Select(order[..k + 1], jobs, active)
         == Select(order[..k], jobs, active) + if jobs[order[k]].Active() == active then [order[k]] else []
  {
    assert order[..k + 1][..k] == order[..k];
  }

  function Dropped(jobs: Jobs, gone: seq<JobId>): Jobs {
    map id | id in jobs && id !in gone :: jobs[id]
  }

  lemma {:induction false} DroppedOneMore(jobs: Jobs, gone: seq<JobId>, i: nat)
    requires i < |gone|
    ensures Dropped(jobs, gone[..i + 1]) == Dropped(jobs, gone[..i]) - {gone[i]}
    ensures gone[..i + 1] == gone[..i] + [gone[i]]
  {
  }

  lemma {:induction false} EvictedOf(order: seq<JobId>, jobs: Jobs, maxFinished: nat)
    requires Known(order, jobs)
    ensures Dropped(jobs, []) == jobs
    ensures
      var finished := Select(order, jobs, false);
      && Known(finished, jobs)
      && Evicted(order, jobs, maxFinished)
         == if |finished| <= maxFinished then [] else SortByFinish(finished, jobs)[..|finished| - maxFinished]
  {
    SelectIsSublist(order, jobs, false);
  }

  lemma {:induction false} SubmitOutcome(s: State, id: JobId, now: int)
    requires Invariant(s) && id !in s.issued
    ensures Known(s.order, s.jobs) && Invariant(Next(s, Submit(id, now)))
    ensures
      var gone := Evicted(s.order, s.jobs, s.maxFinished);
      Next(s, Submit(id, now)) ==
        if |Select(s.order, s.jobs, true)| >= s.maxPending then s
        else s.(order := Without(s.order, gone) + [id], jobs := Dropped(s.jobs, gone)[id := NewJob(now)],
                inHand := s.inHand + {id}, issued := s.issued + {id})
  {
    StepKeepsInvariant(s, Submit(id, now));
    var gone := Evicted(s.order, s.jobs, s.maxFinished);
    WithoutRemoves(s.order, gone);
    hide Select, Without, Evicted, PlacesOk, HistoryOk, BoundsOk;
    assert Restrict(s.jobs, Without(s.order, gone)) == Dropped(s.jobs, gone);
  }

  /** The queue with its executor.  `order` is the insertion order of the job dictionary; `inHand`
      holds what a submitting thread has accepted under the lock but not yet handed over. */
  class Queue {
    const maxPending: nat
    const maxFinished: nat
    var order: seq<JobId>
    var jobs: Jobs
    var inHand: set<JobId>
    var backlog: seq<JobId>
    var running: Option<JobId>
    ghost var issued: set<JobId>
    ghost var handed: seq<JobId>
    ghost var started: seq<JobId>

    ghost function Snapshot(): State
      reads this
    {
      State(maxPending, maxFinished, order, jobs, inHand, backlog, running, issued, handed, started)
    }

    constructor (maxPending: nat, maxFinished: nat)
      ensures Snapshot() == Initial(maxPending, maxFinished) && Invariant(Snapshot())
    {
      this.maxPending, this.maxFinished := maxPending, maxFinished;
      order, jobs, inHand, backlog, running := [], map[], {}, [], None;
      issued, handed, started := {}, [], [];
    }

    /** The jobs of one kind, in insertion order. */
    method Collect(active: bool) returns (found: seq<JobId>)
      requires Known(order, jobs)
      ensures found == Select(order, jobs, active)
    {
      found := [];
      for k := 0 to |order|
        invariant Known(order[..k], jobs) && found == Select(order[..k], jobs, active)
      {
        SelectStep(order, jobs, active, k);
        if jobs[order[k]].Active() == active { found := found + [order[k]]; }
      }
      assert order[..|order|] == order;
    }

    /** Removes these dictionary entries one at a time. */
    method Pop(gone: seq<JobId>)
      modifies this`order, this`jobs
      ensures order == Without(old(order), gone)
      ensures jobs == Dropped(old(jobs), gone)
    {
      WithoutNothing(order);
      for i := 0 to |gone|
        invariant order == Without(old(order), gone[..i])
        invariant jobs == Dropped(old(jobs), gone[..i])
      {
        WithoutOneMore(old(order), gone[..i], gone[i]);
        DroppedOneMore(old(jobs), gone, i);
        order, jobs := Without(order, [gone[i]]), jobs - {gone[i]};
      }
      assert gone[..|gone|] == gone;
    }

    /** Drops the finished jobs beyond maxFinished. */
    method Evict()
      requires Known(order, jobs)
      modifies this`order, this`jobs
      ensures Known(old(order), old(jobs))
      ensures order == Without(old(order), Evicted(old(order), old(jobs), maxFinished))
      ensures jobs == Dropped(old(jobs), Evicted(old(order), old(jobs), maxFinished))
    {
      hide *;
      EvictedOf(order, jobs, maxFinished);
      WithoutNothing(order);
      var finished := Collect(false);
      if |finished| <= maxFinished { return; }
      var sorted := SortByFinish(finished, jobs);
      Pop(sorted[..|finished| - maxFinished]);
    }

    /** The part of a submission that holds the lock.  `id` is a fresh identifier. */
    method Submit(id: JobId, now: int) returns (job: Option<JobId>)
      requires Invariant(Snapshot()) && id !in issued
      modifies this
      ensures Invariant(old(Snapshot())) && Snapshot() == Next(old(Snapshot()), Event.Submit(id, now))
      ensures Invariant(Snapshot())
      ensures job == if |Select(old(order), old(jobs), true)| < maxPending then Some(id) else None
      ensures job.Some? ==> id in jobs && jobs[id] == Job(Queued, now, None, None, None, None)
    {
      ghost var before := Snapshot();
      SubmitOutcome(before, id, now);
      hide Select, Without, Evicted, Invariant, TableOk, PlacesOk, HistoryOk, BoundsOk, Next, Dropped, NewJob, Known;
      var pending := Collect(true);
      if |pending| >= maxPending { return None; }
      Evict();
      order, jobs := order + [id], jobs[id := NewJob(now)];
      inHand, issued := inHand + {id}, issued + {id};
      return Some(id);
    }

    /** The submitting thread gives the job to the executor, outside the lock. */
    method HandOver(id: JobId)
      requires Invariant(Snapshot()) && id in inHand
      modifies this
      ensures Invariant(old(Snapshot())) && Snapshot() == Next(old(Snapshot()), Event.HandOver(id))
      ensures Invariant(Snapshot())
    {
      StepKeepsInvariant(Snapshot(), Event.HandOver(id));
      inHand, backlog, handed := inHand - {id}, backlog + [id], handed + [id];
    }

    /** The worker thread begins its next job. */
    method Start(now: int)
      requires Invariant(Snapshot()) && running.None? && backlog != []
      modifies this
      ensures Invariant(old(Snapshot())) && Snapshot() == Next(old(Snapshot()), Event.Start(now))
      ensures Invariant(Snapshot())
      ensures running == Some(old(backlog[0])) && old(backlog[0]) in jobs
      ensures jobs[old(backlog[0])].status.Running? && jobs[old(backlog[0])].startedAt == Some(now)
    {
      StepKeepsInvariant(Snapshot(), Event.Start(now));
      var id := backlog[0];
      assert id in backlog;
      backlog, running := backlog[1..], Some(id);
      started := started + [id];
      jobs := jobs[id := jobs[id].(status := Running, startedAt := Some(now))];
    }

    /** The running callable has returned or raised. */
    method Finish(now: int, result: Result)
      requires Invariant(Snapshot()) && running.Some?
      modifies this
      ensures Invariant(old(Snapshot())) && Snapshot() == Next(old(Snapshot()), Event.Finish(now, result))
      ensures Invariant(Snapshot())
      ensures
        var id := old(running).value;
        && id in jobs && jobs[id].completedAt == Some(now)
        && match result
           case Returned(runId) => jobs[id].status.Completed? && jobs[id].runId == Some(runId) && jobs[id].error.None?
           case Raised(error) => jobs[id].status.Failed? && jobs[id].error == Some(error) && jobs[id].runId.None?
    {
      StepKeepsInvariant(Snapshot(), Event.Finish(now, result));
      var id := running.value;
      match result {
        case Returned(runId) =>
          jobs := jobs[id := jobs[id].(status := Completed, runId := Some(runId), completedAt := Some(now))];
        case Raised(error) =>
          jobs := jobs[id := jobs[id].(status := Failed, error := Some(error), completedAt := Some(now))];
      }
      running := None;
    }

    /** A copy of the job, if it is still stored; every active job is. */
    method Get(id: JobId) returns (job: Option<Job>)
      requires Invariant(Snapshot())
      ensures job == if id in jobs then Some(jobs[id]) else None
      ensures id in inHand || id in backlog || running == Some(id) ==> job.Some? && job.value.Active()
    {
      if id in jobs { return Some(jobs[id]); }
      return None;
    }
  }
}
