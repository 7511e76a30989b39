/**
 The error queue of the maintenance team and the pipeline that drives errors through it, as
 one state machine. A step is the code that runs between two `await`s.
 */
module ErrorQueue {
  import opened Sequences
  import opened EditDistance

  type Id = string

  /** `frames` lists the files of the stack frames; a missing trace has none. */
  datatype ErrorEvent = ErrorEvent(id: Id, message: string, frames: seq<string>, autoFixable: bool)

  datatype Status = TestWriting | Patching | PrCreating | Completed | Failed
  {
    predicate Working() {
      TestWriting? || Patching? || PrCreating?
    }

    function Rank(): nat {
      match this
      case TestWriting => 0
      case Patching => 1
      case PrCreating => 2
      case Completed => 3
      case Failed => 3
    }

    /** A job may stay where it is or move on; a finished job stays finished. */
    predicate MayBecome(next: Status) {
      next == this || Rank() < next.Rank()
    }
  }

  // ------------------------------------------------------------------ similarity of errors

  function MatchingFrames(a: seq<string>, b: seq<string>): nat {
    if a == [] then 0
    else MatchingFrames(a[..|a| - 1], b) + if a[|a| - 1] in b then 1 else 0
  }

  function TraceSimilarity(a: seq<string>, b: seq<string>): real {
    if a == [] || b == [] then 0.0
    else
      var longer := if |a| > |b| then |a| else |b|;
      MatchingFrames(a, b) as real / longer as real
  }

  /** `errorsAreSimilar(a, b)`. */
  ghost predicate Similar(a: ErrorEvent, b: ErrorEvent) {
    Similarity(a.message, b.message) > 0.8 || TraceSimilarity(a.frames, b.frames) > 0.7
  }

  /** How many frames of `a` are frames of `b`. */
  ghost function CommonFrames(a: seq<string>, b: seq<string>): set<nat> {
    set i | 0 <= i < |a| && a[i] in b
  }

  lemma {:induction false} MatchingFramesCount(a: seq<string>, b: seq<string>)
    ensures MatchingFrames(a, b) == |CommonFrames(a, b)|
  {
    if a == [] {
      assert CommonFrames(a, b) == {};
    } else {
      var n := |a| - 1;
      MatchingFramesCount(a[..n], b);
      assert CommonFrames(a, b) == CommonFrames(a[..n], b) + if a[n] in b then {n} else {};
    }
  }

  function LongerTrace(a: seq<string>, b: seq<string>): nat {
    if |a| > |b| then |a| else |b|
  }

  /** Traces are more than 0.7 similar exactly when more than seven tenths of the longer one agree. */
  lemma TraceAboveSevenTenths(a: seq<string>, b: seq<string>)
    ensures TraceSimilarity(a, b) > 0.7 <==>
      a != [] && b != [] && 10 * |CommonFrames(a, b)| > 7 * LongerTrace(a, b)
  {
    if a != [] && b != [] {
      MatchingFramesCount(a, b);
      assert TraceSimilarity(a, b) == Share(MatchingFrames(a, b), LongerTrace(a, b));
      ShareAgainst(MatchingFrames(a, b), LongerTrace(a, b), 0.7);
      hide *;
    }
  }

  /**
   When two errors are similar, in numbers of edits and frames: fewer than a fifth of the longer
   message is edited, or more than seven tenths of the longer trace agree. Empty messages and
   empty traces never count.
   */
  lemma SimilarMeans(a: ErrorEvent, b: ErrorEvent, d: nat)
    requires IsEditDistance(a.message, b.message, d)
    ensures Similar(a, b) <==>
      || (a.message != "" && b.message != "" && 5 * d < Longer(a.message, b.message))
      || (a.frames != [] && b.frames != []
          && 10 * |CommonFrames(a.frames, b.frames)| > 7 * LongerTrace(a.frames, b.frames))
  {
    SimilarAboveFourFifths(a.message, b.message, d);
    TraceAboveSevenTenths(a.frames, b.frames);
    hide Similarity, TraceSimilarity, IsEditDistance, Longer, LongerTrace;
  }

  method ErrorsAreSimilar(a: ErrorEvent, b: ErrorEvent) returns (r: bool)
    ensures r <==> Similar(a, b)
  {
    var msgSimilarity := StringSimilarity(a.message, b.message);
    if msgSimilarity > 0.8 {
      return true;
    }
    return TraceSimilarity(a.frames, b.frames) > 0.7;
  }

  /** An error is similar to itself unless its message is empty and no trace speaks for it. */
  lemma SimilarToItself(e: ErrorEvent)
    ensures Similar(e, e) <==> e.message != "" || e.frames != []
  {
    SimilarityLaws(e.message, e.message);
    if e.frames != [] {
      AllFramesMatch(e.frames, e.frames);
      assert TraceSimilarity(e.frames, e.frames) == 1.0;
    }
  }

  lemma {:induction false} AllFramesMatch(a: seq<string>, b: seq<string>)
    requires forall f :: f in a ==> f in b
    ensures MatchingFrames(a, b) == |a|
  {
    if a != [] {
      AllFramesMatch(a[..|a| - 1], b);
    }
  }

  // ------------------------------------------------------------------ the state machine

  /**
   The maps of the listener and of the orchestrator. `accepted` is the history of errors that
   passed the deduplication and `started` that of the pipelines, both in order.
   */
  datatype State = State(
    unprocessed: map<Id, ErrorEvent>,
    processing: map<Id, ErrorEvent>,
    resolved: map<Id, ErrorEvent>,
    jobs: map<Id, Status>,
    accepted: seq<ErrorEvent>,
    started: seq<Id>)
  {
    ghost predicate Pending(e: ErrorEvent) {
      e.id in unprocessed || e.id in processing
    }

    /** Some pending error makes `e` a duplicate. */
    ghost predicate Duplicate(e: ErrorEvent) {
      || (exists id :: id in unprocessed && Similar(e, unprocessed[id]))
      || (exists id :: id in processing && Similar(e, processing[id]))
    }

    ghost predicate Known(id: Id) {
      id in unprocessed || id in processing || id in resolved
    }
  }

  const INITIAL := State(map[], map[], map[], map[], [], [])

  datatype Event =
    | Detected(error: ErrorEvent)
    | Process(id: Id)
    | Polled(id: Id, maxConcurrentJobs: int)
    | TestDone(id: Id, reproduces: bool)
    | FixDone(id: Id, ok: bool)
    | PrDone(id: Id, ok: bool)
    | EmitThrew(id: Id)

  /** Fresh ids come from a UUID generator; the other events are answers of a running pipeline. */
  ghost predicate Enabled(s: State, ev: Event) {
    match ev
    case Detected(e) => !s.Known(e.id)
    case Process(_) => true
    case Polled(_, _) => true
    case TestDone(id, _) => id in s.jobs && s.jobs[id] == TestWriting
    case FixDone(id, _) => id in s.jobs && s.jobs[id] == Patching
    case PrDone(id, _) => id in s.jobs && s.jobs[id] == PrCreating
    case EmitThrew(id) => id in s.jobs && s.jobs[id] == Completed
  }

  ghost function Detect(s: State, e: ErrorEvent): State {
    if s.Duplicate(e) then s
    else s.(unprocessed := s.unprocessed[e.id := e], accepted := s.accepted + [e])
  }

  /** `processError` up to its `await`. */
  ghost function StartJob(s: State, id: Id): State {
    if id in s.unprocessed && id !in s.jobs && s.unprocessed[id].autoFixable then
      s.(jobs := s.jobs[id := TestWriting],
         unprocessed := s.unprocessed - {id},
         processing := s.processing[id := s.unprocessed[id]],
         started := s.started + [id])
    else s
  }

  ghost function Advance(s: State, id: Id, status: Status): State {
    s.(jobs := s.jobs[id := status])
  }

  /** The handler of a rejected pipeline. */
  ghost function FailJob(s: State, id: Id): State {
    var failed := Advance(s, id, Failed);
    if id in s.processing then
      failed.(processing := s.processing - {id}, unprocessed := s.unprocessed[id := s.processing[id]])
    else failed
  }

  /** The end of the pipeline: `completed` and `markAsResolved`. */
  ghost function CompleteJob(s: State, id: Id): State {
    var completed := Advance(s, id, Completed);
    if id in s.processing then
      completed.(processing := s.processing - {id}, resolved := s.resolved[id := s.processing[id]])
    else completed
  }

  ghost function Step(s: State, ev: Event): State {
    match ev
    case Detected(e) => Detect(s, e)
    case Process(id) => StartJob(s, id)
    case Polled(id, max) => if |s.jobs| >= max || id in s.jobs then s else StartJob(s, id)
    case TestDone(id, reproduces) => if reproduces then Advance(s, id, Patching) else FailJob(s, id)
    case FixDone(id, ok) => if ok then Advance(s, id, PrCreating) else FailJob(s, id)
    case PrDone(id, ok) => if ok then CompleteJob(s, id) else FailJob(s, id)
    case EmitThrew(id) => FailJob(s, id)
  }

  // ------------------------------------------------------------------ the joint invariant

  /** Every accepted error is in exactly one of the three maps, and nothing else is. */
  ghost predicate Conserved(s: State) {
    && (forall i, j :: 0 <= i < j < |s.accepted| ==> s.accepted[i].id != s.accepted[j].id)
    && s.unprocessed.Keys !! s.processing.Keys
    && s.unprocessed.Keys !! s.resolved.Keys
    && s.processing.Keys !! s.resolved.Keys
    && (forall e :: e in s.accepted ==> s.Known(e.id))
    && (forall id :: id in s.unprocessed ==> s.unprocessed[id] in s.accepted && s.unprocessed[id].id == id)
    && (forall id :: id in s.processing ==> s.processing[id] in s.accepted && s.processing[id].id == id)
    && (forall id :: id in s.resolved ==> s.resolved[id] in s.accepted && s.resolved[id].id == id)
  }

  /** No pending error is similar to one that is pending and was accepted before it. */
  ghost predicate Deduplicated(s: State) {
    forall i, j :: 0 <= i < j < |s.accepted| && s.Pending(s.accepted[i]) && s.Pending(s.accepted[j])
      ==> !Similar(s.accepted[j], s.accepted[i])
  }

  /** Every job ran exactly one pipeline. */
  ghost predicate OnePipelineEach(s: State) {
    Distinct(s.started) && forall id :: id in s.started <==> id in s.jobs
  }

  /** The part of the invariant that no event breaks. */
  ghost predicate Core(s: State) {
    Conserved(s) && Deduplicated(s) && OnePipelineEach(s)
  }

  /** Where an error is follows from the status of its job. */
  ghost predicate StatusMatches(s: State, id: Id) {
    && (id in s.processing <==> id in s.jobs && s.jobs[id].Working())
    && (id in s.resolved <==> id in s.jobs && s.jobs[id] == Completed)
    && (id in s.jobs && s.jobs[id] == Failed ==> id in s.unprocessed)
  }

  ghost predicate Inv(s: State) {
    Core(s) && forall id :: StatusMatches(s, id)
  }

  lemma DetectKeepsConserved(s: State, e: ErrorEvent)
    requires Conserved(s) && !s.Known(e.id)
    ensures Conserved(s.(unprocessed := s.unprocessed[e.id := e], accepted := s.accepted + [e]))
  {
    assert forall a :: a in s.accepted ==> s.Known(a.id);
  }

  lemma StartKeepsConserved(s: State, id: Id)
    requires Conserved(s) && id in s.unprocessed
    ensures Conserved(s.(unprocessed := s.unprocessed - {id}, processing := s.processing[id := s.unprocessed[id]]))
  {
  }

  lemma FailKeepsConserved(s: State, id: Id)
    requires Conserved(s) && id in s.processing
    ensures Conserved(s.(processing := s.processing - {id}, unprocessed := s.unprocessed[id := s.processing[id]]))
  {
  }

  lemma CompleteKeepsConserved(s: State, id: Id)
    requires Conserved(s) && id in s.processing
    ensures Conserved(s.(processing := s.processing - {id}, resolved := s.resolved[id := s.processing[id]]))
  {
  }

  /** The maps and the history decide about conservation and duplicates; jobs do not. */
  lemma SameMaps(s: State, t: State)
    requires s.unprocessed == t.unprocessed && s.processing == t.processing && s.resolved == t.resolved
    requires s.accepted == t.accepted
    ensures Conserved(s) ==> Conserved(t)
  {
  }

  lemma FewerPending(s: State, t: State)
    requires Deduplicated(s) && t.accepted == s.accepted
    requires t.unprocessed.Keys + t.processing.Keys <= s.unprocessed.Keys + s.processing.Keys
    ensures Deduplicated(t)
  {
    assert forall e :: t.Pending(e) ==> e.id in t.unprocessed.Keys + t.processing.Keys;
    assert forall e :: t.Pending(e) ==> s.Pending(e);
  }

  /** A new error does not change which of the older ones are pending. */
  lemma OldErrorsStay(s: State, e: ErrorEvent, a: ErrorEvent)
    requires Conserved(s) && !s.Known(e.id) && a in s.accepted
    ensures s.(unprocessed := s.unprocessed[e.id := e], accepted := s.accepted + [e]).Pending(a) <==> s.Pending(a)
  {
    assert s.Known(a.id);
  }

  lemma NotSimilarToPending(s: State, e: ErrorEvent, a: ErrorEvent)
    requires Conserved(s) && a in s.accepted && s.Pending(a) && !s.Duplicate(e)
    ensures !Similar(e, a)
  {
    hide Similar;
    AcceptedIsWhere(s, a);
  }

  lemma DetectKeepsDeduplicated(s: State, e: ErrorEvent)
    requires Conserved(s) && Deduplicated(s) && !s.Known(e.id) && !s.Duplicate(e)
    ensures Deduplicated(s.(unprocessed := s.unprocessed[e.id := e], accepted := s.accepted + [e]))
  {
    hide Conserved, Similar;
    var t := s.(unprocessed := s.unprocessed[e.id := e], accepted := s.accepted + [e]);
    forall i, j | 0 <= i < j < |t.accepted| && t.Pending(t.accepted[i]) && t.Pending(t.accepted[j])
      ensures !Similar(t.accepted[j], t.accepted[i])
    {
      var a := s.accepted[i];
      OldErrorsStay(s, e, a);
      if j < |s.accepted| {
        OldErrorsStay(s, e, s.accepted[j]);
      } else {
        NotSimilarToPending(s, e, a);
      }
    }
  }

  lemma AcceptedIsWhere(s: State, e: ErrorEvent)
    requires Conserved(s) && e in s.accepted
    ensures e.id in s.unprocessed ==> s.unprocessed[e.id] == e
    ensures e.id in s.processing ==> s.processing[e.id] == e
  {
    if e.id in s.unprocessed {
      SameIdSameError(s, e, s.unprocessed[e.id]);
    }
    if e.id in s.processing {
      SameIdSameError(s, e, s.processing[e.id]);
    }
  }

  lemma SameIdSameError(s: State, a: ErrorEvent, b: ErrorEvent)
    requires Conserved(s) && a in s.accepted && b in s.accepted && a.id == b.id
    ensures a == b
  {
  }

  // ------------------------------------------------------------------ each operation keeps the core

  lemma DetectKeepsCore(s: State, e: ErrorEvent)
    requires Core(s) && !s.Known(e.id)
    ensures Core(Detect(s, e))
  {
    if !s.Duplicate(e) {
      DetectKeepsConserved(s, e);
      DetectKeepsDeduplicated(s, e);
      hide Conserved, Deduplicated, State.Duplicate, Similar;
    }
  }

  lemma StartKeepsCore(s: State, id: Id)
    requires Core(s)
    ensures Core(StartJob(s, id))
  {
    hide Conserved, Deduplicated;
    var t := StartJob(s, id);
    if t != s {
      var moved := s.(unprocessed := s.unprocessed - {id}, processing := s.processing[id := s.unprocessed[id]]);
      StartKeepsConserved(s, id);
      SameMaps(moved, t);
      FewerPending(s, t);
    }
  }

  lemma AdvanceKeepsCore(s: State, id: Id, status: Status)
    requires Core(s) && id in s.jobs
    ensures Core(Advance(s, id, status))
  {
    hide Conserved, Deduplicated;
    var t := Advance(s, id, status);
    SameMaps(s, t);
    FewerPending(s, t);
  }

  lemma FailKeepsCore(s: State, id: Id)
    requires Core(s) && id in s.jobs
    ensures Core(FailJob(s, id))
  {
    hide Conserved, Deduplicated;
    var t := FailJob(s, id);
    if id in s.processing {
      var moved := s.(processing := s.processing - {id}, unprocessed := s.unprocessed[id := s.processing[id]]);
      FailKeepsConserved(s, id);
      SameMaps(moved, t);
      FewerPending(s, t);
    } else {
      AdvanceKeepsCore(s, id, Failed);
    }
  }

  lemma CompleteKeepsCore(s: State, id: Id)
    requires Core(s) && id in s.jobs
    ensures Core(CompleteJob(s, id))
  {
    hide Conserved, Deduplicated;
    var t := CompleteJob(s, id);
    if id in s.processing {
      var moved := s.(processing := s.processing - {id}, resolved := s.resolved[id := s.processing[id]]);
      CompleteKeepsConserved(s, id);
      SameMaps(moved, t);
      FewerPending(s, t);
    } else {
      AdvanceKeepsCore(s, id, Completed);
    }
  }

  /** Every step keeps the errors, the deduplication and the one pipeline of each job. */
  lemma StepKeepsCore(s: State, ev: Event)
    requires Core(s) && Enabled(s, ev)
    ensures Core(Step(s, ev))
  {
    hide Core;
    match ev
    case Detected(e) => DetectKeepsCore(s, e);
    case Process(id) => StartKeepsCore(s, id);
    case Polled(id, _) => StartKeepsCore(s, id);
    case TestDone(id, reproduces) =>
      AdvanceKeepsCore(s, id, Patching);
      FailKeepsCore(s, id);
    case FixDone(id, ok) =>
      AdvanceKeepsCore(s, id, PrCreating);
      FailKeepsCore(s, id);
    case PrDone(id, ok) =>
      CompleteKeepsCore(s, id);
      FailKeepsCore(s, id);
    case EmitThrew(id) => FailKeepsCore(s, id);
  }

  // ------------------------------------------------------------------ the status of one job

  /** Only a throwing final announcement parts the status of a job from the place of its error. */
  lemma StepKeepsStatus(s: State, ev: Event, id: Id)
    requires StatusMatches(s, id) && Enabled(s, ev)
    ensures StatusMatches(Step(s, ev), id) <==> ev != EmitThrew(id)
  {
    hide StatusMatches, Advance, StartJob, FailJob, CompleteJob, Detect;
    match ev
    case Detected(e) => DetectKeepsStatus(s, e, id);
    case Process(other) => StartKeepsStatus(s, other, id);
    case Polled(other, _) => StartKeepsStatus(s, other, id);
    case TestDone(other, _) =>
      AdvanceKeepsStatus(s, other, Patching, id);
      FailKeepsStatus(s, other, id);
    case FixDone(other, _) =>
      AdvanceKeepsStatus(s, other, PrCreating, id);
      FailKeepsStatus(s, other, id);
    case PrDone(other, _) =>
      CompleteKeepsStatus(s, other, id);
      FailKeepsStatus(s, other, id);
    case EmitThrew(other) => AnnouncementChangesStatus(s, other, id);
  }

  lemma DetectKeepsStatus(s: State, e: ErrorEvent, id: Id)
    requires StatusMatches(s, id) && !s.Known(e.id)
    ensures StatusMatches(Detect(s, e), id)
  {
    hide State.Duplicate;
  }

  lemma StartKeepsStatus(s: State, other: Id, id: Id)
    requires StatusMatches(s, id)
    ensures StatusMatches(StartJob(s, other), id)
  {
  }

  lemma AdvanceKeepsStatus(s: State, other: Id, status: Status, id: Id)
    requires StatusMatches(s, id) && other in s.jobs && s.jobs[other].Working() && status.Working()
    ensures StatusMatches(Advance(s, other, status), id)
  {
  }

  lemma FailKeepsStatus(s: State, other: Id, id: Id)
    requires StatusMatches(s, id) && other in s.jobs && s.jobs[other].Working()
    ensures StatusMatches(FailJob(s, other), id)
  {
  }

  lemma CompleteKeepsStatus(s: State, other: Id, id: Id)
    requires StatusMatches(s, id) && other in s.jobs && s.jobs[other].Working()
    ensures StatusMatches(CompleteJob(s, other), id)
  {
  }

  lemma AnnouncementChangesStatus(s: State, other: Id, id: Id)
    requires StatusMatches(s, id) && other in s.jobs && s.jobs[other] == Completed
    ensures StatusMatches(FailJob(s, other), id) <==> other != id
  {
  }

  /** The invariant as a whole survives every step but that one. */
  lemma StepKeepsInv(s: State, ev: Event)
    requires Inv(s) && Enabled(s, ev)
    ensures Core(Step(s, ev))
    ensures Inv(Step(s, ev)) <==> !ev.EmitThrew?
  {
    StepKeepsCore(s, ev);
    hide Core, StatusMatches, Enabled, Step;
    forall id
      ensures StatusMatches(Step(s, ev), id) <==> ev != EmitThrew(id)
    {
      StepKeepsStatus(s, ev, id);
    }
    assert ev.EmitThrew? ==> !StatusMatches(Step(s, ev), ev.id);
  }

  /**
   An error is accepted into the queue exactly when no error that was accepted before and is
   still pending is similar to it. A resolved one does not shut it out.
   */
  lemma AcceptedUnlessPending(s: State, e: ErrorEvent)
    requires Conserved(s) && !s.Known(e.id)
    ensures
      var t := Step(s, Detected(e));
      if exists a :: a in s.accepted && a.id !in s.resolved && Similar(e, a) then t == s
      else
        && t.accepted == s.accepted + [e] && t.unprocessed == s.unprocessed[e.id := e]
        && t.processing == s.processing && t.resolved == s.resolved && t.jobs == s.jobs && t.started == s.started
  {
    hide Similar;
    if a :| a in s.accepted && a.id !in s.resolved && Similar(e, a) {
      AcceptedIsWhere(s, a);
      assert s.Known(a.id);
      assert s.Duplicate(e);
    }
  }

  /** A job starts exactly when its error is processed or polled below the limit, unprocessed and fixable. */
  lemma JobStartsWhen(s: State, ev: Event, id: Id)
    requires Enabled(s, ev) && id !in s.jobs
    ensures id in Step(s, ev).jobs <==>
      && (ev == Process(id) || (ev.Polled? && ev.id == id && |s.jobs| < ev.maxConcurrentJobs))
      && id in s.unprocessed && s.unprocessed[id].autoFixable
    ensures id in Step(s, ev).jobs ==> Step(s, ev).jobs[id] == TestWriting
  {
    match ev
    case Detected(_) => hide State.Duplicate;
    case Process(_) =>
    case Polled(_, _) =>
    case TestDone(_, _) =>
    case FixDone(_, _) =>
    case PrDone(_, _) =>
    case EmitThrew(_) =>
  }

  ghost predicate HistoriesGrow(s: State, t: State) {
    s.accepted <= t.accepted && s.started <= t.started && s.jobs.Keys <= t.jobs.Keys
  }

  lemma HistoriesCompose(s: State, t: State, u: State)
    requires HistoriesGrow(s, t) && HistoriesGrow(t, u)
    ensures HistoriesGrow(s, u)
  {
  }

  lemma HistoriesOnlyGrow(s: State, ev: Event)
    requires Enabled(s, ev)
    ensures HistoriesGrow(s, Step(s, ev))
  {
    match ev
    case Detected(e) => HistoriesAfterDetect(s, e);
    case Process(id) => HistoriesAfterStart(s, id);
    case Polled(id, _) => HistoriesAfterStart(s, id);
    case _ =>
      assert Step(s, ev).accepted == s.accepted && Step(s, ev).started == s.started;
      assert Step(s, ev).jobs.Keys == s.jobs.Keys;
  }

  lemma HistoriesAfterDetect(s: State, e: ErrorEvent)
    ensures HistoriesGrow(s, Detect(s, e))
  {
    hide State.Duplicate;
  }

  lemma HistoriesAfterStart(s: State, id: Id)
    ensures HistoriesGrow(s, StartJob(s, id))
  {
  }

  /** The status of a job changes only by the events of its own pipeline. */
  lemma JobAfterStep(s: State, ev: Event, id: Id)
    requires Enabled(s, ev) && id in s.jobs
    ensures id in Step(s, ev).jobs
    ensures Step(s, ev).jobs[id] ==
      match ev
      case TestDone(other, reproduces) =>
        if other != id then s.jobs[id] else if reproduces then Patching else Failed
      case FixDone(other, ok) => if other != id then s.jobs[id] else if ok then PrCreating else Failed
      case PrDone(other, ok) => if other != id then s.jobs[id] else if ok then Completed else Failed
      case EmitThrew(other) => if other != id then s.jobs[id] else Failed
      case _ => s.jobs[id]
  {
    match ev
    case Detected(_) => hide State.Duplicate;
    case Process(_) =>
    case Polled(_, _) =>
    case TestDone(_, _) =>
    case FixDone(_, _) =>
    case PrDone(_, _) =>
    case EmitThrew(_) =>
  }

  /** A step moves the status of each job forward, unless it is its throwing announcement. */
  lemma StepMovesForward(s: State, ev: Event, id: Id)
    requires Enabled(s, ev) && id in s.jobs
    ensures id in Step(s, ev).jobs
    ensures s.jobs[id].MayBecome(Step(s, ev).jobs[id]) <==> ev != EmitThrew(id)
  {
    JobAfterStep(s, ev, id);
    hide Step;
  }

  // ------------------------------------------------------------------ runs

  ghost predicate RunOf(s: State, events: seq<Event>, t: State)
    decreases |events|
  {
    if events == [] then s == t
    else Enabled(s, events[0]) && RunOf(Step(s, events[0]), events[1..], t)
  }

  lemma {:induction false} RunKeepsCore(s: State, events: seq<Event>, t: State)
    requires Core(s) && RunOf(s, events, t)
    ensures Core(t)
    decreases |events|
  {
    if events != [] {
      StepKeepsCore(s, events[0]);
      RunKeepsCore(Step(s, events[0]), events[1..], t);
    }
  }

  /** What a throwing announcement leaves behind: a failed job whose error is resolved. */
  ghost predicate Parted(s: State, id: Id) {
    id in s.jobs && s.jobs[id] == Failed && id in s.resolved && id !in s.unprocessed
  }

  lemma PartedStays(s: State, ev: Event, id: Id)
    requires Parted(s, id) && Enabled(s, ev)
    ensures Parted(Step(s, ev), id)
  {
    hide State.Duplicate;
  }

  lemma {:induction false} RunStaysParted(s: State, events: seq<Event>, t: State, id: Id)
    requires Parted(s, id) && RunOf(s, events, t)
    ensures Parted(t, id)
    decreases |events|
  {
    if events != [] {
      PartedStays(s, events[0], id);
      RunStaysParted(Step(s, events[0]), events[1..], t, id);
    }
  }

  lemma AnnouncementParts(s: State, id: Id)
    requires StatusMatches(s, id) && Enabled(s, EmitThrew(id)) && Conserved(s)
    ensures Parted(Step(s, EmitThrew(id)), id)
  {
  }

  /** In every run the status of a job matches exactly as long as its final announcement has not thrown. */
  lemma {:induction false} RunKeepsStatus(s: State, events: seq<Event>, t: State, id: Id)
    requires Core(s) && StatusMatches(s, id) && RunOf(s, events, t)
    ensures StatusMatches(t, id) <==> EmitThrew(id) !in events
    decreases |events|
  {
    if events != [] {
      var ev, rest := events[0], events[1..];
      assert events == [ev] + rest;
      if ev == EmitThrew(id) {
        AnnouncementParts(s, id);
        RunStaysParted(Step(s, ev), rest, t, id);
      } else {
        StepKeepsCore(s, ev);
        StepKeepsStatus(s, ev, id);
        hide Core, StatusMatches, Enabled, Step;
        RunKeepsStatus(Step(s, ev), rest, t, id);
      }
    }
  }

  /**
   In every run from the start, whatever throws, the three maps conserve the accepted errors, no
   pending error is similar to an earlier one, and each job ran one pipeline. The status of a job
   matches the place of its error exactly when its final announcement has not thrown.
   */
  lemma EveryRunIsSafe(events: seq<Event>, t: State)
    requires RunOf(INITIAL, events, t)
    ensures Core(t)
    ensures forall id :: StatusMatches(t, id) <==> EmitThrew(id) !in events
  {
    assert Core(INITIAL) && forall id :: StatusMatches(INITIAL, id);
    RunKeepsCore(INITIAL, events, t);
    hide *;
    forall id
      ensures StatusMatches(t, id) <==> EmitThrew(id) !in events
    {
      RunKeepsStatus(INITIAL, events, t, id);
    }
  }

  lemma {:induction false} RunGrowsHistories(s: State, events: seq<Event>, t: State)
    requires RunOf(s, events, t)
    ensures HistoriesGrow(s, t)
    decreases |events|
  {
    if events != [] {
      HistoriesOnlyGrow(s, events[0]);
      RunGrowsHistories(Step(s, events[0]), events[1..], t);
      HistoriesCompose(s, Step(s, events[0]), t);
    }
  }

  /** The status of a job has moved forward; the one way back is from completed to failed, by its announcement. */
  ghost predicate JobMoved(s: State, events: seq<Event>, t: State, id: Id)
    requires id in s.jobs && id in t.jobs
  {
    || s.jobs[id].MayBecome(t.jobs[id])
    || (EmitThrew(id) in events && s.jobs[id] == Completed && t.jobs[id] == Failed)
  }

  lemma {:induction false} RunMovesJob(s: State, events: seq<Event>, t: State, id: Id)
    requires RunOf(s, events, t) && id in s.jobs
    ensures id in t.jobs && JobMoved(s, events, t, id)
    decreases |events|
  {
    if events != [] {
      var ev, rest := events[0], events[1..];
      assert events == [ev] + rest;
      JobAfterStep(s, ev, id);
      hide Step;
      RunMovesJob(Step(s, ev), rest, t, id);
    }
  }

  /** Over every run histories grow, and each job stays and moves forward. */
  lemma RunMovesForward(s: State, events: seq<Event>, t: State)
    requires RunOf(s, events, t)
    ensures HistoriesGrow(s, t)
    ensures forall id :: id in s.jobs ==> JobMoved(s, events, t, id)
  {
    RunGrowsHistories(s, events, t);
    hide RunOf, JobMoved;
    forall id | id in s.jobs
      ensures id in t.jobs && JobMoved(s, events, t, id)
    {
      RunMovesJob(s, events, t, id);
    }
  }

  /** The error `id` failed and waits in the queue. */
  ghost predicate FailedAndQueued(s: State, id: Id, e: ErrorEvent) {
    id in s.jobs && s.jobs[id] == Failed && id in s.unprocessed && s.unprocessed[id] == e
  }

  /**
   A failed error is never tried again, whatever happens afterwards; and as long as the program
   runs, every later error that is similar to it is dropped.
   */
  lemma {:induction false} FailureIsFinal(s: State, events: seq<Event>, t: State, id: Id, e: ErrorEvent)
    requires FailedAndQueued(s, id, e) && RunOf(s, events, t)
    ensures FailedAndQueued(t, id, e)
    ensures forall later :: Similar(later, e) ==> Step(t, Detected(later)) == t
    decreases |events|
  {
    if events == [] {
      assert forall later :: Similar(later, e) ==> t.Duplicate(later);
    } else {
      FailureStays(s, events[0], id, e);
      FailureIsFinal(Step(s, events[0]), events[1..], t, id, e);
    }
  }

  lemma FailureStays(s: State, ev: Event, id: Id, e: ErrorEvent)
    requires FailedAndQueued(s, id, e) && Enabled(s, ev)
    ensures FailedAndQueued(Step(s, ev), id, e)
  {
  }

  lemma {:induction false} PollingStaysStopped(s: State, events: seq<Event>, t: State, max: int, id: Id)
    requires |s.jobs| >= max && RunOf(s, events, t)
    ensures |t.jobs| >= max && Step(t, Polled(id, max)) == t
    decreases |events|
  {
    if events != [] {
      JobsNeverShrink(s, events[0]);
      PollingStaysStopped(Step(s, events[0]), events[1..], t, max, id);
    }
  }

  /** Ids are strings, so there is always a new one. */
  lemma FreshId(ids: set<Id>) returns (id: Id)
    ensures id !in ids
  {
    var longest := LongestLength(ids);
    id := seq(longest + 1, _ => 'x');
  }

  lemma {:induction false} LongestLength(ids: set<Id>) returns (n: nat)
    ensures forall id :: id in ids ==> |id| <= n
  {
    if ids == {} {
      n := 0;
    } else {
      var id :| id in ids;
      n := LongestLength(ids - {id});
      n := if n < |id| then |id| else n;
    }
  }

  ghost predicate PollingIsIdle(s: State, max: int) {
    forall events, t, id :: RunOf(s, events, t) ==> Step(t, Polled(id, max)) == t
  }

  /**
   Finished jobs stay in the map. So polling starts nothing in any continuation exactly when as
   many jobs as may run at a time have ever been created.
   */
  lemma PollingStops(s: State, max: int)
    ensures |s.jobs| >= max <==> PollingIsIdle(s, max)
  {
    if |s.jobs| >= max {
      forall events, t, id | RunOf(s, events, t)
        ensures Step(t, Polled(id, max)) == t
      {
        PollingStaysStopped(s, events, t, max, id);
      }
    } else {
      var id := FreshId(s.unprocessed.Keys + s.processing.Keys + s.resolved.Keys + s.jobs.Keys);
      var e := ErrorEvent(id, "", [], true);
      var t := s.(unprocessed := s.unprocessed[id := e], accepted := s.accepted + [e]);
      NewErrorIsAccepted(s, e);
      assert Enabled(s, Detected(e)) && Step(s, Detected(e)) == t;
      assert RunOf(t, [], t);
      assert RunOf(s, [Detected(e)], t);
      assert id !in t.jobs && Step(t, Polled(id, max)) == StartJob(t, id);
      assert StartJob(t, id).started == t.started + [id];
      assert PollingIsIdle(s, max) ==> Step(t, Polled(id, max)) == t;
    }
  }

  /** An error without a message and without frames duplicates nothing. */
  lemma NewErrorIsAccepted(s: State, e: ErrorEvent)
    requires e.message == "" && e.frames == []
    ensures !s.Duplicate(e)
  {
    forall other
      ensures !Similar(e, other)
    {
    }
  }

  lemma JobsNeverShrink(s: State, ev: Event)
    requires Enabled(s, ev)
    ensures |Step(s, ev).jobs| >= |s.jobs|
  {
    HistoriesOnlyGrow(s, ev);
    hide Step, Enabled;
    SubsetSize(s.jobs.Keys, Step(s, ev).jobs.Keys);
  }

  // ------------------------------------------------------------------ the two services

  class ErrorListenerService {
    var unprocessedErrors: map<Id, ErrorEvent>
    var processingErrors: map<Id, ErrorEvent>
    var resolvedErrors: map<Id, ErrorEvent>
    ghost var accepted: seq<ErrorEvent>

    ghost function Queue(): State
      reads this
    {
      State(unprocessedErrors, processingErrors, resolvedErrors, map[], accepted, [])
    }

    constructor ()
      ensures Queue() == INITIAL
    {
      unprocessedErrors, processingErrors, resolvedErrors, accepted := map[], map[], map[], [];
    }

    method FindSimilarError(error: ErrorEvent) returns (found: bool)
      ensures found <==> Queue().Duplicate(error)
    {
      found := FindSimilarIn(error, unprocessedErrors);
      if !found {
        found := FindSimilarIn(error, processingErrors);
      }
    }

    static method FindSimilarIn(error: ErrorEvent, errors: map<Id, ErrorEvent>) returns (found: bool)
      ensures found <==> exists id :: id in errors && Similar(error, errors[id])
    {
      hide *;
      var rest := errors.Keys;
      while rest != {}
        invariant rest <= errors.Keys
        invariant forall id :: id in errors && id !in rest ==> !Similar(error, errors[id])
        decreases rest
      {
        var id :| id in rest;
        var similar := ErrorsAreSimilar(error, errors[id]);
        if similar {
          return true;
        }
        rest := rest - {id};
      }
      return false;
    }

    method HandleErrorEvent(error: ErrorEvent)
      modifies this
      ensures Queue() == Detect(old(Queue()), error)
    {
      var similarError := FindSimilarError(error);
      if !similarError {
        unprocessedErrors := unprocessedErrors[error.id := error];
        accepted := accepted + [error];
      }
    }

    method MarkAsProcessing(errorId: Id)
      modifies this`unprocessedErrors, this`processingErrors
      ensures if errorId in old(unprocessedErrors) then
                && unprocessedErrors == old(unprocessedErrors) - {errorId}
                && processingErrors == old(processingErrors)[errorId := old(unprocessedErrors)[errorId]]
              else unprocessedErrors == old(unprocessedErrors) && processingErrors == old(processingErrors)
    {
      if errorId in unprocessedErrors {
        var error := unprocessedErrors[errorId];
        unprocessedErrors := unprocessedErrors - {errorId};
        processingErrors := processingErrors[errorId := error];
      }
    }

    method MarkAsResolved(errorId: Id)
      modifies this`processingErrors, this`resolvedErrors
      ensures if errorId in old(processingErrors) then
                && processingErrors == old(processingErrors) - {errorId}
                && resolvedErrors == old(resolvedErrors)[errorId := old(processingErrors)[errorId]]
              else processingErrors == old(processingErrors) && resolvedErrors == old(resolvedErrors)
    {
      if errorId in processingErrors {
        var error := processingErrors[errorId];
        processingErrors := processingErrors - {errorId};
        resolvedErrors := resolvedErrors[errorId := error];
      }
    }

    method MarkAsFailed(errorId: Id)
      modifies this`processingErrors, this`unprocessedErrors
      ensures if errorId in old(processingErrors) then
                && processingErrors == old(processingErrors) - {errorId}
                && unprocessedErrors == old(unprocessedErrors)[errorId := old(processingErrors)[errorId]]
              else processingErrors == old(processingErrors) && unprocessedErrors == old(unprocessedErrors)
    {
      if errorId in processingErrors {
        var error := processingErrors[errorId];
        processingErrors := processingErrors - {errorId};
        unprocessedErrors := unprocessedErrors[errorId := error];
      }
    }
  }

  /** Its methods are the code of the pipeline between two `await`s; each is one step. */
  class MaintenanceTeamOrchestrator {
    const errorListener: ErrorListenerService
    var jobs: map<Id, Status>
    ghost var started: seq<Id>

    ghost function Snapshot(): State
      reads this, errorListener
    {
      errorListener.Queue().(jobs := jobs, started := started)
    }

    constructor (errorListener: ErrorListenerService)
      ensures this.errorListener == errorListener && jobs == map[] && started == []
    {
      this.errorListener := errorListener;
      jobs, started := map[], [];
    }

    method ProcessError(errorId: Id)
      modifies this, errorListener
      ensures Snapshot() == Step(old(Snapshot()), Process(errorId))
    {
      if errorId !in errorListener.unprocessedErrors {
        return;
      }
      if errorId in jobs {
        return;
      }
      if !errorListener.unprocessedErrors[errorId].autoFixable {
        return;
      }
      jobs := jobs[errorId := TestWriting];
      started := started + [errorId];
      errorListener.MarkAsProcessing(errorId);
    }

    /** One round of the polling loop, for the error it has reached. */
    method PollError(errorId: Id, maxConcurrentJobs: int)
      modifies this, errorListener
      ensures Snapshot() == Step(old(Snapshot()), Polled(errorId, maxConcurrentJobs))
    {
      if |jobs| >= maxConcurrentJobs {
        return;
      }
      if errorId !in jobs {
        ProcessError(errorId);
      }
    }

    method TestWritten(errorId: Id, reproduces: bool)
      modifies this, errorListener
      ensures Snapshot() == Step(old(Snapshot()), TestDone(errorId, reproduces))
    {
      if !reproduces {
        PipelineRejected(errorId);
        return;
      }
      jobs := jobs[errorId := Patching];
    }

    method FixGenerated(errorId: Id, ok: bool)
      modifies this, errorListener
      ensures Snapshot() == Step(old(Snapshot()), FixDone(errorId, ok))
    {
      if !ok {
        PipelineRejected(errorId);
        return;
      }
      jobs := jobs[errorId := PrCreating];
    }

    method PrSubmitted(errorId: Id, ok: bool)
      modifies this, errorListener
      ensures Snapshot() == Step(old(Snapshot()), PrDone(errorId, ok))
    {
      if !ok {
        PipelineRejected(errorId);
        return;
      }
      jobs := jobs[errorId := Completed];
      errorListener.MarkAsResolved(errorId);
    }

    /** The `catch` handler of the pipeline, also after an announcement that throws. */
    method PipelineRejected(errorId: Id)
      modifies this, errorListener
      ensures Snapshot() == FailJob(old(Snapshot()), errorId)
    {
      jobs := jobs[errorId := Failed];
      errorListener.MarkAsFailed(errorId);
    }
  }
}
