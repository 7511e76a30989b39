/**
 The bulkhead: a counter, a limit and a queue. An operation that had to wait passes through
 `runOperation` twice, once for its wrapper and once for itself, so it is counted twice while it
 runs and once more between its own end and the end of its wrapper.
 */
module Bulkheads {
  import opened Sequences

  type Op = nat

  /**
   `current` and `queue` are fields of the program. The sets say how each started operation is
   counted: once (`direct`), twice (`wrapped`), or once for a wrapper whose operation is done
   (`draining`). `submitted`, `started` and `done` are the history.
   */
  datatype State = State(
    max: int,
    current: int,
    queue: seq<Op>,
    direct: set<Op>,
    wrapped: set<Op>,
    draining: set<Op>,
    submitted: seq<Op>,
    started: seq<Op>,
    done: set<Op>)
  {
    ghost function Running(): set<Op> {
      direct + wrapped
    }
  }

  function Initial(max: int): State {
    State(max, 0, [], {}, {}, {}, [], [], {})
  }

  datatype Event =
    | Submit(op: Op)
    | Finish(op: Op)
    | FinishWrapper(op: Op)

  ghost predicate Enabled(s: State, ev: Event) {
    match ev
    case Submit(op) => op !in s.submitted
    case Finish(op) => op in s.direct || op in s.wrapped
    case FinishWrapper(op) => op in s.draining
  }

  /** `processQueue`: the wrapper and the operation itself each raise the counter. */
  function ProcessQueue(s: State): State {
    if s.queue != [] && s.current < s.max then
      var op := s.queue[0];
      s.(current := s.current + 2, queue := s.queue[1..], wrapped := s.wrapped + {op}, started := s.started + [op])
    else s
  }

  /** An operation ends: it is counted once less. */
  function Ended(s: State, op: Op): State {
    var t := s.(current := s.current - 1, done := s.done + {op});
    if op in s.direct then t.(direct := s.direct - {op})
    else t.(wrapped := s.wrapped - {op}, draining := s.draining + {op})
  }

  function Step(s: State, ev: Event): State {
    match ev
    case Submit(op) =>
      var t := s.(submitted := s.submitted + [op]);
      if s.current < s.max then t.(current := s.current + 1, direct := s.direct + {op}, started := s.started + [op])
      else t.(queue := s.queue + [op])
    case Finish(op) => ProcessQueue(Ended(s, op))
    case FinishWrapper(op) =>
      ProcessQueue(s.(current := s.current - 1, draining := s.draining - {op}))
  }

  // ------------------------------------------------------------------ the invariant

  /** How the counter comes about. */
  ghost predicate Counted(s: State) {
    s.current == |s.direct| + 2 * |s.wrapped| + |s.draining|
  }

  /** The counter passes the limit by one at most, and only while a waiting operation has just been started. */
  ghost predicate Bounded(s: State) {
    && s.current <= s.max + 1
    && (s.current == s.max + 1 ==> s.wrapped != {})
    && (s.queue != [] ==> s.current >= s.max)
  }

  /** Operations start in the order in which they were submitted, and each is in one place. */
  ghost predicate Ordered(s: State) {
    && s.submitted == s.started + s.queue
    && Distinct(s.submitted)
    && s.direct !! s.wrapped && s.direct !! s.done && s.wrapped !! s.done
    && s.draining <= s.done
    && (forall op :: op in s.started <==> op in s.direct || op in s.wrapped || op in s.done)
  }

  ghost predicate Inv(s: State) {
    s.max >= 1 && Counted(s) && Bounded(s) && Ordered(s)
  }

  lemma ProcessQueueOrdered(s: State)
    requires Ordered(s)
    ensures Ordered(ProcessQueue(s))
  {
    if s.queue != [] && s.current < s.max {
      var op := s.queue[0];
      assert s.submitted == (s.started + [op]) + s.queue[1..];
      assert s.submitted[|s.started|] == op;
      assert forall i :: 0 <= i < |s.started| ==> s.submitted[i] == s.started[i];
      assert op !in s.started;
    }
  }

  lemma ProcessQueueCounted(s: State)
    requires Counted(s) && Ordered(s)
    ensures Counted(ProcessQueue(s))
  {
    if s.queue != [] {
      assert s.submitted[|s.started|] == s.queue[0];
      assert forall i :: 0 <= i < |s.started| ==> s.submitted[i] == s.started[i];
      assert s.queue[0] !in s.started;
    }
  }

  /** After the counter has dropped by one, the queue is served if it has to be. */
  lemma ProcessQueueBounded(s: State)
    requires s.max >= 1 && s.current <= s.max
    requires s.queue != [] ==> s.current >= s.max - 1
    ensures Bounded(ProcessQueue(s))
  {
    if s.queue != [] && s.current < s.max {
      assert s.queue[0] in ProcessQueue(s).wrapped;
    }
  }

  lemma SubmitKeepsInv(s: State, op: Op)
    requires Inv(s) && op !in s.submitted
    ensures Inv(Step(s, Submit(op)))
  {
    if s.current >= s.max {
      assert s.started + (s.queue + [op]) == s.submitted + [op];
    } else {
      assert s.queue == [] && s.submitted == s.started;
      assert op !in s.direct;
    }
  }

  lemma EndedIsOrdered(s: State, op: Op)
    requires Ordered(s) && Counted(s) && (op in s.direct || op in s.wrapped)
    ensures Ordered(Ended(s, op)) && Counted(Ended(s, op))
  {
    assert op !in s.draining;
    if op in s.wrapped {
      assert op !in s.direct;
    }
  }

  lemma FinishKeepsInv(s: State, op: Op)
    requires Inv(s) && (op in s.direct || op in s.wrapped)
    ensures Inv(Step(s, Finish(op)))
  {
    var t := Ended(s, op);
    EndedIsOrdered(s, op);
    hide Ordered, Counted;
    ProcessQueueOrdered(t);
    ProcessQueueCounted(t);
    ProcessQueueBounded(t);
  }

  lemma FinishWrapperKeepsInv(s: State, op: Op)
    requires Inv(s) && op in s.draining
    ensures Inv(Step(s, FinishWrapper(op)))
  {
    var t := s.(current := s.current - 1, draining := s.draining - {op});
    assert Ordered(t) && Counted(t);
    hide Ordered, Counted;
    ProcessQueueOrdered(t);
    ProcessQueueCounted(t);
    ProcessQueueBounded(t);
  }

  lemma StepKeepsInv(s: State, ev: Event)
    requires Inv(s) && Enabled(s, ev)
    ensures Inv(Step(s, ev)) && Step(s, ev).max == s.max
  {
    match ev
    case Submit(op) => SubmitKeepsInv(s, op);
    case Finish(op) => FinishKeepsInv(s, op);
    case FinishWrapper(op) => FinishWrapperKeepsInv(s, op);
  }

  // ------------------------------------------------------------------ all runs

  ghost predicate RunOf(s: State, events: seq<Event>, t: State)
    decreases |events|
  {
    if events == [] then s == t
    else Enabled(s, events[0]) && RunOf(Step(s, events[0]), events[1..], t)
  }

  lemma {:induction false} RunKeepsInv(s: State, events: seq<Event>, t: State)
    requires Inv(s) && RunOf(s, events, t)
    ensures Inv(t) && t.max == s.max
    decreases |events|
  {
    if events != [] {
      StepKeepsInv(s, events[0]);
      RunKeepsInv(Step(s, events[0]), events[1..], t);
    }
  }

  /** What the invariant is for. */
  lemma InvIsSafe(s: State)
    requires Inv(s)
    ensures |s.Running()| <= s.max && s.current <= s.max + 1
    ensures s.started <= s.submitted
    ensures s.queue != [] ==> s.current >= s.max
    ensures forall op :: op in s.submitted <==> op in s.queue || op in s.Running() || op in s.done
    ensures forall op :: op in s.queue ==> op !in s.Running() && op !in s.done
    ensures s.Running() !! s.done
  {
    assert |s.Running()| == |s.direct| + |s.wrapped|;
    forall op | op in s.queue
      ensures op !in s.started
    {
      var i :| 0 <= i < |s.queue| && s.queue[i] == op;
      assert s.submitted[|s.started| + i] == op;
      assert forall j :: 0 <= j < |s.started| ==> s.submitted[j] == s.started[j];
    }
  }

  /** The operations that a run submits, by its events alone. */
  function Submitted(events: seq<Event>): seq<Op> {
    if events == [] then []
    else (if events[0].Submit? then [events[0].op] else []) + Submitted(events[1..])
  }

  /** The history that the laws above speak of is that of the run. */
  lemma {:induction false} HistoryIsTheRun(s: State, events: seq<Event>, t: State)
    requires RunOf(s, events, t)
    ensures t.submitted == s.submitted + Submitted(events)
    ensures forall op :: op in t.done <==> op in s.done || Finish(op) in events
    decreases |events|
  {
    if events != [] {
      var ev, rest := events[0], events[1..];
      var next := Step(s, ev);
      assert next.submitted == s.submitted + if ev.Submit? then [ev.op] else [];
      assert next.done == s.done + if ev.Finish? then {ev.op} else {};
      HistoryIsTheRun(next, rest, t);
      assert events == [ev] + rest;
      hide Step;
    }
  }

  /**
   In every interleaving at most `max` operations run, the counter exceeds the limit by at most
   one, operations start in the order of their submission, and each is queued, running or done. The
   history that this speaks of is that of the events.
   */
  lemma EveryRunIsSafe(max: int, events: seq<Event>, s: State)
    requires max >= 1 && RunOf(Initial(max), events, s)
    ensures |s.Running()| <= max && s.current <= max + 1
    ensures s.started <= s.submitted
    ensures s.queue != [] ==> s.current >= max
    ensures forall op :: op in s.submitted <==> op in s.queue || op in s.Running() || op in s.done
    ensures forall op :: op in s.queue ==> op !in s.Running() && op !in s.done
    ensures s.Running() !! s.done
    ensures s.submitted == Submitted(events) && forall op :: op in s.done <==> Finish(op) in events
  {
    RunKeepsInv(Initial(max), events, s);
    InvIsSafe(s);
    HistoryIsTheRun(Initial(max), events, s);
  }

  /**
   The limit itself is not kept. A step takes the counter to the limit plus one, or leaves it
   there, exactly when it serves the queue at a full counter, or is a submission in that state.
   */
  lemma CounterExceedsWhen(s: State, ev: Event)
    requires Inv(s) && Enabled(s, ev)
    ensures Step(s, ev).current == s.max + 1 <==>
      if ev.Submit? then s.current == s.max + 1 else s.queue != [] && s.current == s.max
  {
  }

  /** `n` submissions, numbered from `first`. */
  function Submissions(first: nat, n: nat): seq<Event> {
    seq(n, i requires 0 <= i < n => Submit(first + i))
  }

  /** A state in which only the operations below `k` have been submitted, and all of them run. */
  ghost predicate Filling(s: State, k: nat) {
    && s.current == k && s.queue == [] && s.wrapped == s.draining == {}
    && (forall op :: op in s.submitted ==> op < k)
    && (forall op: Op :: op < k ==> op in s.direct)
  }

  /** Submissions that fill the bulkhead, one that has to wait, and the end of the first operation. */
  lemma {:induction false} FillUp(s: State, k: nat) returns (t: State)
    requires Filling(s, k) && k <= s.max && s.max >= 1
    ensures RunOf(s, Submissions(k, s.max - k + 1) + [Finish(0)], t) && t.current == s.max + 1
    decreases s.max - k
  {
    var events := Submissions(k, s.max - k + 1) + [Finish(0)];
    var next := Step(s, Submit(k));
    if k < s.max {
      t := FillUp(next, k + 1);
      assert events[1..] == Submissions(k + 1, s.max - (k + 1) + 1) + [Finish(0)];
    } else {
      t := Step(next, Finish(0));
      assert events == [Submit(k), Finish(0)] && events[1..] == [Finish(0)];
      assert RunOf(t, [], t);
      assert RunOf(next, [Finish(0)], t);
    }
  }

  /** Every limit is exceeded in some run. */
  lemma CounterExceedsLimit(max: int)
    requires max >= 1
    ensures exists events, s :: RunOf(Initial(max), events, s) && s.current == max + 1
  {
    var s := FillUp(Initial(max), 0);
  }

  /** With a limit below one nothing ever starts. */
  lemma {:induction false} ZeroLimitStartsNothing(s: State, events: seq<Event>, t: State)
    requires s.max <= 0 && s.current == 0 && s.started == []
    requires s.direct == s.wrapped == s.draining == {} && RunOf(s, events, t)
    ensures t.started == []
    decreases |events|
  {
    if events != [] {
      ZeroLimitStartsNothing(Step(s, events[0]), events[1..], t);
    }
  }

  // ------------------------------------------------------------------ progress

  /** What is still to come without further submissions. */
  function Work(s: State): nat {
    3 * |s.queue| + 2 * |s.wrapped| + |s.direct| + |s.draining|
  }

  lemma ProcessQueueWork(s: State)
    requires Ordered(s)
    ensures Work(ProcessQueue(s)) <= Work(s)
  {
  }

  lemma StepDoesWork(s: State, ev: Event)
    requires Inv(s) && Enabled(s, ev) && !ev.Submit?
    ensures Work(Step(s, ev)) < Work(s)
  {
    match ev
    case Submit(_) =>
    case Finish(op) =>
      EndedIsOrdered(s, op);
      assert Work(Ended(s, op)) < Work(s);
      ProcessQueueWork(Ended(s, op));
    case FinishWrapper(op) =>
      var t := s.(current := s.current - 1, draining := s.draining - {op});
      assert Work(t) < Work(s);
      ProcessQueueWork(t);
  }

  /** Nothing is left behind: when no operation runs and no wrapper is open, everything submitted is done. */
  lemma IdleMeansDone(s: State)
    requires Inv(s) && s.Running() == {} && s.draining == {}
    ensures s.queue == [] && forall op :: op in s.submitted ==> op in s.done
  {
    assert s.direct == {} && s.wrapped == {};
  }

  /** Without new submissions the bulkhead runs dry within a bounded number of steps. */
  lemma {:induction false} RunsDry(s: State, events: seq<Event>, t: State)
    requires Inv(s) && RunOf(s, events, t) && forall ev :: ev in events ==> !ev.Submit?
    ensures |events| + Work(t) <= Work(s)
    decreases |events|
  {
    if events != [] {
      StepKeepsInv(s, events[0]);
      StepDoesWork(s, events[0]);
      RunsDry(Step(s, events[0]), events[1..], t);
    }
  }

  // ------------------------------------------------------------------ the class

  /**
   Each method is the code that runs without interruption: `execute`, and the `finally` blocks
   of `runOperation` when an operation or a wrapper settles.
   */
  class Bulkhead {
    const maxConcurrent: int
    var currentConcurrent: int
    var queue: seq<Op>
    var processing: int
    ghost var direct: set<Op>
    ghost var wrapped: set<Op>
    ghost var draining: set<Op>
    ghost var submitted: seq<Op>
    ghost var started: seq<Op>
    ghost var done: set<Op>

    ghost function Snapshot(): State
      reads this
    {
      State(maxConcurrent, currentConcurrent, queue, direct, wrapped, draining, submitted, started, done)
    }

    constructor (maxConcurrent: int)
      ensures Snapshot() == Initial(maxConcurrent) && processing == 0
    {
      this.maxConcurrent := maxConcurrent;
      currentConcurrent, queue, processing := 0, [], 0;
      direct, wrapped, draining, submitted, started, done := {}, {}, {}, [], [], {};
    }

    /** `operation` runs to its end outside; here it starts or is queued. */
    method Execute(operation: Op)
      requires processing == currentConcurrent
      modifies this
      ensures Snapshot() == Step(old(Snapshot()), Submit(operation)) && processing == currentConcurrent
    {
      submitted := submitted + [operation];
      if currentConcurrent < maxConcurrent {
        currentConcurrent, processing := currentConcurrent + 1, processing + 1;
        direct, started := direct + {operation}, started + [operation];
        return;
      }
      queue := queue + [operation];
    }

    method OperationSettled(operation: Op)
      requires processing == currentConcurrent && (operation in direct || operation in wrapped)
      modifies this
      ensures Snapshot() == Step(old(Snapshot()), Finish(operation)) && processing == currentConcurrent
    {
      currentConcurrent, processing := currentConcurrent - 1, processing - 1;
      done := done + {operation};
      if operation in direct {
        direct := direct - {operation};
      } else {
        wrapped, draining := wrapped - {operation}, draining + {operation};
      }
      ServeQueue();
    }

    method WrapperSettled(operation: Op)
      requires processing == currentConcurrent && operation in draining
      modifies this
      ensures Snapshot() == Step(old(Snapshot()), FinishWrapper(operation)) && processing == currentConcurrent
    {
      currentConcurrent, processing := currentConcurrent - 1, processing - 1;
      draining := draining - {operation};
      ServeQueue();
    }

    /** `processQueue`: `runOperation` on the wrapper, which calls `runOperation` on the operation. */
    method ServeQueue()
      requires processing == currentConcurrent
      modifies this
      ensures Snapshot() == ProcessQueue(old(Snapshot())) && processing == currentConcurrent
    {
      if queue != [] && currentConcurrent < maxConcurrent {
        var next := queue[0];
        queue := queue[1..];
        currentConcurrent, processing := currentConcurrent + 1, processing + 1;
        currentConcurrent, processing := currentConcurrent + 1, processing + 1;
        wrapped, started := wrapped + {next}, started + [next];
      }
    }
  }
}
