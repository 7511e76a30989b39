/**
 The circuit breaker: its counters, its time window, and what they guarantee over every run
 with a clock that does not go back. Times are milliseconds.
 */
module CircuitBreaking {
  import opened Options

  datatype Config = Config(failureThreshold: int, successThreshold: int, timeWindow: int, halfOpenMaxRequests: int)
  {
    predicate Sensible() {
      failureThreshold >= 1 && successThreshold >= 1 && timeWindow >= 0
    }
  }

  datatype Mode = Closed | Open | HalfOpen

  datatype Request = Request(timestamp: int, success: bool)

  /**
   The state of the breaker. `clock` is the time of the last event, `history` holds every
   request recorded since the last reset, and `openedAt` is the time of the last opening that
   neither `forceClose` nor `reset` has cancelled.
   */
  datatype State = State(
    mode: Mode,
    failureCount: int,
    successCount: int,
    lastFailureTime: Option<int>,
    nextAttempt: Option<int>,
    requests: seq<Request>,
    clock: int,
    history: seq<Request>,
    openedAt: Option<int>)

  function Initial(clock: int): State {
    State(Closed, 0, 0, None, None, [], clock, [], None)
  }

  /** The requests later than `cutoff`. */
  function After(requests: seq<Request>, cutoff: int): seq<Request> {
    if requests == [] then []
    else (if requests[0].timestamp > cutoff then [requests[0]] else []) + After(requests[1..], cutoff)
  }

  datatype Event =
    | Begin(now: int)
    | Succeed(now: int)
    | Fail(now: int)
    | ForceOpen(now: int)
    | ForceClose(now: int)
    | Reset(now: int)

  /** The first part of `execute`, up to the call of the operation. */
  function BeginStep(c: Config, s: State, now: int): State {
    if s.mode == Open && !(s.nextAttempt.Some? && now < s.nextAttempt.value) then
      s.(mode := HalfOpen, successCount := 0, clock := now)
    else s.(clock := now)
  }

  /** Whether the operation is called. */
  predicate Admits(c: Config, s: State, now: int) {
    var t := BeginStep(c, s, now);
    && t.mode != Open
    && (t.mode == HalfOpen ==> |After(t.requests, now - c.timeWindow)| < c.halfOpenMaxRequests)
  }

  /** What `recordSuccess` and `recordFailure` share: the list of requests and its clean-up. */
  function Record(c: Config, s: State, now: int, success: bool): State {
    var request := Request(now, success);
    s.(clock := now, history := s.history + [request],
       requests := After(s.requests + [request], now - c.timeWindow))
  }

  function OpenUp(c: Config, s: State, now: int): State {
    s.(mode := Open, nextAttempt := Some(now + c.timeWindow), openedAt := Some(now))
  }

  function RecordSuccess(c: Config, s: State, now: int): State {
    var t := Record(c, s, now, true).(successCount := s.successCount + 1);
    if t.mode == HalfOpen && t.successCount >= c.successThreshold then
      t.(mode := Closed, failureCount := 0, nextAttempt := None)
    else t
  }

  function RecordFailure(c: Config, s: State, now: int): State {
    var t := Record(c, s, now, false).(failureCount := s.failureCount + 1, lastFailureTime := Some(now));
    if (t.mode == Closed && t.failureCount >= c.failureThreshold) || t.mode == HalfOpen then OpenUp(c, t, now)
    else t
  }

  function Step(c: Config, s: State, ev: Event): State {
    match ev
    case Begin(now) => BeginStep(c, s, now)
    case Succeed(now) => RecordSuccess(c, s, now)
    case Fail(now) => RecordFailure(c, s, now)
    case ForceOpen(now) => OpenUp(c, s.(clock := now), now)
    case ForceClose(now) =>
      s.(mode := Closed, failureCount := 0, successCount := 0, nextAttempt := None, clock := now, openedAt := None)
    case Reset(now) => Initial(now)
  }

  // ------------------------------------------------------------------ the invariant

  ghost predicate CountersBelow(c: Config, s: State) {
    && (s.mode == Closed ==> s.failureCount < c.failureThreshold)
    && (s.mode == HalfOpen ==> s.successCount < c.successThreshold)
  }

  /** While open, the next attempt lies a full window after the opening; later, that time has passed. */
  ghost predicate WaitsOut(c: Config, s: State) {
    if s.mode == Open then s.openedAt.Some? && s.nextAttempt == Some(s.openedAt.value + c.timeWindow)
    else s.openedAt.Some? ==> s.clock >= s.openedAt.value + c.timeWindow
  }

  /** The pruned list shows the same window as the whole history, now and at any later time. */
  ghost predicate SameWindow(c: Config, s: State) {
    forall cutoff :: cutoff >= s.clock - c.timeWindow ==> After(s.requests, cutoff) == After(s.history, cutoff)
  }

  ghost predicate Inv(c: Config, s: State) {
    c.Sensible() && CountersBelow(c, s) && WaitsOut(c, s) && SameWindow(c, s)
  }

  lemma {:induction false} AfterConcat(a: seq<Request>, b: seq<Request>, cutoff: int)
    ensures After(a + b, cutoff) == After(a, cutoff) + After(b, cutoff)
  {
    if a == [] {
      assert a + b == b;
    } else {
      assert (a + b)[1..] == a[1..] + b;
      AfterConcat(a[1..], b, cutoff);
    }
  }

  lemma {:induction false} AfterAfter(a: seq<Request>, early: int, late: int)
    requires early <= late
    ensures After(After(a, early), late) == After(a, late)
  {
    if a != [] {
      var first := if a[0].timestamp > early then [a[0]] else [];
      AfterAfter(a[1..], early, late);
      AfterConcat(first, After(a[1..], early), late);
    }
  }

  /** Exactly the requests later than the cutoff are kept, each as often as it was there. */
  lemma {:induction false} AfterKeepsLater(requests: seq<Request>, cutoff: int, r: Request)
    ensures multiset(After(requests, cutoff))[r] == if r.timestamp > cutoff then multiset(requests)[r] else 0
  {
    if requests != [] {
      AfterKeepsLater(requests[1..], cutoff, r);
      assert requests == [requests[0]] + requests[1..];
    }
  }

  lemma RecordKeepsWindow(c: Config, s: State, now: int, success: bool)
    requires SameWindow(c, s) && s.clock <= now
    ensures SameWindow(c, Record(c, s, now, success))
  {
    hide After;
    var t := Record(c, s, now, success);
    forall cutoff | cutoff >= t.clock - c.timeWindow
      ensures After(t.requests, cutoff) == After(t.history, cutoff)
    {
      RecordShows(c, s, now, success, cutoff);
    }
  }

  /** From the cutoff of the clean-up on, the pruned list gains what the history gains. */
  lemma RecordShows(c: Config, s: State, now: int, success: bool, cutoff: int)
    requires cutoff >= now - c.timeWindow
    ensures
      var t, news := Record(c, s, now, success), After([Request(now, success)], cutoff);
      && After(t.requests, cutoff) == After(s.requests, cutoff) + news
      && After(t.history, cutoff) == After(s.history, cutoff) + news
  {
    hide After;
    var request := Request(now, success);
    AfterAfter(s.requests + [request], now - c.timeWindow, cutoff);
    AfterConcat(s.requests, [request], cutoff);
    AfterConcat(s.history, [request], cutoff);
  }

  lemma StepKeepsInv(c: Config, s: State, ev: Event)
    requires Inv(c, s) && s.clock <= ev.now
    ensures Inv(c, Step(c, s, ev)) && Step(c, s, ev).clock == ev.now
  {
    match ev
    case Succeed(now) => RecordKeepsWindow(c, s, now, true);
    case Fail(now) => RecordKeepsWindow(c, s, now, false);
    case _ =>
  }

  // ------------------------------------------------------------------ all runs

  ghost predicate RunOf(c: Config, s: State, events: seq<Event>, t: State)
    decreases |events|
  {
    if events == [] then s == t
    else s.clock <= events[0].now && RunOf(c, Step(c, s, events[0]), events[1..], t)
  }

  lemma {:induction false} RunKeepsInv(c: Config, s: State, events: seq<Event>, t: State)
    requires Inv(c, s) && RunOf(c, s, events, t)
    ensures Inv(c, t)
    decreases |events|
  {
    if events != [] {
      StepKeepsInv(c, s, events[0]);
      RunKeepsInv(c, Step(c, s, events[0]), events[1..], t);
    }
  }

  /** The requests that a run records, by its events alone, after those in `before`. */
  function Recorded(before: seq<Request>, events: seq<Event>): seq<Request>
    decreases |events|
  {
    if events == [] then before
    else
      var next := match events[0]
        case Succeed(now) => before + [Request(now, true)]
        case Fail(now) => before + [Request(now, false)]
        case Reset(_) => []
        case _ => before;
      Recorded(next, events[1..])
  }

  function LastFailure(requests: seq<Request>): Option<int> {
    if requests == [] then None
    else
      var last := requests[|requests| - 1];
      if last.success then LastFailure(requests[..|requests| - 1]) else Some(last.timestamp)
  }

  /** The history is that of the run since its last reset, and `lastFailureTime` is its last failure. */
  lemma {:induction false} HistoryIsTheRun(c: Config, s: State, events: seq<Event>, t: State)
    requires RunOf(c, s, events, t) && s.lastFailureTime == LastFailure(s.history)
    ensures t.history == Recorded(s.history, events) && t.lastFailureTime == LastFailure(t.history)
    decreases |events|
  {
    if events != [] {
      var next := Step(c, s, events[0]);
      assert forall r :: (s.history + [r])[..|s.history|] == s.history;
      HistoryIsTheRun(c, next, events[1..], t);
    }
  }

  /**
   In every run: the counters stay below their thresholds, the pruned list counts like the whole
   history, and no operation is called within the time window after an opening.
   */
  lemma EveryRunIsSafe(c: Config, start: int, events: seq<Event>, s: State, now: int)
    requires c.Sensible() && RunOf(c, Initial(start), events, s) && s.clock <= now
    ensures s.mode == Closed ==> s.failureCount < c.failureThreshold
    ensures s.mode == HalfOpen ==> s.successCount < c.successThreshold
    ensures After(s.requests, now - c.timeWindow) == After(Recorded([], events), now - c.timeWindow)
    ensures s.lastFailureTime == LastFailure(Recorded([], events))
    ensures Admits(c, s, now) && s.openedAt.Some? ==> now >= s.openedAt.value + c.timeWindow
  {
    RunKeepsInv(c, Initial(start), events, s);
    HistoryIsTheRun(c, Initial(start), events, s);
  }

  // ------------------------------------------------------------------ closing again

  /** A probe: an operation is begun at `t` and succeeds at `u`. */
  type Probe = (int, int)

  ghost predicate InOrder(probes: seq<Probe>, clock: int) {
    && (forall i :: 0 <= i < |probes| ==> clock <= probes[i].0 <= probes[i].1)
    && (forall i, j :: 0 <= i < j < |probes| ==> probes[i].1 <= probes[j].0)
  }

  ghost predicate AllAdmitted(c: Config, s: State, probes: seq<Probe>)
    decreases |probes|
  {
    probes != [] ==>
      && Admits(c, s, probes[0].0)
      && AllAdmitted(c, AfterProbe(c, s, probes[0]), probes[1..])
  }

  function AfterProbe(c: Config, s: State, p: Probe): State {
    RecordSuccess(c, BeginStep(c, s, p.0), p.1)
  }

  function AfterProbes(c: Config, s: State, probes: seq<Probe>): State
    decreases |probes|
  {
    if probes == [] then s else AfterProbes(c, AfterProbe(c, s, probes[0]), probes[1..])
  }

  /**
   The half-open limit leaves room for the successes that are needed. With a window of length
   zero nothing is ever recent.
   */
  predicate HasRoom(c: Config) {
    c.successThreshold <= c.halfOpenMaxRequests || (c.timeWindow == 0 && c.halfOpenMaxRequests >= 1)
  }

  /** Half open after `n` successes in a row, of which the window shows at most `n`. */
  ghost predicate Probing(c: Config, s: State, n: nat) {
    && s.mode == HalfOpen && s.successCount == n
    && forall cutoff :: cutoff >= s.clock - c.timeWindow ==>
         |After(s.requests, cutoff)| <= if c.timeWindow == 0 then 0 else n
  }

  lemma ProbeStep(c: Config, s: State, n: nat, p: Probe)
    requires Probing(c, s, n) && n < c.successThreshold && HasRoom(c) && s.clock <= p.0 <= p.1
    ensures Admits(c, s, p.0) && AfterProbe(c, s, p).clock == p.1
    ensures if n + 1 < c.successThreshold then Probing(c, AfterProbe(c, s, p), n + 1)
            else AfterProbe(c, s, p).mode == Closed
  {
    var t := BeginStep(c, s, p.0);
    var request := Request(p.1, true);
    forall cutoff | cutoff >= p.1 - c.timeWindow
      ensures |After(AfterProbe(c, s, p).requests, cutoff)| <= if c.timeWindow == 0 then 0 else n + 1
    {
      AfterAfter(t.requests + [request], p.1 - c.timeWindow, cutoff);
      AfterConcat(t.requests, [request], cutoff);
    }
  }

  lemma {:induction false} ProbesClose(c: Config, s: State, n: nat, probes: seq<Probe>)
    requires Probing(c, s, n) && n < c.successThreshold && HasRoom(c)
    requires |probes| == c.successThreshold - n && InOrder(probes, s.clock)
    ensures AllAdmitted(c, s, probes) && AfterProbes(c, s, probes).mode == Closed
    decreases |probes|
  {
    ProbeStep(c, s, n, probes[0]);
    if n + 1 < c.successThreshold {
      ProbesClose(c, AfterProbe(c, s, probes[0]), n + 1, probes[1..]);
    } else {
      assert probes[1..] == [];
    }
  }

  /** Nothing has been recorded since the circuit opened, as in a program that runs one operation at a time. */
  ghost predicate QuietlyOpen(c: Config, s: State) {
    Inv(c, s) && s.mode == Open && forall r :: r in s.history ==> r.timestamp <= s.openedAt.value
  }

  lemma {:induction false} AfterNothing(requests: seq<Request>, cutoff: int)
    requires forall r :: r in requests ==> r.timestamp <= cutoff
    ensures After(requests, cutoff) == []
  {
    if requests != [] {
      assert requests[0] in requests;
      AfterNothing(requests[1..], cutoff);
    }
  }

  /**
   One operation at a time, with room for the successes that are needed: after the time window
   that many straight successes close the circuit, whenever they happen.
   */
  lemma StraightSuccessesClose(c: Config, s: State, probes: seq<Probe>)
    requires QuietlyOpen(c, s) && HasRoom(c)
    requires |probes| == c.successThreshold && InOrder(probes, s.clock)
    requires probes[0].0 >= s.openedAt.value + c.timeWindow
    ensures AllAdmitted(c, s, probes) && AfterProbes(c, s, probes).mode == Closed
  {
    var p := probes[0];
    var t := BeginStep(c, s, p.0);
    forall cutoff | cutoff >= p.0 - c.timeWindow
      ensures |After(t.requests, cutoff)| <= 0
    {
      AfterNothing(s.history, cutoff);
    }
    assert Probing(c, t, 0);
    assert BeginStep(c, t, p.0) == t && AfterProbe(c, t, p) == AfterProbe(c, s, p);
    ProbesClose(c, t, 0, probes);
  }

  /** One operation at a time: a whole call of `execute`, or a command between calls. */
  datatype Call =
    | Execute(begin: int, end: int, success: bool)
    | Command(ev: Event)

  ghost predicate CallEnabled(s: State, call: Call) {
    match call
    case Execute(begin, end, _) => s.clock <= begin <= end
    case Command(ev) => s.clock <= ev.now && (ev.ForceOpen? || ev.ForceClose? || ev.Reset?)
  }

  function CallStep(c: Config, s: State, call: Call): State {
    match call
    case Execute(begin, end, success) =>
      var t := BeginStep(c, s, begin);
      if !Admits(c, s, begin) then t
      else if success then RecordSuccess(c, t, end)
      else RecordFailure(c, t, end)
    case Command(ev) => Step(c, s, ev)
  }

  ghost predicate SequentialRun(c: Config, s: State, calls: seq<Call>, t: State)
    decreases |calls|
  {
    if calls == [] then s == t
    else CallEnabled(s, calls[0]) && SequentialRun(c, CallStep(c, s, calls[0]), calls[1..], t)
  }

  ghost predicate Quiet(c: Config, s: State) {
    && Inv(c, s)
    && (forall r :: r in s.history ==> r.timestamp <= s.clock)
    && (s.mode == Open ==> QuietlyOpen(c, s))
  }

  lemma CallKeepsQuiet(c: Config, s: State, call: Call)
    requires Quiet(c, s) && CallEnabled(s, call)
    ensures Quiet(c, CallStep(c, s, call))
  {
    match call
    case Execute(begin, end, success) =>
      StepKeepsInv(c, s, Begin(begin));
      StepKeepsInv(c, BeginStep(c, s, begin), if success then Succeed(end) else Fail(end));
    case Command(ev) =>
      StepKeepsInv(c, s, ev);
  }

  /** Whenever the circuit is open in a sequential run, `StraightSuccessesClose` applies. */
  lemma {:induction false} SequentialRunIsQuiet(c: Config, s: State, calls: seq<Call>, t: State)
    requires Quiet(c, s) && SequentialRun(c, s, calls, t)
    ensures Quiet(c, t)
    decreases |calls|
  {
    if calls != [] {
      CallKeepsQuiet(c, s, calls[0]);
      SequentialRunIsQuiet(c, CallStep(c, s, calls[0]), calls[1..], t);
    }
  }

  /**
   In sequential runs a sensible configuration recovers from every opening by straight successes
   after the time window, exactly when its half-open limit has room for them.
   */
  lemma RecoveryNeedsEnoughProbes(c: Config, start: int)
    requires c.Sensible()
    ensures HasRoom(c) <==> AlwaysRecovers(c, start)
  {
    var s0 := Initial(start);
    if HasRoom(c) {
      forall calls, s, probes | SequentialRun(c, s0, calls, s) && RecoveryAttempt(c, s, probes)
        ensures AllAdmitted(c, s, probes) && AfterProbes(c, s, probes).mode == Closed
      {
        SequentialRunIsQuiet(c, s0, calls, s);
        StraightSuccessesClose(c, s, probes);
      }
    } else {
      var tripped := CallStep(c, s0, Command(ForceOpen(start)));
      assert SequentialRun(c, tripped, [], tripped);
      assert SequentialRun(c, s0, [Command(ForceOpen(start))], tripped);
      var now := start + c.timeWindow;
      var probes := Burst(c.successThreshold, now);
      assert RecoveryAttempt(c, tripped, probes);
      CallKeepsQuiet(c, s0, Command(ForceOpen(start)));
      if c.halfOpenMaxRequests <= 0 {
        RefusedBurst(c, tripped, 0, c.successThreshold, now);
      } else {
        TooFewProbesRefuse(c, tripped, now);
        RefusedBurst(c, tripped, c.halfOpenMaxRequests, c.successThreshold, now);
      }
    }
  }

  /** As many successes as are needed, one after the other, after the time window. */
  ghost predicate RecoveryAttempt(c: Config, s: State, probes: seq<Probe>) {
    && s.mode == Open && s.openedAt.Some?
    && |probes| == c.successThreshold && probes != [] && InOrder(probes, s.clock)
    && probes[0].0 >= s.openedAt.value + c.timeWindow
  }

  ghost predicate AlwaysRecovers(c: Config, start: int) {
    forall calls, s, probes :: SequentialRun(c, Initial(start), calls, s) && RecoveryAttempt(c, s, probes) ==>
      AllAdmitted(c, s, probes) && AfterProbes(c, s, probes).mode == Closed
  }

  lemma {:induction false} RefusedBurst(c: Config, s: State, k: nat, n: nat, now: int)
    requires k < n && !Admits(c, AfterProbes(c, BeginStep(c, s, now), Burst(k, now)), now)
    ensures !AllAdmitted(c, s, Burst(n, now))
    decreases k
  {
    hide RecordSuccess, After;
    var t := BeginStep(c, s, now);
    assert BeginStep(c, t, now) == t;
    if k > 0 {
      var next := AfterProbe(c, s, (now, now));
      assert AfterProbe(c, t, (now, now)) == next;
      assert Burst(k, now)[1..] == Burst(k - 1, now) && Burst(n, now)[1..] == Burst(n - 1, now);
      AfterProbesBegun(c, next, k - 1, now);
      RefusedBurst(c, next, k - 1, n - 1, now);
    }
  }

  /** Beginning once more at the same instant changes nothing for the burst that follows. */
  lemma AfterProbesBegun(c: Config, s: State, k: nat, now: int)
    ensures !Admits(c, AfterProbes(c, s, Burst(k, now)), now) ==>
      !Admits(c, AfterProbes(c, BeginStep(c, s, now), Burst(k, now)), now)
  {
    var t := BeginStep(c, s, now);
    assert BeginStep(c, t, now) == t;
    if k > 0 {
      assert AfterProbe(c, s, (now, now)) == AfterProbe(c, t, (now, now));
    }
  }

  /** `n` probes that all happen at the instant `now`. */
  function Burst(n: nat, now: int): seq<Probe> {
    seq(n, _ => (now, now))
  }

  lemma {:induction false} BurstFills(c: Config, s: State, n: nat, k: nat, now: int)
    requires s.mode == HalfOpen && s.successCount == n && s.clock <= now
    requires |After(s.requests, now - c.timeWindow)| == n
    requires c.timeWindow >= 1 && n + k <= c.halfOpenMaxRequests < c.successThreshold
    ensures
      var t := AfterProbes(c, s, Burst(k, now));
      && AllAdmitted(c, s, Burst(k, now))
      && t.mode == HalfOpen && (k > 0 ==> t.clock == now) && |After(t.requests, now - c.timeWindow)| == n + k
    decreases k
  {
    if k > 0 {
      var burst := Burst(k, now);
      var t := AfterProbe(c, s, burst[0]);
      BurstStep(c, s, n, now);
      hide After, AfterProbe, Admits;
      BurstFills(c, t, n + 1, k - 1, now);
      assert burst[1..] == Burst(k - 1, now);
    }
  }

  lemma BurstStep(c: Config, s: State, n: nat, now: int)
    requires s.mode == HalfOpen && s.successCount == n
    requires |After(s.requests, now - c.timeWindow)| == n
    requires c.timeWindow >= 1 && n < c.halfOpenMaxRequests < c.successThreshold
    ensures
      var t := AfterProbe(c, s, (now, now));
      && Admits(c, s, now) && t.mode == HalfOpen && t.successCount == n + 1 && t.clock == now
      && |After(t.requests, now - c.timeWindow)| == n + 1
  {
    var cutoff := now - c.timeWindow;
    assert After([Request(now, true)], cutoff) == [Request(now, true)];
    hide After;
    RecordShows(c, BeginStep(c, s, now), now, true, cutoff);
  }

  /**
   With fewer half-open requests than successes needed the promise fails: after that many quick
   successes the circuit is still half open and refuses the next operation.
   */
  lemma TooFewProbesRefuse(c: Config, s: State, now: int)
    requires QuietlyOpen(c, s) && c.timeWindow >= 1 && 0 <= c.halfOpenMaxRequests < c.successThreshold
    requires s.clock <= now && now >= s.openedAt.value + c.timeWindow
    ensures
      var t := AfterProbes(c, BeginStep(c, s, now), Burst(c.halfOpenMaxRequests, now));
      && AllAdmitted(c, BeginStep(c, s, now), Burst(c.halfOpenMaxRequests, now))
      && t.mode == HalfOpen && !Admits(c, t, now)
  {
    AfterNothing(s.history, now - c.timeWindow);
    hide After, AfterProbes, AllAdmitted;
    BurstFills(c, BeginStep(c, s, now), 0, c.halfOpenMaxRequests, now);
  }

  // ------------------------------------------------------------------ concurrent probes

  /** The operations in flight after a run: each admitted beginning adds one, each result takes one away. */
  ghost function InFlight(c: Config, s: State, events: seq<Event>, n: int): int
    decreases |events|
  {
    if events == [] then n
    else
      var change := match events[0]
        case Begin(now) => if Admits(c, s, now) then 1 else 0
        case Succeed(_) => -1
        case Fail(_) => -1
        case _ => 0;
      InFlight(c, Step(c, s, events[0]), events[1..], n + change)
  }

  /** Beginnings in a row, none earlier than `clock`. */
  ghost predicate Beginnings(events: seq<Event>, clock: int) {
    && (forall i :: 0 <= i < |events| ==> events[i].Begin? && clock <= events[i].now)
    && (forall i, j :: 0 <= i < j < |events| ==> events[i].now <= events[j].now)
  }

  lemma {:induction false} AfterShrinks(requests: seq<Request>, early: int, late: int)
    requires early <= late
    ensures |After(requests, late)| <= |After(requests, early)|
  {
    if requests != [] {
      AfterShrinks(requests[1..], early, late);
    }
  }

  lemma {:induction false} InFlightAtMost(c: Config, s: State, events: seq<Event>, n: int)
    requires forall i :: 0 <= i < |events| ==> events[i].Begin?
    ensures InFlight(c, s, events, n) <= n + |events|
    decreases |events|
  {
    if events != [] {
      InFlightAtMost(c, Step(c, s, events[0]), events[1..], n + if Admits(c, s, events[0].now) then 1 else 0);
    }
  }

  /**
   `halfOpenMaxRequests` counts finished requests, so it does not limit how many operations run at
   once: while half open, any number of beginnings is admitted, exactly when the window at the
   first of them shows fewer finished requests than the limit.
   */
  lemma {:induction false} BeginningIsNotCounted(c: Config, s: State, events: seq<Event>, n: int)
    requires s.mode == HalfOpen && events != [] && Beginnings(events, s.clock)
    ensures InFlight(c, s, events, n) == n + |events|
      <==> |After(s.requests, events[0].now - c.timeWindow)| < c.halfOpenMaxRequests
    decreases |events|
  {
    var next, rest := Step(c, s, events[0]), events[1..];
    if !Admits(c, s, events[0].now) {
      InFlightAtMost(c, next, rest, n);
    } else if rest != [] {
      AfterShrinks(s.requests, events[0].now - c.timeWindow, rest[0].now - c.timeWindow);
      BeginningIsNotCounted(c, next, rest, n + 1);
    }
  }

  lemma {:induction false} BeginningsRun(c: Config, s: State, events: seq<Event>)
    requires s.mode == HalfOpen && Beginnings(events, s.clock)
    ensures exists t :: RunOf(c, s, events, t) && t.mode == HalfOpen
    decreases |events|
  {
    if events == [] {
      assert RunOf(c, s, events, s);
    } else {
      var next := Step(c, s, events[0]);
      BeginningsRun(c, next, events[1..]);
      var t :| RunOf(c, next, events[1..], t) && t.mode == HalfOpen;
      assert RunOf(c, s, events, t);
    }
  }

  /** Every number of operations can be in flight at once while half open, whatever the limit is. */
  lemma AnyNumberOfProbes(c: Config, start: int, k: nat)
    requires c.Sensible() && c.halfOpenMaxRequests >= 1 && k >= 1
    ensures exists events, s ::
      RunOf(c, Initial(start), events, s) && s.mode == HalfOpen && InFlight(c, Initial(start), events, 0) == k
  {
    var now := start + c.timeWindow;
    var tripped := Step(c, Initial(start), ForceOpen(start));
    var first := Step(c, tripped, Begin(now));
    var rest := seq(k - 1, _ => Begin(now));
    BeginningsRun(c, first, rest);
    var s :| RunOf(c, first, rest, s) && s.mode == HalfOpen;
    var begins := [Begin(now)] + rest;
    assert begins[1..] == rest;
    var events := [ForceOpen(start)] + begins;
    assert events[1..] == begins;
    assert RunOf(c, tripped, begins, s);
    assert RunOf(c, Initial(start), events, s);
    assert Admits(c, tripped, now);
    if rest == [] {
      assert InFlight(c, first, rest, 1) == 1;
    } else {
      BeginningIsNotCounted(c, first, rest, 1);
    }
    assert InFlight(c, tripped, begins, 0) == k;
    assert InFlight(c, Initial(start), events, 0) == k;
  }

  function Failures(events: seq<Event>): nat {
    if events == [] then 0 else Failures(events[1..]) + if events[0].Fail? then 1 else 0
  }

  /** Some state of the run is open. */
  ghost predicate SeesOpen(c: Config, s: State, events: seq<Event>)
    decreases |events|
  {
    s.mode == Open || (events != [] && SeesOpen(c, Step(c, s, events[0]), events[1..]))
  }

  /** Operations that begin and end, without commands in between. */
  ghost predicate OnlyOperations(events: seq<Event>) {
    forall ev :: ev in events ==> ev.Begin? || ev.Succeed? || ev.Fail?
  }

  /**
   Failures add up from the moment the circuit is closed, however far apart they are and however
   many successes lie between them: it opens exactly when as many as the threshold have been
   counted, and the time window plays no part in that.
   */
  lemma {:induction false} FailuresAddUp(c: Config, s: State, events: seq<Event>, t: State)
    requires s.mode == Closed && s.failureCount < c.failureThreshold
    requires RunOf(c, s, events, t) && OnlyOperations(events)
    ensures SeesOpen(c, s, events) <==> s.failureCount + Failures(events) >= c.failureThreshold
    ensures !SeesOpen(c, s, events) ==> t.mode == Closed && t.failureCount == s.failureCount + Failures(events)
    decreases |events|
  {
    if events != [] {
      var next, rest := Step(c, s, events[0]), events[1..];
      assert events[0] in events && forall ev :: ev in rest ==> ev in events;
      if next.mode == Closed {
        FailuresAddUp(c, next, rest, t);
      } else {
        assert SeesOpen(c, next, rest);
      }
    }
  }

  /** Calls of `execute`, each of which ends before the next one begins. */
  ghost predicate OnlyCalls(calls: seq<Call>) {
    forall call :: call in calls ==> call.Execute?
  }

  function FailedCalls(calls: seq<Call>): nat {
    if calls == [] then 0
    else FailedCalls(calls[1..]) + if calls[0].Execute? && !calls[0].success then 1 else 0
  }

  ghost predicate EverOpen(c: Config, s: State, calls: seq<Call>)
    decreases |calls|
  {
    s.mode == Open || (calls != [] && EverOpen(c, CallStep(c, s, calls[0]), calls[1..]))
  }

  /** The same for a program that runs one operation at a time. */
  lemma {:induction false} FailedCallsAddUp(c: Config, s: State, calls: seq<Call>, t: State)
    requires s.mode == Closed && s.failureCount < c.failureThreshold
    requires SequentialRun(c, s, calls, t) && OnlyCalls(calls)
    ensures EverOpen(c, s, calls) <==> s.failureCount + FailedCalls(calls) >= c.failureThreshold
    decreases |calls|
  {
    if calls != [] {
      var next, rest := CallStep(c, s, calls[0]), calls[1..];
      assert calls[0] in calls && forall call :: call in rest ==> call in calls;
      if next.mode == Closed {
        FailedCallsAddUp(c, next, rest, t);
      } else {
        assert EverOpen(c, next, rest);
      }
    }
  }

  // ------------------------------------------------------------------ the outcome of a half-open phase

  /** A failure comes before the `k`th success. */
  predicate FailsFirst(events: seq<Event>, k: int) {
    k > 0 && events != [] &&
    match events[0]
    case Fail(_) => true
    case Succeed(_) => FailsFirst(events[1..], k - 1)
    case _ => FailsFirst(events[1..], k)
  }

  /** The `k`th success comes before any failure. */
  predicate SucceedsFirst(events: seq<Event>, k: int) {
    k <= 0 || (events != [] &&
    match events[0]
    case Fail(_) => false
    case Succeed(_) => SucceedsFirst(events[1..], k - 1)
    case _ => SucceedsFirst(events[1..], k))
  }

  /** The first state of the run that is not half open is of the given mode. */
  ghost predicate LeavesTo(c: Config, s: State, events: seq<Event>, mode: Mode)
    decreases |events|
  {
    if s.mode != HalfOpen then s.mode == mode
    else events != [] && LeavesTo(c, Step(c, s, events[0]), events[1..], mode)
  }

  /**
   However many operations are in flight: a half-open circuit opens again exactly when one fails
   before the successes that are still needed, and closes exactly when those come first.
   */
  lemma {:induction false} HalfOpenOutcome(c: Config, s: State, events: seq<Event>)
    requires s.mode == HalfOpen && s.successCount < c.successThreshold && OnlyOperations(events)
    ensures LeavesTo(c, s, events, Open) <==> FailsFirst(events, c.successThreshold - s.successCount)
    ensures LeavesTo(c, s, events, Closed) <==> SucceedsFirst(events, c.successThreshold - s.successCount)
    decreases |events|
  {
    if events != [] {
      var next, rest := Step(c, s, events[0]), events[1..];
      assert events[0] in events && forall ev :: ev in rest ==> ev in events;
      if next.mode == HalfOpen {
        HalfOpenOutcome(c, next, rest);
      }
    }
  }

  /** Every half-open phase counts its successes from zero, whatever was counted before. */
  lemma PhaseStartsAfresh(c: Config, s: State, now: int, events: seq<Event>)
    requires s.mode == Open && BeginStep(c, s, now).mode == HalfOpen
    requires c.successThreshold >= 1 && OnlyOperations(events)
    ensures LeavesTo(c, BeginStep(c, s, now), events, Open) <==> FailsFirst(events, c.successThreshold)
    ensures LeavesTo(c, BeginStep(c, s, now), events, Closed) <==> SucceedsFirst(events, c.successThreshold)
  {
    HalfOpenOutcome(c, BeginStep(c, s, now), events);
  }

  /** The event opens the circuit: by force, or by a failure while it was not open. */
  ghost predicate Opens(c: Config, s: State, ev: Event) {
    ev.ForceOpen? || (ev.Fail? && s.mode != Open && Step(c, s, ev).mode == Open)
  }

  /**
   After an opening, whatever operations still in flight come to, the circuit stays open and
   admits nothing until a full window later, and from then on it lets the next one try.
   */
  lemma {:induction false} OpenForOneWindow(c: Config, s: State, ev: Event, events: seq<Event>, t: State, now: int)
    requires Opens(c, s, ev) && RunOf(c, Step(c, s, ev), events, t) && OnlyOperations(events)
    requires events == [] || t.clock < ev.now + c.timeWindow
    ensures t.mode == Open
    ensures BeginStep(c, t, now).mode == if now < ev.now + c.timeWindow then Open else HalfOpen
    ensures Admits(c, t, now) <==>
      now >= ev.now + c.timeWindow && |After(t.requests, now - c.timeWindow)| < c.halfOpenMaxRequests
  {
    StaysOpenUntil(c, Step(c, s, ev), events, t, ev.now + c.timeWindow);
  }

  lemma {:induction false} StaysOpenUntil(c: Config, s: State, events: seq<Event>, t: State, until: int)
    requires s.mode == Open && s.nextAttempt == Some(until) && RunOf(c, s, events, t) && OnlyOperations(events)
    requires events == [] || t.clock < until
    ensures t.mode == Open && t.nextAttempt == Some(until)
    decreases |events|
  {
    if events != [] {
      var next, rest := Step(c, s, events[0]), events[1..];
      assert events[0] in events && forall ev :: ev in rest ==> ev in events;
      ClockOnlyGrows(c, next, rest, t);
      StaysOpenUntil(c, next, rest, t, until);
    }
  }

  lemma {:induction false} ClockOnlyGrows(c: Config, s: State, events: seq<Event>, t: State)
    requires RunOf(c, s, events, t)
    ensures s.clock <= t.clock
    decreases |events|
  {
    if events != [] {
      ClockOnlyGrows(c, Step(c, s, events[0]), events[1..], t);
    }
  }

  /** The event closes the circuit: by command, or by the last success that a half-open phase needs. */
  ghost predicate Closes(c: Config, s: State, ev: Event) {
    ev.ForceClose? || ev.Reset? || (ev.Succeed? && s.mode == HalfOpen && Step(c, s, ev).mode == Closed)
  }

  /** After each closing, failures are counted from zero. */
  lemma ClosingStartsAfresh(c: Config, s: State, ev: Event, events: seq<Event>, t: State)
    requires c.Sensible() && Closes(c, s, ev) && RunOf(c, Step(c, s, ev), events, t) && OnlyOperations(events)
    ensures Step(c, s, ev).mode == Closed
    ensures SeesOpen(c, Step(c, s, ev), events) <==> Failures(events) >= c.failureThreshold
  {
    FailuresAddUp(c, Step(c, s, ev), events, t);
  }

  // ------------------------------------------------------------------ the class

  /** The clock is a parameter; `BeginExecute` is `execute` up to the call of the operation. */
  class CircuitBreaker {
    const config: Config
    var mode: Mode
    var failureCount: int
    var successCount: int
    var lastFailureTime: Option<int>
    var nextAttempt: Option<int>
    var requests: seq<Request>
    ghost var clock: int
    ghost var history: seq<Request>
    ghost var openedAt: Option<int>

    ghost function Snapshot(): State
      reads this
    {
      State(mode, failureCount, successCount, lastFailureTime, nextAttempt, requests, clock, history, openedAt)
    }

    constructor (config: Config, ghost now: int)
      ensures this.config == config && Snapshot() == Initial(now)
    {
      this.config := config;
      mode, failureCount, successCount, lastFailureTime, nextAttempt := Closed, 0, 0, None, None;
      requests, clock, history, openedAt := [], now, [], None;
    }

    method BeginExecute(now: int) returns (admitted: bool)
      modifies this
      ensures Snapshot() == Step(config, old(Snapshot()), Begin(now))
      ensures admitted <==> Admits(config, old(Snapshot()), now)
    {
      clock := now;
      if mode == Open {
        if nextAttempt.Some? && now < nextAttempt.value {
          return false;
        }
        mode, successCount := HalfOpen, 0;
      }
      if mode == HalfOpen {
        var recentRequests := After(requests, now - config.timeWindow);
        if |recentRequests| >= config.halfOpenMaxRequests {
          return false;
        }
      }
      return true;
    }

    method RecordSuccess(now: int)
      modifies this
      ensures Snapshot() == Step(config, old(Snapshot()), Succeed(now))
    {
      hide After;
      clock, history := now, history + [Request(now, true)];
      requests := requests + [Request(now, true)];
      successCount := successCount + 1;
      if mode == HalfOpen {
        if successCount >= config.successThreshold {
          mode, failureCount, nextAttempt := Closed, 0, None;
        }
      }
      CleanupOldRequests(now);
    }

    method RecordFailure(now: int)
      modifies this
      ensures Snapshot() == Step(config, old(Snapshot()), Fail(now))
    {
      hide After;
      clock, history := now, history + [Request(now, false)];
      requests := requests + [Request(now, false)];
      failureCount := failureCount + 1;
      lastFailureTime := Some(now);
      if mode == Closed {
        if failureCount >= config.failureThreshold {
          mode, nextAttempt, openedAt := Open, Some(now + config.timeWindow), Some(now);
        }
      } else if mode == HalfOpen {
        mode, nextAttempt, openedAt := Open, Some(now + config.timeWindow), Some(now);
      }
      CleanupOldRequests(now);
    }

    method CleanupOldRequests(now: int)
      modifies this`requests
      ensures requests == After(old(requests), now - config.timeWindow)
    {
      var kept: seq<Request> := [];
      var rest := requests;
      var cutoff := now - config.timeWindow;
      assert kept + After(rest, cutoff) == After(requests, cutoff);
      while rest != []
        invariant requests == old(requests) && kept + After(rest, cutoff) == After(requests, cutoff)
        decreases |rest|
      {
        if rest[0].timestamp > cutoff {
          assert kept + ([rest[0]] + After(rest[1..], cutoff)) == (kept + [rest[0]]) + After(rest[1..], cutoff);
          kept := kept + [rest[0]];
        } else {
          assert [] + After(rest[1..], cutoff) == After(rest[1..], cutoff);
        }
        rest := rest[1..];
      }
      requests := kept;
    }

    method DoForceOpen(now: int)
      modifies this
      ensures Snapshot() == Step(config, old(Snapshot()), ForceOpen(now))
    {
      mode, nextAttempt := Open, Some(now + config.timeWindow);
      clock, openedAt := now, Some(now);
    }

    method DoForceClose(ghost now: int)
      modifies this
      ensures Snapshot() == Step(config, old(Snapshot()), ForceClose(now))
    {
      mode, failureCount, successCount, nextAttempt := Closed, 0, 0, None;
      clock, openedAt := now, None;
    }

    method DoReset(ghost now: int)
      modifies this
      ensures Snapshot() == Step(config, old(Snapshot()), Reset(now))
    {
      mode, failureCount, successCount, lastFailureTime, nextAttempt := Closed, 0, 0, None, None;
      requests := [];
      clock, history, openedAt := now, [], None;
    }
  }
}
