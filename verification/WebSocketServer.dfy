/**
 Two mechanisms of the optimized websocket server, for one client: the fixed-window rate limit
 and the batching of small messages.
 */
module WebSocketServing {

  // ------------------------------------------------------------------ rate limit

  const WINDOW_MS := 1000

  /** `messageCount` and `messageCountResetAt`. */
  datatype Limiter = Limiter(count: int, resetAt: int)

  function Tick(l: Limiter, now: int): Limiter {
    if now - l.resetAt > WINDOW_MS then Limiter(1, now) else Limiter(l.count + 1, l.resetAt)
  }

  predicate Accepts(limit: int, l: Limiter, now: int) {
    Tick(l, now).count <= limit
  }

  ghost predicate Monotone(times: seq<int>, start: int) {
    && (forall i :: 0 <= i < |times| ==> start <= times[i])
    && (forall i, j :: 0 <= i < j < |times| ==> times[i] <= times[j])
  }

  /** How many messages that arrive at `times` and between `lo` and `hi` are accepted. */
  function AcceptedIn(limit: int, l: Limiter, times: seq<int>, lo: int, hi: int): nat
    decreases |times|
  {
    if times == [] then 0
    else
      (if Accepts(limit, l, times[0]) && lo <= times[0] <= hi then 1 else 0)
      + AcceptedIn(limit, Tick(l, times[0]), times[1..], lo, hi)
  }

  function AtLeastZero(n: int): nat {
    if n < 0 then 0 else n
  }

  /** Which of the messages that arrive at `times` are accepted. */
  function Verdicts(limit: int, l: Limiter, times: seq<int>): seq<bool>
    decreases |times|
  {
    if times == [] then [] else [Accepts(limit, l, times[0])] + Verdicts(limit, Tick(l, times[0]), times[1..])
  }

  /** Within one window the first messages up to the limit are accepted and the others are not. */
  lemma {:induction false} WindowAcceptsUpToLimit(limit: int, l: Limiter, times: seq<int>)
    requires forall i :: 0 <= i < |times| ==> times[i] <= l.resetAt + WINDOW_MS
    ensures |Verdicts(limit, l, times)| == |times|
    ensures forall i :: 0 <= i < |times| ==> (Verdicts(limit, l, times)[i] <==> i < limit - l.count)
    decreases |times|
  {
    if times != [] {
      WindowAcceptsUpToLimit(limit, Tick(l, times[0]), times[1..]);
    }
  }

  /**
   When the window starts in which message `i` arrives: a message more than 1000 ms after the
   start of the current window starts a new one, any other message belongs to the current one.
   */
  function WindowStart(start: int, times: seq<int>, i: nat): int
    requires i < |times|
  {
    var current := if i == 0 then start else WindowStart(start, times, i - 1);
    if times[i] > current + 1000 then times[i] else current
  }

  /** The messages before `i` in the same window. */
  ghost function EarlierInWindow(start: int, times: seq<int>, i: nat): set<nat>
    requires i < |times|
  {
    set j | 0 <= j < i && WindowStart(start, times, j) == WindowStart(start, times, i)
  }

  function After(l: Limiter, times: seq<int>, i: nat): Limiter
    requires i <= |times|
  {
    if i == 0 then l else Tick(After(l, times, i - 1), times[i - 1])
  }

  lemma {:induction false} VerdictAt(limit: int, l: Limiter, times: seq<int>, i: nat)
    requires i < |times|
    ensures |Verdicts(limit, l, times)| == |times|
    ensures Verdicts(limit, l, times)[i] <==> Accepts(limit, After(l, times, i), times[i])
    decreases |times|
  {
    var rest := times[1..];
    if i == 0 {
      if rest != [] {
        VerdictAt(limit, Tick(l, times[0]), rest, 0);
      }
    } else {
      VerdictAt(limit, Tick(l, times[0]), rest, i - 1);
      AfterFirst(l, times, i);
    }
  }

  lemma {:induction false} AfterFirst(l: Limiter, times: seq<int>, i: nat)
    requires 0 < i <= |times|
    ensures After(l, times, i) == After(Tick(l, times[0]), times[1..], i - 1)
  {
    if i > 1 {
      AfterFirst(l, times, i - 1);
    }
  }

  lemma {:induction false} WindowStartsGrow(start: int, times: seq<int>, i: nat, j: nat)
    requires j <= i < |times| && Monotone(times, start)
    ensures WindowStart(start, times, j) <= WindowStart(start, times, i) <= times[i]
    decreases i
  {
    if j < i {
      WindowStartsGrow(start, times, i - 1, j);
    } else if i > 0 {
      WindowStartsGrow(start, times, i - 1, i - 1);
    }
  }

  lemma EarlierStep(start: int, times: seq<int>, i: nat)
    requires 0 < i < |times| && Monotone(times, start)
    ensures EarlierInWindow(start, times, i) ==
      if times[i] > WindowStart(start, times, i - 1) + 1000 then {}
      else EarlierInWindow(start, times, i - 1) + {i - 1}
  {
    if times[i] > WindowStart(start, times, i - 1) + 1000 {
      NothingEarlier(start, times, i);
    }
  }

  lemma NothingEarlier(start: int, times: seq<int>, i: nat)
    requires i < |times| && Monotone(times, start)
    requires times[i] > (if i == 0 then start else WindowStart(start, times, i - 1)) + 1000
    ensures EarlierInWindow(start, times, i) == {}
  {
    forall j | 0 <= j < i
      ensures WindowStart(start, times, j) < times[i] == WindowStart(start, times, i)
    {
      WindowStartsGrow(start, times, i - 1, j);
    }
  }

  /** The counter and the time of its reset are the window of the last message and its size so far. */
  lemma {:induction false} CounterIsWindow(start: int, times: seq<int>, i: nat)
    requires i < |times| && Monotone(times, start)
    ensures After(Limiter(0, start), times, i + 1)
         == Limiter(|EarlierInWindow(start, times, i)| + 1, WindowStart(start, times, i))
  {
    if i == 0 {
      assert EarlierInWindow(start, times, i) == {};
      assert After(Limiter(0, start), times, 0) == Limiter(0, start);
    } else {
      CounterIsWindow(start, times, i - 1);
      EarlierStep(start, times, i);
      assert i - 1 !in EarlierInWindow(start, times, i - 1);
      hide EarlierInWindow, Monotone;
    }
  }

  /**
   In every run of arrivals a message is accepted exactly when fewer than `limit` messages came
   before it in its window.
   */
  lemma AcceptedWithinWindow(limit: int, start: int, times: seq<int>, i: nat)
    requires i < |times| && Monotone(times, start)
    ensures |Verdicts(limit, Limiter(0, start), times)| == |times|
    ensures Verdicts(limit, Limiter(0, start), times)[i] <==> |EarlierInWindow(start, times, i)| < limit
  {
    VerdictAt(limit, Limiter(0, start), times, i);
    CounterIsWindow(start, times, i);
  }

  /** The limiter recovers: the first message more than 1000 ms after the start of a window is accepted. */
  lemma LateMessageIsAccepted(limit: int, start: int, times: seq<int>, i: nat)
    requires limit >= 1 && i < |times| && Monotone(times, start)
    requires times[i] > (if i == 0 then start else WindowStart(start, times, i - 1)) + 1000
    ensures |Verdicts(limit, Limiter(0, start), times)| == |times| && Verdicts(limit, Limiter(0, start), times)[i]
  {
    AcceptedWithinWindow(limit, start, times, i);
    NothingEarlier(start, times, i);
  }

  /** Once a window has started at `lo` or later, no further one starts before `lo + WINDOW_MS`. */
  lemma {:induction false} LastWindow(limit: int, l: Limiter, times: seq<int>, lo: int)
    requires l.count >= 0 && l.resetAt >= lo && Monotone(times, l.resetAt)
    ensures AcceptedIn(limit, l, times, lo, lo + WINDOW_MS) <= AtLeastZero(limit - l.count)
    decreases |times|
  {
    if times != [] {
      var t := times[0];
      if t - l.resetAt > WINDOW_MS {
        NothingAfter(limit, l, times, lo);
      } else {
        LastWindow(limit, Tick(l, t), times[1..], lo);
      }
    }
  }

  lemma {:induction false} NothingAfter(limit: int, l: Limiter, times: seq<int>, lo: int)
    requires forall i :: 0 <= i < |times| ==> times[i] > lo + WINDOW_MS
    ensures AcceptedIn(limit, l, times, lo, lo + WINDOW_MS) == 0
    decreases |times|
  {
    if times != [] {
      NothingAfter(limit, Tick(l, times[0]), times[1..], lo);
    }
  }

  /** From the first message in the interval on: the rest of one window, and one more. */
  lemma {:induction false} TwoWindows(limit: int, l: Limiter, times: seq<int>, lo: int)
    requires l.count >= 0 && Monotone(times, l.resetAt) && Monotone(times, lo)
    ensures AcceptedIn(limit, l, times, lo, lo + WINDOW_MS) <= AtLeastZero(limit - l.count) + AtLeastZero(limit)
    decreases |times|
  {
    if times != [] {
      var t := times[0];
      if t - l.resetAt > WINDOW_MS {
        LastWindow(limit, Tick(l, t), times[1..], lo);
      } else {
        TwoWindows(limit, Tick(l, t), times[1..], lo);
      }
    }
  }

  /**
   For every run of arrivals, any interval as long as a window accepts at most twice the limit,
   wherever it starts.
   */
  lemma {:induction false} IntervalAcceptsTwiceLimit(limit: int, l: Limiter, times: seq<int>, lo: int)
    requires l.count >= 0 && Monotone(times, l.resetAt)
    ensures AcceptedIn(limit, l, times, lo, lo + WINDOW_MS) <= 2 * AtLeastZero(limit)
    decreases |times|
  {
    if times != [] && times[0] < lo {
      IntervalAcceptsTwiceLimit(limit, Tick(l, times[0]), times[1..], lo);
    } else {
      TwoWindows(limit, l, times, lo);
    }
  }

  /** `k` messages at the instant `t`. */
  function Burst(k: nat, t: int): seq<int> {
    seq(k, _ => t)
  }

  /** A burst in the current window that stays within the limit is accepted as a whole. */
  lemma {:induction false} BurstAccepted(limit: int, l: Limiter, k: nat, t: int, rest: seq<int>, lo: int, hi: int)
    requires t - l.resetAt <= WINDOW_MS && l.count + k <= limit && lo <= t <= hi
    ensures AcceptedIn(limit, l, Burst(k, t) + rest, lo, hi)
         == k + AcceptedIn(limit, Limiter(l.count + k, l.resetAt), rest, lo, hi)
    decreases k
  {
    var times := Burst(k, t) + rest;
    if k == 0 {
      assert times == rest;
    } else {
      assert times[0] == t && times[1..] == Burst(k - 1, t) + rest;
      BurstAccepted(limit, Tick(l, t), k - 1, t, rest, lo, hi);
    }
  }

  /** The bound is reached for every limit: a burst at the end of one window and one in the next. */
  lemma TwiceLimitIsReached(limit: int, start: int) returns (times: seq<int>, lo: int)
    requires limit >= 1
    ensures Monotone(times, start)
    ensures AcceptedIn(limit, Limiter(0, start), times, lo, lo + WINDOW_MS) == 2 * limit
  {
    var l := Limiter(0, start);
    lo := start + WINDOW_MS;
    var late := Burst(limit, lo + 1);
    times := Burst(limit, lo) + late;
    BurstAccepted(limit, l, limit, lo, late, lo, lo + WINDOW_MS);
    var full := Limiter(limit, start);
    assert late[1..] == Burst(limit - 1, lo + 1) + [];
    assert Tick(full, lo + 1) == Limiter(1, lo + 1);
    BurstAccepted(limit, Limiter(1, lo + 1), limit - 1, lo + 1, [], lo, lo + WINDOW_MS);
    assert AcceptedIn(limit, full, late, lo, lo + WINDOW_MS) == limit;
  }

  // ------------------------------------------------------------------ batching

  type Message = string

  /** What goes over the wire: a message on its own, or several in one frame. */
  datatype Frame = One(m: Message) | Batch(ms: seq<Message>)

  function Unbatch(frames: seq<Frame>): seq<Message> {
    if frames == [] then []
    else (match frames[0] case One(m) => [m] case Batch(ms) => ms) + Unbatch(frames[1..])
  }

  lemma {:induction false} UnbatchSnoc(frames: seq<Frame>, f: Frame)
    ensures Unbatch(frames + [f]) == Unbatch(frames) + match f case One(m) => [m] case Batch(ms) => ms
  {
    if frames == [] {
      assert frames + [f] == [f] && [f][1..] == [];
    } else {
      assert (frames + [f])[1..] == frames[1..] + [f];
      UnbatchSnoc(frames[1..], f);
    }
  }

  /** `wire` holds the frames sent and `accepted` the messages that were not dropped, both in order. */
  datatype Outbox = Outbox(pending: seq<Message>, timer: bool, wire: seq<Frame>, accepted: seq<Message>)
  {
    /** Nothing is lost, repeated or reordered. */
    ghost predicate InOrder() {
      Unbatch(wire) + pending == accepted
    }

    /** A flush is scheduled exactly when something waits for it. */
    predicate Scheduled() {
      timer <==> pending != []
    }
  }

  /** `flushClientMessages`; `sends` says whether `ws.send` returns or throws. */
  function Flush(o: Outbox, sends: bool): Outbox {
    if o.pending == [] then o
    else if !sends then o.(timer := false)
    else
      var frame := if |o.pending| > 1 then Batch(o.pending) else One(o.pending[0]);
      o.(timer := false, wire := o.wire + [frame], pending := [])
  }

  /** `sendToClient` of a message below 100 bytes. */
  function SendSmall(o: Outbox, m: Message, batchSize: int, sends: bool): Outbox {
    var t := o.(pending := o.pending + [m], timer := true, accepted := o.accepted + [m]);
    if |t.pending| >= batchSize then Flush(t, sends) else t
  }

  /** `sendToClient` of a larger message; if a send throws, the message is dropped. */
  function SendLarge(o: Outbox, m: Message, flushes: bool, sends: bool): Outbox {
    var t := Flush(o, flushes);
    if (o.pending != [] && !flushes) || !sends then t
    else t.(wire := t.wire + [One(m)], accepted := t.accepted + [m])
  }

  lemma FlushKeepsOrder(o: Outbox, sends: bool)
    requires o.InOrder()
    ensures Flush(o, sends).InOrder()
  {
    if o.pending != [] && sends {
      var frame := if |o.pending| > 1 then Batch(o.pending) else One(o.pending[0]);
      UnbatchSnoc(o.wire, frame);
      assert Unbatch(o.wire + [frame]) + [] == Unbatch(o.wire) + o.pending;
    }
  }

  /**
   Batching loses, repeats and reorders nothing, even when sends throw: the messages in the frames
   sent, followed by the pending ones, are the accepted messages.
   */
  lemma SendKeepsOrder(o: Outbox, m: Message, small: bool, batchSize: int, flushes: bool, sends: bool)
    requires o.InOrder()
    ensures (if small then SendSmall(o, m, batchSize, flushes) else SendLarge(o, m, flushes, sends)).InOrder()
  {
    if small {
      var t := o.(pending := o.pending + [m], timer := true, accepted := o.accepted + [m]);
      assert Unbatch(o.wire) + (o.pending + [m]) == (Unbatch(o.wire) + o.pending) + [m];
      FlushKeepsOrder(t, flushes);
    } else {
      FlushKeepsOrder(o, flushes);
      var t := Flush(o, flushes);
      UnbatchSnoc(t.wire, One(m));
      if t.pending == [] {
        assert Unbatch(t.wire + [One(m)]) + [] == (Unbatch(t.wire) + []) + [m];
      }
    }
  }

  /**
   The timer is set exactly when something is pending, and less than a batch is, until a flush
   throws: that one leaves messages behind which nothing will send before the next message.
   */
  lemma SendKeepsSchedule(o: Outbox, m: Message, small: bool, batchSize: int, flushes: bool, sends: bool)
    requires o.Scheduled() && batchSize >= 1 && |o.pending| < batchSize
    ensures
      var t := if small then SendSmall(o, m, batchSize, flushes) else SendLarge(o, m, flushes, sends);
      var flushNeeded := if small then |o.pending| + 1 >= batchSize else o.pending != [];
      t.Scheduled() && |t.pending| < batchSize <==> !flushNeeded || flushes
  {
  }

  lemma TimerKeepsSchedule(o: Outbox, sends: bool)
    requires o.Scheduled()
    ensures Flush(o, sends).Scheduled() <==> o.pending == [] || sends
    ensures sends ==> Flush(o, sends).pending == []
  {
  }

  // ------------------------------------------------------------------ all runs of one socket

  /** `flushes` and `sends` say whether `ws.send` returns when a flush or the message itself needs it. */
  datatype OutboxEvent =
    | SendMessage(m: Message, small: bool, flushes: bool, sends: bool)
    | TimerFires(flushes: bool)

  const NEW_OUTBOX := Outbox([], false, [], [])

  function OutboxStep(o: Outbox, ev: OutboxEvent, batchSize: int): Outbox {
    match ev
    case SendMessage(m, small, flushes, sends) =>
      if small then SendSmall(o, m, batchSize, flushes) else SendLarge(o, m, flushes, sends)
    case TimerFires(flushes) => if o.timer then Flush(o, flushes) else o
  }

  function OutboxRun(o: Outbox, events: seq<OutboxEvent>, batchSize: int): Outbox
    decreases |events|
  {
    if events == [] then o else OutboxRun(OutboxStep(o, events[0], batchSize), events[1..], batchSize)
  }

  function Messages(events: seq<OutboxEvent>): seq<Message> {
    if events == [] then []
    else (if events[0].SendMessage? then [events[0].m] else []) + Messages(events[1..])
  }

  predicate NothingThrows(events: seq<OutboxEvent>) {
    forall ev :: ev in events ==> ev.flushes && (ev.SendMessage? ==> ev.sends)
  }

  predicate FlushNeeded(o: Outbox, ev: OutboxEvent, batchSize: int) {
    match ev
    case SendMessage(_, small, _, _) => if small then |o.pending| + 1 >= batchSize else o.pending != []
    case TimerFires(_) => o.pending != []
  }

  predicate NeededFlushesSucceed(o: Outbox, events: seq<OutboxEvent>, batchSize: int)
    decreases |events|
  {
    events != [] ==>
      && (FlushNeeded(o, events[0], batchSize) ==> events[0].flushes)
      && NeededFlushesSucceed(OutboxStep(o, events[0], batchSize), events[1..], batchSize)
  }

  lemma {:induction false} RunKeepsOrder(o: Outbox, events: seq<OutboxEvent>, batchSize: int)
    requires o.InOrder()
    ensures OutboxRun(o, events, batchSize).InOrder()
    decreases |events|
  {
    if events != [] {
      match events[0] {
        case SendMessage(m, small, flushes, sends) => SendKeepsOrder(o, m, small, batchSize, flushes, sends);
        case TimerFires(flushes) => FlushKeepsOrder(o, flushes);
      }
      RunKeepsOrder(OutboxStep(o, events[0], batchSize), events[1..], batchSize);
    }
  }

  /** One message goes alone; a batch holds at least two. */
  predicate RealBatches(frames: seq<Frame>) {
    forall f :: f in frames ==> f.Batch? ==> |f.ms| >= 2
  }

  lemma {:induction false} RunKeepsBatches(o: Outbox, events: seq<OutboxEvent>, batchSize: int)
    requires RealBatches(o.wire)
    ensures RealBatches(OutboxRun(o, events, batchSize).wire)
    decreases |events|
  {
    if events != [] {
      assert RealBatches(OutboxStep(o, events[0], batchSize).wire);
      hide OutboxStep, RealBatches;
      RunKeepsBatches(OutboxStep(o, events[0], batchSize), events[1..], batchSize);
    }
  }

  lemma {:induction false} RunKeepsSchedule(o: Outbox, events: seq<OutboxEvent>, batchSize: int)
    requires o.Scheduled() && batchSize >= 1 && |o.pending| < batchSize
    requires NeededFlushesSucceed(o, events, batchSize)
    ensures OutboxRun(o, events, batchSize).Scheduled() && |OutboxRun(o, events, batchSize).pending| < batchSize
    decreases |events|
  {
    if events != [] {
      match events[0] {
        case SendMessage(m, small, flushes, sends) => SendKeepsSchedule(o, m, small, batchSize, flushes, sends);
        case TimerFires(flushes) => TimerKeepsSchedule(o, flushes);
      }
      RunKeepsSchedule(OutboxStep(o, events[0], batchSize), events[1..], batchSize);
    }
  }

  lemma StepAccepts(o: Outbox, ev: OutboxEvent, batchSize: int)
    requires ev.flushes && (ev.SendMessage? ==> ev.sends)
    ensures OutboxStep(o, ev, batchSize).accepted == o.accepted + if ev.SendMessage? then [ev.m] else []
  {
    hide Unbatch;
  }

  lemma {:induction false} RunAcceptsAll(o: Outbox, events: seq<OutboxEvent>, batchSize: int)
    requires NothingThrows(events)
    ensures OutboxRun(o, events, batchSize).accepted == o.accepted + Messages(events)
    decreases |events|
  {
    if events != [] {
      var first, rest := events[0], events[1..];
      assert first in events && forall ev :: ev in rest ==> ev in events;
      var message := if first.SendMessage? then [first.m] else [];
      StepAccepts(o, first, batchSize);
      hide OutboxStep;
      RunAcceptsAll(OutboxStep(o, first, batchSize), rest, batchSize);
      assert (o.accepted + message) + Messages(rest) == o.accepted + (message + Messages(rest));
    }
  }

  /**
   In every run of messages and timers the frames sent, batches only of two or more messages,
   followed by what is pending, are the accepted messages in order, and one flush that succeeds
   delivers exactly them. These are all messages if no send throws. As long as no flush that is
   needed throws, the timer is set exactly when something is pending, and less than a batch is.
   */
  lemma EveryRunDelivers(events: seq<OutboxEvent>, batchSize: int)
    requires batchSize >= 1
    ensures
      var o := OutboxRun(NEW_OUTBOX, events, batchSize);
      && Unbatch(o.wire) + o.pending == o.accepted
      && Unbatch(Flush(o, true).wire) == o.accepted
      && RealBatches(o.wire)
      && (NothingThrows(events) ==> o.accepted == Messages(events))
      && (NeededFlushesSucceed(NEW_OUTBOX, events, batchSize) ==> o.Scheduled() && |o.pending| < batchSize)
  {
    var o := OutboxRun(NEW_OUTBOX, events, batchSize);
    RunKeepsOrder(NEW_OUTBOX, events, batchSize);
    RunKeepsBatches(NEW_OUTBOX, events, batchSize);
    FlushKeepsOrder(o, true);
    assert Flush(o, true).pending == [];
    if NothingThrows(events) {
      RunAcceptsAll(NEW_OUTBOX, events, batchSize);
    }
    if NeededFlushesSucceed(NEW_OUTBOX, events, batchSize) {
      RunKeepsSchedule(NEW_OUTBOX, events, batchSize);
    }
  }

  // ------------------------------------------------------------------ the client

  class ClientConnection {
    var messageCount: int
    var messageCountResetAt: int
    var pendingMessages: seq<Message>
    var flushTimer: bool
    ghost var wire: seq<Frame>
    ghost var accepted: seq<Message>

    function RateLimiter(): Limiter
      reads this
    {
      Limiter(messageCount, messageCountResetAt)
    }

    ghost function Contents(): Outbox
      reads this
    {
      Outbox(pendingMessages, flushTimer, wire, accepted)
    }

    constructor (now: int)
      ensures RateLimiter() == Limiter(0, now) && Contents() == Outbox([], false, [], [])
    {
      messageCount, messageCountResetAt := 0, now;
      pendingMessages, flushTimer, wire, accepted := [], false, [], [];
    }

    method CheckRateLimit(rateLimitPerSecond: int, now: int) returns (ok: bool)
      modifies this`messageCount, this`messageCountResetAt
      ensures RateLimiter() == Tick(old(RateLimiter()), now)
      ensures ok <==> Accepts(rateLimitPerSecond, old(RateLimiter()), now)
    {
      if now - messageCountResetAt > WINDOW_MS {
        messageCount, messageCountResetAt := 0, now;
      }
      messageCount := messageCount + 1;
      ok := messageCount <= rateLimitPerSecond;
    }

    /** `threw` tells the caller about an exception of `ws.send`. */
    method FlushMessages(sends: bool) returns (threw: bool)
      modifies this`pendingMessages, this`flushTimer, this`wire
      ensures Contents() == Flush(old(Contents()), sends)
      ensures threw <==> old(pendingMessages) != [] && !sends
    {
      if |pendingMessages| == 0 {
        return false;
      }
      flushTimer := false;
      if !sends {
        return true;
      }
      if |pendingMessages| > 1 {
        wire := wire + [Batch(pendingMessages)];
      } else {
        wire := wire + [One(pendingMessages[0])];
      }
      pendingMessages := [];
      return false;
    }

    /** `sendToClient` on an open socket. */
    method Send(data: Message, small: bool, batchSize: int, flushes: bool, sends: bool)
      modifies this`pendingMessages, this`flushTimer, this`wire, this`accepted
      ensures Contents() == if small then SendSmall(old(Contents()), data, batchSize, flushes)
                            else SendLarge(old(Contents()), data, flushes, sends)
    {
      if small {
        pendingMessages, accepted := pendingMessages + [data], accepted + [data];
        if !flushTimer {
          flushTimer := true;
        }
        if |pendingMessages| >= batchSize {
          var threw := FlushMessages(flushes);
        }
      } else {
        var threw := FlushMessages(flushes);
        if !threw && sends {
          wire, accepted := wire + [One(data)], accepted + [data];
        }
      }
    }
  }
}
