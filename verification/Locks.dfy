/**
 Expiring locks. A lock is granted on the fast path or, after waiting, on the retry path; it ends
 by release, by clean-up or by being overwritten once it has expired.
 */
module Locking {
  import opened Options
  import opened Sequences

  type Id = string
  type Agent = string

  datatype Config = Config(defaultTimeout: int, maxTimeout: int, maxRetries: int, maxLocksPerAgent: int)

  datatype Request = Request(id: Id, agent: Agent, timeout: Option<int>)

  datatype Lock = Lock(agent: Agent, acquiredAt: int, expiresAt: int)

  /** `agent` held `id` from `start` until just before `end`. */
  datatype Span = Span(id: Id, agent: Agent, start: int, end: int)
  {
    ghost predicate Contains(t: int) {
      start <= t < end
    }

    ghost predicate Overlaps(other: Span) {
      exists t :: Contains(t) && other.Contains(t)
    }
  }

  /**
   `locks` and `releasedCount` are fields of the program. `clock` is the time of the last event,
   `past` the spans that have ended, in the order of their ends, `granted` the number of grants
   and `overwritten` the number of expired locks that a grant has replaced.
   */
  datatype State = State(
    locks: map<Id, Lock>,
    releasedCount: int,
    clock: int,
    past: seq<Span>,
    granted: int,
    overwritten: int)

  const INITIAL := State(map[], 0, 0, [], 0, 0)

  function Min(a: int, b: int): int {
    if a < b then a else b
  }

  /** `createLock`: a timeout of zero counts as missing. */
  function CreateLock(c: Config, r: Request, now: int): Lock {
    var wanted := if r.timeout.Some? && r.timeout.value != 0 then r.timeout.value else c.defaultTimeout;
    Lock(r.agent, now, now + Min(wanted, c.maxTimeout))
  }

  /** The locks of `agent` that have not expired. */
  function ActiveIds(s: State, agent: Agent, now: int): set<Id> {
    set id | id in s.locks && s.locks[id].agent == agent && s.locks[id].expiresAt > now
  }

  datatype Event =
    | Acquire(request: Request, now: int)
    | Retry(request: Request, now: int)
    | Release(id: Id, agent: Agent, now: int)
    | Expire(id: Id, now: int)

  function SpanOf(s: State, id: Id, now: int): Span
    requires id in s.locks
  {
    Span(id, s.locks[id].agent, s.locks[id].acquiredAt, Min(s.locks[id].expiresAt, now))
  }

  /** `locks.set` of a new lock, over an expired one if there is one. */
  function Grant(c: Config, s: State, r: Request, now: int): State {
    var t := if r.id in s.locks then s.(past := s.past + [SpanOf(s, r.id, now)], overwritten := s.overwritten + 1)
             else s;
    t.(locks := s.locks[r.id := CreateLock(c, r, now)], granted := s.granted + 1, clock := now)
  }

  /** Deleting a lock and counting it as released. */
  function End(s: State, id: Id, now: int): State
    requires id in s.locks
  {
    s.(locks := s.locks - {id}, releasedCount := s.releasedCount + 1,
       past := s.past + [SpanOf(s, id, now)], clock := now)
  }

  /** The fast path grants what is free or expired, up to the limit per agent. */
  predicate FastGrants(c: Config, s: State, r: Request, now: int) {
    && !(r.id in s.locks && s.locks[r.id].expiresAt > now)
    && |ActiveIds(s, r.agent, now)| < c.maxLocksPerAgent
  }

  /** The retry path looks only at the lock itself. */
  predicate RetryGrants(s: State, r: Request, now: int) {
    r.id !in s.locks || s.locks[r.id].expiresAt < now
  }

  function Step(c: Config, s: State, ev: Event): State {
    match ev
    case Acquire(r, now) => if FastGrants(c, s, r, now) then Grant(c, s, r, now) else s.(clock := now)
    case Retry(r, now) => if RetryGrants(s, r, now) then Grant(c, s, r, now) else s.(clock := now)
    case Release(id, agent, now) =>
      if id in s.locks && s.locks[id].agent == agent then End(s, id, now) else s.(clock := now)
    case Expire(id, now) =>
      if id in s.locks && s.locks[id].expiresAt < now then End(s, id, now) else s.(clock := now)
  }

  // ------------------------------------------------------------------ the invariant

  /** For one id, spans follow each other; the lock that is held follows them all. */
  ghost predicate SpansFollow(s: State) {
    && (forall i :: 0 <= i < |s.past| ==> s.past[i].end <= s.clock)
    && (forall i, j :: 0 <= i < j < |s.past| && s.past[i].id == s.past[j].id ==> s.past[i].end <= s.past[j].start)
    && (forall id :: id in s.locks ==> s.locks[id].acquiredAt <= s.clock)
    && (forall i :: 0 <= i < |s.past| && s.past[i].id in s.locks
          ==> s.past[i].end <= s.locks[s.past[i].id].acquiredAt)
  }

  /** Every grant is still held, has been released, or has been overwritten. */
  ghost predicate GrantsAddUp(s: State) {
    s.granted == |s.locks| + s.releasedCount + s.overwritten
  }

  ghost predicate Inv(s: State) {
    SpansFollow(s) && GrantsAddUp(s)
  }

  lemma GrantKeepsInv(c: Config, s: State, r: Request, now: int)
    requires Inv(s) && s.clock <= now
    requires r.id in s.locks ==> s.locks[r.id].expiresAt <= now
    ensures Inv(Grant(c, s, r, now))
  {
  }

  lemma EndKeepsInv(s: State, id: Id, now: int)
    requires Inv(s) && s.clock <= now && id in s.locks
    ensures Inv(End(s, id, now))
  {
    assert |s.locks - {id}| == |s.locks| - 1 by {
      assert (s.locks - {id}).Keys == s.locks.Keys - {id};
    }
  }

  lemma StepKeepsInv(c: Config, s: State, ev: Event)
    requires Inv(s) && s.clock <= ev.now
    ensures Inv(Step(c, s, ev)) && Step(c, s, ev).clock == ev.now
  {
    match ev
    case Acquire(r, now) => if FastGrants(c, s, r, now) { GrantKeepsInv(c, s, r, now); }
    case Retry(r, now) => if RetryGrants(s, r, now) { GrantKeepsInv(c, s, r, now); }
    case Release(id, agent, now) =>
      if id in s.locks && s.locks[id].agent == agent { EndKeepsInv(s, id, now); }
    case Expire(id, now) =>
      if id in s.locks && s.locks[id].expiresAt < now { EndKeepsInv(s, id, now); }
  }

  // ------------------------------------------------------------------ all runs

  ghost predicate RunOf(c: Config, s: State, events: seq<Event>, t: State)
    decreases |events|
  {
    if events == [] then s == t
    else s.clock <= events[0].now && RunOf(c, Step(c, s, events[0]), events[1..], t)
  }

  lemma {:induction false} RunKeepsInv(c: Config, s: State, events: seq<Event>, t: State)
    requires Inv(s) && RunOf(c, s, events, t)
    ensures Inv(t)
    decreases |events|
  {
    if events != [] {
      StepKeepsInv(c, s, events[0]);
      RunKeepsInv(c, Step(c, s, events[0]), events[1..], t);
    }
  }

  /** All spans of a state, those that have ended and those of the locks that are held. */
  ghost predicate IsHeld(s: State, x: Span) {
    x.id in s.locks && x == Span(x.id, s.locks[x.id].agent, s.locks[x.id].acquiredAt, s.locks[x.id].expiresAt)
  }

  /**
   Mutual exclusion over every run, through both paths: the intervals in which one lock was or is
   held never overlap. And no grant is lost: it is held, released or overwritten.
   */
  lemma MutualExclusion(c: Config, events: seq<Event>, s: State)
    requires RunOf(c, INITIAL, events, s)
    ensures forall i, j :: 0 <= i < j < |s.past| && s.past[i].id == s.past[j].id ==> !s.past[i].Overlaps(s.past[j])
    ensures forall i, x :: 0 <= i < |s.past| && IsHeld(s, x) && s.past[i].id == x.id ==> !s.past[i].Overlaps(x)
    ensures s.granted == |s.locks| + s.releasedCount + s.overwritten
  {
    RunKeepsInv(c, INITIAL, events, s);
  }

  /** A lock that has not expired can only be ended by its owner. */
  lemma OnlyOwnerEndsEarly(c: Config, s: State, ev: Event, id: Id)
    requires id in s.locks && s.locks[id].expiresAt > ev.now
    ensures
      if ev.Release? && ev.id == id && ev.agent == s.locks[id].agent then id !in Step(c, s, ev).locks
      else id in Step(c, s, ev).locks && Step(c, s, ev).locks[id] == s.locks[id]
  {
  }

  /** The event `ev` ends the span `x`: before its lock expires only as a release by its agent. */
  ghost predicate EndedBy(s: State, ev: Event, x: Span) {
    && x.id in s.locks && x.agent == s.locks[x.id].agent && x.start == s.locks[x.id].acquiredAt
    && x.end == (if s.locks[x.id].expiresAt < ev.now then s.locks[x.id].expiresAt else ev.now)
    && (x.end < s.locks[x.id].expiresAt ==> ev == Release(x.id, x.agent, ev.now))
  }

  lemma StepEnds(c: Config, s: State, ev: Event)
    ensures
      var t := Step(c, s, ev);
      t.past == s.past || (|t.past| == |s.past| + 1 && t.past[..|s.past|] == s.past && EndedBy(s, ev, t.past[|s.past|]))
  {
  }

  lemma {:induction false} PastOnlyGrows(c: Config, s: State, events: seq<Event>, t: State)
    requires RunOf(c, s, events, t)
    ensures s.past <= t.past
    decreases |events|
  {
    if events != [] {
      StepEnds(c, s, events[0]);
      PastOnlyGrows(c, Step(c, s, events[0]), events[1..], t);
    }
  }

  /**
   In every run, whatever span has ended was ended by one event of the run; if it ended before its
   lock expired, that event was a release by the agent that held the lock.
   */
  lemma {:induction false} EarlyEndIsRelease(c: Config, s: State, events: seq<Event>, t: State, i: nat)
    returns (k: nat, u: State)
    requires RunOf(c, s, events, t) && |s.past| <= i < |t.past|
    ensures k < |events| && RunOf(c, s, events[..k], u) && EndedBy(u, events[k], t.past[i])
    decreases |events|
  {
    hide Step, EndedBy;
    var next := Step(c, s, events[0]);
    StepEnds(c, s, events[0]);
    PastOnlyGrows(c, next, events[1..], t);
    if i < |next.past| {
      k, u := 0, s;
    } else {
      k, u := EarlyEndIsRelease(c, next, events[1..], t, i);
      assert events[..k + 1][1..] == events[1..][..k];
      k := k + 1;
    }
  }

  // ------------------------------------------------------------------ what a grant gives

  /**
   A granted lock belongs to the agent that asked. Its timeout is the one asked for, or the
   default when none or zero was asked for, but never more than the maximum.
   */
  ghost predicate IsLease(c: Config, r: Request, now: int, lock: Lock) {
    && lock.agent == r.agent && lock.acquiredAt == now
    && (r.timeout.Some? && r.timeout.value != 0 && r.timeout.value <= c.maxTimeout ==>
          lock.expiresAt == now + r.timeout.value)
    && (r.timeout.None? || r.timeout.value == 0 ==>
          lock.expiresAt == now + if c.defaultTimeout <= c.maxTimeout then c.defaultTimeout else c.maxTimeout)
    && (r.timeout.Some? && r.timeout.value > c.maxTimeout && r.timeout.value != 0 ==>
          lock.expiresAt == now + c.maxTimeout)
  }

  lemma CreatedLockIsLease(c: Config, r: Request, now: int)
    ensures IsLease(c, r, now, CreateLock(c, r, now))
  {
  }

  /** No lock is or was held longer than the maximal timeout. */
  ghost predicate WithinTimeout(c: Config, s: State) {
    && (forall id :: id in s.locks ==> s.locks[id].expiresAt <= s.locks[id].acquiredAt + c.maxTimeout)
    && (forall i :: 0 <= i < |s.past| ==> s.past[i].end - s.past[i].start <= c.maxTimeout)
  }

  lemma StepKeepsTimeout(c: Config, s: State, ev: Event)
    requires WithinTimeout(c, s)
    ensures WithinTimeout(c, Step(c, s, ev))
  {
    StepEnds(c, s, ev);
  }

  lemma {:induction false} RunKeepsTimeout(c: Config, s: State, events: seq<Event>, t: State)
    requires WithinTimeout(c, s) && RunOf(c, s, events, t)
    ensures WithinTimeout(c, t)
    decreases |events|
  {
    if events != [] {
      StepKeepsTimeout(c, s, events[0]);
      hide WithinTimeout, Step;
      RunKeepsTimeout(c, Step(c, s, events[0]), events[1..], t);
    }
  }

  /** In every run. */
  lemma NoLockOutlastsMaximum(c: Config, events: seq<Event>, s: State)
    requires RunOf(c, INITIAL, events, s)
    ensures WithinTimeout(c, s)
  {
    RunKeepsTimeout(c, INITIAL, events, s);
  }

  /** The event asks for `id`, on the fast path or on the retry path. */
  predicate AsksFor(ev: Event, id: Id) {
    (ev.Acquire? || ev.Retry?) && ev.request.id == id
  }

  /** The lock that the agent of `ev` has got, if it has got one: a new one that starts now. */
  ghost predicate Grants(c: Config, s: State, ev: Event) {
    (ev.Acquire? || ev.Retry?) && Step(c, s, ev).granted == s.granted + 1
  }

  /**
   When a request is granted, in terms of the map: on the fast path when nobody holds the lock
   and the agent holds fewer live locks than the limit, on the retry path when the lock is free
   or has expired before. Then the lock is a new one for the agent, and other locks are untouched.
   */
  lemma GrantedWhen(c: Config, s: State, ev: Event)
    requires ev.Acquire? || ev.Retry?
    ensures
      var r, t := ev.request, Step(c, s, ev);
      var active := set id | id in s.locks && s.locks[id].agent == r.agent && s.locks[id].expiresAt > ev.now;
      && (Grants(c, s, ev) <==>
            if ev.Acquire? then (r.id in s.locks ==> s.locks[r.id].expiresAt <= ev.now) && |active| < c.maxLocksPerAgent
            else r.id in s.locks ==> s.locks[r.id].expiresAt < ev.now)
      && (if Grants(c, s, ev) then
            r.id in t.locks && t.locks == s.locks[r.id := t.locks[r.id]] && IsLease(c, r, ev.now, t.locks[r.id])
          else t.locks == s.locks && t.granted == s.granted)
  {
    CreatedLockIsLease(c, ev.request, ev.now);
    hide CreateLock, IsLease;
    assert ActiveIds(s, ev.request.agent, ev.now)
        == set id | id in s.locks && s.locks[id].agent == ev.request.agent && s.locks[id].expiresAt > ev.now;
  }

  /** A lock stays until it expires, as long as its holder does not release it. */
  lemma {:induction false} HeldUntilExpiry(c: Config, s: State, events: seq<Event>, t: State, id: Id)
    requires id in s.locks && RunOf(c, s, events, t)
    requires forall ev :: ev in events ==> ev.now < s.locks[id].expiresAt
    requires forall now :: Release(id, s.locks[id].agent, now) !in events
    ensures id in t.locks && t.locks[id] == s.locks[id]
    decreases |events|
  {
    if events != [] {
      var ev, rest := events[0], events[1..];
      assert events == [ev] + rest;
      OnlyOwnerEndsEarly(c, s, ev, id);
      hide Step;
      HeldUntilExpiry(c, Step(c, s, ev), rest, t, id);
    }
  }

  /**
   Mutual exclusion in terms of events: once a lock has been granted, nobody gets it, on either
   path, before it expires or the agent that got it releases it.
   */
  lemma NoGrantWhileHeld(c: Config, s: State, first: Event, events: seq<Event>, t: State, second: Event, lease: Lock)
    requires Grants(c, s, first) && IsLease(c, first.request, first.now, lease)
    requires RunOf(c, Step(c, s, first), events, t) && t.clock <= second.now < lease.expiresAt
    requires AsksFor(second, first.request.id)
    requires forall now :: Release(first.request.id, first.request.agent, now) !in events
    ensures !Grants(c, t, second)
  {
    var id := first.request.id;
    GrantedWhen(c, s, first);
    GrantedWhen(c, t, second);
    hide Step, Grants;
    var next := Step(c, s, first);
    EventsBefore(c, next, events, t);
    HeldUntilExpiry(c, next, events, t, id);
  }

  lemma {:induction false} EventsBefore(c: Config, s: State, events: seq<Event>, t: State)
    requires RunOf(c, s, events, t)
    ensures s.clock <= t.clock && forall ev :: ev in events ==> ev.now <= t.clock
    decreases |events|
  {
    if events != [] {
      EventsBefore(c, Step(c, s, events[0]), events[1..], t);
      assert events == [events[0]] + events[1..];
    }
  }

  /** How many events of the run delete a lock, and how many grants replace one, read off the map alone. */
  ghost function Deletions(c: Config, s: State, events: seq<Event>): int
    decreases |events|
  {
    if events == [] then 0
    else
      var next := Step(c, s, events[0]);
      Deletions(c, next, events[1..]) + if next.locks.Keys < s.locks.Keys then 1 else 0
  }

  ghost function Replacements(c: Config, s: State, events: seq<Event>): int
    decreases |events|
  {
    if events == [] then 0
    else
      var next := Step(c, s, events[0]);
      Replacements(c, next, events[1..])
      + if Grants(c, s, events[0]) && events[0].request.id in s.locks then 1 else 0
  }

  /** The counters count what their names say. */
  lemma {:induction false} CountersCount(c: Config, s: State, events: seq<Event>, t: State)
    requires RunOf(c, s, events, t)
    ensures t.releasedCount == s.releasedCount + Deletions(c, s, events)
    ensures t.overwritten == s.overwritten + Replacements(c, s, events)
    decreases |events|
  {
    if events != [] {
      CountersStep(c, s, events[0]);
      hide Step, Grants;
      CountersCount(c, Step(c, s, events[0]), events[1..], t);
    }
  }

  lemma CountersStep(c: Config, s: State, ev: Event)
    ensures
      var t := Step(c, s, ev);
      && t.releasedCount == s.releasedCount + (if t.locks.Keys < s.locks.Keys then 1 else 0)
      && t.overwritten == s.overwritten + if Grants(c, s, ev) && ev.request.id in s.locks then 1 else 0
  {
    hide CreateLock, FastGrants, RetryGrants, SpanOf;
  }

  // ------------------------------------------------------------------ the limit per agent

  ghost predicate WithinLimit(c: Config, s: State) {
    forall agent :: |ActiveIds(s, agent, s.clock)| <= c.maxLocksPerAgent
  }

  lemma FewerActive(s: State, t: State, agent: Agent)
    requires s.clock <= t.clock
    requires forall id :: id in t.locks && t.locks[id].agent == agent && t.locks[id].expiresAt > t.clock
                          ==> id in s.locks && s.locks[id] == t.locks[id]
    ensures |ActiveIds(t, agent, t.clock)| <= |ActiveIds(s, agent, s.clock)|
  {
    SubsetSize(ActiveIds(t, agent, t.clock), ActiveIds(s, agent, s.clock));
  }

  /** A grant adds one active lock for the agent, if its timeout is positive, and none for others. */
  lemma GrantCounts(c: Config, s: State, r: Request, now: int, agent: Agent)
    requires r.id in s.locks ==> s.locks[r.id].expiresAt <= now
    ensures
      var lives := agent == r.agent && CreateLock(c, r, now).expiresAt > now;
      |ActiveIds(Grant(c, s, r, now), agent, now)| == |ActiveIds(s, agent, now)| + if lives then 1 else 0
  {
    hide CreateLock, SpanOf;
    var lives := agent == r.agent && CreateLock(c, r, now).expiresAt > now;
    CreatedLockIsLease(c, r, now);
    assert r.id !in ActiveIds(s, agent, now);
    assert ActiveIds(Grant(c, s, r, now), agent, now) == ActiveIds(s, agent, now) + if lives then {r.id} else {};
  }

  /**
   The limit per agent is kept by every event except a retry that grants a live lock to an agent
   that has reached it.
   */
  lemma LimitKept(c: Config, s: State, ev: Event)
    requires WithinLimit(c, s) && s.clock <= ev.now
    ensures WithinLimit(c, Step(c, s, ev)) <==>
      !(ev.Retry? && RetryGrants(s, ev.request, ev.now) && CreateLock(c, ev.request, ev.now).expiresAt > ev.now
        && |ActiveIds(s, ev.request.agent, ev.now)| == c.maxLocksPerAgent)
  {
    var t := Step(c, s, ev);
    var aged := s.(clock := ev.now);
    var grants :=
      || (ev.Acquire? && FastGrants(c, s, ev.request, ev.now))
      || (ev.Retry? && RetryGrants(s, ev.request, ev.now));
    forall agent
      ensures |ActiveIds(s, agent, ev.now)| <= c.maxLocksPerAgent
      ensures !grants ==> |ActiveIds(t, agent, t.clock)| <= c.maxLocksPerAgent
    {
      FewerActive(s, aged, agent);
      assert ActiveIds(aged, agent, ev.now) == ActiveIds(s, agent, ev.now);
      if !grants {
        FewerActive(s, t, agent);
      }
    }
    if grants {
      forall agent
        ensures |ActiveIds(t, agent, ev.now)| == |ActiveIds(s, agent, ev.now)|
          + if agent == ev.request.agent && CreateLock(c, ev.request, ev.now).expiresAt > ev.now then 1 else 0
      {
        GrantCounts(c, s, ev.request, ev.now, agent);
      }
    }
  }

  /** The exception does occur: an agent that waits for a second lock gets it beyond a limit of one. */
  lemma RetryExceedsLimit()
    ensures exists c, events, s :: RunOf(c, INITIAL, events, s) && |ActiveIds(s, "a", s.clock)| > c.maxLocksPerAgent
  {
    var c := Config(10, 100, 5, 1);
    var first := Acquire(Request("x", "a", None), 0);
    var other := Acquire(Request("y", "b", Some(1)), 0);
    var waited := Retry(Request("y", "a", None), 5);
    var s1 := Step(c, INITIAL, first);
    assert ActiveIds(INITIAL, "a", 0) == {};
    var s2 := Step(c, s1, other);
    assert "a" != "b" && "x" != "y";
    assert ActiveIds(s1, "b", 0) == {};
    var s3 := Step(c, s2, waited);
    assert ActiveIds(s3, "a", 5) == {"x", "y"};
    assert RunOf(c, s3, [], s3);
    assert RunOf(c, s2, [waited], s3);
    assert [other, waited][1..] == [waited] && [first, other, waited][1..] == [other, waited];
    assert RunOf(c, s1, [other, waited], s3);
    assert RunOf(c, INITIAL, [first, other, waited], s3);
  }

  lemma {:induction false} RunConcat(c: Config, s: State, events: seq<Event>, t: State, ev: Event)
    requires RunOf(c, s, events, t) && t.clock <= ev.now
    ensures RunOf(c, s, events + [ev], Step(c, t, ev))
    decreases |events|
  {
    if events == [] {
      assert [ev][1..] == [];
      assert events + [ev] == [ev];
    } else {
      assert (events + [ev])[1..] == events[1..] + [ev];
      RunConcat(c, Step(c, s, events[0]), events[1..], t, ev);
    }
  }

  /** After some steps of a loop over `all`, the locks in `rest` are still to be deleted. */
  ghost predicate Deleting(c: Config, start: State, events: seq<Event>, s: State, all: set<Id>, rest: set<Id>) {
    rest <= all && RunOf(c, start, events, s) && s.locks == start.locks - (all - rest)
  }

  lemma DeleteOneMore(c: Config, start: State, events: seq<Event>, s: State, all: set<Id>, rest: set<Id>,
    id: Id, ev: Event)
    requires Deleting(c, start, events, s, all, rest) && all <= start.locks.Keys && id in rest
    requires s.clock <= ev.now && Step(c, s, ev).locks == s.locks - {id}
    ensures Deleting(c, start, events + [ev], Step(c, s, ev), all, rest - {id})
  {
    hide Step, RunOf;
    RunConcat(c, start, events, s, ev);
    assert all - (rest - {id}) == (all - rest) + {id};
  }

  lemma StillHeld(c: Config, start: State, events: seq<Event>, s: State, all: set<Id>, rest: set<Id>, id: Id)
    requires Deleting(c, start, events, s, all, rest) && id in rest && id in start.locks
    ensures id in s.locks && s.locks[id] == start.locks[id]
  {
  }

  // ------------------------------------------------------------------ the class

  datatype Outcome =
    | Granted(lock: Lock)
    | MustWait(attempts: nat)
    | Refused

  /** Each method is code that runs without interruption; the clock is a parameter. */
  class ConcurrencyManager {
    const config: Config
    var locks: map<Id, Lock>
    var releasedCount: int
    ghost var clock: int
    ghost var past: seq<Span>
    ghost var granted: int
    ghost var overwritten: int

    ghost function Snapshot(): State
      reads this
    {
      State(locks, releasedCount, clock, past, granted, overwritten)
    }

    constructor (config: Config)
      ensures this.config == config && Snapshot() == INITIAL
    {
      this.config := config;
      locks, releasedCount, clock, past, granted, overwritten := map[], 0, 0, [], 0, 0;
    }

    /** `acquireLock` up to its first `await`; a lock that is held sends the caller to the retry loop. */
    method AcquireLock(request: Request, now: int) returns (r: Outcome)
      modifies this
      ensures Snapshot() == Step(config, old(Snapshot()), Acquire(request, now))
      ensures r.Granted? <==> FastGrants(config, old(Snapshot()), request, now)
      ensures r.Granted? ==> IsLease(config, request, now, r.lock) && locks == old(locks)[request.id := r.lock]
      ensures !r.Granted? ==> locks == old(locks)
      ensures r.MustWait? <==> request.id in old(locks) && old(locks)[request.id].expiresAt > now
    {
      clock := now;
      if request.id in locks && locks[request.id].expiresAt > now {
        return MustWait(0);
      }
      var agentLocks := GetLocksByAgent(request.agent, now);
      if |agentLocks| >= config.maxLocksPerAgent {
        return Refused;
      }
      var lock := StoreLock(request, now);
      r := Granted(lock);
    }

    /** One round of `retryAcquire`, after its delay. */
    method RetryAcquire(request: Request, startTime: int, attempts: nat, now: int) returns (r: Outcome)
      modifies this
      ensures Snapshot() == Step(config, old(Snapshot()), Retry(request, now))
      ensures r.Granted? <==> RetryGrants(old(Snapshot()), request, now)
      ensures r.Granted? ==> IsLease(config, request, now, r.lock) && locks == old(locks)[request.id := r.lock]
      ensures !r.Granted? ==> locks == old(locks)
      ensures r.MustWait? <==>
        !RetryGrants(old(Snapshot()), request, now)
        && attempts + 1 < config.maxRetries && now - startTime <= config.maxTimeout
      ensures r.MustWait? ==> r.attempts == attempts + 1
    {
      clock := now;
      if request.id !in locks || locks[request.id].expiresAt < now {
        var lock := StoreLock(request, now);
        return Granted(lock);
      }
      if now - startTime > config.maxTimeout || attempts + 1 >= config.maxRetries {
        return Refused;
      }
      r := MustWait(attempts + 1);
    }

    method StoreLock(request: Request, now: int) returns (lock: Lock)
      modifies this
      ensures Snapshot() == Grant(config, old(Snapshot()), request, now)
      ensures lock == CreateLock(config, request, now)
    {
      if request.id in locks {
        past := past + [SpanOf(Snapshot(), request.id, now)];
        overwritten := overwritten + 1;
      }
      lock := CreateLock(config, request, now);
      locks, granted, clock := locks[request.id := lock], granted + 1, now;
    }

    method GetLocksByAgent(agent: Agent, now: int) returns (ids: set<Id>)
      ensures ids == ActiveIds(Snapshot(), agent, now)
    {
      ids := set id | id in locks && locks[id].agent == agent && locks[id].expiresAt > now;
    }

    method ReleaseLock(lockId: Id, agent: Agent, now: int) returns (released: bool)
      modifies this
      ensures Snapshot() == Step(config, old(Snapshot()), Release(lockId, agent, now))
      ensures released <==> lockId in old(locks) && old(locks)[lockId].agent == agent
      ensures locks == if released then old(locks) - {lockId} else old(locks)
    {
      ghost var before := Snapshot();
      clock := now;
      if lockId !in locks {
        return false;
      }
      if locks[lockId].agent != agent {
        return false;
      }
      past := past + [SpanOf(before, lockId, now)];
      locks, releasedCount := locks - {lockId}, releasedCount + 1;
      return true;
    }

    /** `releaseAgentLocks`: every active lock of the agent is released, and no other. */
    method ReleaseAgentLocks(agent: Agent, now: int) returns (released: nat, ghost events: seq<Event>)
      requires clock <= now
      modifies this
      ensures RunOf(config, old(Snapshot()), events, Snapshot())
      ensures locks == old(locks) - old(ActiveIds(Snapshot(), agent, now))
      ensures released == |old(ActiveIds(Snapshot(), agent, now))|
    {
      var agentLocks := GetLocksByAgent(agent, now);
      ghost var all, start := agentLocks, Snapshot();
      released, events := 0, [];
      while agentLocks != {}
        invariant released == |all| - |agentLocks| && clock <= now
        invariant Deleting(config, start, events, Snapshot(), all, agentLocks)
        decreases agentLocks
      {
        var id :| id in agentLocks;
        StillHeld(config, start, events, Snapshot(), all, agentLocks, id);
        DeleteOneMore(config, start, events, Snapshot(), all, agentLocks, id, Release(id, agent, now));
        var ok := ReleaseLock(id, agent, now);
        if ok {
          released := released + 1;
        }
        events := events + [Release(id, agent, now)];
        agentLocks := agentLocks - {id};
      }
    }

    /** `cleanupExpiredLocks`: the locks that expired before `now` are deleted, and no other. */
    method CleanupExpiredLocks(now: int) returns (ghost events: seq<Event>)
      requires clock <= now
      modifies this
      ensures RunOf(config, old(Snapshot()), events, Snapshot())
      ensures locks == map id | id in old(locks) && old(locks)[id].expiresAt >= now :: old(locks)[id]
    {
      var expiredIds := set id | id in locks && locks[id].expiresAt < now;
      ghost var all, start := expiredIds, Snapshot();
      events := [];
      while expiredIds != {}
        invariant clock <= now && Deleting(config, start, events, Snapshot(), all, expiredIds)
        decreases expiredIds
      {
        var id :| id in expiredIds;
        StillHeld(config, start, events, Snapshot(), all, expiredIds, id);
        DeleteOneMore(config, start, events, Snapshot(), all, expiredIds, id, Expire(id, now));
        DeleteExpired(id, now);
        events := events + [Expire(id, now)];
        expiredIds := expiredIds - {id};
      }
    }

    method DeleteExpired(id: Id, now: int)
      requires id in locks && locks[id].expiresAt < now
      modifies this
      ensures Snapshot() == Step(config, old(Snapshot()), Expire(id, now))
    {
      past := past + [SpanOf(Snapshot(), id, now)];
      locks, releasedCount, clock := locks - {id}, releasedCount + 1, now;
    }
  }
}
