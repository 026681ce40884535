/** Backoff schedules bounded by attempts and by a deadline (server/carbon/rebroadcaster/retry.py). */
module Retry {
  datatype Policy = Policy(initialDelay: real, maximumDelay: real, maximumRetries: int, timeout: real) {
    /** What the constructor of the source insists on. */
    predicate Valid() {
      0.0 < initialDelay <= maximumDelay && 1 <= maximumRetries && 0.0 < timeout
    }

    function Begin(now: real): Schedule {
      Schedule(this, now, now + initialDelay, now + timeout, 0)
    }
  }

  function Min(a: real, b: real): real {
    if a <= b then a else b
  }

  function Power2(n: nat): real {
    if n == 0 then 1.0 else 2.0 * Power2(n - 1)
  }

  datatype Reason = Deadline | AttemptLimit | Live

  /** The value of a retry schedule at one moment. */
  datatype Schedule = Schedule(policy: Policy, openedAt: real, retryNotBefore: real, deadline: real, retriesSent: nat) {
    predicate Exhausted(now: real) {
      retriesSent >= policy.maximumRetries || now >= deadline
    }

    predicate Due(now: real) {
      !Exhausted(now) && now >= retryNotBefore
    }

    function ExhaustionReason(now: real): (r: Reason)
      ensures r.Live? <==> !Exhausted(now)
    {
      if now >= deadline then Deadline
      else if retriesSent >= policy.maximumRetries then AttemptLimit
      else Live
    }

    function Deferred(now: real): Schedule {
      this.(retryNotBefore := Min(deadline, now + policy.initialDelay))
    }

    /** The wait after the retry that makes the count `sent`. */
    function Delay(sent: nat): real {
      Min(policy.maximumDelay, policy.initialDelay * Power2(sent))
    }

    function Retried(now: real): Schedule {
      this.(retriesSent := retriesSent + 1, retryNotBefore := Min(deadline, now + Delay(retriesSent + 1)))
    }
  }

  class RetrySchedule {
    const policy: Policy
    const openedAt: real
    const deadline: real
    var retryNotBefore: real
    var retriesSent: nat

    function View(): Schedule
      reads this
    {
      Schedule(policy, openedAt, retryNotBefore, deadline, retriesSent)
    }

    constructor (policy: Policy, now: real)
      ensures View() == policy.Begin(now)
    {
      this.policy := policy;
      openedAt := now;
      retryNotBefore := now + policy.initialDelay;
      deadline := now + policy.timeout;
      retriesSent := 0;
    }

    method DeferFrom(now: real)
      modifies this
      ensures View() == old(View()).Deferred(now)
    {
      var wait := now + policy.initialDelay;
      retryNotBefore := if deadline <= wait then deadline else wait;
    }

    /** `ok` is false when the source raises RuntimeError; nothing changes then. */
    method RecordRetry(now: real) returns (ok: bool, delay: real)
      modifies this
      ensures ok == !old(View()).Exhausted(now)
      ensures View() == if ok then old(View()).Retried(now) else old(View())
      ensures ok ==> delay == old(View()).Delay(old(retriesSent) + 1)
    {
      ok, delay := !View().Exhausted(now), 0.0;
      if ok {
        retriesSent := retriesSent + 1;
        delay := Min(policy.maximumDelay, policy.initialDelay * Power2(retriesSent));
        retryNotBefore := Min(deadline, now + delay);
      }
    }
  }

  /** The wait starts at the initial delay and doubles with every retry, up to the maximum. */
  lemma DelayDoubles(s: Schedule, sent: nat)
    requires s.policy.Valid()
    ensures s.Delay(0) == s.policy.initialDelay
    ensures s.Delay(sent + 1) == Min(s.policy.maximumDelay, 2.0 * s.Delay(sent))
  {
    var p := s.policy.initialDelay * Power2(sent);
    assert s.policy.initialDelay * Power2(sent + 1) == 2.0 * p;
  }

  /**
   When a schedule is due: a new one after the initial delay; after a retry once the doubled wait is
   over, while attempts are left; always before the deadline, which is the timeout after the opening.
   */
  lemma DueIff(policy: Policy, start: real, s: Schedule, now: real, x: real)
    requires policy.Valid() && s.policy == policy
    ensures policy.Begin(start).Due(x) <==> start + policy.initialDelay <= x < start + policy.timeout
    ensures s.Retried(now).Due(x) <==>
      s.retriesSent + 1 < policy.maximumRetries && now + s.Delay(s.retriesSent + 1) <= x < s.deadline
    ensures s.Deferred(now).Due(x) <==>
      s.retriesSent < policy.maximumRetries && now + policy.initialDelay <= x < s.deadline
  {
  }

  // ----- whole runs of one schedule

  /** A timer visit, which sends when the schedule is due, or a deferral. */
  datatype Event = Visit(now: real) | Defer(now: real)

  function AfterEvent(s: Schedule, e: Event): Schedule {
    match e
    case Visit(now) => if s.Due(now) then s.Retried(now) else s
    case Defer(now) => s.Deferred(now)
  }

  function RunSchedule(s: Schedule, events: seq<Event>): Schedule
    decreases |events|
  {
    if events == [] then s else RunSchedule(AfterEvent(s, events[0]), events[1..])
  }

  /** The times at which a run sends. */
  function SendTimes(s: Schedule, events: seq<Event>): seq<real>
    decreases |events|
  {
    if events == [] then []
    else
      (if events[0].Visit? && s.Due(events[0].now) then [events[0].now] else [])
      + SendTimes(AfterEvent(s, events[0]), events[1..])
  }

  predicate Chronological(events: seq<Event>) {
    forall i, j :: 0 <= i < j < |events| ==> events[i].now <= events[j].now
  }

  /** A run sends no more than the attempts left, only before the deadline, and never moves the deadline. */
  lemma {:induction false} ScheduleBudget(s: Schedule, events: seq<Event>)
    requires s.retriesSent <= s.policy.maximumRetries
    ensures |SendTimes(s, events)| <= s.policy.maximumRetries - s.retriesSent
    ensures forall t :: t in SendTimes(s, events) ==> t < s.deadline
    ensures RunSchedule(s, events).deadline == s.deadline
    ensures RunSchedule(s, events).retriesSent == s.retriesSent + |SendTimes(s, events)|
    decreases |events|
  {
    if events != [] {
      ScheduleBudget(AfterEvent(s, events[0]), events[1..]);
    }
  }

  lemma {:induction false} Power2AtLeastOne(n: nat)
    ensures Power2(n) >= 1.0
  {
    if n > 0 {
      Power2AtLeastOne(n - 1);
    }
  }

  lemma DelayAtLeastInitial(s: Schedule, sent: nat)
    requires s.policy.Valid()
    ensures s.Delay(sent) >= s.policy.initialDelay
  {
    Power2AtLeastOne(sent);
    assert s.policy.initialDelay * Power2(sent) >= s.policy.initialDelay * 1.0;
  }

  /** The first send of a run waits for `retryNotBefore` or for a deferral's shortened wait. */
  lemma {:induction false} NextSendWaits(s: Schedule, events: seq<Event>, since: real)
    requires s.policy.Valid() && Chronological(events)
    requires forall e :: e in events ==> e.now >= since
    requires s.retryNotBefore >= Min(s.deadline, since + s.policy.initialDelay)
    ensures SendTimes(s, events) != [] ==> SendTimes(s, events)[0] >= since + s.policy.initialDelay
    decreases |events|
  {
    if events != [] {
      var e := events[0];
      assert e in events;
      if !(e.Visit? && s.Due(e.now)) {
        NextSendWaits(AfterEvent(s, e), events[1..], since);
      }
    }
  }

  /** However visits and deferrals fall, two sends of one schedule are at least the initial delay apart. */
  lemma {:induction false} SendsAreSpaced(s: Schedule, events: seq<Event>, i: nat)
    requires s.policy.Valid() && Chronological(events)
    requires i + 1 < |SendTimes(s, events)|
    ensures SendTimes(s, events)[i + 1] >= SendTimes(s, events)[i] + s.policy.initialDelay
    decreases |events|
  {
    var e := events[0];
    var later := AfterEvent(s, e);
    if e.Visit? && s.Due(e.now) {
      if i == 0 {
        DelayAtLeastInitial(s, s.retriesSent + 1);
        NextSendWaits(later, events[1..], e.now);
      } else {
        SendsAreSpaced(later, events[1..], i - 1);
      }
    } else {
      SendsAreSpaced(later, events[1..], i);
    }
  }
}
