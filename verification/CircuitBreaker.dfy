/** The circuit breaker of include/resilience/CircuitBreaker.hpp and its bounds over whole runs. */
module Breakers {

  datatype CircuitState = Closed | Open | HalfOpen

  datatype Settings = Settings(threshold: int, resetTimeout: int, trialLimit: int)

  datatype Breaker = Breaker(state: CircuitState, failures: nat, inFlight: nat, openedAt: int)

  const FRESH: Breaker := Breaker(Closed, 0, 0, 0)

  function Trip(now: int): Breaker {
    Breaker(Open, 0, 0, now)
  }

  datatype Admission = Admission(breaker: Breaker, allowed: bool)

  function Admit(b: Breaker, c: Settings, now: int): Admission {
    if b.state == Open && now - b.openedAt < c.resetTimeout then Admission(b, false)
    else
      var b1 := if b.state == Open then b.(state := HalfOpen, inFlight := 0) else b;
      if b1.state == HalfOpen then
        if b1.inFlight >= c.trialLimit then Admission(b1, false)
        else Admission(b1.(inFlight := b1.inFlight + 1), true)
      else Admission(b1, true)
  }

  function Succeed(b: Breaker): Breaker {
    if b.state == HalfOpen then Breaker(Closed, 0, 0, b.openedAt) else b.(failures := 0)
  }

  function Fail(b: Breaker, c: Settings, now: int): Breaker {
    if b.state == HalfOpen then Trip(now)
    else if b.failures + 1 >= c.threshold then Trip(now)
    else b.(failures := b.failures + 1)
  }

  /** In HalfOpen every report settles the breaker: it closes on success and opens on failure. */
  lemma AnyReportLeavesHalfOpen(b: Breaker, c: Settings, now: int)
    requires b.state == HalfOpen
    ensures Succeed(b).state == Closed && Fail(b, c, now).state == Open
  {
  }

  ghost predicate StaysHalfOpen(b: Breaker, c: Settings, events: seq<Event>) {
    forall k :: 0 <= k <= |events| ==> Run(b, c, events[..k]).state == HalfOpen
  }

  predicate OnlyAsks(events: seq<Event>) {
    forall i :: 0 <= i < |events| ==> events[i].kind == Ask
  }

  lemma {:induction false} AsksAreRefused(b: Breaker, c: Settings, events: seq<Event>)
    requires b.state == HalfOpen && c.trialLimit <= 0 && OnlyAsks(events)
    ensures Run(b, c, events) == b && Admitted(b, c, events) == 0
  {
    if events == [] {
    } else {
      AsksAreRefused(b, c, events[..|events| - 1]);
    }
  }

  /**
    Without trial requests, asking is refused and changes nothing, and a half-open breaker is
    settled exactly by the first report of a request admitted earlier.
   */
  lemma NoTrialsWaitForReports(b: Breaker, c: Settings, events: seq<Event>)
    requires b.state == HalfOpen && c.trialLimit <= 0
    ensures StaysHalfOpen(b, c, events) <==> OnlyAsks(events)
    ensures OnlyAsks(events) ==> Run(b, c, events) == b && Admitted(b, c, events) == 0
  {
    hide Run, Admitted;
    if OnlyAsks(events) {
      AsksAreRefused(b, c, events);
      forall k | 0 <= k <= |events|
        ensures Run(b, c, events[..k]).state == HalfOpen
      {
        AsksAreRefused(b, c, events[..k]);
      }
    } else {
      var k := FirstReport(events);
      AsksAreRefused(b, c, events[..k]);
      RunMore(b, c, events[..k], events[k]);
      assert events[..k + 1] == events[..k] + [events[k]];
    }
  }

  lemma {:induction false} FirstReport(events: seq<Event>) returns (k: nat)
    requires !OnlyAsks(events)
    ensures k < |events| && events[k].kind != Ask && OnlyAsks(events[..k])
  {
    if events[0].kind != Ask {
      k := 0;
    } else {
      k := FirstReport(events[1..]);
      k := k + 1;
      assert forall i :: 0 < i < k ==> events[..k][i] == events[1..][..k - 1][i - 1];
    }
  }

  lemma RunMore(b: Breaker, c: Settings, events: seq<Event>, e: Event)
    ensures Run(b, c, events + [e]) == Step(Run(b, c, events), c, e)
  {
    hide Step;
    assert (events + [e])[..|events|] == events;
  }

  class CircuitBreaker {
    const settings: Settings
    var state: CircuitState
    var consecutiveFailures: nat
    var halfOpenInFlight: nat
    var openedAt: int

    function Value(): Breaker
      reads this
    {
      Breaker(state, consecutiveFailures, halfOpenInFlight, openedAt)
    }

    constructor (settings: Settings)
      ensures Value() == FRESH && this.settings == settings
    {
      this.settings := settings;
      state, consecutiveFailures, halfOpenInFlight, openedAt := Closed, 0, 0, 0;
    }

    method AllowRequest(now: int) returns (allowed: bool)
      modifies this
      ensures Admission(Value(), allowed) == Admit(old(Value()), settings, now)
      ensures allowed <==>
              match old(state)
              case Closed => true
              case Open => now - old(openedAt) >= settings.resetTimeout && settings.trialLimit >= 1
              case HalfOpen => old(halfOpenInFlight) < settings.trialLimit
    {
      if state == Open {
        if now - openedAt >= settings.resetTimeout {
          state := HalfOpen;
          halfOpenInFlight := 0;
        } else {
          return false;
        }
      }
      if state == HalfOpen {
        if halfOpenInFlight >= settings.trialLimit { return false; }
        halfOpenInFlight := halfOpenInFlight + 1;
      }
      return true;
    }

    method OnSuccess()
      modifies this
      ensures Value() == Succeed(old(Value()))
    {
      consecutiveFailures := 0;
      if state == HalfOpen {
        state := Closed;
        halfOpenInFlight := 0;
      }
    }

    method OnFailure(now: int)
      modifies this
      ensures Value() == Fail(old(Value()), settings, now)
    {
      if state == HalfOpen {
        TripNow(now);
        return;
      }
      consecutiveFailures := consecutiveFailures + 1;
      if consecutiveFailures >= settings.threshold { TripNow(now); }
    }

    method TripNow(now: int)
      modifies this
      ensures Value() == Trip(now)
    {
      state, openedAt, consecutiveFailures, halfOpenInFlight := Open, now, 0, 0;
    }
  }

  // ----- Runs. Every event holds the lock, so clock readings do not decrease along a run.

  datatype Kind = Ask | Success | Failure

  datatype Event = Event(kind: Kind, now: int)

  function Step(b: Breaker, c: Settings, e: Event): Breaker {
    match e.kind
    case Ask => Admit(b, c, e.now).breaker
    case Success => Succeed(b)
    case Failure => Fail(b, c, e.now)
  }

  function Run(b: Breaker, c: Settings, events: seq<Event>): Breaker {
    if events == [] then b else Step(Run(b, c, events[..|events| - 1]), c, events[|events| - 1])
  }

  predicate Ordered(start: int, events: seq<Event>) {
    forall i :: 0 <= i < |events| ==> start <= events[i].now && (i > 0 ==> events[i - 1].now <= events[i].now)
  }

  /** Requests let through along a run. */
  function Admitted(b: Breaker, c: Settings, events: seq<Event>): nat {
    if events == [] then 0
    else
      var before, e := events[..|events| - 1], events[|events| - 1];
      Admitted(b, c, before) + if e.kind == Ask && Admit(Run(b, c, before), c, e.now).allowed then 1 else 0
  }

  ghost predicate NeverClosed(b: Breaker, c: Settings, events: seq<Event>) {
    forall k :: 0 <= k <= |events| ==> Run(b, c, events[..k]).state != Closed
  }

  // ----- Admissions after a trip

  function LastTime(start: int, events: seq<Event>): int {
    if events == [] then start else events[|events| - 1].now
  }

  /** `rounds` counts the half-open periods since the trip; each is a full timeout later than the one before. */
  ghost predicate RoundsBound(b: Breaker, c: Settings, start: int, now: int, admitted: nat, rounds: nat) {
    && start + rounds * c.resetTimeout <= (if b.state == Open then b.openedAt else now)
    && b.openedAt <= now
    && (b.state == Open ==> admitted <= c.trialLimit * rounds)
    && (b.state == HalfOpen ==>
          rounds >= 1 && b.inFlight <= c.trialLimit && admitted <= c.trialLimit * (rounds - 1) + b.inFlight)
  }

  lemma StepKeepsBound(b: Breaker, c: Settings, start: int, now: int, admitted: nat, rounds: nat, e: Event)
    returns (rounds': nat)
    requires c.resetTimeout > 0 && c.trialLimit >= 0 && now <= e.now
    requires b.state != Closed && Step(b, c, e).state != Closed
    requires RoundsBound(b, c, start, now, admitted, rounds)
    ensures var more := if e.kind == Ask && Admit(b, c, e.now).allowed then 1 else 0;
            RoundsBound(Step(b, c, e), c, start, e.now, admitted + more, rounds')
  {
    rounds' := rounds;
    assert c.trialLimit * rounds == c.trialLimit * (rounds - 1) + c.trialLimit;
    if e.kind == Ask && b.state == Open && e.now - b.openedAt >= c.resetTimeout {
      rounds' := rounds + 1;
      assert (rounds + 1) * c.resetTimeout == rounds * c.resetTimeout + c.resetTimeout;
      assert c.trialLimit * (rounds' - 1) == c.trialLimit * rounds;
    }
  }

  lemma {:induction false} RunKeepsBound(c: Settings, start: int, events: seq<Event>) returns (rounds: nat)
    requires c.resetTimeout > 0 && c.trialLimit >= 0
    requires Ordered(start, events) && NeverClosed(Trip(start), c, events)
    ensures RoundsBound(Run(Trip(start), c, events), c, start, LastTime(start, events),
                        Admitted(Trip(start), c, events), rounds)
    ensures Run(Trip(start), c, events).state != Closed
    decreases |events|
  {
    var b := Trip(start);
    assert events[..|events|] == events;
    assert Run(b, c, events[..|events|]).state != Closed;
    if events == [] {
      rounds := 0;
    } else {
      var n := |events| - 1;
      var before, e := events[..n], events[n];
      forall k | 0 <= k <= n
        ensures Run(b, c, before[..k]).state != Closed
      {
        assert before[..k] == events[..k];
      }
      rounds := RunKeepsBound(c, start, before);
      rounds := StepKeepsBound(Run(b, c, before), c, start, LastTime(start, before), Admitted(b, c, before), rounds, e);
    }
  }

  lemma FloorAtLeast(rounds: nat, width: int, total: int)
    requires width > 0 && rounds * width <= total
    ensures rounds <= total / width
  {
    var q := total / width;
    assert total == q * width + total % width;
    assert rounds > q ==> rounds * width >= (q + 1) * width;
  }

  /**
    After a trip at `start`, and as long as the breaker has not closed again, at most
    `trialLimit` requests are let through for each full reset timeout that has passed.
   */
  lemma AdmissionsAfterTrip(c: Settings, start: int, events: seq<Event>)
    requires c.resetTimeout > 0 && c.trialLimit >= 0
    requires Ordered(start, events) && NeverClosed(Trip(start), c, events)
    ensures Admitted(Trip(start), c, events) <=
            c.trialLimit * ((LastTime(start, events) - start) / c.resetTimeout)
  {
    hide Run, Admitted, NeverClosed;
    var rounds := RunKeepsBound(c, start, events);
    FloorAtLeast(rounds, c.resetTimeout, LastTime(start, events) - start);
    var whole := (LastTime(start, events) - start) / c.resetTimeout;
    assert c.trialLimit * rounds <= c.trialLimit * whole;
    assert rounds >= 1 ==> c.trialLimit * (rounds - 1) + c.trialLimit == c.trialLimit * rounds;
  }

  // ----- What makes a closed breaker trip

  function Failures(events: seq<Event>): nat {
    if events == [] then 0
    else Failures(events[..|events| - 1]) + if events[|events| - 1].kind == Failure then 1 else 0
  }

  /** From `k` on the breaker was closed before every event, no success was reported, and `n` failures were. */
  ghost predicate ClosedStreak(c: Settings, events: seq<Event>, k: nat, n: nat) {
    && k <= |events|
    && (k == 0 || events[k - 1].kind == Success)
    && (forall i :: k <= i < |events| ==> events[i].kind != Success)
    && (forall i :: k <= i < |events| ==> Run(FRESH, c, events[..i]).state == Closed)
    && Failures(events[k..]) == n
  }

  lemma FailuresSnoc(events: seq<Event>, k: nat)
    requires k < |events|
    ensures Failures(events[k..]) == Failures(events[k..|events| - 1]) + if events[|events| - 1].kind == Failure then 1 else 0
  {
    var s := events[k..];
    assert s[..|s| - 1] == events[k..|events| - 1];
  }

  /** While closed, the counter holds exactly the failures since the last success or the start. */
  lemma {:induction false} CounterIsStreak(c: Settings, events: seq<Event>) returns (k: nat)
    requires c.threshold >= 1
    requires Run(FRESH, c, events).state == Closed
    ensures ClosedStreak(c, events, k, Run(FRESH, c, events).failures)
    ensures Run(FRESH, c, events).failures < c.threshold
    decreases |events|
  {
    if events == [] {
      k := 0;
    } else {
      var n := |events| - 1;
      var before, e := events[..n], events[n];
      if e.kind == Success {
        k := |events|;
        assert events[k..] == [];
        if Run(FRESH, c, before).state == Closed { var _ := CounterIsStreak(c, before); }
      } else {
        assert Run(FRESH, c, before).state == Closed;
        k := CounterIsStreak(c, before);
        ExtendStreak(c, events, k, Run(FRESH, c, before).failures);
      }
    }
  }

  lemma ExtendStreak(c: Settings, events: seq<Event>, k: nat, n: nat)
    requires events != [] && ClosedStreak(c, events[..|events| - 1], k, n)
    requires events[|events| - 1].kind != Success
    requires Run(FRESH, c, events[..|events| - 1]).state == Closed
    ensures ClosedStreak(c, events, k, n + if events[|events| - 1].kind == Failure then 1 else 0)
  {
    hide Run;
    var m := |events| - 1;
    var before := events[..m];
    assert before[k..] == events[k..m];
    FailuresSnoc(events, k);
    forall i | k <= i < |events|
      ensures events[i].kind != Success && Run(FRESH, c, events[..i]).state == Closed
    {
      if i < m {
        assert before[..i] == events[..i] && before[i] == events[i];
      } else {
        assert events[..i] == before;
      }
    }
  }

  /**
    Whenever an event takes the breaker from Closed to Open, it is the last of exactly
    `threshold` failures reported while closed, with no success between them, counted from
    the last success or from the start.
   */
  lemma TripNeedsThreshold(c: Settings, events: seq<Event>) returns (k: nat)
    requires c.threshold >= 1 && events != []
    requires Run(FRESH, c, events[..|events| - 1]).state == Closed
    requires Run(FRESH, c, events).state == Open
    ensures ClosedStreak(c, events, k, c.threshold) && events[|events| - 1].kind == Failure
  {
    var before := events[..|events| - 1];
    k := CounterIsStreak(c, before);
    ExtendStreak(c, events, k, Run(FRESH, c, before).failures);
  }

  // ----- Late reports to an open breaker

  function Trips(b: Breaker, c: Settings, events: seq<Event>): nat {
    if events == [] then 0
    else
      var before, e := events[..|events| - 1], events[|events| - 1];
      Trips(b, c, before) + if e.kind == Failure && Run(b, c, events) == Trip(e.now) then 1 else 0
  }

  /**
    Until the next admission a tripped breaker stays open, refused asks or not, and every trip
    uses up `threshold` failures.
   */
  lemma {:induction false} LateReports(c: Settings, start: int, events: seq<Event>)
    requires c.threshold >= 1 && c.trialLimit >= 1
    requires Admitted(Trip(start), c, events) == 0
    ensures Run(Trip(start), c, events).state == Open
    ensures Run(Trip(start), c, events).failures < c.threshold
    ensures Trips(Trip(start), c, events) * c.threshold + Run(Trip(start), c, events).failures <= Failures(events)
    decreases |events|
  {
    if events == [] {
    } else {
      var before := events[..|events| - 1];
      LateReports(c, start, before);
      var t := Trips(Trip(start), c, before);
      assert (t + 1) * c.threshold == t * c.threshold + c.threshold;
    }
  }

  lemma {:induction false} TripsAreFailures(b: Breaker, c: Settings, events: seq<Event>)
    ensures Trips(b, c, events) <= Failures(events)
    decreases |events|
  {
    if events == [] {
    } else {
      TripsAreFailures(b, c, events[..|events| - 1]);
    }
  }

  /** Before the next admission, a breaker is re-tripped at most once for every `threshold` failures reported. */
  ghost predicate ReTripsAreRare(c: Settings)
    requires c.threshold >= 1
  {
    forall start: int, events: seq<Event> :: Admitted(Trip(start), c, events) == 0 ==>
      Trips(Trip(start), c, events) <= Failures(events) / c.threshold
  }

  /** Without trial requests, an ask after the timeout is refused but half-opens, and one failure then re-trips. */
  lemma OneFailureReTrips(c: Settings, start: int) returns (events: seq<Event>)
    requires c.trialLimit <= 0
    ensures Ordered(start, events) && Admitted(Trip(start), c, events) == 0
    ensures Failures(events) == 1 && Trips(Trip(start), c, events) == 1
  {
    var later := start + if c.resetTimeout > 0 then c.resetTimeout else 0;
    var ask, failure := Event(Ask, later), Event(Failure, later);
    events := [ask, failure];
    var b := Trip(start);
    OneAsk(b, c, ask);
    assert events[..1] == [ask];
    assert Run(b, c, events) == Step(Run(b, c, [ask]), c, failure);
  }

  lemma OneAsk(b: Breaker, c: Settings, ask: Event)
    requires ask.kind == Ask
    ensures Run(b, c, [ask]) == Step(b, c, ask)
    ensures Admitted(b, c, [ask]) == if Admit(b, c, ask.now).allowed then 1 else 0
    ensures Failures([ask]) == 0 && Trips(b, c, [ask]) == 0
  {
    var none: seq<Event> := [];
    assert [ask][..0] == none;
    assert Run(b, c, none) == b && Failures(none) == 0 && Trips(b, c, none) == 0 && Admitted(b, c, none) == 0;
  }

  /**
    Requests still out at a trip can postpone recovery at most failures / threshold times
    before the next admission, if and only if there is a trial request or the threshold is 1.
   */
  lemma ReTripsBounded(c: Settings)
    requires c.threshold >= 1
    ensures ReTripsAreRare(c) <==> c.trialLimit >= 1 || c.threshold == 1
  {
    hide Run, Trips, Failures, Admitted;
    if c.trialLimit >= 1 || c.threshold == 1 {
      forall start: int, events: seq<Event> | Admitted(Trip(start), c, events) == 0
        ensures Trips(Trip(start), c, events) <= Failures(events) / c.threshold
      {
        TripsAreFailures(Trip(start), c, events);
        if c.trialLimit >= 1 { LateReports(c, start, events); }
        FloorAtLeast(Trips(Trip(start), c, events), c.threshold, Failures(events));
      }
    } else {
      var events := OneFailureReTrips(c, 0);
      assert Failures(events) / c.threshold == 0;
    }
  }
}
