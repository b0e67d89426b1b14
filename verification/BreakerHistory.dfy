/**
  The decision of the circuit breaker about a request, read off the history of asks and reports
  alone: what was reported since the last success, how long ago the last trip was, and how many
  requests were let through since the breaker half-opened.
 */
module BreakerHistory {
  import opened Breakers

  /** Where an episode of the history begins: with a closed breaker, at a trip, or with the ask that half-opens. */
  datatype Phase = Normal | TrippedAt(at: int) | Trial

  function FailuresNeeded(c: Settings): nat {
    if c.threshold < 1 then 1 else c.threshold
  }

  /** Failures reported since the last success. */
  function Streak(events: seq<Event>): nat {
    if events == [] then 0
    else
      var n := Streak(events[..|events| - 1]);
      match events[|events| - 1].kind
      case Ask => n
      case Success => 0
      case Failure => n + 1
  }

  /** How many events it takes until enough failures were reported in a row; one more than there are if never. */
  function TripPoint(c: Settings, events: seq<Event>): (k: nat)
    ensures 0 < k <= |events| + 1
    ensures k <= |events| ==> Streak(events[..k]) >= FailuresNeeded(c)
    ensures forall j :: 0 <= j < k && j <= |events| ==> Streak(events[..j]) < FailuresNeeded(c)
  {
    if events == [] then 1
    else
      var before := events[..|events| - 1];
      var k := TripPoint(c, before);
      assert events[..|events|] == events;
      assert forall j :: 0 <= j <= |before| ==> events[..j] == before[..j];
      if k <= |before| then k
      else if Streak(events) >= FailuresNeeded(c) then |events|
      else |events| + 1
  }

  predicate IsDue(c: Settings, at: int, e: Event) {
    e.kind == Ask && e.now - at >= c.resetTimeout
  }

  /** The first ask that comes a full timeout after `at`. */
  function DueAsk(c: Settings, at: int, events: seq<Event>): (k: nat)
    ensures k <= |events| && (k < |events| ==> IsDue(c, at, events[k]))
    ensures forall j :: 0 <= j < k ==> !IsDue(c, at, events[j])
  {
    if events == [] || IsDue(c, at, events[0]) then 0 else 1 + DueAsk(c, at, events[1..])
  }

  function FirstReported(events: seq<Event>): (k: nat)
    ensures k <= |events| && (k < |events| ==> events[k].kind != Ask)
    ensures forall j :: 0 <= j < k ==> events[j].kind == Ask
  {
    if events == [] || events[0].kind != Ask then 0 else 1 + FirstReported(events[1..])
  }

  /** Whether the history lets a request through that asks at `now`. */
  predicate LetsThrough(c: Settings, g: Phase, events: seq<Event>, now: int)
    decreases |events|, if g.TrippedAt? then 1 else 0
  {
    match g
    case Normal =>
      var k := TripPoint(c, events);
      if k <= |events| then LetsThrough(c, TrippedAt(events[k - 1].now), events[k..], now) else true
    case TrippedAt(at) =>
      var k, ask := TripPoint(c, events), DueAsk(c, at, events);
      if ask < k && ask < |events| then LetsThrough(c, Trial, events[ask..], now)
      else if k <= |events| then LetsThrough(c, TrippedAt(events[k - 1].now), events[k..], now)
      else now - at >= c.resetTimeout && c.trialLimit >= 1
    case Trial =>
      var k := FirstReported(events);
      if k == |events| then |events| < c.trialLimit
      else if events[k].kind == Success then LetsThrough(c, Normal, events[k + 1..], now)
      else LetsThrough(c, TrippedAt(events[k].now), events[k + 1..], now)
  }

  predicate Begins(b: Breaker, g: Phase) {
    match g
    case Normal => b.state == Closed && b.failures == 0
    case TrippedAt(at) => b == Trip(at)
    case Trial => b.state == HalfOpen && b.inFlight == 0
  }

  // ----- Episodes

  lemma {:induction false} RunAcross(b: Breaker, c: Settings, first: seq<Event>, second: seq<Event>)
    ensures Run(b, c, first + second) == Run(Run(b, c, first), c, second)
    decreases |second|
  {
    hide Step;
    if second == [] {
      assert first + second == first;
    } else {
      var before := second[..|second| - 1];
      RunAcross(b, c, first, before);
      assert (first + second)[..|first + second| - 1] == first + before;
    }
  }

  lemma SplitAt(b: Breaker, c: Settings, events: seq<Event>, k: nat)
    requires k <= |events|
    ensures Run(b, c, events) == Run(Run(b, c, events[..k]), c, events[k..])
  {
    hide Run;
    RunAcross(b, c, events[..k], events[k..]);
    assert events[..k] + events[k..] == events;
  }

  ghost predicate Quiet(c: Settings, events: seq<Event>) {
    forall k :: 0 <= k <= |events| ==> Streak(events[..k]) < FailuresNeeded(c)
  }

  lemma QuietBefore(c: Settings, events: seq<Event>)
    requires events != [] && Quiet(c, events)
    ensures Quiet(c, events[..|events| - 1]) && Streak(events) < FailuresNeeded(c)
  {
    hide Streak;
    var before := events[..|events| - 1];
    forall k | 0 <= k <= |before|
      ensures Streak(before[..k]) < FailuresNeeded(c)
    {
      assert before[..k] == events[..k];
    }
    assert events[..|events|] == events;
  }

  lemma {:induction false} ClosedEpisode(b: Breaker, c: Settings, events: seq<Event>)
    requires b.state == Closed && b.failures == 0 && Quiet(c, events)
    ensures Run(b, c, events) == b.(failures := Streak(events))
    decreases |events|
  {
    hide Quiet;
    if events == [] {
    } else {
      QuietBefore(c, events);
      ClosedEpisode(b, c, events[..|events| - 1]);
    }
  }

  ghost predicate NoneDue(c: Settings, at: int, events: seq<Event>) {
    forall i :: 0 <= i < |events| ==> !IsDue(c, at, events[i])
  }

  lemma {:induction false} OpenEpisode(at: int, c: Settings, events: seq<Event>)
    requires Quiet(c, events) && NoneDue(c, at, events)
    ensures Run(Trip(at), c, events) == Trip(at).(failures := Streak(events))
    decreases |events|
  {
    hide Quiet;
    if events == [] {
    } else {
      QuietBefore(c, events);
      OpenEpisode(at, c, events[..|events| - 1]);
    }
  }

  lemma {:induction false} TrialEpisode(b: Breaker, c: Settings, events: seq<Event>)
    requires b.state == HalfOpen && b.inFlight == 0 && OnlyAsks(events)
    ensures Run(b, c, events) ==
            b.(inFlight := if |events| <= c.trialLimit then |events| else if c.trialLimit <= 0 then 0 else c.trialLimit)
    decreases |events|
  {
    if events == [] {
    } else {
      TrialEpisode(b, c, events[..|events| - 1]);
    }
  }

  // ----- How episodes end

  lemma NotYet(c: Settings, events: seq<Event>)
    ensures TripPoint(c, events) > |events| ==> Quiet(c, events)
    ensures var k := TripPoint(c, events);
            k <= |events| ==>
              Quiet(c, events[..k - 1]) && Streak(events[..k - 1]) + 1 >= FailuresNeeded(c) && events[k - 1].kind == Failure
  {
    hide TripPoint;
    var k := TripPoint(c, events);
    if k <= |events| {
      var before, upTo := events[..k - 1], events[..k];
      assert upTo[..k - 1] == before && upTo[k - 1] == events[k - 1];
      assert Streak(before) < FailuresNeeded(c) <= Streak(upTo);
      forall j | 0 <= j <= |before|
        ensures Streak(before[..j]) < FailuresNeeded(c)
      {
        assert before[..j] == events[..j];
      }
    }
  }

  lemma LastStep(b: Breaker, c: Settings, events: seq<Event>, k: nat)
    requires 0 < k <= |events|
    ensures Run(b, c, events[..k]) == Step(Run(b, c, events[..k - 1]), c, events[k - 1])
  {
    hide Step;
    assert events[..k][..k - 1] == events[..k - 1];
  }

  /** A closed breaker trips at the failure that completes the streak. */
  lemma ClosedTrips(b: Breaker, c: Settings, events: seq<Event>)
    requires Begins(b, Normal)
    ensures var k := TripPoint(c, events);
            && (k <= |events| ==> Run(b, c, events[..k]) == Trip(events[k - 1].now))
            && (k > |events| ==> Run(b, c, events) == b.(failures := Streak(events)))
  {
    hide Run, Quiet, TripPoint, Streak;
    var k := TripPoint(c, events);
    NotYet(c, events);
    if k <= |events| {
      ClosedEpisode(b, c, events[..k - 1]);
      LastStep(b, c, events, k);
    } else {
      ClosedEpisode(b, c, events);
    }
  }

  lemma QuietPrefix(c: Settings, events: seq<Event>, k: nat)
    requires k <= |events| && k < TripPoint(c, events)
    ensures Quiet(c, events[..k])
  {
    hide Streak, TripPoint;
    forall j | 0 <= j <= k
      ensures Streak(events[..k][..j]) < FailuresNeeded(c)
    {
      assert events[..k][..j] == events[..j];
    }
  }

  /** Until the first ask that is due, an open breaker only counts failures, and a full streak trips it anew. */
  lemma OpenEnds(at: int, c: Settings, events: seq<Event>)
    ensures var k, ask := TripPoint(c, events), DueAsk(c, at, events);
            && (ask < k && ask < |events| ==>
                  Run(Trip(at), c, events[..ask]) == Trip(at).(failures := Streak(events[..ask]))
                  && events[ask].kind == Ask && events[ask].now - at >= c.resetTimeout)
            && (k <= ask && k <= |events| ==> Run(Trip(at), c, events[..k]) == Trip(events[k - 1].now))
            && (|events| <= ask && |events| < k ==> Run(Trip(at), c, events) == Trip(at).(failures := Streak(events)))
  {
    hide Run, Quiet, TripPoint, Streak;
    var k, ask := TripPoint(c, events), DueAsk(c, at, events);
    NotYet(c, events);
    if ask < k && ask < |events| {
      QuietPrefix(c, events, ask);
      OpenEpisode(at, c, events[..ask]);
    } else if k <= |events| {
      OpenEpisode(at, c, events[..k - 1]);
      LastStep(Trip(at), c, events, k);
    } else {
      OpenEpisode(at, c, events);
    }
  }

  /** A due ask takes an open breaker through the half-open state, whether it is let through or not. */
  lemma {:induction false} HalfOpens(b: Breaker, c: Settings, events: seq<Event>)
    requires b.state == Open && events != [] && events[0].kind == Ask && events[0].now - b.openedAt >= c.resetTimeout
    ensures Run(b, c, events) == Run(b.(state := HalfOpen, inFlight := 0), c, events)
    decreases |events|
  {
    var before := events[..|events| - 1];
    if before == [] {
    } else {
      HalfOpens(b, c, before);
    }
  }

  /** The first report settles a half-open breaker. */
  lemma TrialSettles(b: Breaker, c: Settings, events: seq<Event>)
    requires Begins(b, Trial)
    ensures var k := FirstReported(events);
            && (k == |events| ==> OnlyAsks(events))
            && (k < |events| ==> Begins(Run(b, c, events[..k + 1]),
                                        if events[k].kind == Success then Normal else TrippedAt(events[k].now)))
  {
    hide Run;
    var k := FirstReported(events);
    if k < |events| {
      TrialEpisode(b, c, events[..k]);
      LastStep(b, c, events, k + 1);
    }
  }

  /**
    For every history of asks and reports, in any order and with any clock readings: the breaker
    lets a request through exactly when the history says so.
   */
  lemma {:induction false} AdmitsAsHistorySays(b: Breaker, c: Settings, g: Phase, events: seq<Event>, now: int)
    requires Begins(b, g)
    ensures Admit(Run(b, c, events), c, now).allowed <==> LetsThrough(c, g, events, now)
    decreases |events|, if g.TrippedAt? then 1 else 0
  {
    hide Run, TripPoint, DueAsk, FirstReported, Streak;
    match g
    case Normal =>
      ClosedTrips(b, c, events);
      var k := TripPoint(c, events);
      if k <= |events| { AfterTrip(b, c, events, k, now); }
    case TrippedAt(at) =>
      OpenEnds(at, c, events);
      var k, ask := TripPoint(c, events), DueAsk(c, at, events);
      if ask < k && ask < |events| {
        var open := Run(b, c, events[..ask]);
        SplitAt(b, c, events, ask);
        HalfOpens(open, c, events[ask..]);
        AdmitsAsHistorySays(open.(state := HalfOpen, inFlight := 0), c, Trial, events[ask..], now);
      } else if k <= |events| {
        AfterTrip(b, c, events, k, now);
      }
    case Trial =>
      TrialSettles(b, c, events);
      var k := FirstReported(events);
      if k == |events| {
        TrialEpisode(b, c, events);
      } else {
        SplitAt(b, c, events, k + 1);
        AdmitsAsHistorySays(Run(b, c, events[..k + 1]), c,
                            if events[k].kind == Success then Normal else TrippedAt(events[k].now), events[k + 1..], now);
      }
  }

  lemma {:induction false} AfterTrip(b: Breaker, c: Settings, events: seq<Event>, k: nat, now: int)
    requires 0 < k <= |events| && Run(b, c, events[..k]) == Trip(events[k - 1].now)
    ensures Admit(Run(b, c, events), c, now).allowed <==> LetsThrough(c, TrippedAt(events[k - 1].now), events[k..], now)
    decreases |events| - k, 2
  {
    hide Run, LetsThrough, Admit;
    SplitAt(b, c, events, k);
    AdmitsAsHistorySays(Trip(events[k - 1].now), c, TrippedAt(events[k - 1].now), events[k..], now);
  }
}
