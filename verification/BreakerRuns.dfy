/** What an interleaving of workers is for one breaker: a run of asks and reports, each admitted request reporting once. */
module BreakerRuns {
  import opened Breakers
  import BreakerHistory
  import opened Pool
  import opened Retry
  import opened Forwarding
  import opened Interleavings

  /** What a move at this stage asks of or reports to the breaker of backend `b`, if anything. */
  function EventOf(g: Stage, now: int, b: nat): seq<Event> {
    match g
    case Picked(_, x) => if x == b then [Event(Ask, now)] else []
    case Uncounted(_, x, _, _, ok, _, _) => if x == b && ok then [Event(Success, now)] else []
    case Failing(_, x, _) => if x == b then [Event(Failure, now)] else []
    case _ => []
  }

  function TurnEvents(s: World, t: Turn, b: nat): seq<Event> {
    if t.worker < |s.workers| then EventOf(s.workers[t.worker].stage, t.input.now, b) else []
  }

  /** What the turns `more` ask of and report to the breaker of backend `b` after the turns `turns`. */
  function EventsOf(c: Config, workers: nat, turns: seq<Turn>, more: seq<Turn>, b: nat): seq<Event>
    decreases |more|
  {
    if more == [] then []
    else
      var before, t := more[..|more| - 1], more[|more| - 1];
      EventsOf(c, workers, turns, before, b) + TurnEvents(Play(c, workers, turns + before), t, b)
  }

  function Reports(events: seq<Event>): nat {
    if events == [] then 0
    else Reports(events[..|events| - 1]) + if events[|events| - 1].kind == Ask then 0 else 1
  }

  lemma OneEvent(k: Breaker, c: Settings, events: seq<Event>, e: Event)
    ensures Run(k, c, events + [e]) == Step(Run(k, c, events), c, e)
    ensures Admitted(k, c, events + [e]) ==
            Admitted(k, c, events) + if e.kind == Ask && Admit(Run(k, c, events), c, e.now).allowed then 1 else 0
    ensures Reports(events + [e]) == Reports(events) + if e.kind == Ask then 0 else 1
  {
    hide Step, Admit;
    assert (events + [e])[..|events|] == events;
  }

  /** A move changes the breaker as its event does, and settles or adds exactly the request the event is about. */
  lemma MoveIsEvent(c: Config, s: World, i: nat, in_: Input, b: nat)
    requires Shaped(c, s) && i < |s.workers| && b < |c.backends|
    ensures var s', k := Move(c, s, i, in_), s.circuits.breakers[b];
            var es := EventOf(s.workers[i].stage, in_.now, b);
            var was, is_ := Has(s.workers[i].stage, OwesOn(b)), Has(s'.workers[i].stage, OwesOn(b));
            && s'.circuits.breakers[b] == (if es == [] then k else Step(k, c.settings, es[0]))
            && (es == [] ==> was == is_)
            && (es != [] && es[0].kind == Ask ==> !was && is_ == Admit(k, c.settings, in_.now).allowed)
            && (es != [] && es[0].kind != Ask ==> was && !is_)
  {
    hide Key, TakeIdle, PutBack, Backoff;
  }

  lemma MoveKeepsOwing(c: Config, s: World, i: nat, in_: Input, b: nat)
    requires Shaped(c, s) && i < |s.workers| && b < |c.backends|
    ensures var es := EventOf(s.workers[i].stage, in_.now, b); var k := s.circuits.breakers[b];
            Count(Move(c, s, i, in_).workers, OwesOn(b)) == Count(s.workers, OwesOn(b)) +
            if es == [] then 0
            else if es[0].kind != Ask then -1
            else if Admit(k, c.settings, in_.now).allowed then 1 else 0
  {
    hide Next, MoveCircuits, MoveActive, MoveFds, Has, Count, Admit;
    MoveIsEvent(c, s, i, in_, b);
    CountUpdate(s.workers, i, Move(c, s, i, in_).workers[i], OwesOn(b));
  }

  lemma PlaySnoc(c: Config, workers: nat, turns: seq<Turn>, more: seq<Turn>)
    requires more != []
    ensures var s, t := Play(c, workers, turns + more[..|more| - 1]), more[|more| - 1];
            Play(c, workers, turns + more) == if t.worker < workers then Move(c, s, t.worker, t.input) else s
  {
    hide Move;
    var all := turns + more;
    assert all[..|all| - 1] == turns + more[..|more| - 1];
  }

  /**
    For every continuation of every interleaving: the breaker goes through the run of its events,
    and the requests that owe it a report afterwards are those that did before, and those
    admitted since, less one for each report.
   */
  lemma {:induction false} PlayIsRun(c: Config, workers: nat, turns: seq<Turn>, more: seq<Turn>, b: nat)
    requires b < |c.backends|
    ensures var s, s' := Play(c, workers, turns), Play(c, workers, turns + more);
            var k, events := s.circuits.breakers[b], EventsOf(c, workers, turns, more, b);
            && s'.circuits.breakers[b] == Run(k, c.settings, events)
            && Count(s'.workers, OwesOn(b)) + Reports(events) ==
               Count(s.workers, OwesOn(b)) + Admitted(k, c.settings, events)
    decreases |more|
  {
    hide Play, Move, Count, Step, Admit, Run, Admitted, Reports, EventOf;
    if more == [] {
      assert turns + more == turns;
      NoEvents(Play(c, workers, turns).circuits.breakers[b], c.settings);
    } else {
      var before, t := more[..|more| - 1], more[|more| - 1];
      PlayIsRun(c, workers, turns, before, b);
      PlaySnoc(c, workers, turns, more);
      var s := Play(c, workers, turns + before);
      var k, events := Play(c, workers, turns).circuits.breakers[b], EventsOf(c, workers, turns, before, b);
      var es := TurnEvents(s, t, b);
      AtMostOne(s, t, b);
      if t.worker < workers {
        MoveIsEvent(c, s, t.worker, t.input, b);
        MoveKeepsOwing(c, s, t.worker, t.input, b);
      }
      if es == [] {
        assert events + es == events;
      } else {
        assert events + es == events + [es[0]];
        OneEvent(k, c.settings, events, es[0]);
      }
    }
  }

  lemma NoEvents(k: Breaker, c: Settings)
    ensures Run(k, c, []) == k && Admitted(k, c, []) == 0 && Reports([]) == 0
  {
  }

  lemma AtMostOne(s: World, t: Turn, b: nat)
    ensures |TurnEvents(s, t, b)| <= 1
    ensures TurnEvents(s, t, b) != [] ==> TurnEvents(s, t, b)[0].now == t.input.now
  {
  }

  lemma {:induction false} FailuresAreReports(events: seq<Event>)
    ensures Failures(events) <= Reports(events)
  {
    if events == [] {
    } else {
      FailuresAreReports(events[..|events| - 1]);
    }
  }

  /**
    In every interleaving: once a breaker has tripped, the requests that owe it a report can
    re-trip it before its next admission at most once for every `threshold` of them.
   */
  lemma OutstandingReTrips(c: Config, workers: nat, turns: seq<Turn>, more: seq<Turn>, b: nat, start: int)
    requires b < |c.backends| && c.settings.threshold >= 1 && (c.settings.trialLimit >= 1 || c.settings.threshold == 1)
    requires Play(c, workers, turns).circuits.breakers[b] == Trip(start)
    ensures var events := EventsOf(c, workers, turns, more, b);
            Admitted(Trip(start), c.settings, events) == 0 ==>
              Trips(Trip(start), c.settings, events) <=
              Count(Play(c, workers, turns).workers, OwesOn(b)) / c.settings.threshold
  {
    hide Play, Count, Run, Admitted, Reports, Trips, Failures, EventsOf, ReTripsAreRare;
    var events := EventsOf(c, workers, turns, more, b);
    if Admitted(Trip(start), c.settings, events) == 0 {
      PlayIsRun(c, workers, turns, more, b);
      FailuresAreReports(events);
      ReTripsBounded(c.settings);
      RareReTrips(c.settings, start, events);
      FloorGrows(Failures(events), Count(Play(c, workers, turns).workers, OwesOn(b)), c.settings.threshold);
    }
  }

  lemma RareReTrips(c: Settings, start: int, events: seq<Event>)
    requires c.threshold >= 1 && ReTripsAreRare(c) && Admitted(Trip(start), c, events) == 0
    ensures Trips(Trip(start), c, events) <= Failures(events) / c.threshold
  {
    hide Run, Admitted, Trips, Failures;
  }

  lemma FloorGrows(a: nat, b: nat, n: nat)
    requires a <= b && n >= 1
    ensures a / n <= b / n
  {
    assert a == a / n * n + a % n;
    FloorAtLeast(a / n, n, b);
  }

  /**
    In every interleaving, a worker that asks the breaker of its backend is refused, and records
    the attempt as refused, exactly when what all workers have asked and reported there so far says so.
   */
  lemma RefusedAsHistorySays(c: Config, workers: nat, turns: seq<Turn>, t: Turn, b: nat)
    requires b < |c.backends| && t.worker < workers
    requires Play(c, workers, turns).workers[t.worker].stage.Picked?
    requires Play(c, workers, turns).workers[t.worker].stage.b == b
    ensures var before, after := Play(c, workers, turns).workers[t.worker], Play(c, workers, turns + [t]).workers[t.worker];
            after.attempts ==
            if BreakerHistory.LetsThrough(c.settings, BreakerHistory.Normal, EventsOf(c, workers, [], turns, b), t.input.now)
            then before.attempts else before.attempts + [Refused]
  {
    hide Play, EventsOf, Admit, Run, Admitted, Reports, Count, BreakerHistory.LetsThrough;
    var nothing: seq<Turn> := [];
    assert nothing + turns == turns;
    PlayIsRun(c, workers, nothing, turns, b);
    Untouched(c, workers, b);
    BreakerHistory.AdmitsAsHistorySays(FRESH, c.settings, BreakerHistory.Normal,
                                       EventsOf(c, workers, nothing, turns, b), t.input.now);
    AttemptsAreRecorded(c, workers, turns, t, t.worker);
    var w := Play(c, workers, turns).workers[t.worker];
    assert w.attempts + [] == w.attempts;
  }

  lemma Untouched(c: Config, workers: nat, b: nat)
    requires b < |c.backends|
    ensures Play(c, workers, []).circuits.breakers[b] == FRESH
  {
  }
}
