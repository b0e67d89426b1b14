/** What holds after every interleaving of moves, for any number of workers. */
module Interleavings {
  import opened Text
  import opened Breakers
  import opened Pool
  import opened Retry
  import opened Forwarding
  import opened Ownership

  datatype Turn = Turn(worker: nat, input: Input)

  /** Any order of turns; a turn of a worker that does not exist does nothing. */
  function Play(c: Config, workers: nat, turns: seq<Turn>): (s: World)
    ensures Shaped(c, s) && |s.workers| == workers
  {
    if turns == [] then Initial(c, workers)
    else
      var s, t := Play(c, workers, turns[..|turns| - 1]), turns[|turns| - 1];
      if t.worker < workers then Move(c, s, t.worker, t.input) else s
  }

  ghost predicate Invariant(c: Config, s: World, homes: Homes) {
    && ActiveCounted(c, s) && Owned(c, s, homes)
    && (c.settings.trialLimit >= 1 ==> TrialsCounted(c, s))
    && forall i :: 0 <= i < |s.workers| ==> EffortBounded(c, s.workers[i]) && AttemptsSound(c, s.workers[i])
  }

  lemma InitialInvariant(c: Config, workers: nat)
    ensures Invariant(c, Initial(c, workers), map[])
  {
    var s := Initial(c, workers);
    forall b | 0 <= b < |c.backends|
      ensures s.active[b] == Count(s.workers, ActiveOn(b))
    {
      CountZero(s.workers, ActiveOn(b));
    }
  }

  lemma MoveKeepsInvariant(c: Config, s: World, i: nat, in_: Input, homes: Homes)
    requires Invariant(c, s, homes) && i < |s.workers|
    ensures Invariant(c, Move(c, s, i, in_), NextHomes(c, s, i, in_, homes))
  {
    hide ActiveCounted, TrialsCounted, Owned, EffortBounded, AttemptsSound, Next, MoveCircuits, MoveActive, MoveFds, NextHomes;
    ActiveShaped(c, s);
    MoveKeepsActive(c, s, i, in_);
    if c.settings.trialLimit >= 1 { MoveKeepsTrials(c, s, i, in_); }
    MoveKeepsOwned(c, s, i, in_, homes);
    NextKeepsEffort(c, s.circuits, s.fds, s.workers[i], in_);
    NextKeepsAttempts(c, s.circuits, s.fds, s.workers[i], in_);
  }

  lemma ActiveShaped(c: Config, s: World)
    requires ActiveCounted(c, s)
    ensures Shaped(c, s)
  {
  }

  lemma {:induction false} PlayKeepsInvariant(c: Config, workers: nat, turns: seq<Turn>) returns (homes: Homes)
    ensures Invariant(c, Play(c, workers, turns), homes)
  {
    hide Invariant, Move, Initial, NextHomes;
    if turns == [] {
      InitialInvariant(c, workers);
      homes := map[];
    } else {
      var before, t := turns[..|turns| - 1], turns[|turns| - 1];
      homes := PlayKeepsInvariant(c, workers, before);
      var s := Play(c, workers, before);
      if t.worker < workers {
        MoveKeepsInvariant(c, s, t.worker, t.input, homes);
        homes := NextHomes(c, s, t.worker, t.input, homes);
      }
    }
  }

  // ----- What it means, without the witness

  predicate IdleSomewhere(s: World, fd: int) {
    exists k :: k in s.fds.idle && fd in s.fds.idle[k]
  }

  predicate HeldSomewhere(s: World, fd: int) {
    exists i :: 0 <= i < |s.workers| && Held(s.workers[i].stage) == Some(fd)
  }

  /**
    The open descriptors are the idle ones and the held ones; no descriptor is both, held
    twice or idle twice; each serves the address it was dialled for; no deque is too long and
    nothing was closed that was not open.
   */
  ghost predicate DescriptorsSafe(c: Config, s: World) {
    && !s.fds.strayClose
    && (forall fd :: fd in s.fds.open <==> IdleSomewhere(s, fd) || HeldSomewhere(s, fd))
    && (forall fd :: !(IdleSomewhere(s, fd) && HeldSomewhere(s, fd)))
    && (forall i, j :: 0 <= i < j < |s.workers| && Held(s.workers[i].stage).Some? ==>
          Held(s.workers[i].stage) != Held(s.workers[j].stage))
    && (forall k, l, fd :: k in s.fds.idle && l in s.fds.idle && fd in s.fds.idle[k] && fd in s.fds.idle[l] ==> k == l)
    && (forall k :: k in s.fds.idle ==> Distinct(s.fds.idle[k]) && |s.fds.idle[k]| <= c.maxIdle)
    && (forall k, fd :: k in s.fds.idle && fd in s.fds.idle[k] ==> fd in s.fds.peers && Key(s.fds.peers[fd]) == k)
    && (forall i :: 0 <= i < |s.workers| && Held(s.workers[i].stage).Some? ==>
          var g := s.workers[i].stage;
          && OnBackend(g) && g.b < |c.backends| && Held(g).value in s.fds.peers
          && s.fds.peers[Held(g).value] == c.backends[g.b])
  }

  lemma OwnedIsSafe(c: Config, s: World, homes: Homes)
    requires Owned(c, s, homes)
    ensures DescriptorsSafe(c, s)
  {
    hide Held, Key;
    forall fd
      ensures fd in s.fds.open <==> IdleSomewhere(s, fd) || HeldSomewhere(s, fd)
      ensures !(IdleSomewhere(s, fd) && HeldSomewhere(s, fd))
    {
      PlaceOf(c, s, homes, fd);
    }
    forall i | 0 <= i < |s.workers| && Held(s.workers[i].stage).Some?
      ensures var g := s.workers[i].stage;
              && homes[Held(g).value] == AtWorker(i)
              && OnBackend(g) && g.b < |c.backends| && Held(g).value in s.fds.peers
              && s.fds.peers[Held(g).value] == c.backends[g.b]
    {
      var fd := Held(s.workers[i].stage).value;
      assert fd in homes && homes[fd] == AtWorker(i);
    }
    forall i, j | 0 <= i < j < |s.workers| && Held(s.workers[i].stage).Some?
      ensures Held(s.workers[i].stage) != Held(s.workers[j].stage)
    {
    }
    forall k, l, fd | k in s.fds.idle && l in s.fds.idle && fd in s.fds.idle[k] && fd in s.fds.idle[l]
      ensures k == l
    {
      assert homes[fd] == AtPool(k) && homes[fd] == AtPool(l);
    }
  }

  lemma PlaceOf(c: Config, s: World, homes: Homes, fd: int)
    requires Owned(c, s, homes)
    ensures IdleSomewhere(s, fd) <==> fd in homes && homes[fd].AtPool?
    ensures HeldSomewhere(s, fd) <==> fd in homes && homes[fd].AtWorker?
  {
  }

  /** In every interleaving, backend descriptors are neither leaked, shared, misdirected nor closed twice. */
  lemma DescriptorsAlwaysSafe(c: Config, workers: nat, turns: seq<Turn>)
    ensures DescriptorsSafe(c, Play(c, workers, turns))
  {
    hide Play, Owned, DescriptorsSafe;
    var homes := PlayKeepsInvariant(c, workers, turns);
    OwnedIsSafe(c, Play(c, workers, turns), homes);
  }

  /** Moves a worker still needs until it has reported. */
  function MovesToReport(g: Stage): nat {
    match g
    case Allowed(_, _, _) => 7
    case Counted(_, _, _) => 6
    case Dialling(_, _, _) => 5
    case Connected(_, _, _, _) => 4
    case Answered(_, _, _, _, _, _, _) => 3
    case Uncounted(_, _, _, _, _, _, _) => 2
    case _ => 1
  }

  predicate OnlyBy(turns: seq<Turn>, i: nat) {
    forall k :: 0 <= k < |turns| ==> turns[k].worker == i
  }

  lemma PlayMore(c: Config, workers: nat, turns: seq<Turn>, t: Turn)
    requires t.worker < workers
    ensures Play(c, workers, turns + [t]) == Move(c, Play(c, workers, turns), t.worker, t.input)
  {
    assert (turns + [t])[..|turns|] == turns;
  }

  /** A move towards the report: the breaker leaves the half-open state, or the report is nearer. */
  lemma OneMoveNearer(c: Config, s: World, i: nat, in_: Input, b: nat)
    requires Shaped(c, s) && i < |s.workers| && Unreported(s.workers[i].stage) && s.workers[i].stage.b == b
    requires in_.fd == -1 && s.circuits.breakers[b].state == HalfOpen
    ensures var s' := Move(c, s, i, in_);
            || s'.circuits.breakers[b].state != HalfOpen
            || (Unreported(s'.workers[i].stage) && s'.workers[i].stage.b == b
                && MovesToReport(s'.workers[i].stage) < MovesToReport(s.workers[i].stage))
  {
    hide Key, TakeIdle, PutBack;
  }

  /**
    The report can always arrive: from every state in which worker `i` owes one to a half-open
    breaker, turns of that worker alone take the breaker out of the half-open state.
   */
  lemma {:induction false} ReportCanArrive(c: Config, workers: nat, turns: seq<Turn>, b: nat, i: nat)
    returns (more: seq<Turn>)
    requires b < |c.backends| && i < workers
    requires Play(c, workers, turns).circuits.breakers[b].state == HalfOpen
    requires var g := Play(c, workers, turns).workers[i].stage; Unreported(g) && g.b == b
    ensures OnlyBy(more, i) && |more| <= MovesToReport(Play(c, workers, turns).workers[i].stage)
    ensures Play(c, workers, turns + more).circuits.breakers[b].state != HalfOpen
    decreases MovesToReport(Play(c, workers, turns).workers[i].stage)
  {
    hide Play, Move, MovesToReport, Unreported;
    var t := Turn(i, Input(-1, 0, -1, false, false, 0, 0));
    PlayMore(c, workers, turns, t);
    OneMoveNearer(c, Play(c, workers, turns), i, t.input, b);
    var next := turns + [t];
    if Play(c, workers, next).circuits.breakers[b].state != HalfOpen {
      more := [t];
      SomeMove(Play(c, workers, turns).workers[i].stage);
    } else {
      var rest := ReportCanArrive(c, workers, next, b, i);
      more := [t] + rest;
      assert turns + more == next + rest;
    }
  }

  lemma SomeMove(g: Stage)
    ensures MovesToReport(g) >= 1
  {
  }

  /**
    In every interleaving, a half-open breaker counts exactly the requests admitted in this
    period, all of them still unreported and at most the trial limit; at least one worker
    therefore still owes a report, whichever report comes next leaves the half-open state, and
    turns of that worker alone are enough to get there.
   */
  lemma HalfOpenNeverStranded(c: Config, workers: nat, turns: seq<Turn>, b: nat)
    returns (i: nat, more: seq<Turn>)
    requires c.settings.trialLimit >= 1 && b < |c.backends|
    requires Play(c, workers, turns).circuits.breakers[b].state == HalfOpen
    ensures var s := Play(c, workers, turns);
            && 1 <= s.circuits.breakers[b].inFlight <= c.settings.trialLimit
            && s.circuits.breakers[b].inFlight == Count(s.workers, TrialOn(b, s.circuits.epochs[b]))
            && i < workers && Has(s.workers[i].stage, TrialOn(b, s.circuits.epochs[b]))
    ensures var k := Play(c, workers, turns).circuits.breakers[b];
            Succeed(k).state == Closed && forall now :: Fail(k, c.settings, now).state == Open
    ensures OnlyBy(more, i) && |more| <= 7
    ensures Play(c, workers, turns + more).circuits.breakers[b].state != HalfOpen
  {
    hide Play, Count, Owned, ActiveCounted, EffortBounded;
    var homes := PlayKeepsInvariant(c, workers, turns);
    var s := Play(c, workers, turns);
    assert TrialsOf(c, s, b);
    i := CountPositive(s.workers, TrialOn(b, s.circuits.epochs[b]));
    forall now
      ensures Fail(s.circuits.breakers[b], c.settings, now).state == Open
    {
      AnyReportLeavesHalfOpen(s.circuits.breakers[b], c.settings, now);
    }
    more := ReportCanArrive(c, workers, turns, b, i);
  }

  /** Some worker still owes this backend's breaker a report. */
  predicate Owed(s: World, b: nat) {
    exists i :: 0 <= i < |s.workers| && Unreported(s.workers[i].stage) && s.workers[i].stage.b == b
  }

  ghost predicate CanLeave(c: Config, workers: nat, turns: seq<Turn>, b: nat)
    requires b < |c.backends|
  {
    exists more: seq<Turn> :: Play(c, workers, turns + more).circuits.breakers[b].state != HalfOpen
  }

  /** With no trials and no report owed, no move of anyone settles a half-open breaker. */
  lemma StuckStays(c: Config, s: World, i: nat, in_: Input, b: nat)
    requires Shaped(c, s) && i < |s.workers| && b < |c.backends| && c.settings.trialLimit <= 0
    requires s.circuits.breakers[b].state == HalfOpen && !Owed(s, b)
    ensures Move(c, s, i, in_).circuits.breakers[b].state == HalfOpen && !Owed(Move(c, s, i, in_), b)
  {
    hide Key, TakeIdle, PutBack, Backoff;
    var s' := Move(c, s, i, in_);
    forall j | 0 <= j < |s'.workers|
      ensures !(Unreported(s'.workers[j].stage) && s'.workers[j].stage.b == b)
    {
      assert j != i ==> s'.workers[j] == s.workers[j];
    }
  }

  lemma {:induction false} StuckForever(c: Config, workers: nat, turns: seq<Turn>, b: nat, more: seq<Turn>)
    requires b < |c.backends| && c.settings.trialLimit <= 0
    requires Play(c, workers, turns).circuits.breakers[b].state == HalfOpen && !Owed(Play(c, workers, turns), b)
    ensures Play(c, workers, turns + more).circuits.breakers[b].state == HalfOpen
    ensures !Owed(Play(c, workers, turns + more), b)
    decreases |more|
  {
    hide Owed, Move;
    if more == [] {
      assert turns + more == turns;
    } else {
      var n := |more| - 1;
      var all := turns + more;
      assert all[..|all| - 1] == turns + more[..n];
      StuckForever(c, workers, turns, b, more[..n]);
      var t := more[n];
      if t.worker < workers { StuckStays(c, Play(c, workers, turns + more[..n]), t.worker, t.input, b); }
    }
  }

  /**
    For every trial limit and from every reachable state: a half-open breaker can still be settled
    if and only if some worker owes it a report.
   */
  lemma HalfOpenLeavesIff(c: Config, workers: nat, turns: seq<Turn>, b: nat)
    requires b < |c.backends| && Play(c, workers, turns).circuits.breakers[b].state == HalfOpen
    ensures CanLeave(c, workers, turns, b) <==> Owed(Play(c, workers, turns), b)
  {
    hide Play, Count;
    var s := Play(c, workers, turns);
    if Owed(s, b) {
      var i :| 0 <= i < |s.workers| && Unreported(s.workers[i].stage) && s.workers[i].stage.b == b;
      var more := ReportCanArrive(c, workers, turns, b, i);
    } else if c.settings.trialLimit >= 1 {
      var i, more := HalfOpenNeverStranded(c, workers, turns, b);
      assert false;
    } else {
      forall more: seq<Turn>
        ensures Play(c, workers, turns + more).circuits.breakers[b].state == HalfOpen
      {
        StuckForever(c, workers, turns, b, more);
      }
    }
  }

  const NO_TRIALS: Config := Config([Address("", 0)], Settings(1, 0, 0), 0, 0, 0, 0)

  function Again(n: nat): seq<Turn> {
    if n == 0 then [] else Again(n - 1) + [Turn(0, Input(0, 0, -1, false, false, 0, 0))]
  }

  lemma NextTime(n: nat)
    ensures Play(NO_TRIALS, 1, Again(n + 1)) ==
            Move(NO_TRIALS, Play(NO_TRIALS, 1, Again(n)), 0, Input(0, 0, -1, false, false, 0, 0))
  {
    hide Play, Move;
    PlayMore(NO_TRIALS, 1, Again(n), Turn(0, Input(0, 0, -1, false, false, 0, 0)));
  }

  ghost predicate Reached(n: nat, g: Stage, k: Breaker) {
    var s := Play(NO_TRIALS, 1, Again(n));
    s.workers[0].stage == g && s.circuits.breakers[0] == k && s.fds.idle == map[]
  }

  lemma SetOut()
    ensures Reached(4, Counted(0, 0, 0), FRESH)
  {
    hide Play, Again, Key;
    NothingPlayed();
    NextTime(0);
    NextTime(1);
    NextTime(2);
    NextTime(3);
  }

  lemma FailToDial()
    ensures Reached(7, Answered(0, 0, 0, -1, false, false, 0), FRESH)
  {
    hide Play, Again, Key;
    SetOut();
    NextTime(4);
    NextTime(5);
    NextTime(6);
  }

  lemma TripOnce()
    ensures Reached(10, Resting, Trip(0))
  {
    hide Play, Again, Key;
    FailToDial();
    NextTime(7);
    NextTime(8);
    NextTime(9);
  }

  lemma NothingPlayed()
    ensures Play(NO_TRIALS, 1, Again(0)) == Initial(NO_TRIALS, 1)
  {
  }

  /** Without trial requests: one failed attempt, and the next ask leaves the breaker half-open for good. */
  lemma StrandedWithoutTrials()
    ensures Play(NO_TRIALS, 1, Again(13)).circuits.breakers[0].state == HalfOpen
    ensures !CanLeave(NO_TRIALS, 1, Again(13), 0)
  {
    hide Play, Again, CanLeave;
    AskAgain();
    HalfOpenLeavesIff(NO_TRIALS, 1, Again(13), 0);
  }

  lemma AskAgain()
    ensures Reached(13, Choosing(1), Trip(0).(state := HalfOpen))
  {
    hide Play, Again, Key;
    TripOnce();
    NextTime(10);
    NextTime(11);
    NextTime(12);
  }

  /** A backend's counter is the number of workers using it: never negative, never above the number of workers. */
  lemma ActiveIsExact(c: Config, workers: nat, turns: seq<Turn>, b: nat)
    requires b < |c.backends|
    ensures var s := Play(c, workers, turns);
            s.active[b] == Count(s.workers, ActiveOn(b)) && 0 <= s.active[b] <= workers
  {
    hide Play, Owned, TrialsCounted, EffortBounded, Count;
    var homes := PlayKeepsInvariant(c, workers, turns);
  }

  /** One forward sends at most maxRetries + 1 requests and sleeps at most the summed backoffs. */
  lemma EffortAlwaysBounded(c: Config, workers: nat, turns: seq<Turn>, i: nat)
    requires i < workers
    ensures var w := Play(c, workers, turns).workers[i];
            && w.sent <= Attempts(c)
            && w.slept <= TotalBackoff(c.base, c.cap, Retries(c))
            && w.slept <= Retries(c) * c.cap && w.slept <= c.base * (Pow2(Retries(c)) - 1)
  {
    hide Play, Owned, TrialsCounted, ActiveCounted, TotalBackoff;
    var homes := PlayKeepsInvariant(c, workers, turns);
    TotalBackoffBound(c.base, c.cap, Retries(c));
    assert EffortBounded(c, Play(c, workers, turns).workers[i]);
  }

  /**
    In every interleaving, a worker that rests after a forward has returned what the loop of one
    worker returns for the attempts it made, with none left out and none made too many: any
    answer but 502, 503 and 504 at once; one of these, or a gateway error for a lost answer,
    only in the last attempt; that all retries are exhausted exactly when the last attempt was
    refused by a breaker; and that no backend is healthy exactly when the last pick named none.
   */
  lemma OnlyFailuresAreRetried(c: Config, workers: nat, turns: seq<Turn>, i: nat)
    requires i < workers
    ensures var w := Play(c, workers, turns).workers[i]; var n := |w.attempts| - 1;
            && (forall k :: 0 <= k < n ==> WorthRetrying(w.attempts[k]))
            && (w.attempts == [] || n <= c.maxRetries)
            && (w.stage == Resting && w.reply == NoReply ==> w.attempts == [])
            && (w.stage == Resting && w.reply != NoReply ==>
                  && w.reply == Loop(c, 0, w.attempts)
                  && (w.reply == Exhausted <==> c.maxRetries < 0 || (n == c.maxRetries && w.attempts[n] == Refused))
                  && (w.reply == NoBackend <==> n >= 0 && w.attempts[n] == NonePicked)
                  && (w.reply.BadGateway? <==> n >= 0 && n == c.maxRetries && w.attempts[n] == Lost)
                  && (w.reply.Passed? <==> n >= 0 && w.attempts[n].Got?)
                  && (w.reply.Passed? ==> w.reply.status == w.attempts[n].status && w.reply.n == n
                                          && (WorthRetrying(w.attempts[n]) ==> n == c.maxRetries)))
  {
    hide Play, Owned, TrialsCounted, ActiveCounted, EffortBounded, Loop;
    var homes := PlayKeepsInvariant(c, workers, turns);
    var w := Play(c, workers, turns).workers[i];
    assert AttemptsSound(c, w);
    if w.stage == Resting && w.reply != NoReply { ReplyIsLoop(c, w); }
  }

  /** Over every turn, a worker's attempts grow by what that turn brought it, and by nothing else. */
  lemma AttemptsAreRecorded(c: Config, workers: nat, turns: seq<Turn>, t: Turn, i: nat)
    requires i < workers
    ensures var s := Play(c, workers, turns); var w := s.workers[i];
            Play(c, workers, turns + [t]).workers[i].attempts ==
            if t.worker != i then w.attempts
            else if w.stage == Resting then []
            else w.attempts + Recorded(c, s.circuits, w.stage, t.input)
  {
    hide Play, Next, Recorded;
    var s := Play(c, workers, turns);
    AnyTurn(c, workers, turns, t);
    if t.worker == i { NextRecords(c, s.circuits, s.fds, s.workers[i], t.input); }
  }

  lemma AnyTurn(c: Config, workers: nat, turns: seq<Turn>, t: Turn)
    ensures var s := Play(c, workers, turns);
            Play(c, workers, turns + [t]) == if t.worker < workers then Move(c, s, t.worker, t.input) else s
  {
    hide Move;
    assert (turns + [t])[..|turns|] == turns;
  }

  /** In every interleaving, each possible turn of a worker in a forward brings its end nearer. */
  lemma ForwardsEnd(c: Config, workers: nat, turns: seq<Turn>, t: Turn)
    ensures var s := Play(c, workers, turns);
            t.worker < workers && s.workers[t.worker].stage != Resting
            && !Impossible(c, s.fds, s.workers[t.worker].stage, t.input) ==>
              0 <= MovesLeft(c, Play(c, workers, turns + [t]).workers[t.worker].stage)
                < MovesLeft(c, s.workers[t.worker].stage) <= 10 * Attempts(c) + 1
  {
    hide Play, Next, Owned, TrialsCounted, ActiveCounted, EffortBounded, Impossible;
    var s := Play(c, workers, turns);
    AnyTurn(c, workers, turns, t);
    if t.worker < workers && s.workers[t.worker].stage != Resting
       && !Impossible(c, s.fds, s.workers[t.worker].stage, t.input) {
      var homes := PlayKeepsInvariant(c, workers, turns);
      assert AttemptsSound(c, s.workers[t.worker]);
      NextProgresses(c, s.circuits, s.fds, s.workers[t.worker], t.input);
    }
  }

  // ----- Shutdown: the workers have joined and the pool is closed (src/core/Gateway.cpp:527-531)

  /** Closes the descriptors of `q` one by one. */
  function CloseEach(d: Descriptors, q: seq<int>): Descriptors
    decreases |q|
  {
    if q == [] then d else CloseEach(Close(d, q[0]), q[1..])
  }

  /** `closeAll`: the deques in any order. */
  function CloseDeques(d: Descriptors, order: seq<string>): Descriptors
    decreases |order|
  {
    if order == [] then d
    else
      var d' := CloseEach(d, Deque(d.idle, order[0]));
      CloseDeques(d'.(idle := d'.idle[order[0] := []]), order[1..])
  }

  lemma {:induction false} CloseEachCloses(d: Descriptors, q: seq<int>)
    requires Distinct(q) && forall fd :: fd in q ==> fd in d.open
    ensures var d' := CloseEach(d, q);
            && d'.idle == d.idle && d'.peers == d.peers && d'.strayClose == d.strayClose
            && (forall fd :: fd in d'.open <==> fd in d.open && fd !in q)
    decreases |q|
  {
    if q == [] {
    } else {
      assert forall fd :: fd in q <==> fd == q[0] || fd in q[1..];
      assert q[0] !in q[1..];
      CloseEachCloses(Close(d, q[0]), q[1..]);
    }
  }

  /** Only idle descriptors are open, each in one place of one deque. */
  ghost predicate OnlyIdle(d: Descriptors) {
    && !d.strayClose
    && (forall fd :: fd in d.open <==> exists k :: k in d.idle && fd in d.idle[k])
    && (forall k :: k in d.idle ==> Distinct(d.idle[k]))
    && (forall k, l, fd :: k in d.idle && l in d.idle && fd in d.idle[k] && fd in d.idle[l] ==> k == l)
  }

  lemma CloseOneDeque(d: Descriptors, key: string)
    requires OnlyIdle(d) && key in d.idle
    ensures var d' := CloseEach(d, Deque(d.idle, key)); OnlyIdle(d'.(idle := d'.idle[key := []]))
  {
    hide CloseEach;
    var q := d.idle[key];
    CloseEachCloses(d, q);
    var e := CloseEach(d, q);
    var e' := e.(idle := e.idle[key := []]);
    forall fd
      ensures fd in e'.open <==> exists k :: k in e'.idle && fd in e'.idle[k]
    {
      if fd in e'.open {
        var k :| k in d.idle && fd in d.idle[k];
        assert k in e'.idle && fd in e'.idle[k];
      }
      if k :| k in e'.idle && fd in e'.idle[k] {
        assert k in d.idle && fd in d.idle[k];
        assert k != key;
      }
    }
  }

  lemma {:induction false} CloseDequesCloses(d: Descriptors, order: seq<string>)
    requires OnlyIdle(d) && forall k :: k in order ==> k in d.idle
    ensures OnlyIdle(CloseDeques(d, order))
    ensures CloseDeques(d, order).idle.Keys == d.idle.Keys
    ensures forall k :: k in d.idle ==> CloseDeques(d, order).idle[k] == if k in order then [] else d.idle[k]
    decreases |order|
  {
    hide OnlyIdle;
    if order == [] {
    } else {
      var key := order[0];
      CloseOneDeque(d, key);
      KeepsIdle(d, Deque(d.idle, key));
      var d' := CloseEach(d, Deque(d.idle, key));
      CloseDequesCloses(d'.(idle := d'.idle[key := []]), order[1..]);
      assert forall k :: k in order <==> k == key || k in order[1..];
    }
  }

  lemma {:induction false} KeepsIdle(d: Descriptors, q: seq<int>)
    ensures CloseEach(d, q).idle == d.idle
    decreases |q|
  {
    if q == [] {
    } else {
      KeepsIdle(Close(d, q[0]), q[1..]);
    }
  }

  /** Once every worker rests, every counter is zero, and closing the pool leaves no descriptor open. */
  lemma ShutdownClosesEverything(c: Config, workers: nat, turns: seq<Turn>, order: seq<string>)
    requires var s := Play(c, workers, turns);
             && (forall i :: 0 <= i < workers ==> s.workers[i].stage == Resting)
             && (forall k :: k in order <==> k in s.fds.idle)
    ensures var s := Play(c, workers, turns);
            && (forall b :: 0 <= b < |c.backends| ==> s.active[b] == 0)
            && CloseDeques(s.fds, order).open == {} && !CloseDeques(s.fds, order).strayClose
  {
    hide Play, CloseDeques, Count, Key;
    var s := Play(c, workers, turns);
    DescriptorsAlwaysSafe(c, workers, turns);
    forall b | 0 <= b < |c.backends|
      ensures s.active[b] == 0
    {
      ActiveIsExact(c, workers, turns, b);
      CountZero(s.workers, ActiveOn(b));
    }
    assert forall fd :: !HeldSomewhere(s, fd);
    assert forall fd :: fd in s.fds.open <==> IdleSomewhere(s, fd);
    assert OnlyIdle(s.fds);
    CloseDequesCloses(s.fds, order);
    var e := CloseDeques(s.fds, order);
    assert forall k :: k in e.idle ==> e.idle[k] == [];
    assert forall fd :: fd !in e.open;
  }

  // ----- The same descriptors, in the same order, as `CloseAll` closes

  lemma {:induction false} CloseEachAppend(d: Descriptors, a: seq<int>, b: seq<int>)
    ensures CloseEach(d, a + b) == CloseEach(CloseEach(d, a), b)
    decreases |a|
  {
    hide Close;
    if a == [] {
      assert a + b == b;
    } else {
      assert (a + b)[1..] == a[1..] + b;
      CloseEachAppend(Close(d, a[0]), a[1..], b);
    }
  }

  lemma {:induction false} CloseEachAside(d: Descriptors, idle: Idle, q: seq<int>)
    ensures CloseEach(d.(idle := idle), q) == CloseEach(d, q).(idle := idle)
    decreases |q|
  {
    if q == [] {
    } else {
      assert Close(d.(idle := idle), q[0]) == Close(d, q[0]).(idle := idle);
      CloseEachAside(Close(d, q[0]), idle, q[1..]);
    }
  }

  lemma {:induction false} GatheredFront(idle: Idle, key: string, rest: seq<string>)
    ensures Gathered(idle, [key] + rest) == Deque(idle, key) + Gathered(idle, rest)
    decreases |rest|
  {
    var order := [key] + rest;
    if rest == [] {
      assert order[..0] == [] && Gathered(idle, order[..0]) == [];
    } else {
      var n := |rest| - 1;
      assert order[..|order| - 1] == [key] + rest[..n];
      GatheredFront(idle, key, rest[..n]);
    }
  }

  lemma {:induction false} GatheredElsewhere(idle: Idle, key: string, order: seq<string>)
    requires key !in order
    ensures Gathered(idle[key := []], order) == Gathered(idle, order)
    decreases |order|
  {
    if order == [] {
    } else {
      GatheredElsewhere(idle, key, order[..|order| - 1]);
    }
  }

  /** Closing the pool deque by deque is closing the gathered descriptors one by one. */
  lemma {:induction false} CloseDequesGathered(d: Descriptors, order: seq<string>)
    requires forall i, j :: 0 <= i < j < |order| ==> order[i] != order[j]
    ensures CloseDeques(d, order).open == CloseEach(d, Gathered(d.idle, order)).open
    ensures CloseDeques(d, order).strayClose == CloseEach(d, Gathered(d.idle, order)).strayClose
    decreases |order|
  {
    hide Close, Gathered, CloseEach, Deque;
    if order == [] {
      NothingGathered(d);
    } else {
      var key, rest := order[0], order[1..];
      var q := Deque(d.idle, key);
      var one := CloseEach(d, q);
      KeepsIdle(d, q);
      var next := one.(idle := d.idle[key := []]);
      assert order == [key] + rest;
      GatheredFront(d.idle, key, rest);
      GatheredElsewhere(d.idle, key, rest);
      CloseDequesGathered(next, rest);
      CloseEachAside(one, d.idle[key := []], Gathered(d.idle, rest));
      CloseEachAppend(d, q, Gathered(d.idle, rest));
    }
  }

  lemma NothingGathered(d: Descriptors)
    ensures Gathered(d.idle, []) == [] && CloseEach(d, []) == d
  {
  }
}
