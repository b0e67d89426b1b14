/**
  `forwardWithResilience` (src/core/Gateway.cpp:462-510) run by any number of workers at once:
  every worker moves at the points where it takes a lock or touches a shared counter, and
  the moves of different workers interleave freely. Picks, clock readings, dial results, backend
  answers and random delays are arbitrary inputs of each move.
 */
module Forwarding {
  import opened Breakers
  import opened Pool
  import opened Retry

  datatype Config = Config(
    backends: seq<Address>, settings: Settings, maxIdle: nat, maxRetries: int, base: nat, cap: nat)

  // `n` is the attempt; `trial` is the half-open period that admitted the request, 0 for none;
  // `fd` is negative when dialling failed.
  datatype Stage =
    | Resting
    | Choosing(n: nat)
    | Picked(n: nat, b: nat)
    | Allowed(n: nat, b: nat, trial: nat)
    | Counted(n: nat, b: nat, trial: nat)
    | Dialling(n: nat, b: nat, trial: nat)
    | Connected(n: nat, b: nat, trial: nat, fd: int)
    | Answered(n: nat, b: nat, trial: nat, fd: int, ok: bool, reusable: bool, status: int)
    | Uncounted(n: nat, b: nat, trial: nat, fd: int, ok: bool, reusable: bool, status: int)
    | Reported(n: nat, b: nat, fd: int, reusable: bool, status: int)
    | Failing(n: nat, b: nat, trial: nat)
    | Pausing(n: nat)

  // What came of one attempt: a response, none from a backend that was asked, a refusal by its
  // breaker, or no backend to ask.
  datatype Attempt = Got(status: int) | Lost | Refused | NonePicked

  // What a forward returns, with the attempt that decided it.
  datatype Reply = NoReply | Passed(n: nat, status: int) | BadGateway(n: nat) | NoBackend | Exhausted

  // Requests sent, time slept, attempts and result of the current forward.
  datatype Worker = Worker(stage: Stage, sent: nat, slept: nat, attempts: seq<Attempt>, reply: Reply)

  const IDLE: Worker := Worker(Resting, 0, 0, [], NoReply)

  // `epochs` numbers the half-open periods of each breaker.
  datatype Circuits = Circuits(breakers: seq<Breaker>, epochs: seq<nat>)

  // `peers` remembers what a descriptor was dialled for; `strayClose` is set by closing a
  // descriptor that is not open.
  datatype Descriptors = Descriptors(idle: Idle, open: set<int>, peers: map<int, Address>, strayClose: bool)

  datatype World = World(workers: seq<Worker>, circuits: Circuits, active: seq<int>, fds: Descriptors)

  datatype Input = Input(backend: int, now: int, fd: int, ok: bool, reusable: bool, status: int, delay: nat)

  function Initial(c: Config, workers: nat): World {
    var k := |c.backends|;
    World(seq(workers, _ => IDLE), Circuits(seq(k, _ => FRESH), seq(k, _ => 0)), seq(k, _ => 0),
          Descriptors(map[], {}, map[], false))
  }

  predicate OnBackend(g: Stage) {
    !g.Resting? && !g.Choosing? && !g.Pausing?
  }

  predicate Shaped(c: Config, s: World) {
    && |s.circuits.breakers| == |c.backends| && |s.circuits.epochs| == |c.backends| && |s.active| == |c.backends|
    && forall i :: 0 <= i < |s.workers| && OnBackend(s.workers[i].stage) ==> s.workers[i].stage.b < |c.backends|
  }

  // ----- Circuit breakers

  function AskCircuit(c: Config, k: Circuits, b: nat, now: int): Admission
    requires b < |k.breakers|
  {
    Admit(k.breakers[b], c.settings, now)
  }

  function NextEpoch(c: Config, k: Circuits, b: nat, now: int): nat
    requires b < |k.breakers| && b < |k.epochs|
  {
    if k.breakers[b].state == Open && AskCircuit(c, k, b, now).breaker.state == HalfOpen then k.epochs[b] + 1
    else k.epochs[b]
  }

  function MoveCircuits(c: Config, k: Circuits, g: Stage, now: int): (k': Circuits)
    requires OnBackend(g) ==> g.b < |k.breakers| && g.b < |k.epochs|
    ensures |k'.breakers| == |k.breakers| && |k'.epochs| == |k.epochs|
  {
    match g
    case Picked(_, b) =>
      Circuits(k.breakers[b := AskCircuit(c, k, b, now).breaker], k.epochs[b := NextEpoch(c, k, b, now)])
    case Uncounted(_, b, _, _, ok, _, _) =>
      if ok then k.(breakers := k.breakers[b := Succeed(k.breakers[b])]) else k
    case Failing(_, b, _) => k.(breakers := k.breakers[b := Fail(k.breakers[b], c.settings, now)])
    case _ => k
  }

  // ----- Counters of connections in use

  function MoveActive(active: seq<int>, g: Stage): (a: seq<int>)
    requires OnBackend(g) ==> g.b < |active|
    ensures |a| == |active|
  {
    match g
    case Allowed(_, b, _) => active[b := active[b] + 1]
    case Answered(_, b, _, _, _, _, _) => active[b := active[b] - 1]
    case _ => active
  }

  // ----- Descriptors

  function Close(d: Descriptors, fd: int): Descriptors {
    if fd in d.open then d.(open := d.open - {fd}) else d.(strayClose := true)
  }

  function MoveFds(c: Config, d: Descriptors, g: Stage, fresh_: int): Descriptors
    requires OnBackend(g) ==> g.b < |c.backends|
  {
    match g
    case Counted(_, b, _) => d.(idle := TakeIdle(d.idle, Key(c.backends[b])).0)
    case Dialling(_, b, _) =>
      if fresh_ < 0 || fresh_ in d.open then d
      else d.(open := d.open + {fresh_}, peers := d.peers[fresh_ := c.backends[b]])
    case Uncounted(_, _, _, fd, ok, _, _) => if !ok && fd >= 0 then Close(d, fd) else d
    case Reported(_, b, fd, reusable, _) =>
      if !reusable then Close(d, fd)
      else
        var r := PutBack(d.idle, Key(c.backends[b]), fd, c.maxIdle);
        if r.closed then Close(d.(idle := r.idle), fd) else d.(idle := r.idle)
    case _ => d
  }

  // ----- The worker itself

  /** Whether an answer is returned once its descriptor is given back (src/core/Gateway.cpp:489-493). */
  predicate ReturnsAnswer(c: Config, n: nat, status: int) {
    status < 500 || n >= c.maxRetries || !IsRetryable(status)
  }

  /** An input the environment cannot give leaves the worker where it is. */
  function Next(c: Config, k: Circuits, d: Descriptors, w: Worker, in_: Input): (w': Worker)
    requires |k.breakers| == |k.epochs| == |c.backends|
    requires OnBackend(w.stage) ==> w.stage.b < |c.backends|
    ensures OnBackend(w'.stage) ==> w'.stage.b < |c.backends|
  {
    match w.stage
    case Resting => IDLE.(stage := Choosing(0))
    case Choosing(n) =>
      if n > c.maxRetries then w.(stage := Resting, reply := Exhausted)
      else if in_.backend < 0 then w.(stage := Resting, reply := NoBackend, attempts := w.attempts + [NonePicked])
      else if in_.backend < |c.backends| then w.(stage := Picked(n, in_.backend))
      else w
    case Picked(n, b) =>
      var a := AskCircuit(c, k, b, in_.now);
      if !a.allowed then w.(stage := Choosing(n + 1), attempts := w.attempts + [Refused])
      else w.(stage := Allowed(n, b, if a.breaker.state == HalfOpen then NextEpoch(c, k, b, in_.now) else 0))
    case Allowed(n, b, trial) => w.(stage := Counted(n, b, trial))
    case Counted(n, b, trial) =>
      var taken := TakeIdle(d.idle, Key(c.backends[b])).1;
      w.(stage := if taken.Some? then Connected(n, b, trial, taken.value) else Dialling(n, b, trial))
    case Dialling(n, b, trial) =>
      if in_.fd < 0 then w.(stage := Connected(n, b, trial, -1))
      else if in_.fd in d.open then w
      else w.(stage := Connected(n, b, trial, in_.fd))
    case Connected(n, b, trial, fd) =>
      var ok := fd >= 0 && in_.ok;
      w.(stage := Answered(n, b, trial, fd, ok, in_.reusable, in_.status),
         sent := if fd >= 0 then w.sent + 1 else w.sent,
         attempts := w.attempts + [if ok then Got(in_.status) else Lost])
    case Answered(n, b, trial, fd, ok, reusable, status) =>
      w.(stage := Uncounted(n, b, trial, fd, ok, reusable, status))
    case Uncounted(n, b, trial, fd, ok, reusable, status) =>
      w.(stage := if ok then Reported(n, b, fd, reusable, status) else Failing(n, b, trial))
    case Reported(n, _, _, _, status) =>
      if ReturnsAnswer(c, n, status) then w.(stage := Resting, reply := Passed(n, status)) else w.(stage := Pausing(n))
    case Failing(n, _, _) =>
      if n >= c.maxRetries then w.(stage := Resting, reply := BadGateway(n)) else w.(stage := Pausing(n))
    case Pausing(n) =>
      if in_.delay > Backoff(c.base, c.cap, n) then w
      else w.(stage := Choosing(n + 1), slept := w.slept + in_.delay)
  }

  /** One move of worker `i`. */
  function Move(c: Config, s: World, i: nat, in_: Input): (s': World)
    requires Shaped(c, s) && i < |s.workers|
    ensures Shaped(c, s') && |s'.workers| == |s.workers|
  {
    var w := s.workers[i];
    World(s.workers[i := Next(c, s.circuits, s.fds, w, in_)],
          MoveCircuits(c, s.circuits, w.stage, in_.now),
          MoveActive(s.active, w.stage),
          MoveFds(c, s.fds, w.stage, in_.fd))
  }

  // ----- Counting workers

  datatype Tag = ActiveOn(b: nat) | TrialOn(b: nat, epoch: nat) | OwesOn(b: nat)

  predicate Unreported(g: Stage) {
    g.Allowed? || g.Counted? || g.Dialling? || g.Connected? || g.Answered? || g.Uncounted? || g.Failing?
  }

  /** Between count-up and count-down; admitted in a half-open period and not yet reported; or admitted at all and not yet reported. */
  predicate Has(g: Stage, t: Tag) {
    match t
    case ActiveOn(b) => (g.Counted? || g.Dialling? || g.Connected? || g.Answered?) && g.b == b
    case TrialOn(b, epoch) => Unreported(g) && g.b == b && g.trial == epoch
    case OwesOn(b) => Unreported(g) && g.b == b
  }

  function Count(ws: seq<Worker>, t: Tag): (n: nat)
    ensures n <= |ws|
  {
    if ws == [] then 0 else (if Has(ws[0].stage, t) then 1 else 0) + Count(ws[1..], t)
  }

  lemma {:induction false} CountUpdate(ws: seq<Worker>, i: nat, w: Worker, t: Tag)
    requires i < |ws|
    ensures Count(ws[i := w], t) ==
            Count(ws, t) - (if Has(ws[i].stage, t) then 1 else 0) + (if Has(w.stage, t) then 1 else 0)
  {
    hide Has;
    if i == 0 {
      assert ws[i := w][1..] == ws[1..];
    } else {
      assert ws[i := w][1..] == ws[1..][i - 1 := w];
      CountUpdate(ws[1..], i - 1, w, t);
    }
  }

  lemma {:induction false} CountPositive(ws: seq<Worker>, t: Tag) returns (i: nat)
    requires Count(ws, t) > 0
    ensures i < |ws| && Has(ws[i].stage, t)
  {
    hide Has;
    if Has(ws[0].stage, t) {
      i := 0;
    } else {
      i := CountPositive(ws[1..], t);
      i := i + 1;
    }
  }

  lemma {:induction false} CountZero(ws: seq<Worker>, t: Tag)
    requires forall i :: 0 <= i < |ws| ==> !Has(ws[i].stage, t)
    ensures Count(ws, t) == 0
  {
    hide Has;
    if ws == [] {
    } else {
      assert forall i :: 0 <= i < |ws[1..]| ==> ws[1..][i] == ws[i + 1];
      CountZero(ws[1..], t);
    }
  }

  // ----- Active connections

  predicate ActiveCounted(c: Config, s: World) {
    && Shaped(c, s)
    && forall b :: 0 <= b < |c.backends| ==> s.active[b] == Count(s.workers, ActiveOn(b))
  }

  lemma MoveKeepsActive(c: Config, s: World, i: nat, in_: Input)
    requires ActiveCounted(c, s) && i < |s.workers|
    ensures ActiveCounted(c, Move(c, s, i, in_))
  {
    hide Count, MoveCircuits, MoveFds, MoveActive, Next, Has;
    var w, s' := s.workers[i], Move(c, s, i, in_);
    forall b | 0 <= b < |c.backends|
      ensures s'.active[b] == Count(s'.workers, ActiveOn(b))
    {
      CountUpdate(s.workers, i, s'.workers[i], ActiveOn(b));
      ActiveStep(c, s.circuits, s.fds, s.active, w, in_, b);
    }
  }

  lemma ActiveStep(c: Config, k: Circuits, d: Descriptors, active: seq<int>, w: Worker, in_: Input, b: nat)
    requires |k.breakers| == |k.epochs| == |c.backends| == |active| && b < |c.backends|
    requires OnBackend(w.stage) ==> w.stage.b < |c.backends|
    ensures MoveActive(active, w.stage)[b] - active[b] ==
            (if Has(Next(c, k, d, w, in_).stage, ActiveOn(b)) then 1 else 0) - (if Has(w.stage, ActiveOn(b)) then 1 else 0)
  {
    hide Backoff, TakeIdle, AskCircuit, NextEpoch, Key;
  }

  // ----- Half-open trials

  predicate TrialsOf(c: Config, s: World, b: nat)
    requires Shaped(c, s) && b < |c.backends|
  {
    && s.circuits.epochs[b] >= 1
    && 1 <= s.circuits.breakers[b].inFlight <= c.settings.trialLimit
    && s.circuits.breakers[b].inFlight == Count(s.workers, TrialOn(b, s.circuits.epochs[b]))
  }

  predicate PastTrials(s: World, i: nat)
    requires i < |s.workers|
  {
    var g := s.workers[i].stage;
    Unreported(g) ==> g.b < |s.circuits.epochs| && g.trial <= s.circuits.epochs[g.b]
  }

  predicate TrialsCounted(c: Config, s: World) {
    && Shaped(c, s)
    && (forall i :: 0 <= i < |s.workers| ==> PastTrials(s, i))
    && (forall b :: 0 <= b < |c.backends| && s.circuits.breakers[b].state == HalfOpen ==> TrialsOf(c, s, b))
  }

  /** No worker belongs to a period that has not begun. */
  lemma NoFutureTrials(c: Config, s: World, b: nat, epoch: nat)
    requires TrialsCounted(c, s) && b < |c.backends| && epoch > s.circuits.epochs[b]
    ensures Count(s.workers, TrialOn(b, epoch)) == 0
  {
    forall i | 0 <= i < |s.workers|
      ensures !Has(s.workers[i].stage, TrialOn(b, epoch))
    {
      assert PastTrials(s, i);
    }
    CountZero(s.workers, TrialOn(b, epoch));
  }

  predicate AsksOrReports(g: Stage) {
    g.Picked? || g.Failing? || (g.Uncounted? && g.ok)
  }

  /** A move that neither asks a breaker nor reports to it keeps the worker's trial. */
  lemma QuietStep(c: Config, k: Circuits, d: Descriptors, w: Worker, in_: Input)
    requires |k.breakers| == |k.epochs| == |c.backends|
    requires OnBackend(w.stage) ==> w.stage.b < |c.backends|
    requires !AsksOrReports(w.stage)
    ensures MoveCircuits(c, k, w.stage, in_.now) == k
    ensures var g := Next(c, k, d, w, in_).stage;
            && (Unreported(g) <==> Unreported(w.stage))
            && (Unreported(g) ==> g.b == w.stage.b && g.trial == w.stage.trial)
  {
    hide Backoff, TakeIdle, AskCircuit, NextEpoch, Key;
  }

  lemma QuietKeepsTrials(c: Config, s: World, i: nat, in_: Input)
    requires TrialsCounted(c, s) && i < |s.workers| && !AsksOrReports(s.workers[i].stage)
    ensures TrialsCounted(c, Move(c, s, i, in_))
  {
    hide Count, MoveCircuits, MoveFds, MoveActive, Next;
    var w, s' := s.workers[i], Move(c, s, i, in_);
    QuietStep(c, s.circuits, s.fds, w, in_);
    forall j | 0 <= j < |s'.workers|
      ensures PastTrials(s', j)
    {
      assert PastTrials(s, j);
    }
    forall b | 0 <= b < |c.backends| && s'.circuits.breakers[b].state == HalfOpen
      ensures TrialsOf(c, s', b)
    {
      assert TrialsOf(c, s, b);
      CountUpdate(s.workers, i, s'.workers[i], TrialOn(b, s.circuits.epochs[b]));
    }
  }

  lemma ReportKeepsTrials(c: Config, s: World, i: nat, in_: Input)
    requires TrialsCounted(c, s) && i < |s.workers|
    requires AsksOrReports(s.workers[i].stage) && !s.workers[i].stage.Picked?
    ensures TrialsCounted(c, Move(c, s, i, in_))
  {
    hide Count, MoveFds, MoveActive;
    var g, s' := s.workers[i].stage, Move(c, s, i, in_);
    assert s'.circuits.epochs == s.circuits.epochs && !Unreported(s'.workers[i].stage);
    assert s'.circuits.breakers[g.b].state != HalfOpen;
    forall j | 0 <= j < |s'.workers|
      ensures PastTrials(s', j)
    {
      assert PastTrials(s, j);
    }
    forall b | 0 <= b < |c.backends| && s'.circuits.breakers[b].state == HalfOpen
      ensures TrialsOf(c, s', b)
    {
      assert b != g.b;
      assert TrialsOf(c, s, b);
      CountUpdate(s.workers, i, s'.workers[i], TrialOn(b, s.circuits.epochs[b]));
    }
  }

  lemma AskKeepsTrials(c: Config, s: World, i: nat, in_: Input)
    requires TrialsCounted(c, s) && i < |s.workers| && c.settings.trialLimit >= 1
    requires s.workers[i].stage.Picked?
    ensures TrialsCounted(c, Move(c, s, i, in_))
  {
    hide Count, MoveFds, MoveActive;
    var g, s' := s.workers[i].stage, Move(c, s, i, in_);
    var e, e' := s.circuits.epochs, s'.circuits.epochs;
    assert e' == e[g.b := NextEpoch(c, s.circuits, g.b, in_.now)];
    forall j | 0 <= j < |s'.workers|
      ensures PastTrials(s', j)
    {
      assert PastTrials(s, j);
    }
    forall b | 0 <= b < |c.backends| && s'.circuits.breakers[b].state == HalfOpen
      ensures TrialsOf(c, s', b)
    {
      CountUpdate(s.workers, i, s'.workers[i], TrialOn(b, e'[b]));
      if b == g.b && s.circuits.breakers[b].state == Open {
        NoFutureTrials(c, s, b, e'[b]);
      } else {
        assert TrialsOf(c, s, b);
      }
    }
  }

  lemma MoveKeepsTrials(c: Config, s: World, i: nat, in_: Input)
    requires TrialsCounted(c, s) && i < |s.workers| && c.settings.trialLimit >= 1
    ensures TrialsCounted(c, Move(c, s, i, in_))
  {
    hide Move, TrialsCounted;
    assert Shaped(c, s) by { TrialsShaped(c, s); }
    if s.workers[i].stage.Picked? {
      AskKeepsTrials(c, s, i, in_);
    } else if AsksOrReports(s.workers[i].stage) {
      ReportKeepsTrials(c, s, i, in_);
    } else {
      QuietKeepsTrials(c, s, i, in_);
    }
  }

  lemma TrialsShaped(c: Config, s: World)
    requires TrialsCounted(c, s)
    ensures Shaped(c, s)
  {
  }

  // ----- Effort of one forward

  predicate Sent(g: Stage) {
    g.Answered? || g.Uncounted? || g.Reported? || g.Failing?
  }

  function Retries(c: Config): nat {
    if c.maxRetries < 0 then 0 else c.maxRetries
  }

  function Attempts(c: Config): nat {
    if c.maxRetries < 0 then 0 else c.maxRetries + 1
  }

  /** At most one request sent for each attempt and one backoff slept between attempts. */
  predicate EffortBounded(c: Config, w: Worker) {
    && w.sent <= Attempts(c) && w.slept <= TotalBackoff(c.base, c.cap, Retries(c))
    && match w.stage
       case Resting => true
       case Choosing(n) => w.sent <= n && (n <= Retries(c) ==> w.slept <= TotalBackoff(c.base, c.cap, n))
       case Pausing(n) => n < Retries(c) && w.sent <= n + 1 && w.slept <= TotalBackoff(c.base, c.cap, n)
       case g => g.n <= c.maxRetries && w.slept <= TotalBackoff(c.base, c.cap, g.n)
                 && w.sent <= g.n + if Sent(g) then 1 else 0
  }

  lemma NextKeepsEffort(c: Config, k: Circuits, d: Descriptors, w: Worker, in_: Input)
    requires |k.breakers| == |k.epochs| == |c.backends|
    requires OnBackend(w.stage) ==> w.stage.b < |c.backends|
    requires EffortBounded(c, w)
    ensures EffortBounded(c, Next(c, k, d, w, in_))
  {
    hide Backoff, TotalBackoff, TakeIdle, AskCircuit, NextEpoch, Key, IsRetryable;
    NoBackoff(c.base, c.cap);
    match w.stage
    case Picked(n, _) =>
      NextBackoff(c.base, c.cap, n);
    case Pausing(n) =>
      NextBackoff(c.base, c.cap, n);
      TotalBackoffGrows(c.base, c.cap, n + 1, Retries(c));
    case _ =>
  }

  lemma NextBackoff(base: nat, cap: nat, n: nat)
    ensures TotalBackoff(base, cap, n + 1) == TotalBackoff(base, cap, n) + Backoff(base, cap, n)
  {
  }

  lemma NoBackoff(base: nat, cap: nat)
    ensures TotalBackoff(base, cap, 0) == 0
  {
  }

  // ----- Which attempts are retried, and what is returned

  predicate WorthRetrying(a: Attempt) {
    a.Lost? || a.Refused? || (a.Got? && (a.status == 502 || a.status == 503 || a.status == 504))
  }

  predicate AllWorthRetrying(attempts: seq<Attempt>) {
    forall i :: 0 <= i < |attempts| ==> WorthRetrying(attempts[i])
  }

  /** `forwardWithResilience` for one worker by itself: what it returns, from attempt `n` on, given what comes of its attempts. */
  function Loop(c: Config, n: nat, attempts: seq<Attempt>): Reply
    decreases |attempts|
  {
    if n > c.maxRetries then Exhausted
    else if attempts == [] then NoReply
    else match attempts[0]
      case NonePicked => NoBackend
      case Refused => Loop(c, n + 1, attempts[1..])
      case Lost => if n == c.maxRetries then BadGateway(n) else Loop(c, n + 1, attempts[1..])
      case Got(status) =>
        if WorthRetrying(attempts[0]) && n < c.maxRetries then Loop(c, n + 1, attempts[1..]) else Passed(n, status)
  }

  lemma {:induction false} LoopGoesOn(c: Config, n: nat, before: seq<Attempt>, last: Attempt)
    requires AllWorthRetrying(before) && n + |before| <= c.maxRetries
    ensures Loop(c, n, before) == NoReply && Loop(c, n, before + [last]) == Loop(c, n + |before|, [last])
    decreases |before|
  {
    if before == [] {
      assert before + [last] == [last];
    } else {
      assert WorthRetrying(before[0]);
      assert (before + [last])[1..] == before[1..] + [last];
      LoopGoesOn(c, n + 1, before[1..], last);
    }
  }

  lemma LoopEnds(c: Config, n: nat, last: Attempt)
    requires n <= c.maxRetries
    ensures Loop(c, n, [last]) ==
            match last
            case NonePicked => NoBackend
            case Refused => if n == c.maxRetries then Exhausted else NoReply
            case Lost => if n == c.maxRetries then BadGateway(n) else NoReply
            case Got(status) => if WorthRetrying(last) && n < c.maxRetries then NoReply else Passed(n, status)
  {
    assert [last][1..] == [];
  }

  /** The last attempt is `a`, made as attempt `n`, and whatever came before was worth retrying. */
  predicate EndsWith(attempts: seq<Attempt>, a: Attempt, n: nat) {
    && |attempts| == n + 1 && attempts[n] == a && AllWorthRetrying(attempts[..n])
  }

  /** The last of these attempts was refused, or there were none. */
  predicate EndsRefused(attempts: seq<Attempt>) {
    attempts == [] || attempts[|attempts| - 1] == Refused
  }

  /** A finished forward has returned what the loop returns, and nothing was attempted after that was settled. */
  predicate RightReply(c: Config, w: Worker) {
    match w.reply
    case NoReply => w.attempts == []
    case Passed(n, status) =>
      n <= c.maxRetries && EndsWith(w.attempts, Got(status), n) && (WorthRetrying(Got(status)) ==> n == c.maxRetries)
    case BadGateway(n) => n == c.maxRetries && EndsWith(w.attempts, Lost, n)
    case NoBackend => 0 < |w.attempts| <= Attempts(c) && EndsWith(w.attempts, NonePicked, |w.attempts| - 1)
    case Exhausted => |w.attempts| == Attempts(c) && AllWorthRetrying(w.attempts) && EndsRefused(w.attempts)
  }

  predicate AttemptsSound(c: Config, w: Worker) {
    match w.stage
    case Resting => RightReply(c, w)
    case Answered(n, _, _, _, ok, _, status) =>
      n <= c.maxRetries && EndsWith(w.attempts, if ok then Got(status) else Lost, n)
    case Uncounted(n, _, _, _, ok, _, status) =>
      n <= c.maxRetries && EndsWith(w.attempts, if ok then Got(status) else Lost, n)
    case Reported(n, _, _, _, status) => n <= c.maxRetries && EndsWith(w.attempts, Got(status), n)
    case Failing(n, _, _) => n <= c.maxRetries && EndsWith(w.attempts, Lost, n)
    case Choosing(n) =>
      && |w.attempts| == n <= Attempts(c) && AllWorthRetrying(w.attempts)
      && (n > c.maxRetries ==> EndsRefused(w.attempts))
    case Pausing(n) => n < c.maxRetries && |w.attempts| == n + 1 && AllWorthRetrying(w.attempts)
    case g => g.n <= c.maxRetries && |w.attempts| == g.n && AllWorthRetrying(w.attempts)
  }

  lemma NextKeepsAttempts(c: Config, k: Circuits, d: Descriptors, w: Worker, in_: Input)
    requires |k.breakers| == |k.epochs| == |c.backends|
    requires OnBackend(w.stage) ==> w.stage.b < |c.backends|
    requires AttemptsSound(c, w)
    ensures AttemptsSound(c, Next(c, k, d, w, in_))
  {
    hide Backoff, TakeIdle, AskCircuit, NextEpoch, Key;
    var next := Next(c, k, d, w, in_).attempts;
    if |next| > |w.attempts| {
      assert next[..|w.attempts|] == w.attempts;
    }
  }

  /** A finished forward returned what the loop makes of its attempts, all of them and no fewer. */
  lemma ReplyIsLoop(c: Config, w: Worker)
    requires RightReply(c, w) && w.reply != NoReply
    ensures w.reply == Loop(c, 0, w.attempts)
    ensures w.attempts != [] ==> Loop(c, 0, w.attempts[..|w.attempts| - 1]) == NoReply
  {
    hide Loop;
    if w.attempts == [] {
      NothingTried(c);
    } else {
      var n := |w.attempts| - 1;
      var before, last := w.attempts[..n], w.attempts[n];
      assert w.attempts == before + [last];
      LoopGoesOn(c, 0, before, last);
      LoopEnds(c, n, last);
    }
  }

  lemma NothingTried(c: Config)
    ensures c.maxRetries < 0 ==> Loop(c, 0, []) == Exhausted
  {
  }

  /** What a move of this worker adds to its attempts. */
  function Recorded(c: Config, k: Circuits, g: Stage, in_: Input): seq<Attempt>
    requires OnBackend(g) ==> g.b < |k.breakers|
  {
    match g
    case Choosing(n) => if n <= c.maxRetries && in_.backend < 0 then [NonePicked] else []
    case Picked(_, b) => if !AskCircuit(c, k, b, in_.now).allowed then [Refused] else []
    case Connected(_, _, _, fd) => [if fd >= 0 && in_.ok then Got(in_.status) else Lost]
    case _ => []
  }

  /** Attempts are recorded as they happen, and never forgotten before the next forward begins. */
  lemma NextRecords(c: Config, k: Circuits, d: Descriptors, w: Worker, in_: Input)
    requires |k.breakers| == |k.epochs| == |c.backends|
    requires OnBackend(w.stage) ==> w.stage.b < |c.backends|
    ensures Next(c, k, d, w, in_).attempts ==
            if w.stage == Resting then [] else w.attempts + Recorded(c, k, w.stage, in_)
  {
    hide Backoff, TakeIdle, AskCircuit, NextEpoch, Key;
    assert w.attempts + [] == w.attempts;
  }

  // ----- Every forward comes to an end

  /** Inputs no environment gives: a pick beyond the list, a new descriptor that is open, a delay above the backoff. */
  predicate Impossible(c: Config, d: Descriptors, g: Stage, in_: Input) {
    match g
    case Choosing(n) => n <= c.maxRetries && in_.backend >= |c.backends|
    case Dialling(_, _, _) => in_.fd in d.open && in_.fd >= 0
    case Pausing(n) => in_.delay > Backoff(c.base, c.cap, n)
    case _ => false
  }

  /** Moves left within one attempt, and the most that all attempts left can take. */
  function MovesLeft(c: Config, g: Stage): int {
    match g
    case Resting => 0
    case Choosing(n) => 1 + 10 * (Attempts(c) - n)
    case Picked(n, _) => 10 * (Attempts(c) - n)
    case Allowed(n, _, _) => 10 * (Attempts(c) - n) - 1
    case Counted(n, _, _) => 10 * (Attempts(c) - n) - 2
    case Dialling(n, _, _) => 10 * (Attempts(c) - n) - 3
    case Connected(n, _, _, _) => 10 * (Attempts(c) - n) - 4
    case Answered(n, _, _, _, _, _, _) => 10 * (Attempts(c) - n) - 5
    case Uncounted(n, _, _, _, _, _, _) => 10 * (Attempts(c) - n) - 6
    case Reported(n, _, _, _, _) => 10 * (Attempts(c) - n) - 7
    case Failing(n, _, _) => 10 * (Attempts(c) - n) - 7
    case Pausing(n) => 10 * (Attempts(c) - n) - 8
  }

  /** Every possible move of a worker in a forward brings its end nearer. */
  lemma NextProgresses(c: Config, k: Circuits, d: Descriptors, w: Worker, in_: Input)
    requires |k.breakers| == |k.epochs| == |c.backends|
    requires OnBackend(w.stage) ==> w.stage.b < |c.backends|
    requires AttemptsSound(c, w) && w.stage != Resting && !Impossible(c, d, w.stage, in_)
    ensures 0 <= MovesLeft(c, Next(c, k, d, w, in_).stage) < MovesLeft(c, w.stage)
  {
    hide Backoff, TakeIdle, AskCircuit, NextEpoch, Key, AllWorthRetrying, IsRetryable, EndsWith;
  }
}
