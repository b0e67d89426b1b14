/** Who owns an open backend descriptor: exactly one worker or exactly one place in one idle deque. */
module Ownership {
  import opened Text
  import opened Pool
  import opened Retry
  import opened Forwarding

  datatype Home = AtWorker(i: nat) | AtPool(key: string)

  type Homes = map<int, Home>

  /** The descriptor a worker has in hand. */
  function Held(g: Stage): Option<int> {
    match g
    case Connected(_, _, _, fd) => if fd >= 0 then Some(fd) else None
    case Answered(_, _, _, fd, _, _, _) => if fd >= 0 then Some(fd) else None
    case Uncounted(_, _, _, fd, _, _, _) => if fd >= 0 then Some(fd) else None
    case Reported(_, _, fd, _, _) => Some(fd)
    case _ => None
  }

  predicate Distinct(q: seq<int>) {
    forall i, j :: 0 <= i < j < |q| ==> q[i] != q[j]
  }

  // ----- The invariant, with `homes` as the witness of ownership

  predicate WorkersOwn(ws: seq<Worker>, homes: Homes) {
    && (forall i :: 0 <= i < |ws| && Held(ws[i].stage).Some? ==>
          Held(ws[i].stage).value in homes && homes[Held(ws[i].stage).value] == AtWorker(i))
    && (forall fd :: fd in homes && homes[fd].AtWorker? ==>
          homes[fd].i < |ws| && Held(ws[homes[fd].i].stage) == Some(fd))
  }

  predicate PoolOwns(idle: Idle, homes: Homes, maxIdle: nat) {
    && (forall k, fd :: k in idle && fd in idle[k] ==> fd in homes && homes[fd] == AtPool(k))
    && (forall fd :: fd in homes && homes[fd].AtPool? ==> homes[fd].key in idle && fd in idle[homes[fd].key])
    && (forall k :: k in idle ==> Distinct(idle[k]) && |idle[k]| <= maxIdle)
  }

  predicate PeersMatch(c: Config, ws: seq<Worker>, d: Descriptors, homes: Homes) {
    forall fd :: fd in homes ==>
      && fd >= 0 && fd in d.peers
      && match homes[fd]
         case AtPool(k) => Key(d.peers[fd]) == k
         case AtWorker(i) => i < |ws| && OnBackend(ws[i].stage) && ws[i].stage.b < |c.backends| &&
                             d.peers[fd] == c.backends[ws[i].stage.b]
  }

  /** An answer counts as good only on a connection. */
  predicate GoodHasFd(ws: seq<Worker>) {
    forall i :: 0 <= i < |ws| ==>
      match ws[i].stage
      case Answered(_, _, _, fd, ok, _, _) => ok ==> fd >= 0
      case Uncounted(_, _, _, fd, ok, _, _) => ok ==> fd >= 0
      case Reported(_, _, fd, _, _) => fd >= 0
      case _ => true
  }

  predicate Owned(c: Config, s: World, homes: Homes) {
    && homes.Keys == s.fds.open && !s.fds.strayClose
    && WorkersOwn(s.workers, homes) && PoolOwns(s.fds.idle, homes, c.maxIdle)
    && PeersMatch(c, s.workers, s.fds, homes) && GoodHasFd(s.workers)
  }

  // ----- How each kind of move changes hands

  /** What the move of worker `i` does to the ownership map. */
  function NextHomes(c: Config, s: World, i: nat, in_: Input, homes: Homes): Homes
    requires Shaped(c, s) && i < |s.workers|
  {
    match s.workers[i].stage
    case Counted(_, b, _) =>
      var taken := TakeIdle(s.fds.idle, Key(c.backends[b])).1;
      if taken.Some? then homes[taken.value := AtWorker(i)] else homes
    case Dialling(_, _, _) => if in_.fd < 0 || in_.fd in s.fds.open then homes else homes[in_.fd := AtWorker(i)]
    case Uncounted(_, _, _, fd, ok, _, _) => if !ok && fd >= 0 then homes - {fd} else homes
    case Reported(_, b, fd, reusable, _) =>
      var key := Key(c.backends[b]);
      if !reusable || PutBack(s.fds.idle, key, fd, c.maxIdle).closed then homes - {fd} else homes[fd := AtPool(key)]
    case _ => homes
  }

  predicate Quiet(g: Stage) {
    !g.Counted? && !g.Dialling? && !g.Uncounted? && !g.Reported?
  }

  lemma QuietHolds(c: Config, s: World, i: nat, in_: Input)
    requires Shaped(c, s) && i < |s.workers| && Quiet(s.workers[i].stage)
    ensures var g, g' := s.workers[i].stage, Move(c, s, i, in_).workers[i].stage;
            && Held(g') == Held(g)
            && (Held(g).Some? ==> OnBackend(g) && OnBackend(g') && g'.b == g.b)
            && MoveFds(c, s.fds, g, in_.fd) == s.fds
  {
    hide Backoff, AskCircuit, NextEpoch, MoveCircuits, MoveActive, IsRetryable;
  }

  lemma KeepsGood(c: Config, s: World, i: nat, in_: Input)
    requires Shaped(c, s) && i < |s.workers| && GoodHasFd(s.workers)
    ensures GoodHasFd(Move(c, s, i, in_).workers)
  {
    hide Backoff, AskCircuit, NextEpoch, MoveCircuits, MoveActive, MoveFds, TakeIdle, IsRetryable;
  }

  lemma QuietKeepsOwned(c: Config, s: World, i: nat, in_: Input, homes: Homes)
    requires Shaped(c, s) && Owned(c, s, homes) && i < |s.workers| && Quiet(s.workers[i].stage)
    ensures Owned(c, Move(c, s, i, in_), homes)
  {
    hide Next, MoveFds, MoveCircuits, MoveActive, PoolOwns, GoodHasFd, Held;
    QuietHolds(c, s, i, in_);
    KeepsGood(c, s, i, in_);
  }

  // ----- Taking, dialling, closing, giving back, one component at a time

  lemma GainWorker(ws: seq<Worker>, homes: Homes, i: nat, w: Worker, fd: int)
    requires WorkersOwn(ws, homes) && i < |ws|
    requires Held(ws[i].stage).None? && Held(w.stage) == Some(fd)
    requires fd in homes ==> homes[fd].AtPool?
    ensures WorkersOwn(ws[i := w], homes[fd := AtWorker(i)])
  {
  }

  lemma LoseWorker(ws: seq<Worker>, homes: Homes, i: nat, w: Worker, fd: int)
    requires WorkersOwn(ws, homes) && i < |ws|
    requires Held(ws[i].stage) == Some(fd) && Held(w.stage).None?
    ensures WorkersOwn(ws[i := w], homes - {fd})
    ensures forall k :: WorkersOwn(ws[i := w], homes[fd := AtPool(k)])
  {
  }

  lemma SameWorker(ws: seq<Worker>, homes: Homes, i: nat, w: Worker)
    requires WorkersOwn(ws, homes) && i < |ws| && Held(ws[i].stage) == Held(w.stage)
    ensures WorkersOwn(ws[i := w], homes)
  {
  }

  lemma PoolTakes(idle: Idle, homes: Homes, maxIdle: nat, key: string, i: nat)
    requires PoolOwns(idle, homes, maxIdle) && TakeIdle(idle, key).1.Some?
    ensures var fd := TakeIdle(idle, key).1.value;
            && fd in homes && homes[fd] == AtPool(key)
            && PoolOwns(TakeIdle(idle, key).0, homes[fd := AtWorker(i)], maxIdle)
  {
    var q := idle[key];
    var fd, idle' := q[0], TakeIdle(idle, key).0;
    assert fd in q && q == [fd] + q[1..];
    assert fd !in q[1..];
    assert forall x :: x in q <==> x == fd || x in q[1..];
  }

  lemma PoolIgnores(idle: Idle, homes: Homes, maxIdle: nat, fd: int, h: Home)
    requires PoolOwns(idle, homes, maxIdle)
    requires (fd in homes ==> homes[fd].AtWorker?) && h.AtWorker?
    ensures PoolOwns(idle, homes - {fd}, maxIdle) && PoolOwns(idle, homes[fd := h], maxIdle)
  {
  }

  lemma PoolGains(idle: Idle, homes: Homes, maxIdle: nat, key: string, fd: int)
    requires PoolOwns(idle, homes, maxIdle)
    requires fd in homes && homes[fd].AtWorker?
    ensures var r := PutBack(idle, key, fd, maxIdle);
            PoolOwns(r.idle, if r.closed then homes - {fd} else homes[fd := AtPool(key)], maxIdle)
  {
    var q, r := Deque(idle, key), PutBack(idle, key, fd, maxIdle);
    assert fd !in q;
    assert forall x :: x in q + [fd] <==> x == fd || x in q;
  }

  lemma TakeKeepsOwned(c: Config, s: World, i: nat, in_: Input, homes: Homes)
    requires Shaped(c, s) && Owned(c, s, homes) && i < |s.workers| && s.workers[i].stage.Counted?
    ensures Owned(c, Move(c, s, i, in_), NextHomes(c, s, i, in_, homes))
  {
    hide PoolOwns, WorkersOwn, GoodHasFd, TakeIdle, MoveCircuits, MoveActive;
    KeepsGood(c, s, i, in_);
    var g, s' := s.workers[i].stage, Move(c, s, i, in_);
    var key := Key(c.backends[g.b]);
    var taken := TakeIdle(s.fds.idle, key).1;
    if taken.Some? {
      PoolTakes(s.fds.idle, homes, c.maxIdle, key, i);
      var fd := taken.value;
      GainWorker(s.workers, homes, i, s'.workers[i], fd);
      KeyInjective(s.fds.peers[fd], c.backends[g.b]);
    } else {
      NothingTaken(s.fds.idle, key);
      SameWorker(s.workers, homes, i, s'.workers[i]);
    }
  }

  lemma NothingTaken(idle: Idle, key: string)
    requires TakeIdle(idle, key).1.None?
    ensures TakeIdle(idle, key).0 == idle
  {
  }

  lemma DialKeepsOwned(c: Config, s: World, i: nat, in_: Input, homes: Homes)
    requires Shaped(c, s) && Owned(c, s, homes) && i < |s.workers| && s.workers[i].stage.Dialling?
    ensures Owned(c, Move(c, s, i, in_), NextHomes(c, s, i, in_, homes))
  {
    hide PoolOwns, WorkersOwn, GoodHasFd, MoveCircuits, MoveActive;
    KeepsGood(c, s, i, in_);
    var s' := Move(c, s, i, in_);
    if in_.fd < 0 || in_.fd in s.fds.open {
      SameWorker(s.workers, homes, i, s'.workers[i]);
    } else {
      GainWorker(s.workers, homes, i, s'.workers[i], in_.fd);
      PoolIgnores(s.fds.idle, homes, c.maxIdle, in_.fd, AtWorker(i));
    }
  }

  lemma HeldIsOwned(ws: seq<Worker>, homes: Homes, i: nat, fd: int)
    requires WorkersOwn(ws, homes) && i < |ws| && Held(ws[i].stage) == Some(fd)
    ensures fd in homes && homes[fd] == AtWorker(i)
    ensures forall x :: x in homes && homes[x] == AtWorker(i) ==> x == fd
  {
  }

  lemma SettleKeepsOwned(c: Config, s: World, i: nat, in_: Input, homes: Homes)
    requires Shaped(c, s) && Owned(c, s, homes) && i < |s.workers| && s.workers[i].stage.Uncounted?
    ensures Owned(c, Move(c, s, i, in_), NextHomes(c, s, i, in_, homes))
  {
    hide PoolOwns, WorkersOwn, MoveCircuits, MoveActive;
    KeepsGood(c, s, i, in_);
    var g, s' := s.workers[i].stage, Move(c, s, i, in_);
    if g.ok || g.fd < 0 {
      SameWorker(s.workers, homes, i, s'.workers[i]);
    } else {
      HeldIsOwned(s.workers, homes, i, g.fd);
      LoseWorker(s.workers, homes, i, s'.workers[i], g.fd);
      PoolIgnores(s.fds.idle, homes, c.maxIdle, g.fd, AtWorker(i));
    }
  }

  lemma GiveBackKeepsOwned(c: Config, s: World, i: nat, in_: Input, homes: Homes)
    requires Shaped(c, s) && Owned(c, s, homes) && i < |s.workers| && s.workers[i].stage.Reported?
    ensures Owned(c, Move(c, s, i, in_), NextHomes(c, s, i, in_, homes))
  {
    hide PoolOwns, WorkersOwn, GoodHasFd, MoveCircuits, MoveActive, PutBack, IsRetryable;
    KeepsGood(c, s, i, in_);
    var g, s' := s.workers[i].stage, Move(c, s, i, in_);
    var key := Key(c.backends[g.b]);
    HeldIsOwned(s.workers, homes, i, g.fd);
    LoseWorker(s.workers, homes, i, s'.workers[i], g.fd);
    PoolGains(s.fds.idle, homes, c.maxIdle, key, g.fd);
    PoolIgnores(s.fds.idle, homes, c.maxIdle, g.fd, AtWorker(i));
  }

  lemma MoveKeepsOwned(c: Config, s: World, i: nat, in_: Input, homes: Homes)
    requires Shaped(c, s) && Owned(c, s, homes) && i < |s.workers|
    ensures Owned(c, Move(c, s, i, in_), NextHomes(c, s, i, in_, homes))
  {
    hide Owned, Move;
    match s.workers[i].stage
    case Counted(_, _, _) => TakeKeepsOwned(c, s, i, in_, homes);
    case Dialling(_, _, _) => DialKeepsOwned(c, s, i, in_, homes);
    case Uncounted(_, _, _, _, _, _, _) => SettleKeepsOwned(c, s, i, in_, homes);
    case Reported(_, _, _, _, _) => GiveBackKeepsOwned(c, s, i, in_, homes);
    case _ => QuietKeepsOwned(c, s, i, in_, homes);
  }
}
