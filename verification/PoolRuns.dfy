/**
  What the pool hands out, read off the history alone: the descriptors kept for an address stand in
  line, and every one that is taken is the first that was not taken before.
 */
module PoolRuns {
  import opened Text
  import opened Pool
  import opened Forwarding
  import opened Interleavings

  datatype PoolOp = Take(key: string) | Give(key: string, fd: int)

  function Apply(idle: Idle, op: PoolOp, maxIdle: nat): Idle {
    match op
    case Take(key) => TakeIdle(idle, key).0
    case Give(key, fd) => PutBack(idle, key, fd, maxIdle).idle
  }

  function RunPool(ops: seq<PoolOp>, maxIdle: nat): Idle {
    if ops == [] then map[] else Apply(RunPool(ops[..|ops| - 1], maxIdle), ops[|ops| - 1], maxIdle)
  }

  // Everything that was ever kept for a key, in order, and how many of them were taken.
  datatype Line = Line(kept: seq<int>, taken: nat)

  function LineOf(ops: seq<PoolOp>, key: string, maxIdle: nat): (l: Line)
    ensures l.taken <= |l.kept| && |l.kept| - l.taken <= maxIdle
  {
    if ops == [] then Line([], 0)
    else
      var l, op := LineOf(ops[..|ops| - 1], key, maxIdle), ops[|ops| - 1];
      if op.key != key then l
      else match op
        case Take(_) => if l.taken < |l.kept| then l.(taken := l.taken + 1) else l
        case Give(_, fd) => if |l.kept| - l.taken < maxIdle then l.(kept := l.kept + [fd]) else l
  }

  /** The idle descriptors of a key are those kept and not yet taken, in the order in which they were given back. */
  lemma {:induction false} IdleIsLine(ops: seq<PoolOp>, key: string, maxIdle: nat)
    ensures var l := LineOf(ops, key, maxIdle); Deque(RunPool(ops, maxIdle), key) == l.kept[l.taken..]
  {
    if ops == [] {
    } else {
      var before, op := ops[..|ops| - 1], ops[|ops| - 1];
      IdleIsLine(before, key, maxIdle);
      OneOp(RunPool(before, maxIdle), LineOf(before, key, maxIdle), op, key, maxIdle);
    }
  }

  lemma OneOp(idle: Idle, l: Line, op: PoolOp, key: string, maxIdle: nat)
    requires l.taken <= |l.kept| && Deque(idle, key) == l.kept[l.taken..]
    ensures Deque(Apply(idle, op, maxIdle), key) ==
            if op.key != key then l.kept[l.taken..]
            else if op.Take? then if l.taken < |l.kept| then l.kept[l.taken + 1..] else []
            else if |l.kept| - l.taken < maxIdle then (l.kept + [op.fd])[l.taken..] else l.kept[l.taken..]
  {
    if op.key == key && op.Take? && l.taken < |l.kept| {
      assert l.kept[l.taken..][1..] == l.kept[l.taken + 1..];
    }
    assert (if op.Give? then l.kept + [op.fd] else l.kept)[l.taken..] ==
           l.kept[l.taken..] + if op.Give? then [op.fd] else [];
  }

  /** `acquire` gets the first of the line that was not taken, if any; `release` closes exactly when the line is full. */
  lemma NextInLine(ops: seq<PoolOp>, key: string, fd: int, maxIdle: nat)
    ensures var l, idle := LineOf(ops, key, maxIdle), RunPool(ops, maxIdle);
            && TakeIdle(idle, key).1 == (if l.taken < |l.kept| then Some(l.kept[l.taken]) else None)
            && (PutBack(idle, key, fd, maxIdle).closed <==> |l.kept| - l.taken == maxIdle)
  {
    hide RunPool, LineOf;
    IdleIsLine(ops, key, maxIdle);
  }

  // ----- Interleavings

  /** What a move at this stage asks of the pool, if anything. */
  function PoolOpOf(c: Config, g: Stage): seq<PoolOp>
    requires OnBackend(g) ==> g.b < |c.backends|
  {
    match g
    case Counted(_, b, _) => [Take(Key(c.backends[b]))]
    case Reported(_, b, fd, reusable, _) => if reusable then [Give(Key(c.backends[b]), fd)] else []
    case _ => []
  }

  function PoolOps(c: Config, workers: nat, turns: seq<Turn>): seq<PoolOp> {
    if turns == [] then []
    else
      var before, t := turns[..|turns| - 1], turns[|turns| - 1];
      PoolOps(c, workers, before) +
      if t.worker < workers then PoolOpOf(c, Play(c, workers, before).workers[t.worker].stage) else []
  }

  lemma RunOneMore(ops: seq<PoolOp>, op: PoolOp, maxIdle: nat)
    ensures RunPool(ops + [op], maxIdle) == Apply(RunPool(ops, maxIdle), op, maxIdle)
  {
    hide Apply;
    assert (ops + [op])[..|ops|] == ops;
  }

  lemma MoveIsPoolOp(c: Config, s: World, i: nat, in_: Input)
    requires Shaped(c, s) && i < |s.workers|
    ensures var ops, idle := PoolOpOf(c, s.workers[i].stage), s.fds.idle;
            |ops| <= 1 && Move(c, s, i, in_).fds.idle == if ops == [] then idle else Apply(idle, ops[0], c.maxIdle)
  {
    hide Key, Next, MoveCircuits, MoveActive;
  }

  /** In every interleaving, the idle descriptors are what the takes and returns of all workers leave. */
  lemma {:induction false} PoolIsRun(c: Config, workers: nat, turns: seq<Turn>)
    ensures Play(c, workers, turns).fds.idle == RunPool(PoolOps(c, workers, turns), c.maxIdle)
  {
    if turns == [] {
    } else {
      hide Move, Apply, PoolOpOf, RunPool;
      var before, t := turns[..|turns| - 1], turns[|turns| - 1];
      PoolIsRun(c, workers, before);
      var s, ops := Play(c, workers, before), PoolOps(c, workers, before);
      if t.worker < workers {
        MoveIsPoolOp(c, s, t.worker, t.input);
        var more := PoolOpOf(c, s.workers[t.worker].stage);
        if more == [] {
          assert ops + more == ops;
        } else {
          assert ops + more == ops + [more[0]];
          RunOneMore(ops, more[0], c.maxIdle);
        }
      } else {
        assert ops + [] == ops;
      }
    }
  }

  /**
    In every interleaving, a worker that asks the pool goes on with the connection that has been
    idle longest of all those kept for its backend, and dials exactly when none is left.
   */
  lemma OldestIsReused(c: Config, workers: nat, turns: seq<Turn>, t: Turn)
    requires t.worker < workers && Play(c, workers, turns).workers[t.worker].stage.Counted?
    ensures var g := Play(c, workers, turns).workers[t.worker].stage;
            var l := LineOf(PoolOps(c, workers, turns), Key(c.backends[g.b]), c.maxIdle);
            Play(c, workers, turns + [t]).workers[t.worker].stage ==
            if l.taken < |l.kept| then Connected(g.n, g.b, g.trial, l.kept[l.taken]) else Dialling(g.n, g.b, g.trial)
  {
    hide Play, RunPool, LineOf, PoolOps, Key, TakeIdle;
    var g := Play(c, workers, turns).workers[t.worker].stage;
    PlayMore(c, workers, turns, t);
    PoolIsRun(c, workers, turns);
    NextInLine(PoolOps(c, workers, turns), Key(c.backends[g.b]), 0, c.maxIdle);
  }

  /**
    In every interleaving, the connection of a good answer is kept in line exactly when it may be
    reused and fewer than `maxIdle` are idle for its backend; otherwise it is closed.
   */
  lemma ReusableIsKept(c: Config, workers: nat, turns: seq<Turn>, t: Turn)
    requires t.worker < workers && Play(c, workers, turns).workers[t.worker].stage.Reported?
    ensures var s, s' := Play(c, workers, turns), Play(c, workers, turns + [t]); var g := s.workers[t.worker].stage;
            var l := LineOf(PoolOps(c, workers, turns), Key(c.backends[g.b]), c.maxIdle);
            if g.reusable && |l.kept| - l.taken < c.maxIdle
            then g.fd in Deque(s'.fds.idle, Key(c.backends[g.b])) && s'.fds.open == s.fds.open
            else s'.fds.open == s.fds.open - {g.fd}
  {
    hide Play, RunPool, LineOf, PoolOps, Key, Next, MoveCircuits, MoveActive;
    var g := Play(c, workers, turns).workers[t.worker].stage;
    PlayMore(c, workers, turns, t);
    PoolIsRun(c, workers, turns);
    NextInLine(PoolOps(c, workers, turns), Key(c.backends[g.b]), g.fd, c.maxIdle);
  }
}
