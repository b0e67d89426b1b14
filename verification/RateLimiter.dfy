/**
  The per-key token bucket of include/resilience/RateLimiter.hpp over real numbers. Clock
  values are nanosecond ticks; `now` is read before the lock is taken, so calls may be
  processed out of clock order.
 */
module RateLimiter {

  // `last == 0` marks a bucket that was never used.
  datatype Bucket = Bucket(tokens: real, last: int)

  datatype Limit = Limit(capacity: real, perSecond: real)

  datatype Request = Request(now: int, cost: real)

  datatype Decision = Decision(bucket: Bucket, allowed: bool)

  const UNUSED: Bucket := Bucket(0.0, 0)

  function Min(a: real, b: real): real {
    if a <= b then a else b
  }

  /** Tokens that accrue between two clock values; negative when the clock values are out of order. */
  function Accrued(l: Limit, from: int, to: int): real {
    (to - from) as real / 1000000000.0 * l.perSecond
  }

  function Refilled(l: Limit, b: Bucket, now: int): Bucket {
    if b.last == 0 then Bucket(l.capacity, now)
    else Bucket(Min(l.capacity, b.tokens + Accrued(l, b.last, now)), now)
  }

  function Decide(l: Limit, b: Bucket, r: Request): Decision {
    var f := Refilled(l, b, r.now);
    if f.tokens >= r.cost then Decision(f.(tokens := f.tokens - r.cost), true) else Decision(f, false)
  }

  class TokenBucketRateLimiter {
    const limit: Limit
    var buckets: map<string, Bucket>

    constructor (limit: Limit)
      ensures this.limit == limit && buckets == map[]
    {
      this.limit := limit;
      buckets := map[];
    }

    method Allow(key: string, cost: real, now: int) returns (allowed: bool)
      modifies this
      ensures buckets == AllowKey(limit, old(buckets), Call(key, Request(now, cost))).0
      ensures allowed == AllowKey(limit, old(buckets), Call(key, Request(now, cost))).1
    {
      if key !in buckets { buckets := buckets[key := UNUSED]; }
      var b := buckets[key];
      if b.last == 0 {
        b := Bucket(limit.capacity, now);
      } else {
        var elapsed := (now - b.last) as real / 1000000000.0;
        b := Bucket(Min(limit.capacity, b.tokens + elapsed * limit.perSecond), now);
      }
      allowed := b.tokens >= cost;
      if allowed { b := b.(tokens := b.tokens - cost); }
      buckets := buckets[key := b];
    }
  }

  // ----- Traces of one key

  function Decisions(l: Limit, b: Bucket, rs: seq<Request>): (ds: seq<bool>)
    ensures |ds| == |rs|
    decreases |rs|
  {
    if rs == [] then [] else [Decide(l, b, rs[0]).allowed] + Decisions(l, Decide(l, b, rs[0]).bucket, rs[1..])
  }

  function After(l: Limit, b: Bucket, rs: seq<Request>): Bucket
    decreases |rs|
  {
    if rs == [] then b else After(l, Decide(l, b, rs[0]).bucket, rs[1..])
  }

  function AdmittedCost(rs: seq<Request>, ds: seq<bool>): real
    requires |rs| == |ds|
  {
    if rs == [] then 0.0 else (if ds[0] then rs[0].cost else 0.0) + AdmittedCost(rs[1..], ds[1..])
  }

  predicate ClockStarted(rs: seq<Request>) {
    forall i :: 0 <= i < |rs| ==> rs[i].now != 0
  }

  lemma AccruedAdds(l: Limit, a: int, b: int, c: int)
    ensures Accrued(l, a, b) + Accrued(l, b, c) == Accrued(l, a, c)
    ensures Accrued(l, a, a) == 0.0
  {
  }

  lemma AccruedGrows(l: Limit, a: int, b: int)
    requires a <= b && l.perSecond >= 0.0
    ensures Accrued(l, a, b) >= 0.0
  {
  }

  /** The tokens, less what has accrued since `origin`, only ever go down, by at least the admitted cost. */
  lemma {:induction false} PotentialFalls(l: Limit, b: Bucket, rs: seq<Request>, origin: int)
    requires b.last != 0 && ClockStarted(rs)
    ensures var e := After(l, b, rs);
            && e.last != 0
            && e.tokens - Accrued(l, origin, e.last) <=
               b.tokens - Accrued(l, origin, b.last) - AdmittedCost(rs, Decisions(l, b, rs))
    decreases |rs|
  {
    hide Accrued;
    if rs == [] {
    } else {
      var d := Decide(l, b, rs[0]);
      AccruedAdds(l, origin, b.last, rs[0].now);
      PotentialFalls(l, d.bucket, rs[1..], origin);
      assert Decisions(l, b, rs)[1..] == Decisions(l, d.bucket, rs[1..]);
    }
  }

  lemma {:induction false} LastDecision(l: Limit, b: Bucket, rs: seq<Request>)
    requires rs != []
    ensures var n := |rs| - 1;
            && Decisions(l, b, rs)[n] == Decide(l, After(l, b, rs[..n]), rs[n]).allowed
            && After(l, b, rs) == Decide(l, After(l, b, rs[..n]), rs[n]).bucket
    decreases |rs|
  {
    hide Decide;
    if |rs| > 1 {
      var d := Decide(l, b, rs[0]);
      LastDecision(l, d.bucket, rs[1..]);
      assert rs[1..][..|rs| - 2] == rs[..|rs| - 1][1..];
    } else {
      assert rs[..0] == [];
    }
  }

  /** From any bucket: what a stretch of calls admits, if its last call is admitted. */
  lemma StretchBound(l: Limit, b: Bucket, rs: seq<Request>)
    requires rs != [] && ClockStarted(rs) && Decisions(l, b, rs)[|rs| - 1]
    ensures AdmittedCost(rs, Decisions(l, b, rs)) <= l.capacity + Accrued(l, rs[0].now, rs[|rs| - 1].now)
  {
    hide Accrued;
    var n := |rs| - 1;
    var d := Decide(l, b, rs[0]);
    AccruedAdds(l, rs[0].now, rs[0].now, rs[0].now);
    PotentialFalls(l, d.bucket, rs[1..], rs[0].now);
    assert Decisions(l, b, rs)[1..] == Decisions(l, d.bucket, rs[1..]);
    LastDecision(l, b, rs);
    assert After(l, b, rs) == After(l, d.bucket, rs[1..]);
  }

  lemma DecisionsStep(l: Limit, b: Bucket, rs: seq<Request>)
    requires rs != []
    ensures Decisions(l, b, rs) == [Decide(l, b, rs[0]).allowed] + Decisions(l, Decide(l, b, rs[0]).bucket, rs[1..])
    ensures After(l, b, rs) == After(l, Decide(l, b, rs[0]).bucket, rs[1..])
  {
    hide Decide;
  }

  lemma {:induction false} DecisionsDrop(l: Limit, b: Bucket, rs: seq<Request>, i: nat)
    requires i <= |rs|
    ensures Decisions(l, b, rs)[i..] == Decisions(l, After(l, b, rs[..i]), rs[i..])
    decreases i
  {
    if i == 0 {
      assert rs[..0] == [] && rs[0..] == rs;
    } else {
      hide Decide, Decisions, After;
      var d, tail := Decide(l, b, rs[0]), rs[1..];
      DecisionsStep(l, b, rs);
      DecisionsStep(l, b, rs[..i]);
      DecisionsDrop(l, d.bucket, tail, i - 1);
      assert rs[..i][1..] == tail[..i - 1] && rs[i..] == tail[i - 1..];
    }
  }

  lemma {:induction false} DecisionsTake(l: Limit, b: Bucket, rs: seq<Request>, j: nat)
    requires j <= |rs|
    ensures Decisions(l, b, rs)[..j] == Decisions(l, b, rs[..j])
    decreases j
  {
    if j == 0 {
    } else {
      hide Decide, Decisions;
      var d, tail := Decide(l, b, rs[0]), rs[1..];
      DecisionsStep(l, b, rs);
      DecisionsStep(l, b, rs[..j]);
      DecisionsTake(l, d.bucket, tail, j - 1);
      assert rs[..j][1..] == tail[..j - 1];
    }
  }

  lemma DecisionsSlice(l: Limit, b: Bucket, rs: seq<Request>, i: nat, j: nat)
    requires i <= j <= |rs|
    ensures Decisions(l, b, rs)[i..j] == Decisions(l, After(l, b, rs[..i]), rs[i..j])
  {
    hide Decisions, After;
    DecisionsTake(l, b, rs, j);
    DecisionsDrop(l, b, rs[..j], i);
    assert rs[..j][..i] == rs[..i] && rs[..j][i..] == rs[i..j];
    assert Decisions(l, b, rs)[..j][i..] == Decisions(l, b, rs)[i..j];
  }

  lemma AccruedIs(l: Limit, from: int, to: int)
    ensures Accrued(l, from, to) == (to - from) as real / 1000000000.0 * l.perSecond
  {
  }

  lemma WindowFits(l: Limit, rs: seq<Request>, i: nat, j: nat)
    requires i <= j < |rs| && ClockStarted(rs) && Decisions(l, UNUSED, rs)[j]
    ensures AdmittedCost(rs[i..j + 1], Decisions(l, UNUSED, rs)[i..j + 1]) <=
            l.capacity + Accrued(l, rs[i].now, rs[j].now)
  {
    hide Accrued, Decide;
    DecisionsSlice(l, UNUSED, rs, i, j + 1);
    var part, b := rs[i..j + 1], After(l, UNUSED, rs[..i]);
    assert Decisions(l, b, part)[j - i] == Decisions(l, UNUSED, rs)[j];
    StretchBound(l, b, part);
  }

  /**
    Between any two calls i <= j of a key, the second admitted, the admitted cost is at most the
    capacity plus what accrues between their clock values, in whatever order the clock values were processed.
   */
  lemma WindowBound(l: Limit, rs: seq<Request>, i: nat, j: nat)
    requires i <= j < |rs| && ClockStarted(rs) && Decisions(l, UNUSED, rs)[j]
    ensures AdmittedCost(rs[i..j + 1], Decisions(l, UNUSED, rs)[i..j + 1]) <=
            l.capacity + (rs[j].now - rs[i].now) as real / 1000000000.0 * l.perSecond
  {
    hide Accrued, Decisions, AdmittedCost, Decide, ClockStarted;
    WindowFits(l, rs, i, j);
    AccruedIs(l, rs[i].now, rs[j].now);
  }

  // ----- Exactly which calls are admitted

  /** What is left of the capacity and of what accrued from call `i` to `now`. */
  function Room(l: Limit, rs: seq<Request>, ds: seq<bool>, i: nat, now: int): real
    requires |ds| == |rs| && i < |rs|
  {
    l.capacity + Accrued(l, rs[i].now, now) - AdmittedCost(rs[i..], ds[i..])
  }

  ghost predicate LeastRoom(l: Limit, rs: seq<Request>, ds: seq<bool>, now: int, tokens: real)
    requires |ds| == |rs|
  {
    && tokens <= l.capacity && (forall i :: 0 <= i < |rs| ==> tokens <= Room(l, rs, ds, i, now))
    && (tokens == l.capacity || exists i :: 0 <= i < |rs| && tokens == Room(l, rs, ds, i, now))
  }

  lemma {:induction false} CostSnoc(rs: seq<Request>, ds: seq<bool>, r: Request, d: bool)
    requires |ds| == |rs|
    ensures AdmittedCost(rs + [r], ds + [d]) == AdmittedCost(rs, ds) + if d then r.cost else 0.0
    decreases |rs|
  {
    if rs == [] {
    } else {
      assert (rs + [r])[1..] == rs[1..] + [r] && (ds + [d])[1..] == ds[1..] + [d];
      CostSnoc(rs[1..], ds[1..], r, d);
    }
  }

  lemma RoomSnoc(l: Limit, rs: seq<Request>, ds: seq<bool>, r: Request, d: bool, i: nat, now: int)
    requires |ds| == |rs| && i <= |rs|
    ensures Room(l, rs + [r], ds + [d], i, now) ==
            (if i < |rs| then Room(l, rs, ds, i, r.now) else l.capacity)
            + Accrued(l, r.now, now) - if d then r.cost else 0.0
  {
    hide Accrued, AdmittedCost;
    assert (rs + [r])[i..] == rs[i..] + [r] && (ds + [d])[i..] == ds[i..] + [d];
    CostSnoc(rs[i..], ds[i..], r, d);
    if i < |rs| { AccruedAdds(l, rs[i].now, r.now, now); } else { NoCost(); }
  }

  lemma NoCost()
    ensures AdmittedCost([], []) == 0.0
  {
  }

  lemma LeastRoomSnoc(l: Limit, rs: seq<Request>, ds: seq<bool>, tokens: real, r: Request, d: bool, now: int)
    requires |ds| == |rs| && LeastRoom(l, rs, ds, r.now, tokens)
    ensures LeastRoom(l, rs + [r], ds + [d], now,
                      Min(l.capacity, tokens + Accrued(l, r.now, now) - if d then r.cost else 0.0))
  {
    hide Accrued, Room;
    forall i | 0 <= i <= |rs|
      ensures Room(l, rs + [r], ds + [d], i, now) ==
              (if i < |rs| then Room(l, rs, ds, i, r.now) else l.capacity)
              + Accrued(l, r.now, now) - if d then r.cost else 0.0
    {
      RoomSnoc(l, rs, ds, r, d, i, now);
    }
    var k := if tokens == l.capacity then |rs| else var i :| 0 <= i < |rs| && tokens == Room(l, rs, ds, i, r.now); i;
    assert Room(l, rs + [r], ds + [d], k, now) == tokens + Accrued(l, r.now, now) - if d then r.cost else 0.0;
  }

  /** After any calls, a refilled bucket holds the least room any of them leaves. */
  lemma {:induction false} TokensAreLeastRoom(l: Limit, rs: seq<Request>, now: int)
    requires ClockStarted(rs)
    ensures LeastRoom(l, rs, Decisions(l, UNUSED, rs), now, Refilled(l, After(l, UNUSED, rs), now).tokens)
    decreases |rs|
  {
    hide Accrued, LeastRoom;
    if rs == [] {
      NothingSpent(l, now);
    } else {
      hide Decisions, After;
      var n := |rs| - 1;
      var before, r := rs[..n], rs[n];
      var f := Refilled(l, After(l, UNUSED, before), r.now).tokens;
      TokensAreLeastRoom(l, before, r.now);
      LastDecision(l, UNUSED, rs);
      DecisionsTake(l, UNUSED, rs, n);
      var ds := Decisions(l, UNUSED, rs);
      assert rs == before + [r] && ds == ds[..n] + [ds[n]];
      LeastRoomSnoc(l, before, ds[..n], f, r, ds[n], now);
    }
  }

  lemma NothingSpent(l: Limit, now: int)
    ensures LeastRoom(l, [], Decisions(l, UNUSED, []), now, Refilled(l, After(l, UNUSED, []), now).tokens)
  {
  }

  /** The call at `j` fits in the window that begins with the call at `i`. */
  predicate Fits(l: Limit, rs: seq<Request>, ds: seq<bool>, i: nat, j: nat)
    requires |ds| == |rs| && i <= j < |rs|
  {
    AdmittedCost(rs[i..j], ds[i..j]) + rs[j].cost <=
    l.capacity + (rs[j].now - rs[i].now) as real / 1000000000.0 * l.perSecond
  }

  lemma FitsInRoom(l: Limit, rs: seq<Request>, ds: seq<bool>, i: nat, j: nat)
    requires |ds| == |rs| && i <= j < |rs|
    ensures Fits(l, rs, ds, i, j) <==> rs[j].cost <= if i < j then Room(l, rs[..j], ds[..j], i, rs[j].now) else l.capacity
  {
    hide AdmittedCost, Accrued;
    AccruedIs(l, rs[i].now, rs[j].now);
    assert rs[..j][i..] == rs[i..j] && ds[..j][i..] == ds[i..j];
    if i == j {
      NoCost();
      assert rs[i..j] == [] && ds[i..j] == [];
      AccruedAdds(l, rs[j].now, rs[j].now, rs[j].now);
    }
  }

  /**
    A call is admitted exactly when, for every call from the first to itself, its cost and the
    cost admitted in between fit in the capacity and what accrued since that call.
   */
  lemma AdmittedExactly(l: Limit, rs: seq<Request>, j: nat)
    requires j < |rs| && ClockStarted(rs)
    ensures var ds := Decisions(l, UNUSED, rs);
            ds[j] <==> forall i :: 0 <= i <= j ==> Fits(l, rs, ds, i, j)
  {
    hide Decisions, After, Room, Fits, Accrued, Refilled;
    var before, upTo, r := rs[..j], rs[..j + 1], rs[j];
    var ds := Decisions(l, UNUSED, rs);
    assert upTo[..j] == before && upTo[j] == r;
    LastDecision(l, UNUSED, upTo);
    DecisionsTake(l, UNUSED, rs, j + 1);
    DecisionsTake(l, UNUSED, rs, j);
    assert ds[j] == ds[..j + 1][j];
    TokensAreLeastRoom(l, before, r.now);
    forall i | 0 <= i <= j
      ensures Fits(l, rs, ds, i, j) <==> r.cost <= if i < j then Room(l, before, ds[..j], i, r.now) else l.capacity
    {
      FitsInRoom(l, rs, ds, i, j);
    }
    assert Fits(l, rs, ds, j, j) <==> r.cost <= l.capacity;
  }

  /** A clock value of zero marks the bucket as never used: what came before no longer counts. */
  lemma ZeroClockForgets(l: Limit, rs: seq<Request>, z: nat)
    requires z < |rs| && rs[z].now == 0
    ensures Decisions(l, UNUSED, rs)[z + 1..] == Decisions(l, UNUSED, rs[z + 1..])
  {
    hide Decisions, After;
    var upTo, rest := rs[..z + 1], rs[z + 1..];
    DecisionsDrop(l, UNUSED, rs, z + 1);
    LastDecision(l, UNUSED, upTo);
    UnusedAlike(l, After(l, UNUSED, upTo), rest);
  }

  lemma UnusedAlike(l: Limit, b: Bucket, rs: seq<Request>)
    requires b.last == 0
    ensures Decisions(l, b, rs) == Decisions(l, UNUSED, rs)
  {
    if rs == [] {
    } else {
      assert Decide(l, b, rs[0]) == Decide(l, UNUSED, rs[0]);
    }
  }

  // ----- Rejected calls leave no trace

  predicate Ordered(times: seq<int>) {
    forall i, j :: 0 <= i < j < |times| ==> times[i] <= times[j]
  }

  function Times(rs: seq<Request>): (times: seq<int>)
    ensures |times| == |rs| && forall i :: 0 <= i < |rs| ==> times[i] == rs[i].now
  {
    seq(|rs|, i requires 0 <= i < |rs| => rs[i].now)
  }

  lemma OrderedTail(rs: seq<Request>)
    requires rs != [] && Ordered(Times(rs))
    ensures Ordered(Times(rs[1..])) && (|rs| > 1 ==> rs[0].now <= rs[1].now)
  {
    assert forall i :: 0 <= i < |rs| - 1 ==> Times(rs[1..])[i] == Times(rs)[i + 1];
    assert |rs| > 1 ==> Times(rs)[0] <= Times(rs)[1];
  }

  function Kept<T>(xs: seq<T>, keep: seq<bool>): seq<T>
    requires |xs| == |keep|
  {
    if xs == [] then [] else (if keep[0] then [xs[0]] else []) + Kept(xs[1..], keep[1..])
  }

  /** `b'` is the bucket that has not seen some rejected calls; both lead to the same future. */
  predicate Lags(l: Limit, b: Bucket, b': Bucket) {
    if b == b' then true
    else if b'.last == 0 then b.last == 0 || b.tokens == l.capacity
    else b.last != 0 && b'.last <= b.last && b.tokens == Min(l.capacity, b'.tokens + Accrued(l, b'.last, b.last))
  }

  lemma LaggingRefillsAlike(l: Limit, b: Bucket, b': Bucket, now: int)
    requires Lags(l, b, b') && now != 0 && (b.last != 0 ==> b.last <= now) && l.perSecond >= 0.0
    ensures Refilled(l, b, now) == Refilled(l, b', now)
  {
  }

  lemma LaggingDecidesAlike(l: Limit, b: Bucket, b': Bucket, r: Request)
    requires Lags(l, b, b') && r.now != 0 && (b.last != 0 ==> b.last <= r.now) && l.perSecond >= 0.0
    ensures Decide(l, b', r) == Decide(l, b, r) && Decide(l, b, r).bucket.last == r.now
    ensures !Decide(l, b, r).allowed ==> Lags(l, Decide(l, b, r).bucket, b')
  {
    hide Accrued;
    LaggingRefillsAlike(l, b, b', r.now);
  }

  lemma {:induction false} ErasureFrom(l: Limit, b: Bucket, b': Bucket, rs: seq<Request>, keep: seq<bool>)
    requires l.perSecond >= 0.0 && |keep| == |rs| && ClockStarted(rs) && Ordered(Times(rs))
    requires Lags(l, b, b') && (rs != [] && b.last != 0 ==> b.last <= rs[0].now)
    requires forall i :: 0 <= i < |rs| && !keep[i] ==> !Decisions(l, b, rs)[i]
    ensures Decisions(l, b', Kept(rs, keep)) == Kept(Decisions(l, b, rs), keep)
    decreases |rs|
  {
    hide Decide;
    if rs == [] {
    } else {
      var d, tail := Decide(l, b, rs[0]), rs[1..];
      var ds := Decisions(l, b, rs);
      assert ds[1..] == Decisions(l, d.bucket, tail);
      assert forall i :: 0 <= i < |tail| ==> ds[1..][i] == ds[i + 1] && tail[i] == rs[i + 1];
      LaggingDecidesAlike(l, b, b', rs[0]);
      OrderedTail(rs);
      ErasureFrom(l, d.bucket, if keep[0] then d.bucket else b', tail, keep[1..]);
      if keep[0] {
        DecisionsFront(l, b', rs[0], Kept(tail, keep[1..]));
      } else {
        assert [] + Kept(tail, keep[1..]) == Kept(tail, keep[1..]);
        assert [] + Kept(ds[1..], keep[1..]) == Kept(ds[1..], keep[1..]);
      }
    }
  }

  lemma DecisionsFront(l: Limit, b: Bucket, r: Request, rs: seq<Request>)
    ensures Decisions(l, b, [r] + rs) == [Decide(l, b, r).allowed] + Decisions(l, Decide(l, b, r).bucket, rs)
  {
    hide Decide;
    assert ([r] + rs)[1..] == rs;
  }

  /** With clock values in order, deleting any rejected calls leaves every other decision as it was. */
  lemma RejectedCallsLeaveNoTrace(l: Limit, rs: seq<Request>, keep: seq<bool>)
    requires l.perSecond >= 0.0 && |keep| == |rs| && ClockStarted(rs) && Ordered(Times(rs))
    requires forall i :: 0 <= i < |rs| && !keep[i] ==> !Decisions(l, UNUSED, rs)[i]
    ensures Decisions(l, UNUSED, Kept(rs, keep)) == Kept(Decisions(l, UNUSED, rs), keep)
  {
    ErasureFrom(l, UNUSED, UNUSED, rs, keep);
  }

  predicate OnlyRejectedGo(rs: seq<Request>, keep: seq<bool>, l: Limit) {
    |keep| == |rs| && forall i :: 0 <= i < |rs| && !keep[i] ==> !Decisions(l, UNUSED, rs)[i]
  }

  /** Calls at these clock values, whatever they cost, can be deleted when they were rejected. */
  ghost predicate Erasable(l: Limit, times: seq<int>) {
    forall rs: seq<Request>, keep: seq<bool> :: Times(rs) == times && OnlyRejectedGo(rs, keep, l) ==>
      Decisions(l, UNUSED, Kept(rs, keep)) == Kept(Decisions(l, UNUSED, rs), keep)
  }

  lemma {:induction false} FirstDescent(times: seq<int>) returns (k: nat)
    requires !Ordered(times)
    ensures 0 < k < |times| && Ordered(times[..k]) && times[k] < times[k - 1]
    decreases |times|
  {
    k := |times| - 1;
    if !Ordered(times[..k]) {
      k := FirstDescent(times[..k]);
      assert times[..|times| - 1][..k] == times[..k];
    }
  }

  /** Calls that cost more than the capacity leave a full bucket full. */
  lemma {:induction false} FullStaysFull(l: Limit, b: Bucket, rs: seq<Request>)
    requires l.perSecond >= 0.0 && ClockStarted(rs) && Ordered(Times(rs)) && rs != []
    requires b.last == 0 || (b.tokens == l.capacity && b.last <= rs[0].now)
    requires forall i :: 0 <= i < |rs| ==> rs[i].cost > l.capacity
    ensures After(l, b, rs) == Bucket(l.capacity, rs[|rs| - 1].now)
    ensures forall i :: 0 <= i < |rs| ==> !Decisions(l, b, rs)[i]
    decreases |rs|
  {
    hide Accrued;
    if b.last != 0 { AccruedGrows(l, b.last, rs[0].now); }
    var full, tail := Bucket(l.capacity, rs[0].now), rs[1..];
    assert Decide(l, b, rs[0]) == Decision(full, false);
    if tail == [] {
    } else {
      FullStaysFull(l, full, tail);
      assert forall i :: 0 < i < |rs| ==> Decisions(l, b, rs)[i] == Decisions(l, full, tail)[i - 1];
    }
  }

  lemma {:induction false} KeptSuffix<T>(xs: seq<T>, k: nat)
    requires k <= |xs|
    ensures Kept(xs, seq(|xs|, i => i >= k)) == xs[k..]
    decreases |xs|
  {
    var keep := seq(|xs|, i => i >= k);
    if xs == [] {
    } else {
      var j := if k == 0 then 0 else k - 1;
      assert keep[1..] == seq(|xs| - 1, i => i >= j);
      KeptSuffix(xs[1..], j);
      assert k > 0 ==> xs[1..][j..] == xs[k..];
      assert k == 0 ==> [xs[0]] + xs[1..] == xs[k..];
    }
  }

  /** Too dear before `k`, the whole capacity at `k`, and nothing after. */
  function Probe(l: Limit, times: seq<int>, k: nat): (rs: seq<Request>)
    ensures Times(rs) == times
  {
    seq(|times|, i requires 0 <= i < |times| =>
      Request(times[i], if i < k then 2.0 * l.capacity else if i == k then l.capacity else 0.0))
  }

  lemma DescentShows(l: Limit, times: seq<int>, k: nat)
    requires l.capacity > 0.0 && l.perSecond > 0.0 && ClockStarted(Probe(l, times, k))
    requires 0 < k < |times| && Ordered(times[..k]) && times[k] < times[k - 1]
    ensures !Erasable(l, times)
  {
    hide Decide, Accrued, Erasable;
    var rs := Probe(l, times, k);
    var keep, ds := seq(|rs|, i => i >= k), Decisions(l, UNUSED, rs);
    var before, full := rs[..k], Bucket(l.capacity, times[k - 1]);
    assert Times(before) == times[..k];
    FullStaysFull(l, UNUSED, before);
    DecisionsSlice(l, UNUSED, rs, 0, k);
    assert rs[..0] == [] && rs[0..k] == before;
    assert forall i :: 0 <= i < k ==> ds[i] == ds[0..k][i];
    DecisionsSlice(l, UNUSED, rs, k, |rs|);
    assert rs[k..|rs|] == rs[k..] && ds[k..|rs|] == ds[k..];
    KeptSuffix(rs, k);
    assert |ds| == |rs|;
    KeptSuffix(ds, k);
    assert rs[k..][0] == Request(times[k], l.capacity);
    TwoFates(l, full, times[k]);
    assert Decisions(l, UNUSED, rs[k..])[0] != ds[k..][0];
    assert OnlyRejectedGo(rs, keep, l);
    NotErasable(l, times, rs, keep);
  }

  lemma NotErasable(l: Limit, times: seq<int>, rs: seq<Request>, keep: seq<bool>)
    requires Times(rs) == times && OnlyRejectedGo(rs, keep, l)
    requires Decisions(l, UNUSED, Kept(rs, keep)) != Kept(Decisions(l, UNUSED, rs), keep)
    ensures !Erasable(l, times)
  {
  }

  /** The whole capacity is there for a first call, but not for one older than a full bucket. */
  lemma TwoFates(l: Limit, full: Bucket, now: int)
    requires l.perSecond > 0.0 && full.tokens == l.capacity && full.last != 0 && now < full.last
    ensures Decide(l, UNUSED, Request(now, l.capacity)).allowed
    ensures !Decide(l, full, Request(now, l.capacity)).allowed
  {
  }

  /** Rejected calls leave no trace, whatever the calls cost, if and only if the clock values are in order. */
  lemma ErasableIffOrdered(l: Limit, times: seq<int>)
    requires l.capacity > 0.0 && l.perSecond > 0.0 && forall i :: 0 <= i < |times| ==> times[i] != 0
    ensures Erasable(l, times) <==> Ordered(times)
  {
    hide Decisions, Kept;
    if Ordered(times) {
      forall rs: seq<Request>, keep: seq<bool> | Times(rs) == times && OnlyRejectedGo(rs, keep, l)
        ensures Decisions(l, UNUSED, Kept(rs, keep)) == Kept(Decisions(l, UNUSED, rs), keep)
      {
        RejectedCallsLeaveNoTrace(l, rs, keep);
      }
    } else {
      var k := FirstDescent(times);
      DescentShows(l, times, k);
    }
  }

  /** Out of clock order this fails: a rejected call can cost a later one its admission. */
  lemma ErasureNeedsOrder()
    ensures var l := Limit(1.0, 1000000000.0);
            var rs := [Request(10, 1.0), Request(20, 2.0), Request(15, 1.0)];
            && Decisions(l, UNUSED, rs) == [true, false, false]
            && Decisions(l, UNUSED, Kept(rs, [true, false, true])) == [true, true]
  {
  }

  // ----- Many keys

  datatype Call = Call(key: string, request: Request)

  function BucketOf(m: map<string, Bucket>, key: string): Bucket {
    if key in m then m[key] else UNUSED
  }

  function AllowKey(l: Limit, m: map<string, Bucket>, call: Call): (map<string, Bucket>, bool) {
    var d := Decide(l, BucketOf(m, call.key), call.request);
    (m[call.key := d.bucket], d.allowed)
  }

  function AllDecisions(l: Limit, m: map<string, Bucket>, calls: seq<Call>): (ds: seq<bool>)
    ensures |ds| == |calls|
    decreases |calls|
  {
    if calls == [] then []
    else [AllowKey(l, m, calls[0]).1] + AllDecisions(l, AllowKey(l, m, calls[0]).0, calls[1..])
  }

  function RequestsOf(calls: seq<Call>, key: string): seq<Request> {
    if calls == [] then []
    else (if calls[0].key == key then [calls[0].request] else []) + RequestsOf(calls[1..], key)
  }

  function DecisionsFor(calls: seq<Call>, ds: seq<bool>, key: string): seq<bool>
    requires |calls| == |ds|
  {
    if calls == [] then []
    else (if calls[0].key == key then [ds[0]] else []) + DecisionsFor(calls[1..], ds[1..], key)
  }

  /** The decisions for a key are those of a bucket of its own that sees only that key's calls. */
  lemma {:induction false} KeysAreIsolated(l: Limit, m: map<string, Bucket>, calls: seq<Call>, key: string)
    ensures DecisionsFor(calls, AllDecisions(l, m, calls), key) == Decisions(l, BucketOf(m, key), RequestsOf(calls, key))
    decreases |calls|
  {
    hide Decide;
    if calls == [] {
    } else {
      var m' := AllowKey(l, m, calls[0]).0;
      KeysAreIsolated(l, m', calls[1..], key);
      assert AllDecisions(l, m, calls)[1..] == AllDecisions(l, m', calls[1..]);
      if calls[0].key == key {
        var rs := RequestsOf(calls, key);
        assert rs[0] == calls[0].request && rs[1..] == RequestsOf(calls[1..], key);
      } else {
        assert BucketOf(m', key) == BucketOf(m, key);
        assert RequestsOf(calls, key) == RequestsOf(calls[1..], key);
      }
    }
  }
}
