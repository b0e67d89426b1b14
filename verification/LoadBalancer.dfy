/** Backend selection (include/routing/LoadBalancer.hpp), by one caller at a time over fixed health flags. */
module LoadBalancer {
  import opened Text

  datatype Choice = Choice(backend: Option<nat>, counter: nat)

  /** Takes up to `budget` tickets and stops at the first one that names a healthy backend. */
  function TakeTickets(healthy: seq<bool>, counter: nat, budget: nat): (c: Choice)
    requires healthy != []
    decreases budget
  {
    if budget == 0 then Choice(None, counter)
    else
      var idx := counter % |healthy|;
      if healthy[idx] then Choice(Some(idx), counter + 1) else TakeTickets(healthy, counter + 1, budget - 1)
  }

  class LoadBalancer {
    const size: nat
    var healthy: seq<bool>
    var active: seq<int>
    var counter: nat

    predicate Valid()
      reads this
    {
      |healthy| == size && |active| == size
    }

    constructor (healthy: seq<bool>, active: seq<int>)
      requires |healthy| == |active|
      ensures Valid() && this.healthy == healthy && this.active == active && counter == 0
    {
      size := |healthy|;
      this.healthy, this.active, counter := healthy, active, 0;
    }

    method PickRoundRobin() returns (backend: Option<nat>)
      requires Valid() && size > 0
      modifies `counter
      ensures Choice(backend, counter) == TakeTickets(healthy, old(counter), size)
    {
      for i := 0 to size
        invariant TakeTickets(healthy, old(counter), size) == TakeTickets(healthy, counter, size - i)
      {
        var idx := counter % size;
        counter := counter + 1;
        if healthy[idx] { return Some(idx); }
      }
      return None;
    }

    /** The first healthy backend with the fewest connections; none exactly when none is healthy. */
    method PickLeastConnections() returns (best: Option<nat>)
      requires Valid()
      ensures best.None? <==> forall i :: 0 <= i < size ==> !healthy[i]
      ensures best.Some? ==>
                && best.value < size && healthy[best.value]
                && (forall i :: 0 <= i < size && healthy[i] ==> active[best.value] <= active[i])
                && (forall i :: 0 <= i < best.value && healthy[i] ==> active[best.value] < active[i])
    {
      best := None;
      var bestConns := -1;
      for i := 0 to size
        invariant best.None? ==> forall j :: 0 <= j < i ==> !healthy[j]
        invariant best.Some? ==>
                    && best.value < i && healthy[best.value] && bestConns == active[best.value]
                    && (forall j :: 0 <= j < i && healthy[j] ==> bestConns <= active[j])
                    && (forall j :: 0 <= j < best.value && healthy[j] ==> bestConns < active[j])
      {
        if healthy[i] {
          var conns := active[i];
          if best.None? || conns < bestConns {
            best, bestConns := Some(i), conns;
          }
        }
      }
    }
  }

  // ----- Tickets

  function Named(healthy: seq<bool>, ticket: nat): seq<nat>
    requires healthy != []
  {
    if healthy[ticket % |healthy|] then [ticket % |healthy|] else []
  }

  /** The healthy backends named by the tickets from `counter` on, in order. */
  function HealthyRun(healthy: seq<bool>, counter: nat, length: nat): seq<nat>
    requires healthy != []
  {
    if length == 0 then [] else HealthyRun(healthy, counter, length - 1) + Named(healthy, counter + length - 1)
  }

  lemma {:induction false} RunFront(healthy: seq<bool>, counter: nat, length: nat)
    requires healthy != [] && length > 0
    ensures HealthyRun(healthy, counter, length) == Named(healthy, counter) + HealthyRun(healthy, counter + 1, length - 1)
  {
    hide Named;
    if length == 1 {
      assert HealthyRun(healthy, counter, 0) == [];
      assert [] + Named(healthy, counter) == Named(healthy, counter) + [];
    } else {
      RunFront(healthy, counter, length - 1);
    }
  }

  /** Shifting a whole round by one ticket only moves the first backend to the end. */
  lemma RoundShifts(healthy: seq<bool>, counter: nat)
    requires healthy != []
    ensures multiset(HealthyRun(healthy, counter + 1, |healthy|)) == multiset(HealthyRun(healthy, counter, |healthy|))
  {
    var n := |healthy|;
    RunFront(healthy, counter, n);
    SameTicket(counter, n);
    assert Named(healthy, counter + n) == Named(healthy, counter);
    assert HealthyRun(healthy, counter + 1, n) == HealthyRun(healthy, counter + 1, n - 1) + Named(healthy, counter + n);
  }

  lemma SameTicket(counter: nat, n: nat)
    requires n > 0
    ensures (counter + n) % n == counter % n
  {
    var q, r := counter / n, counter % n;
    assert counter + n == (q + 1) * n + r;
    ModUnique(counter + n, q + 1, r, n);
  }

  lemma ModUnique(x: int, q: int, r: int, n: int)
    requires n > 0 && 0 <= r < n && x == q * n + r
    ensures x % n == r
  {
    var d := x / n - q;
    assert x == (x / n) * n + x % n;
    assert d * n == r - x % n;
    assert d >= 1 ==> d * n >= n;
    assert d <= -1 ==> d * n <= -n;
  }

  lemma FirstRoundNames(healthy: seq<bool>, ticket: nat)
    requires ticket < |healthy|
    ensures Named(healthy, ticket) == if healthy[ticket] then [ticket] else []
  {
    assert ticket % |healthy| == ticket;
  }

  lemma {:induction false} RunFromZero(healthy: seq<bool>, length: nat)
    requires healthy != [] && length <= |healthy|
    ensures forall i :: multiset(HealthyRun(healthy, 0, length))[i] == if 0 <= i < length && healthy[i] then 1 else 0
  {
    hide Named;
    if length == 0 {
    } else {
      var n := length - 1;
      RunFromZero(healthy, n);
      FirstRoundNames(healthy, n);
      var run := HealthyRun(healthy, 0, n);
      assert HealthyRun(healthy, 0, length) == run + Named(healthy, n);
      assert multiset(run + Named(healthy, n)) == multiset(run) + multiset(Named(healthy, n));
    }
  }

  /** Every round of |backends| tickets names each healthy backend exactly once. */
  lemma {:induction false} RoundNamesEachOnce(healthy: seq<bool>, counter: nat)
    requires healthy != []
    ensures forall i :: multiset(HealthyRun(healthy, counter, |healthy|))[i] ==
                        if 0 <= i < |healthy| && healthy[i] then 1 else 0
  {
    hide HealthyRun;
    if counter == 0 {
      RunFromZero(healthy, |healthy|);
    } else {
      RoundNamesEachOnce(healthy, counter - 1);
      RoundShifts(healthy, counter - 1);
    }
  }

  // ----- Picks

  function Picks(healthy: seq<bool>, counter: nat, m: nat): seq<Option<nat>>
    requires healthy != []
    decreases m
  {
    if m == 0 then []
    else
      var c := TakeTickets(healthy, counter, |healthy|);
      [c.backend] + Picks(healthy, c.counter, m - 1)
  }

  /** With budget for it, a pick is the next healthy ticket, and leaves the tickets after it. */
  lemma {:induction false} PickIsNextTicket(healthy: seq<bool>, counter: nat, length: nat, budget: nat) returns (rest: nat)
    requires healthy != [] && HealthyRun(healthy, counter, length) != []
    requires HealthyRun(healthy, counter, budget) != []
    ensures var c := TakeTickets(healthy, counter, budget); var run := HealthyRun(healthy, counter, length);
            && c.backend == Some(run[0]) && HealthyRun(healthy, c.counter, rest) == run[1..]
    decreases length
  {
    hide HealthyRun;
    NonEmptyRun(healthy, counter, length);
    NonEmptyRun(healthy, counter, budget);
    RunFront(healthy, counter, length);
    RunFront(healthy, counter, budget);
    if healthy[counter % |healthy|] {
      rest := length - 1;
    } else {
      assert HealthyRun(healthy, counter, length) == HealthyRun(healthy, counter + 1, length - 1);
      rest := PickIsNextTicket(healthy, counter + 1, length - 1, budget - 1);
    }
  }

  lemma NonEmptyRun(healthy: seq<bool>, counter: nat, length: nat)
    requires healthy != [] && HealthyRun(healthy, counter, length) != []
    ensures length > 0
  {
  }

  function Wrap(xs: seq<nat>): (r: seq<Option<nat>>)
    ensures |r| == |xs| && forall i :: 0 <= i < |xs| ==> r[i] == Some(xs[i])
  {
    if xs == [] then [] else [Some(xs[0])] + Wrap(xs[1..])
  }

  lemma {:induction false} PicksFollowTickets(healthy: seq<bool>, counter: nat, length: nat)
    requires healthy != [] && (exists i :: 0 <= i < |healthy| && healthy[i])
    ensures Picks(healthy, counter, |HealthyRun(healthy, counter, length)|) == Wrap(HealthyRun(healthy, counter, length))
    decreases |HealthyRun(healthy, counter, length)|
  {
    hide HealthyRun, TakeTickets;
    var run := HealthyRun(healthy, counter, length);
    if run == [] {
    } else {
      RoundIsNotEmpty(healthy, counter);
      var rest := PickIsNextTicket(healthy, counter, length, |healthy|);
      PicksFollowTickets(healthy, TakeTickets(healthy, counter, |healthy|).counter, rest);
    }
  }

  lemma RoundIsNotEmpty(healthy: seq<bool>, counter: nat)
    requires healthy != [] && (exists i :: 0 <= i < |healthy| && healthy[i])
    ensures HealthyRun(healthy, counter, |healthy|) != []
  {
    hide HealthyRun;
    RoundNamesEachOnce(healthy, counter);
    var i :| 0 <= i < |healthy| && healthy[i];
    assert multiset(HealthyRun(healthy, counter, |healthy|))[i] == 1;
    assert i in multiset(HealthyRun(healthy, counter, |healthy|));
  }

  /**
    From any counter, the next |H| picks are the healthy backends H, each exactly once, however
    many unhealthy ones lie between them.
   */
  lemma RoundRobinIsFair(healthy: seq<bool>, counter: nat) returns (order: seq<nat>)
    requires healthy != [] && (exists i :: 0 <= i < |healthy| && healthy[i])
    ensures Picks(healthy, counter, |order|) == Wrap(order)
    ensures forall i :: multiset(order)[i] == if 0 <= i < |healthy| && healthy[i] then 1 else 0
  {
    order := HealthyRun(healthy, counter, |healthy|);
    PicksFollowTickets(healthy, counter, |healthy|);
    RoundNamesEachOnce(healthy, counter);
  }

  lemma {:induction false} NothingNamed(healthy: seq<bool>, counter: nat, budget: nat)
    requires healthy != [] && forall i :: 0 <= i < |healthy| ==> !healthy[i]
    ensures TakeTickets(healthy, counter, budget).backend == None
    decreases budget
  {
    if budget == 0 {
    } else {
      NothingNamed(healthy, counter + 1, budget - 1);
    }
  }

  /** A pick comes back empty exactly when no backend is healthy, and otherwise names a healthy one. */
  lemma PickFailsOnlyWithoutHealthy(healthy: seq<bool>, counter: nat)
    requires healthy != []
    ensures var c := TakeTickets(healthy, counter, |healthy|);
            && (c.backend.None? <==> forall i :: 0 <= i < |healthy| ==> !healthy[i])
            && (c.backend.Some? ==> c.backend.value < |healthy| && healthy[c.backend.value])
  {
    hide TakeTickets, HealthyRun;
    if exists i :: 0 <= i < |healthy| && healthy[i] {
      RoundIsNotEmpty(healthy, counter);
      var rest := PickIsNextTicket(healthy, counter, |healthy|, |healthy|);
      RoundNamesEachOnce(healthy, counter);
      var run := HealthyRun(healthy, counter, |healthy|);
      assert run[0] in multiset(run);
    } else {
      NothingNamed(healthy, counter, |healthy|);
    }
  }
}
