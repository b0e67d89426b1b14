/** Idle backend connections, keyed by "host:port" (src/network/ConnectionPool.cpp). */
module Pool {
  import opened Text
  import opened Decimal

  datatype Address = Address(host: string, port: nat)

  function Key(a: Address): string {
    a.host + ":" + Print(a.port)
  }

  /** Different addresses never share a deque, even when a host name holds colons or digits. */
  lemma KeyInjective(a: Address, b: Address)
    requires Key(a) == Key(b)
    ensures a == b
  {
    hide Print;
    var s := Key(a);
    var m, n := |a.host|, |b.host|;
    assert s[m] == ':' && s[n] == ':';
    assert s[m + 1..] == Print(a.port) && s[n + 1..] == Print(b.port);
    assert forall i :: m < i < |s| ==> s[i] == Print(a.port)[i - m - 1];
    assert forall i :: n < i < |s| ==> s[i] == Print(b.port)[i - n - 1];
    assert m == n;
    assert s[..m] == a.host && s[..n] == b.host;
    PrintInjective(a.port, b.port);
  }

  type Idle = map<string, seq<int>>

  function Deque(idle: Idle, key: string): seq<int> {
    if key in idle then idle[key] else []
  }

  /** The locked part of `acquire`: the oldest idle descriptor, if there is one. */
  function TakeIdle(idle: Idle, key: string): (Idle, Option<int>) {
    var dq := Deque(idle, key);
    if dq == [] then (idle, None) else (idle[key := dq[1..]], Some(dq[0]))
  }

  datatype Released = Released(idle: Idle, closed: bool)

  /** `release` keeps the descriptor unless the deque is full, in which case it is closed. */
  function PutBack(idle: Idle, key: string, fd: int, maxIdle: nat): Released {
    var dq := Deque(idle, key);
    if |dq| >= maxIdle then Released(idle[key := dq], true) else Released(idle[key := dq + [fd]], false)
  }

  function Emptied(idle: Idle): Idle {
    map k | k in idle :: []
  }

  /** The descriptors of these deques, one deque after the other. */
  function Gathered(idle: Idle, order: seq<string>): seq<int> {
    if order == [] then [] else Gathered(idle, order[..|order| - 1]) + Deque(idle, order[|order| - 1])
  }

  lemma GatheredSnoc(idle: Idle, order: seq<string>, k: string)
    ensures Gathered(idle, order + [k]) == Gathered(idle, order) + Deque(idle, k)
  {
    assert (order + [k])[..|order|] == order;
  }

  class ConnectionPool {
    const maxIdle: nat
    var idle: Idle
    ghost var closed: seq<int>  // every close() call, in order

    constructor (maxIdle: nat)
      ensures this.maxIdle == maxIdle && idle == map[] && closed == []
    {
      this.maxIdle := maxIdle;
      idle, closed := map[], [];
    }

    /** `dialled` is what `dialNew` would return: a new descriptor or -1. */
    method Acquire(a: Address, dialled: int) returns (fd: int)
      modifies this
      ensures closed == old(closed)
      ensures var (idle', taken) := TakeIdle(old(idle), Key(a));
              idle == idle' && fd == if taken.Some? then taken.value else dialled
    {
      var k := Key(a);
      if k in idle && idle[k] != [] {
        fd := idle[k][0];
        idle := idle[k := idle[k][1..]];
        return;
      }
      fd := dialled;
    }

    method Release(a: Address, fd: int)
      modifies this
      ensures var r := PutBack(old(idle), Key(a), fd, maxIdle);
              idle == r.idle && closed == if r.closed then old(closed) + [fd] else old(closed)
    {
      var k := Key(a);
      if k !in idle { idle := idle[k := []]; }
      if |idle[k]| >= maxIdle {
        closed := closed + [fd];
        return;
      }
      idle := idle[k := idle[k] + [fd]];
    }

    method Discard(fd: int)
      modifies this
      ensures idle == old(idle)
      ensures closed == if fd >= 0 then old(closed) + [fd] else old(closed)
    {
      if fd >= 0 { closed := closed + [fd]; }
    }

    method IdleCount(a: Address) returns (n: nat)
      ensures n == |Deque(idle, Key(a))|
    {
      n := if Key(a) in idle then |idle[Key(a)]| else 0;
    }

    /** Closes every idle descriptor, once for each place it has in a deque, the deques in any order. */
    method CloseAll() returns (ghost order: seq<string>)
      modifies this
      ensures idle == Emptied(old(idle))
      ensures Enumerates(order, old(idle)) && closed == old(closed) + Gathered(old(idle), order)
      ensures forall fd :: (fd in closed[|old(closed)|..] <==> exists k :: k in old(idle) && fd in old(idle)[k])
    {
      hide Gathered;
      ghost var all := idle;
      order := [];
      GatheredMembers(all, order);
      var keys := idle.Keys;
      while keys != {}
        invariant keys <= all.Keys && idle.Keys == all.Keys
        invariant forall k :: k in all ==> idle[k] == if k in keys then all[k] else []
        invariant Enumerates(order, all - keys)
        invariant closed == old(closed) + Gathered(all, order)
        decreases keys
      {
        var k :| k in keys;
        GatheredSnoc(all, order, k);
        Another(order, all, keys, k);
        closed := closed + idle[k];
        order := order + [k];
        idle := idle[k := []];
        keys := keys - {k};
      }
      assert all - keys == all;
      GatheredMembers(all, order);
      assert closed[|old(closed)|..] == Gathered(all, order);
    }
  }

  lemma Another(order: seq<string>, all: Idle, keys: set<string>, k: string)
    requires Enumerates(order, all - keys) && k in keys && k in all
    ensures Enumerates(order + [k], all - (keys - {k}))
  {
    assert forall x :: x in order + [k] <==> x in order || x == k;
    assert k !in order;
    assert forall i :: 0 <= i < |order| ==> (order + [k])[i] == order[i] && order[i] in order;
  }

  lemma {:induction false} GatheredMembers(idle: Idle, order: seq<string>)
    ensures forall fd :: fd in Gathered(idle, order) <==> exists k :: k in order && fd in Deque(idle, k)
    ensures order == [] ==> Gathered(idle, order) == []
  {
    if order == [] {
    } else {
      var before, last := order[..|order| - 1], order[|order| - 1];
      GatheredMembers(idle, before);
      assert order == before + [last];
    }
  }
}
