/**
  The cache of include/cache/LRUCache.hpp as a recency list, most recent first, and what
  whole runs of its operations guarantee.
 */
module LruSpec {
  import opened Text

  datatype Entry<V> = Entry(key: string, value: V, at: int)

  datatype Limits = Limits(capacity: nat, ttl: int)

  predicate HasKey<V>(list: seq<Entry<V>>, key: string) {
    exists i :: 0 <= i < |list| && list[i].key == key
  }

  predicate DistinctKeys<V>(list: seq<Entry<V>>) {
    forall i, j :: 0 <= i < j < |list| ==> list[i].key != list[j].key
  }

  function Lookup<V>(list: seq<Entry<V>>, key: string): (r: Option<Entry<V>>)
    ensures r.Some? ==> r.value in list && r.value.key == key
    ensures r.None? <==> !HasKey(list, key)
  {
    if list == [] then None
    else if list[0].key == key then assert HasKey(list, key); Some(list[0])
    else
      assert HasKey(list[1..], key) ==> HasKey(list, key) by {
        if HasKey(list[1..], key) {
          var i :| 0 <= i < |list[1..]| && list[1..][i].key == key;
          assert list[i + 1].key == key;
        }
      }
      assert HasKey(list, key) ==> HasKey(list[1..], key) by {
        if HasKey(list, key) {
          var i :| 0 <= i < |list| && list[i].key == key;
          assert list[1..][i - 1].key == key;
        }
      }
      Lookup(list[1..], key)
  }

  function Remove<V>(list: seq<Entry<V>>, key: string): (r: seq<Entry<V>>)
    ensures |r| <= |list|
  {
    if list == [] then []
    else if list[0].key == key then Remove(list[1..], key)
    else [list[0]] + Remove(list[1..], key)
  }

  predicate Expired<V>(e: Entry<V>, now: int, ttl: int) {
    ttl > 0 && now - e.at > ttl
  }

  datatype Answer<V> = Answer(list: seq<Entry<V>>, out: Option<V>)

  /** A hit moves its entry to the front; an expired entry is dropped and misses. */
  function Get<V>(list: seq<Entry<V>>, key: string, now: int, ttl: int): Answer<V> {
    match Lookup(list, key)
    case None => Answer(list, None)
    case Some(e) =>
      if Expired(e, now, ttl) then Answer(Remove(list, key), None)
      else Answer([e] + Remove(list, key), Some(e.value))
  }

  function Evict<V>(list: seq<Entry<V>>, capacity: nat): seq<Entry<V>> {
    if |list| > capacity then list[..|list| - 1] else list
  }

  function Put<V>(list: seq<Entry<V>>, key: string, value: V, now: int, capacity: nat): seq<Entry<V>> {
    if HasKey(list, key) then [Entry(key, value, now)] + Remove(list, key)
    else Evict([Entry(key, value, now)] + list, capacity)
  }

  datatype Op<V> = OpGet(key: string, now: int) | OpPut(key: string, value: V, now: int) | OpInvalidate(key: string) | OpClear

  function Apply<V>(list: seq<Entry<V>>, op: Op<V>, l: Limits): Answer<V> {
    match op
    case OpGet(key, now) => Get(list, key, now, l.ttl)
    case OpPut(key, value, now) => Answer(Put(list, key, value, now, l.capacity), None)
    case OpInvalidate(key) => Answer(Remove(list, key), None)
    case OpClear => Answer([], None)
  }

  /** The list after a run from the empty cache. */
  function Run<V>(ops: seq<Op<V>>, l: Limits): seq<Entry<V>> {
    if ops == [] then [] else Apply(Run(ops[..|ops| - 1], l), ops[|ops| - 1], l).list
  }

  // ----- Removing one key

  lemma {:induction false} RemoveMember<V>(list: seq<Entry<V>>, key: string, e: Entry<V>)
    ensures e in Remove(list, key) <==> e in list && e.key != key
  {
    if list == [] {
    } else {
      RemoveMember(list[1..], key, e);
      assert e in list <==> e == list[0] || e in list[1..];
    }
  }

  lemma {:induction false} RemoveDistinct<V>(list: seq<Entry<V>>, key: string)
    requires DistinctKeys(list)
    ensures DistinctKeys(Remove(list, key))
  {
    if list == [] {
    } else {
      var tail := list[1..];
      RemoveDistinct(tail, key);
      if list[0].key != key {
        var r := Remove(tail, key);
        forall i | 0 <= i < |r|
          ensures r[i].key != list[0].key
        {
          RemoveMember(tail, key, r[i]);
          assert r[i] in tail;
          var k :| 0 <= k < |tail| && tail[k] == r[i];
          assert list[k + 1] == r[i];
        }
        FrontIsNew(r, list[0]);
      }
    }
  }

  lemma RemoveMeans<V>(list: seq<Entry<V>>, key: string)
    ensures forall e :: e in Remove(list, key) <==> e in list && e.key != key
    ensures !HasKey(Remove(list, key), key)
    ensures DistinctKeys(list) ==> DistinctKeys(Remove(list, key))
  {
    hide Remove, DistinctKeys;
    forall e: Entry<V>
      ensures e in Remove(list, key) <==> e in list && e.key != key
    {
      RemoveMember(list, key, e);
    }
    var r := Remove(list, key);
    forall i | 0 <= i < |r|
      ensures r[i].key != key
    {
      RemoveMember(list, key, r[i]);
    }
    if DistinctKeys(list) { RemoveDistinct(list, key); }
  }

  lemma {:induction false} RemoveAbsent<V>(list: seq<Entry<V>>, key: string)
    requires !HasKey(list, key)
    ensures Remove(list, key) == list
  {
    if list == [] {
    } else {
      assert list[0].key != key;
      assert forall i :: 0 <= i < |list[1..]| ==> list[1..][i] == list[i + 1];
      RemoveAbsent(list[1..], key);
    }
  }

  lemma {:induction false} RemoveAt<V>(list: seq<Entry<V>>, k: nat)
    requires DistinctKeys(list) && k < |list|
    ensures Remove(list, list[k].key) == list[..k] + list[k + 1..]
    ensures Lookup(list, list[k].key) == Some(list[k])
  {
    var tail := list[1..];
    if k == 0 {
      assert !HasKey(tail, list[0].key);
      RemoveAbsent(tail, list[0].key);
    } else {
      assert tail[k - 1] == list[k];
      RemoveAt(tail, k - 1);
      assert list[..k] + list[k + 1..] == [list[0]] + (tail[..k - 1] + tail[k..]);
    }
  }

  lemma RemoveCount<V>(list: seq<Entry<V>>, key: string)
    requires DistinctKeys(list) && HasKey(list, key)
    ensures |Remove(list, key)| == |list| - 1
  {
    var i :| 0 <= i < |list| && list[i].key == key;
    RemoveAt(list, i);
  }

  // ----- Shape of the list on every run

  lemma ApplyKeepsShape<V>(list: seq<Entry<V>>, op: Op<V>, l: Limits)
    requires DistinctKeys(list) && |list| <= l.capacity
    ensures DistinctKeys(Apply(list, op, l).list) && |Apply(list, op, l).list| <= l.capacity
  {
    hide Remove, HasKey;
    match op
    case OpClear =>
    case OpInvalidate(key) => RemoveMeans(list, key);
    case OpGet(key, now) =>
      RemoveMeans(list, key);
      match Lookup(list, key) {
        case None =>
        case Some(e) => RemoveCount(list, key); FrontIsNew(Remove(list, key), e);
      }
    case OpPut(key, value, now) =>
      RemoveMeans(list, key);
      if HasKey(list, key) {
        RemoveCount(list, key);
        FrontIsNew(Remove(list, key), Entry(key, value, now));
      } else {
        FrontIsNew(list, Entry(key, value, now));
      }
  }

  lemma FrontIsNew<V>(list: seq<Entry<V>>, e: Entry<V>)
    requires DistinctKeys(list) && !HasKey(list, e.key)
    ensures DistinctKeys([e] + list)
  {
  }

  lemma {:induction false} RunKeepsShape<V>(ops: seq<Op<V>>, l: Limits)
    ensures DistinctKeys(Run(ops, l)) && |Run(ops, l)| <= l.capacity
  {
    hide Apply;
    if ops == [] {
    } else {
      RunKeepsShape(ops[..|ops| - 1], l);
      ApplyKeepsShape(Run(ops[..|ops| - 1], l), ops[|ops| - 1], l);
    }
  }

  // ----- Freshness: a hit is the last put

  /** The entry the last put of a key stored, unless it was invalidated since. */
  function LastPut<V>(ops: seq<Op<V>>, key: string): Option<Entry<V>> {
    if ops == [] then None
    else
      var op := ops[|ops| - 1];
      if op.OpPut? && op.key == key then Some(Entry(key, op.value, op.now))
      else if op.OpClear? || (op.OpInvalidate? && op.key == key) then None
      else LastPut(ops[..|ops| - 1], key)
  }

  lemma {:induction false} StoredIsLastPut<V>(ops: seq<Op<V>>, l: Limits, e: Entry<V>)
    requires e in Run(ops, l)
    ensures LastPut(ops, e.key) == Some(e)
  {
    hide Remove, HasKey;
    var before, op := ops[..|ops| - 1], ops[|ops| - 1];
    var list := Run(before, l);
    if op.OpClear? {
    } else {
      RemoveMeans(list, op.key);
      if op.OpPut? && e.key == op.key {
        NewEntryOnly(list, op.key, op.value, op.now, l.capacity, e);
      } else {
        assert e in list;
        StoredIsLastPut(before, l, e);
      }
    }
  }

  lemma NewEntryOnly<V>(list: seq<Entry<V>>, key: string, value: V, now: int, capacity: nat, e: Entry<V>)
    requires e in Put(list, key, value, now, capacity) && e.key == key
    ensures e == Entry(key, value, now)
  {
    hide Remove;
    RemoveMeans(list, key);
    if e in list { assert HasKey(list, key); }
  }

  /** A hit returns what the last put of that key stored, at most the time to live ago and not invalidated since. */
  lemma HitIsFresh<V>(ops: seq<Op<V>>, l: Limits, key: string, now: int)
    requires Get(Run(ops, l), key, now, l.ttl).out.Some?
    ensures var v := Get(Run(ops, l), key, now, l.ttl).out.value;
            var put := LastPut(ops, key);
            put.Some? && put.value.value == v && (l.ttl <= 0 || now - put.value.at <= l.ttl)
  {
    hide Run, LastPut, Remove;
    StoredIsLastPut(ops, l, Lookup(Run(ops, l), key).value);
  }

  // ----- Inclusion: a larger cache holds everything a smaller one holds

  predicate Subsequence<V(==)>(a: seq<Entry<V>>, b: seq<Entry<V>>) {
    if a == [] then true
    else if b == [] then false
    else if a[0] == b[0] then Subsequence(a[1..], b[1..])
    else Subsequence(a, b[1..])
  }

  lemma {:induction false} SubsequenceMembers<V>(a: seq<Entry<V>>, b: seq<Entry<V>>)
    requires Subsequence(a, b)
    ensures forall e :: e in a ==> e in b
    decreases |b|
  {
    if a == [] {
    } else {
      if a[0] == b[0] { SubsequenceMembers(a[1..], b[1..]); } else { SubsequenceMembers(a, b[1..]); }
      forall e | e in a
        ensures e in b
      {
        if a[0] == b[0] && e != a[0] { assert e in a[1..]; }
      }
    }
  }

  lemma {:induction false} SubsequenceSkips<V>(a: seq<Entry<V>>, b: seq<Entry<V>>)
    requires a != [] && Subsequence(a, b)
    ensures Subsequence(a[1..], b)
    decreases |b|
  {
    if a[0] == b[0] {
      if a[1..] != [] {
        if a[1..][0] == b[0] { SubsequenceSkips(a[1..], b[1..]); }
      }
    } else {
      SubsequenceSkips(a, b[1..]);
      if a[1..] != [] && a[1..][0] == b[0] { SubsequenceSkips(a[1..], b[1..]); }
    }
  }

  lemma SubsequenceGrows<V>(a: seq<Entry<V>>, b: seq<Entry<V>>, e: Entry<V>)
    requires Subsequence(a, b)
    ensures Subsequence(a, [e] + b)
  {
    assert ([e] + b)[1..] == b;
    if a != [] && a[0] == e { SubsequenceSkips(a, b); }
  }

  lemma {:induction false} SubsequenceRemove<V>(a: seq<Entry<V>>, b: seq<Entry<V>>, key: string)
    requires Subsequence(a, b)
    ensures Subsequence(Remove(a, key), Remove(b, key))
    decreases |b|
  {
    if a == [] {
    } else {
      if a[0] == b[0] {
        SubsequenceRemove(a[1..], b[1..], key);
        if a[0].key != key {
          assert Remove(a, key)[1..] == Remove(a[1..], key);
          assert Remove(b, key)[1..] == Remove(b[1..], key);
        }
      } else {
        SubsequenceRemove(a, b[1..], key);
        if b[0].key != key { SubsequenceGrows(Remove(a, key), Remove(b[1..], key), b[0]); }
      }
    }
  }

  lemma {:induction false} SubsequenceDropBoth<V>(a: seq<Entry<V>>, b: seq<Entry<V>>)
    requires a != [] && Subsequence(a, b)
    ensures b != [] && Subsequence(a[..|a| - 1], b[..|b| - 1])
    decreases |b|
  {
    var a', b' := a[..|a| - 1], b[..|b| - 1];
    if a[0] == b[0] {
      if |a| > 1 {
        SubsequenceDropBoth(a[1..], b[1..]);
        assert a'[1..] == a[1..][..|a| - 2];
        assert b'[1..] == b[1..][..|b| - 2];
      }
    } else {
      SubsequenceDropBoth(a, b[1..]);
      assert b'[1..] == b[1..][..|b| - 2];
      assert b' == [b[0]] + b'[1..];
      SubsequenceGrows(a', b'[1..], b[0]);
    }
  }

  lemma {:induction false} SubsequencePrefix<V>(a: seq<Entry<V>>, b: seq<Entry<V>>)
    requires a != [] && Subsequence(a, b)
    ensures Subsequence(a[..|a| - 1], b)
    decreases |b|
  {
    if a[0] == b[0] {
      if |a| > 1 {
        SubsequencePrefix(a[1..], b[1..]);
        assert a[..|a| - 1][1..] == a[1..][..|a| - 2];
      }
    } else {
      SubsequencePrefix(a, b[1..]);
      if |a| > 1 { assert a[..|a| - 1][0] == a[0]; }
    }
  }

  lemma FrontBoth<V>(a: seq<Entry<V>>, b: seq<Entry<V>>, e: Entry<V>)
    requires Subsequence(a, b)
    ensures Subsequence([e] + a, [e] + b)
  {
  }

  /** The small list is part of the big one, in order, and the big cache has at least as much room left. */
  ghost predicate Included<V>(small: seq<Entry<V>>, c: nat, big: seq<Entry<V>>, C: nat) {
    && DistinctKeys(small) && DistinctKeys(big) && |small| <= c && |big| <= C
    && Subsequence(small, big)
    && C - |big| >= c - |small|
  }

  lemma LookupIncluded<V>(small: seq<Entry<V>>, c: nat, big: seq<Entry<V>>, C: nat, key: string)
    requires Included(small, c, big, C)
    ensures Lookup(small, key).Some? ==> Lookup(big, key) == Lookup(small, key)
    ensures HasKey(small, key) ==> HasKey(big, key)
  {
    hide Subsequence;
    SubsequenceMembers(small, big);
    if Lookup(small, key).Some? {
      var e := Lookup(small, key).value;
      assert e in big;
      var i :| 0 <= i < |big| && big[i] == e;
      RemoveAt(big, i);
    }
  }

  lemma RemoveKeepsIncluded<V>(small: seq<Entry<V>>, c: nat, big: seq<Entry<V>>, C: nat, key: string)
    requires Included(small, c, big, C)
    ensures Included(Remove(small, key), c, Remove(big, key), C)
  {
    hide Subsequence, Remove;
    LookupIncluded(small, c, big, C, key);
    SubsequenceRemove(small, big, key);
    RemoveMeans(small, key);
    RemoveMeans(big, key);
    if HasKey(small, key) { RemoveCount(small, key); } else { RemoveAbsent(small, key); }
    if HasKey(big, key) { RemoveCount(big, key); } else { RemoveAbsent(big, key); }
  }

  lemma GetKeepsIncluded<V>(small: seq<Entry<V>>, c: nat, big: seq<Entry<V>>, C: nat, key: string, now: int, ttl: int)
    requires Included(small, c, big, C)
    ensures Included(Get(small, key, now, ttl).list, c, Get(big, key, now, ttl).list, C)
    ensures Get(small, key, now, ttl).out.Some? ==> Get(big, key, now, ttl).out == Get(small, key, now, ttl).out
  {
    hide Subsequence, Remove, DistinctKeys;
    LookupIncluded(small, c, big, C, key);
    RemoveKeepsIncluded(small, c, big, C, key);
    ApplyKeepsShape(small, OpGet(key, now), Limits(c, ttl));
    ApplyKeepsShape(big, OpGet(key, now), Limits(C, ttl));
    var s, b := Remove(small, key), Remove(big, key);
    if Lookup(small, key).Some? {
      RemoveCount(small, key);
      RemoveCount(big, key);
      FrontBoth(s, b, Lookup(small, key).value);
    } else {
      RemoveAbsent(small, key);
      if Lookup(big, key).Some? {
        RemoveCount(big, key);
        SubsequenceGrows(s, b, Lookup(big, key).value);
      }
    }
  }

  lemma PutKeepsIncluded<V>(small: seq<Entry<V>>, c: nat, big: seq<Entry<V>>, C: nat, key: string, value: V, now: int)
    requires Included(small, c, big, C)
    ensures Included(Put(small, key, value, now, c), c, Put(big, key, value, now, C), C)
  {
    hide Subsequence, Remove, DistinctKeys;
    var e := Entry(key, value, now);
    LookupIncluded(small, c, big, C, key);
    RemoveKeepsIncluded(small, c, big, C, key);
    ApplyKeepsShape(small, OpPut(key, value, now), Limits(c, 0));
    ApplyKeepsShape(big, OpPut(key, value, now), Limits(C, 0));
    var s, b := Remove(small, key), Remove(big, key);
    FrontBoth(s, b, e);
    if HasKey(small, key) {
      RemoveCount(small, key);
      RemoveCount(big, key);
    } else {
      RemoveAbsent(small, key);
      if HasKey(big, key) { RemoveCount(big, key); } else { RemoveAbsent(big, key); }
      var s', b' := [e] + small, [e] + b;
      SubsequenceDropBoth(s', b');
      SubsequencePrefix(s', b');
    }
  }

  lemma ApplyKeepsIncluded<V>(small: seq<Entry<V>>, c: nat, big: seq<Entry<V>>, C: nat, op: Op<V>, ttl: int)
    requires Included(small, c, big, C) && c <= C
    ensures Included(Apply(small, op, Limits(c, ttl)).list, c, Apply(big, op, Limits(C, ttl)).list, C)
    ensures Apply(small, op, Limits(c, ttl)).out.Some? ==>
              Apply(big, op, Limits(C, ttl)).out == Apply(small, op, Limits(c, ttl)).out
  {
    hide Get, Put, Remove;
    match op
    case OpClear =>
    case OpInvalidate(key) => RemoveKeepsIncluded(small, c, big, C, key);
    case OpGet(key, now) => GetKeepsIncluded(small, c, big, C, key, now, ttl);
    case OpPut(key, value, now) => PutKeepsIncluded(small, c, big, C, key, value, now);
  }

  /**
    For every run, the list of the smaller cache is an ordered part of the list of the larger
    one, with equal values and times, and every hit in the smaller is the same hit in the larger.
   */
  lemma {:induction false} LargerCacheIncludesSmaller<V>(ops: seq<Op<V>>, c: nat, C: nat, ttl: int)
    requires c <= C
    ensures Included(Run(ops, Limits(c, ttl)), c, Run(ops, Limits(C, ttl)), C)
    ensures forall key, now ::
              var hit := Get(Run(ops, Limits(c, ttl)), key, now, ttl).out;
              hit.Some? ==> Get(Run(ops, Limits(C, ttl)), key, now, ttl).out == hit
  {
    hide Get, Apply, Included;
    if ops == [] {
      EmptyIncluded<V>(c, C);
    } else {
      LargerCacheIncludesSmaller(ops[..|ops| - 1], c, C, ttl);
      ApplyKeepsIncluded(Run(ops[..|ops| - 1], Limits(c, ttl)), c, Run(ops[..|ops| - 1], Limits(C, ttl)), C,
                         ops[|ops| - 1], ttl);
    }
    forall key, now
      ensures var hit := Get(Run(ops, Limits(c, ttl)), key, now, ttl).out;
              hit.Some? ==> Get(Run(ops, Limits(C, ttl)), key, now, ttl).out == hit
    {
      GetKeepsIncluded(Run(ops, Limits(c, ttl)), c, Run(ops, Limits(C, ttl)), C, key, now, ttl);
    }
  }

  lemma EmptyIncluded<V>(c: nat, C: nat)
    requires c <= C
    ensures Included<V>([], c, [], C)
  {
  }

  // ----- Retention: how long an entry is safe

  /**
    The other keys used since the last use of `key` (a put or a hit; a miss is no use), or None
    when the key was never put or was invalidated, cleared or found missing since.
   */
  function UsedSince<V>(ops: seq<Op<V>>, l: Limits, key: string): Option<set<string>> {
    if ops == [] then None
    else
      var before, op := ops[..|ops| - 1], ops[|ops| - 1];
      var used := UsedSince(before, l, key);
      match op
      case OpClear => None
      case OpInvalidate(k) => if k == key then None else used
      case OpPut(k, _, _) => if k == key then Some({}) else if used.Some? then Some(used.value + {k}) else None
      case OpGet(k, now) =>
        var hit := Get(Run(before, l), k, now, l.ttl).out.Some?;
        if k == key then (if hit then Some({}) else None)
        else if used.Some? && hit then Some(used.value + {k})
        else used
  }

  /** The key is in the list, and everything in front of it was used since. */
  predicate SafeAt<V>(list: seq<Entry<V>>, key: string, used: set<string>) {
    exists i :: 0 <= i < |list| && list[i].key == key && forall j :: 0 <= j < i ==> list[j].key in used
  }

  lemma {:induction false} RemoveKeepsSafe<V>(list: seq<Entry<V>>, key: string, used: set<string>, k: string)
    requires SafeAt(list, key, used) && k != key
    ensures SafeAt(Remove(list, k), key, used)
  {
    var i :| 0 <= i < |list| && list[i].key == key && forall j :: 0 <= j < i ==> list[j].key in used;
    var r := Remove(list, k);
    if i == 0 {
      assert r[0] == list[0];
    } else {
      var tail := list[1..];
      assert tail[i - 1] == list[i] && forall j :: 0 <= j < i - 1 ==> tail[j] == list[j + 1];
      assert SafeAt(tail, key, used);
      RemoveKeepsSafe(tail, key, used, k);
      if list[0].key != k { FrontKeepsSafe(Remove(tail, k), key, used, list[0]); }
    }
  }

  lemma FrontKeepsSafe<V>(list: seq<Entry<V>>, key: string, used: set<string>, e: Entry<V>)
    requires SafeAt(list, key, used) && (e.key in used || e.key == key)
    ensures SafeAt([e] + list, key, used)
  {
    var i :| 0 <= i < |list| && list[i].key == key && forall j :: 0 <= j < i ==> list[j].key in used;
    var r := [e] + list;
    if e.key == key {
      assert r[0].key == key;
    } else {
      assert r[i + 1] == list[i];
      assert forall j :: 0 < j < i + 1 ==> r[j] == list[j - 1];
    }
  }

  lemma SafeGrows<V>(list: seq<Entry<V>>, key: string, used: set<string>, more: set<string>)
    requires SafeAt(list, key, used) && used <= more
    ensures SafeAt(list, key, more)
  {
  }

  lemma {:induction false} KeysOf<V>(list: seq<Entry<V>>) returns (keys: set<string>)
    requires DistinctKeys(list)
    ensures |keys| == |list|
    ensures forall k :: k in keys <==> HasKey(list, k)
  {
    if list == [] {
      keys := {};
    } else {
      var tail := list[1..];
      keys := KeysOf(tail);
      assert !HasKey(tail, list[0].key);
      keys := keys + {list[0].key};
      forall k
        ensures k in keys <==> HasKey(list, k)
      {
        assert Lookup(list, k).Some? <==> list[0].key == k || Lookup(tail, k).Some?;
      }
    }
  }

  /** The entry at the back can only be the key when at least `capacity` others are in front of it. */
  lemma EvictKeepsSafe<V>(list: seq<Entry<V>>, key: string, used: set<string>, capacity: nat)
    requires DistinctKeys(list) && SafeAt(list, key, used) && |used| < capacity
    ensures SafeAt(Evict(list, capacity), key, used)
  {
    var i :| 0 <= i < |list| && list[i].key == key && forall j :: 0 <= j < i ==> list[j].key in used;
    var ahead := list[..i];
    var keys := KeysOf(ahead);
    forall k | k in keys
      ensures k in used
    {
      assert HasKey(ahead, k);
      var j :| 0 <= j < |ahead| && ahead[j].key == k;
      assert list[j].key in used;
    }
    SmallerSet(keys, used);
    var r := Evict(list, capacity);
    assert i < |r| && r[i] == list[i];
    assert forall j :: 0 <= j < i ==> r[j] == list[j];
  }

  lemma {:induction false} SmallerSet(a: set<string>, b: set<string>)
    requires a <= b
    ensures |a| <= |b|
  {
    if a == {} {
    } else {
      var x :| x in a;
      SmallerSet(a - {x}, b - {x});
    }
  }

  lemma {:induction false} KeptWhileFewUsed<V>(ops: seq<Op<V>>, l: Limits, key: string)
    requires UsedSince(ops, l, key).Some? && |UsedSince(ops, l, key).value| < l.capacity
    ensures SafeAt(Run(ops, l), key, UsedSince(ops, l, key).value)
    decreases |ops|, 0
  {
    hide Remove, SafeAt, Lookup, DistinctKeys;
    var before, op := ops[..|ops| - 1], ops[|ops| - 1];
    var list, used := Run(before, l), UsedSince(ops, l, key).value;
    RunKeepsShape(before, l);
    match op
    case OpInvalidate(k) =>
      KeptWhileFewUsed(before, l, key);
      RemoveKeepsSafe(list, key, used, k);
    case OpGet(k, now) =>
      if k == key {
        UsedIsFront(Lookup(list, key).value, Remove(list, key), used);
      } else if Get(list, k, now, l.ttl).out.Some? {
        Before(before, l, key, used, k);
        RemoveKeepsSafe(list, key, used, k);
        FrontKeepsSafe(Remove(list, k), key, used, Lookup(list, k).value);
      } else {
        KeptWhileFewUsed(before, l, key);
        RemoveKeepsSafe(list, key, used, k);
      }
    case OpPut(k, value, now) =>
      var e := Entry(k, value, now);
      ApplyFront(list, e);
      if k == key {
        UsedIsFront(e, Remove(list, key), used);
        UsedIsFront(e, list, used);
        if !HasKey(list, key) { EvictKeepsSafe([e] + list, key, used, l.capacity); }
      } else {
        Before(before, l, key, used, k);
        RemoveKeepsSafe(list, key, used, k);
        FrontKeepsSafe(Remove(list, k), key, used, e);
        FrontKeepsSafe(list, key, used, e);
        if !HasKey(list, k) { EvictKeepsSafe([e] + list, key, used, l.capacity); }
      }
  }

  lemma Before<V>(before: seq<Op<V>>, l: Limits, key: string, used: set<string>, k: string)
    requires UsedSince(before, l, key).Some? && used == UsedSince(before, l, key).value + {k}
    requires |used| < l.capacity
    ensures SafeAt(Run(before, l), key, used)
    decreases |before|, 1
  {
    hide SafeAt;
    SmallerSet(UsedSince(before, l, key).value, used);
    KeptWhileFewUsed(before, l, key);
    SafeGrows(Run(before, l), key, UsedSince(before, l, key).value, used);
  }

  lemma ApplyFront<V>(list: seq<Entry<V>>, e: Entry<V>)
    requires DistinctKeys(list)
    ensures !HasKey(list, e.key) ==> DistinctKeys([e] + list)
  {
  }

  lemma UsedIsFront<V>(e: Entry<V>, list: seq<Entry<V>>, used: set<string>)
    ensures SafeAt([e] + list, e.key, used)
  {
    assert ([e] + list)[0] == e;
  }

  /**
    An entry that was put and not invalidated or missed since, with fewer than `capacity` other
    keys used since its own last use, is returned again exactly when there is no time to live or
    it was put no longer than that ago.
   */
  lemma RetainedWhileFewUsed<V>(ops: seq<Op<V>>, l: Limits, key: string, now: int)
    requires UsedSince(ops, l, key).Some? && |UsedSince(ops, l, key).value| < l.capacity
    ensures LastPut(ops, key).Some?
    ensures var put := LastPut(ops, key).value;
            Get(Run(ops, l), key, now, l.ttl).out ==
            if l.ttl <= 0 || now - put.at <= l.ttl then Some(put.value) else None
  {
    hide Run, LastPut, UsedSince, Remove;
    KeptWhileFewUsed(ops, l, key);
    var e := Lookup(Run(ops, l), key).value;
    StoredIsLastPut(ops, l, e);
  }
}
