/** The cache path of `handleRequest` (src/core/Gateway.cpp:152-182): a hit answers the same request. */
module CacheHits {
  import opened Text
  import BackendRequest
  import opened RequestSyntax
  import opened RequestRoundTrip
  import opened Response
  import opened LruSpec
  import opened Router

  function CacheKey(req: HttpRequest): string {
    req.verb + " " + BackendRequest.Target(req)
  }

  ghost predicate FromParser(req: HttpRequest) {
    exists b :: ParseOne(b).Parsed? && ParseOne(b).req == req
  }

  lemma SplitAtFirst(a: string, c: char, rest: string, text: string)
    requires text == a + [c] + rest && forall i :: 0 <= i < |a| ==> a[i] != c
    ensures FindChar(text, c) == |a| && text[..|a|] == a && text[|a| + 1..] == rest
  {
    hide FindChar;
    assert forall i :: 0 <= i < |a| ==> text[i] == a[i];
    assert text[|a|] == c;
  }

  /** The method, path and query can be recovered from the key. */
  function KeyParts(key: string): (string, string, string) {
    var sp := FindChar(key, ' ');
    if sp == -1 then ("", "", "")
    else
      var target := key[sp + 1..];
      var q := FindChar(target, '?');
      (key[..sp], if q == -1 then target else target[..q], if q == -1 then "" else target[q + 1..])
  }

  lemma CacheKeyRoundTrip(req: HttpRequest)
    requires CleanRequest(req)
    ensures KeyParts(CacheKey(req)) == (req.verb, req.path, req.query)
  {
    hide FindChar, CleanHeaders;
    var target := req.path + if req.query == "" then "" else "?" + req.query;
    assert forall i :: 0 <= i < |req.verb| ==> MethodChar(req.verb[i]);
    assert CacheKey(req) == req.verb + [' '] + target;
    SplitAtFirst(req.verb, ' ', target, CacheKey(req));
    assert forall i :: 0 <= i < |req.path| ==> req.path[i] !in {'\r', '\n', '?'};
    if req.query == "" {
      assert target == req.path;
    } else {
      assert target == req.path + ['?'] + req.query;
      SplitAtFirst(req.path, '?', req.query, target);
    }
  }

  /** Requests the parser produced share a key exactly when method, path and query agree. */
  lemma CacheKeyInjective(a: HttpRequest, b: HttpRequest)
    ensures FromParser(a) && FromParser(b) ==>
              (CacheKey(a) == CacheKey(b) <==> a.verb == b.verb && a.path == b.path && a.query == b.query)
  {
    hide ParseOne, KeyParts, CleanRequest;
    if FromParser(a) && FromParser(b) {
      var x :| ParseOne(x).Parsed? && ParseOne(x).req == a;
      var y :| ParseOne(y).Parsed? && ParseOne(y).req == b;
      ParsedIsClean(x);
      ParsedIsClean(y);
      CacheKeyRoundTrip(a);
      CacheKeyRoundTrip(b);
    }
  }

  // ----- Runs of the handlers of all workers on the shared cache

  /** A lookup, or a forwarded response coming back; the workers interleave in any order. */
  datatype Event = Look(req: HttpRequest, now: int) | Answer(req: HttpRequest, response: ResponseValue, now: int)

  predicate Cacheable(routes: seq<Route>, req: HttpRequest) {
    var route := FirstMatch(routes, req.path);
    route.Some? && route.value.cacheable && (req.verb == "GET" || req.verb == "HEAD")
  }

  /** What an event does to the cache, if anything. */
  function CacheOp(routes: seq<Route>, e: Event): Option<Op<ResponseValue>> {
    if !Cacheable(routes, e.req) then None
    else match e
      case Look(req, now) => Some(OpGet(CacheKey(req), now))
      case Answer(req, response, now) =>
        if response.statusCode == 200 then Some(OpPut(CacheKey(req), response, now)) else None
  }

  function CacheOps(routes: seq<Route>, events: seq<Event>): seq<Op<ResponseValue>> {
    if events == [] then []
    else
      var before, op := CacheOps(routes, events[..|events| - 1]), CacheOp(routes, events[|events| - 1]);
      if op.Some? then before + [op.value] else before
  }

  ghost predicate AllFromParser(events: seq<Event>) {
    forall i :: 0 <= i < |events| ==> FromParser(events[i].req)
  }

  /** Finds the response that stored an entry. */
  lemma {:induction false} StoredBy(routes: seq<Route>, events: seq<Event>, key: string) returns (j: nat)
    requires LastPut(CacheOps(routes, events), key).Some?
    ensures var put := LastPut(CacheOps(routes, events), key).value;
            && j < |events| && events[j].Answer? && Cacheable(routes, events[j].req)
            && CacheKey(events[j].req) == key && events[j].response == put.value
            && events[j].now == put.at && put.value.statusCode == 200
  {
    hide CacheKey, Cacheable;
    var before, e := events[..|events| - 1], events[|events| - 1];
    var ops := CacheOps(routes, events);
    var op := CacheOp(routes, e);
    if op.None? {
    } else {
      assert ops[..|ops| - 1] == CacheOps(routes, before);
      if op.value.OpPut? && op.value.key == key {
        j := |events| - 1;
        return;
      }
    }
    j := StoredBy(routes, before, key);
  }

  /**
    Over every run, a hit carries status 200 and is the response some worker got for a GET or
    HEAD of the same path and query on a cacheable route, no older than a positive time to live.
   */
  lemma HitAnswersSameRequest(routes: seq<Route>, l: Limits, events: seq<Event>, req: HttpRequest, now: int)
    returns (j: nat)
    ensures var out := Get(Run(CacheOps(routes, events), l), CacheKey(req), now, l.ttl).out;
            AllFromParser(events) && FromParser(req) && out.Some? ==>
              && j < |events| && events[j].Answer? && events[j].response == out.value && out.value.statusCode == 200
              && events[j].req.verb == req.verb && events[j].req.path == req.path && events[j].req.query == req.query
              && (req.verb == "GET" || req.verb == "HEAD")
              && FirstMatch(routes, req.path).Some? && FirstMatch(routes, req.path).value.cacheable
              && (l.ttl > 0 ==> now - events[j].now <= l.ttl)
  {
    hide Run, CacheOps, Get, CacheKey, FromParser, LastPut, FirstMatch;
    j := 0;
    if Get(Run(CacheOps(routes, events), l), CacheKey(req), now, l.ttl).out.Some? {
      HitIsFresh(CacheOps(routes, events), l, CacheKey(req), now);
      j := StoredBy(routes, events, CacheKey(req));
      CacheKeyInjective(events[j].req, req);
    }
  }

  // ----- What was stored is served

  predicate Lives(l: Limits, at: int, now: int) {
    l.ttl <= 0 || now - at <= l.ttl
  }

  /** Events that neither replace the response stored under `key` at `at` nor look for it too late. */
  predicate Undisturbed(l: Limits, key: string, at: int, more: seq<Event>) {
    forall i :: 0 <= i < |more| && CacheKey(more[i].req) == key ==>
      if more[i].Look? then Lives(l, at, more[i].now) else more[i].response.statusCode != 200
  }

  function OtherKeys(more: seq<Event>, key: string): set<string> {
    if more == [] then {}
    else
      var k := CacheKey(more[|more| - 1].req);
      OtherKeys(more[..|more| - 1], key) + if k == key then {} else {k}
  }

  lemma OneMore(routes: seq<Route>, events: seq<Event>, e: Event)
    ensures CacheOps(routes, events + [e]) ==
            CacheOps(routes, events) + match CacheOp(routes, e) case Some(op) => [op] case None => []
  {
    hide CacheOp;
    assert (events + [e])[..|events|] == events;
  }

  /** One operation more, and which keys it uses. */
  lemma UsedMore(ops: seq<Op<ResponseValue>>, op: Op<ResponseValue>, l: Limits, key: string)
    requires op.OpGet? || op.OpPut?
    requires op.key == key && op.OpGet? ==> Get(Run(ops, l), key, op.now, l.ttl).out.Some?
    ensures var used, used' := UsedSince(ops, l, key), UsedSince(ops + [op], l, key);
            && (op.key == key ==> used' == Some({}))
            && (op.key != key && used.Some? ==> used'.Some? && used'.value <= used.value + {op.key})
    ensures LastPut(ops + [op], key) ==
            if op.OpPut? && op.key == key then Some(Entry(key, op.value, op.now)) else LastPut(ops, key)
  {
    hide Get, Run;
    assert (ops + [op])[..|ops|] == ops;
  }

  /** The response stays where it was put, and only keys of the events since were used. */
  ghost predicate Kept(ops: seq<Op<ResponseValue>>, l: Limits, key: string, put: Entry<ResponseValue>, others: set<string>) {
    UsedSince(ops, l, key).Some? && UsedSince(ops, l, key).value <= others && LastPut(ops, key) == Some(put)
  }

  lemma KeptIsHit(ops: seq<Op<ResponseValue>>, l: Limits, key: string, put: Entry<ResponseValue>, others: set<string>, now: int)
    requires Kept(ops, l, key, put, others) && |others| < l.capacity
    ensures Get(Run(ops, l), key, now, l.ttl).out == if Lives(l, put.at, now) then Some(put.value) else None
  {
    hide Run, Get, UsedSince, LastPut;
    SmallerSet(UsedSince(ops, l, key).value, others);
    RetainedWhileFewUsed(ops, l, key, now);
  }

  lemma {:induction false} StaysKept(routes: seq<Route>, l: Limits, events: seq<Event>, stored: Event, more: seq<Event>)
    requires stored.Answer? && stored.response.statusCode == 200 && Cacheable(routes, stored.req)
    requires var key := CacheKey(stored.req);
             Undisturbed(l, key, stored.now, more) && |OtherKeys(more, key)| < l.capacity
    ensures var key := CacheKey(stored.req);
            Kept(CacheOps(routes, events + [stored] + more), l, key,
                 Entry(key, stored.response, stored.now), OtherKeys(more, key))
    decreases |more|
  {
    hide CacheKey, CacheOps, UsedSince, LastPut, Cacheable, Get, Run;
    var key := CacheKey(stored.req);
    if more == [] {
      assert events + [stored] + more == events + [stored];
      OneMore(routes, events, stored);
      UsedMore(CacheOps(routes, events), OpPut(key, stored.response, stored.now), l, key);
    } else {
      var before, e := more[..|more| - 1], more[|more| - 1];
      var all := events + [stored] + before;
      var ops, put := CacheOps(routes, all), Entry(key, stored.response, stored.now);
      assert events + [stored] + more == all + [e];
      SmallerSet(OtherKeys(before, key), OtherKeys(more, key));
      StaysKept(routes, l, events, stored, before);
      OneMore(routes, all, e);
      var op := CacheOp(routes, e);
      if op.Some? {
        KeptIsHit(ops, l, key, put, OtherKeys(before, key), e.now);
        UsedMore(ops, op.value, l, key);
      } else {
        assert ops + [] == ops;
      }
    }
  }

  /**
    A response with status 200 to a GET or HEAD on a cacheable route is served to every later
    lookup of that request within the time to live, as long as it is not replaced and fewer than
    `capacity` other requests came in between.
   */
  lemma StoredAnswerIsServed(routes: seq<Route>, l: Limits, events: seq<Event>, stored: Event, more: seq<Event>, now: int)
    requires stored.Answer? && stored.response.statusCode == 200 && (stored.req.verb == "GET" || stored.req.verb == "HEAD")
    requires FirstMatch(routes, stored.req.path).Some? && FirstMatch(routes, stored.req.path).value.cacheable
    requires var key := CacheKey(stored.req);
             Undisturbed(l, key, stored.now, more) && |OtherKeys(more, key)| < l.capacity
    ensures Get(Run(CacheOps(routes, events + [stored] + more), l), CacheKey(stored.req), now, l.ttl).out ==
            if l.ttl <= 0 || now - stored.now <= l.ttl then Some(stored.response) else None
  {
    hide CacheKey, CacheOps, UsedSince, LastPut, FirstMatch, Get, Run, Undisturbed, OtherKeys, Kept;
    var key := CacheKey(stored.req);
    StaysKept(routes, l, events, stored, more);
    KeptIsHit(CacheOps(routes, events + [stored] + more), l, key, Entry(key, stored.response, stored.now),
              OtherKeys(more, key), now);
  }
}
