/** Longest-prefix routing (include/routing/Router.hpp). */
module Router {
  import opened Text

  datatype Route = Route(prefix: string, group: string, cacheable: bool)

  /** The prefix is the path, or ends where a path segment ends; "/" takes every path. */
  predicate Matches(prefix: string, path: string) {
    || path == prefix
    || prefix == "/"
    || (|path| > |prefix| && path[..|prefix|] == prefix && path[|prefix|] == '/')
  }

  predicate LongestFirst(routes: seq<Route>) {
    forall i, j :: 0 <= i < j < |routes| ==> |routes[i].prefix| >= |routes[j].prefix|
  }

  function FirstMatch(routes: seq<Route>, path: string): Option<Route> {
    if routes == [] then None
    else if Matches(routes[0].prefix, path) then Some(routes[0])
    else FirstMatch(routes[1..], path)
  }

  lemma InsertedRoutes(front: seq<Route>, route: Route, back: seq<Route>)
    ensures multiset(front + [route] + back) == multiset(front + back) + multiset{route}
  {
    assert multiset(front + [route] + back) == multiset(front) + multiset([route]) + multiset(back);
    assert multiset(front + back) == multiset(front) + multiset(back);
  }

  lemma InsertedInOrder(routes: seq<Route>, i: nat, route: Route)
    requires i <= |routes| && LongestFirst(routes)
    requires forall j :: 0 <= j < i ==> |routes[j].prefix| > |route.prefix|
    requires i < |routes| ==> |routes[i].prefix| <= |route.prefix|
    ensures LongestFirst(routes[..i] + [route] + routes[i..])
  {
    var all := routes[..i] + [route] + routes[i..];
    assert |all| == |routes| + 1 && all[i] == route;
    assert forall x :: 0 <= x < i ==> all[x] == routes[x];
    assert forall x :: i < x < |all| ==> all[x] == routes[x - 1];
    forall x, y | 0 <= x < y < |all|
      ensures |all[x].prefix| >= |all[y].prefix|
    {
      var later := if y > i then |routes[y - 1].prefix| else |route.prefix|;
      assert y > i ==> |routes[i].prefix| >= later;
    }
  }

  class Router {
    var routes: seq<Route>

    constructor ()
      ensures routes == []
    {
      routes := [];
    }

    /** Adds a route and sorts; routes of equal length may end up in any order. */
    method AddRoute(route: Route)
      requires LongestFirst(routes)
      modifies this
      ensures LongestFirst(routes)
      ensures multiset(routes) == old(multiset(routes)) + multiset{route}
    {
      var i := 0;
      while i < |routes| && |routes[i].prefix| > |route.prefix|
        invariant 0 <= i <= |routes| && routes == old(routes)
        invariant forall j :: 0 <= j < i ==> |routes[j].prefix| > |route.prefix|
      {
        i := i + 1;
      }
      assert routes == routes[..i] + routes[i..];
      InsertedRoutes(routes[..i], route, routes[i..]);
      InsertedInOrder(routes, i, route);
      routes := routes[..i] + [route] + routes[i..];
    }

    method Match(path: string) returns (r: Option<Route>)
      ensures r == FirstMatch(routes, path)
    {
      assert routes[0..] == routes;
      for i := 0 to |routes|
        invariant FirstMatch(routes[i..], path) == FirstMatch(routes, path)
      {
        var p := routes[i].prefix;
        var exact := path == p;
        var nested := p == "/" || (|path| > |p| && path[..|p|] == p && path[|p|] == '/');
        if exact || nested { return Some(routes[i]); }
        assert routes[i..][1..] == routes[i + 1..];
      }
      return None;
    }
  }

  // ----- What matching means: path segments

  function Segments(s: string): (segs: seq<string>)
    ensures segs != []
    decreases |s|
  {
    var i := FindChar(s, '/');
    if i == -1 then [s] else [s[..i]] + Segments(s[i + 1..])
  }

  function Joined(segs: seq<string>): string
    requires segs != []
  {
    if |segs| == 1 then segs[0] else segs[0] + "/" + Joined(segs[1..])
  }

  lemma {:induction false} JoinedSegments(s: string)
    ensures Joined(Segments(s)) == s
    decreases |s|
  {
    hide FindChar;
    var i := FindChar(s, '/');
    if i == -1 {
    } else {
      var rest := Segments(s[i + 1..]);
      JoinedSegments(s[i + 1..]);
      assert ([s[..i]] + rest)[1..] == rest;
      assert s == s[..i] + "/" + s[i + 1..];
    }
  }

  lemma {:induction false} JoinedAppend(a: seq<string>, b: seq<string>)
    requires a != [] && b != []
    ensures Joined(a + b) == Joined(a) + "/" + Joined(b)
  {
    if |a| == 1 {
      assert (a + b)[1..] == b;
    } else {
      assert (a + b)[1..] == a[1..] + b;
      JoinedAppend(a[1..], b);
    }
  }

  lemma SlashAfter(a: string, b: string)
    ensures FindChar(a + "/" + b, '/') == if FindChar(a, '/') == -1 then |a| else FindChar(a, '/')
  {
    hide FindChar;
    var s := a + "/" + b;
    assert s[|a|] == '/' && forall k :: 0 <= k < |a| ==> s[k] == a[k];
  }

  lemma {:induction false} SegmentsAppend(a: string, b: string)
    ensures Segments(a + "/" + b) == Segments(a) + Segments(b)
    decreases |a|
  {
    hide FindChar;
    var i, s := FindChar(a, '/'), a + "/" + b;
    SlashAfter(a, b);
    if i == -1 {
      assert s[..|a|] == a && s[|a| + 1..] == b;
    } else {
      assert s[..i] == a[..i] && s[i + 1..] == a[i + 1..] + "/" + b;
      SegmentsAppend(a[i + 1..], b);
    }
  }

  /** A route takes exactly the paths that begin with its segments, and "/" takes every path. */
  lemma MatchesBySegments(prefix: string, path: string)
    ensures Matches(prefix, path) <==> prefix == "/" || Segments(prefix) <= Segments(path)
  {
    hide Segments, Joined;
    var ps, qs := Segments(prefix), Segments(path);
    JoinedSegments(prefix);
    JoinedSegments(path);
    if |path| > |prefix| && path[..|prefix|] == prefix && path[|prefix|] == '/' {
      assert path == prefix + "/" + path[|prefix| + 1..];
      SegmentsAppend(prefix, path[|prefix| + 1..]);
    }
    assert ps <= qs && |ps| == |qs| ==> ps == qs;
    if ps <= qs && |ps| < |qs| {
      JoinedAppend(ps, qs[|ps|..]);
      assert qs == ps + qs[|ps|..];
      assert path == prefix + "/" + Joined(qs[|ps|..]);
    }
  }

  // ----- What a match is, without the order

  /** A matching route that no matching route is longer than. */
  predicate Longest(routes: seq<Route>, path: string, r: Route) {
    && r in routes && Matches(r.prefix, path)
    && forall q :: q in routes && Matches(q.prefix, path) ==> |q.prefix| <= |r.prefix|
  }

  predicate DistinctPrefixes(routes: seq<Route>) {
    forall i, j :: 0 <= i < j < |routes| ==> routes[i].prefix != routes[j].prefix
  }

  predicate Rooted(routes: seq<Route>) {
    forall i :: 0 <= i < |routes| ==> routes[i].prefix != "" && routes[i].prefix[0] == '/'
  }

  lemma {:induction false} FirstIsLongest(routes: seq<Route>, path: string)
    requires LongestFirst(routes)
    ensures match FirstMatch(routes, path)
            case Some(r) => Longest(routes, path, r)
            case None => forall r :: r in routes ==> !Matches(r.prefix, path)
  {
    hide Matches;
    if routes == [] {
    } else {
      FirstIsLongest(routes[1..], path);
      assert forall r :: r in routes <==> r == routes[0] || r in routes[1..];
      assert forall r :: r in routes[1..] ==> |r.prefix| <= |routes[0].prefix|;
    }
  }

  /** Matching prefixes of one length are the same prefix. */
  lemma SameLengthSamePrefix(p: string, q: string, path: string)
    requires Matches(p, path) && Matches(q, path) && |p| == |q|
    requires p != "" && q != "" && p[0] == '/' && q[0] == '/'
    ensures p == q
  {
  }

  /** The match is the unique longest matching route: it does not depend on how ties were sorted. */
  lemma MatchIsTheLongest(routes: seq<Route>, path: string, r: Route)
    requires LongestFirst(routes) && DistinctPrefixes(routes) && Rooted(routes)
    ensures FirstMatch(routes, path) == Some(r) <==> Longest(routes, path, r)
  {
    hide Matches, FirstMatch;
    FirstIsLongest(routes, path);
    if Longest(routes, path, r) {
      var m := FirstMatch(routes, path).value;
      var i :| 0 <= i < |routes| && routes[i] == m;
      var j :| 0 <= j < |routes| && routes[j] == r;
      SameLengthSamePrefix(m.prefix, r.prefix, path);
      assert i == j;
    }
  }

  /** Any two sortings of the same routes, however they were added, route every path alike. */
  lemma OrderDoesNotMatter(a: seq<Route>, b: seq<Route>, path: string)
    requires LongestFirst(a) && LongestFirst(b) && multiset(a) == multiset(b)
    requires DistinctPrefixes(a) && Rooted(a)
    ensures FirstMatch(a, path) == FirstMatch(b, path)
  {
    hide Matches, FirstMatch;
    SameMembers(a, b);
    FirstIsLongest(a, path);
    FirstIsLongest(b, path);
    if FirstMatch(b, path).Some? {
      MatchIsTheLongest(a, path, FirstMatch(b, path).value);
    }
  }

  lemma SameMembers(a: seq<Route>, b: seq<Route>)
    requires multiset(a) == multiset(b)
    ensures forall r :: r in a <==> r in b
  {
    assert forall r :: r in a <==> r in multiset(a);
    assert forall r :: r in b <==> r in multiset(b);
  }
}
