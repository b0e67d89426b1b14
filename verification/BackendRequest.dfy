/**
  `buildBackendRequest` (src/core/Gateway.cpp:342-359), line by line, against the text of the
  forwarded request as a whole.
 */
module BackendRequest {
  import opened Text
  import opened Decimal
  import opened RequestSyntax

  // Fields of section 7.6.1 of RFC 9110, and the two the gateway writes itself.
  const NOT_FORWARDED: set<string> := {
    "connection", "host", "keep-alive", "proxy-connection", "te", "trailer", "transfer-encoding", "upgrade",
    "content-length"}

  predicate EndToEnd(key: string) {
    key !in NOT_FORWARDED
  }

  function Target(req: HttpRequest): string {
    req.path + if req.query == "" then "" else "?" + req.query
  }

  function FieldLine(key: string, value: string): string {
    key + ": " + value
  }

  function ForwardedLines(headers: Headers, order: seq<string>): (lines: seq<string>)
    requires forall k :: k in order ==> k in headers
  {
    if order == [] then []
    else (if EndToEnd(order[0]) then [FieldLine(order[0], headers[order[0]])] else [])
         + ForwardedLines(headers, order[1..])
  }

  function OwnLines(req: HttpRequest, requestId: string): seq<string> {
    [FieldLine("X-Request-Id", requestId), FieldLine("X-Forwarded-For", "gateway"), FieldLine("Connection", "keep-alive")]
    + if req.body == "" then [] else [FieldLine("Content-Length", Print(|req.body|))]
  }

  function JoinLines(lines: seq<string>): string {
    if lines == [] then "" else lines[0] + CRLF + JoinLines(lines[1..])
  }

  function AllLines(req: HttpRequest, order: seq<string>, host: string, requestId: string): seq<string>
    requires forall k :: k in order ==> k in req.headers
  {
    [FieldLine("Host", host)] + ForwardedLines(req.headers, order) + OwnLines(req, requestId)
  }

  function RequestText(req: HttpRequest): string {
    req.verb + " " + Target(req) + " HTTP/1.1"
  }

  function Wire(req: HttpRequest, order: seq<string>, host: string, requestId: string): string
    requires forall k :: k in order ==> k in req.headers
  {
    RequestText(req) + CRLF + JoinLines(AllLines(req, order, host, requestId)) + CRLF + req.body
  }

  lemma JoinOne(a: string)
    ensures JoinLines([a]) == a + CRLF
  {
    assert [a][1..] == [];
  }

  lemma JoinTwo(a: string, b: string)
    ensures JoinLines([a, b]) == a + CRLF + (b + CRLF)
  {
    assert [a, b][1..] == [b];
    JoinOne(b);
  }

  lemma {:induction false} JoinAppend(a: seq<string>, b: seq<string>)
    ensures JoinLines(a + b) == JoinLines(a) + JoinLines(b)
  {
    if a == [] {
      assert a + b == b;
    } else {
      assert (a + b)[1..] == a[1..] + b;
      JoinAppend(a[1..], b);
    }
  }

  /** One `oss << key << ": " << value << "\r\n"`. */
  method WriteLine(prefix: string, key: string, value: string, ghost start: string, ghost lines: seq<string>)
    returns (wire: string)
    requires prefix == start + JoinLines(lines)
    ensures wire == start + JoinLines(lines + [FieldLine(key, value)])
  {
    wire := prefix + (key + ": " + value) + CRLF;
    JoinAppend(lines, [FieldLine(key, value)]);
    JoinOne(FieldLine(key, value));
  }

  method WriteForwarded(headers: Headers, order: seq<string>, prefix: string, ghost start: string, ghost lines: seq<string>)
    returns (wire: string)
    requires Enumerates(order, headers)
    requires prefix == start + JoinLines(lines)
    ensures wire == start + JoinLines(lines + ForwardedLines(headers, order))
  {
    hide JoinLines, FieldLine, EndToEnd;
    wire := prefix;
    ghost var done := lines;
    assert order[0..] == order;
    for i := 0 to |order|
      invariant done + ForwardedLines(headers, order[i..]) == lines + ForwardedLines(headers, order)
      invariant wire == start + JoinLines(done)
    {
      var k := order[i];
      assert order[i..][1..] == order[i + 1..];
      if EndToEnd(k) {
        wire := WriteLine(wire, k, headers[k], start, done);
        done := done + [FieldLine(k, headers[k])];
      }
    }
    assert order[|order|..] == [];
    assert done == lines + ForwardedLines(headers, order);
  }

  method BuildBackendRequest(req: HttpRequest, order: seq<string>, host: string, requestId: string) returns (wire: string)
    requires Enumerates(order, req.headers)
    ensures wire == Wire(req, order, host, requestId)
  {
    hide JoinLines, FieldLine, ForwardedLines, OwnLines;
    wire := req.verb + " " + req.path + (if req.query == "" then "" else "?" + req.query) + " HTTP/1.1" + CRLF;
    ghost var start := RequestText(req) + CRLF;
    assert wire == start;
    NoLines(start);
    wire := WriteLine(wire, "Host", host, start, []);
    ghost var lines := [FieldLine("Host", host)];
    assert [] + lines == lines;
    wire := WriteForwarded(req.headers, order, wire, start, lines);
    wire := WriteOwnLines(req, requestId, wire, start, lines + ForwardedLines(req.headers, order));
    wire := wire + CRLF + req.body;
  }

  lemma NoLines(start: string)
    ensures start == start + JoinLines([])
  {
  }

  method WriteOwnLines(req: HttpRequest, requestId: string, prefix: string, ghost start: string, ghost lines: seq<string>)
    returns (wire: string)
    requires prefix == start + JoinLines(lines)
    ensures wire == start + JoinLines(lines + OwnLines(req, requestId))
  {
    hide JoinLines, FieldLine, Print;
    ghost var own := OwnLines(req, requestId);
    wire := WriteLine(prefix, "X-Request-Id", requestId, start, lines);
    wire := WriteLine(wire, "X-Forwarded-For", "gateway", start, lines + [own[0]]);
    wire := WriteLine(wire, "Connection", "keep-alive", start, lines + [own[0]] + [own[1]]);
    if req.body != "" {
      wire := WriteLine(wire, "Content-Length", Print(|req.body|), start, lines + [own[0]] + [own[1]] + [own[2]]);
      assert lines + own == lines + [own[0]] + [own[1]] + [own[2]] + [own[3]];
    } else {
      assert lines + own == lines + [own[0]] + [own[1]] + [own[2]];
    }
  }
}
