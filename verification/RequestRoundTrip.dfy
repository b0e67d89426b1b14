/** Reading back what `buildBackendRequest` prints. */
module RequestRoundTrip {
  import opened Text
  import opened Decimal
  import opened RequestSyntax
  import opened BackendRequest

  // ----- What parsing guarantees about a request

  predicate CleanKey(k: string) {
    k != "" && !ContainsAny(k, {' ', '\t', '\r', '\n', ':'})
  }

  predicate CleanValue(v: string) {
    && !ContainsAny(v, {'\r', '\n'})
    && (v != "" ==> v[0] !in {' ', '\t'} && v[|v| - 1] !in {' ', '\t'})
  }

  ghost predicate CleanHeaders(h: Headers) {
    forall k :: k in h ==> CleanKey(k) && IsLower(k) && CleanValue(h[k])
  }

  ghost predicate CleanRequest(req: HttpRequest) {
    && ValidMethod(req.verb)
    && req.path != "" && req.path[0] == '/' && !ContainsAny(req.path, {'\r', '\n', '?'})
    && !ContainsAny(req.query, {'\r', '\n'})
    && CleanHeaders(req.headers)
    && |req.body| <= MAX_BODY_BYTES
  }

  lemma TrimEnds(s: string)
    ensures var t := Trim(s);
            t != "" && !ContainsAny(t, {'\r'}) ==> t[0] !in {' ', '\t'} && t[|t| - 1] !in {' ', '\t'}
    ensures forall i :: 0 <= i < |Trim(s)| ==> Trim(s)[i] in s
  {
  }

  lemma LowerKeepsClean(k: string)
    requires !ContainsAny(k, {':'})
    ensures !ContainsAny(ToLower(k), {':'})
    ensures IsLower(ToLower(k))
  {
  }

  lemma ParsedFieldIsClean(line: string)
    ensures match ParseField(line)
            case Ok(f) => CleanKey(f.key) && IsLower(f.key) && CleanValue(f.value)
            case Err(_) => true
  {
    hide Trim, ToLower;
    var colon := FindChar(line, ':');
    if colon != -1 {
      var key, value := Trim(line[..colon]), Trim(line[colon + 1..]);
      TrimEnds(line[..colon]);
      TrimEnds(line[colon + 1..]);
      forall i | 0 <= i < |key|
        ensures key[i] !in {':'}
      {
        assert key[i] in line[..colon];
      }
      LowerKeepsClean(key);
      if ParseField(line).Ok? {
        var k := ToLower(key);
        forall i | 0 <= i < |k|
          ensures k[i] !in {' ', '\t', '\r', '\n', ':'}
        {
        }
        assert !ContainsAny(value, {'\r'});
      }
    }
  }

  lemma {:induction false} ReadFieldsClean(b: string, h: Headers, c: nat)
    requires CleanHeaders(h)
    ensures ReadFields(b, h, c).FieldsDone? ==> CleanHeaders(ReadFields(b, h, c).headers)
    decreases |b|
  {
    hide FindCrlf, ParseField, CleanKey, CleanValue, IsLower;
    var e := FindCrlf(b, 0);
    if e <= 0 {
    } else {
      ParsedFieldIsClean(b[..e]);
      match AddLine(h, c, b[..e])
      case Refused(_, _) =>
      case Added(h', c') => ReadFieldsClean(b[e + 2..], h', c');
    }
  }

  lemma ParsedLineIsClean(line: string)
    ensures match ParseRequestLine(line)
            case Ok(l) => && ValidMethod(l.verb) && l.path != "" && l.path[0] == '/'
                          && !ContainsAny(l.path, {'\r', '\n', '?'}) && !ContainsAny(l.query, {'\r', '\n'})
            case Err(_) => true
  {
  }

  lemma ParsedIsClean(b: string)
    requires ParseOne(b).Parsed?
    ensures CleanRequest(ParseOne(b).req)
  {
    hide FindCrlf, ParseRequestLine, ReadFields, KeepAlive, ValidMethod, CleanHeaders, ContainsAny;
    var e := FindCrlf(b, 0);
    ParsedLineIsClean(b[..e]);
    NoHeadersAreClean();
    ReadFieldsClean(b[e + 2..], map[], 0);
    BodyLengthBound(ReadFields(b[e + 2..], map[], 0).headers);
  }

  lemma NoHeadersAreClean()
    ensures CleanHeaders(map[])
  {
  }

  lemma BodyLengthBound(h: Headers)
    ensures BodyLength(h).Ok? ==> BodyLength(h).value <= MAX_BODY_BYTES
  {
  }

  // ----- Reading a list of lines

  function AddLines(h: Headers, c: nat, lines: seq<string>): LineResult
    decreases |lines|
  {
    if lines == [] then Added(h, c)
    else match AddLine(h, c, lines[0])
      case Refused(error, c') => Refused(error, c')
      case Added(h', c') => AddLines(h', c', lines[1..])
  }

  /** Lines printed one after the other and closed by a blank line are read one by one. */
  lemma {:induction false} ReadPrintedLines(lines: seq<string>, h: Headers, c: nat, rest: string)
    requires PlainLines(lines)
    ensures ReadFields(JoinLines(lines) + CRLF + rest, h, c) ==
            match AddLines(h, c, lines)
            case Added(h', _) => FieldsDone(h', rest)
            case Refused(error, _) => FieldsBad(error)
    decreases |lines|
  {
    hide FindCrlf, AddLine;
    var b := JoinLines(lines) + CRLF + rest;
    if lines == [] {
      FindCrlfAfterLine("", rest);
      assert b == "" + CRLF + rest;
      assert b[2..] == rest;
    } else {
      var line := lines[0];
      assert PlainLine(line);
      var after := JoinLines(lines[1..]) + CRLF + rest;
      assert b == line + CRLF + after;
      FindCrlfAfterLine(line, after);
      assert b[..|line|] == line && b[|line| + 2..] == after;
      match AddLine(h, c, line)
      case Refused(_, _) =>
      case Added(h', c') => ReadPrintedLines(lines[1..], h', c', rest);
    }
  }

  lemma {:induction false} AddLinesAppend(h: Headers, c: nat, a: seq<string>, b: seq<string>)
    ensures AddLines(h, c, a + b) ==
            match AddLines(h, c, a)
            case Added(h', c') => AddLines(h', c', b)
            case Refused(error, c') => Refused(error, c')
    decreases |a|
  {
    hide AddLine;
    if a == [] {
      assert a + b == b;
    } else {
      assert (a + b)[1..] == a[1..] + b;
      match AddLine(h, c, a[0])
      case Refused(_, _) =>
      case Added(h', c') => AddLinesAppend(h', c', a[1..], b);
    }
  }

  // ----- Reading one printed field

  lemma TrimOfClean(v: string)
    requires CleanValue(v)
    ensures Trim(" " + v) == v && Trim(v) == v
  {
    hide FirstNotOf, LastNotOf;
    if v != "" {
      var s := " " + v;
      assert s[1] == v[0] && s[|s| - 1] == v[|v| - 1];
      assert v[|v| - 1] != '\r';
      assert FirstNotOf(s, {' ', '\t'}) == 1;
      assert LastNotOf(s, {' ', '\t', '\r'}) == |s| - 1;
      assert s[1..|s|] == v;
      assert FirstNotOf(v, {' ', '\t'}) == 0;
      assert LastNotOf(v, {' ', '\t', '\r'}) == |v| - 1;
    }
  }

  lemma CleanKeyIsValue(k: string)
    requires CleanKey(k)
    ensures CleanValue(k)
  {
  }

  /** A clean field survives printing, with its name in lower case. */
  lemma ReadPrintedField(k: string, v: string)
    requires CleanKey(k) && CleanValue(v)
    ensures ParseField(FieldLine(k, v)) == Ok(Field(ToLower(k), v))
    ensures PlainLine(FieldLine(k, v))
  {
    hide FindChar, Trim;
    var line := FieldLine(k, v);
    assert forall i :: 0 <= i < |k| ==> line[i] == k[i] && k[i] !in {' ', '\t', '\r', '\n', ':'};
    assert line[|k|] == ':';
    assert FindChar(line, ':') == |k|;
    assert line[..|k|] == k;
    assert line[|k| + 1..] == " " + v;
    CleanKeyIsValue(k);
    TrimOfClean(k);
    TrimOfClean(v);
    forall i | 0 <= i < |k|
      ensures ToLower(k)[i] !in {' ', '\t', '\r', '\n'}
    {
      assert k[i] !in {' ', '\t', '\r', '\n'};
    }
    forall i | 0 <= i < |line|
      ensures line[i] !in {'\r', '\n'}
    {
      if i >= |k| + 2 { assert line[i] == v[i - |k| - 2]; }
    }
  }

  lemma AddPrintedField(h: Headers, c: nat, k: string, v: string)
    requires CleanKey(k) && CleanValue(v)
    ensures PlainLine(FieldLine(k, v))
    ensures AddLine(h, c, FieldLine(k, v)) ==
            if c + 1 > MAX_HEADER_COUNT then Refused(TooManyHeaders, c + 1)
            else if ToLower(k) in h && FramingKey(ToLower(k)) then Refused(DuplicateFraming, c + 1)
            else Added(h[ToLower(k) := v], c + 1)
  {
    hide ParseField, CleanKey, CleanValue, PlainLine, ToLower, FieldLine;
    ReadPrintedField(k, v);
  }

  // ----- Reading the forwarded fields

  lemma EndToEndIsNotFraming(k: string)
    ensures EndToEnd(k) ==> !FramingKey(k)
  {
  }

  function Merge(h: Headers, headers: Headers, order: seq<string>): Headers
    requires forall k :: k in order ==> k in headers
    decreases |order|
  {
    if order == [] then h
    else if EndToEnd(order[0]) then Merge(h[order[0] := headers[order[0]]], headers, order[1..])
    else Merge(h, headers, order[1..])
  }

  lemma {:induction false} ReadForwarded(h: Headers, c: nat, headers: Headers, order: seq<string>)
    requires CleanHeaders(headers)
    requires forall k :: k in order ==> k in headers
    requires c <= MAX_HEADER_COUNT
    ensures PlainLines(ForwardedLines(headers, order))
    ensures var n := c + |ForwardedLines(headers, order)|;
            AddLines(h, c, ForwardedLines(headers, order)) ==
            if n <= MAX_HEADER_COUNT then Added(Merge(h, headers, order), n)
            else Refused(TooManyHeaders, MAX_HEADER_COUNT + 1)
    decreases |order|
  {
    hide AddLine, PlainLine, CleanKey, CleanValue, FieldLine, EndToEnd, FramingKey, ToLower, IsLower;
    if order == [] {
    } else {
      var k := order[0];
      assert k in order;
      if !EndToEnd(k) {
        assert ForwardedLines(headers, order) == ForwardedLines(headers, order[1..]);
        ReadForwarded(h, c, headers, order[1..]);
      } else {
        AddPrintedField(h, c, k, headers[k]);
        EndToEndIsNotFraming(k);
        ToLowerFixes(k);
        assert ForwardedLines(headers, order)[1..] == ForwardedLines(headers, order[1..]);
        ReadForwarded(h[k := headers[k]], if c + 1 <= MAX_HEADER_COUNT then c + 1 else c, headers, order[1..]);
      }
    }
  }

  function Forwarded(headers: Headers): Headers {
    map k | k in headers && EndToEnd(k) :: headers[k]
  }

  lemma {:induction false} MergeIsUnion(h: Headers, headers: Headers, order: seq<string>)
    requires forall k :: k in order ==> k in headers
    ensures Merge(h, headers, order) == h + (map k | k in headers && k in order && EndToEnd(k) :: headers[k])
    decreases |order|
  {
    hide EndToEnd;
    if order == [] {
    } else {
      var k := order[0];
      assert forall x :: x in order <==> x == k || x in order[1..];
      if EndToEnd(k) { MergeIsUnion(h[k := headers[k]], headers, order[1..]); }
      else { MergeIsUnion(h, headers, order[1..]); }
    }
  }

  lemma {:induction false} CountForwarded(headers: Headers, order: seq<string>)
    requires forall k :: k in order ==> k in headers
    requires forall i, j :: 0 <= i < j < |order| ==> order[i] != order[j]
    ensures |ForwardedLines(headers, order)| == |set k | k in order && EndToEnd(k)|
    decreases |order|
  {
    hide EndToEnd, FieldLine;
    if order == [] {
    } else {
      var k := order[0];
      CountForwarded(headers, order[1..]);
      var small := set x | x in order[1..] && EndToEnd(x);
      var big := set x | x in order && EndToEnd(x);
      assert k !in order[1..];
      assert forall x :: x in order <==> x == k || x in order[1..];
      if EndToEnd(k) { assert big == small + {k}; } else { assert big == small; }
    }
  }

  // ----- The whole request

  /** What the backend is meant to see: the end-to-end fields, overridden by the gateway's own. */
  function SentHeaders(req: HttpRequest, host: string, requestId: string): Headers {
    WithOwn(map["host" := host] + Forwarded(req.headers), req, requestId)
  }

  function WithOwn(h: Headers, req: HttpRequest, requestId: string): Headers {
    var h := h["x-request-id" := requestId]["x-forwarded-for" := "gateway"]["connection" := "keep-alive"];
    if req.body == "" then h else h["content-length" := Print(|req.body|)]
  }

  function SentCount(req: HttpRequest): nat {
    |Forwarded(req.headers)| + 4 + if req.body == "" then 0 else 1
  }

  /** The names the gateway prints, and how the parser stores them. */
  predicate OwnName(name: string, key: string) {
    ToLower(name) == key && CleanKey(name)
  }

  lemma OwnNames()
    ensures OwnName("Host", "host") && OwnName("Connection", "connection")
  {
  }

  lemma ContentLengthName()
    ensures OwnName("Content-Length", "content-length")
  {
    assert ToLower("Content-Length") == "content-length";
  }

  lemma RequestIdName()
    ensures OwnName("X-Request-Id", "x-request-id")
  {
    assert ToLower("X-Request-Id") == "x-request-id";
  }

  lemma ForwardedForName()
    ensures OwnName("X-Forwarded-For", "x-forwarded-for")
  {
    assert ToLower("X-Forwarded-For") == "x-forwarded-for";
  }

  lemma OwnValues()
    ensures CleanValue("gateway") && CleanValue("keep-alive")
  {
  }

  lemma OwnKeysDiffer()
    ensures !FramingKey("x-request-id") && !FramingKey("x-forwarded-for") && !FramingKey("connection")
    ensures "content-length" !in {"x-request-id", "x-forwarded-for", "connection", "host"}
  {
  }

  lemma DigitsAreClean(n: nat)
    ensures CleanValue(Print(n))
  {
  }

  lemma ReadOwnLines(h: Headers, c: nat, req: HttpRequest, requestId: string)
    requires CleanValue(requestId) && "content-length" !in h && c <= MAX_HEADER_COUNT
    ensures PlainLines(OwnLines(req, requestId))
    ensures var n := c + |OwnLines(req, requestId)|;
            AddLines(h, c, OwnLines(req, requestId)) ==
            if n <= MAX_HEADER_COUNT
            then Added(WithOwn(h, req, requestId), n)
            else Refused(TooManyHeaders, MAX_HEADER_COUNT + 1)
  {
    hide AddLine, PlainLine, CleanKey, CleanValue, FieldLine, ToLower, Print, FramingKey;
    OwnNames(); ContentLengthName(); RequestIdName(); ForwardedForName(); OwnValues(); OwnKeysDiffer();
    DigitsAreClean(|req.body|);
    var own := OwnLines(req, requestId);
    var h1 := h["x-request-id" := requestId];
    var h2 := h1["x-forwarded-for" := "gateway"];
    var h3 := h2["connection" := "keep-alive"];
    AddPrintedField(h, c, "X-Request-Id", requestId);
    AddPrintedField(h1, c + 1, "X-Forwarded-For", "gateway");
    AddPrintedField(h2, c + 2, "Connection", "keep-alive");
    AddPrintedField(h3, c + 3, "Content-Length", Print(|req.body|));
    assert own[1..][1..] == own[2..] && own[2..][1..] == own[3..];
    if req.body == "" { assert own[3..] == []; } else { assert own[3..][1..] == []; }
    assert AddLines(h3, c + 3, own[3..]) ==
           if req.body == "" then Added(h3, c + 3)
           else if c + 4 > MAX_HEADER_COUNT then Refused(TooManyHeaders, c + 4)
           else Added(h3["content-length" := Print(|req.body|)], c + 4);
    assert c + 3 <= MAX_HEADER_COUNT ==> AddLines(h2, c + 2, own[2..]) == AddLines(h3, c + 3, own[3..]);
    assert c + 2 <= MAX_HEADER_COUNT < c + 3 ==> AddLines(h2, c + 2, own[2..]) == Refused(TooManyHeaders, c + 3);
    assert c + 2 <= MAX_HEADER_COUNT ==> AddLines(h1, c + 1, own[1..]) == AddLines(h2, c + 2, own[2..]);
    assert c + 1 <= MAX_HEADER_COUNT < c + 2 ==> AddLines(h1, c + 1, own[1..]) == Refused(TooManyHeaders, c + 2);
  }

  lemma ForwardedAsMap(h: Headers, headers: Headers, order: seq<string>)
    requires Enumerates(order, headers)
    ensures |ForwardedLines(headers, order)| == |Forwarded(headers)|
    ensures Merge(h, headers, order) == h + Forwarded(headers)
  {
    hide ForwardedLines, Merge, EndToEnd, Forwarded;
    MergeIsUnion(h, headers, order);
    CountForwarded(headers, order);
    ForwardedKeys(headers, order);
    ForwardedParts(headers, order);
  }

  lemma ForwardedKeys(headers: Headers, order: seq<string>)
    requires Enumerates(order, headers)
    ensures (set k | k in order && EndToEnd(k)) == Forwarded(headers).Keys
    ensures |Forwarded(headers)| == |Forwarded(headers).Keys|
  {
    hide EndToEnd;
  }

  lemma ForwardedParts(headers: Headers, order: seq<string>)
    requires Enumerates(order, headers)
    ensures (map k | k in headers && k in order && EndToEnd(k) :: headers[k]) == Forwarded(headers)
  {
    hide EndToEnd;
  }

  lemma ReadHostAndForwarded(headers: Headers, order: seq<string>, host: string)
    requires CleanHeaders(headers) && Enumerates(order, headers) && CleanValue(host)
    ensures var lines := [FieldLine("Host", host)] + ForwardedLines(headers, order);
            var n := 1 + |Forwarded(headers)|;
            && PlainLines(lines)
            && AddLines(map[], 0, lines) ==
               if n <= MAX_HEADER_COUNT then Added(map["host" := host] + Forwarded(headers), n)
               else Refused(TooManyHeaders, MAX_HEADER_COUNT + 1)
  {
    hide AddLine, PlainLine, CleanValue, CleanHeaders, FieldLine, ForwardedLines, AddLines, Merge, Forwarded;
    var h := map["host" := host];
    ReadHost(host);
    ReadForwarded(h, 1, headers, order);
    ForwardedAsMap(h, headers, order);
    AddLinesAppend(map[], 0, [FieldLine("Host", host)], ForwardedLines(headers, order));
  }

  lemma ReadAllLines(req: HttpRequest, order: seq<string>, host: string, requestId: string)
    requires CleanHeaders(req.headers) && Enumerates(order, req.headers)
    requires CleanValue(host) && CleanValue(requestId)
    ensures PlainLines(AllLines(req, order, host, requestId))
    ensures AddLines(map[], 0, AllLines(req, order, host, requestId)) ==
            if SentCount(req) <= MAX_HEADER_COUNT then Added(SentHeaders(req, host, requestId), SentCount(req))
            else Refused(TooManyHeaders, MAX_HEADER_COUNT + 1)
  {
    hide PlainLine, CleanValue, CleanHeaders, FieldLine, ForwardedLines, OwnLines, AddLines, Forwarded, WithOwn, FramingKey;
    var first, own := [FieldLine("Host", host)] + ForwardedLines(req.headers, order), OwnLines(req, requestId);
    var h := map["host" := host] + Forwarded(req.headers);
    var n := 1 + |Forwarded(req.headers)|;
    ReadHostAndForwarded(req.headers, order, host);
    NotForwarded(req.headers, host);
    AddLinesAppend(map[], 0, first, own);
    OwnCount(req, requestId);
    ReadOwnLines(h, if n <= MAX_HEADER_COUNT then n else 0, req, requestId);
  }

  lemma NotForwarded(headers: Headers, host: string)
    ensures var h := map["host" := host] + Forwarded(headers);
            "content-length" !in h && "transfer-encoding" !in h
  {
  }

  lemma OwnCount(req: HttpRequest, requestId: string)
    ensures |OwnLines(req, requestId)| == 3 + if req.body == "" then 0 else 1
  {
  }

  lemma ReadHost(host: string)
    requires CleanValue(host)
    ensures PlainLine(FieldLine("Host", host))
    ensures AddLines(map[], 0, [FieldLine("Host", host)]) == Added(map["host" := host], 1)
  {
    hide AddLine, PlainLine, CleanKey, CleanValue, FieldLine, ToLower;
    OwnNames();
    AddPrintedField(map[], 0, "Host", host);
    assert [FieldLine("Host", host)][1..] == [];
  }

  lemma SplitPrintedLine(verb: string, target: string, version: string)
    requires forall i :: 0 <= i < |verb| ==> verb[i] != ' '
    requires forall i :: 0 <= i < |version| ==> version[i] != ' '
    ensures SplitRequestLine(verb + " " + target + " " + version) == Some(RawLine(verb, target, version))
  {
    hide FindChar, RFindChar;
    var line := verb + " " + target + " " + version;
    var sp2 := |verb| + 1 + |target|;
    assert forall i :: 0 <= i < |verb| ==> line[i] == verb[i];
    assert line[|verb|] == ' ' && line[sp2] == ' ';
    assert forall i :: sp2 < i < |line| ==> line[i] == version[i - sp2 - 1];
    assert FindChar(line, ' ') == |verb|;
    assert RFindChar(line, ' ') == sp2;
    assert line[..|verb|] == verb && line[|verb| + 1..sp2] == target && line[sp2 + 1..] == version;
  }

  lemma PrintedLineHasNoCrlf(verb: string, target: string)
    requires forall i :: 0 <= i < |verb| ==> verb[i] != '\r'
    requires forall i :: 0 <= i < |target| ==> target[i] != '\r'
    ensures NoCrlf(verb + " " + target + " HTTP/1.1")
  {
  }

  lemma ReadRequestText(req: HttpRequest)
    requires CleanRequest(req)
    ensures NoCrlf(RequestText(req))
    ensures ParseRequestLine(RequestText(req)) == Ok(RequestLine(req.verb, req.path, req.query, "HTTP/1.1"))
  {
    hide SplitRequestLine, SplitTarget, ValidTarget, Target, NoCrlf, ContainsAny;
    assert forall i :: 0 <= i < |req.verb| ==> MethodChar(req.verb[i]);
    ReadTarget(req);
    SplitPrintedLine(req.verb, Target(req), "HTTP/1.1");
    assert RequestText(req) == req.verb + " " + Target(req) + " " + "HTTP/1.1";
    PrintedLineHasNoCrlf(req.verb, Target(req));
  }

  lemma ReadTarget(req: HttpRequest)
    requires CleanRequest(req)
    ensures ValidTarget(Target(req))
    ensures forall i :: 0 <= i < |Target(req)| ==> Target(req)[i] !in {'\r', '\n'}
    ensures SplitTarget(Target(req)) == (req.path, req.query)
  {
    hide FindChar;
    var target := Target(req);
    assert forall i :: 0 <= i < |req.path| ==> target[i] == req.path[i] && req.path[i] !in {'\r', '\n', '?'};
    forall i | |req.path| <= i < |target|
      ensures target[i] !in {'\r', '\n'}
    {
      if i > |req.path| { assert target[i] == req.query[i - |req.path| - 1]; }
    }
    if req.query == "" {
      assert target == req.path;
    } else {
      assert target[|req.path|] == '?';
      assert FindChar(target, '?') == |req.path|;
      assert target[..|req.path|] == req.path && target[|req.path| + 1..] == req.query;
    }
  }

  lemma SentFraming(req: HttpRequest, host: string, requestId: string)
    requires |req.body| <= MAX_BODY_BYTES
    ensures BodyLength(SentHeaders(req, host, requestId)) == Ok(|req.body|)
    ensures KeepAlive("HTTP/1.1", SentHeaders(req, host, requestId))
  {
    ValueOfPrint(|req.body|);
    ToLowerFixes("keep-alive");
    assert "keep-alive" != "close" by { assert |"keep-alive"| != |"close"|; }
  }

  /**
    For every request the parser produced, every enumeration of its header map and any bytes
    after it: the forwarded request is read back as the same message over the gateway's
    fields, leaving exactly those bytes, if and only if it has at most 100 fields; with more,
    the parser of another gateway would refuse it.
   */
  lemma BackendRequestRoundTrip(b: string, order: seq<string>, host: string, requestId: string, tail: string)
    requires ParseOne(b).Parsed?
    requires Enumerates(order, ParseOne(b).req.headers)
    requires CleanValue(host) && CleanValue(requestId)
    ensures var req := ParseOne(b).req;
            ParseOne(Wire(req, order, host, requestId) + tail) ==
            if SentCount(req) <= MAX_HEADER_COUNT
            then Parsed(HttpRequest(req.verb, req.path, req.query, "HTTP/1.1",
                                    SentHeaders(req, host, requestId), req.body, true), tail)
            else Rejected(TooManyHeaders)
  {
    hide ParseOne, Wire, SentHeaders, AllLines, Enumerates, CleanValue;
    var req := ParseOne(b).req;
    ParsedIsClean(b);
    ReadBackendRequest(req, order, host, requestId, tail);
  }

  lemma ReadBackendRequest(req: HttpRequest, order: seq<string>, host: string, requestId: string, tail: string)
    requires CleanRequest(req) && Enumerates(order, req.headers)
    requires CleanValue(host) && CleanValue(requestId)
    ensures ParseOne(Wire(req, order, host, requestId) + tail) ==
            if SentCount(req) <= MAX_HEADER_COUNT
            then Parsed(HttpRequest(req.verb, req.path, req.query, "HTTP/1.1",
                                    SentHeaders(req, host, requestId), req.body, true), tail)
            else Rejected(TooManyHeaders)
  {
    hide FindCrlf, ParseRequestLine, ReadFields, BodyLength, KeepAlive, SentHeaders, SentCount, AllLines, AddLines,
         RequestText, JoinLines, CleanValue, CleanHeaders, PlainLines, ValidMethod, NoCrlf, ContainsAny;
    var line, lines := RequestText(req), AllLines(req, order, host, requestId);
    ReadRequestText(req);
    ReadAllLines(req, order, host, requestId);
    SentFraming(req, host, requestId);
    var fields := JoinLines(lines) + CRLF + (req.body + tail);
    var wire := Wire(req, order, host, requestId) + tail;
    assert wire == line + CRLF + fields;
    FindCrlfAfterLine(line, fields);
    assert wire[..|line|] == line && wire[|line| + 2..] == fields;
    ReadPrintedLines(lines, map[], 0, req.body + tail);
    assert (req.body + tail)[..|req.body|] == req.body && (req.body + tail)[|req.body|..] == tail;
  }

  /** The client's fields that are passed on: all but those of one connection and those the gateway writes itself. */
  predicate PassedOn(name: string) {
    && name != "connection" && name != "keep-alive" && name != "proxy-connection" && name != "te" && name != "trailer"
    && name != "transfer-encoding" && name != "upgrade" && name != "host" && name != "content-length"
  }

  /** What the backend reads for one field name, if anything. */
  function SentField(req: HttpRequest, host: string, requestId: string, name: string): Option<string> {
    if name == "host" then Some(host)
    else if name == "x-request-id" then Some(requestId)
    else if name == "x-forwarded-for" then Some("gateway")
    else if name == "connection" then Some("keep-alive")
    else if name == "content-length" then if req.body == "" then None else Some(Print(|req.body|))
    else if PassedOn(name) && name in req.headers then Some(req.headers[name])
    else None
  }

  /** Field by field, what a backend that reads the forwarded request finds in it. */
  lemma BackendSees(b: string, order: seq<string>, host: string, requestId: string, tail: string, name: string)
    requires ParseOne(b).Parsed? && SentCount(ParseOne(b).req) <= 100
    requires Enumerates(order, ParseOne(b).req.headers)
    requires CleanValue(host) && CleanValue(requestId)
    ensures var req, seen := ParseOne(b).req, ParseOne(Wire(ParseOne(b).req, order, host, requestId) + tail);
            && seen.Parsed? && seen.rest == tail
            && seen.req.verb == req.verb && seen.req.path == req.path && seen.req.query == req.query
            && seen.req.body == req.body && seen.req.version == "HTTP/1.1" && seen.req.keepAlive
            && SentField(req, host, requestId, name) ==
               if name in seen.req.headers then Some(seen.req.headers[name]) else None
  {
    hide ParseOne, Wire, SentHeaders, SentField, AllLines, Enumerates, CleanValue, SentCount;
    BackendRequestRoundTrip(b, order, host, requestId, tail);
    FieldIsSent(ParseOne(b).req, host, requestId, name);
  }

  lemma FieldIsSent(req: HttpRequest, host: string, requestId: string, name: string)
    ensures var sent := SentHeaders(req, host, requestId);
            SentField(req, host, requestId, name) == if name in sent then Some(sent[name]) else None
  {
  }
}
