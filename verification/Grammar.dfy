/** The messages the parser accepts, as a grammar, and what the length limits do not decide for good. */
module Grammar {
  import opened Text
  import opened RequestSyntax
  import opened BackendRequest
  import opened RequestRoundTrip
  import opened ParserMachine
  import opened Resumption
  import Fields

  /** A request line, header lines, a blank line and a body of the declared length, followed by `rest`. */
  ghost predicate IsMessage(b: string, req: HttpRequest, rest: string, line: string, lines: seq<string>) {
    && b == line + CRLF + JoinLines(lines) + CRLF + req.body + rest
    && NoCrlf(line) && PlainLines(lines)
    && ParseRequestLine(line).Ok?
    && AddLines(map[], 0, lines).Added?
    && var h := AddLines(map[], 0, lines).headers;
       && BodyLength(h) == Ok(|req.body|)
       && req == MakeRequest(ParseRequestLine(line).value, h, req.body)
  }

  lemma MessageIsParsed(b: string, req: HttpRequest, rest: string, line: string, lines: seq<string>)
    requires IsMessage(b, req, rest, line, lines)
    ensures ParseOne(b) == Parsed(req, rest)
  {
    hide FindCrlf, ParseRequestLine, ReadFields, BodyLength, KeepAlive, AddLines, JoinLines, PlainLines, NoCrlf;
    var fields := JoinLines(lines) + CRLF + (req.body + rest);
    assert b == line + CRLF + fields;
    FindCrlfAfterLine(line, fields);
    assert b[..|line|] == line && b[|line| + 2..] == fields;
    ReadPrintedLines(lines, map[], 0, req.body + rest);
    assert (req.body + rest)[..|req.body|] == req.body && (req.body + rest)[|req.body|..] == rest;
  }

  lemma FirstLine(b: string, h: Headers, c: nat)
    requires ReadFields(b, h, c).FieldsDone?
    ensures var e := FindCrlf(b, 0);
            && e >= 0
            && (e == 0 ==> ReadFields(b, h, c) == FieldsDone(h, b[2..]))
            && (e > 0 ==>
                  && AddLine(h, c, b[..e]).Added?
                  && ReadFields(b, h, c) ==
                     ReadFields(b[e + 2..], AddLine(h, c, b[..e]).headers, AddLine(h, c, b[..e]).count))
  {
    hide FindCrlf, AddLine;
  }

  lemma LineInFront(line: string, tail: seq<string>, h: Headers, c: nat)
    ensures JoinLines([line] + tail) == line + CRLF + JoinLines(tail)
    ensures AddLine(h, c, line).Added? ==>
              AddLines(h, c, [line] + tail) == AddLines(AddLine(h, c, line).headers, AddLine(h, c, line).count, tail)
    ensures NoCrlf(line) && line != "" && PlainLines(tail) ==> PlainLines([line] + tail)
  {
    hide AddLine, NoCrlf;
    assert ([line] + tail)[1..] == tail;
  }

  lemma {:induction false} FieldsAreLines(b: string, h: Headers, c: nat) returns (lines: seq<string>)
    requires ReadFields(b, h, c).FieldsDone?
    ensures PlainLines(lines)
    ensures b == JoinLines(lines) + CRLF + ReadFields(b, h, c).rest
    ensures AddLines(h, c, lines).Added? && AddLines(h, c, lines).headers == ReadFields(b, h, c).headers
    decreases |b|
  {
    hide FindCrlf, AddLine, NoCrlf, ReadFields;
    var e := FindCrlf(b, 0);
    FirstLine(b, h, c);
    LineHasNoCrlf(b);
    if e == 0 {
      lines := [];
      assert JoinLines([]) + CRLF == CRLF;
    } else {
      hide AddLines, JoinLines, PlainLines;
      var line, a := b[..e], AddLine(h, c, b[..e]);
      var tail := FieldsAreLines(b[e + 2..], a.headers, a.count);
      LineInFront(line, tail, h, c);
      lines := [line] + tail;
    }
  }

  lemma ParsedIsMessage(b: string) returns (line: string, lines: seq<string>)
    requires ParseOne(b).Parsed?
    ensures IsMessage(b, ParseOne(b).req, ParseOne(b).rest, line, lines)
  {
    hide FindCrlf, ParseRequestLine, ReadFields, BodyLength, KeepAlive, AddLines, JoinLines, PlainLines, NoCrlf;
    var e := FindCrlf(b, 0);
    LineHasNoCrlf(b);
    line := b[..e];
    var fields := b[e + 2..];
    lines := FieldsAreLines(fields, map[], 0);
    var rest := ReadFields(fields, map[], 0).rest;
    assert rest == ParseOne(b).req.body + ParseOne(b).rest;
  }

  /** The stateless parser accepts exactly the messages of the grammar, and splits off exactly one. */
  lemma ParsedIffMessage(b: string, req: HttpRequest, rest: string)
    ensures ParseOne(b) == Parsed(req, rest) <==> exists line, lines :: IsMessage(b, req, rest, line, lines)
  {
    hide ParseOne, IsMessage;
    if ParseOne(b) == Parsed(req, rest) {
      var line, lines := ParsedIsMessage(b);
      assert IsMessage(b, req, rest, line, lines);
    }
    if line, lines :| IsMessage(b, req, rest, line, lines) {
      MessageIsParsed(b, req, rest, line, lines);
    }
  }

  // ----- Errors for a late line end

  function LongRequest(n: nat): HttpRequest {
    HttpRequest("GET", "/" + Repeat('a', n), "", "HTTP/1.1", map[], "", true)
  }

  lemma LongLine(n: nat)
    requires n >= MAX_REQUEST_LINE
    ensures var line := RequestText(LongRequest(n));
            && FindCrlf(line, 0) == -1 && |line| > MAX_REQUEST_LINE
            && ParseOne(line + (CRLF + CRLF)) == Parsed(LongRequest(n), "")
  {
    hide FindCrlf, Repeat, ParseOne, ParseRequestLine;
    var req := LongRequest(n);
    var line := RequestText(req);
    assert forall i :: 0 <= i < |req.path| ==> req.path[i] == (if i == 0 then '/' else Repeat('a', n)[i - 1]);
    assert CleanRequest(req);
    ReadRequestText(req);
    assert JoinLines([]) == "";
    assert line + (CRLF + CRLF) == line + CRLF + JoinLines([]) + CRLF + req.body + "";
    MessageIsParsed(line + (CRLF + CRLF), req, "", line, []);
  }

  /** A request line refused for being too long so far is accepted once its end arrives: that refusal is not permanent. */
  lemma LengthLimitIsNotPermanent(n: nat)
    requires n >= MAX_REQUEST_LINE
    ensures var line := RequestText(LongRequest(n));
            RunFrom(FreshParser(""), [Feed(line), Parse, Feed(CRLF + CRLF), Parse]).statuses ==
            [Failed(RequestLineTooLong), Complete(LongRequest(n))]
  {
    hide Repeat, ParseOne, Coherent, Resume, RunFrom, FindCrlf, LongRequest, RequestText;
    var line := RequestText(LongRequest(n));
    LongLine(n);
    var s := FreshParser("").Append(line);
    assert s == FreshParser(line);
    LateLine(line);
    var s' := s.Append(CRLF + CRLF);
    FreshIsCoherent(s'.buffer);
    ResumeAgrees(s');
    TwoTries(line, CRLF + CRLF);
  }

  lemma LateLine(line: string)
    requires FindCrlf(line, 0) == -1 && |line| > MAX_REQUEST_LINE
    ensures Resume(FreshParser(line)) == Step(FreshParser(line), Failed(RequestLineTooLong))
  {
    hide FindCrlf;
  }

  lemma TwoTries(first: string, second: string)
    ensures var s := FreshParser("").Append(first);
            RunFrom(FreshParser(""), [Feed(first), Parse, Feed(second), Parse]).statuses ==
            [Resume(s).status, Resume(Resume(s).state.Append(second)).status]
  {
    hide Resume;
    var a := [Feed(first), Parse, Feed(second), Parse];
    assert a[1..] == [Parse, Feed(second), Parse];
    assert [Parse, Feed(second), Parse][1..] == [Feed(second), Parse];
    assert [Feed(second), Parse][1..] == [Parse];
    assert [Parse][1..] == [];
    var s := FreshParser("").Append(first);
    var s' := Resume(s).state.Append(second);
    assert RunFrom(s', [Parse]).statuses == [Resume(s').status];
    assert RunFrom(Resume(s).state, [Feed(second), Parse]) == RunFrom(s', [Parse]);
  }

  // ----- A request that is accepted but cannot be forwarded to another gateway

  function ManyNames(n: nat): Headers {
    if n == 0 then map[] else ManyNames(n - 1)[Repeat('x', n) := ""]
  }

  function ManyLines(n: nat): seq<string> {
    if n == 0 then [] else ManyLines(n - 1) + [FieldLine(Repeat('x', n), "")]
  }

  function ManyFields(n: nat): HttpRequest {
    HttpRequest("GET", "/", "", "HTTP/1.1", ManyNames(n), "", true)
  }

  lemma NamedByLength(n: nat)
    requires n > 0
    ensures CleanKey(Repeat('x', n)) && ToLower(Repeat('x', n)) == Repeat('x', n)
    ensures EndToEnd(Repeat('x', n)) && IsLower(Repeat('x', n)) && Repeat('x', n)[0] == 'x'
  {
    hide Repeat;
    var name := Repeat('x', n);
    assert name[0] == 'x';
    assert forall i :: 0 <= i < n ==> LowerChar(name[i]) == name[i];
    ToLowerFixes(name);
    EndToEndByFirst(name);
  }

  lemma EndToEndByFirst(name: string)
    requires name != "" && name[0] == 'x'
    ensures EndToEnd(name)
  {
  }

  lemma {:induction false} ManyAreNamed(n: nat)
    ensures |ManyNames(n)| == n
    ensures forall k :: k in ManyNames(n) ==> 1 <= |k| <= n && k == Repeat('x', |k|) && ManyNames(n)[k] == ""
  {
    hide Repeat;
    if n == 0 {
    } else {
      ManyAreNamed(n - 1);
      assert Repeat('x', n) !in ManyNames(n - 1);
    }
  }

  lemma OneFieldMore(lines: seq<string>, h: Headers, c: nat, name: string)
    requires PlainLines(lines) && AddLines(map[], 0, lines) == Added(h, c) && c < MAX_HEADER_COUNT
    requires CleanKey(name) && ToLower(name) == name && EndToEnd(name)
    ensures PlainLines(lines + [FieldLine(name, "")])
    ensures AddLines(map[], 0, lines + [FieldLine(name, "")]) == Added(h[name := ""], c + 1)
  {
    hide AddLines, FieldLine, AddLine, PlainLine, CleanKey, CleanValue, EndToEnd, FramingKey, ToLower;
    var line := FieldLine(name, "");
    NoValueIsClean();
    EndToEndIsNotFraming(name);
    AddPrintedField(h, c, name, "");
    AddLinesAppend(map[], 0, lines, [line]);
    Fields.OneLine(h, c, line);
  }

  lemma {:induction false} ManyAreAdded(n: nat)
    requires n <= MAX_HEADER_COUNT
    ensures PlainLines(ManyLines(n)) && AddLines(map[], 0, ManyLines(n)) == Added(ManyNames(n), n)
  {
    if n == 0 {
    } else {
      hide Repeat, AddLines, PlainLines, FieldLine, CleanKey, EndToEnd, ToLower;
      ManyAreAdded(n - 1);
      NamedByLength(n);
      OneFieldMore(ManyLines(n - 1), ManyNames(n - 1), n - 1, Repeat('x', n));
    }
  }

  lemma NoValueIsClean()
    ensures CleanValue("")
  {
  }

  lemma ManyAreClean(n: nat)
    ensures CleanHeaders(ManyNames(n)) && forall k :: k in ManyNames(n) ==> k != "" && k[0] == 'x'
  {
    hide ManyNames, Repeat, CleanKey, CleanValue, IsLower, EndToEnd, ToLower;
    ManyAreNamed(n);
    NoValueIsClean();
    forall k | k in ManyNames(n)
      ensures CleanKey(k) && IsLower(k) && k[0] == 'x'
    {
      NamedByLength(|k|);
    }
  }

  lemma ExtensionsDoNotFrame(h: Headers)
    requires forall k :: k in h ==> k != "" && k[0] == 'x'
    ensures BodyLength(h) == Ok(0) && KeepAlive("HTTP/1.1", h)
  {
    assert "content-length"[0] != 'x' && "transfer-encoding"[0] != 'x' && "connection"[0] != 'x';
  }

  lemma ManyIsMessage(n: nat) returns (b: string)
    requires n <= MAX_HEADER_COUNT
    ensures ParseOne(b) == Parsed(ManyFields(n), "")
  {
    hide ParseOne, ManyNames, ManyLines, AddLines, JoinLines, ParseRequestLine, PlainLines, NoCrlf, CleanHeaders, BodyLength, KeepAlive;
    var req := ManyFields(n);
    ManyAreAdded(n);
    ManyAreClean(n);
    ExtensionsDoNotFrame(req.headers);
    var line, lines := RequestText(req), ManyLines(n);
    ReadRequestText(req);
    b := line + CRLF + JoinLines(lines) + CRLF + req.body + "";
    MessageIsParsed(b, req, "", line, lines);
  }

  lemma AllForwarded(n: nat)
    requires n <= MAX_HEADER_COUNT
    ensures SentCount(ManyFields(n)) == n + 4
  {
    hide ManyNames, Repeat, EndToEnd;
    ManyAreNamed(n);
    var h := ManyNames(n);
    forall k | k in h
      ensures EndToEnd(k)
    {
      NamedByLength(|k|);
    }
    assert Forwarded(h) == h;
  }

  /** With 97 to 100 end-to-end fields a request is accepted, but what is forwarded is refused by the same parser. */
  lemma TooManyToForward(n: nat, order: seq<string>, host: string, requestId: string, tail: string)
    requires 97 <= n <= MAX_HEADER_COUNT
    requires Enumerates(order, ManyNames(n)) && CleanValue(host) && CleanValue(requestId)
    ensures exists b :: ParseOne(b) == Parsed(ManyFields(n), "")
    ensures ParseOne(Wire(ManyFields(n), order, host, requestId) + tail) == Rejected(TooManyHeaders)
  {
    hide ParseOne, ManyNames, Wire, SentCount;
    var b := ManyIsMessage(n);
    AllForwarded(n);
    BackendRequestRoundTrip(b, order, host, requestId, tail);
  }
}
