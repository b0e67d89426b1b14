/**
  When the way a stream is cut into rounds, or the time a socket takes for the replies, changes
  what a connection serves.
 */
module ServedCuts {
  import opened Text
  import opened RequestSyntax
  import opened ParserMachine
  import opened Resumption
  import opened Chunking
  import opened Serving
  import opened BackendRequest
  import opened RequestRoundTrip
  import Fields
  import Grammar
  import LineForms

  // ----- A socket that takes replies at once

  predicate Prompt(rounds: seq<Round>) {
    forall i :: 0 <= i < |rounds| ==> rounds[i].flushed
  }

  predicate AllDrained(rounds: seq<Round>) {
    forall i :: 0 <= i < |rounds| ==> rounds[i].drained
  }

  /** On a socket that takes replies at once, a connection that goes on has only served requests that stay. */
  lemma {:induction false} PromptStays(rounds: seq<Round>)
    requires Prompt(rounds)
    ensures var c := WakeAll(rounds); var r := ReadStream(Taken(rounds));
            && UpToClose(c.requests) == c.requests && !c.closing
            && (!c.closed ==> !c.rejected && AllStay(c.requests) && r.rejected.None?)
            && (c.rejected ==> AllStay(c.requests) && r.rejected.Some?)
            && (c.closed && AllDrained(rounds) ==> c.rejected || !AllStay(c.requests))
  {
    hide Serve, ReadStream, Coherent, Doomed, Stands, UpToClose;
    if rounds == [] {
      NoneToClose();
      NothingRead();
    } else {
      var before, r := rounds[..|rounds| - 1], rounds[|rounds| - 1];
      PromptStays(before);
      var c := WakeAll(before);
      assert r.flushed;
      if !c.closed && r.drained {
        WakeAllStands(before);
        PromptRound(c, Taken(before), r.bytes);
      } else {
        assert Taken(rounds) == Taken(before);
      }
    }
  }

  lemma NothingRead()
    ensures ReadStream("").rejected.None?
  {
    hide ParseOne;
    NothingToRead();
  }

  lemma PromptRound(c: Session, b: string, bytes: string)
    requires Valid(c.parser) && Stands(c.parser, c.requests, ReadStream(b))
    requires ReadStream(b).rejected.None? && AllStay(c.requests)
    ensures var t := Serve(c.parser.Append(bytes)); var r := ReadStream(b + bytes);
            && UpToClose(c.requests + t.requests) == c.requests + t.requests
            && (t.closing <==> t.failed || !AllStay(c.requests + t.requests))
            && (t.failed ==> AllStay(c.requests + t.requests) && r.rejected.Some?)
            && (!t.closing ==> r.rejected.None?)
  {
    hide Serve, ReadStream, Coherent, Doomed, UpToClose;
    var s := c.parser.Append(bytes);
    AppendKeepsCoherent(c.parser, bytes);
    FeedStands(c.parser, c.requests, b, bytes);
    ServeLeaves(s);
    Together(c.requests, Serve(s).requests);
    UpToCloseAppend(c.requests, Serve(s).requests);
  }

  function AllBytes(rounds: seq<Round>): string {
    if rounds == [] then "" else AllBytes(rounds[..|rounds| - 1]) + rounds[|rounds| - 1].bytes
  }

  lemma {:induction false} TakenIsPrefix(rounds: seq<Round>) returns (ext: string)
    requires AllDrained(rounds)
    ensures AllBytes(rounds) == Taken(rounds) + ext
    ensures !WakeAll(rounds).closed ==> ext == ""
  {
    hide Wake;
    if rounds == [] {
      ext := "";
    } else {
      var before, r := rounds[..|rounds| - 1], rounds[|rounds| - 1];
      assert r.drained;
      ext := TakenIsPrefix(before);
      ClosedStays(WakeAll(before), r);
      if WakeAll(before).closed { ext := ext + r.bytes; }
    }
  }

  lemma ClosedStays(c: Session, r: Round)
    requires Valid(c.parser)
    ensures c.closed ==> Wake(c, r) == c
  {
  }

  // ----- Lines that no cut can make look too long before the connection ends

  /** Up to the first request that ends the connection and up to a refusal, all finished lines are short. */
  predicate ServedShort(b: string)
    decreases |b|
  {
    match ParseOne(b)
    case Rejected(_) => true
    case NeedMore => ShortHead(b)
    case Parsed(req, rest) => ShortHead(b) && (req.keepAlive ==> ServedShort(rest))
  }

  /** With such lines, a refusal for a late line end is a refusal of the whole stream. */
  lemma {:induction false} LateServed(b: string, ext: string)
    requires ReadStream(b).rejected.Some? && AllStay(ReadStream(b).requests)
    requires ServedShort(b + ext)
    ensures ReadStream(b + ext).rejected.Some? && ReadStream(b + ext).requests == ReadStream(b).requests
    decreases |b|
  {
    hide ParseOne, ShortHead;
    ParseOneExtends(b, ext);
    match ParseOne(b)
    case NeedMore =>
    case Rejected(error) =>
      if error.LengthLimit() && !ParseOne(b + ext).Rejected? { LateLineEnd(b, ext); }
    case Parsed(req, rest) =>
      var all, tail := ReadStream(b).requests, ReadStream(rest).requests;
      assert all[0] == req && all[1..] == tail;
      Together([req], tail);
      LateServed(rest, ext);
  }

  /** On a socket that takes replies at once and with every round drained, such a stream is served alike however it is cut. */
  lemma ServedAlike(rounds: seq<Round>)
    requires Prompt(rounds) && AllDrained(rounds) && ServedShort(AllBytes(rounds))
    ensures Outcome(WakeAll(rounds)) == InOneRead(AllBytes(rounds))
  {
    hide WakeAll, Taken, ReadStream, Stands, UpToClose, ServedShort, AllBytes;
    var c, b := WakeAll(rounds), Taken(rounds);
    var r := ReadStream(b);
    PromptStays(rounds);
    WakeAllStands(rounds);
    var parser :| Stands(parser, c.requests, r);
    ServedBetween(parser, c.requests, r);
    StaysServed(c.requests, r.requests);
    var ext := TakenIsPrefix(rounds);
    if c.rejected {
      LateServed(b, ext);
    } else if c.closed {
      ReadStreamAppend(b, ext);
      var more := ReadStream(r.rest + ext).requests;
      UpToCloseAppend(r.requests, more);
      Together(r.requests, more);
    } else {
      assert AllBytes(rounds) == b;
    }
  }

  // What was served, whether the stream was refused, and whether the connection is closed.
  datatype Result = Result(requests: seq<HttpRequest>, rejected: bool, closed: bool)

  function Outcome(c: Session): Result {
    Result(c.requests, c.rejected, c.closed)
  }

  /** The outcome when all bytes arrive in one round. */
  function InOneRead(b: string): Result {
    var r := ReadStream(b);
    Result(UpToClose(r.requests), r.rejected.Some? && AllStay(r.requests), r.rejected.Some? || !AllStay(r.requests))
  }

  lemma FirstRound(r: Round)
    ensures WakeAll([r]) == Wake(Session(FreshParser(""), [], false, false, false), r)
  {
    hide Wake;
    var none: seq<Round> := [];
    assert [r][..0] == none;
  }

  lemma NoneClosesAlone(rs: seq<HttpRequest>)
    ensures UpToClose(rs) == [] <==> rs == []
  {
  }

  lemma OneRound(b: string)
    ensures Outcome(WakeAll([Round(b, true, true)])) == InOneRead(b)
  {
    hide Serve, ReadStream, UpToClose, Coherent, WakeAll;
    FreshIsCoherent("");
    var s := FreshParser("").Append(b);
    AppendKeepsCoherent(FreshParser(""), b);
    assert s.buffer == b;
    ServeReads(s);
    FirstRound(Round(b, true, true));
    assert [] + Serve(s).requests == Serve(s).requests;
    NoneClosesAlone(ReadStream(b).requests);
  }

  lemma StaysServed(served: seq<HttpRequest>, all: seq<HttpRequest>)
    requires served == UpToClose(all)
    ensures AllStay(served) <==> AllStay(all)
    ensures AllStay(all) ==> served == all
  {
    if AllStay(all) {
      StayingIsAll(all);
    } else {
      CloseIsServed(all);
    }
  }

  lemma {:induction false} CloseIsServed(all: seq<HttpRequest>)
    requires !AllStay(all)
    ensures !AllStay(UpToClose(all))
  {
    if !all[0].keepAlive {
      assert UpToClose(all)[0] == all[0];
    } else {
      var tail := all[1..];
      var i :| 0 <= i < |all| && !all[i].keepAlive;
      assert tail[i - 1] == all[i];
      CloseIsServed(tail);
      Together([all[0]], UpToClose(tail));
    }
  }

  // ----- Otherwise some cut shows

  lemma {:induction false} CutThatShows(b: string) returns (k: nat)
    requires !ServedShort(b)
    ensures k <= |b|
    ensures var p, r := ReadStream(b[..k]), ReadStream(b);
            p.rejected.Some? && AllStay(p.requests) && !(r.rejected.Some? && r.requests == p.requests)
    decreases |b|
  {
    hide ParseOne, ShortHead;
    if !ShortHead(b) {
      k := CutLongHead(b);
    } else {
      var req, rest := ParseOne(b).req, ParseOne(b).rest;
      k := CutThatShows(rest);
      var n := |b| - |rest|;
      ParsedTakesPrefix(b);
      ParseOneExtends(b[..n], rest[..k]);
      var p := ReadStream(rest[..k]).requests;
      Together([req], p);
      assert ([req] + p)[1..] == p && ([req] + ReadStream(rest).requests)[1..] == ReadStream(rest).requests;
      k := k + n;
      assert b[..k] == b[..n] + rest[..k - n];
      assert "" + rest[..k - n] == rest[..k - n];
    }
  }

  lemma TwoPieces(b: string, k: nat)
    requires k <= |b|
    ensures AllBytes([Round(b[..k], true, true), Round(b[k..], true, true)]) == b
  {
    var first, second := Round(b[..k], true, true), Round(b[k..], true, true);
    var none: seq<Round> := [];
    assert [first, second][..1] == [first] && [first][..0] == none;
    assert AllBytes(none) == "";
    assert AllBytes([first]) == "" + b[..k];
    assert AllBytes([first, second]) == b[..k] + b[k..];
  }

  lemma RefusedFirst(b: string, k: nat)
    requires k <= |b| && InOneRead(b[..k]).closed
    ensures Outcome(WakeAll([Round(b[..k], true, true), Round(b[k..], true, true)])) == InOneRead(b[..k])
  {
    hide InOneRead, Wake;
    var first, second := Round(b[..k], true, true), Round(b[k..], true, true);
    OneRound(b[..k]);
    assert [first, second][..1] == [first];
    ClosedStays(WakeAll([first]), second);
  }

  /** All cuts into drained rounds on a prompt socket have the outcome of one read. */
  ghost predicate CutsDoNotShow(b: string) {
    forall rounds: seq<Round> :: Prompt(rounds) && AllDrained(rounds) && AllBytes(rounds) == b ==>
      Outcome(WakeAll(rounds)) == Outcome(WakeAll([Round(b, true, true)]))
  }

  /**
    How a stream is cut into reads does not show in what a connection serves, in its refusal or
    in its close, if and only if all lines are short that are finished before the connection ends.
   */
  lemma CutsDoNotShowIff(b: string)
    ensures CutsDoNotShow(b) <==> ServedShort(b)
  {
    hide WakeAll, ReadStream, ServedShort, AllBytes, UpToClose;
    OneRound(b);
    if ServedShort(b) {
      forall rounds: seq<Round> | Prompt(rounds) && AllDrained(rounds) && AllBytes(rounds) == b
        ensures Outcome(WakeAll(rounds)) == Outcome(WakeAll([Round(b, true, true)]))
      {
        ServedAlike(rounds);
      }
    } else {
      var k := CutThatShows(b);
      var p, r := ReadStream(b[..k]), ReadStream(b);
      StayingIsAll(p.requests);
      if AllStay(r.requests) { StayingIsAll(r.requests); }
      RefusedFirst(b, k);
      TwoPieces(b, k);
      var rounds := [Round(b[..k], true, true), Round(b[k..], true, true)];
      assert Outcome(WakeAll(rounds)) != InOneRead(b);
    }
  }

  /** Short lines throughout are more than enough. */
  lemma {:induction false} ShortIsServedShort(b: string)
    requires ShortLines(b)
    ensures ServedShort(b)
    decreases |b|
  {
    hide ParseOne, ShortHead;
    match ParseOne(b)
    case NeedMore =>
    case Rejected(_) =>
    case Parsed(_, rest) => ShortIsServedShort(rest);
  }

  /**
    A long request line, whatever follows its blank line: read at once it is served, cut before
    its end it is refused and nothing is served, also when what follows is refused in any case.
   */
  lemma LongLineShows(n: nat, tail: string)
    requires n >= MAX_REQUEST_LINE
    ensures var line := RequestText(Grammar.LongRequest(n)); var after := CRLF + CRLF + tail;
            && WakeAll([Round(line + after, true, true)]).requests != []
            && WakeAll([Round(line + after, true, true)]).requests[0] == Grammar.LongRequest(n)
            && WakeAll([Round(line, true, true), Round(after, true, true)]).requests == []
  {
    hide WakeAll, Grammar.LongRequest, RequestText, ParseOne, FindCrlf;
    var req := Grammar.LongRequest(n);
    var line, after := RequestText(req), CRLF + CRLF + tail;
    Grammar.LongLine(n);
    LineIsRefused(line);
    OneRound(line + after);
    OneRound(line);
    assert line + (CRLF + CRLF) + tail == line + after;
    ParseOneExtends(line + (CRLF + CRLF), tail);
    assert (line + after)[..|line|] == line && (line + after)[|line|..] == after;
    RefusedFirst(line + after, |line|);
  }

  lemma LineIsRefused(line: string)
    requires FindCrlf(line, 0) == -1 && |line| > MAX_REQUEST_LINE
    ensures ReadStream(line).rejected.Some? && ReadStream(line).requests == []
  {
    hide FindCrlf;
  }

  // ----- A socket that takes its time

  /** Some round of the session serves a request although one before it was to end the connection. */
  predicate Overruns(rounds: seq<Round>) {
    rounds != [] &&
    (var before, r := rounds[..|rounds| - 1], rounds[|rounds| - 1];
     var c := WakeAll(before);
     || Overruns(before)
     || (!c.closed && r.drained && !AllStay(c.requests) && ParseOne(c.parser.buffer + r.bytes).Parsed?))
  }

  lemma ServesSomething(c: Session, b: string, bytes: string)
    requires Valid(c.parser) && Stands(c.parser, c.requests, ReadStream(b))
    ensures var t := Serve(c.parser.Append(bytes));
            (t.requests == [] <==> !ParseOne(c.parser.buffer + bytes).Parsed?) && UpToClose(t.requests) == t.requests
  {
    hide Serve, ReadStream, Coherent, Doomed, UpToClose, ParseOne;
    var s := c.parser.Append(bytes);
    FirstOfStream(s.buffer);
    if Coherent(c.parser) {
      AppendKeepsCoherent(c.parser, bytes);
      ServeReads(s);
      ServeLeaves(s);
    } else {
      AppendKeepsDoomed(c.parser, bytes);
      ServeDoomed(s);
      StreamGoesOn(c, b, bytes);
      ReadStreamAppend(b, bytes);
      NoneToClose();
    }
  }

  lemma {:induction false} OverrunsMeans(rounds: seq<Round>)
    ensures Overruns(rounds) <==> UpToClose(WakeAll(rounds).requests) != WakeAll(rounds).requests
  {
    hide Serve, Stands, UpToClose, ParseOne, Taken;
    if rounds == [] {
      NoneToClose();
    } else {
      var before, r := rounds[..|rounds| - 1], rounds[|rounds| - 1];
      OverrunsMeans(before);
      var c := WakeAll(before);
      if !c.closed && r.drained {
        WakeAllStands(before);
        ServesSomething(c, Taken(before), r.bytes);
        var more := Serve(c.parser.Append(r.bytes)).requests;
        UpToCloseAppend(c.requests, more);
        if AllStay(c.requests) { StayingIsAll(c.requests); }
        PrefixToClose(c.requests);
      }
    }
  }

  /**
    On any socket, exactly the requests up to the first that ends the connection are served, if
    and only if no round finds a further request complete while the close waits for the socket.
   */
  lemma ServesToCloseIff(rounds: seq<Round>)
    ensures WakeAll(rounds).requests == UpToClose(ReadStream(Taken(rounds)).requests) <==> !Overruns(rounds)
  {
    hide WakeAll, Taken, ReadStream, Stands, UpToClose, Overruns;
    OverrunsMeans(rounds);
    WakeAllStands(rounds);
    var parser :| Stands(parser, WakeAll(rounds).requests, ReadStream(Taken(rounds)));
    ServedBetween(parser, WakeAll(rounds).requests, ReadStream(Taken(rounds)));
  }

  /** A request after the closing one is served when the replies still wait for the socket. */
  lemma SlowSocketServesOn(first: string, p: HttpRequest, second: string, q: HttpRequest, flushed: bool)
    requires ParseOne(first) == Parsed(p, "") && !p.keepAlive && ParseOne(second) == Parsed(q, "")
    ensures WakeAll([Round(first, true, false), Round(second, true, flushed)]).requests == [p, q]
  {
    hide Serve, ParseOne, Coherent, WakeAll;
    var r1, r2 := Round(first, true, false), Round(second, true, flushed);
    FreshIsCoherent("");
    ServesOne(FreshParser(""), first, p);
    FirstRound(r1);
    var c := WakeAll([r1]);
    assert c.requests == [p] && !c.closed;
    ServesOne(c.parser, second, q);
    WakeNext([r1], r2);
    assert [r1] + [r2] == [r1, r2] && [p] + [q] == [p, q];
  }

  lemma ServesOne(parser: ParserState, text: string, req: HttpRequest)
    requires Coherent(parser) && parser.buffer == "" && ParseOne(text) == Parsed(req, "")
    ensures var t := Serve(parser.Append(text));
            t.requests == [req] && !t.failed && t.closing == !req.keepAlive
            && Coherent(t.parser) && t.parser.buffer == ""
  {
    hide Resume, ParseOne, Future;
    var s := parser.Append(text);
    assert s.buffer == text;
    AppendKeepsCoherent(parser, text);
    ResumeAgrees(s);
    var r := Resume(s);
    ResumeAgrees(r.state);
    NothingToRead();
    assert [req] + [] == [req];
  }

  /** There is such a request: version 1.0 without a connection field. */
  lemma ClosingRequest()
    ensures ParseOne("GET / HTTP/1.0" + CRLF + CRLF) ==
            Parsed(HttpRequest("GET", "/", "", "HTTP/1.0", map[], "", false), "")
  {
    hide ParseOne, ParseRequestLine, NoCrlf;
    var line, req := "GET / HTTP/1.0", HttpRequest("GET", "/", "", "HTTP/1.0", map[], "", false);
    var l := RequestLine("GET", "/", "", "HTTP/1.0");
    assert LineForms.TargetText("/", "/", "");
    assert line == l.verb + " " + "/" + " " + l.version;
    assert LineForms.RequestLineText(line, l);
    LineForms.RequestLineForm(line, l);
    LineForms.LineTextHasNoCrlf(line, l);
    assert JoinLines([]) == "";
    assert line + CRLF + CRLF == line + CRLF + JoinLines([]) + CRLF + req.body + "";
    Grammar.MessageIsParsed(line + CRLF + CRLF, req, "", line, []);
  }

  // ----- A round that ends with the stream

  /** A request that fills the read buffer exactly. */
  function FullRequest(): HttpRequest {
    HttpRequest("GET", "/", "", "HTTP/1.1", map["x" := Repeat('a', RECV_SIZE - 23)], "", true)
  }

  function FullLine(): string {
    FieldLine("x", FullRequest().headers["x"])
  }

  function FullText(): string {
    RequestText(FullRequest()) + CRLF + JoinLines([FullLine()]) + CRLF
  }

  lemma FullFieldIsRead()
    ensures PlainLine(FullLine()) && AddLines(map[], 0, [FullLine()]) == Added(FullRequest().headers, 1)
    ensures CleanRequest(FullRequest())
  {
    hide Repeat, AddLine, FieldLine, PlainLine;
    var v := FullRequest().headers["x"];
    assert v[0] == 'a' && v[|v| - 1] == 'a';
    assert CleanValue(v) && CleanKey("x");
    assert IsLower("x");
    ToLowerFixes("x");
    AddPrintedField(map[], 0, "x", v);
    Fields.OneLine(map[], 0, FullLine());
  }

  lemma FullIsRead()
    ensures |FullText()| == RECV_SIZE && ParseOne(FullText()) == Parsed(FullRequest(), "")
  {
    hide ParseOne, Repeat, AddLines, PlainLine, ParseRequestLine, NoCrlf, CleanRequest;
    var req, line, lines := FullRequest(), RequestText(FullRequest()), [FullLine()];
    FullFieldIsRead();
    ReadRequestText(req);
    Grammar.ExtensionsDoNotFrame(req.headers);
    assert FullText() == line + CRLF + JoinLines(lines) + CRLF + req.body + "";
    Grammar.MessageIsParsed(FullText(), req, "", line, lines);
    JoinOne(FullLine());
  }

  lemma LineInFrontIsShort(line: string, rest: string)
    requires NoCrlf(line) && 0 < |line| < MAX_HEADER_BYTES
    ensures ShortFields(line + CRLF + rest) <==> ShortFields(rest)
  {
    hide FindCrlf, NoCrlf;
    var b := line + CRLF + rest;
    FindCrlfAfterLine(line, rest);
    assert b[|line| + 2..] == rest;
  }

  lemma NoFieldsAreShort(rest: string)
    ensures ShortFields(CRLF + rest)
  {
    hide FindCrlf;
    assert CrlfAt(CRLF + rest, 0);
  }

  lemma FullIsShort()
    ensures ServedShort(FullText())
  {
    hide Repeat, ParseOne, NoCrlf, FindCrlf, ShortFields, FullLine, CleanRequest, ParseRequestLine;
    FullIsRead();
    FullFieldIsRead();
    ReadRequestText(FullRequest());
    var line, field := RequestText(FullRequest()), FullLine();
    JoinOne(field);
    FullLengths();
    var rest := field + CRLF + (CRLF + "");
    assert FullText() == line + CRLF + rest;
    FindCrlfAfterLine(line, rest);
    assert FullText()[|line| + 2..] == rest;
    NoFieldsAreShort("");
    LineInFrontIsShort(field, CRLF + "");
    NothingToRead();
    NoLineInNothing();
  }

  lemma FullLengths()
    ensures |RequestText(FullRequest())| < MAX_REQUEST_LINE && 0 < |FullLine()| < MAX_HEADER_BYTES
  {
    hide Repeat;
  }

  lemma NoLineInNothing()
    ensures ShortHead("")
  {
  }

  /** Followed by end of stream, that request is never looked at; cut one byte earlier, it is served. */
  lemma EndOfStreamLosesRequest()
    ensures var b := FullText(); var k := RECV_SIZE - 1;
            && |b| == RECV_SIZE
            && Recv([Got(b), Got("")]) == Intake(b, false)
            && Recv([Got(b[..k])]) == Intake(b[..k], true) && Recv([Got(b[k..])]) == Intake(b[k..], true)
            && WakeAll([Round(b, false, true)]).requests == []
            && WakeAll([Round(b[..k], true, true), Round(b[k..], true, true)]).requests == [FullRequest()]
  {
    hide FullText, FullRequest, Recv, WakeAll, ReadStream, ServedShort, UpToClose, ParseOne;
    var b, k := FullText(), RECV_SIZE - 1;
    FullIsRead();
    FullIsShort();
    FullIsStaying();
    ReadsInOne(b);
    ReadsShort(b[..k]);
    ReadsShort(b[k..]);
    UndrainedServesNothing(b);
    TwoRounds(b, k);
    OnlyRequest(b, FullRequest());
  }

  lemma FullIsStaying()
    ensures FullRequest().keepAlive
  {
  }

  lemma ReadsInOne(b: string)
    requires |b| == RECV_SIZE
    ensures Recv([Got(b), Got("")]) == Intake(b, false)
  {
    assert [Got(b), Got("")][1..] == [Got("")];
    assert b + "" == b;
  }

  lemma ReadsShort(b: string)
    requires 0 < |b| < RECV_SIZE
    ensures Recv([Got(b)]) == Intake(b, true)
  {
  }

  lemma UndrainedServesNothing(b: string)
    ensures WakeAll([Round(b, false, true)]).requests == []
  {
    hide Serve;
    assert [Round(b, false, true)][..0] == [];
  }

  lemma TwoRounds(b: string, k: nat)
    requires k <= |b| && ServedShort(b)
    ensures WakeAll([Round(b[..k], true, true), Round(b[k..], true, true)]).requests == UpToClose(ReadStream(b).requests)
  {
    hide WakeAll, ReadStream, ServedShort, UpToClose;
    TwoPieces(b, k);
    ServedAlike([Round(b[..k], true, true), Round(b[k..], true, true)]);
  }

  lemma OnlyRequest(b: string, req: HttpRequest)
    requires ParseOne(b) == Parsed(req, "") && req.keepAlive
    ensures UpToClose(ReadStream(b).requests) == [req]
  {
    hide ParseOne;
    NothingToRead();
    assert [req] + [] == [req] && [req][1..] == [];
  }
}
