/** The parser object of include/http/HttpParser.hpp, updating its fields in place. */
module HttpParserClass {
  import opened Text
  import opened Decimal
  import opened RequestSyntax
  import opened ParserMachine
  import opened Resumption
  import opened Chunking
  import opened Serving
  import LineForms

  class HttpParser {
    var buffer: string
    var phase: Phase
    var verb: string
    var path: string
    var query: string
    var version: string
    var headers: Headers
    var contentLength: nat
    var chunked: bool
    var headerCount: nat
    var consumed: nat

    function State(): ParserState
      reads this
    {
      ParserState(buffer, phase, verb, path, query, version, headers, contentLength, chunked, headerCount, consumed)
    }

    constructor ()
      ensures State() == FreshParser("")
      ensures Coherent(State())
    {
      buffer, phase := "", AtRequestLine;
      verb, path, query, version := "", "", "", "";
      headers, contentLength, chunked, headerCount, consumed := map[], 0, false, 0, 0;
      new;
      FreshIsCoherent("");
    }

    method Append(data: string)
      modifies this
      ensures State() == old(State()).Append(data)
      ensures old(Coherent(State())) ==> Coherent(State())
      ensures old(Doomed(State())) ==> Doomed(State())
    {
      ghost var s := State();
      buffer := buffer + data;
      if Coherent(s) { AppendKeepsCoherent(s, data); }
      if Doomed(s) { AppendKeepsDoomed(s, data); }
    }

    /** `parseRequestLine`: `error` stands for the exception, `pos` is past the line when `found`. */
    method ReadRequestLine() returns (found: bool, pos: nat, error: Option<ParseError>)
      requires Valid(State()) && phase == AtRequestLine
      modifies `verb, `path, `query, `version
      ensures Valid(State())
      ensures found ==> error.None? && 0 < pos <= |buffer|
      ensures !found ==> ResumeRequestLine(old(State())) ==
                           Step(State(), if error.None? then Incomplete else Failed(error.value))
      ensures found ==> ResumeRequestLine(old(State())) ==
                          ResumeHeaders(State().(phase := AtHeaders, consumed := pos))
    {
      hide FindCrlf, ResumeHeaders, SplitTarget, SplitRequestLine, ValidMethod, ValidTarget;
      found, pos, error := false, 0, None;
      var eol := FindCrlf(buffer, 0);
      if eol == -1 {
        if |buffer| > MAX_REQUEST_LINE { error := Some(RequestLineTooLong); }
        return;
      }
      var line := buffer[..eol];
      pos := eol + 2;
      var raw := SplitRequestLine(line);
      if raw.None? { error := Some(MalformedRequestLine); return; }
      verb := raw.value.verb;
      var target := raw.value.target;
      version := raw.value.version;
      if !ValidVersion(version) { error := Some(UnsupportedVersion); return; }
      if !ValidMethod(verb) { error := Some(InvalidMethod); return; }
      if !ValidTarget(target) { error := Some(InvalidTarget); return; }
      var split := SplitTarget(target);
      path, query := split.0, split.1;
      found := true;
    }

    /** `parseHeaders`: saves `consumed` after every line, so that a late line end costs no rework. */
    method ReadHeaders() returns (end: bool, pos: nat, error: Option<ParseError>)
      requires Valid(State()) && phase == AtHeaders
      modifies `headers, `headerCount, `consumed
      ensures Valid(State()) && pos <= |buffer|
      ensures var scan := old(ScanHeaders(buffer, consumed, headers, headerCount));
              && scan.headers == headers && scan.count == headerCount
              && end == scan.ScanEnd? && error == (if scan.ScanFail? then Some(scan.error) else None)
              && scan.pos == (if end then pos else consumed)
    {
      hide FindCrlf, AddLine;
      ghost var scan := ScanHeaders(buffer, consumed, headers, headerCount);
      end, pos, error := false, consumed, None;
      while true
        invariant Valid(State()) && pos == consumed
        invariant buffer == old(buffer) && phase == AtHeaders && !end && error.None?
        invariant ScanHeaders(buffer, consumed, headers, headerCount) == scan
        decreases |buffer| - consumed
      {
        var eol := FindCrlf(buffer, pos);
        if eol == -1 {
          if |buffer| - pos > MAX_HEADER_BYTES { error := Some(HeadersTooLarge); }
          return;
        }
        if eol == pos {
          end, pos := true, eol + 2;
          return;
        }
        var line := AddLine(headers, headerCount, buffer[pos..eol]);
        headerCount := line.count;
        if line.Refused? {
          error := Some(line.error);
          return;
        }
        headers := line.headers;
        pos := eol + 2;
        consumed := pos;
      }
    }

    /** The framing checks between the blank line and the body. */
    method CheckFraming() returns (error: Option<ParseError>)
      requires Valid(State()) && phase == AtHeaders
      modifies `contentLength, `chunked, `phase
      ensures Valid(State())
      ensures if error.Some? then ResumeFraming(old(State())) == Step(State(), Failed(error.value))
              else phase == AtBody && ResumeFraming(old(State())) == ResumeBody(State())
      ensures error.None? <==> exists n :: LineForms.FramingText(headers, n)
    {
      hide IsChunked, LineForms.FramingText;
      LineForms.FramingIff(headers);
      error := None;
      if "content-length" in headers {
        var parsed := ParseSize(headers["content-length"]);
        if parsed.None? { error := Some(InvalidContentLength); return; }
        contentLength := parsed.value;
        if contentLength > MAX_BODY_BYTES { error := Some(BodyTooLarge); return; }
      }
      chunked := IsChunked(headers);
      if "transfer-encoding" in headers && "content-length" in headers { error := Some(AmbiguousFraming); return; }
      if chunked {
        error := Some(ChunkedUnsupported);
        assert "transfer-encoding" in headers by { ChunkedIsCoded(headers); }
        return;
      }
      phase := AtBody;
    }

    /**
      `parse`. From every state that stands for the bytes it has read, the status, the request
      and the remainder are those of the stateless `ParseOne` on the buffer.
     */
    method Parse() returns (status: Status)
      requires Valid(State())
      modifies this
      ensures Valid(State())
      ensures Step(State(), status) == Resume(old(State()))
      ensures old(Coherent(State())) ==> Agrees(Step(State(), status), ParseOne(old(buffer)))
      ensures old(Coherent(State())) && Harmless(status) ==> Coherent(State())
      ensures !Harmless(status) || old(Doomed(State())) ==> Doomed(State()) && !status.Complete?
    {
      ghost var s := State();
      status := Advance();
      AfterCall(s);
    }

    method Advance() returns (status: Status)
      requires Valid(State())
      modifies this
      ensures Step(State(), status) == Resume(old(State()))
    {
      hide ResumeRequestLine, ResumeHeaders, ResumeBody;
      if phase == AtRequestLine {
        var found, pos, error := ReadRequestLine();
        if error.Some? { return Failed(error.value); }
        if !found { return Incomplete; }
        phase, consumed := AtHeaders, pos;
      }
      if phase == AtHeaders {
        status := AdvanceHeaders();
      } else {
        status := AdvanceBody();
      }
    }

    method AdvanceHeaders() returns (status: Status)
      requires Valid(State()) && phase == AtHeaders
      modifies this
      ensures Step(State(), status) == ResumeHeaders(old(State()))
    {
      hide ScanHeaders, ResumeFraming, ResumeBody;
      var end, pos, error := ReadHeaders();
      if error.Some? { return Failed(error.value); }
      if !end { return Incomplete; }
      consumed := pos;
      error := CheckFraming();
      if error.Some? { return Failed(error.value); }
      status := AdvanceBody();
    }

    method AdvanceBody() returns (status: Status)
      requires Valid(State()) && phase == AtBody
      modifies this
      ensures Step(State(), status) == ResumeBody(old(State()))
    {
      hide KeepAlive;
      if |buffer| - consumed < contentLength { return Incomplete; }
      var end := consumed + contentLength;
      var req := HttpRequest(verb, path, query, version, headers, buffer[consumed..end], KeepAlive(version, headers));
      StartOver(buffer[end..]);
      return Complete(req);
    }

    /** Erases the consumed bytes and forgets the message, so that a pipelined request starts afresh. */
    method StartOver(rest: string)
      modifies this
      ensures State() == FreshParser(rest)
    {
      buffer := rest;
      phase, consumed := AtRequestLine, 0;
      verb, path, query, version := "", "", "", "";
      headers, contentLength, chunked, headerCount := map[], 0, false, 0;
    }
  }

  lemma ChunkedIsCoded(h: Headers)
    ensures IsChunked(h) ==> "transfer-encoding" in h
  {
  }

  lemma AfterCall(s: ParserState)
    requires Valid(s)
    ensures Coherent(s) ==> Agrees(Resume(s), ParseOne(s.buffer))
    ensures Coherent(s) && Harmless(Resume(s).status) ==> Coherent(Resume(s).state)
    ensures !Harmless(Resume(s).status) || Doomed(s) ==> Doomed(Resume(s).state) && !Resume(s).status.Complete?
  {
    hide Resume, Coherent, Doomed, ParseOne;
    if Coherent(s) { ResumeAgrees(s); }
    if Doomed(s) { DoomedStaysDoomed(s); }
    if !Harmless(Resume(s).status) { RejectionDooms(s); }
  }

  /** The read loop of `Worker::onReadable`: appends what arrives until a short read, or ends undrained. */
  method ReadSocket(parser: HttpParser, results: seq<RecvResult>) returns (drained: bool)
    modifies parser
    ensures parser.State() == old(parser.State()).Append(Recv(results).bytes)
    ensures drained == Recv(results).drained
  {
    hide Coherent, Doomed, Recv;
    ghost var got := "";
    var i := 0;
    assert parser.buffer + "" == parser.buffer && results[0..] == results;
    while i < |results|
      invariant i <= |results| && parser.State() == old(parser.State()).Append(got)
      invariant Recv(results) == var r := Recv(results[i..]); Intake(got + r.bytes, r.drained)
    {
      var result := results[i];
      OneRecv(results, i);
      i := i + 1;
      match result {
        case WouldBlock => return true;
        case ReadError => return false;
        case Interrupted =>
        case Got(data) =>
          if data == "" { return false; }
          AppendTwice(old(parser.State()), got, data);
          parser.Append(data);
          got := got + data;
          if |data| < RECV_SIZE { return true; }
      }
    }
    NoRecv(results);
    drained := true;
  }

  lemma AppendTwice(s: ParserState, a: string, b: string)
    ensures s.Append(a).Append(b) == s.Append(a + b)
  {
    assert s.buffer + a + b == s.buffer + (a + b);
  }

  lemma NoRecv(results: seq<RecvResult>)
    ensures Recv(results[|results|..]) == Intake("", true)
  {
  }

  lemma OneRecv(results: seq<RecvResult>, i: nat)
    requires i < |results|
    ensures var rest := Recv(results[i + 1..]);
            Recv(results[i..]) ==
            match results[i]
            case WouldBlock => Intake("", true)
            case ReadError => Intake("", false)
            case Interrupted => rest
            case Got(data) =>
              if data == "" then Intake("", false)
              else if |data| < RECV_SIZE then Intake(data, true)
              else Intake(data + rest.bytes, rest.drained)
  {
    assert results[i..][0] == results[i] && results[i..][1..] == results[i + 1..];
  }

  /**
    The drain loop of `Worker::onReadable`: it stops at an error and after a request whose
    answer closes the connection.
   */
  method DrainRequests(parser: HttpParser) returns (requests: seq<HttpRequest>, failed: bool, closing: bool)
    requires Valid(parser.State())
    modifies parser
    ensures Valid(parser.State())
    ensures Turn(parser.State(), requests, failed, closing) == Serve(old(parser.State()))
    ensures var r := ReadStream(old(parser.buffer));
            old(Coherent(parser.State())) ==>
              && requests == UpToClose(r.requests)
              && failed == (r.rejected.Some? && AllStay(r.requests))
              && closing == (r.rejected.Some? || !AllStay(r.requests))
              && (AllStay(r.requests) ==> parser.buffer == r.rest)
  {
    hide Resume, Coherent, ReadStream, UpToClose, Serve, AllStay, Doomed, Agrees, Harmless, ParseOne;
    ghost var s := parser.State();
    requests, failed, closing := [], false, false;
    while !closing
      invariant Valid(parser.State()) && (failed ==> closing)
      invariant Serve(s) == Onward(parser.State(), requests, failed, closing)
      decreases !closing, |parser.buffer|
    {
      OneRequestOn(parser.State(), requests);
      var status := parser.Parse();
      if status.Incomplete? { break; }
      if status.Failed? {
        failed, closing := true, true;
        break;
      }
      requests := requests + [status.req];
      closing := !status.req.keepAlive;
    }
    if Coherent(s) { ServeReads(s); }
  }

  /** `Worker::onReadable` up to the flush, as one wakeup of a session that is not yet closed. */
  method OnReadable(parser: HttpParser, results: seq<RecvResult>)
    returns (requests: seq<HttpRequest>, failed: bool, closing: bool, closed: bool)
    requires Valid(parser.State())
    modifies parser
    ensures Valid(parser.State()) && closed == !Recv(results).drained
    ensures var s := old(parser.State()).Append(Recv(results).bytes);
            Turn(parser.State(), requests, failed, closing) == if closed then Turn(s, [], false, false) else Serve(s)
  {
    hide Serve, Coherent, Doomed, Recv, ReadStream, UpToClose;
    var drained := ReadSocket(parser, results);
    if !drained { return [], false, false, true; }
    requests, failed, closing := DrainRequests(parser);
    closed := false;
  }

  /** What the loop still comes to. */
  ghost function Onward(p: ParserState, requests: seq<HttpRequest>, failed: bool, closing: bool): Turn
    requires Valid(p)
  {
    if closing then Turn(p, requests, failed, true) else var t := Serve(p); t.(requests := requests + t.requests)
  }

  lemma OneRequestOn(p: ParserState, requests: seq<HttpRequest>)
    requires Valid(p)
    ensures var r := Resume(p);
            Onward(p, requests, false, false) ==
            match r.status
            case Incomplete => Turn(r.state, requests, false, false)
            case Failed(_) => Turn(r.state, requests, true, true)
            case Complete(req) => Onward(r.state, requests + [req], false, !req.keepAlive)
  {
    hide Resume;
    var r := Resume(p);
    if r.status.Complete? {
      var t := Serve(r.state);
      assert requests + ([r.status.req] + t.requests) == requests + [r.status.req] + t.requests;
    }
  }
}
