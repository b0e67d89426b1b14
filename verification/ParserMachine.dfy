/**
  The resumable parser as a function on its saved fields: `Resume` is one call of
  `HttpParser::parse`, including what the fields hold after an exception.
 */
module ParserMachine {
  import opened Text
  import opened Decimal
  import opened RequestSyntax

  datatype Phase = AtRequestLine | AtHeaders | AtBody

  datatype ParserState = ParserState(
    buffer: string, phase: Phase,
    verb: string, path: string, query: string, version: string,
    headers: Headers, contentLength: nat, chunked: bool, headerCount: nat, consumed: nat)
  {
    function Line(): RequestLine {
      RequestLine(verb, path, query, version)
    }

    function Append(data: string): ParserState {
      this.(buffer := buffer + data)
    }
  }

  function FreshParser(buffer: string): ParserState {
    ParserState(buffer, AtRequestLine, "", "", "", "", map[], 0, false, 0, 0)
  }

  /** What every call keeps: the saved position lies in the buffer, past a request line once one was read. */
  predicate Valid(s: ParserState) {
    && s.consumed <= |s.buffer|
    && (s.phase == AtRequestLine <==> s.consumed == 0)
  }

  datatype Status = Incomplete | Failed(error: ParseError) | Complete(req: HttpRequest)

  datatype Step = Step(state: ParserState, status: Status)

  /** Only a completed request takes bytes off the buffer, and it takes at least one. */
  predicate Takes(s: ParserState, r: Step) {
    if r.status.Complete? then |r.state.buffer| < |s.buffer|
    else r.state.buffer == s.buffer
  }

  // ----- Headers, from a saved position

  datatype Scan =
    | ScanMore(pos: nat, headers: Headers, count: nat)
    | ScanFail(error: ParseError, pos: nat, headers: Headers, count: nat)
    | ScanEnd(pos: nat, headers: Headers, count: nat)

  /** `pos` in the result is the position saved in `consumed_`. */
  function ScanHeaders(buffer: string, pos: nat, headers: Headers, count: nat): (r: Scan)
    requires pos <= |buffer|
    ensures pos <= r.pos <= |buffer|
    decreases |buffer| - pos
  {
    var eol := FindCrlf(buffer, pos);
    if eol == -1 then
      if |buffer| - pos > MAX_HEADER_BYTES then ScanFail(HeadersTooLarge, pos, headers, count)
      else ScanMore(pos, headers, count)
    else if eol == pos then ScanEnd(eol + 2, headers, count)
    else
      match AddLine(headers, count, buffer[pos..eol])
      case Refused(error, c) => ScanFail(error, pos, headers, c)
      case Added(h, c) => ScanHeaders(buffer, eol + 2, h, c)
  }

  // ----- The three phases of one call

  function ResumeRequestLine(s: ParserState): (r: Step)
    requires Valid(s) && s.phase == AtRequestLine
    ensures Valid(r.state) && Takes(s, r)
  {
    var eol := FindCrlf(s.buffer, 0);
    if eol == -1 then
      Step(s, if |s.buffer| > MAX_REQUEST_LINE then Failed(RequestLineTooLong) else Incomplete)
    else
      var line := s.buffer[..eol];
      match ParseRequestLine(line)
      case Err(error) =>
        var s' := match SplitRequestLine(line)
          case None => s
          case Some(raw) => s.(verb := raw.verb, version := raw.version);
        Step(s', Failed(error))
      case Ok(l) =>
        ResumeHeaders(s.(phase := AtHeaders, consumed := eol + 2,
                         verb := l.verb, path := l.path, query := l.query, version := l.version))
  }

  function ResumeHeaders(s: ParserState): (r: Step)
    requires Valid(s) && s.phase == AtHeaders
    ensures Valid(r.state) && Takes(s, r)
  {
    var scan := ScanHeaders(s.buffer, s.consumed, s.headers, s.headerCount);
    var s' := s.(headers := scan.headers, headerCount := scan.count, consumed := scan.pos);
    match scan
    case ScanMore(_, _, _) => Step(s', Incomplete)
    case ScanFail(error, _, _, _) => Step(s', Failed(error))
    case ScanEnd(_, _, _) => ResumeFraming(s')
  }

  function DeclaredLength(headers: Headers, otherwise: nat): nat {
    if "content-length" in headers && ParseSize(headers["content-length"]).Some?
    then ParseSize(headers["content-length"]).value else otherwise
  }

  function ResumeFraming(s: ParserState): (r: Step)
    requires Valid(s) && s.phase == AtHeaders
    ensures Valid(r.state) && Takes(s, r)
  {
    var s1 := s.(contentLength := DeclaredLength(s.headers, s.contentLength));
    match BodyLength(s.headers)
    case Err(error) =>
      // The transfer coding is looked at only after the length was accepted.
      if error == InvalidContentLength || error == BodyTooLarge then Step(s1, Failed(error))
      else Step(s1.(chunked := IsChunked(s.headers)), Failed(error))
    case Ok(_) => ResumeBody(s1.(chunked := IsChunked(s.headers), phase := AtBody))
  }

  function ResumeBody(s: ParserState): (r: Step)
    requires Valid(s) && s.phase == AtBody
    ensures Valid(r.state) && Takes(s, r)
  {
    if |s.buffer| - s.consumed < s.contentLength then Step(s, Incomplete)
    else
      var end := s.consumed + s.contentLength;
      var req := MakeRequest(s.Line(), s.headers, s.buffer[s.consumed..end]);
      Step(FreshParser(s.buffer[end..]), Complete(req))
  }

  /** One call of `parse`. */
  function Resume(s: ParserState): (r: Step)
    requires Valid(s)
    ensures Valid(r.state) && Takes(s, r)
  {
    match s.phase
    case AtRequestLine => ResumeRequestLine(s)
    case AtHeaders => ResumeHeaders(s)
    case AtBody => ResumeBody(s)
  }
}
