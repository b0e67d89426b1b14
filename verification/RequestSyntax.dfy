/**
  The request grammar of src/http/HttpParser.cpp, and `ParseOne`, a parser of one buffer
  that keeps no state: it is the reference the resumable parser is measured against.
 */
module RequestSyntax {
  import opened Text
  import opened Decimal

  const MAX_REQUEST_LINE: nat := 8192
  const MAX_HEADER_BYTES: nat := 32768
  const MAX_HEADER_COUNT: nat := 100
  const MAX_BODY_BYTES: nat := 10 * 1024 * 1024

  type Headers = map<string, string>

  datatype HttpRequest = HttpRequest(
    verb: string, path: string, query: string, version: string,
    headers: Headers, body: string, keepAlive: bool)

  // One constructor for each exception the parser throws.
  datatype ParseError =
    | RequestLineTooLong | MalformedRequestLine | UnsupportedVersion | InvalidMethod | InvalidTarget
    | HeadersTooLarge | MalformedHeader | InvalidHeader | TooManyHeaders | DuplicateFraming
    | InvalidContentLength | BodyTooLarge | AmbiguousFraming | ChunkedUnsupported
  {
    /** The two errors raised only because a line end has not arrived yet. */
    predicate LengthLimit() {
      RequestLineTooLong? || HeadersTooLarge?
    }
  }

  /**
    Strips blanks. When every character from the first kept one on is a blank or a CR, the
    unsigned length wraps around: the result is empty if the string starts with that CR,
    and otherwise the whole rest.
   */
  function Trim(s: string): string {
    var a := FirstNotOf(s, {' ', '\t'});
    if a == -1 then ""
    else
      var b := LastNotOf(s, {' ', '\t', '\r'});
      if b == -1 then (if a == 0 then "" else s[a..]) else s[a..b + 1]
  }

  // ----- Request line

  datatype RawLine = RawLine(verb: string, target: string, version: string)

  datatype RequestLine = RequestLine(verb: string, path: string, query: string, version: string)

  /** Splits at the first and at the last space, which must differ. */
  function SplitRequestLine(line: string): Option<RawLine> {
    var sp1 := FindChar(line, ' ');
    var sp2 := RFindChar(line, ' ');
    if sp1 == -1 || sp2 == -1 || sp1 == sp2 then None
    else Some(RawLine(line[..sp1], line[sp1 + 1..sp2], line[sp2 + 1..]))
  }

  predicate MethodChar(c: char) {
    'A' <= c <= 'Z' || '0' <= c <= '9' || c == '-' || c == '_'
  }

  predicate ValidMethod(s: string) {
    s != "" && forall i :: 0 <= i < |s| ==> MethodChar(s[i])
  }

  predicate ValidVersion(s: string) {
    s == "HTTP/1.1" || s == "HTTP/1.0"
  }

  predicate ValidTarget(s: string) {
    s != "" && s[0] == '/' && !ContainsAny(s, {'\r', '\n'})
  }

  function SplitTarget(target: string): (string, string) {
    var q := FindChar(target, '?');
    var path := if q == -1 then target else target[..q];
    (if path == "" then "/" else path, if q == -1 then "" else target[q + 1..])
  }

  function ParseRequestLine(line: string): Result<RequestLine, ParseError> {
    match SplitRequestLine(line)
    case None => Err(MalformedRequestLine)
    case Some(raw) =>
      if !ValidVersion(raw.version) then Err(UnsupportedVersion)
      else if !ValidMethod(raw.verb) then Err(InvalidMethod)
      else if !ValidTarget(raw.target) then Err(InvalidTarget)
      else
        var (path, query) := SplitTarget(raw.target);
        Ok(RequestLine(raw.verb, path, query, raw.version))
  }

  // ----- Header fields

  datatype Field = Field(key: string, value: string)

  function ParseField(line: string): Result<Field, ParseError> {
    var colon := FindChar(line, ':');
    if colon == -1 then Err(MalformedHeader)
    else
      var key := ToLower(Trim(line[..colon]));
      var value := Trim(line[colon + 1..]);
      if key == "" || ContainsAny(key, {' ', '\t', '\r', '\n'}) || ContainsAny(value, {'\r', '\n'})
      then Err(InvalidHeader)
      else Ok(Field(key, value))
  }

  predicate FramingKey(key: string) {
    key == "content-length" || key == "transfer-encoding" || key == "host"
  }

  // `count` is the header counter after the line, which grows before the last two checks.
  datatype LineResult = Added(headers: Headers, count: nat) | Refused(error: ParseError, count: nat)

  function AddLine(headers: Headers, count: nat, line: string): LineResult {
    match ParseField(line)
    case Err(e) => Refused(e, count)
    case Ok(f) =>
      if count + 1 > MAX_HEADER_COUNT then Refused(TooManyHeaders, count + 1)
      else if f.key in headers && FramingKey(f.key) then Refused(DuplicateFraming, count + 1)
      else Added(headers[f.key := f.value], count + 1)
  }

  // ----- Body length

  predicate IsChunked(headers: Headers) {
    "transfer-encoding" in headers && Contains(ToLower(headers["transfer-encoding"]), "chunked")
  }

  function BodyLength(headers: Headers): Result<nat, ParseError> {
    if "content-length" in headers then
      match ParseSize(headers["content-length"])
      case None => Err(InvalidContentLength)
      case Some(n) =>
        if n > MAX_BODY_BYTES then Err(BodyTooLarge)
        else if "transfer-encoding" in headers then Err(AmbiguousFraming)
        else Ok(n)
    else if IsChunked(headers) then Err(ChunkedUnsupported)
    else Ok(0)
  }

  predicate KeepAlive(version: string, headers: Headers) {
    if "connection" in headers then ToLower(headers["connection"]) != "close"
    else version == "HTTP/1.1"
  }

  function MakeRequest(line: RequestLine, headers: Headers, body: string): HttpRequest {
    HttpRequest(line.verb, line.path, line.query, line.version, headers, body, KeepAlive(line.version, headers))
  }

  // ----- One message, from its first byte

  datatype FieldsResult =
    | FieldsMore
    | FieldsBad(error: ParseError)
    | FieldsDone(headers: Headers, rest: string)

  function ReadFields(b: string, headers: Headers, count: nat): (r: FieldsResult)
    ensures r.FieldsDone? ==> |r.rest| < |b|
    decreases |b|
  {
    var e := FindCrlf(b, 0);
    if e == -1 then if |b| > MAX_HEADER_BYTES then FieldsBad(HeadersTooLarge) else FieldsMore
    else if e == 0 then FieldsDone(headers, b[2..])
    else
      match AddLine(headers, count, b[..e])
      case Refused(error, _) => FieldsBad(error)
      case Added(h, c) => ReadFields(b[e + 2..], h, c)
  }

  datatype Outcome = NeedMore | Rejected(error: ParseError) | Parsed(req: HttpRequest, rest: string)

  function ReadBody(line: RequestLine, headers: Headers, rest: string): Outcome {
    match BodyLength(headers)
    case Err(error) => Rejected(error)
    case Ok(n) =>
      if |rest| < n then NeedMore else Parsed(MakeRequest(line, headers, rest[..n]), rest[n..])
  }

  function ReadAfterLine(line: RequestLine, b: string, headers: Headers, count: nat): Outcome {
    match ReadFields(b, headers, count)
    case FieldsMore => NeedMore
    case FieldsBad(error) => Rejected(error)
    case FieldsDone(h, rest) => ReadBody(line, h, rest)
  }

  function ParseOne(b: string): (r: Outcome)
    ensures r.Parsed? ==> |r.rest| < |b|
  {
    var e := FindCrlf(b, 0);
    if e == -1 then if |b| > MAX_REQUEST_LINE then Rejected(RequestLineTooLong) else NeedMore
    else
      match ParseRequestLine(b[..e])
      case Err(error) => Rejected(error)
      case Ok(line) => ReadAfterLine(line, b[e + 2..], map[], 0)
  }
}
