/**
  The upstream reader inside `sendAndReceive` (src/core/Gateway.cpp:390-457), as a function of
  the chunks `recv` delivers. Running out of chunks stands for a timeout, an error or a close.
 */
module ResponseReader {
  import opened Text
  import opened Decimal
  import opened Response

  const MAX_HEAD_BYTES: nat := 32768
  const RECV_BYTES: nat := 8192

  const BLANKS: set<char> := {' ', '\t', '\n', '\U{0b}', '\U{0c}', '\r'}

  // ----- Searches

  predicate BlankLineAt(s: string, i: int) {
    CrlfAt(s, i) && CrlfAt(s, i + 2)
  }

  /** `raw.find("\r\n\r\n")`, with -1 for npos. */
  function FindBlankLine(s: string, from: nat := 0): (r: int)
    ensures r == -1 ==> forall i :: from <= i ==> !BlankLineAt(s, i)
    ensures r != -1 ==> from <= r && BlankLineAt(s, r)
    ensures r != -1 ==> forall i :: from <= i < r ==> !BlankLineAt(s, i)
    decreases |s| - from
  {
    if from + 3 >= |s| then -1
    else if BlankLineAt(s, from) then from
    else FindBlankLine(s, from + 1)
  }

  /** Drops leading white space, as `isspace` sees it. */
  function StripLeft(s: string): string {
    var a := FirstNotOf(s, BLANKS);
    if a == -1 then "" else s[a..]
  }

  function DigitsValue(s: string, from: nat, acc: nat): nat
    decreases |s| - from
  {
    if from >= |s| || !IsDigit(s[from]) then acc else DigitsValue(s, from + 1, 10 * acc + DigitValue(s[from]))
  }

  /** `std::atoi` on values an int can hold. */
  function Atoi(s: string): int {
    var t := StripLeft(s);
    if t != "" && t[0] == '-' then -(DigitsValue(t, 1, 0) as int)
    else DigitsValue(t, if t != "" && t[0] == '+' then 1 else 0, 0)
  }

  predicate SaysClose(value: string) {
    Contains(ToLower(value), "close")
  }

  // ----- Header section

  datatype Head = Head(length: Option<nat>, reusable: bool, headers: seq<Header>)

  const NO_HEAD: Head := Head(None, false, [])

  // Hop-by-hop fields the reader drops.
  predicate Dropped(key: string) {
    key == "keep-alive" || key == "proxy-connection" || key == "upgrade"
  }

  function AddHeadLine(head: Head, line: string, maxBody: nat): Option<Head> {
    var colon := FindChar(line, ':');
    if colon == -1 then None
    else
      var key := ToLower(line[..colon]);
      var value := StripLeft(line[colon + 1..]);
      if key == "content-length" then
        var n := ParseSize(value);
        if head.length.Some? || n.None? || n.value > maxBody then None
        else Some(head.(length := n))
      else if key == "transfer-encoding" then None
      else if key == "connection" then Some(head.(reusable := !SaysClose(value)))
      else if Dropped(key) then Some(head)
      else Some(head.(headers := head.headers + [Header(key, value)]))
  }

  function ReadHeadLines(raw: string, pos: nat, end: nat, head: Head, maxBody: nat): Option<Head>
    requires end <= |raw|
    decreases end - pos
  {
    if pos >= end then Some(head)
    else
      var lineEnd := FindCrlf(raw, pos);
      if lineEnd == -1 || lineEnd > end then None
      else match AddHeadLine(head, raw[pos..lineEnd], maxBody)
        case None => None
        case Some(h) => ReadHeadLines(raw, lineEnd + 2, end, h, maxBody)
  }

  /** The header section that ends with the blank line at `end`; a length field is required. */
  function ReadHead(raw: string, end: nat, maxBody: nat): Option<Head>
    requires end <= |raw|
  {
    match ReadHeadLines(raw, FindCrlf(raw, 0) + 2, end, NO_HEAD, maxBody)
    case None => None
    case Some(h) => if h.length.None? then None else Some(h)
  }

  // ----- Status line and body, once enough bytes are there

  datatype Received = Received(response: ResponseValue, reusable: bool)

  /** With the line end in front of the second space the unsigned length wraps, and the rest is taken. */
  function ReasonPhrase(raw: string, secondSpace: nat, lineEnd: int): string
    requires secondSpace < |raw|
    requires lineEnd <= |raw|
  {
    if secondSpace + 1 <= lineEnd then raw[secondSpace + 1..lineEnd] else raw[secondSpace + 1..]
  }

  function Finish(raw: string, end: nat, head: Head): Option<Received>
    requires head.length.Some? && end + 4 + head.length.value <= |raw|
  {
    var sp1 := FindChar(raw, ' ');
    var sp2 := FindChar(raw, ' ', sp1 + 1);
    if sp1 == -1 || sp2 == -1 then None
    else
      var code := Atoi(raw[sp1 + 1..sp2]);
      var text := ReasonPhrase(raw, sp2, FindCrlf(raw, 0));
      var body := raw[end + 4..end + 4 + head.length.value];
      Some(Received(ResponseValue(code, text, head.headers, body), head.reusable))
  }

  // ----- The receive loop

  datatype Progress = Searching | Reading(end: nat, head: Head)

  predicate InHead(raw: string, p: Progress) {
    p.Reading? ==> p.end + 4 <= |raw| && p.head.length.Some?
  }

  /** What one chunk makes of the search for the header section; None is failure. */
  function AfterChunk(raw: string, p: Progress, maxBody: nat): (r: Option<Progress>)
    requires InHead(raw, p)
    ensures r.Some? ==> InHead(raw, r.value)
  {
    if p.Reading? then Some(p)
    else if |raw| > MAX_HEAD_BYTES then None
    else
      var end := FindBlankLine(raw);
      if end == -1 then Some(Searching)
      else match ReadHead(raw, end, maxBody)
        case None => None
        case Some(head) => Some(Reading(end, head))
  }

  predicate Enough(raw: string, p: Progress)
    requires InHead(raw, p)
  {
    p.Reading? && |raw| - (p.end + 4) >= p.head.length.value
  }

  function ReadChunks(raw: string, p: Progress, chunks: seq<string>, maxBody: nat): Option<Received>
    requires InHead(raw, p)
    decreases |chunks|
  {
    if chunks == [] then None
    else
      var raw' := raw + chunks[0];
      match AfterChunk(raw', p, maxBody)
      case None => None
      case Some(p') =>
        if Enough(raw', p') then Finish(raw', p'.end, p'.head)
        else ReadChunks(raw', p', chunks[1..], maxBody)
  }

  /** The loop itself. */
  method Receive(chunks: seq<string>, maxBody: nat) returns (result: Option<Received>)
    ensures result == ReadChunks("", Searching, chunks, maxBody)
  {
    hide FindBlankLine, ReadHead, Finish;
    var raw := "";
    var end, head := -1, NO_HEAD;
    ghost var p := Searching;
    for i := 0 to |chunks|
      invariant InHead(raw, p) && end >= -1
      invariant p == if end < 0 then Searching else Reading(end, head)
      invariant ReadChunks("", Searching, chunks, maxBody) == ReadChunks(raw, p, chunks[i..], maxBody)
    {
      assert chunks[i..][1..] == chunks[i + 1..];
      raw := raw + chunks[i];
      if end == -1 {
        if |raw| > MAX_HEAD_BYTES { return None; }
        end := FindBlankLine(raw);
        if end != -1 {
          var h := ReadHead(raw, end, maxBody);
          if h.None? { return None; }
          head := h.value;
          p := Reading(end, head);
        }
      }
      if end != -1 {
        var bodyBytes := |raw| - (end + 4);
        if bodyBytes >= head.length.value { return Finish(raw, end, head); }
      }
    }
    return None;
  }
}
