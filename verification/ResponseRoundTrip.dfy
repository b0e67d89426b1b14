/** A response the gateway received and passes on is read back by the same reader, however recv cuts it. */
module ResponseRoundTrip {
  import opened Text
  import opened Decimal
  import opened BackendRequest
  import RequestRoundTrip
  import opened Response
  import opened ResponseReader

  // ----- Responses whose wire form can be read back

  predicate Reserved(key: string) {
    || key == "content-length" || key == "transfer-encoding" || key == "connection"
    || key == "keep-alive" || key == "proxy-connection" || key == "upgrade"
  }

  predicate PlainHeader(h: Header) {
    && NoCrlf(h.name) && NoCrlf(h.value)
    && (forall i :: 0 <= i < |h.name| ==> h.name[i] != ':')
    && (h.value != "" ==> h.value[0] !in BLANKS)
    && !Reserved(ToLower(h.name))
  }

  predicate PlainHeaders(headers: seq<Header>) {
    forall i :: 0 <= i < |headers| ==> PlainHeader(headers[i])
  }

  predicate PlainResponse(r: ResponseValue) {
    NoCrlf(r.statusText) && PlainHeaders(r.headers)
  }

  function LowerNames(headers: seq<Header>): seq<Header> {
    if headers == [] then []
    else [Header(ToLower(headers[0].name), headers[0].value)] + LowerNames(headers[1..])
  }

  // ----- One printed header line

  lemma StripPrinted(value: string)
    requires value != "" ==> value[0] !in BLANKS
    ensures StripLeft(" " + value) == value
  {
    var s := " " + value;
    if value != "" { assert s[1] == value[0]; assert FirstNotOf(s, BLANKS) == 1; }
  }

  lemma FieldLineParts(name: string, value: string)
    requires forall i :: 0 <= i < |name| ==> name[i] != ':'
    requires value != "" ==> value[0] !in BLANKS
    ensures var line := FieldLine(name, value); var colon := FindChar(line, ':');
            colon == |name| && line[..colon] == name && StripLeft(line[colon + 1..]) == value
  {
    hide StripLeft, FindChar;
    var line := FieldLine(name, value);
    assert forall i :: 0 <= i < |name| ==> line[i] == name[i];
    assert line[|name|] == ':';
    assert line[|name| + 1..] == " " + value;
    StripPrinted(value);
  }

  lemma FieldLineIsPlain(name: string, value: string)
    requires NoCrlf(name) && NoCrlf(value)
    ensures NoCrlf(FieldLine(name, value)) && FieldLine(name, value) != ""
  {
    var line := FieldLine(name, value);
    forall i | 0 <= i < |line|
      ensures !CrlfAt(line, i)
    {
      if i < |name| {
        assert !CrlfAt(name, i);
      } else if i >= |name| + 2 {
        assert !CrlfAt(value, i - |name| - 2);
        assert line[i] == value[i - |name| - 2];
        assert i + 1 < |line| ==> line[i + 1] == value[i + 1 - |name| - 2];
      }
    }
  }

  lemma AddPlainHeader(head: Head, h: Header, maxBody: nat)
    requires PlainHeader(h)
    ensures AddHeadLine(head, FieldLine(h.name, h.value), maxBody) ==
            Some(head.(headers := head.headers + [Header(ToLower(h.name), h.value)]))
  {
    hide FieldLine, StripLeft, FindChar, ToLower, ParseSize, SaysClose, NoCrlf;
    FieldLineParts(h.name, h.value);
  }

  lemma PlainHeaderLine(h: Header)
    requires PlainHeader(h)
    ensures NoCrlf(FieldLine(h.name, h.value)) && FieldLine(h.name, h.value) != ""
  {
    FieldLineIsPlain(h.name, h.value);
  }

  lemma AddLengthHeader(head: Head, n: nat, maxBody: nat)
    requires head.length.None? && n <= maxBody && n <= MAX_SIZE
    ensures AddHeadLine(head, FieldLine("Content-Length", Print(n)), maxBody) == Some(head.(length := Some(n)))
  {
    hide FieldLine, StripLeft, FindChar, ToLower, Print, Value;
    var s := Print(n);
    assert IsDigit(s[0]);
    assert s[0] !in BLANKS;
    FieldLineParts("Content-Length", s);
    RequestRoundTrip.ContentLengthName();
    ValueOfPrint(n);
  }

  lemma TokenSaysClose(keepAlive: bool)
    ensures SaysClose(ConnectionToken(keepAlive)) == !keepAlive
  {
    var t := ConnectionToken(keepAlive);
    ToLowerFixes(t);
    if keepAlive {
      forall i | 0 <= i <= |t|
        ensures !MatchAt(t, "close", i)
      {
        if 0 <= i <= |t| - 5 { assert t[i..i + 5][0] == t[i] && t[i] != 'c'; }
      }
    } else {
      assert t[0..5] == "close";
      assert MatchAt(t, "close", 0);
    }
  }

  lemma AddConnectionHeader(head: Head, keepAlive: bool, maxBody: nat)
    ensures AddHeadLine(head, FieldLine("Connection", ConnectionToken(keepAlive)), maxBody) ==
            Some(head.(reusable := keepAlive))
  {
    hide FieldLine, StripLeft, FindChar, ToLower, SaysClose, ParseSize;
    FieldLineParts("Connection", ConnectionToken(keepAlive));
    RequestRoundTrip.OwnNames();
    TokenSaysClose(keepAlive);
  }

  // ----- Lists of lines

  function FoldHead(head: Head, lines: seq<string>, maxBody: nat): Option<Head>
    decreases |lines|
  {
    if lines == [] then Some(head)
    else match AddHeadLine(head, lines[0], maxBody)
      case None => None
      case Some(h) => FoldHead(h, lines[1..], maxBody)
  }

  lemma {:induction false} FoldAppend(head: Head, a: seq<string>, b: seq<string>, maxBody: nat)
    ensures FoldHead(head, a + b, maxBody) ==
            match FoldHead(head, a, maxBody)
            case None => None
            case Some(h) => FoldHead(h, b, maxBody)
    decreases |a|
  {
    hide AddHeadLine;
    if a == [] {
      assert a + b == b;
    } else {
      assert (a + b)[1..] == a[1..] + b;
      match AddHeadLine(head, a[0], maxBody)
      case None =>
      case Some(h) => FoldAppend(h, a[1..], b, maxBody);
    }
  }

  lemma {:induction false} ReadJoined(before: string, lines: seq<string>, ext: string, head: Head, maxBody: nat)
    requires PlainLines(lines) && |before| >= 2
    ensures var end := |before| + |JoinLines(lines)| - 2;
            ReadHeadLines(before + JoinLines(lines) + CRLF + ext, |before|, end, head, maxBody) ==
            FoldHead(head, lines, maxBody)
    decreases |lines|
  {
    hide FindCrlf, AddHeadLine, NoCrlf;
    var raw := before + JoinLines(lines) + CRLF + ext;
    var end := |before| + |JoinLines(lines)| - 2;
    if lines == [] {
    } else {
      var line := lines[0];
      var after := JoinLines(lines[1..]) + CRLF + ext;
      assert raw[|before|..] == line + CRLF + after;
      FindCrlfAfterLine(line, after);
      FindCrlfSuffix(raw, |before|);
      var lineEnd := |before| + |line|;
      assert FindCrlf(raw, |before|) == lineEnd;
      assert raw[|before|..lineEnd] == line;
      match AddHeadLine(head, line, maxBody)
      case None =>
      case Some(h) =>
        var before' := before + line + CRLF;
        assert raw == before' + JoinLines(lines[1..]) + CRLF + ext;
        ReadJoined(before', lines[1..], ext, h, maxBody);
    }
  }

  lemma {:induction false} PlainHeaderLines(headers: seq<Header>)
    requires PlainHeaders(headers)
    ensures PlainLines(HeaderLines(headers))
  {
    hide FieldLine, NoCrlf, PlainHeader;
    if headers == [] {
    } else {
      PlainHeaderLine(headers[0]);
      PlainHeaderLines(headers[1..]);
    }
  }

  lemma Unfold(headers: seq<Header>)
    requires headers != []
    ensures HeaderLines(headers) == [FieldLine(headers[0].name, headers[0].value)] + HeaderLines(headers[1..])
    ensures LowerNames(headers) == [Header(ToLower(headers[0].name), headers[0].value)] + LowerNames(headers[1..])
  {
  }

  lemma {:induction false} FoldPlain(head: Head, headers: seq<Header>, maxBody: nat)
    requires PlainHeaders(headers)
    ensures FoldHead(head, HeaderLines(headers), maxBody) ==
            Some(head.(headers := head.headers + LowerNames(headers)))
    decreases |headers|
  {
    if headers == [] {
      assert head.headers + [] == head.headers;
    } else {
      hide AddHeadLine, FieldLine, ToLower, PlainHeader, HeaderLines, LowerNames;
      var h, rest := headers[0], headers[1..];
      var line, low := FieldLine(h.name, h.value), Header(ToLower(h.name), h.value);
      Unfold(headers);
      AddPlainHeader(head, h, maxBody);
      var head' := head.(headers := head.headers + [low]);
      FoldPlain(head', rest, maxBody);
      var lines := [line] + HeaderLines(rest);
      assert lines[0] == line && lines[1..] == HeaderLines(rest);
      assert FoldHead(head, lines, maxBody) == FoldHead(head', HeaderLines(rest), maxBody);
      assert head.headers + ([low] + LowerNames(rest)) == head.headers + [low] + LowerNames(rest);
    }
  }

  lemma PlainHasNoOwn(headers: seq<Header>)
    requires PlainHeaders(headers)
    ensures !HasName(headers, "Content-Length") && !HasName(headers, "Connection")
  {
    hide NoCrlf, ToLower;
    RequestRoundTrip.ContentLengthName();
    RequestRoundTrip.OwnNames();
    forall i | 0 <= i < |headers|
      ensures headers[i].name != "Content-Length" && headers[i].name != "Connection"
    {
      assert PlainHeader(headers[i]);
    }
  }

  lemma WireLines(r: ResponseValue, keepAlive: bool)
    requires PlainHeaders(r.headers)
    ensures HeaderLines(WireHeaders(r, keepAlive)) == HeaderLines(r.headers) +
            [FieldLine("Content-Length", Print(|r.body|)), FieldLine("Connection", ConnectionToken(keepAlive))]
  {
    hide Print, FieldLine, PlainHeaders, HasName, HeaderLines;
    PlainHasNoOwn(r.headers);
    var a, b := Header("Content-Length", Print(|r.body|)), Header("Connection", ConnectionToken(keepAlive));
    assert WireHeaders(r, keepAlive) == r.headers + [a] + [b];
    HeaderLinesSnoc(r.headers, a);
    HeaderLinesSnoc(r.headers + [a], b);
  }

  /** The header lines of a plain response are all accepted, with one length and the connection token last. */
  lemma FoldWire(r: ResponseValue, keepAlive: bool, maxBody: nat)
    requires PlainHeaders(r.headers) && |r.body| <= maxBody && |r.body| <= MAX_SIZE
    ensures PlainLines(HeaderLines(WireHeaders(r, keepAlive)))
    ensures FoldHead(NO_HEAD, HeaderLines(WireHeaders(r, keepAlive)), maxBody) ==
            Some(Head(Some(|r.body|), keepAlive, LowerNames(r.headers)))
  {
    hide AddHeadLine, FieldLine, PlainHeaders, HeaderLines, NoCrlf, Print, ConnectionToken, WireHeaders;
    WireLines(r, keepAlive);
    PlainHeaderLines(r.headers);
    FoldPlain(NO_HEAD, r.headers, maxBody);
    var head := NO_HEAD.(headers := NO_HEAD.headers + LowerNames(r.headers));
    assert head.headers == LowerNames(r.headers);
    AddLengthHeader(head, |r.body|, maxBody);
    AddConnectionHeader(head.(length := Some(|r.body|)), keepAlive, maxBody);
    OwnLinesPlain(|r.body|, keepAlive);
    var own := [FieldLine("Content-Length", Print(|r.body|)), FieldLine("Connection", ConnectionToken(keepAlive))];
    assert own[1..][1..] == [];
    var head' := head.(length := Some(|r.body|));
    assert FoldHead(head'.(reusable := keepAlive), own[1..][1..], maxBody) == Some(head'.(reusable := keepAlive));
    assert FoldHead(head', own[1..], maxBody) == Some(head'.(reusable := keepAlive));
    FoldAppend(NO_HEAD, HeaderLines(r.headers), own, maxBody);
  }

  lemma OwnLinesPlain(n: nat, keepAlive: bool)
    ensures NoCrlf(FieldLine("Content-Length", Print(n))) && FieldLine("Content-Length", Print(n)) != ""
    ensures NoCrlf(FieldLine("Connection", ConnectionToken(keepAlive)))
    ensures FieldLine("Connection", ConnectionToken(keepAlive)) != ""
  {
    hide FieldLine, Print;
    var s := Print(n);
    assert forall i :: 0 <= i < |s| ==> IsDigit(s[i]);
    FieldLineIsPlain("Content-Length", s);
    FieldLineIsPlain("Connection", ConnectionToken(keepAlive));
  }

  // ----- Where the blank line is

  lemma LineEnds(line: string, after: string)
    requires NoCrlf(line)
    ensures var s := line + CRLF + after;
            forall i :: CrlfAt(s, i) <==> i == |line| || (i >= |line| + 2 && CrlfAt(after, i - |line| - 2))
  {
    var s := line + CRLF + after;
    forall i | 0 <= i < |line|
      ensures !CrlfAt(s, i)
    {
      assert !CrlfAt(line, i);
    }
    assert forall i :: |line| + 2 <= i < |s| ==> s[i] == after[i - |line| - 2];
  }

  lemma BlankAfterLine(line: string, after: string)
    requires NoCrlf(line)
    ensures FindBlankLine(line + CRLF + after) ==
            if CrlfAt(after, 0) then |line|
            else if FindBlankLine(after) == -1 then -1 else |line| + 2 + FindBlankLine(after)
  {
    hide FindBlankLine, NoCrlf, CrlfAt;
    LineEnds(line, after);
    var s := line + CRLF + after;
    var k := |line| + 2;
    assert forall i :: BlankLineAt(s, i) <==> (i == |line| && CrlfAt(after, 0)) || (i >= k && BlankLineAt(after, i - k));
    var r := FindBlankLine(after);
    if CrlfAt(after, 0) {
      assert BlankLineAt(s, |line|);
    } else if r != -1 {
      assert BlankLineAt(s, k + r);
    }
  }

  lemma {:induction false} BlankAfterLines(line: string, lines: seq<string>, ext: string)
    requires NoCrlf(line) && PlainLines(lines)
    ensures FindBlankLine(line + CRLF + JoinLines(lines) + CRLF + ext) == |line| + |JoinLines(lines)|
    decreases |lines|
  {
    hide FindBlankLine, NoCrlf;
    var after := JoinLines(lines) + CRLF + ext;
    assert line + CRLF + JoinLines(lines) + CRLF + ext == line + CRLF + after;
    BlankAfterLine(line, after);
    if lines == [] {
    } else {
      var next := lines[0];
      var tail := JoinLines(lines[1..]) + CRLF + ext;
      assert after == next + CRLF + tail;
      FindCrlfAfterLine(next, tail);
      assert !CrlfAt(after, 0);
      assert after == next + CRLF + JoinLines(lines[1..]) + CRLF + ext;
      BlankAfterLines(next, lines[1..], ext);
    }
  }

  lemma BlankLineAppend(s: string, ext: string)
    requires FindBlankLine(s) != -1
    ensures FindBlankLine(s + ext) == FindBlankLine(s)
  {
    hide FindBlankLine;
    var r := FindBlankLine(s);
    assert BlankLineAt(s + ext, r);
    assert forall i :: 0 <= i < r ==> BlankLineAt(s + ext, i) == BlankLineAt(s, i);
  }

  // ----- The serialised response

  function HeadText(r: ResponseValue, keepAlive: bool): string {
    StatusLine(r) + CRLF + JoinLines(HeaderLines(WireHeaders(r, keepAlive))) + CRLF
  }

  lemma StatusLineIsPlain(r: ResponseValue)
    requires PlainResponse(r)
    ensures NoCrlf(StatusLine(r))
  {
    hide PrintInt, PlainHeaders;
    var line, code := StatusLine(r), PrintInt(r.statusCode);
    PrintedInt(r.statusCode);
    var k := 9 + |code| + 1;
    assert line[k..] == r.statusText;
    forall i | 0 <= i < |line|
      ensures !CrlfAt(line, i)
    {
      if i < 9 {
        assert line[i] == "HTTP/1.1 "[i];
      } else if i < k - 1 {
        assert line[i] == code[i - 9];
      } else if i >= k {
        assert !CrlfAt(r.statusText, i - k);
        assert line[i] == r.statusText[i - k];
        assert i + 1 < |line| ==> line[i + 1] == r.statusText[i + 1 - k];
      }
    }
  }

  /** The header section is found and read as soon as it is complete, whatever part of the body is there. */
  lemma HeadIsRead(r: ResponseValue, keepAlive: bool, ext: string, maxBody: nat)
    requires PlainResponse(r) && |r.body| <= maxBody && |r.body| <= MAX_SIZE
    ensures var end := |HeadText(r, keepAlive)| - 4;
            && FindBlankLine(HeadText(r, keepAlive) + ext) == end
            && ReadHead(HeadText(r, keepAlive) + ext, end, maxBody) ==
               Some(Head(Some(|r.body|), keepAlive, LowerNames(r.headers)))
  {
    hide FindBlankLine, FindCrlf, StatusLine, HeaderLines, WireHeaders, NoCrlf, LowerNames, ReadHeadLines, FoldHead, JoinLines;
    var line, lines := StatusLine(r), HeaderLines(WireHeaders(r, keepAlive));
    var raw := HeadText(r, keepAlive) + ext;
    var end := |HeadText(r, keepAlive)| - 4;
    StatusLineIsPlain(r);
    FoldWire(r, keepAlive, maxBody);
    assert raw == line + CRLF + JoinLines(lines) + CRLF + ext;
    BlankAfterLines(line, lines, ext);
    var before := line + CRLF;
    assert raw == before + JoinLines(lines) + CRLF + ext;
    ReadJoined(before, lines, ext, NO_HEAD, maxBody);
    assert raw == line + CRLF + (JoinLines(lines) + CRLF + ext);
    FindCrlfAfterLine(line, JoinLines(lines) + CRLF + ext);
  }

  lemma PrintedInt(n: int)
    ensures forall i :: 0 <= i < |PrintInt(n)| ==> IsDigit(PrintInt(n)[i]) || PrintInt(n)[i] == '-'
    ensures PrintInt(n) != ""
  {
  }

  /** Every status code survives printing, negative ones included. */
  lemma AtoiOfPrint(n: int)
    ensures Atoi(PrintInt(n)) == n
  {
    hide Print;
    var s, digits := PrintInt(n), Print(if n < 0 then -n else n);
    assert IsDigit(digits[0]);
    assert s[0] !in BLANKS;
    assert FirstNotOf(s, BLANKS) == 0;
    assert s[0..] == s;
    if n < 0 {
      PrintedDigits(-n, "-");
    } else {
      PrintedDigits(n, "");
      assert "" + digits == digits;
      assert digits[0] != '-' && digits[0] != '+';
    }
  }

  lemma PrintedDigits(n: nat, sign: string)
    ensures DigitsValue(sign + Print(n), |sign|, 0) == n
  {
    hide Print;
    var s := Print(n);
    DigitsFrom(s, 0);
    ValueOfPrint(n);
    assert s[..0] == "";
    DigitsShift(sign, s, 0, 0);
  }

  lemma {:induction false} DigitsShift(sign: string, s: string, k: nat, acc: nat)
    requires k <= |s|
    ensures DigitsValue(sign + s, |sign| + k, acc) == DigitsValue(s, k, acc)
    decreases |s| - k
  {
    if k < |s| && IsDigit(s[k]) {
      assert (sign + s)[|sign| + k] == s[k];
      DigitsShift(sign, s, k + 1, 10 * acc + DigitValue(s[k]));
    }
  }

  lemma {:induction false} DigitsFrom(s: string, k: nat)
    requires AllDigits(s) && k <= |s|
    ensures DigitsValue(s, k, Value(s[..k])) == Value(s)
    decreases |s| - k
  {
    if k < |s| {
      assert s[..k + 1][..k] == s[..k];
      assert Value(s[..k + 1]) == 10 * Value(s[..k]) + DigitValue(s[k]);
      DigitsFrom(s, k + 1);
    } else {
      assert s[..k] == s;
    }
  }

  lemma StatusSpaces(r: ResponseValue, rest: string)
    ensures var raw, k := StatusLine(r) + CRLF + rest, 9 + |PrintInt(r.statusCode)|;
            && FindChar(raw, ' ') == 8 && FindChar(raw, ' ', 9) == k && raw[9..k] == PrintInt(r.statusCode)
            && forall i :: 0 <= i <= k ==> raw[i] != '\r'
  {
    hide PrintInt, FindChar;
    var raw, code := StatusLine(r) + CRLF + rest, PrintInt(r.statusCode);
    var k := 9 + |code|;
    PrintedInt(r.statusCode);
    assert raw[..9] == "HTTP/1.1 ";
    assert forall i :: 0 <= i < 9 ==> raw[i] == raw[..9][i];
    assert forall i :: 0 <= i < 8 ==> "HTTP/1.1 "[i] !in {' ', '\r'};
    assert raw[8] == ' ';
    assert forall i :: 9 <= i < k ==> raw[i] == code[i - 9] && (IsDigit(code[i - 9]) || code[i - 9] == '-');
    assert raw[k] == ' ';
    assert FindChar(raw, ' ') == 8;
    assert FindChar(raw, ' ', 9) == k;
    assert raw[9..k] == code;
  }

  lemma StatusIsRead(r: ResponseValue, rest: string)
    requires PlainResponse(r)
    ensures var raw := StatusLine(r) + CRLF + rest;
            var sp1 := FindChar(raw, ' ');
            var sp2 := FindChar(raw, ' ', sp1 + 1);
            && sp1 != -1 && sp2 != -1 && Atoi(raw[sp1 + 1..sp2]) == r.statusCode
            && FindCrlf(raw, 0) == |StatusLine(r)|
            && ReasonPhrase(raw, sp2, FindCrlf(raw, 0)) == r.statusText
  {
    hide PrintInt, Atoi, FindChar, FindCrlf, NoCrlf;
    StatusLineIsPlain(r);
    FindCrlfAfterLine(StatusLine(r), rest);
    var raw, k := StatusLine(r) + CRLF + rest, 9 + |PrintInt(r.statusCode)|;
    StatusSpaces(r, rest);
    AtoiOfPrint(r.statusCode);
    assert raw[k + 1..|StatusLine(r)|] == r.statusText;
  }

  /** What reading back must give: the names in lower case, everything else unchanged. */
  function ReadBack(r: ResponseValue, keepAlive: bool): Received {
    Received(r.(headers := LowerNames(r.headers)), keepAlive)
  }

  lemma FinishReadsBack(r: ResponseValue, keepAlive: bool)
    requires PlainResponse(r)
    ensures Finish(Serialized(r, keepAlive), |HeadText(r, keepAlive)| - 4,
                   Head(Some(|r.body|), keepAlive, LowerNames(r.headers))) == Some(ReadBack(r, keepAlive))
  {
    hide FindCrlf, FindChar, Atoi, StatusLine, LowerNames, HeaderLines, WireHeaders, JoinLines, PlainResponse;
    var raw, head := Serialized(r, keepAlive), HeadText(r, keepAlive);
    var rest := JoinLines(HeaderLines(WireHeaders(r, keepAlive))) + CRLF + r.body;
    assert raw == StatusLine(r) + CRLF + rest;
    StatusIsRead(r, rest);
    assert raw == head + r.body;
    assert raw[|head|..|head| + |r.body|] == r.body;
  }

  // ----- Every way recv can cut the bytes

  predicate RecvChunks(chunks: seq<string>) {
    forall i :: 0 <= i < |chunks| ==> 1 <= |chunks[i]| <= RECV_BYTES
  }

  /** The header section can be found before the reader's limit, however it is cut. */
  predicate HeadFits(r: ResponseValue, keepAlive: bool) {
    |Serialized(r, keepAlive)| <= 32768 || |HeadText(r, keepAlive)| <= 24577
  }

  /** How far the reader is once it holds the first `n` bytes of the wire. */
  function ProgressAt(r: ResponseValue, keepAlive: bool, n: nat): Progress {
    if n < |HeadText(r, keepAlive)| then Searching
    else Reading(|HeadText(r, keepAlive)| - 4, Head(Some(|r.body|), keepAlive, LowerNames(r.headers)))
  }

  /** From byte `n` on, no chunk makes the bytes exceed the limit before the header section of length `head` is complete. */
  predicate CutFits(head: nat, n: nat, chunks: seq<string>)
    decreases |chunks|
  {
    chunks == [] ||
    ((n < head ==> n + |chunks[0]| <= MAX_HEAD_BYTES) && CutFits(head, n + |chunks[0]|, chunks[1..]))
  }

  lemma OneChunkMore(r: ResponseValue, keepAlive: bool, maxBody: nat, n: nat, k: nat)
    requires PlainResponse(r) && |r.body| <= maxBody && |r.body| <= MAX_SIZE
    requires n < k <= |Serialized(r, keepAlive)| && (n < |HeadText(r, keepAlive)| ==> k <= MAX_HEAD_BYTES)
    ensures InHead(Serialized(r, keepAlive)[..n], ProgressAt(r, keepAlive, n))
    ensures InHead(Serialized(r, keepAlive)[..k], ProgressAt(r, keepAlive, n))
    ensures AfterChunk(Serialized(r, keepAlive)[..k], ProgressAt(r, keepAlive, n), maxBody) == Some(ProgressAt(r, keepAlive, k))
    ensures InHead(Serialized(r, keepAlive)[..k], ProgressAt(r, keepAlive, k))
    ensures Enough(Serialized(r, keepAlive)[..k], ProgressAt(r, keepAlive, k)) <==> k == |Serialized(r, keepAlive)|
  {
    hide FindBlankLine, ReadHead, HeadText, Serialized, PlainResponse, LowerNames;
    var wire, head := Serialized(r, keepAlive), HeadText(r, keepAlive);
    WireIsHeadAndBody(r, keepAlive);
    if k >= |head| {
      assert wire[..k] == head + wire[|head|..k];
      HeadIsRead(r, keepAlive, wire[|head|..k], maxBody);
    } else {
      HeadIsRead(r, keepAlive, r.body, maxBody);
      NotYet(wire, k);
    }
  }

  lemma {:induction false} ReadsFrom(r: ResponseValue, keepAlive: bool, maxBody: nat, n: nat, chunks: seq<string>)
    requires PlainResponse(r) && |r.body| <= maxBody && |r.body| <= MAX_SIZE
    requires RecvChunks(chunks) && chunks != []
    requires n <= |Serialized(r, keepAlive)| && Concat(chunks) == Serialized(r, keepAlive)[n..]
    ensures InHead(Serialized(r, keepAlive)[..n], ProgressAt(r, keepAlive, n))
    ensures ReadChunks(Serialized(r, keepAlive)[..n], ProgressAt(r, keepAlive, n), chunks, maxBody) ==
            if CutFits(|HeadText(r, keepAlive)|, n, chunks) then Some(ReadBack(r, keepAlive)) else None
    decreases |chunks|
  {
    hide Finish, HeadText, Serialized, PlainResponse, LowerNames, ReadHead, FindBlankLine, ReadBack;
    var wire := Serialized(r, keepAlive);
    var rest, k := chunks[1..], n + |chunks[0]|;
    WireIsHeadAndBody(r, keepAlive);
    FirstPiece(wire, n, chunks);
    if n < |HeadText(r, keepAlive)| && k > MAX_HEAD_BYTES {
      assert AfterChunk(wire[..k], Searching, maxBody) == None;
    } else {
      hide AfterChunk, Enough, InHead;
      OneChunkMore(r, keepAlive, maxBody, n, k);
      if k == |wire| {
        assert wire[..k] == wire;
        FinishReadsBack(r, keepAlive);
      } else {
        ReadsFrom(r, keepAlive, maxBody, k, rest);
      }
    }
  }

  lemma FirstPiece(wire: string, n: nat, chunks: seq<string>)
    requires RecvChunks(chunks) && chunks != [] && n <= |wire| && Concat(chunks) == wire[n..]
    ensures var k := n + |chunks[0]|;
            && n < k <= |wire| && wire[..n] + chunks[0] == wire[..k] && Concat(chunks[1..]) == wire[k..]
            && (chunks[1..] == [] <==> k == |wire|)
  {
    var rest, k := chunks[1..], n + |chunks[0]|;
    assert 1 <= |chunks[0]|;
    assert wire[n..] == chunks[0] + Concat(rest);
    assert chunks[0] == wire[n..][..k - n] && Concat(rest) == wire[n..][k - n..];
    assert rest != [] ==> Concat(rest) == rest[0] + Concat(rest[1..]) && 1 <= |rest[0]|;
  }

  lemma WireIsHeadAndBody(r: ResponseValue, keepAlive: bool)
    ensures Serialized(r, keepAlive) == HeadText(r, keepAlive) + r.body
    ensures |HeadText(r, keepAlive)| >= 4
  {
  }

  /** A prefix that stops inside the blank line does not hold it. */
  lemma NotYet(wire: string, k: nat)
    requires k <= |wire| && FindBlankLine(wire) != -1 && k < FindBlankLine(wire) + 4
    ensures FindBlankLine(wire[..k]) == -1
  {
    hide FindBlankLine;
    assert forall i :: BlankLineAt(wire[..k], i) ==> BlankLineAt(wire, i) && i + 4 <= k;
  }

  /**
    A cut of the wire into receives of at most 8192 bytes is read back as the same response if
    and only if no receive exceeds the limit before the header section is complete.
   */
  lemma SerializedIsReadBack(r: ResponseValue, keepAlive: bool, chunks: seq<string>, maxBody: nat)
    requires PlainResponse(r) && |r.body| <= maxBody && |r.body| <= MAX_SIZE
    requires RecvChunks(chunks) && Concat(chunks) == Serialized(r, keepAlive)
    ensures ReadChunks("", Searching, chunks, maxBody) ==
            if CutFits(|HeadText(r, keepAlive)|, 0, chunks) then Some(ReadBack(r, keepAlive)) else None
  {
    hide ReadChunks, PlainResponse, LowerNames, CutFits;
    WireIsHeadAndBody(r, keepAlive);
    assert chunks == [] ==> Concat(chunks) == "";
    assert Serialized(r, keepAlive)[0..] == Serialized(r, keepAlive);
    ReadsFrom(r, keepAlive, maxBody, 0, chunks);
  }

  // ----- All cuts at once

  function Pieces(s: string): (chunks: seq<string>)
    ensures RecvChunks(chunks)
    decreases |s|
  {
    if s == "" then [] else if |s| <= RECV_BYTES then [s] else [s[..RECV_BYTES]] + Pieces(s[RECV_BYTES..])
  }

  lemma {:induction false} ConcatPieces(s: string)
    ensures Concat(Pieces(s)) == s
    decreases |s|
  {
    if s == "" {
    } else if |s| <= RECV_BYTES {
      assert [s][1..] == [];
    } else {
      assert Pieces(s)[1..] == Pieces(s[RECV_BYTES..]);
      ConcatPieces(s[RECV_BYTES..]);
    }
  }

  lemma ConcatThree(a: seq<string>, last: string, b: seq<string>)
    ensures Concat(a + [last] + b) == Concat(a) + last + Concat(b)
  {
    ConcatAppend(a + [last], b);
    ConcatAppend(a, [last]);
    assert [last][1..] == [];
    assert Concat([last]) == last;
  }

  lemma {:induction false} AllCutsFit(head: nat, n: nat, chunks: seq<string>)
    requires RecvChunks(chunks)
    requires n + |Concat(chunks)| <= MAX_HEAD_BYTES || head - 1 + RECV_BYTES <= MAX_HEAD_BYTES
    ensures CutFits(head, n, chunks)
    decreases |chunks|
  {
    if chunks == [] {
    } else {
      assert |chunks[0]| <= RECV_BYTES;
      AllCutsFit(head, n + |chunks[0]|, chunks[1..]);
    }
  }

  lemma {:induction false} OneTooLong(head: nat, n: nat, a: seq<string>, last: string, b: seq<string>)
    requires n + |Concat(a)| < head && n + |Concat(a)| + |last| > MAX_HEAD_BYTES
    ensures !CutFits(head, n, a + [last] + b)
    decreases |a|
  {
    var chunks := a + [last] + b;
    if a == [] {
      assert chunks[0] == last;
    } else {
      assert chunks[0] == a[0] && chunks[1..] == a[1..] + [last] + b;
      OneTooLong(head, n + |a[0]|, a[1..], last, b);
    }
  }

  /** A cut at the end of the header section fits whenever that section does. */
  lemma {:induction false} CutAtHeadFits(head: nat, n: nat, a: seq<string>, b: seq<string>)
    requires head <= MAX_HEAD_BYTES && n + |Concat(a)| == head
    ensures CutFits(head, n, a + b)
    decreases |a| + |b|
  {
    var chunks := a + b;
    if a == [] {
      BeyondHeadFits(head, n, b);
      assert chunks == b;
    } else {
      assert chunks[0] == a[0] && chunks[1..] == a[1..] + b;
      CutAtHeadFits(head, n + |a[0]|, a[1..], b);
    }
  }

  lemma {:induction false} BeyondHeadFits(head: nat, n: nat, chunks: seq<string>)
    requires head <= n
    ensures CutFits(head, n, chunks)
    decreases |chunks|
  {
    if chunks == [] {
    } else {
      BeyondHeadFits(head, n + |chunks[0]|, chunks[1..]);
    }
  }

  /**
    A plain response survives every cut if and only if its header section fits: the whole
    message is at most 32768 bytes or its header section at most 24577.
   */
  lemma ReadBackIff(r: ResponseValue, keepAlive: bool, maxBody: nat)
    requires PlainResponse(r) && |r.body| <= maxBody && |r.body| <= MAX_SIZE
    ensures (forall chunks: seq<string> :: RecvChunks(chunks) && Concat(chunks) == Serialized(r, keepAlive) ==>
               ReadChunks("", Searching, chunks, maxBody) == Some(ReadBack(r, keepAlive)))
            <==> HeadFits(r, keepAlive)
  {
    hide ReadChunks, PlainResponse, LowerNames, Serialized, HeadText, Concat, Pieces, CutFits;
    if HeadFits(r, keepAlive) {
      forall chunks: seq<string> | RecvChunks(chunks) && Concat(chunks) == Serialized(r, keepAlive)
        ensures ReadChunks("", Searching, chunks, maxBody) == Some(ReadBack(r, keepAlive))
      {
        AllCutsFit(|HeadText(r, keepAlive)|, 0, chunks);
        SerializedIsReadBack(r, keepAlive, chunks, maxBody);
      }
    } else {
      var chunks := BadCut(r, keepAlive, maxBody);
    }
  }

  lemma BadCut(r: ResponseValue, keepAlive: bool, maxBody: nat) returns (chunks: seq<string>)
    requires PlainResponse(r) && |r.body| <= maxBody && |r.body| <= MAX_SIZE
    requires !HeadFits(r, keepAlive)
    ensures RecvChunks(chunks) && Concat(chunks) == Serialized(r, keepAlive)
    ensures ReadChunks("", Searching, chunks, maxBody).None?
  {
    hide ReadChunks, PlainResponse, LowerNames, Serialized, HeadText, Pieces, Concat, CutFits;
    var wire, head := Serialized(r, keepAlive), HeadText(r, keepAlive);
    WireIsHeadAndBody(r, keepAlive);
    var cut := |head| - 1;
    var next := if cut + RECV_BYTES <= |wire| then cut + RECV_BYTES else |wire|;
    var a, last, b := Pieces(wire[..cut]), wire[cut..next], Pieces(wire[next..]);
    chunks := a + [last] + b;
    ConcatPieces(wire[..cut]);
    ConcatPieces(wire[next..]);
    ConcatThree(a, last, b);
    assert wire == wire[..cut] + wire[cut..next] + wire[next..];
    OneTooLong(|head|, 0, a, last, b);
    SerializedIsReadBack(r, keepAlive, chunks, maxBody);
  }

  // ----- Responses with one header, received when cut at the end of their header section

  lemma ReceivedCutAtHead(r: ResponseValue, keepAlive: bool, maxBody: nat) returns (chunks: seq<string>)
    requires PlainResponse(r) && |r.body| <= maxBody && |r.body| <= MAX_SIZE
    requires |HeadText(r, keepAlive)| <= MAX_HEAD_BYTES
    ensures RecvChunks(chunks) && ReadChunks("", Searching, chunks, maxBody) == Some(ReadBack(r, keepAlive))
  {
    hide ReadChunks, PlainResponse, LowerNames, Serialized, HeadText, Pieces, Concat, CutFits;
    WireIsHeadAndBody(r, keepAlive);
    var a, b := Pieces(HeadText(r, keepAlive)), Pieces(r.body);
    ConcatPieces(HeadText(r, keepAlive));
    ConcatPieces(r.body);
    ConcatAppend(a, b);
    chunks := a + b;
    CutAtHeadFits(|HeadText(r, keepAlive)|, 0, a, b);
    SerializedIsReadBack(r, keepAlive, chunks, maxBody);
  }

  function WithHeader(h: Header, body: string): ResponseValue {
    ResponseValue(200, "OK", [h], body)
  }

  lemma HeadOfOne(h: Header, body: string, keepAlive: bool)
    requires PlainHeader(h)
    ensures |HeadText(WithHeader(h, body), keepAlive)| <= |h.name| + |h.value| + |body| / 10 + 200
  {
    hide PlainHeader, Print;
    var r := WithHeader(h, body);
    WireLines(r, keepAlive);
    var own := [FieldLine("Content-Length", Print(|body|)), FieldLine("Connection", ConnectionToken(keepAlive))];
    assert [h][1..] == [];
    assert HeaderLines([h]) == [FieldLine(h.name, h.value)];
    JoinAppend(HeaderLines([h]), own);
    ShortPrint(|body|);
    ShortPrint(200);
    JoinTwo(own[0], own[1]);
    JoinOne(FieldLine(h.name, h.value));
  }

  lemma OneHeaderIsReceived(h: Header, body: string, keepAlive: bool, maxBody: nat) returns (chunks: seq<string>)
    requires PlainHeader(h) && ToLower(h.name) == h.name && |body| <= maxBody && |body| <= MAX_SIZE
    requires |h.name| + |h.value| + |body| / 10 + 200 <= MAX_HEAD_BYTES
    ensures RecvChunks(chunks)
    ensures ReadChunks("", Searching, chunks, maxBody) == Some(Received(WithHeader(h, body), keepAlive))
  {
    hide ReadChunks, PlainHeader, HeadText, ToLower;
    HeadOfOne(h, body, keepAlive);
    assert NoCrlf("OK");
    assert [h][1..] == [] && LowerNames([]) == [];
    assert LowerNames([h]) == [h];
    chunks := ReceivedCutAtHead(WithHeader(h, body), keepAlive, maxBody);
  }

  // ----- A response that is received under one cut and lost under another

  const LONG_HEADER: Header := Header("x", Repeat('a', 25000))

  lemma LongHeaderIsPlain()
    ensures PlainHeader(LONG_HEADER) && ToLower("x") == "x"
  {
    hide Repeat;
    assert LONG_HEADER.value[0] == 'a';
    assert ToLower("x") == "x";
    assert !Reserved("x");
  }

  /** With the one long header and a long body, no header section fits. */
  lemma BulkyDoesNotFit(r: ResponseValue, keepAlive: bool)
    requires r.headers != [] && r.headers[0] == LONG_HEADER && |r.body| >= 8000
    ensures !HeadFits(r, keepAlive)
  {
    hide Repeat, PrintInt;
    var hs := WireHeaders(r, keepAlive);
    assert hs[0] == r.headers[0];
    var lines := HeaderLines(hs);
    assert lines[0] == FieldLine("x", LONG_HEADER.value);
    assert JoinLines(lines) == lines[0] + CRLF + JoinLines(lines[1..]);
    WireIsHeadAndBody(r, keepAlive);
  }

  lemma {:induction false} ShortPrint(n: nat)
    ensures |Print(n)| <= 1 + n / 10
  {
    if n < 10 {
    } else {
      ShortPrint(n / 10);
    }
  }
}
