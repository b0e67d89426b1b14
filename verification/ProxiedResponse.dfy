/** From an upstream response to the response the client gets: what was received, edited, printed and read again. */
module ProxiedResponse {
  import opened Text
  import opened Decimal
  import opened BackendRequest
  import RequestRoundTrip
  import opened Response
  import opened ResponseReader
  import opened ResponseRoundTrip

  // ----- What the reader guarantees about a response

  lemma SliceHasNoCrlf(s: string, from: nat, to: nat)
    requires from <= to <= |s|
    requires forall i :: from <= i < to ==> !CrlfAt(s, i)
    ensures NoCrlf(s[from..to])
  {
    forall i | 0 <= i < to - from
      ensures !CrlfAt(s[from..to], i)
    {
      assert !CrlfAt(s, from + i);
    }
  }

  lemma PartHasNoCrlf(s: string, from: nat, to: nat)
    requires NoCrlf(s) && from <= to <= |s|
    ensures NoCrlf(s[from..to])
  {
    SliceHasNoCrlf(s, from, to);
  }

  lemma LowerHasNoCrlf(s: string)
    requires NoCrlf(s)
    ensures NoCrlf(ToLower(s)) && ToLower(ToLower(s)) == ToLower(s)
  {
    forall i | 0 <= i < |s|
      ensures !CrlfAt(ToLower(s), i)
    {
      assert !CrlfAt(s, i);
    }
    LowerOfLower(s);
  }

  lemma LowerOfLower(s: string)
    ensures ToLower(ToLower(s)) == ToLower(s)
  {
    assert IsLower(ToLower(s));
    ToLowerFixes(ToLower(s));
  }

  lemma ReadHeaderIsPlain(line: string)
    requires NoCrlf(line) && FindChar(line, ':') != -1
    ensures var colon := FindChar(line, ':');
            var h := Header(ToLower(line[..colon]), StripLeft(line[colon + 1..]));
            PlainHeader(h) || Reserved(h.name)
  {
    hide FindChar, NoCrlf, ToLower, FirstNotOf;
    var colon := FindChar(line, ':');
    var name, rest := line[..colon], line[colon + 1..];
    PartHasNoCrlf(line, 0, colon);
    PartHasNoCrlf(line, colon + 1, |line|);
    assert line[0..colon] == name && line[colon + 1..|line|] == rest;
    LowerHasNoCrlf(name);
    LowerKeepsColons(name);
    var a := FirstNotOf(rest, BLANKS);
    if a != -1 {
      PartHasNoCrlf(rest, a, |rest|);
      assert rest[a..|rest|] == rest[a..];
    }
    EmptyHasNoCrlf();
  }

  lemma LowerKeepsColons(s: string)
    requires forall i :: 0 <= i < |s| ==> s[i] != ':'
    ensures forall i :: 0 <= i < |ToLower(s)| ==> ToLower(s)[i] != ':'
  {
  }

  lemma EmptyHasNoCrlf()
    ensures NoCrlf("")
  {
  }

  predicate LowerNamed(headers: seq<Header>) {
    forall i :: 0 <= i < |headers| ==> ToLower(headers[i].name) == headers[i].name
  }

  predicate GoodHead(head: Head, maxBody: nat) {
    && PlainHeaders(head.headers) && LowerNamed(head.headers)
    && (head.length.Some? ==> head.length.value <= maxBody && head.length.value <= MAX_SIZE)
  }

  lemma AddHeadLineGood(head: Head, line: string, maxBody: nat)
    requires GoodHead(head, maxBody) && NoCrlf(line)
    ensures AddHeadLine(head, line, maxBody).Some? ==> GoodHead(AddHeadLine(head, line, maxBody).value, maxBody)
  {
    hide FindChar, ToLower, StripLeft, Value, SaysClose, PlainHeader, NoCrlf;
    if FindChar(line, ':') != -1 {
      ReadHeaderIsPlain(line);
      LowerOfLower(line[..FindChar(line, ':')]);
    }
  }

  lemma {:induction false} ReadHeadLinesGood(raw: string, pos: nat, end: nat, head: Head, maxBody: nat)
    requires end <= |raw| && GoodHead(head, maxBody)
    ensures var r := ReadHeadLines(raw, pos, end, head, maxBody); r.Some? ==> GoodHead(r.value, maxBody)
    decreases end - pos
  {
    hide FindCrlf, AddHeadLine, GoodHead;
    if pos >= end {
    } else {
      var e := FindCrlf(raw, pos);
      if e != -1 && e <= end {
        SliceHasNoCrlf(raw, pos, e);
        AddHeadLineGood(head, raw[pos..e], maxBody);
        match AddHeadLine(head, raw[pos..e], maxBody)
        case None =>
        case Some(h) => ReadHeadLinesGood(raw, e + 2, end, h, maxBody);
      }
    }
  }

  predicate GoodProgress(raw: string, p: Progress, maxBody: nat) {
    p.Reading? ==> GoodHead(p.head, maxBody) && FindBlankLine(raw) == p.end
  }

  lemma AfterChunkGood(raw: string, chunk: string, p: Progress, maxBody: nat)
    requires InHead(raw, p) && GoodProgress(raw, p, maxBody)
    ensures InHead(raw + chunk, p)
    ensures var r := AfterChunk(raw + chunk, p, maxBody); r.Some? ==> GoodProgress(raw + chunk, r.value, maxBody)
  {
    hide FindBlankLine, ReadHeadLines, FindCrlf, GoodHead;
    if p.Reading? {
      BlankLineAppend(raw, chunk);
    } else {
      var end := FindBlankLine(raw + chunk);
      NoHeadIsGood(maxBody);
      if end != -1 { ReadHeadLinesGood(raw + chunk, FindCrlf(raw + chunk, 0) + 2, end, NO_HEAD, maxBody); }
    }
  }

  lemma NoHeadIsGood(maxBody: nat)
    ensures GoodHead(NO_HEAD, maxBody)
  {
  }

  /** A status line with both its spaces in front of the line end (section 4 of RFC 9112). */
  predicate HasReason(b: string) {
    var sp1 := FindChar(b, ' ');
    var sp2 := FindChar(b, ' ', sp1 + 1);
    sp1 != -1 && sp2 != -1 && sp2 < FindCrlf(b, 0)
  }

  lemma FinishGood(raw: string, ext: string, end: nat, head: Head, maxBody: nat)
    requires head.length.Some? && end + 4 + head.length.value <= |raw|
    requires GoodHead(head, maxBody) && FindBlankLine(raw) == end
    requires Finish(raw, end, head).Some?
    ensures Printable(Finish(raw, end, head).value.response, maxBody)
    ensures HasReason(raw + ext) ==> NoCrlf(Finish(raw, end, head).value.response.statusText)
  {
    hide FindBlankLine, FindCrlf, FindChar, Atoi, NoCrlf;
    var b := raw + ext;
    if HasReason(b) {
      var sp1 := FindChar(b, ' ');
      var sp2 := FindChar(b, ' ', sp1 + 1);
      assert CrlfAt(raw, end);
      assert FindCrlf(raw, 0) != -1;
      FindCrlfAppend(raw, ext, 0);
      var e := FindCrlf(raw, 0);
      assert forall i :: 0 <= i <= sp2 ==> raw[i] == b[i];
      assert FindChar(raw, ' ') == sp1;
      assert FindChar(raw, ' ', sp1 + 1) == sp2;
      SliceHasNoCrlf(raw, sp2 + 1, e);
    }
  }

  predicate Printable(r: ResponseValue, maxBody: nat) {
    PlainHeaders(r.headers) && LowerNamed(r.headers) && |r.body| <= maxBody && |r.body| <= MAX_SIZE
  }

  /**
    Whatever the cuts, a received response has headers that can be printed and read back, and
    if its status line has both spaces its reason phrase holds no line end.
   */
  lemma {:induction false} ReceivedIsPlain(raw: string, p: Progress, chunks: seq<string>, maxBody: nat)
    requires InHead(raw, p) && GoodProgress(raw, p, maxBody)
    ensures var r := ReadChunks(raw, p, chunks, maxBody);
            r.Some? ==> && Printable(r.value.response, maxBody)
                        && (HasReason(raw + Concat(chunks)) ==> NoCrlf(r.value.response.statusText))
    decreases |chunks|
  {
    hide AfterChunk, Finish, HasReason, GoodHead, NoCrlf, Printable, FindBlankLine;
    if chunks == [] {
    } else {
      var raw' := raw + chunks[0];
      AfterChunkGood(raw, chunks[0], p, maxBody);
      assert raw + Concat(chunks) == raw' + Concat(chunks[1..]);
      match AfterChunk(raw', p, maxBody)
      case None =>
      case Some(p') =>
        if Enough(raw', p') {
          if Finish(raw', p'.end, p'.head).Some? {
            FinishGood(raw', Concat(chunks[1..]), p'.end, p'.head, maxBody);
          }
        } else {
          ReceivedIsPlain(raw', p', chunks[1..], maxBody);
        }
    }
  }

  /** What the gateway writes always has both spaces in its status line. */
  lemma WrittenHasReason(r: ResponseValue, keepAlive: bool)
    ensures HasReason(Serialized(r, keepAlive))
  {
    hide FindCrlf, FindChar, PrintInt, JoinLines, HeaderLines, WireHeaders;
    var rest := JoinLines(HeaderLines(WireHeaders(r, keepAlive))) + CRLF + r.body;
    var raw := Serialized(r, keepAlive);
    assert raw == StatusLine(r) + CRLF + rest;
    StatusSpaces(r, rest);
    assert CrlfAt(raw, |StatusLine(r)|);
  }

  lemma EveryCutIsBad(r: ResponseValue, keepAlive: bool, maxBody: nat)
    requires !NoCrlf(r.statusText)
    ensures var chunks := Pieces(Serialized(r, keepAlive));
            && RecvChunks(chunks) && Concat(chunks) == Serialized(r, keepAlive)
            && ReadChunks("", Searching, chunks, maxBody) != Some(ReadBack(r, keepAlive))
  {
    hide ReadChunks, Serialized, HasReason, NoCrlf, Pieces, Printable;
    ConcatPieces(Serialized(r, keepAlive));
    WrittenHasReason(r, keepAlive);
    assert "" + Concat(Pieces(Serialized(r, keepAlive))) == Serialized(r, keepAlive);
    ReceivedIsPlain("", Searching, Pieces(Serialized(r, keepAlive)), maxBody);
  }

  // ----- The gateway's edits

  /** `setHeader` calls in order. */
  function Edited(headers: seq<Header>, edits: seq<Header>): seq<Header>
    decreases |edits|
  {
    if edits == [] then headers else Edited(SetFirst(headers, edits[0].name, edits[0].value), edits[1..])
  }

  lemma {:induction false} EditedIsPlain(headers: seq<Header>, edits: seq<Header>)
    requires PlainHeaders(headers) && PlainHeaders(edits)
    ensures PlainHeaders(Edited(headers, edits))
    decreases |edits|
  {
    hide PlainHeader;
    if edits == [] {
    } else {
      SetFirstMeans(headers, edits[0].name, edits[0].value);
      EditedIsPlain(SetFirst(headers, edits[0].name, edits[0].value), edits[1..]);
    }
  }

  /** The two headers the request handler sets may be printed (src/core/Gateway.cpp:168-180). */
  lemma GatewayEditsArePlain(requestId: string, hit: bool)
    requires NoCrlf(requestId) && (requestId != "" ==> requestId[0] !in BLANKS)
    ensures PlainHeader(Header("X-Request-Id", requestId))
    ensures PlainHeader(Header("X-Cache", if hit then "HIT" else "MISS"))
  {
    hide Reserved, ToLower;
    ExtensionNotReserved("X-Request-Id");
    ExtensionNotReserved("X-Cache");
  }

  lemma ExtensionNotReserved(name: string)
    requires name != "" && name[0] == 'X'
    ensures !Reserved(ToLower(name))
  {
  }

  function CountNamed(headers: seq<Header>, key: string): nat {
    if headers == [] then 0
    else (if ToLower(headers[0].name) == key then 1 else 0) + CountNamed(headers[1..], key)
  }

  lemma {:induction false} CountAppend(a: seq<Header>, b: seq<Header>, key: string)
    ensures CountNamed(a + b, key) == CountNamed(a, key) + CountNamed(b, key)
  {
    if a == [] {
      assert a + b == b;
    } else {
      assert (a + b)[1..] == a[1..] + b;
      CountAppend(a[1..], b, key);
    }
  }

  lemma {:induction false} PlainHasNoLength(headers: seq<Header>)
    requires PlainHeaders(headers)
    ensures CountNamed(headers, "content-length") == 0 && CountNamed(headers, "connection") == 0
  {
    hide ToLower, NoCrlf;
    if headers == [] {
    } else {
      assert PlainHeader(headers[0]);
      PlainHasNoLength(headers[1..]);
    }
  }

  /** On the wire, printable headers are followed by the length of the body and the fate of the connection. */
  lemma OneContentLength(r: ResponseValue, keepAlive: bool)
    requires PlainHeaders(r.headers)
    ensures WireHeaders(r, keepAlive) ==
            r.headers + [Header("Content-Length", Print(|r.body|)),
                         Header("Connection", if keepAlive then "keep-alive" else "close")]
    ensures CountNamed(WireHeaders(r, keepAlive), "content-length") == 1
    ensures CountNamed(WireHeaders(r, keepAlive), "connection") == 1
  {
    hide ToLower, PlainHeaders, Print, HasName, CountNamed;
    PlainHasNoLength(r.headers);
    PlainHasNoOwn(r.headers);
    var a, b := Header("Content-Length", Print(|r.body|)), Header("Connection", ConnectionToken(keepAlive));
    assert WireHeaders(r, keepAlive) == r.headers + [a, b] == r.headers + [a] + [b];
    forall key | key == "content-length" || key == "connection"
      ensures CountNamed(WireHeaders(r, keepAlive), key) == 1
    {
      CountAppend(r.headers + [a], [b], key);
      CountAppend(r.headers, [a], key);
      OwnCounts(a.value, b.value, key);
    }
  }

  lemma OwnCounts(length: string, token: string, key: string)
    requires key == "content-length" || key == "connection"
    ensures CountNamed([Header("Content-Length", length)], key) + CountNamed([Header("Connection", token)], key) == 1
  {
    hide ToLower, CountNamed;
    RequestRoundTrip.ContentLengthName();
    RequestRoundTrip.OwnNames();
    assert "connection"[3] != "content-length"[3];
    OneHeaderCounts(Header("Content-Length", length), key);
    OneHeaderCounts(Header("Connection", token), key);
  }

  /**
    Any response the gateway receives goes out, after any printable header edits, with exactly
    one content length, the size of its body, and one connection field; and every cut of the wire is read back as the
    same status, reason, body and header list (names in lower case), if and only if its reason
    phrase holds no line end and its header section fits.
   */
  lemma ProxiedResponseRoundTrip(chunks: seq<string>, maxIn: nat, edits: seq<Header>, keepAlive: bool, maxOut: nat)
    requires PlainHeaders(edits)
    requires var got := ReadChunks("", Searching, chunks, maxIn);
             got.Some? && |got.value.response.body| <= maxOut
    ensures var got := ReadChunks("", Searching, chunks, maxIn).value.response;
            var sent := got.(headers := Edited(got.headers, edits));
            && WireHeaders(sent, keepAlive) ==
               sent.headers + [Header("Content-Length", Print(|got.body|)),
                               Header("Connection", if keepAlive then "keep-alive" else "close")]
            && CountNamed(WireHeaders(sent, keepAlive), "content-length") == 1
            && CountNamed(WireHeaders(sent, keepAlive), "connection") == 1
            && ((forall out: seq<string> :: RecvChunks(out) && Concat(out) == Serialized(sent, keepAlive) ==>
                   ReadChunks("", Searching, out, maxOut) ==
                   Some(Received(got.(headers := LowerNames(sent.headers)), keepAlive)))
                <==> NoCrlf(got.statusText) && HeadFits(sent, keepAlive))
            && (HasReason(Concat(chunks)) ==> NoCrlf(got.statusText))
  {
    hide ReadChunks, PlainHeaders, Serialized, HeadFits, Edited, WireHeaders, LowerNames, HasReason, CountNamed, Print, NoCrlf;
    var got := ReadChunks("", Searching, chunks, maxIn).value.response;
    assert "" + Concat(chunks) == Concat(chunks);
    ReceivedIsPlain("", Searching, chunks, maxIn);
    EditedIsPlain(got.headers, edits);
    var sent := got.(headers := Edited(got.headers, edits));
    OneContentLength(sent, keepAlive);
    assert ReadBack(sent, keepAlive) == Received(got.(headers := LowerNames(sent.headers)), keepAlive);
    if NoCrlf(got.statusText) {
      ReadBackIff(sent, keepAlive, maxOut);
    } else {
      EveryCutIsBad(sent, keepAlive, maxOut);
    }
  }

  // ----- Request ids

  /** The headers the request handler sets, on a fresh answer and on a cached one. */
  predicate HandlerEdits(edits: seq<Header>) {
    forall i :: 0 <= i < |edits| ==> edits[i].name == "X-Request-Id" || edits[i].name == "X-Cache"
  }

  predicate SetsRequestId(edits: seq<Header>) {
    HasName(edits, "X-Request-Id")
  }

  lemma OneHeaderCounts(h: Header, key: string)
    ensures CountNamed([h], key) == if ToLower(h.name) == key then 1 else 0
  {
    assert [h][1..] == [];
  }

  lemma SetFirstCounts(headers: seq<Header>, name: string, value: string, key: string)
    ensures CountNamed(SetFirst(headers, name, value), key) ==
            CountNamed(headers, key) + if !HasName(headers, name) && ToLower(name) == key then 1 else 0
  {
    hide CountNamed, SetFirst, ToLower, FirstNamed;
    SetFirstMeans(headers, name, value);
    var k, h := FirstNamed(headers, name), Header(name, value);
    if HasName(headers, name) {
      RenewedCounts(headers, k, h, key);
    } else {
      OneHeaderCounts(h, key);
      CountAppend(headers, [h], key);
    }
  }

  lemma {:induction false} RenewedCounts(headers: seq<Header>, k: nat, h: Header, key: string)
    requires k < |headers| && headers[k].name == h.name
    ensures CountNamed(headers[k := h], key) == CountNamed(headers, key)
  {
    hide ToLower;
    var r := headers[k := h];
    if k == 0 {
      assert r[1..] == headers[1..];
    } else {
      assert r[1..] == headers[1..][k - 1 := h];
      RenewedCounts(headers[1..], k - 1, h, key);
    }
  }

  lemma SetFirstNames(headers: seq<Header>, name: string, value: string, other: string)
    ensures HasName(SetFirst(headers, name, value), other) <==> HasName(headers, other) || name == other
  {
    hide SetFirst, FirstNamed;
    SetFirstMeans(headers, name, value);
    var r := SetFirst(headers, name, value);
    assert forall i :: 0 <= i < |headers| ==> r[i].name == headers[i].name;
    assert !HasName(headers, name) ==> r[|headers|].name == name;
  }

  lemma HandlerNames()
    ensures ToLower("X-Request-Id") == "x-request-id" && ToLower("X-Cache") != "x-request-id"
  {
    RequestRoundTrip.RequestIdName();
    assert |ToLower("X-Cache")| == 7;
  }

  lemma {:induction false} EditedCounts(headers: seq<Header>, edits: seq<Header>)
    requires HandlerEdits(edits)
    ensures CountNamed(Edited(headers, edits), "x-request-id") ==
            CountNamed(headers, "x-request-id") + if SetsRequestId(edits) && !HasName(headers, "X-Request-Id") then 1 else 0
    decreases |edits|
  {
    hide CountNamed, SetFirst, ToLower;
    if edits == [] {
    } else {
      var e, rest := edits[0], edits[1..];
      HandlerNames();
      SetFirstCounts(headers, e.name, e.value, "x-request-id");
      SetFirstNames(headers, e.name, e.value, "X-Request-Id");
      EditedCounts(SetFirst(headers, e.name, e.value), rest);
      assert edits == [e] + rest;
      assert HasName(edits, "X-Request-Id") <==> e.name == "X-Request-Id" || HasName(rest, "X-Request-Id");
    }
  }

  lemma LowerHasNoRequestId(headers: seq<Header>)
    requires LowerNamed(headers)
    ensures !HasName(headers, "X-Request-Id")
  {
    hide ToLower;
    HandlerNames();
  }

  /**
    A received response to which the handler sets a request id goes out with exactly one if and
    only if the backend sent none: the reader has lowered the names, and `setHeader` compares them exactly.
   */
  lemma OneRequestId(chunks: seq<string>, maxBody: nat, edits: seq<Header>, keepAlive: bool)
    requires HandlerEdits(edits) && SetsRequestId(edits)
    ensures var got := ReadChunks("", Searching, chunks, maxBody);
            got.Some? ==>
              var sent := got.value.response.(headers := Edited(got.value.response.headers, edits));
              CountNamed(WireHeaders(sent, keepAlive), "x-request-id") == 1 <==>
              CountNamed(got.value.response.headers, "x-request-id") == 0
  {
    hide ReadChunks, ToLower, Edited, CountNamed, HasName, PlainHeaders, LowerNamed;
    var got := ReadChunks("", Searching, chunks, maxBody);
    if got.Some? {
      var headers := got.value.response.headers;
      ReceivedIsPlain("", Searching, chunks, maxBody);
      LowerHasNoRequestId(headers);
      EditedCounts(headers, edits);
      WrittenKeepsRequestIds(got.value.response.(headers := Edited(headers, edits)), keepAlive);
    }
  }

  lemma WrittenKeepsRequestIds(r: ResponseValue, keepAlive: bool)
    ensures CountNamed(WireHeaders(r, keepAlive), "x-request-id") == CountNamed(r.headers, "x-request-id")
  {
    hide ToLower, CountNamed, Print, HasName;
    var a, b := Header("Content-Length", Print(|r.body|)), Header("Connection", ConnectionToken(keepAlive));
    RequestRoundTrip.ContentLengthName();
    RequestRoundTrip.OwnNames();
    OneHeaderCounts(a, "x-request-id");
    OneHeaderCounts(b, "x-request-id");
    CountAppend(r.headers, [a], "x-request-id");
    CountAppend(r.headers + [a], [b], "x-request-id");
    CountAppend(r.headers, [b], "x-request-id");
    assert r.headers + [] == r.headers && r.headers + [a] + [] == r.headers + [a];
  }

  // ----- Received responses for which the round trip fails

  /** A received response, with its request id set, that does not fit. */
  lemma NotEveryResponseFits(requestId: string, keepAlive: bool, maxBody: nat) returns (chunks: seq<string>)
    requires maxBody >= 8000
    ensures RecvChunks(chunks) && ReadChunks("", Searching, chunks, maxBody).Some?
    ensures var got := ReadChunks("", Searching, chunks, maxBody).value.response;
            && NoCrlf(got.statusText)
            && !HeadFits(got.(headers := Edited(got.headers, [Header("X-Request-Id", requestId)])), keepAlive)
  {
    hide ReadChunks, HeadFits, Repeat, SetFirst, FirstNamed, PlainHeader;
    LongHeaderIsPlain();
    chunks := OneHeaderIsReceived(LONG_HEADER, Repeat('b', 8000), keepAlive, maxBody);
    var got, edit := WithHeader(LONG_HEADER, Repeat('b', 8000)), Header("X-Request-Id", requestId);
    SetFirstMeans(got.headers, edit.name, edit.value);
    assert [edit][1..] == [];
    assert Edited(got.headers, [edit]) == SetFirst(got.headers, edit.name, edit.value);
    assert got.headers[0].name != edit.name;
    BulkyDoesNotFit(got.(headers := Edited(got.headers, [edit])), keepAlive);
  }

  /** A backend that sends a request id of its own makes two go out. */
  lemma TwoRequestIds(theirs: string, ours: string, keepAlive: bool, maxBody: nat) returns (chunks: seq<string>)
    requires PlainHeader(Header("x-request-id", theirs)) && |theirs| <= 30000
    ensures RecvChunks(chunks) && ReadChunks("", Searching, chunks, maxBody).Some?
    ensures var got := ReadChunks("", Searching, chunks, maxBody).value.response;
            var sent := got.(headers := Edited(got.headers, [Header("X-Request-Id", ours)]));
            CountNamed(WireHeaders(sent, keepAlive), "x-request-id") == 2
  {
    hide ReadChunks, PlainHeader, ToLower, CountNamed, SetFirst, HasName;
    var h, edit := Header("x-request-id", theirs), Header("X-Request-Id", ours);
    HandlerNames();
    LowerOfLower("X-Request-Id");
    chunks := OneHeaderIsReceived(h, "", keepAlive, maxBody);
    OneHeaderCounts(h, "x-request-id");
    SetFirstCounts([h], edit.name, edit.value, "x-request-id");
    LowerHasNoRequestId([h]);
    assert [edit][1..] == [];
    assert Edited([h], [edit]) == SetFirst([h], edit.name, edit.value);
    WrittenKeepsRequestIds(WithHeader(h, "").(headers := Edited([h], [edit])), keepAlive);
  }

  lemma AtoiOfCode(s: string)
    requires |s| > 3 && s[..3] == "200" && !IsDigit(s[3])
    ensures Atoi(s) == 200
  {
    assert s[0] == s[..3][0] == '2' && s[1] == s[..3][1] == '0' && s[2] == s[..3][2] == '0';
    assert FirstNotOf(s, BLANKS) == 0;
    assert s[0..] == s;
    assert DigitsValue(s, 3, 200) == 200;
    assert DigitsValue(s, 2, 20) == 200;
    assert DigitsValue(s, 1, 2) == 200;
  }

  lemma MissingReasonText(digits: string)
    ensures var raw := "HTTP/1.1 200" + CRLF + FieldLine("Content-Length", digits) + CRLF + CRLF;
            && FindChar(raw, ' ') == 8 && FindChar(raw, ' ', 9) == 29 && Atoi(raw[9..29]) == 200
            && !NoCrlf(raw[30..])
  {
    hide FindChar, Atoi, NoCrlf;
    var start, rest := "HTTP/1.1 200" + CRLF + "Content-Length: ", digits + CRLF + CRLF;
    var raw := "HTTP/1.1 200" + CRLF + FieldLine("Content-Length", digits) + CRLF + CRLF;
    assert raw == start + rest;
    assert |start| == 30;
    assert forall i :: 0 <= i < 30 ==> raw[i] == start[i];
    assert forall i :: 0 <= i < 8 ==> start[i] != ' ';
    assert raw[8] == ' ' && raw[29] == ' ';
    assert FindChar(raw, ' ') == 8;
    assert forall i :: 9 <= i < 29 ==> start[i] != ' ';
    assert FindChar(raw, ' ', 9) == 29;
    var code := raw[9..29];
    assert start[9] == '2' && start[10] == '0' && start[11] == '0' && start[12] == '\r';
    assert code[0] == '2' && code[1] == '0' && code[2] == '0' && code[3] == '\r';
    assert code[..3] == "200";
    AtoiOfCode(raw[9..29]);
    assert raw[30..] == rest;
    HasLineEnd(digits, CRLF);
  }

  lemma HasLineEnd(a: string, b: string)
    ensures !NoCrlf(a + CRLF + b)
  {
    assert CrlfAt(a + CRLF + b, |a|);
  }

  lemma OneWordLine()
    ensures NoCrlf("HTTP/1.1 200")
  {
  }

  function BareStatus(): string {
    "HTTP/1.1 200" + CRLF + FieldLine("Content-Length", Print(0)) + CRLF + CRLF
  }

  lemma BareStatusHead(maxBody: nat)
    ensures var raw := BareStatus();
            && FindCrlf(raw, 0) == 12 && FindBlankLine(raw) == |raw| - 4
            && ReadHead(raw, |raw| - 4, maxBody) == Some(Head(Some(0), false, []))
  {
    hide FindCrlf, FindBlankLine, Print, ReadHeadLines, NoCrlf, AddHeadLine;
    var line, lines := "HTTP/1.1 200", [FieldLine("Content-Length", Print(0))];
    OneWordLine();
    OwnLinesPlain(0, true);
    assert lines[1..] == [];
    assert JoinLines(lines) == lines[0] + CRLF;
    assert BareStatus() == line + CRLF + JoinLines(lines) + CRLF + "";
    BlankAfterLines(line, lines, "");
    ReadJoined(line + CRLF, lines, "", NO_HEAD, maxBody);
    AddLengthHeader(NO_HEAD, 0, maxBody);
    assert BareStatus() == line + CRLF + (JoinLines(lines) + CRLF);
    FindCrlfAfterLine(line, JoinLines(lines) + CRLF);
  }

  /** A status line that ends after the code: the reason phrase then runs on past the line end. */
  lemma MissingReason(maxBody: nat)
    ensures var got := ReadChunks("", Searching, [BareStatus()], maxBody);
            got.Some? && got.value.response.statusCode == 200 && !NoCrlf(got.value.response.statusText)
  {
    hide FindCrlf, FindChar, FindBlankLine, Print, Atoi, ReadHead, NoCrlf, FieldLine;
    var raw := BareStatus();
    BareStatusHead(maxBody);
    MissingReasonText(Print(0));
    LengthOfBare();
    assert "" + raw == raw;
    hide BareStatus;
    assert AfterChunk(raw, Searching, maxBody) == Some(Reading(|raw| - 4, Head(Some(0), false, [])));
  }

  lemma LengthOfBare()
    ensures |BareStatus()| == 35
  {
  }
}
