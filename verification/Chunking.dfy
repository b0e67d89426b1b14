/**
  The drain loop over a byte stream, as if no connection ever closed: how the stream was cut into
  reads does not show, exactly when no accepted line is so long that a read can end inside it past the limit.
 */
module Chunking {
  import opened Text
  import opened RequestSyntax
  import opened ParserMachine
  import opened Resumption

  // ----- Rounds of append and drain (src/core/Gateway.cpp:82-118, without closing)

  datatype Drained = Drained(state: ParserState, requests: seq<HttpRequest>, failed: bool)

  /** Calls `parse` until it does not complete a request. */
  function Drain(s: ParserState): (d: Drained)
    requires Valid(s)
    ensures Valid(d.state)
    decreases |s.buffer|
  {
    var r := Resume(s);
    match r.status
    case Complete(req) => var d := Drain(r.state); Drained(d.state, [req] + d.requests, d.failed)
    case Incomplete => Drained(r.state, [], false)
    case Failed(_) => Drained(r.state, [], true)
  }

  // `rejected` records that some call has failed: a 400 was queued and the connection is to close.
  datatype Connection = Connection(parser: ParserState, requests: seq<HttpRequest>, rejected: bool)

  function Receive(c: Connection, chunk: string): (c': Connection)
    requires Valid(c.parser)
    ensures Valid(c'.parser)
  {
    var d := Drain(c.parser.Append(chunk));
    Connection(d.state, c.requests + d.requests, c.rejected || d.failed)
  }

  function ReceiveAll(chunks: seq<string>): (c: Connection)
    ensures Valid(c.parser)
  {
    if chunks == [] then Connection(FreshParser(""), [], false)
    else Receive(ReceiveAll(chunks[..|chunks| - 1]), chunks[|chunks| - 1])
  }

  /** What the rounds come to when nothing ever closes: the requests, the bytes left over, whether any was refused. */
  function Observed(c: Connection): (seq<HttpRequest>, string, bool) {
    (c.requests, c.parser.buffer, c.rejected)
  }

  // ----- The stream without state

  datatype Stream = Stream(requests: seq<HttpRequest>, rest: string, rejected: Option<ParseError>)

  function ReadStream(b: string): Stream
    decreases |b|
  {
    match ParseOne(b)
    case NeedMore => Stream([], b, None)
    case Rejected(error) => Stream([], b, Some(error))
    case Parsed(req, rest) => var s := ReadStream(rest); Stream([req] + s.requests, s.rest, s.rejected)
  }

  predicate Final(rejected: Option<ParseError>) {
    rejected.Some? && !rejected.value.LengthLimit()
  }

  // ----- Lines that no read can make look too long

  predicate ShortFields(b: string)
    decreases |b|
  {
    var e := FindCrlf(b, 0);
    e <= 0 || (e < 32768 && ShortFields(b[e + 2..]))
  }

  predicate ShortHead(b: string) {
    var e := FindCrlf(b, 0);
    e == -1 || (e < 8192 && (ParseRequestLine(b[..e]).Ok? ==> ShortFields(b[e + 2..])))
  }

  /** Every finished request line has at most 8191 bytes and every finished header line at most 32767. */
  predicate ShortLines(b: string)
    decreases |b|
  {
    ShortHead(b) && (ParseOne(b).Parsed? ==> ShortLines(ParseOne(b).rest))
  }

  // ----- What more bytes can change

  lemma FieldsExtend(f: string, ext: string)
    ensures match ReadFields(f, map[], 0)
            case FieldsMore => true
            case FieldsBad(error) => error.LengthLimit() || ReadFields(f + ext, map[], 0) == FieldsBad(error)
            case FieldsDone(h, rest) => ReadFields(f + ext, map[], 0) == FieldsDone(h, rest + ext)
  {
    hide AddLine, ReadFields, ScanHeaders, FindCrlf;
    assert f[0..] == f;
    ScanNow(f, 0, map[], 0);
    ScanIsRead(f, 0, map[], 0, ext);
  }

  lemma ReadAfterExtends(line: RequestLine, f: string, ext: string)
    ensures match ReadAfterLine(line, f, map[], 0)
            case NeedMore => true
            case Rejected(error) => error.LengthLimit() || ReadAfterLine(line, f + ext, map[], 0) == Rejected(error)
            case Parsed(req, rest) => ReadAfterLine(line, f + ext, map[], 0) == Parsed(req, rest + ext)
  {
    hide ReadFields, BodyLength, KeepAlive;
    FieldsExtend(f, ext);
    match ReadFields(f, map[], 0)
    case FieldsMore =>
    case FieldsBad(_) =>
    case FieldsDone(h, rest) => BodyExtends(h, rest, ext);
  }

  lemma ParseOneExtends(b: string, ext: string)
    ensures match ParseOne(b)
            case NeedMore => true
            case Rejected(error) => error.LengthLimit() || ParseOne(b + ext) == Rejected(error)
            case Parsed(req, rest) => ParseOne(b + ext) == Parsed(req, rest + ext)
  {
    hide ParseRequestLine, ReadAfterLine, FindCrlf;
    var e := FindCrlf(b, 0);
    if e != -1 {
      FindCrlfAppend(b, ext, 0);
      assert (b + ext)[..e] == b[..e];
      assert (b + ext)[e + 2..] == b[e + 2..] + ext;
      match ParseRequestLine(b[..e])
      case Err(_) =>
      case Ok(line) => ReadAfterExtends(line, b[e + 2..], ext);
    }
  }

  lemma BodyExtends(h: Headers, rest: string, ext: string)
    ensures BodyLength(h).Ok? && BodyLength(h).value <= |rest| ==>
              var n := BodyLength(h).value;
              (rest + ext)[..n] == rest[..n] && (rest + ext)[n..] == rest[n..] + ext
  {
  }

  /** Reading goes on where it stopped. */
  lemma {:induction false} ReadStreamAppend(b: string, ext: string)
    ensures var d := ReadStream(b);
            var e := ReadStream(d.rest + ext);
            && ReadStream(b + ext) == Stream(d.requests + e.requests, e.rest, e.rejected)
            && (Final(d.rejected) ==> e == Stream([], d.rest + ext, d.rejected))
    decreases |b|
  {
    hide ParseOne;
    ParseOneExtends(b, ext);
    if ParseOne(b).Parsed? { ReadStreamAppend(ParseOne(b).rest, ext); }
  }

  // ----- Draining a coherent parser reads the stream

  lemma {:induction false} DrainReads(s: ParserState)
    requires Coherent(s)
    ensures var d := Drain(s); var r := ReadStream(s.buffer);
            && d.requests == r.requests && d.state.buffer == r.rest && d.failed == r.rejected.Some?
            && (if Final(r.rejected) then Doomed(d.state) else Coherent(d.state))
    decreases |s.buffer|
  {
    hide ParseOne, Resume, Future, Doomed;
    ResumeAgrees(s);
    var r := Resume(s);
    match r.status
    case Complete(_) => DrainReads(r.state);
    case Incomplete =>
    case Failed(error) => if !error.LengthLimit() { RejectionDooms(s); }
  }

  lemma DrainDoomed(s: ParserState)
    requires Doomed(s)
    ensures var d := Drain(s); d.requests == [] && d.state.buffer == s.buffer && Doomed(d.state)
  {
    hide Resume;
    DoomedStaysDoomed(s);
  }

  lemma NothingToRead()
    ensures ParseOne("") == NeedMore
  {
  }

  /** Requests, leftover and liveness of a connection depend on the concatenated bytes only. */
  lemma {:induction false} ReceiveAllReads(chunks: seq<string>)
    ensures var c := ReceiveAll(chunks); var r := ReadStream(Concat(chunks));
            && c.requests == r.requests && c.parser.buffer == r.rest
            && (r.rejected.Some? ==> c.rejected)
            && (if Final(r.rejected) then Doomed(c.parser) else Coherent(c.parser))
  {
    hide ParseOne, Resume, Future, Doomed, Drain;
    if chunks == [] {
      FreshIsCoherent("");
      NothingToRead();
    } else {
      var before, chunk := chunks[..|chunks| - 1], chunks[|chunks| - 1];
      ConcatSnoc(chunks);
      ReceiveAllReads(before);
      var c := ReceiveAll(before);
      ReadStreamAppend(Concat(before), chunk);
      if Final(ReadStream(Concat(before)).rejected) {
        AppendKeepsDoomed(c.parser, chunk);
        DrainDoomed(c.parser.Append(chunk));
      } else {
        AppendKeepsCoherent(c.parser, chunk);
        DrainReads(c.parser.Append(chunk));
      }
    }
  }

  // ----- When an early read is refused although the whole stream is not

  lemma {:induction false} ShortFieldsShrinks(b: string, ext: string)
    requires ShortFields(b + ext)
    ensures ShortFields(b)
    decreases |b|
  {
    hide FindCrlf;
    var e := FindCrlf(b, 0);
    if e <= 0 {
    } else {
      FindCrlfAppend(b, ext, 0);
      assert (b + ext)[e + 2..] == b[e + 2..] + ext;
      ShortFieldsShrinks(b[e + 2..], ext);
    }
  }

  lemma {:induction false} ShortLinesShrinks(b: string, ext: string)
    requires ShortLines(b + ext)
    ensures ShortLines(b)
    decreases |b|
  {
    hide ParseOne, FindCrlf, ParseRequestLine, ShortFields;
    var e := FindCrlf(b, 0);
    if e == -1 {
    } else {
      FindCrlfAppend(b, ext, 0);
      assert (b + ext)[..e] == b[..e];
      assert (b + ext)[e + 2..] == b[e + 2..] + ext;
      if ParseRequestLine(b[..e]).Ok? { ShortFieldsShrinks(b[e + 2..], ext); }
    }
    ParseOneExtends(b, ext);
    if ParseOne(b).Parsed? { ShortLinesShrinks(ParseOne(b).rest, ext); }
  }

  /** A late line end that does come was on a long line; one that never comes stays an error. */
  lemma {:induction false} LateFieldEnd(b: string, h: Headers, c: nat, ext: string)
    requires ReadFields(b, h, c) == FieldsBad(HeadersTooLarge)
    requires ShortFields(b + ext)
    ensures ReadFields(b + ext, h, c).FieldsBad?
    decreases |b|
  {
    hide FindCrlf, AddLine;
    var e := FindCrlf(b, 0);
    if e == -1 {
      var e' := FindCrlf(b + ext, 0);
      assert 0 <= e' < |b| - 1 ==> CrlfAt(b + ext, e') == CrlfAt(b, e');
    } else {
      FindCrlfAppend(b, ext, 0);
      assert (b + ext)[..e] == b[..e];
      assert (b + ext)[e + 2..] == b[e + 2..] + ext;
      match AddLine(h, c, b[..e])
      case Refused(_, _) =>
      case Added(h', c') => LateFieldEnd(b[e + 2..], h', c', ext);
    }
  }

  lemma LateLineEnd(b: string, ext: string)
    requires ParseOne(b).Rejected? && ParseOne(b).error.LengthLimit()
    requires ShortHead(b + ext)
    ensures ParseOne(b + ext).Rejected?
  {
    hide FindCrlf, ParseRequestLine, ReadFields, ShortFields, BodyLength;
    var e := FindCrlf(b, 0);
    if e == -1 {
      var e' := FindCrlf(b + ext, 0);
      assert 0 <= e' < |b| - 1 ==> CrlfAt(b + ext, e') == CrlfAt(b, e');
    } else {
      FindCrlfAppend(b, ext, 0);
      assert (b + ext)[..e] == b[..e];
      assert (b + ext)[e + 2..] == b[e + 2..] + ext;
      match ParseRequestLine(b[..e])
      case Err(_) => RequestLineErrors(b[..e]);
      case Ok(line) => FieldsTooLarge(line, b[e + 2..]); LateFieldEnd(b[e + 2..], map[], 0, ext);
    }
  }

  lemma RequestLineErrors(line: string)
    ensures ParseRequestLine(line).Err? ==> !ParseRequestLine(line).error.LengthLimit()
  {
  }

  lemma FieldsTooLarge(line: RequestLine, b: string)
    ensures ReadAfterLine(line, b, map[], 0).Rejected? && ReadAfterLine(line, b, map[], 0).error.LengthLimit() ==>
              ReadFields(b, map[], 0) == FieldsBad(HeadersTooLarge)
  {
    hide AddLine, BodyLength, FindCrlf, ReadFields;
    match ReadFields(b, map[], 0)
    case FieldsDone(h, _) => BodyLengthIsDeclared(h);
    case FieldsBad(_) => FieldsErrors(b, map[], 0);
    case FieldsMore =>
  }

  lemma {:induction false} FieldsErrors(b: string, h: Headers, c: nat)
    ensures ReadFields(b, h, c).FieldsBad? ==> ReadFields(b, h, c).error != RequestLineTooLong
    decreases |b|
  {
    hide AddLine, FindCrlf;
    var e := FindCrlf(b, 0);
    if e <= 0 {
    } else {
      match AddLine(h, c, b[..e])
      case Refused(_, _) => RefusalRepeats(h, c, b[..e]);
      case Added(h', c') => FieldsErrors(b[e + 2..], h', c');
    }
  }

  lemma {:induction false} LateStream(b: string, ext: string)
    requires ReadStream(b).rejected.Some?
    requires ShortLines(b + ext)
    ensures ReadStream(b + ext).rejected.Some? && ReadStream(b + ext).requests == ReadStream(b).requests
    decreases |b|
  {
    hide ParseOne, ShortHead;
    ParseOneExtends(b, ext);
    match ParseOne(b)
    case NeedMore =>
    case Parsed(_, rest) => LateStream(rest, ext);
    case Rejected(error) => if error.LengthLimit() { LateLineEnd(b, ext); }
  }

  lemma {:induction false} EarlyRefusal(chunks: seq<string>)
    requires ReceiveAll(chunks).rejected
    requires ShortLines(Concat(chunks))
    ensures ReadStream(Concat(chunks)).rejected.Some?
  {
    hide ParseOne, Resume, Drain, ShortHead, Future, Doomed;
    if chunks == [] {
    } else {
      var before, chunk := chunks[..|chunks| - 1], chunks[|chunks| - 1];
      ConcatSnoc(chunks);
      var c := ReceiveAll(before);
      ReceiveAllReads(before);
      ShortLinesShrinks(Concat(before), chunk);
      ReadStreamAppend(Concat(before), chunk);
      if c.rejected {
        EarlyRefusal(before);
        LateStream(Concat(before), chunk);
      } else {
        AppendKeepsCoherent(c.parser, chunk);
        DrainReads(c.parser.Append(chunk));
      }
    }
  }

  // ----- A long line can always be cut so that it is refused

  lemma {:induction false} CutLongField(b: string, h: Headers, c: nat) returns (k: nat)
    requires !ShortFields(b) && !ReadFields(b, h, c).FieldsBad?
    ensures k <= |b| && ReadFields(b[..k], h, c).FieldsBad?
    decreases |b|
  {
    hide FindCrlf, AddLine, ReadFields, ShortFields;
    var e := FindCrlf(b, 0);
    if e >= MAX_HEADER_BYTES {
      k := e + 1;
      LongLineIsBad(b, h, c);
    } else {
      LaterLineIsLong(b, h, c);
      var a := AddLine(h, c, b[..e]);
      k := CutLongField(b[e + 2..], a.headers, a.count);
      k := k + e + 2;
      CutKeepsLine(b, k);
      ReadStep(b[..k], h, c);
    }
  }

  lemma LaterLineIsLong(b: string, h: Headers, c: nat)
    requires !ShortFields(b) && !ReadFields(b, h, c).FieldsBad? && FindCrlf(b, 0) < MAX_HEADER_BYTES
    ensures var e := FindCrlf(b, 0);
            && 0 < e && e + 2 <= |b| && AddLine(h, c, b[..e]).Added? && !ShortFields(b[e + 2..])
            && var a := AddLine(h, c, b[..e]); !ReadFields(b[e + 2..], a.headers, a.count).FieldsBad?
  {
    hide FindCrlf, AddLine;
  }

  lemma LongLineIsBad(b: string, h: Headers, c: nat)
    requires FindCrlf(b, 0) >= MAX_HEADER_BYTES
    ensures ReadFields(b[..FindCrlf(b, 0) + 1], h, c).FieldsBad?
  {
    hide FindCrlf, AddLine;
    NoEndBefore(b);
  }

  lemma NoEndBefore(b: string)
    requires FindCrlf(b, 0) != -1
    ensures FindCrlf(b[..FindCrlf(b, 0) + 1], 0) == -1
  {
    hide FindCrlf;
    var e := FindCrlf(b, 0);
    var r := FindCrlf(b[..e + 1], 0);
    assert 0 <= r < e ==> CrlfAt(b[..e + 1], r) == CrlfAt(b, r);
  }

  lemma CutKeepsLine(b: string, k: nat)
    requires FindCrlf(b, 0) != -1 && FindCrlf(b, 0) + 2 <= k <= |b|
    ensures FindCrlf(b[..k], 0) == FindCrlf(b, 0)
    ensures b[..k][..FindCrlf(b, 0)] == b[..FindCrlf(b, 0)]
    ensures b[..k][FindCrlf(b, 0) + 2..] == b[FindCrlf(b, 0) + 2..][..k - FindCrlf(b, 0) - 2]
  {
    hide FindCrlf;
    var e := FindCrlf(b, 0);
    assert CrlfAt(b[..k], e);
    var r := FindCrlf(b[..k], 0);
    assert CrlfAt(b, r);
  }

  lemma CutLongHead(b: string) returns (k: nat)
    requires !ShortHead(b) && !ParseOne(b).Rejected?
    ensures k <= |b| && ParseOne(b[..k]).Rejected?
  {
    hide FindCrlf, ParseRequestLine, ReadFields, ShortFields, BodyLength;
    var e := FindCrlf(b, 0);
    if e >= MAX_REQUEST_LINE {
      k := e + 1;
      NoEndBefore(b);
    } else {
      k := CutLongField(b[e + 2..], map[], 0);
      k := k + e + 2;
      CutKeepsLine(b, k);
    }
  }

  lemma {:induction false} CutLongLine(b: string) returns (k: nat)
    requires !ShortLines(b) && ReadStream(b).rejected.None?
    ensures k <= |b| && ReadStream(b[..k]).rejected.Some?
    decreases |b|
  {
    hide ParseOne, ShortHead;
    if !ShortHead(b) {
      k := CutLongHead(b);
    } else {
      var rest := ParseOne(b).rest;
      k := CutLongLine(rest);
      var n := |b| - |rest|;
      ParsedTakesPrefix(b);
      ParseOneExtends(b[..n], rest[..k]);
      k := k + n;
      assert b[..k] == b[..n] + rest[..k - n];
      ParseOneExtends(b[..n], rest);
      assert ParseOne(b[..k]).rest == rest[..k - n];
    }
  }

  lemma BodyTakesPrefix(line: RequestLine, h: Headers, b: string)
    requires ReadBody(line, h, b).Parsed?
    ensures var r := ReadBody(line, h, b); var n := |b| - |r.rest|;
            b == b[..n] + r.rest && ReadBody(line, h, b[..n]) == Parsed(r.req, "")
  {
    hide BodyLength, KeepAlive;
    var n := BodyLength(h).value;
    assert b[..n][..n] == b[..n];
  }

  lemma FieldsThenBody(line: RequestLine, b: string)
    requires ReadAfterLine(line, b, map[], 0).Parsed?
    ensures var r := ReadAfterLine(line, b, map[], 0); var n := |b| - |r.rest|;
            && b == b[..n] + r.rest && ReadAfterLine(line, b[..n], map[], 0) == Parsed(r.req, "")
            && n >= 2
  {
    hide ReadFields, ReadBody;
    var done := ReadFields(b, map[], 0);
    var m := |b| - |done.rest|;
    var k := |done.rest| - |ReadBody(line, done.headers, done.rest).rest|;
    FieldsTakePrefix(b, map[], 0);
    BodyTakesPrefix(line, done.headers, done.rest);
    FieldsExtend(b[..m], done.rest[..k]);
    assert b[..m] + done.rest[..k] == b[..m + k];
    assert "" + done.rest[..k] == done.rest[..k];
  }

  /** The bytes of one message are a prefix, and that prefix alone is already a message. */
  lemma ParsedTakesPrefix(b: string)
    requires ParseOne(b).Parsed?
    ensures var n := |b| - |ParseOne(b).rest|;
            b == b[..n] + ParseOne(b).rest && ParseOne(b[..n]) == Parsed(ParseOne(b).req, "")
  {
    hide FindCrlf, ParseRequestLine, ReadAfterLine;
    var e := FindCrlf(b, 0);
    var n := |b| - |ParseOne(b).rest|;
    FieldsThenBody(ParseRequestLine(b[..e]).value, b[e + 2..]);
    SuffixOfSuffix(b, e + 2, ParseOne(b).rest);
    CutKeepsLine(b, n);
  }

  lemma {:induction false} FieldsTakePrefix(b: string, h: Headers, c: nat)
    requires ReadFields(b, h, c).FieldsDone?
    ensures var r := ReadFields(b, h, c); var n := |b| - |r.rest|;
            n >= 2 && b == b[..n] + r.rest && ReadFields(b[..n], h, c) == FieldsDone(r.headers, "")
    decreases |b|
  {
    hide FindCrlf, AddLine;
    var e := FindCrlf(b, 0);
    var n := |b| - |ReadFields(b, h, c).rest|;
    if e == 0 {
      assert b[2..] == b[2..][..0] + b[2..];
    } else {
      var a := AddLine(h, c, b[..e]);
      FieldsTakePrefix(b[e + 2..], a.headers, a.count);
    }
    SuffixOfSuffix(b, e + 2, ReadFields(b, h, c).rest);
    CutKeepsLine(b, n);
  }

  lemma SuffixOfSuffix(b: string, k: nat, rest: string)
    requires k <= |b| && |rest| <= |b| - k
    requires b[k..] == b[k..][..|b| - k - |rest|] + rest
    ensures b == b[..|b| - |rest|] + rest
  {
  }

  // ----- The theorem

  ghost predicate ChunkingInvisible(b: string) {
    forall chunks: seq<string> :: Concat(chunks) == b ==> Observed(ReceiveAll(chunks)) == Observed(ReceiveAll([b]))
  }

  lemma OneChunk(b: string)
    ensures Concat([b]) == b
    ensures ReceiveAll([b]).rejected == ReadStream(b).rejected.Some?
  {
    hide Drain, ReadStream, Coherent;
    FreshIsCoherent("");
    AppendKeepsCoherent(FreshParser(""), b);
    var s := FreshParser("").Append(b);
    assert s.buffer == b;
    DrainReads(s);
    assert [b][..0] == [];
    assert ReceiveAll([b]) == Receive(ReceiveAll([]), b);
  }

  /**
    Every way of cutting a stream into reads gives the requests, the leftover bytes and the
    refusal of a single read, if and only if the single read is refused or all its lines are short.
   */
  lemma ChunkingInvisibleIff(b: string)
    ensures ChunkingInvisible(b) <==> ReceiveAll([b]).rejected || ShortLines(b)
  {
    hide ReceiveAll, ReadStream, ShortLines, Concat, Doomed, Coherent;
    OneChunk(b);
    if ReceiveAll([b]).rejected || ShortLines(b) {
      forall chunks: seq<string> | Concat(chunks) == b
        ensures Observed(ReceiveAll(chunks)) == Observed(ReceiveAll([b]))
      {
        ReceiveAllReads(chunks);
        ReceiveAllReads([b]);
        if ReceiveAll(chunks).rejected && ShortLines(b) { EarlyRefusal(chunks); }
      }
    } else {
      var k := CutLongLine(b);
      CutIsRefused(b, k);
    }
  }

  lemma CutIsRefused(b: string, k: nat)
    requires k <= |b| && ReadStream(b[..k]).rejected.Some?
    ensures Concat([b[..k], b[k..]]) == b
    ensures ReceiveAll([b[..k], b[k..]]).rejected
  {
    hide Drain, ReadStream;
    var two := [b[..k], b[k..]];
    assert two[..1] == [b[..k]];
    OneChunk(b[..k]);
    ConcatSnoc(two);
    assert ReceiveAll(two) == Receive(ReceiveAll(two[..1]), b[k..]);
  }
}
