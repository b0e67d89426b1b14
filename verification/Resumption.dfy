/**
  Resuming is invisible: a saved state stands for the bytes already read, whatever arrives
  later, and a message once rejected is never accepted.
 */
module Resumption {
  import opened Text
  import opened RequestSyntax
  import opened ParserMachine

  // ----- What a saved state promises about every continuation

  /** The outcome the saved fields lead to once `ext` has also arrived. */
  function Future(s: ParserState, ext: string): Outcome
    requires Valid(s)
  {
    var rest := s.buffer[s.consumed..] + ext;
    match s.phase
    case AtRequestLine => ParseOne(rest)
    case AtHeaders => ReadAfterLine(s.Line(), rest, s.headers, s.headerCount)
    case AtBody => TakeBody(s, rest)
  }

  function TakeBody(s: ParserState, rest: string): Outcome {
    if |rest| < s.contentLength then NeedMore
    else Parsed(MakeRequest(s.Line(), s.headers, rest[..s.contentLength]), rest[s.contentLength..])
  }

  /** Parsing the whole buffer from its first byte and going on from the saved fields agree on every continuation. */
  ghost predicate Coherent(s: ParserState) {
    && Valid(s)
    && (s.phase == AtRequestLine ==> s.headers == map[] && s.headerCount == 0)
    && (s.phase != AtBody ==> s.contentLength == 0)
    && forall ext: string :: ParseOne(s.buffer + ext) == Future(s, ext)
  }

  /** A status and the buffer it leaves say what an outcome of `ParseOne` says. */
  predicate Agrees(r: Step, o: Outcome) {
    match o
    case NeedMore => r.status == Incomplete
    case Rejected(error) => r.status == Failed(error)
    case Parsed(req, rest) => r.status == Complete(req) && r.state == FreshParser(rest)
  }

  lemma FreshIsCoherent(b: string)
    ensures Coherent(FreshParser(b))
  {
  }

  lemma AppendKeepsCoherent(s: ParserState, data: string)
    requires Coherent(s)
    ensures Coherent(s.Append(data))
  {
    hide ParseOne, ReadAfterLine;
    var s' := s.Append(data);
    forall ext: string
      ensures ParseOne(s'.buffer + ext) == Future(s', ext)
    {
      assert s'.buffer + ext == s.buffer + (data + ext);
      assert ParseOne(s.buffer + (data + ext)) == Future(s, data + ext);
      assert s'.buffer[s'.consumed..] + ext == s.buffer[s.consumed..] + (data + ext);
    }
  }

  // ----- Facts about single lines

  /** A line is never refused for its length, and a refused line is refused again. */
  lemma RefusalRepeats(h: Headers, c: nat, line: string)
    ensures var r := AddLine(h, c, line);
            r.Refused? ==> !r.error.LengthLimit() && AddLine(h, r.count, line).Refused?
  {
  }

  lemma BodyLengthIsDeclared(h: Headers)
    ensures match BodyLength(h)
            case Ok(n) => n == DeclaredLength(h, 0)
            case Err(error) => !error.LengthLimit()
  {
  }

  lemma AddLineKeepsBadFraming(h: Headers, c: nat, line: string)
    requires BodyLength(h).Err?
    ensures AddLine(h, c, line).Added? ==> BodyLength(AddLine(h, c, line).headers).Err?
  {
  }

  // ----- Scanning from a saved position is reading the suffix

  /** What the scan of a buffer says about reading the same bytes followed by anything. */
  function ScanFuture(scan: Scan, buffer: string, ext: string): FieldsResult
    requires scan.pos <= |buffer|
  {
    match scan
    case ScanMore(p, h, c) => ReadFields(buffer[p..] + ext, h, c)
    case ScanFail(error, p, h, c) =>
      if error.LengthLimit() then ReadFields(buffer[p..] + ext, h, c) else FieldsBad(error)
    case ScanEnd(p, h, _) => FieldsDone(h, buffer[p..] + ext)
  }

  lemma ScanStep(buffer: string, pos: nat, h: Headers, c: nat)
    requires pos <= |buffer| && FindCrlf(buffer, pos) > pos
    requires AddLine(h, c, buffer[pos..FindCrlf(buffer, pos)]).Added?
    ensures var eol := FindCrlf(buffer, pos); var a := AddLine(h, c, buffer[pos..eol]);
            ScanHeaders(buffer, pos, h, c) == ScanHeaders(buffer, eol + 2, a.headers, a.count)
  {
    hide FindCrlf, AddLine;
  }

  lemma ReadStep(b: string, h: Headers, c: nat)
    requires FindCrlf(b, 0) > 0 && AddLine(h, c, b[..FindCrlf(b, 0)]).Added?
    ensures var e := FindCrlf(b, 0); var a := AddLine(h, c, b[..e]);
            ReadFields(b, h, c) == ReadFields(b[e + 2..], a.headers, a.count)
  {
    hide FindCrlf, AddLine;
  }

  /** The cases in which the scan stops at this line. */
  lemma ScanStops(buffer: string, pos: nat, h: Headers, c: nat, ext: string)
    requires pos <= |buffer|
    requires FindCrlf(buffer, pos) > pos ==> AddLine(h, c, buffer[pos..FindCrlf(buffer, pos)]).Refused?
    ensures var eol, scan := FindCrlf(buffer, pos), ScanHeaders(buffer, pos, h, c);
            ScanFuture(scan, buffer, ext) ==
            if eol == -1 then ReadFields(buffer[pos..] + ext, h, c)
            else if eol == pos then FieldsDone(h, buffer[eol + 2..] + ext)
            else FieldsBad(AddLine(h, c, buffer[pos..eol]).error)
  {
    hide FindCrlf, AddLine, ReadFields;
    var eol := FindCrlf(buffer, pos);
    if eol > pos { RefusalRepeats(h, c, buffer[pos..eol]); }
  }

  lemma ReadStops(b: string, h: Headers, c: nat)
    requires FindCrlf(b, 0) >= 0 && (FindCrlf(b, 0) > 0 ==> AddLine(h, c, b[..FindCrlf(b, 0)]).Refused?)
    ensures var e := FindCrlf(b, 0);
            ReadFields(b, h, c) == if e == 0 then FieldsDone(h, b[2..]) else FieldsBad(AddLine(h, c, b[..e]).error)
  {
    hide FindCrlf, AddLine;
  }

  lemma SameLine(buffer: string, pos: nat, ext: string)
    requires pos <= |buffer| && FindCrlf(buffer, pos) != -1
    ensures var eol, b := FindCrlf(buffer, pos), buffer[pos..] + ext;
            && FindCrlf(b, 0) == eol - pos && eol >= pos
            && b[..eol - pos] == buffer[pos..eol] && b[eol - pos + 2..] == buffer[eol + 2..] + ext
  {
    hide FindCrlf;
    FindCrlfSuffix(buffer, pos);
    FindCrlfAppend(buffer[pos..], ext, 0);
  }

  lemma {:induction false} ScanIsRead(buffer: string, pos: nat, h: Headers, c: nat, ext: string)
    requires pos <= |buffer|
    ensures ReadFields(buffer[pos..] + ext, h, c) == ScanFuture(ScanHeaders(buffer, pos, h, c), buffer, ext)
    decreases |buffer| - pos
  {
    hide AddLine, FindCrlf, ScanHeaders, ReadFields, ScanFuture;
    var eol, b := FindCrlf(buffer, pos), buffer[pos..] + ext;
    if eol == -1 {
      ScanStops(buffer, pos, h, c, ext);
    } else {
      SameLine(buffer, pos, ext);
      var a := AddLine(h, c, buffer[pos..eol]);
      if eol == pos || a.Refused? {
        ScanStops(buffer, pos, h, c, ext);
        ReadStops(b, h, c);
      } else {
        ScanStep(buffer, pos, h, c);
        ReadStep(b, h, c);
        ScanIsRead(buffer, eol + 2, a.headers, a.count, ext);
      }
    }
  }

  /** A scan and a reading of the same bytes, with nothing more to come, say the same. */
  predicate SameVerdict(scan: Scan, buffer: string, fields: FieldsResult)
    requires scan.pos <= |buffer|
  {
    match scan
    case ScanMore(_, _, _) => fields == FieldsMore
    case ScanFail(error, _, _, _) => fields == FieldsBad(error)
    case ScanEnd(p, h, _) => fields == FieldsDone(h, buffer[p..])
  }

  lemma ScanStopsNow(buffer: string, pos: nat, h: Headers, c: nat)
    requires pos <= |buffer|
    requires FindCrlf(buffer, pos) > pos ==> AddLine(h, c, buffer[pos..FindCrlf(buffer, pos)]).Refused?
    ensures SameVerdict(ScanHeaders(buffer, pos, h, c), buffer, ReadFields(buffer[pos..], h, c))
  {
    hide FindCrlf, AddLine;
    var eol := FindCrlf(buffer, pos);
    FindCrlfSuffix(buffer, pos);
    if eol != -1 {
      hide ReadFields;
      SameLine(buffer, pos, "");
      assert buffer[pos..] + "" == buffer[pos..] && buffer[eol + 2..] + "" == buffer[eol + 2..];
      ReadStops(buffer[pos..], h, c);
    }
  }

  lemma {:induction false} ScanNow(buffer: string, pos: nat, h: Headers, c: nat)
    requires pos <= |buffer|
    ensures SameVerdict(ScanHeaders(buffer, pos, h, c), buffer, ReadFields(buffer[pos..], h, c))
    decreases |buffer| - pos
  {
    hide AddLine, FindCrlf, ScanHeaders, ReadFields, SameVerdict;
    var eol := FindCrlf(buffer, pos);
    if eol <= pos || AddLine(h, c, buffer[pos..eol]).Refused? {
      ScanStopsNow(buffer, pos, h, c);
    } else {
      var a := AddLine(h, c, buffer[pos..eol]);
      SameLine(buffer, pos, "");
      assert buffer[pos..] + "" == buffer[pos..] && buffer[eol + 2..] + "" == buffer[eol + 2..];
      ScanStep(buffer, pos, h, c);
      ReadStep(buffer[pos..], h, c);
      ScanNow(buffer, eol + 2, a.headers, a.count);
    }
  }

  // ----- One call from a coherent state

  predicate Harmless(status: Status) {
    !status.Failed? || status.error.LengthLimit()
  }

  lemma BodyResumes(s: ParserState)
    requires Coherent(s) && s.phase == AtBody
    ensures Agrees(Resume(s), ParseOne(s.buffer))
    ensures Coherent(Resume(s).state)
  {
    hide ParseOne, KeepAlive, ResumeHeaders, ResumeRequestLine;
    var rest := s.buffer[s.consumed..];
    assert s.buffer + "" == s.buffer && rest + "" == rest;
    assert ParseOne(s.buffer + "") == Future(s, "");
    if |rest| >= s.contentLength {
      var end := s.consumed + s.contentLength;
      assert rest[..s.contentLength] == s.buffer[s.consumed..end];
      assert rest[s.contentLength..] == s.buffer[end..];
      FreshIsCoherent(s.buffer[end..]);
    }
  }

  lemma HeadersResume(s: ParserState)
    requires Coherent(s) && s.phase == AtHeaders
    ensures Agrees(Resume(s), ParseOne(s.buffer))
    ensures Harmless(Resume(s).status) ==> Coherent(Resume(s).state)
  {
    hide ReadFields, ScanHeaders, BodyLength, IsChunked, KeepAlive, ParseOne;
    var rest := s.buffer[s.consumed..];
    assert s.buffer + "" == s.buffer && rest + "" == rest;
    assert ParseOne(s.buffer + "") == Future(s, "");
    ScanNow(s.buffer, s.consumed, s.headers, s.headerCount);
    var scan := ScanHeaders(s.buffer, s.consumed, s.headers, s.headerCount);
    var s1 := s.(headers := scan.headers, headerCount := scan.count, consumed := scan.pos);
    BodyLengthIsDeclared(s1.headers);
    if !scan.ScanEnd? {
      if Harmless(Resume(s).status) {
        forall ext: string
          ensures ParseOne(s1.buffer + ext) == Future(s1, ext)
        {
          assert ParseOne(s.buffer + ext) == Future(s, ext);
          ScanIsRead(s.buffer, s.consumed, s.headers, s.headerCount, ext);
        }
      }
    } else if BodyLength(s1.headers).Ok? {
      var s2 := s1.(contentLength := DeclaredLength(s1.headers, 0), chunked := IsChunked(s1.headers), phase := AtBody);
      assert Resume(s) == ResumeBody(s2);
      forall ext: string
        ensures ParseOne(s2.buffer + ext) == Future(s2, ext)
      {
        assert ParseOne(s.buffer + ext) == Future(s, ext);
        ScanIsRead(s.buffer, s.consumed, s.headers, s.headerCount, ext);
      }
      BodyResumes(s2);
    }
  }

  lemma RequestLineResumes(s: ParserState)
    requires Coherent(s) && s.phase == AtRequestLine
    ensures Agrees(Resume(s), ParseOne(s.buffer))
    ensures Harmless(Resume(s).status) ==> Coherent(Resume(s).state)
  {
    hide ParseRequestLine, ReadAfterLine, ResumeHeaders;
    var eol := FindCrlf(s.buffer, 0);
    if eol != -1 && ParseRequestLine(s.buffer[..eol]).Ok? {
      var l := ParseRequestLine(s.buffer[..eol]).value;
      var s1 := s.(phase := AtHeaders, consumed := eol + 2,
                   verb := l.verb, path := l.path, query := l.query, version := l.version);
      forall ext: string
        ensures ParseOne(s1.buffer + ext) == Future(s1, ext)
      {
        FindCrlfAppend(s.buffer, ext, 0);
        assert (s.buffer + ext)[..eol] == s.buffer[..eol];
        assert (s.buffer + ext)[eol + 2..] == s.buffer[eol + 2..] + ext;
      }
      HeadersResume(s1);
    }
  }

  /** One call from a coherent state returns what parsing the buffer from scratch returns. */
  lemma ResumeAgrees(s: ParserState)
    requires Coherent(s)
    ensures Agrees(Resume(s), ParseOne(s.buffer))
    ensures Harmless(Resume(s).status) ==> Coherent(Resume(s).state)
  {
    match s.phase
    case AtRequestLine => RequestLineResumes(s);
    case AtHeaders => HeadersResume(s);
    case AtBody => BodyResumes(s);
  }

  // ----- States no continuation can complete

  predicate BadLineAt(s: ParserState) {
    && s.consumed <= |s.buffer|
    && var eol := FindCrlf(s.buffer, s.consumed);
       && eol != -1 && eol != s.consumed
       && AddLine(s.headers, s.headerCount, s.buffer[s.consumed..eol]).Refused?
  }

  predicate Doomed(s: ParserState) {
    && Valid(s)
    && match s.phase
       case AtRequestLine =>
         FindCrlf(s.buffer, 0) != -1 && ParseRequestLine(s.buffer[..FindCrlf(s.buffer, 0)]).Err?
       case AtHeaders => BadLineAt(s) || BodyLength(s.headers).Err?
       case AtBody => false
  }

  lemma AppendKeepsDoomed(s: ParserState, data: string)
    requires Doomed(s)
    ensures Doomed(s.Append(data))
  {
    hide FindCrlf, AddLine, ParseRequestLine, BodyLength;
    var eol := FindCrlf(s.buffer, s.consumed);
    if eol != -1 {
      FindCrlfAppend(s.buffer, data, s.consumed);
      assert (s.buffer + data)[s.consumed..eol] == s.buffer[s.consumed..eol];
      assert (s.buffer + data)[..eol] == s.buffer[..eol];
    }
  }

  /** Header lines read after bad framing cannot repair it. */
  lemma {:induction false} ScanKeepsBadFraming(buffer: string, pos: nat, h: Headers, c: nat)
    requires pos <= |buffer|
    requires BodyLength(h).Err?
    ensures BodyLength(ScanHeaders(buffer, pos, h, c).headers).Err?
    decreases |buffer| - pos
  {
    hide AddLine, BodyLength, FindCrlf;
    var eol := FindCrlf(buffer, pos);
    if eol == -1 || eol == pos {
    } else {
      match AddLine(h, c, buffer[pos..eol])
      case Refused(_, _) =>
      case Added(h', c') =>
        AddLineKeepsBadFraming(h, c, buffer[pos..eol]);
        ScanKeepsBadFraming(buffer, eol + 2, h', c');
    }
  }

  lemma DoomedStaysDoomed(s: ParserState)
    requires Doomed(s)
    ensures !Resume(s).status.Complete?
    ensures Doomed(Resume(s).state)
  {
    hide FindCrlf, AddLine, ParseRequestLine, BodyLength, IsChunked;
    if s.phase == AtHeaders && BadLineAt(s) {
      RefusalRepeats(s.headers, s.headerCount, s.buffer[s.consumed..FindCrlf(s.buffer, s.consumed)]);
    } else if s.phase == AtHeaders {
      ScanKeepsBadFraming(s.buffer, s.consumed, s.headers, s.headerCount);
    }
  }

  /** A scan that fails for another reason than length stops in front of a line it will refuse again. */
  lemma {:induction false} ScanStopsAtBadLine(buffer: string, pos: nat, h: Headers, c: nat)
    requires pos <= |buffer|
    ensures var r := ScanHeaders(buffer, pos, h, c);
            r.ScanFail? && !r.error.LengthLimit() ==>
              && FindCrlf(buffer, r.pos) != -1 && FindCrlf(buffer, r.pos) != r.pos
              && AddLine(r.headers, r.count, buffer[r.pos..FindCrlf(buffer, r.pos)]).Refused?
    decreases |buffer| - pos
  {
    hide AddLine, FindCrlf;
    var eol := FindCrlf(buffer, pos);
    if eol == -1 || eol == pos {
    } else {
      match AddLine(h, c, buffer[pos..eol])
      case Refused(_, _) => RefusalRepeats(h, c, buffer[pos..eol]);
      case Added(h', c') => ScanStopsAtBadLine(buffer, eol + 2, h', c');
    }
  }

  lemma RejectionDooms(s: ParserState)
    requires Valid(s)
    requires !Harmless(Resume(s).status)
    ensures Doomed(Resume(s).state)
  {
    hide AddLine, ParseRequestLine, BodyLength, ScanHeaders, FindCrlf, KeepAlive, IsChunked;
    if s.phase == AtHeaders {
      ScanStopsAtBadLine(s.buffer, s.consumed, s.headers, s.headerCount);
    } else if s.phase == AtRequestLine {
      var eol := FindCrlf(s.buffer, 0);
      if ParseRequestLine(s.buffer[..eol]).Ok? {
        ScanStopsAtBadLine(s.buffer, eol + 2, s.headers, s.headerCount);
      }
    }
  }

  // ----- Whole runs of append and parse

  datatype Action = Feed(data: string) | Parse

  datatype Run = Run(state: ParserState, statuses: seq<Status>)

  function RunFrom(s: ParserState, actions: seq<Action>): (r: Run)
    requires Valid(s)
    ensures Valid(r.state)
    decreases |actions|
  {
    if actions == [] then Run(s, [])
    else match actions[0]
      case Feed(data) => RunFrom(s.Append(data), actions[1..])
      case Parse =>
        var step := Resume(s);
        var r := RunFrom(step.state, actions[1..]);
        Run(r.state, [step.status] + r.statuses)
  }

  predicate AllHarmless(statuses: seq<Status>) {
    forall i :: 0 <= i < |statuses| ==> Harmless(statuses[i])
  }

  lemma {:induction false} HarmlessRunIsCoherent(s: ParserState, actions: seq<Action>)
    requires Coherent(s)
    requires AllHarmless(RunFrom(s, actions).statuses)
    ensures Coherent(RunFrom(s, actions).state)
    decreases |actions|
  {
    hide Resume, Future, ParseOne;
    if actions == [] {
    } else {
      match actions[0]
      case Feed(data) =>
        AppendKeepsCoherent(s, data);
        HarmlessRunIsCoherent(s.Append(data), actions[1..]);
      case Parse =>
        var step := Resume(s);
        var rest := RunFrom(step.state, actions[1..]).statuses;
        var all := RunFrom(s, actions).statuses;
        assert all[0] == step.status;
        assert forall i :: 0 <= i < |rest| ==> rest[i] == all[i + 1];
        ResumeAgrees(s);
        HarmlessRunIsCoherent(step.state, actions[1..]);
    }
  }

  /**
    After any run in which no message was rejected (errors for a line end that is late are
    allowed), the next call returns the status, the request and the remainder that a fresh
    parser returns on the same buffer.
   */
  lemma ResumptionRefinesRestart(actions: seq<Action>)
    requires AllHarmless(RunFrom(FreshParser(""), actions).statuses)
    ensures var s := RunFrom(FreshParser(""), actions).state;
            && Agrees(Resume(s), ParseOne(s.buffer))
            && Resume(s).status == Resume(FreshParser(s.buffer)).status
            && Resume(s).state.buffer == Resume(FreshParser(s.buffer)).state.buffer
  {
    FreshIsCoherent("");
    HarmlessRunIsCoherent(FreshParser(""), actions);
    var s := RunFrom(FreshParser(""), actions).state;
    ResumeAgrees(s);
    FreshIsCoherent(s.buffer);
    ResumeAgrees(FreshParser(s.buffer));
  }

  lemma {:induction false} DoomedNeverCompletes(s: ParserState, actions: seq<Action>)
    requires Doomed(s)
    ensures forall i :: 0 <= i < |RunFrom(s, actions).statuses| ==> !RunFrom(s, actions).statuses[i].Complete?
    decreases |actions|
  {
    hide Resume, BadLineAt, BodyLength, ParseRequestLine, FindCrlf;
    if actions == [] {
    } else {
      match actions[0]
      case Feed(data) =>
        AppendKeepsDoomed(s, data);
        DoomedNeverCompletes(s.Append(data), actions[1..]);
      case Parse =>
        DoomedStaysDoomed(s);
        DoomedNeverCompletes(Resume(s).state, actions[1..]);
    }
  }

  /** Once a run has rejected a message for anything but a length limit, no later call completes a request. */
  lemma {:induction false} RejectionIsPermanent(s: ParserState, actions: seq<Action>, i: nat, j: nat)
    requires Valid(s)
    requires i < j < |RunFrom(s, actions).statuses|
    requires !Harmless(RunFrom(s, actions).statuses[i])
    ensures !RunFrom(s, actions).statuses[j].Complete?
    decreases |actions|
  {
    hide Resume;
    match actions[0]
    case Feed(data) => RejectionIsPermanent(s.Append(data), actions[1..], i, j);
    case Parse =>
      if i == 0 {
        RejectionDooms(s);
        DoomedNeverCompletes(Resume(s).state, actions[1..]);
      } else {
        RejectionIsPermanent(Resume(s).state, actions[1..], i - 1, j - 1);
      }
  }
}
