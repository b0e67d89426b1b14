/** The request line and the header lines the parser accepts, written out as text. */
module LineForms {
  import opened Text
  import opened Decimal
  import opened RequestSyntax
  import opened BackendRequest
  import opened RequestRoundTrip
  import opened Fields
  import opened Grammar

  // ----- Request line

  predicate PathText(path: string) {
    path != "" && path[0] == '/' && !ContainsAny(path, {'\r', '\n', '?'})
  }

  predicate TargetText(target: string, path: string, query: string) {
    && PathText(path) && !ContainsAny(query, {'\r', '\n'})
    && ((target == path && query == "") || target == path + "?" + query)
  }

  predicate MethodText(verb: string) {
    verb != "" && forall i :: 0 <= i < |verb| ==> 'A' <= verb[i] <= 'Z' || '0' <= verb[i] <= '9' || verb[i] in {'-', '_'}
  }

  /** A method, a target and a version, one space between them; the target is a path with or without a query. */
  ghost predicate RequestLineText(line: string, l: RequestLine) {
    && MethodText(l.verb) && (l.version == "HTTP/1.1" || l.version == "HTTP/1.0")
    && exists target :: TargetText(target, l.path, l.query) && line == l.verb + " " + target + " " + l.version
  }

  lemma TextIsTarget(target: string, path: string, query: string)
    requires TargetText(target, path, query)
    ensures ValidTarget(target) && SplitTarget(target) == (path, query)
  {
    hide FindChar;
    assert forall i :: 0 <= i < |path| ==> target[i] == path[i] && path[i] !in {'\r', '\n', '?'};
    if target != path {
      assert target[|path|] == '?';
      assert forall i :: |path| < i < |target| ==> target[i] == query[i - |path| - 1];
      var q := FindChar(target, '?');
      assert q == |path|;
      assert target[..q] == path && target[q + 1..] == query;
    }
  }

  lemma TargetIsText(target: string)
    requires ValidTarget(target)
    ensures TargetText(target, SplitTarget(target).0, SplitTarget(target).1)
  {
    hide FindChar;
    var q := FindChar(target, '?');
    assert q != -1 ==> target == target[..q] + "?" + target[q + 1..];
  }

  lemma TargetForm(target: string, path: string, query: string)
    ensures ValidTarget(target) && SplitTarget(target) == (path, query) <==> TargetText(target, path, query)
  {
    hide ValidTarget, SplitTarget, TargetText;
    if TargetText(target, path, query) { TextIsTarget(target, path, query); }
    if ValidTarget(target) { TargetIsText(target); }
  }

  lemma VersionHasNoSpace(version: string)
    requires ValidVersion(version)
    ensures forall i :: 0 <= i < |version| ==> version[i] != ' '
  {
  }

  /** The request lines accepted are exactly those texts, read as their parts. */
  lemma RequestLineForm(line: string, l: RequestLine)
    ensures ParseRequestLine(line) == Ok(l) <==> RequestLineText(line, l)
  {
    hide FindChar, RFindChar, ValidTarget, SplitTarget, TargetText;
    if ParseRequestLine(line) == Ok(l) {
      var raw := SplitRequestLine(line).value;
      TargetForm(raw.target, l.path, l.query);
      assert line == raw.verb + " " + raw.target + " " + raw.version;
    }
    if RequestLineText(line, l) {
      hide SplitRequestLine;
      var target :| TargetText(target, l.path, l.query) && line == l.verb + " " + target + " " + l.version;
      TargetForm(target, l.path, l.query);
      VersionHasNoSpace(l.version);
      assert forall i :: 0 <= i < |l.verb| ==> MethodChar(l.verb[i]);
      SplitPrintedLine(l.verb, target, l.version);
    }
  }

  // ----- Header fields

  predicate Blank(s: string) {
    forall i :: 0 <= i < |s| ==> s[i] in {' ', '\t'}
  }

  predicate BlankOrReturn(s: string) {
    forall i :: 0 <= i < |s| ==> s[i] in {' ', '\t', '\r'}
  }

  /** `t` between blanks and blanks or returns; nothing at all only when no blank comes before a return. */
  ghost predicate Padded(s: string, t: string) {
    if t == "" then Blank(s) || (BlankOrReturn(s) && s[0] == '\r')
    else
      && t[0] !in {' ', '\t'} && t[|t| - 1] !in {' ', '\t'}
      && exists pre, post :: Blank(pre) && BlankOrReturn(post) && s == pre + t + post
  }

  lemma TrimForm(s: string, t: string)
    requires !ContainsAny(t, {'\r'})
    ensures Trim(s) == t <==> Padded(s, t)
  {
    if t == "" {
      NothingLeft(s);
    } else {
      if Trim(s) == t { SomethingLeft(s); }
      if Padded(s, t) {
        var pre, post :| Blank(pre) && BlankOrReturn(post) && s == pre + t + post;
        StripsPadding(pre, t, post);
      }
    }
  }

  lemma NothingLeft(s: string)
    ensures Trim(s) == "" <==> Padded(s, "")
  {
    hide FirstNotOf, LastNotOf;
    var a, b := FirstNotOf(s, {' ', '\t'}), LastNotOf(s, {' ', '\t', '\r'});
    if b != -1 {
      assert s[b] !in {' ', '\t', '\r'};
      assert a <= b;
    }
  }

  lemma SomethingLeft(s: string)
    requires Trim(s) != "" && !ContainsAny(Trim(s), {'\r'})
    ensures Padded(s, Trim(s))
  {
    hide FirstNotOf, LastNotOf;
    var a, b := FirstNotOf(s, {' ', '\t'}), LastNotOf(s, {' ', '\t', '\r'});
    assert b != -1;
    assert s == s[..a] + s[a..b + 1] + s[b + 1..];
    assert Blank(s[..a]) && BlankOrReturn(s[b + 1..]);
  }

  lemma StripsPadding(pre: string, t: string, post: string)
    requires Blank(pre) && BlankOrReturn(post) && t != "" && t[0] !in {' ', '\t'}
    requires t[|t| - 1] !in {' ', '\t', '\r'}
    ensures Trim(pre + t + post) == t
  {
    hide FirstNotOf, LastNotOf;
    var s := pre + t + post;
    var a, b := |pre|, |pre| + |t| - 1;
    assert s[a] == t[0] && s[b] == t[|t| - 1];
    assert forall i :: 0 <= i < a ==> s[i] == pre[i];
    assert forall i :: b < i < |s| ==> s[i] == post[i - b - 1];
    assert FirstNotOf(s, {' ', '\t'}) == a;
    assert LastNotOf(s, {' ', '\t', '\r'}) == b;
    assert s[a..b + 1] == t;
  }

  predicate NameText(name: string) {
    name != "" && !ContainsAny(name, {' ', '\t', '\r', '\n'})
  }

  /** A padded name up to the first colon, and a padded value after it. */
  ghost predicate FieldText(line: string, f: Field, left: string, name: string, right: string) {
    && line == left + ":" + right && !ContainsAny(left, {':'})
    && Padded(left, name) && NameText(name) && f.key == ToLower(name)
    && Padded(right, f.value) && !ContainsAny(f.value, {'\r', '\n'})
  }

  lemma LowerKeepsName(name: string)
    ensures NameText(ToLower(name)) <==> NameText(name)
  {
    hide ToLower;
    assert forall i :: 0 <= i < |name| ==> (ToLower(name)[i] in {' ', '\t', '\r', '\n'} <==> name[i] in {' ', '\t', '\r', '\n'});
  }

  lemma CleanOfReturns(s: string, cs: set<char>)
    requires !ContainsAny(s, cs) && '\r' in cs
    ensures !ContainsAny(s, {'\r'})
  {
  }

  /** The header lines accepted are exactly those texts, read as their lower-case name and their value. */
  lemma FieldForm(line: string, f: Field)
    ensures ParseField(line) == Ok(f) <==> exists left, name, right :: FieldText(line, f, left, name, right)
  {
    hide FindChar, Trim, ToLower, Padded, ContainsAny, NameText;
    if ParseField(line) == Ok(f) {
      FieldIsText(line);
    }
    if left, name, right :| FieldText(line, f, left, name, right) {
      TextIsField(line, f, left, name, right);
    }
  }

  lemma FieldIsText(line: string)
    requires ParseField(line).Ok?
    ensures var c := FindChar(line, ':');
            c >= 0 && FieldText(line, ParseField(line).value, line[..c], Trim(line[..c]), line[c + 1..])
  {
    hide FindChar, Trim, ToLower, Padded;
    var c := FindChar(line, ':');
    var name, value := Trim(line[..c]), Trim(line[c + 1..]);
    LowerKeepsName(name);
    CleanOfReturns(name, {' ', '\t', '\r', '\n'});
    CleanOfReturns(value, {'\r', '\n'});
    TrimForm(line[..c], name);
    TrimForm(line[c + 1..], value);
    assert line == line[..c] + ":" + line[c + 1..];
  }

  lemma TextIsField(line: string, f: Field, left: string, name: string, right: string)
    requires FieldText(line, f, left, name, right)
    ensures ParseField(line) == Ok(f)
  {
    hide FindChar, Trim, ToLower, Padded;
    assert forall i :: 0 <= i < |left| ==> line[i] == left[i] && left[i] !in {':'};
    assert line[|left|] == ':';
    assert FindChar(line, ':') == |left|;
    assert line[..|left|] == left && line[|left| + 1..] == right;
    LowerKeepsName(name);
    CleanOfReturns(name, {' ', '\t', '\r', '\n'});
    CleanOfReturns(f.value, {'\r', '\n'});
    TrimForm(left, name);
    TrimForm(right, f.value);
  }

  // ----- Framing and persistence

  /** A numeral that fits 64 bits. */
  predicate SizeText(s: string) {
    s != "" && AllDigits(s) && Value(s) <= 0xFFFF_FFFF_FFFF_FFFF
  }

  ghost predicate SaysChunked(s: string) {
    Holds(ToLower(s), "chunked")
  }

  /** The length is declared, by itself, and at most 10 MB; or it is not declared and no chunked coding is named. */
  ghost predicate FramingText(h: Headers, n: nat) {
    if "content-length" in h then
      "transfer-encoding" !in h && SizeText(h["content-length"]) && Value(h["content-length"]) == n <= 10485760
    else
      n == 0 && ("transfer-encoding" in h ==> !SaysChunked(h["transfer-encoding"]))
  }

  /** The body length is declared exactly so, and every other header section gets the error its first fault calls for. */
  lemma FramingForm(h: Headers, n: nat)
    ensures BodyLength(h) == Ok(n) <==> FramingText(h, n)
    ensures BodyLength(h) == Err(InvalidContentLength) <==> "content-length" in h && !SizeText(h["content-length"])
    ensures BodyLength(h) == Err(BodyTooLarge) <==>
              "content-length" in h && SizeText(h["content-length"]) && Value(h["content-length"]) > 10485760
    ensures BodyLength(h) == Err(AmbiguousFraming) <==>
              && "content-length" in h && SizeText(h["content-length"]) && Value(h["content-length"]) <= 10485760
              && "transfer-encoding" in h
    ensures BodyLength(h) == Err(ChunkedUnsupported) <==>
              "content-length" !in h && "transfer-encoding" in h && SaysChunked(h["transfer-encoding"])
  {
    hide Value, Contains, Holds, AllDigits, ToLower;
    if "transfer-encoding" in h { ContainsForm(ToLower(h["transfer-encoding"]), "chunked"); }
  }

  /** Kept alive unless the connection field is the word close, in any case, or, without the field, in version 1.0. */
  predicate PersistText(version: string, h: Headers) {
    ("connection" in h && ToLower(h["connection"]) != "close") || ("connection" !in h && version == "HTTP/1.1")
  }

  // ----- Whole messages

  /** The text of a message, part by part; `WellFormed` and `LastValues` speak of lines that are fields as above. */
  ghost predicate MessageText(b: string, req: HttpRequest, rest: string, line: string, lines: seq<string>) {
    && b == line + CRLF + JoinLines(lines) + CRLF + req.body + rest
    && RequestLineText(line, RequestLine(req.verb, req.path, req.query, req.version))
    && PlainLines(lines) && WellFormed(lines) && LastValues(lines, req.headers)
    && FramingText(req.headers, |req.body|)
    && (req.keepAlive <==> PersistText(req.version, req.headers))
  }

  lemma LineTextHasNoCrlf(line: string, l: RequestLine)
    requires RequestLineText(line, l)
    ensures NoCrlf(line)
  {
    var target :| TargetText(target, l.path, l.query) && line == l.verb + " " + target + " " + l.version;
    assert forall i :: 0 <= i < |target| ==> target[i] != '\r' by {
      TargetForm(target, l.path, l.query);
      assert !ContainsAny(target, {'\r', '\n'});
    }
    assert forall i :: 0 <= i < |l.verb| ==> MethodChar(l.verb[i]);
    assert forall i :: 0 <= i < |l.version| ==> l.version[i] != '\r';
    JoinedHasNoReturn(l.verb, target, l.version);
  }

  lemma JoinedHasNoReturn(a: string, b: string, c: string)
    requires forall i :: 0 <= i < |a| ==> a[i] != '\r'
    requires forall i :: 0 <= i < |b| ==> b[i] != '\r'
    requires forall i :: 0 <= i < |c| ==> c[i] != '\r'
    ensures NoCrlf(a + " " + b + " " + c)
  {
    var line := a + " " + b + " " + c;
    forall i | 0 <= i < |line|
      ensures line[i] != '\r'
    {
      if i < |a| { assert line[i] == a[i]; }
    }
  }

  lemma SameLastValues(lines: seq<string>, g: Headers, h: Headers)
    requires LastValues(lines, g) && LastValues(lines, h)
    ensures g == h
  {
    hide LastWith, ValueOf;
    assert forall key :: key in g <==> LastWith(lines, key) >= 0;
    assert forall key :: key in h <==> LastWith(lines, key) >= 0;
    assert g.Keys == h.Keys;
  }

  lemma TextIsMessage(b: string, req: HttpRequest, rest: string, line: string, lines: seq<string>)
    ensures MessageText(b, req, rest, line, lines) <==> IsMessage(b, req, rest, line, lines)
  {
    hide RequestLineText, ParseRequestLine, WellFormed, LastValues, AddLines, BodyLength, FramingText, PlainLines, JoinLines, NoCrlf;
    var l := RequestLine(req.verb, req.path, req.query, req.version);
    FramingForm(req.headers, |req.body|);
    RequestLineForm(line, l);
    AcceptedIffWellFormed(lines);
    if RequestLineText(line, l) { LineTextHasNoCrlf(line, l); }
    var added := AddLines(map[], 0, lines);
    if added.Added? && LastValues(lines, req.headers) { SameLastValues(lines, added.headers, req.headers); }
  }

  /** The parser accepts exactly the texts of messages, and splits off exactly one. */
  lemma ParsedIffText(b: string, req: HttpRequest, rest: string)
    ensures ParseOne(b) == Parsed(req, rest) <==> exists line, lines :: MessageText(b, req, rest, line, lines)
  {
    hide ParseOne, MessageText, IsMessage;
    ParsedIffMessage(b, req, rest);
    if line, lines :| MessageText(b, req, rest, line, lines) { TextIsMessage(b, req, rest, line, lines); }
    if line, lines :| IsMessage(b, req, rest, line, lines) { TextIsMessage(b, req, rest, line, lines); }
  }

  // ----- What is refused, and what waits for more

  ghost predicate SomeRequestLine(line: string) {
    exists l :: RequestLineText(line, l)
  }

  /** Finished header lines `lines` and what follows them, refused: for a line, for a late line end, or for the framing. */
  ghost predicate RefusedFields(after: string, lines: seq<string>, tail: string) {
    && after == JoinLines(lines) + tail && PlainLines(lines)
    && (|| !WellFormed(lines)
        || (NoCrlf(tail) && |tail| > 32768)
        || (CrlfAt(tail, 0) && !exists h, n :: LastValues(lines, h) && FramingText(h, n)))
  }

  ghost predicate RefusedText(b: string) {
    || (NoCrlf(b) && |b| > 8192)
    || exists line, after ::
         && b == line + CRLF + after && NoCrlf(line)
         && (!SomeRequestLine(line) || exists lines, tail :: RefusedFields(after, lines, tail))
  }

  lemma {:induction false} ReadAcross(lines: seq<string>, h: Headers, c: nat, tail: string)
    requires PlainLines(lines)
    ensures ReadFields(JoinLines(lines) + tail, h, c) ==
            match AddLines(h, c, lines)
            case Added(h', c') => ReadFields(tail, h', c')
            case Refused(error, _) => FieldsBad(error)
    decreases |lines|
  {
    hide FindCrlf, AddLine, NoCrlf, PlainLine;
    var b := JoinLines(lines) + tail;
    if lines == [] {
      assert b == tail;
    } else {
      var line, after := lines[0], JoinLines(lines[1..]) + tail;
      assert PlainLine(line);
      PlainIsLine(line);
      assert b == line + CRLF + after;
      FindCrlfAfterLine(line, after);
      assert b[..|line|] == line && b[|line| + 2..] == after;
      match AddLine(h, c, line)
      case Refused(_, _) =>
      case Added(h', c') => ReadAcross(lines[1..], h', c', tail);
    }
  }

  lemma PlainIsLine(line: string)
    requires PlainLine(line)
    ensures line != "" && NoCrlf(line)
  {
  }

  /** Every text is finished header lines followed by the blank line or by a line that has not ended. */
  lemma {:induction false} FinishedLines(b: string) returns (lines: seq<string>, tail: string)
    ensures b == JoinLines(lines) + tail && PlainLines(lines) && (NoCrlf(tail) || CrlfAt(tail, 0))
    decreases |b|
  {
    hide FindCrlf;
    var e := FindCrlf(b, 0);
    if e <= 0 {
      lines, tail := [], b;
      assert JoinLines([]) + b == b;
    } else {
      var more;
      more, tail := FinishedLines(b[e + 2..]);
      LineHasNoCrlf(b);
      lines := [b[..e]] + more;
      assert lines[1..] == more;
      assert JoinLines(lines) == b[..e] + CRLF + JoinLines(more);
    }
  }

  lemma FieldsBadIff(line: RequestLine, after: string)
    ensures ReadAfterLine(line, after, map[], 0).Rejected? <==> exists lines, tail :: RefusedFields(after, lines, tail)
  {
    hide FindCrlf, ReadFields, AddLines, WellFormed, LastValues, FramingText, JoinLines, PlainLines, BodyLength, ReadAfterLine;
    var lines, tail := FinishedLines(after);
    AfterLines(line, lines, tail);
    if ReadAfterLine(line, after, map[], 0).Rejected? { assert RefusedFields(after, lines, tail); }
    if x, y :| RefusedFields(after, x, y) { AfterLines(line, x, y); }
  }

  /** What finished lines and a tail come to. */
  lemma AfterLines(line: RequestLine, lines: seq<string>, tail: string)
    requires PlainLines(lines) && (!WellFormed(lines) || NoCrlf(tail) || CrlfAt(tail, 0))
    ensures ReadAfterLine(line, JoinLines(lines) + tail, map[], 0).Rejected? <==>
              RefusedFields(JoinLines(lines) + tail, lines, tail)
  {
    hide FindCrlf, ReadFields, AddLines, WellFormed, LastValues, FramingText, JoinLines, PlainLines, BodyLength;
    AcceptedIffWellFormed(lines);
    ReadAcross(lines, map[], 0, tail);
    if WellFormed(lines) {
      var h := AddLines(map[], 0, lines).headers;
      TailIsRead(tail, h, |lines|);
      forall g | LastValues(lines, g)
        ensures g == h
      {
        SameLastValues(lines, g, h);
      }
      FramingIff(h);
    }
  }

  lemma FramingIff(h: Headers)
    ensures BodyLength(h).Ok? <==> exists n :: FramingText(h, n)
  {
    hide BodyLength, FramingText;
    forall n: nat
      ensures BodyLength(h) == Ok(n) <==> FramingText(h, n)
    {
      FramingForm(h, n);
    }
  }

  lemma TailIsRead(tail: string, h: Headers, c: nat)
    requires NoCrlf(tail) || CrlfAt(tail, 0)
    ensures NoCrlf(tail) ==> ReadFields(tail, h, c) == if |tail| > 32768 then FieldsBad(HeadersTooLarge) else FieldsMore
    ensures CrlfAt(tail, 0) ==> ReadFields(tail, h, c).FieldsDone? && ReadFields(tail, h, c).headers == h
  {
    hide FindCrlf;
    var e := FindCrlf(tail, 0);
  }

  /**
    The parser refuses exactly these texts: a first line that is too long so far or is no request
    line, a header section with a bad line, a line too long so far, or bad framing. All others are complete or wait.
   */
  lemma RefusedIffText(b: string)
    ensures ParseOne(b).Rejected? <==> RefusedText(b)
  {
    hide FindCrlf, ParseRequestLine, ReadAfterLine, RequestLineText, RefusedFields;
    var e := FindCrlf(b, 0);
    if e == -1 {
      assert NoCrlf(b);
      forall line, after | b == line + CRLF + after && NoCrlf(line)
        ensures false
      {
        FindCrlfAfterLine(line, after);
      }
    } else {
      LineHasNoCrlf(b);
      var line, after := b[..e], b[e + 2..];
      assert !NoCrlf(b) by { assert CrlfAt(b, e); }
      forall x, y | b == x + CRLF + y && NoCrlf(x)
        ensures x == line && y == after
      {
        FindCrlfAfterLine(x, y);
        assert b[..|x|] == x && b[|x| + 2..] == y;
      }
      LineIff(line);
      match ParseRequestLine(line)
      case Err(_) =>
      case Ok(l) => FieldsBadIff(l, after);
    }
  }

  lemma LineIff(line: string)
    ensures ParseRequestLine(line).Ok? <==> SomeRequestLine(line)
  {
    hide ParseRequestLine, RequestLineText;
    forall l
      ensures ParseRequestLine(line) == Ok(l) <==> RequestLineText(line, l)
    {
      RequestLineForm(line, l);
    }
  }
}
