/** The responses the upstream reader accepts, written out as text, and what it makes of them (src/core/Gateway.cpp:397-457). */
module ResponseText {
  import opened Text
  import opened Decimal
  import opened BackendRequest
  import opened Response
  import opened ResponseReader
  import opened ResponseRoundTrip
  import LineForms

  // ----- Header lines

  function LeftStripped(s: string): string {
    if s != "" && s[0] in {' ', '\t', '\n', '\U{0b}', '\U{0c}', '\r'} then LeftStripped(s[1..]) else s
  }

  predicate HasColon(line: string) {
    exists i :: 0 <= i < |line| && line[i] == ':'
  }

  /** The text before the first colon, in lower case. */
  function NameIn(line: string): string {
    var c := FindChar(line, ':');
    if c == -1 then "" else ToLower(line[..c])
  }

  /** The text after the first colon, without leading white space. */
  function ValueIn(line: string): string {
    var c := FindChar(line, ':');
    if c == -1 then "" else LeftStripped(line[c + 1..])
  }

  predicate Named(line: string, name: string) {
    HasColon(line) && NameIn(line) == name
  }

  /** Fields that are not passed on: the length, and those about the connection to the backend. */
  predicate TakenOut(name: string) {
    || name == "content-length" || name == "connection"
    || name == "keep-alive" || name == "proxy-connection" || name == "upgrade"
  }

  /** All other fields, in order, with their lower-case name. */
  function KeptHeaders(lines: seq<string>): seq<Header> {
    if lines == [] then []
    else
      var line := lines[|lines| - 1];
      KeptHeaders(lines[..|lines| - 1]) + if TakenOut(NameIn(line)) then [] else [Header(NameIn(line), ValueIn(line))]
  }

  /** Every line has a colon, no transfer coding is named, and a length is given at most once, as a numeral within bounds. */
  ghost predicate LinesFit(lines: seq<string>, maxBody: nat) {
    && (forall i :: 0 <= i < |lines| ==> HasColon(lines[i]) && !Named(lines[i], "transfer-encoding"))
    && (forall i :: 0 <= i < |lines| && Named(lines[i], "content-length") ==> LengthText(lines[i], maxBody))
    && (forall i, j :: 0 <= i < j < |lines| ==> !(Named(lines[i], "content-length") && Named(lines[j], "content-length")))
  }

  predicate LengthText(line: string, maxBody: nat) {
    LineForms.SizeText(ValueIn(line)) && Value(ValueIn(line)) <= maxBody
  }

  /** The length given, if any. */
  function LengthGiven(lines: seq<string>): Option<nat> {
    if lines == [] then None
    else
      var line := lines[|lines| - 1];
      if Named(line, "content-length") && LineForms.SizeText(ValueIn(line)) then Some(Value(ValueIn(line)))
      else LengthGiven(lines[..|lines| - 1])
  }

  /** The last connection field, if any, does not say close. */
  ghost predicate SaysReusable(lines: seq<string>) {
    && lines != []
    && var line := lines[|lines| - 1];
       if Named(line, "connection") then !Holds(ToLower(ValueIn(line)), "close")
       else SaysReusable(lines[..|lines| - 1])
  }

  lemma {:induction false} StripsLeft(s: string)
    ensures StripLeft(s) == LeftStripped(s)
  {
    hide FirstNotOf;
    var a := FirstNotOf(s, BLANKS);
    if s == "" || s[0] !in {' ', '\t', '\n', '\U{0b}', '\U{0c}', '\r'} {
      if s != "" {
        assert a == 0;
        assert s[0..] == s;
      }
    } else {
      var t := s[1..];
      StripsLeft(t);
      var b := FirstNotOf(t, BLANKS);
      assert forall i :: 0 <= i < |t| ==> t[i] == s[i + 1];
      if b == -1 {
        assert a == -1;
      } else {
        assert s[b + 1] == t[b];
        assert a == b + 1;
        assert s[a..] == t[b..];
      }
    }
  }

  lemma ColonForm(line: string)
    ensures HasColon(line) <==> FindChar(line, ':') != -1
  {
    hide FindChar;
    var c := FindChar(line, ':');
  }

  /** What one line does to what was read so far. */
  lemma LineIsAdded(head: Head, line: string, maxBody: nat)
    ensures AddHeadLine(head, line, maxBody) ==
            if !HasColon(line) || NameIn(line) == "transfer-encoding" then None
            else if NameIn(line) == "content-length" then
              if head.length.Some? || !LengthText(line, maxBody) then None
              else Some(head.(length := Some(Value(ValueIn(line)))))
            else if NameIn(line) == "connection" then Some(head.(reusable := !Holds(ToLower(ValueIn(line)), "close")))
            else if TakenOut(NameIn(line)) then Some(head)
            else Some(head.(headers := head.headers + [Header(NameIn(line), ValueIn(line))]))
  {
    hide FindChar, ToLower, StripLeft, LeftStripped, HasColon, Value, AllDigits, Contains, Holds;
    ColonForm(line);
    var c := FindChar(line, ':');
    if c != -1 {
      StripsLeft(line[c + 1..]);
      ContainsForm(ToLower(ValueIn(line)), "close");
    }
  }

  lemma OneLine(head: Head, line: string, maxBody: nat)
    ensures FoldHead(head, [line], maxBody) == AddHeadLine(head, line, maxBody)
  {
    hide AddHeadLine;
    assert [line][1..] == [];
  }

  lemma {:induction false} NoLengthGiven(lines: seq<string>)
    requires forall i :: 0 <= i < |lines| && Named(lines[i], "content-length") ==> LineForms.SizeText(ValueIn(lines[i]))
    ensures LengthGiven(lines).None? <==> forall i :: 0 <= i < |lines| ==> !Named(lines[i], "content-length")
  {
    hide Named, ValueIn, LineForms.SizeText;
    if lines == [] {
    } else {
      var before := lines[..|lines| - 1];
      assert forall i :: 0 <= i < |before| ==> before[i] == lines[i];
      NoLengthGiven(before);
    }
  }

  lemma FitsSnoc(before: seq<string>, line: string, maxBody: nat)
    requires LinesFit(before, maxBody)
    ensures LinesFit(before + [line], maxBody) <==>
            && HasColon(line) && NameIn(line) != "transfer-encoding"
            && (NameIn(line) == "content-length" ==> LengthText(line, maxBody) && LengthGiven(before).None?)
  {
    hide HasColon, NameIn, LengthText, LengthGiven;
    LengthsAreSizes(before, maxBody);
    NoLengthGiven(before);
    var all := before + [line];
    assert all[|before|] == line && forall i :: 0 <= i < |before| ==> all[i] == before[i];
  }

  lemma LengthsAreSizes(lines: seq<string>, maxBody: nat)
    requires LinesFit(lines, maxBody)
    ensures forall i :: 0 <= i < |lines| && Named(lines[i], "content-length") ==> LineForms.SizeText(ValueIn(lines[i]))
  {
    hide Named, ValueIn;
  }

  lemma FitsPrefix(before: seq<string>, line: string, maxBody: nat)
    requires LinesFit(before + [line], maxBody)
    ensures LinesFit(before, maxBody)
  {
    hide HasColon, Named, LengthText;
    var all := before + [line];
    assert forall i :: 0 <= i < |before| ==> all[i] == before[i];
  }

  lemma OneLineMore(before: seq<string>, line: string)
    ensures var lines := before + [line];
            && (SaysReusable(lines) <==>
                if Named(line, "connection") then !Holds(ToLower(ValueIn(line)), "close") else SaysReusable(before))
            && LengthGiven(lines) ==
               (if Named(line, "content-length") && LineForms.SizeText(ValueIn(line)) then Some(Value(ValueIn(line)))
                else LengthGiven(before))
            && KeptHeaders(lines) ==
               KeptHeaders(before) + if TakenOut(NameIn(line)) then [] else [Header(NameIn(line), ValueIn(line))]
  {
    hide Named, NameIn, ValueIn, Holds, Value, LineForms.SizeText;
    assert (before + [line])[..|before|] == before;
  }

  /** Header lines are accepted exactly when they fit, and leave the length given, the reuse allowed and the headers kept. */
  lemma {:induction false} FoldMeans(lines: seq<string>, maxBody: nat)
    ensures FoldHead(NO_HEAD, lines, maxBody) ==
            if LinesFit(lines, maxBody) then Some(Head(LengthGiven(lines), SaysReusable(lines), KeptHeaders(lines))) else None
  {
    if lines == [] {
      NoLinesFit(maxBody);
    } else {
      hide LinesFit, HasColon, NameIn, ValueIn, LengthText, AddHeadLine, Holds, Value, FoldHead;
      hide LengthGiven, SaysReusable, KeptHeaders, LineForms.SizeText;
      var before, line := lines[..|lines| - 1], lines[|lines| - 1];
      assert lines == before + [line];
      FoldMeans(before, maxBody);
      FoldAppend(NO_HEAD, before, [line], maxBody);
      if LinesFit(before, maxBody) {
        var head := FoldHead(NO_HEAD, before, maxBody).value;
        OneLine(head, line, maxBody);
        LineIsAdded(head, line, maxBody);
        FitsSnoc(before, line, maxBody);
        LengthIsSize(line, maxBody);
        OneLineMore(before, line);
        assert KeptHeaders(before) + [] == KeptHeaders(before);
      } else if LinesFit(lines, maxBody) {
        FitsPrefix(before, line, maxBody);
      }
    }
  }

  lemma LengthIsSize(line: string, maxBody: nat)
    ensures LengthText(line, maxBody) ==> LineForms.SizeText(ValueIn(line))
  {
    hide ValueIn;
  }

  lemma NoLinesFit(maxBody: nat)
    ensures LinesFit([], maxBody)
  {
  }

  // ----- The header section

  function HeadLines(status: string, lines: seq<string>): string {
    status + CRLF + JoinLines(lines) + CRLF
  }

  /** The section is found when its blank line is there, and read as its lines say; a length must be given. */
  lemma SectionIsRead(status: string, lines: seq<string>, ext: string, maxBody: nat)
    requires NoCrlf(status) && PlainLines(lines)
    ensures var raw, end := HeadLines(status, lines) + ext, |HeadLines(status, lines)| - 4;
            && end >= 0 && FindBlankLine(raw) == end && FindCrlf(raw, 0) == |status|
            && ReadHead(raw, end, maxBody) ==
               if LinesFit(lines, maxBody) && LengthGiven(lines).Some?
               then Some(Head(LengthGiven(lines), SaysReusable(lines), KeptHeaders(lines))) else None
  {
    hide FindBlankLine, FindCrlf, NoCrlf, ReadHeadLines, FoldHead, JoinLines, LinesFit, LengthGiven, SaysReusable, KeptHeaders;
    var head := HeadLines(status, lines);
    var raw, end := head + ext, |head| - 4;
    BlankAfterLines(status, lines, ext);
    assert raw == status + CRLF + JoinLines(lines) + CRLF + ext;
    var before := status + CRLF;
    assert raw == before + JoinLines(lines) + CRLF + ext;
    ReadJoined(before, lines, ext, NO_HEAD, maxBody);
    assert raw == status + CRLF + (JoinLines(lines) + CRLF + ext);
    FindCrlfAfterLine(status, JoinLines(lines) + CRLF + ext);
    FoldMeans(lines, maxBody);
  }

  // ----- The status line

  /** Version, code and reason phrase, one space between them; only the phrase may hold further spaces. */
  predicate StatusText(status: string, version: string, code: string, reason: string) {
    && status == version + " " + code + " " + reason
    && !ContainsAny(version, {' '}) && !ContainsAny(code, {' '})
  }

  lemma StatusIsSplit(status: string, version: string, code: string, reason: string, ext: string)
    requires StatusText(status, version, code, reason)
    ensures var raw, sp1, sp2 := status + CRLF + ext, |version|, |version| + 1 + |code|;
            && FindChar(raw, ' ') == sp1 && FindChar(raw, ' ', sp1 + 1) == sp2
            && raw[sp1 + 1..sp2] == code && sp2 < |status| && raw[sp2 + 1..|status|] == reason
  {
    hide FindChar;
    var raw, sp1, sp2 := status + CRLF + ext, |version|, |version| + 1 + |code|;
    assert forall i :: 0 <= i < sp1 ==> raw[i] == version[i] && version[i] !in {' '};
    assert raw[sp1] == ' ' && raw[sp2] == ' ';
    assert forall i :: sp1 < i < sp2 ==> raw[i] == code[i - sp1 - 1] && code[i - sp1 - 1] !in {' '};
    assert FindChar(raw, ' ') == sp1;
    assert FindChar(raw, ' ', sp1 + 1) == sp2;
  }

  lemma AtoiOfDigits(s: string)
    requires s != "" && AllDigits(s)
    ensures Atoi(s) == Value(s)
  {
    hide Value;
    assert IsDigit(s[0]) && s[0] !in BLANKS;
    assert FirstNotOf(s, BLANKS) == 0;
    assert s[0..] == s;
    assert s[..0] == "";
    NoDigits();
    DigitsFrom(s, 0);
  }

  lemma NoDigits()
    ensures Value("") == 0
  {
  }

  // ----- All cuts

  ghost predicate Complete(lines: seq<string>, rest: string, maxBody: nat) {
    LinesFit(lines, maxBody) && LengthGiven(lines).Some? && LengthGiven(lines).value <= |rest|
  }

  ghost function Progressed(status: string, lines: seq<string>, n: nat): Progress {
    if n < |HeadLines(status, lines)| then Searching
    else Reading(|HeadLines(status, lines)| - 4, Head(LengthGiven(lines), SaysReusable(lines), KeptHeaders(lines)))
  }

  /** What the text says about a result, whatever its status line. */
  ghost predicate SaysSo(got: Received, lines: seq<string>, rest: string)
    requires LengthGiven(lines).Some? && LengthGiven(lines).value <= |rest|
  {
    && got.response.headers == KeptHeaders(lines) && got.response.body == rest[..LengthGiven(lines).value]
    && got.reusable == SaysReusable(lines)
  }

  lemma FinishSays(status: string, lines: seq<string>, rest: string, ext: string)
    requires LengthGiven(lines).Some? && LengthGiven(lines).value <= |rest|
    ensures |HeadLines(status, lines)| >= 4
    ensures var head := HeadLines(status, lines);
            var r := Finish(head + rest + ext, |head| - 4, Head(LengthGiven(lines), SaysReusable(lines), KeptHeaders(lines)));
            r.Some? ==> SaysSo(r.value, lines, rest)
  {
    hide FindChar, FindCrlf, Atoi, LengthGiven, SaysReusable, KeptHeaders, JoinLines;
    var head, n := HeadLines(status, lines), LengthGiven(lines).value;
    var raw := head + rest + ext;
    assert raw[|head|..|head| + n] == rest[..n];
  }

  lemma FinishStatus(status: string, lines: seq<string>, more: string, head: Head,
                     version: string, code: string, reason: string)
    requires NoCrlf(status) && StatusText(status, version, code, reason)
    requires |HeadLines(status, lines)| >= 4 && head.length.Some? && head.length.value <= |more|
    ensures var r := Finish(HeadLines(status, lines) + more, |HeadLines(status, lines)| - 4, head);
            r.Some? && r.value.response.statusCode == Atoi(code) && r.value.response.statusText == reason
  {
    hide FindChar, FindCrlf, Atoi, JoinLines, NoCrlf, StatusText;
    var raw, after := HeadLines(status, lines) + more, JoinLines(lines) + CRLF + more;
    assert raw == status + CRLF + after;
    FindCrlfAfterLine(status, after);
    StatusIsSplit(status, version, code, reason, after);
  }

  lemma {:induction false} ReadsText(status: string, lines: seq<string>, rest: string, maxBody: nat, n: nat, chunks: seq<string>)
    requires NoCrlf(status) && PlainLines(lines) && RecvChunks(chunks)
    requires n <= |HeadLines(status, lines) + rest| && Concat(chunks) == (HeadLines(status, lines) + rest)[n..]
    requires n >= |HeadLines(status, lines)| ==>
               && LinesFit(lines, maxBody) && LengthGiven(lines).Some?
               && n < |HeadLines(status, lines)| + LengthGiven(lines).value
    ensures InHead((HeadLines(status, lines) + rest)[..n], Progressed(status, lines, n))
    ensures var r := ReadChunks((HeadLines(status, lines) + rest)[..n], Progressed(status, lines, n), chunks, maxBody);
            var fits := Complete(lines, rest, maxBody) && CutFits(|HeadLines(status, lines)|, n, chunks);
            && (r.Some? ==> fits && SaysSo(r.value, lines, rest))
            && (forall version, code, reason :: fits && StatusText(status, version, code, reason) ==>
                  r.Some? && r.value.response.statusCode == Atoi(code) && r.value.response.statusText == reason)
    decreases |chunks|
  {
    hide HeadLines, LinesFit, LengthGiven, SaysReusable, KeptHeaders, ReadHead, FindBlankLine, FindCrlf, NoCrlf, Finish, StatusText, Atoi, SaysSo;
    var head, wire := HeadLines(status, lines), HeadLines(status, lines) + rest;
    SectionIsRead(status, lines, "", maxBody);
    if chunks == [] {
      assert wire[n..] == "";
    } else {
      FirstPiece(wire, n, chunks);
      var k := n + |chunks[0]|;
      if n < |head| && k > MAX_HEAD_BYTES {
        assert AfterChunk(wire[..k], Searching, maxBody) == None;
      } else {
        AtBoundary(status, lines, rest, maxBody, n, k);
        if k < |head| {
          ReadsText(status, lines, rest, maxBody, k, chunks[1..]);
        } else if LinesFit(lines, maxBody) && LengthGiven(lines).Some? {
          BeyondHeadFits(|head|, k, chunks[1..]);
          if k < |head| + LengthGiven(lines).value {
            ReadsText(status, lines, rest, maxBody, k, chunks[1..]);
          } else {
            Finishes(status, lines, rest, k);
          }
        }
      }
    }
  }

  lemma Finishes(status: string, lines: seq<string>, rest: string, k: nat)
    requires NoCrlf(status) && LengthGiven(lines).Some?
    requires |HeadLines(status, lines)| + LengthGiven(lines).value <= k <= |HeadLines(status, lines) + rest|
    requires |HeadLines(status, lines)| >= 4
    ensures var head := Head(LengthGiven(lines), SaysReusable(lines), KeptHeaders(lines));
            var r := Finish((HeadLines(status, lines) + rest)[..k], |HeadLines(status, lines)| - 4, head);
            && (r.Some? ==> SaysSo(r.value, lines, rest))
            && (forall version, code, reason :: StatusText(status, version, code, reason) ==>
                  r.Some? && r.value.response.statusCode == Atoi(code) && r.value.response.statusText == reason)
  {
    hide HeadLines, SaysReusable, KeptHeaders, Finish, StatusText, Atoi, NoCrlf, LengthGiven;
    var text, n := HeadLines(status, lines), LengthGiven(lines).value;
    var head := Head(LengthGiven(lines), SaysReusable(lines), KeptHeaders(lines));
    var wire := text + rest;
    var more := rest[..k - |text|];
    assert wire[..k] == text + more;
    assert more[..n] == rest[..n];
    assert text + more == text + more + "";
    FinishSays(status, lines, more, "");
    forall version, code, reason | StatusText(status, version, code, reason)
      ensures var r := Finish(wire[..k], |text| - 4, head);
              r.Some? && r.value.response.statusCode == Atoi(code) && r.value.response.statusText == reason
    {
      FinishStatus(status, lines, more, head, version, code, reason);
    }
  }

  lemma AtBoundary(status: string, lines: seq<string>, rest: string, maxBody: nat, n: nat, k: nat)
    requires NoCrlf(status) && PlainLines(lines)
    requires n < k <= |HeadLines(status, lines) + rest| && (n < |HeadLines(status, lines)| ==> k <= MAX_HEAD_BYTES)
    requires n >= |HeadLines(status, lines)| ==> LinesFit(lines, maxBody) && LengthGiven(lines).Some?
    ensures |HeadLines(status, lines)| >= 4
    ensures InHead((HeadLines(status, lines) + rest)[..n], Progressed(status, lines, n))
    ensures InHead((HeadLines(status, lines) + rest)[..k], Progressed(status, lines, n))
    ensures var p := AfterChunk((HeadLines(status, lines) + rest)[..k], Progressed(status, lines, n), maxBody);
            if k >= |HeadLines(status, lines)| && !(LinesFit(lines, maxBody) && LengthGiven(lines).Some?) then p == None
            else p == Some(Progressed(status, lines, k))
  {
    hide HeadLines, LinesFit, LengthGiven, SaysReusable, KeptHeaders, ReadHead, FindBlankLine, FindCrlf, NoCrlf;
    var head, wire := HeadLines(status, lines), HeadLines(status, lines) + rest;
    SectionIsRead(status, lines, rest, maxBody);
    if k >= |head| {
      assert wire[..k] == head + wire[|head|..k];
      SectionIsRead(status, lines, wire[|head|..k], maxBody);
    } else {
      NotYet(wire, k);
    }
  }

  /**
    The text of a response with both spaces in its status line, in any cut: it is received if and
    only if its lines fit, its body is there and no read exceeds the limit before the header
    section is complete; and then with the code and phrase of its status line, exactly the headers
    kept, the body of the length given, and the reuse its connection field allows.
   */
  lemma ResponseIsRead(status: string, lines: seq<string>, rest: string, chunks: seq<string>, maxBody: nat,
                       version: string, code: string, reason: string)
    requires NoCrlf(status) && PlainLines(lines) && StatusText(status, version, code, reason)
    requires RecvChunks(chunks) && Concat(chunks) == HeadLines(status, lines) + rest
    ensures ReadChunks("", Searching, chunks, maxBody) ==
            if Complete(lines, rest, maxBody) && CutFits(|HeadLines(status, lines)|, 0, chunks)
            then Some(Received(ResponseValue(Atoi(code), reason, KeptHeaders(lines), rest[..LengthGiven(lines).value]),
                               SaysReusable(lines)))
            else None
    ensures code != "" && AllDigits(code) ==> Atoi(code) == Value(code)
  {
    hide HeadLines, LinesFit, LengthGiven, SaysReusable, KeptHeaders, NoCrlf, StatusText, Atoi, ReadChunks, CutFits, AllDigits, Value;
    if code != "" && AllDigits(code) { AtoiOfDigits(code); }
    SectionIsRead(status, lines, "", maxBody);
    var wire := HeadLines(status, lines) + rest;
    assert wire[0..] == wire && wire[..0] == "";
    ReadsText(status, lines, rest, maxBody, 0, chunks);
  }

  // ----- Nothing else is received

  lemma {:induction false} NoBlankLine(raw: string, chunks: seq<string>, maxBody: nat)
    requires FindBlankLine(raw + Concat(chunks)) == -1
    ensures ReadChunks(raw, Searching, chunks, maxBody) == None
    decreases |chunks|
  {
    hide FindBlankLine, ReadHead, Finish;
    if chunks == [] {
    } else {
      var raw' := raw + chunks[0];
      assert raw + Concat(chunks) == raw' + Concat(chunks[1..]);
      if FindBlankLine(raw') != -1 { BlankLineAppend(raw', Concat(chunks[1..])); }
      NoBlankLine(raw', chunks[1..], maxBody);
    }
  }

  /** A text with a blank line is a status line, header lines and a rest. */
  lemma SplitsAtBlank(raw: string) returns (status: string, lines: seq<string>, rest: string)
    requires FindBlankLine(raw) != -1
    ensures NoCrlf(status) && PlainLines(lines) && raw == HeadLines(status, lines) + rest
  {
    hide FindBlankLine, FindCrlf, NoCrlf, PlainLines, JoinLines;
    var i := FindBlankLine(raw);
    var e := FindCrlf(raw, 0);
    assert CrlfAt(raw, i);
    assert 0 <= e <= i;
    LineHasNoCrlf(raw);
    status := raw[..e];
    var tail;
    lines, tail := LineForms.FinishedLines(raw[e + 2..]);
    assert raw == status + CRLF + (JoinLines(lines) + tail);
    EndsInBlank(raw, status, lines, tail);
    rest := tail[2..];
    assert tail == CRLF + rest;
  }

  lemma EndsInBlank(raw: string, status: string, lines: seq<string>, tail: string)
    requires raw == status + CRLF + (JoinLines(lines) + tail) && FindBlankLine(raw) != -1
    requires NoCrlf(status) && PlainLines(lines) && (NoCrlf(tail) || CrlfAt(tail, 0))
    ensures CrlfAt(tail, 0)
  {
    hide FindBlankLine, NoCrlf;
    if !CrlfAt(tail, 0) {
      assert raw == status + CRLF + JoinLines(lines) + tail;
      NoBlankBefore(status, lines, tail);
    }
  }

  lemma {:induction false} NoBlankBefore(line: string, lines: seq<string>, tail: string)
    requires NoCrlf(line) && PlainLines(lines) && NoCrlf(tail)
    ensures FindBlankLine(line + CRLF + JoinLines(lines) + tail) == -1
    decreases |lines|
  {
    hide FindBlankLine, NoCrlf;
    var after := JoinLines(lines) + tail;
    assert line + CRLF + JoinLines(lines) + tail == line + CRLF + after;
    BlankAfterLine(line, after);
    if lines == [] {
      assert after == tail;
      NoLineEnds(tail);
    } else {
      var next := lines[0];
      assert PlainLine(next);
      assert after == next + CRLF + JoinLines(lines[1..]) + tail;
      FindCrlfAfterLine(next, JoinLines(lines[1..]) + tail);
      assert after == next + CRLF + (JoinLines(lines[1..]) + tail);
      assert !CrlfAt(after, 0);
      NoBlankBefore(next, lines[1..], tail);
    }
  }

  lemma NoLineEnds(tail: string)
    requires NoCrlf(tail)
    ensures FindBlankLine(tail) == -1 && !CrlfAt(tail, 0)
  {
    hide FindBlankLine;
    var i := FindBlankLine(tail);
    assert !CrlfAt(tail, 0);
    assert i != -1 ==> CrlfAt(tail, i);
  }

  /** Whatever is received, in any cut, is such a text, and its headers, body and reuse are what that text says. */
  lemma ReceivedIsText(chunks: seq<string>, maxBody: nat) returns (status: string, lines: seq<string>, rest: string)
    requires RecvChunks(chunks) && ReadChunks("", Searching, chunks, maxBody).Some?
    ensures NoCrlf(status) && PlainLines(lines) && Concat(chunks) == HeadLines(status, lines) + rest
    ensures Complete(lines, rest, maxBody) && SaysSo(ReadChunks("", Searching, chunks, maxBody).value, lines, rest)
  {
    hide HeadLines, LinesFit, LengthGiven, SaysReusable, KeptHeaders, NoCrlf, ReadChunks, CutFits, FindBlankLine, FindCrlf, SaysSo;
    assert "" + Concat(chunks) == Concat(chunks);
    if FindBlankLine(Concat(chunks)) == -1 { NoBlankLine("", chunks, maxBody); }
    status, lines, rest := SplitsAtBlank(Concat(chunks));
    SectionIsRead(status, lines, "", maxBody);
    var wire := HeadLines(status, lines) + rest;
    assert wire[0..] == wire && wire[..0] == "";
    ReadsText(status, lines, rest, maxBody, 0, chunks);
  }
}
