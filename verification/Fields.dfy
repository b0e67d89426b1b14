/** What an accepted header section means, field by field, without the order in which the parser works. */
module Fields {
  import opened Text
  import opened RequestSyntax
  import opened RequestRoundTrip

  predicate IsField(line: string) {
    ParseField(line).Ok?
  }

  predicate HasKey(line: string, key: string) {
    IsField(line) && ParseField(line).value.key == key
  }

  /** Two lines that give the same framing field. */
  predicate Clash(line: string, other: string) {
    || (HasKey(line, "content-length") && HasKey(other, "content-length"))
    || (HasKey(line, "transfer-encoding") && HasKey(other, "transfer-encoding"))
    || (HasKey(line, "host") && HasKey(other, "host"))
  }

  /** Every line is a field, there are at most 100, and no framing field occurs twice. */
  ghost predicate WellFormed(lines: seq<string>) {
    && |lines| <= 100
    && (forall i :: 0 <= i < |lines| ==> IsField(lines[i]))
    && (forall i, j :: 0 <= i < j < |lines| ==> !Clash(lines[i], lines[j]))
  }

  /** The last line that gives `key`, or -1. */
  function LastWith(lines: seq<string>, key: string): (k: int)
    ensures -1 <= k < |lines|
  {
    if lines == [] then -1
    else if HasKey(lines[|lines| - 1], key) then |lines| - 1
    else LastWith(lines[..|lines| - 1], key)
  }

  lemma {:induction false} LastWithMeans(lines: seq<string>, key: string)
    ensures var k := LastWith(lines, key);
            && (k >= 0 ==> HasKey(lines[k], key))
            && forall j :: k < j < |lines| ==> !HasKey(lines[j], key)
  {
    hide HasKey;
    if lines != [] && !HasKey(lines[|lines| - 1], key) {
      LastWithMeans(lines[..|lines| - 1], key);
    }
  }

  function ValueOf(line: string): string {
    if IsField(line) then ParseField(line).value.value else ""
  }

  /** The map holds exactly the names that occur, each with its last value. */
  ghost predicate LastValues(lines: seq<string>, h: Headers) {
    forall key ::
      && (key in h <==> LastWith(lines, key) >= 0)
      && (key in h ==> h[key] == ValueOf(lines[LastWith(lines, key)]))
  }

  lemma SnocLastValues(lines: seq<string>, line: string, h: Headers)
    requires LastValues(lines, h) && AddLine(h, |lines|, line).Added?
    ensures LastValues(lines + [line], AddLine(h, |lines|, line).headers)
  {
  }

  lemma SnocWellFormed(lines: seq<string>, line: string, h: Headers)
    requires WellFormed(lines) && LastValues(lines, h)
    ensures WellFormed(lines + [line]) <==> AddLine(h, |lines|, line).Added?
  {
    hide ParseField, LastWith;
    var all := lines + [line];
    assert all[|lines|] == line;
    assert forall i :: 0 <= i < |lines| ==> all[i] == lines[i];
    if IsField(line) {
      var key := ParseField(line).value.key;
      var k := LastWith(lines, key);
      LastWithMeans(lines, key);
      assert key in h ==> HasKey(lines[k], key) && (FramingKey(key) ==> Clash(all[k], all[|lines|]));
      assert key !in h ==> forall j :: 0 <= j < |lines| ==> !HasKey(lines[j], key);
    }
  }

  lemma PrefixWellFormed(lines: seq<string>, line: string)
    requires WellFormed(lines + [line])
    ensures WellFormed(lines)
  {
    hide IsField, Clash;
    var all := lines + [line];
    assert forall i :: 0 <= i < |lines| ==> all[i] == lines[i];
  }

  /**
    A header section is accepted if and only if it is well formed; the map then holds every
    name once with the last value given for it, and the counter the number of lines.
   */
  lemma {:induction false} AcceptedIffWellFormed(lines: seq<string>)
    ensures AddLines(map[], 0, lines).Added? <==> WellFormed(lines)
    ensures AddLines(map[], 0, lines).Added? ==>
              AddLines(map[], 0, lines).count == |lines| && LastValues(lines, AddLines(map[], 0, lines).headers)
  {
    hide AddLine, WellFormed, LastValues;
    if lines == [] {
      NoLinesWellFormed();
    } else {
      var before, line := lines[..|lines| - 1], lines[|lines| - 1];
      assert lines == before + [line];
      AcceptedIffWellFormed(before);
      AddLinesAppend(map[], 0, before, [line]);
      if WellFormed(before) {
        var h := AddLines(map[], 0, before).headers;
        SnocWellFormed(before, line, h);
        if AddLine(h, |before|, line).Added? {
          SnocLastValues(before, line, h);
        }
        OneLine(h, |before|, line);
      } else if WellFormed(lines) {
        PrefixWellFormed(before, line);
      }
    }
  }

  lemma NoLinesWellFormed()
    ensures WellFormed([]) && LastValues([], map[])
  {
  }

  lemma OneLine(h: Headers, c: nat, line: string)
    ensures AddLines(h, c, [line]) == AddLine(h, c, line)
    ensures AddLine(h, c, line).Added? ==> AddLine(h, c, line).count == c + 1
  {
  }

  // ----- The wrapped length in `trim`

  /**
    A value of carriage returns alone is accepted and read as empty, but one blank in front
    of them makes the header invalid.
   */
  lemma ReturnsAlone(key: string, n: nat)
    requires CleanKey(key)
    ensures ParseField(key + ":" + Repeat('\r', n)) == Ok(Field(ToLower(key), ""))
    ensures ParseField(key + ": " + Repeat('\r', n + 1)) == Err(InvalidHeader)
  {
    hide FindChar, Trim, ToLower, Repeat;
    CleanKeyIsValue(key);
    TrimOfClean(key);
    LowerStaysClean(key);
    SplitField(key, Repeat('\r', n));
    SplitField(key, " " + Repeat('\r', n + 1));
    TrimReturns(n);
    assert key + ": " + Repeat('\r', n + 1) == key + ":" + (" " + Repeat('\r', n + 1));
    assert Repeat('\r', n + 1)[0] == '\r';
  }

  lemma TrimReturns(n: nat)
    ensures Trim(Repeat('\r', n)) == ""
    ensures Trim(" " + Repeat('\r', n + 1)) == Repeat('\r', n + 1)
  {
    hide FirstNotOf, LastNotOf, Repeat;
    var v, w := Repeat('\r', n), " " + Repeat('\r', n + 1);
    assert n > 0 ==> v[0] == '\r';
    assert n > 0 ==> FirstNotOf(v, {' ', '\t'}) == 0;
    assert LastNotOf(v, {' ', '\t', '\r'}) == -1;
    assert w[1] == '\r';
    assert FirstNotOf(w, {' ', '\t'}) == 1;
    assert forall i :: 0 <= i < |w| ==> w[i] in {' ', '\r'};
  }

  lemma SplitField(key: string, rest: string)
    requires CleanKey(key)
    ensures var line := key + ":" + rest;
            FindChar(line, ':') == |key| && line[..|key|] == key && line[|key| + 1..] == rest
  {
    hide FindChar;
    var line := key + ":" + rest;
    assert forall i :: 0 <= i < |key| ==> line[i] == key[i] && key[i] !in {' ', '\t', '\r', '\n', ':'};
    assert line[|key|] == ':';
  }

  lemma LowerStaysClean(key: string)
    requires CleanKey(key)
    ensures ToLower(key) != "" && !ContainsAny(ToLower(key), {' ', '\t', '\r', '\n'})
  {
  }
}
