/** The std::string searches the gateway relies on, each specified by the index it finds. */
module Text {

  datatype Option<+T> = None | Some(value: T)

  datatype Result<+T, +E> = Ok(value: T) | Err(error: E)

  const CRLF: string := "\r\n"

  predicate CrlfAt(s: string, i: int) {
    0 <= i && i + 1 < |s| && s[i] == '\r' && s[i + 1] == '\n'
  }

  predicate NoCrlf(s: string) {
    forall i :: 0 <= i < |s| ==> !CrlfAt(s, i)
  }

  /** `s.find("\r\n", from)`, with -1 for npos. */
  function FindCrlf(s: string, from: nat): (r: int)
    ensures r == -1 ==> forall i :: from <= i ==> !CrlfAt(s, i)
    ensures r != -1 ==> from <= r && CrlfAt(s, r)
    ensures r != -1 ==> forall i :: from <= i < r ==> !CrlfAt(s, i)
    decreases |s| - from
  {
    if from + 1 >= |s| then -1
    else if CrlfAt(s, from) then from
    else FindCrlf(s, from + 1)
  }

  /** `s.find(c, from)`, with -1 for npos. */
  function FindChar(s: string, c: char, from: nat := 0): (r: int)
    ensures r == -1 ==> forall i :: from <= i < |s| ==> s[i] != c
    ensures r != -1 ==> from <= r < |s| && s[r] == c
    ensures r != -1 ==> forall i :: from <= i < r ==> s[i] != c
    decreases |s| - from
  {
    if from >= |s| then -1
    else if s[from] == c then from
    else FindChar(s, c, from + 1)
  }

  /** `s.rfind(c)`, with -1 for npos. */
  function RFindChar(s: string, c: char): (r: int)
    ensures r == -1 ==> forall i :: 0 <= i < |s| ==> s[i] != c
    ensures r != -1 ==> 0 <= r < |s| && s[r] == c
    ensures r != -1 ==> forall i :: r < i < |s| ==> s[i] != c
  {
    if s == "" then -1
    else if s[|s| - 1] == c then |s| - 1
    else RFindChar(s[..|s| - 1], c)
  }

  /** `s.find_first_not_of(cs, from)`, with -1 for npos. */
  function FirstNotOf(s: string, cs: set<char>, from: nat := 0): (r: int)
    ensures r == -1 ==> forall i :: from <= i < |s| ==> s[i] in cs
    ensures r != -1 ==> from <= r < |s| && s[r] !in cs
    ensures r != -1 ==> forall i :: from <= i < r ==> s[i] in cs
    decreases |s| - from
  {
    if from >= |s| then -1
    else if s[from] !in cs then from
    else FirstNotOf(s, cs, from + 1)
  }

  /** `s.find_last_not_of(cs)`, with -1 for npos. */
  function LastNotOf(s: string, cs: set<char>): (r: int)
    ensures r == -1 ==> forall i :: 0 <= i < |s| ==> s[i] in cs
    ensures r != -1 ==> 0 <= r < |s| && s[r] !in cs
    ensures r != -1 ==> forall i :: r < i < |s| ==> s[i] in cs
  {
    if s == "" then -1
    else if s[|s| - 1] !in cs then |s| - 1
    else LastNotOf(s[..|s| - 1], cs)
  }

  /** Whether `s.find_first_of(cs)` finds anything. */
  predicate ContainsAny(s: string, cs: set<char>) {
    exists i :: 0 <= i < |s| && s[i] in cs
  }

  predicate MatchAt(s: string, pat: string, i: int) {
    0 <= i <= |s| - |pat| && s[i..i + |pat|] == pat
  }

  /** Whether `s.find(pat)` finds `pat`. */
  predicate Contains(s: string, pat: string) {
    exists i :: 0 <= i <= |s| && MatchAt(s, pat, i)
  }

  /** `word` stands somewhere in `s`. */
  ghost predicate Holds(s: string, word: string) {
    exists pre, post :: s == pre + word + post
  }

  lemma ContainsForm(s: string, word: string)
    ensures Contains(s, word) <==> Holds(s, word)
  {
    if Contains(s, word) {
      var i :| 0 <= i <= |s| && MatchAt(s, word, i);
      assert s == s[..i] + word + s[i + |word|..];
    }
    if Holds(s, word) {
      var pre, post :| s == pre + word + post;
      assert MatchAt(s, word, |pre|);
    }
  }

  /** An enumeration of the keys of a map, each key once, in any order. */
  ghost predicate Enumerates<V>(order: seq<string>, m: map<string, V>) {
    && (forall k :: k in order <==> k in m)
    && (forall i, j :: 0 <= i < j < |order| ==> order[i] != order[j])
  }

  // ----- Lines, and bytes that arrive in pieces

  predicate PlainLine(line: string) {
    line != "" && NoCrlf(line)
  }

  predicate PlainLines(lines: seq<string>) {
    forall i :: 0 <= i < |lines| ==> PlainLine(lines[i])
  }

  function Concat(chunks: seq<string>): string {
    if chunks == [] then "" else chunks[0] + Concat(chunks[1..])
  }

  lemma {:induction false} ConcatAppend(a: seq<string>, b: seq<string>)
    ensures Concat(a + b) == Concat(a) + Concat(b)
  {
    if a == [] {
      assert a + b == b;
    } else {
      assert (a + b)[1..] == a[1..] + b;
      ConcatAppend(a[1..], b);
    }
  }

  lemma ConcatSnoc(chunks: seq<string>)
    requires chunks != []
    ensures Concat(chunks) == Concat(chunks[..|chunks| - 1]) + chunks[|chunks| - 1]
  {
    var before, last := chunks[..|chunks| - 1], chunks[|chunks| - 1];
    assert chunks == before + [last];
    ConcatAppend(before, [last]);
    assert [last][1..] == [];
    assert Concat([last]) == last;
  }

  /** `n` copies of a character. */
  function Repeat(c: char, n: nat): (s: string)
    ensures |s| == n && forall i :: 0 <= i < n ==> s[i] == c
  {
    if n == 0 then "" else Repeat(c, n - 1) + [c]
  }

  function LowerChar(c: char): char {
    if 'A' <= c <= 'Z' then (c as int + 32) as char else c
  }

  function ToLower(s: string): (r: string)
    ensures |r| == |s|
    ensures forall i :: 0 <= i < |s| ==> r[i] == LowerChar(s[i])
  {
    seq(|s|, i requires 0 <= i < |s| => LowerChar(s[i]))
  }

  predicate IsLower(s: string) {
    forall i :: 0 <= i < |s| ==> LowerChar(s[i]) == s[i]
  }

  lemma ToLowerFixes(s: string)
    requires IsLower(s)
    ensures ToLower(s) == s
  {
  }

  /** A line end found in a prefix stays where it is when bytes are appended. */
  lemma FindCrlfAppend(s: string, ext: string, from: nat)
    requires FindCrlf(s, from) != -1
    ensures FindCrlf(s + ext, from) == FindCrlf(s, from)
  {
    var r := FindCrlf(s, from);
    assert CrlfAt(s + ext, r);
    assert forall i :: 0 <= i < r ==> CrlfAt(s + ext, i) == CrlfAt(s, i);
  }

  /** Searching from a position is searching the suffix that starts there. */
  lemma FindCrlfSuffix(s: string, from: nat)
    requires from <= |s|
    ensures FindCrlf(s[from..], 0) == if FindCrlf(s, from) == -1 then -1 else FindCrlf(s, from) - from
  {
    assert forall i :: 0 <= i ==> CrlfAt(s[from..], i) == CrlfAt(s, i + from);
    var r := FindCrlf(s[from..], 0);
    if r != -1 { assert CrlfAt(s, r + from); }
    var q := FindCrlf(s, from);
    if q != -1 { assert CrlfAt(s[from..], q - from); }
  }

  /** A CRLF-free line followed by CRLF ends exactly there. */
  lemma FindCrlfAfterLine(line: string, after: string)
    requires NoCrlf(line)
    ensures FindCrlf(line + CRLF + after, 0) == |line|
  {
    var s := line + CRLF + after;
    assert CrlfAt(s, |line|);
    forall i | 0 <= i < |line|
      ensures !CrlfAt(s, i)
    {
      assert !CrlfAt(line, i);
    }
  }

  /** What precedes the first line end holds no line end. */
  lemma LineHasNoCrlf(s: string)
    requires FindCrlf(s, 0) != -1
    ensures NoCrlf(s[..FindCrlf(s, 0)])
    ensures s == s[..FindCrlf(s, 0)] + CRLF + s[FindCrlf(s, 0) + 2..]
  {
    var e := FindCrlf(s, 0);
    forall i | 0 <= i < e
      ensures !CrlfAt(s[..e], i)
    {
      assert !CrlfAt(s, i);
    }
  }
}
