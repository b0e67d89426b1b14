/** `HttpResponse` (include/http/HttpResponse.hpp): header edits and the wire form. */
module Response {
  import opened Text
  import opened Decimal
  import opened BackendRequest

  datatype Header = Header(name: string, value: string)

  datatype ResponseValue = ResponseValue(statusCode: int, statusText: string, headers: seq<Header>, body: string)

  function PrintInt(n: int): string {
    if n < 0 then "-" + Print(-n) else Print(n)
  }

  /** Replaces the value of the first header with exactly this name, or adds one at the end. */
  function SetFirst(headers: seq<Header>, name: string, value: string): (r: seq<Header>)
  {
    if headers == [] then [Header(name, value)]
    else if headers[0].name == name then [Header(name, value)] + headers[1..]
    else [headers[0]] + SetFirst(headers[1..], name, value)
  }

  predicate HasName(headers: seq<Header>, name: string) {
    exists i :: 0 <= i < |headers| && headers[i].name == name
  }

  function HeaderLines(headers: seq<Header>): seq<string> {
    if headers == [] then []
    else [FieldLine(headers[0].name, headers[0].value)] + HeaderLines(headers[1..])
  }

  function ConnectionToken(keepAlive: bool): string {
    if keepAlive then "keep-alive" else "close"
  }

  /** The fields on the wire: the stored ones, then the two the writer adds when they are missing. */
  function WireHeaders(r: ResponseValue, keepAlive: bool): seq<Header> {
    r.headers
    + (if HasName(r.headers, "Content-Length") then [] else [Header("Content-Length", Print(|r.body|))])
    + (if HasName(r.headers, "Connection") then [] else [Header("Connection", ConnectionToken(keepAlive))])
  }

  function StatusLine(r: ResponseValue): string {
    "HTTP/1.1 " + PrintInt(r.statusCode) + " " + r.statusText
  }

  function Serialized(r: ResponseValue, keepAlive: bool): string {
    StatusLine(r) + CRLF + JoinLines(HeaderLines(WireHeaders(r, keepAlive))) + CRLF + r.body
  }

  lemma {:induction false} HeaderLinesSnoc(headers: seq<Header>, h: Header)
    ensures HeaderLines(headers + [h]) == HeaderLines(headers) + [FieldLine(h.name, h.value)]
  {
    if headers == [] {
      assert [h][1..] == [];
    } else {
      assert (headers + [h])[1..] == headers[1..] + [h];
      HeaderLinesSnoc(headers[1..], h);
    }
  }

  lemma {:induction false} SetFirstSplits(headers: seq<Header>, k: nat, name: string, value: string)
    requires k <= |headers|
    requires forall i :: 0 <= i < k ==> headers[i].name != name
    ensures SetFirst(headers, name, value) == headers[..k] + SetFirst(headers[k..], name, value)
  {
    if k == 0 {
    } else {
      SetFirstSplits(headers[1..], k - 1, name, value);
      assert headers[1..][k - 1..] == headers[k..];
      assert [headers[0]] + headers[1..][..k - 1] == headers[..k];
    }
  }

  /** The first header with exactly this name, or the number of headers. */
  function FirstNamed(headers: seq<Header>, name: string): (k: nat)
    ensures k <= |headers| && (k < |headers| ==> headers[k].name == name)
    ensures forall i :: 0 <= i < k ==> headers[i].name != name
  {
    if headers == [] || headers[0].name == name then 0 else 1 + FirstNamed(headers[1..], name)
  }

  lemma FirstStep(headers: seq<Header>, name: string, value: string)
    requires headers != [] && headers[0].name != name
    ensures FirstNamed(headers, name) == 1 + FirstNamed(headers[1..], name)
    ensures SetFirst(headers, name, value) == [headers[0]] + SetFirst(headers[1..], name, value)
  {
  }

  lemma {:induction false} SetFirstAt(headers: seq<Header>, name: string, value: string)
    ensures var k, h := FirstNamed(headers, name), Header(name, value);
            SetFirst(headers, name, value) == if k < |headers| then headers[k := h] else headers + [h]
  {
    var k, h := FirstNamed(headers, name), Header(name, value);
    if headers == [] {
    } else if headers[0].name == name {
      assert [h] + headers[1..] == headers[0 := h];
    } else {
      hide FirstNamed, SetFirst;
      var tail := headers[1..];
      SetFirstAt(tail, name, value);
      FirstStep(headers, name, value);
      assert headers == [headers[0]] + tail;
    }
  }

  /** `setHeader` changes the first header of that name, or adds one at the end, and touches no other header. */
  lemma SetFirstMeans(headers: seq<Header>, name: string, value: string)
    ensures var r, k, h := SetFirst(headers, name, value), FirstNamed(headers, name), Header(name, value);
            && (HasName(headers, name) ==> k < |headers| && r == headers[k := h])
            && (!HasName(headers, name) ==> r == headers + [h])
            && h in r
  {
    hide FirstNamed, SetFirst;
    SetFirstAt(headers, name, value);
    var r, k := SetFirst(headers, name, value), FirstNamed(headers, name);
    assert r[k] == Header(name, value);
  }

  class HttpResponse {
    var statusCode: int
    var statusText: string
    var headers: seq<Header>
    var body: string

    function Value(): ResponseValue
      reads this
    {
      ResponseValue(statusCode, statusText, headers, body)
    }

    constructor Make(code: int, text: string, body_: string)
      ensures Value() == ResponseValue(code, text, [], body_)
    {
      statusCode, statusText, headers, body := code, text, [], body_;
    }

    method SetHeader(name: string, value: string)
      modifies `headers
      ensures headers == SetFirst(old(headers), name, value)
    {
      for i := 0 to |headers|
        invariant headers == old(headers)
        invariant forall j :: 0 <= j < i ==> headers[j].name != name
      {
        if headers[i].name == name {
          SetFirstSplits(headers, i, name, value);
          headers := headers[i := Header(name, value)];
          assert headers == old(headers)[..i] + ([Header(name, value)] + old(headers)[i..][1..]);
          return;
        }
      }
      SetFirstSplits(headers, |headers|, name, value);
      assert headers[..|headers|] == headers;
      headers := headers + [Header(name, value)];
    }

    method Serialize(keepAlive: bool) returns (wire: string)
      ensures wire == Serialized(Value(), keepAlive)
    {
      hide JoinLines, FieldLine, Print, PrintInt;
      wire := "HTTP/1.1 " + PrintInt(statusCode) + " " + statusText + CRLF;
      ghost var start := StatusLine(Value()) + CRLF;
      assert wire == start;
      NoLines(start);
      ghost var done: seq<Header> := [];
      var hasContentLength, hasConnection := false, false;
      for i := 0 to |headers|
        invariant done == headers[..i]
        invariant wire == start + JoinLines(HeaderLines(done))
        invariant hasContentLength == HasName(headers[..i], "Content-Length")
        invariant hasConnection == HasName(headers[..i], "Connection")
      {
        var h := headers[i];
        HasNameSnoc(headers, i, "Content-Length");
        HasNameSnoc(headers, i, "Connection");
        if h.name == "Content-Length" { hasContentLength := true; }
        if h.name == "Connection" { hasConnection := true; }
        wire := WriteLine(wire, h.name, h.value, start, HeaderLines(done));
        HeaderLinesSnoc(done, h);
        done := done + [h];
      }
      assert headers[..|headers|] == headers;
      if !hasContentLength {
        wire := WriteLine(wire, "Content-Length", Print(|body|), start, HeaderLines(done));
        HeaderLinesSnoc(done, Header("Content-Length", Print(|body|)));
        done := done + [Header("Content-Length", Print(|body|))];
      }
      if !hasConnection {
        wire := WriteLine(wire, "Connection", if keepAlive then "keep-alive" else "close", start, HeaderLines(done));
        HeaderLinesSnoc(done, Header("Connection", ConnectionToken(keepAlive)));
        done := done + [Header("Connection", ConnectionToken(keepAlive))];
      }
      assert done == WireHeaders(Value(), keepAlive);
      wire := wire + CRLF + body;
    }
  }

  lemma HasNameSnoc(headers: seq<Header>, i: nat, name: string)
    requires i < |headers|
    ensures HasName(headers[..i + 1], name) <==> HasName(headers[..i], name) || headers[i].name == name
  {
  }
}
