/**
  What a connection serves: draining stops after a request that does not keep the connection
  alive and after an error, and once the replies are flushed the connection is closed. The
  handler closes exactly after such a request, whatever it answers (src/core/Gateway.cpp:120-187).
 */
module Serving {
  import opened RequestSyntax
  import opened ParserMachine
  import opened Resumption
  import opened Chunking

  datatype Turn = Turn(parser: ParserState, requests: seq<HttpRequest>, failed: bool, closing: bool)

  /** The drain loop after one read. */
  function Serve(s: ParserState): (t: Turn)
    requires Valid(s)
    ensures Valid(t.parser)
    decreases |s.buffer|
  {
    var r := Resume(s);
    match r.status
    case Incomplete => Turn(r.state, [], false, false)
    case Failed(_) => Turn(r.state, [], true, true)
    case Complete(req) =>
      if !req.keepAlive then Turn(r.state, [req], false, true)
      else var t := Serve(r.state); t.(requests := [req] + t.requests)
  }

  // ----- Up to the first request that ends the connection

  predicate AllStay(rs: seq<HttpRequest>) {
    forall i :: 0 <= i < |rs| ==> rs[i].keepAlive
  }

  function UpToClose(rs: seq<HttpRequest>): seq<HttpRequest> {
    if rs == [] then [] else if !rs[0].keepAlive then [rs[0]] else [rs[0]] + UpToClose(rs[1..])
  }

  lemma {:induction false} UpToCloseAppend(a: seq<HttpRequest>, b: seq<HttpRequest>)
    ensures UpToClose(a + b) == if AllStay(a) then a + UpToClose(b) else UpToClose(a)
  {
    if a == [] {
      assert a + b == b;
    } else {
      assert (a + b)[1..] == a[1..] + b;
      UpToCloseAppend(a[1..], b);
      assert AllStay(a) <==> a[0].keepAlive && AllStay(a[1..]);
    }
  }

  lemma StayingIsAll(a: seq<HttpRequest>)
    requires AllStay(a)
    ensures UpToClose(a) == a
  {
    UpToCloseAppend(a, []);
    assert a + [] == a;
  }

  lemma {:induction false} ServeStopsDrain(s: ParserState)
    requires Valid(s)
    ensures var t, d := Serve(s), Drain(s);
            && t.requests == UpToClose(d.requests)
            && t.failed == (d.failed && AllStay(d.requests))
            && t.closing == (d.failed || !AllStay(d.requests))
            && (AllStay(d.requests) ==> t.parser == d.state)
    decreases |s.buffer|
  {
    hide Resume;
    var r := Resume(s);
    if r.status.Complete? {
      ServeStopsDrain(r.state);
      var req, d := r.status.req, Drain(r.state);
      assert ([req] + d.requests)[1..] == d.requests;
      assert AllStay([req] + d.requests) <==> req.keepAlive && AllStay(d.requests) by {
        assert ([req] + d.requests)[0] == req;
      }
    }
  }

  /** Serving a coherent parser serves the stream in its buffer. */
  lemma ServeReads(s: ParserState)
    requires Coherent(s)
    ensures var t, r := Serve(s), ReadStream(s.buffer);
            && t.requests == UpToClose(r.requests)
            && t.failed == (r.rejected.Some? && AllStay(r.requests))
            && t.closing == (r.rejected.Some? || !AllStay(r.requests))
            && (AllStay(r.requests) ==> t.parser.buffer == r.rest)
  {
    hide Serve, Drain, UpToClose, ReadStream;
    ServeStopsDrain(s);
    DrainReads(s);
  }

  // ----- The read loop of a wakeup

  // `Got("")` is end of stream.
  datatype RecvResult = Got(data: string) | WouldBlock | Interrupted | ReadError

  const RECV_SIZE: nat := 16384

  datatype Intake = Intake(bytes: string, drained: bool)

  /** Reads until a short read or nothing is there; end of stream and errors leave the bytes undrained. */
  function Recv(results: seq<RecvResult>): Intake
    decreases |results|
  {
    if results == [] then Intake("", true)
    else match results[0]
      case WouldBlock => Intake("", true)
      case ReadError => Intake("", false)
      case Interrupted => Recv(results[1..])
      case Got(data) =>
        if data == "" then Intake("", false)
        else if |data| < RECV_SIZE then Intake(data, true)
        else var r := Recv(results[1..]); Intake(data + r.bytes, r.drained)
  }

  /** Reads after which the loop goes on: interrupted, or a full buffer of 16384 bytes. */
  predicate GoesOn(r: RecvResult) {
    r.Interrupted? || (r.Got? && |r.data| >= 16384)
  }

  function AllData(results: seq<RecvResult>): string {
    if results == [] then "" else (if results[0].Got? then results[0].data else "") + AllData(results[1..])
  }

  lemma ReadOn(r: RecvResult, rest: seq<RecvResult>)
    requires GoesOn(r)
    ensures Recv([r] + rest) == Intake((if r.Got? then r.data else "") + Recv(rest).bytes, Recv(rest).drained)
    ensures AllData([r] + rest) == (if r.Got? then r.data else "") + AllData(rest)
  {
    assert ([r] + rest)[1..] == rest;
  }

  lemma ReadStops(rest: seq<RecvResult>)
    requires rest != [] ==> !GoesOn(rest[0])
    ensures Recv(rest) == Intake(if rest != [] && rest[0].Got? then rest[0].data else "",
                                 rest == [] || (!rest[0].ReadError? && rest[0] != Got("")))
    ensures AllData([]) == ""
  {
  }

  /**
    The read loop takes everything up to and with the first read that is not full; the bytes
    count as drained unless that read is an error or the end of the stream.
   */
  lemma {:induction false} RecvMeans(full: seq<RecvResult>, rest: seq<RecvResult>)
    requires (forall i :: 0 <= i < |full| ==> GoesOn(full[i])) && (rest != [] ==> !GoesOn(rest[0]))
    ensures Recv(full + rest) ==
            Intake(AllData(full) + (if rest != [] && rest[0].Got? then rest[0].data else ""),
                   rest == [] || (!rest[0].ReadError? && rest[0] != Got("")))
    decreases |full|
  {
    hide Recv, AllData, GoesOn;
    ReadStops(rest);
    if full == [] {
      assert full + rest == rest;
    } else {
      var tail := full[1..];
      assert full == [full[0]] + tail && full + rest == [full[0]] + (tail + rest);
      ReadOn(full[0], tail + rest);
      ReadOn(full[0], tail);
      RecvMeans(tail, rest);
    }
  }

  // ----- Wakeups of a connection on any socket

  // `flushed`: the socket took all replies before the next wakeup.
  datatype Round = Round(bytes: string, drained: bool, flushed: bool)

  // `closing`: the last reply asked for a close that still waits for the socket.
  datatype Session = Session(
    parser: ParserState, requests: seq<HttpRequest>, rejected: bool, closing: bool, closed: bool)

  /** One wakeup: a round that ends in end of stream or an error closes before its bytes are looked at. */
  function Wake(c: Session, r: Round): (c': Session)
    requires Valid(c.parser)
    ensures Valid(c'.parser)
  {
    if c.closed then c
    else if !r.drained then c.(parser := c.parser.Append(r.bytes), closed := true)
    else
      var t := Serve(c.parser.Append(r.bytes));
      var closing := if t.requests == [] && !t.failed then c.closing else t.closing;
      Session(t.parser, c.requests + t.requests, c.rejected || t.failed, closing && !r.flushed, closing && r.flushed)
  }

  function WakeAll(rounds: seq<Round>): (c: Session)
    ensures Valid(c.parser)
  {
    if rounds == [] then Session(FreshParser(""), [], false, false, false)
    else Wake(WakeAll(rounds[..|rounds| - 1]), rounds[|rounds| - 1])
  }

  lemma WakeNext(rounds: seq<Round>, r: Round)
    ensures WakeAll(rounds + [r]) == Wake(WakeAll(rounds), r)
  {
    hide Wake;
    assert (rounds + [r])[..|rounds|] == rounds;
  }

  /** The bytes that were drained while the connection was open. */
  function Taken(rounds: seq<Round>): string {
    if rounds == [] then ""
    else
      var before, r := rounds[..|rounds| - 1], rounds[|rounds| - 1];
      Taken(before) + if !WakeAll(before).closed && r.drained then r.bytes else ""
  }

  // ----- What a wakeup leaves behind

  /** What was served, followed by what the buffer still holds, is the stream. */
  ghost predicate Stands(parser: ParserState, requests: seq<HttpRequest>, stream: Stream) {
    || (var r := ReadStream(parser.buffer);
        && Coherent(parser) && stream == Stream(requests + r.requests, r.rest, r.rejected)
        && (AllStay(requests) ==> r.requests == []))
    || (Doomed(parser) && Final(stream.rejected) && stream.requests == requests && stream.rest == parser.buffer)
  }

  lemma {:induction false} ServeLeaves(s: ParserState)
    requires Coherent(s)
    ensures var t := Serve(s);
            && Stands(t.parser, t.requests, ReadStream(s.buffer))
            && (t.closing <==> t.failed || !AllStay(t.requests))
            && UpToClose(t.requests) == t.requests
            && (t.failed ==> AllStay(t.requests) && ReadStream(s.buffer).rejected.Some?)
            && (!t.failed && AllStay(t.requests) ==> ReadStream(s.buffer).rejected.None?)
    decreases |s.buffer|
  {
    hide Resume, ParseOne, Future, Doomed;
    ResumeAgrees(s);
    var r := Resume(s);
    match r.status
    case Incomplete =>
    case Failed(error) =>
      if !error.LengthLimit() { RejectionDooms(s); }
    case Complete(req) =>
      if req.keepAlive {
        ServeLeaves(r.state);
        KeepsStanding(req, Serve(r.state), ReadStream(r.state.buffer));
      } else {
        assert [req][1..] == [];
        assert !AllStay([req]) by { assert [req][0] == req; }
      }
  }

  lemma KeepsStanding(req: HttpRequest, t: Turn, stream: Stream)
    requires req.keepAlive && Stands(t.parser, t.requests, stream) && UpToClose(t.requests) == t.requests
    ensures Stands(t.parser, [req] + t.requests, Stream([req] + stream.requests, stream.rest, stream.rejected))
    ensures AllStay([req] + t.requests) <==> AllStay(t.requests)
    ensures UpToClose([req] + t.requests) == [req] + t.requests
  {
    hide Coherent, Doomed, ReadStream;
    Together([req], t.requests);
    assert ([req] + t.requests)[1..] == t.requests;
    var more := ReadStream(t.parser.buffer).requests;
    assert [req] + (t.requests + more) == [req] + t.requests + more;
  }

  lemma Together(a: seq<HttpRequest>, b: seq<HttpRequest>)
    ensures AllStay(a + b) <==> AllStay(a) && AllStay(b)
  {
    assert forall i :: 0 <= i < |a| ==> (a + b)[i] == a[i];
    assert forall i :: 0 <= i < |b| ==> (a + b)[|a| + i] == b[i];
  }

  /** More bytes for the buffer are more bytes for the stream. */
  lemma FeedStands(parser: ParserState, requests: seq<HttpRequest>, b: string, bytes: string)
    requires Stands(parser, requests, ReadStream(b)) && Coherent(parser)
    requires ReadStream(b).requests == requests + ReadStream(parser.buffer).requests
    requires ReadStream(b).rest == ReadStream(parser.buffer).rest
    ensures var r := ReadStream(parser.buffer + bytes);
            ReadStream(b + bytes) == Stream(requests + r.requests, r.rest, r.rejected)
  {
    hide ReadStream, Coherent, Doomed;
    ReadStreamAppend(b, bytes);
    ReadStreamAppend(parser.buffer, bytes);
    var more, e := ReadStream(parser.buffer).requests, ReadStream(ReadStream(b).rest + bytes);
    assert requests + more + e.requests == requests + (more + e.requests);
  }

  lemma ServeDoomed(s: ParserState)
    requires Doomed(s)
    ensures var t := Serve(s); t.requests == [] && Doomed(t.parser) && t.parser.buffer == s.buffer
  {
    hide Resume;
    DoomedStaysDoomed(s);
  }

  lemma ServeStands(c: Session, b: string, bytes: string)
    requires Valid(c.parser) && Stands(c.parser, c.requests, ReadStream(b))
    ensures var t := Serve(c.parser.Append(bytes)); Stands(t.parser, c.requests + t.requests, ReadStream(b + bytes))
  {
    hide Serve, ReadStream, Coherent, Doomed, AllStay, UpToClose, Final;
    var s := c.parser.Append(bytes);
    var t := Serve(s);
    if Coherent(c.parser) && ReadStream(b).requests == c.requests + ReadStream(c.parser.buffer).requests
       && ReadStream(b).rest == ReadStream(c.parser.buffer).rest {
      AppendKeepsCoherent(c.parser, bytes);
      FeedStands(c.parser, c.requests, b, bytes);
      ServeLeaves(s);
      Together(c.requests, t.requests);
      var more := ReadStream(t.parser.buffer).requests;
      assert c.requests + (t.requests + more) == c.requests + t.requests + more;
    } else {
      AppendKeepsDoomed(c.parser, bytes);
      ServeDoomed(s);
      ReadStreamAppend(b, bytes);
      assert c.requests + [] == c.requests;
    }
  }

  lemma {:induction false} WakeAllStands(rounds: seq<Round>)
    ensures var c := WakeAll(rounds);
            c.closed || Stands(c.parser, c.requests, ReadStream(Taken(rounds)))
    ensures exists parser :: Stands(parser, WakeAll(rounds).requests, ReadStream(Taken(rounds)))
  {
    hide Serve, ReadStream, Coherent, Doomed, Stands;
    if rounds == [] {
      StartStands();
    } else {
      var before, r := rounds[..|rounds| - 1], rounds[|rounds| - 1];
      WakeAllStands(before);
      var c := WakeAll(before);
      if !c.closed && r.drained {
        ServeStands(c, Taken(before), r.bytes);
        assert Stands(WakeAll(rounds).parser, WakeAll(rounds).requests, ReadStream(Taken(rounds)));
      } else {
        assert Taken(rounds) == Taken(before);
      }
    }
  }

  lemma StartStands()
    ensures Stands(FreshParser(""), [], ReadStream(""))
  {
    hide Coherent, ParseOne;
    FreshIsCoherent("");
    NothingToRead();
  }

  // ----- What is served

  lemma ServedBetween(parser: ParserState, requests: seq<HttpRequest>, stream: Stream)
    requires Stands(parser, requests, stream)
    ensures UpToClose(stream.requests) <= UpToClose(requests) <= requests <= stream.requests
    ensures UpToClose(stream.requests) == UpToClose(requests)
  {
    hide Coherent, Doomed, ReadStream, UpToClose;
    PrefixToClose(requests);
    var more := stream.requests[|requests|..];
    if requests + ReadStream(parser.buffer).requests == stream.requests {
      assert more == ReadStream(parser.buffer).requests;
    } else {
      assert more == [];
    }
    assert stream.requests == requests + more;
    UpToCloseAppend(requests, more);
    if AllStay(requests) { StayingIsAll(requests); }
    NoneToClose();
  }

  lemma NoneToClose()
    ensures UpToClose([]) == []
  {
  }

  lemma {:induction false} PrefixToClose(rs: seq<HttpRequest>)
    ensures UpToClose(rs) <= rs
  {
    if rs == [] {
    } else {
      PrefixToClose(rs[1..]);
    }
  }

  /**
    However a stream is cut into rounds, on any socket: a connection serves requests of the stream
    in order, none twice and none skipped, and at least those up to the first that ends the connection.
   */
  lemma ServedInOrder(rounds: seq<Round>)
    ensures var c, r := WakeAll(rounds), ReadStream(Taken(rounds));
            UpToClose(r.requests) <= c.requests <= r.requests
  {
    hide WakeAll, Taken, ReadStream, Stands, UpToClose;
    WakeAllStands(rounds);
    var parser :| Stands(parser, WakeAll(rounds).requests, ReadStream(Taken(rounds)));
    ServedBetween(parser, WakeAll(rounds).requests, ReadStream(Taken(rounds)));
  }

  // ----- Rounds that end in end of stream or an error

  /**
    Such a round serves nothing of its bytes, and the connection has then served everything up
    to its closing request if and only if it had served that request, or the bytes complete none.
   */
  lemma LostAtEnd(rounds: seq<Round>, bytes: string, flushed: bool)
    ensures var c := WakeAll(rounds);
            && WakeAll(rounds + [Round(bytes, false, flushed)]).requests == c.requests
            && (!c.closed ==>
                  (UpToClose(ReadStream(Taken(rounds) + bytes).requests) <= c.requests <==>
                   !AllStay(c.requests) || !ParseOne(c.parser.buffer + bytes).Parsed?))
  {
    hide Serve, ReadStream, Coherent, Doomed, UpToClose, Taken, ParseOne;
    var c, last := WakeAll(rounds), Round(bytes, false, flushed);
    assert (rounds + [last])[..|rounds|] == rounds;
    WakeAllStands(rounds);
    if !c.closed {
      StreamGoesOn(c, Taken(rounds), bytes);
      UpToCloseAppend(c.requests, ReadStream(c.parser.buffer + bytes).requests);
      PrefixToClose(c.requests);
      FirstOfStream(c.parser.buffer + bytes);
    }
  }

  lemma FirstOfStream(b: string)
    ensures ReadStream(b).requests == [] <==> !ParseOne(b).Parsed?
    ensures UpToClose(ReadStream(b).requests) == [] <==> !ParseOne(b).Parsed?
  {
    hide ParseOne;
  }

  lemma StreamGoesOn(c: Session, b: string, bytes: string)
    requires Stands(c.parser, c.requests, ReadStream(b))
    ensures ReadStream(b + bytes).requests == c.requests + ReadStream(c.parser.buffer + bytes).requests
  {
    hide ReadStream, Coherent, Doomed;
    if Coherent(c.parser) && ReadStream(b).requests == c.requests + ReadStream(c.parser.buffer).requests
       && ReadStream(b).rest == ReadStream(c.parser.buffer).rest {
      FeedStands(c.parser, c.requests, b, bytes);
    } else {
      ReadStreamAppend(b, bytes);
    }
  }
}
