/**
  Reading, serving and answering on one connection together: the replies queued are the answers to the
  requests served, and what the socket takes decides when a close takes effect
  (src/core/Gateway.cpp:74-118, 195-242).
 */
module Connections {
  import opened RequestSyntax
  import opened ParserMachine
  import Chunking
  import opened Serving
  import opened ServedCuts
  import opened OutputStream

  // `errors` counts the replies to malformed input.
  datatype Conn = Conn(parser: ParserState, requests: seq<HttpRequest>, errors: nat, output: Output) {
    function Answered(): nat {
      |requests| + errors
    }
  }

  datatype Arrival = Wakeup(bytes: string, drained: bool, sends: seq<SendResult>) | CanWrite(sends: seq<SendResult>) | HungUp

  // What the handler answers: the rest of the n-th reply of the connection after its first word.
  type Answers = nat -> string

  function Wire(answer: Answers, n: nat): string {
    "HTTP/1.1 " + answer(n)
  }

  /** One reply for each request, closing when the request does, and a closing one for an error. */
  function Replies(answer: Answers, n: nat, rs: seq<HttpRequest>, failed: bool): seq<Reply>
    decreases |rs|
  {
    if rs != [] then [Reply(Wire(answer, n), !rs[0].keepAlive)] + Replies(answer, n + 1, rs[1..], failed)
    else if failed then [Reply(Wire(answer, n), true)]
    else []
  }

  function Arrive(answer: Answers, k: Conn, e: Arrival): (k': Conn)
    requires Valid(k.parser) && k.output.offset <= |k.output.pending|
    ensures Valid(k'.parser)
  {
    if !k.output.open then k
    else match e
      case HungUp => k.(output := Shut(k.output))
      case CanWrite(sends) => k.(output := Flush(k.output, sends))
      case Wakeup(bytes, drained, sends) =>
        var s := k.parser.Append(bytes);
        if !drained then k.(parser := s, output := Shut(k.output))
        else
          var t := Serve(s);
          var replies := Replies(answer, k.Answered(), t.requests, t.failed);
          QueueGrows(k.output, replies);
          Conn(t.parser, k.requests + t.requests, k.errors + (if t.failed then 1 else 0),
               Flush(QueueAll(k.output, replies), sends))
  }

  /** What an arrival is for the output. */
  function OutputEvent(answer: Answers, k: Conn, e: Arrival): OutputStream.Event
    requires Valid(k.parser)
  {
    match e
    case HungUp => Gone
    case CanWrite(sends) => Writable(sends)
    case Wakeup(bytes, drained, sends) =>
      if !drained then Gone
      else
        var t := Serve(k.parser.Append(bytes));
        Readable(Replies(answer, k.Answered(), t.requests, t.failed), sends)
  }

  lemma ArriveHandles(answer: Answers, k: Conn, e: Arrival)
    requires Valid(k.parser) && k.output.offset <= |k.output.pending|
    ensures Arrive(answer, k, e).output == Handle(k.output, OutputEvent(answer, k, e))
    ensures Arrive(answer, k, e).output.offset <= |Arrive(answer, k, e).output.pending|
  {
    hide Serve, Replies, Flush, QueueAll;
    HandleSettles(k.output, OutputEvent(answer, k, e));
  }

  function Live(answer: Answers, arrivals: seq<Arrival>): (k: Conn)
    ensures Valid(k.parser) && k.output.offset <= |k.output.pending|
  {
    if arrivals == [] then Conn(FreshParser(""), [], 0, NEW_OUTPUT)
    else
      var k, e := Live(answer, arrivals[..|arrivals| - 1]), arrivals[|arrivals| - 1];
      ArriveHandles(answer, k, e);
      Arrive(answer, k, e)
  }

  // ----- The bytes on the wire are the answers to the requests served

  function AllAnswers(answer: Answers, n: nat): string {
    if n == 0 then "" else AllAnswers(answer, n - 1) + Wire(answer, n - 1)
  }

  lemma {:induction false} ServeToClose(s: ParserState)
    requires Valid(s)
    ensures var t := Serve(s);
            && UpToClose(t.requests) == t.requests && (t.failed ==> AllStay(t.requests))
            && (t.closing <==> t.failed || !AllStay(t.requests))
    decreases |s.buffer|
  {
    hide Resume;
    var r := Resume(s);
    if r.status.Complete? {
      var req := r.status.req;
      if req.keepAlive {
        ServeToClose(r.state);
        var t := Serve(r.state);
        assert ([req] + t.requests)[1..] == t.requests;
        Together([req], t.requests);
      } else {
        assert [req][0] == req && [req][1..] == [];
      }
    }
  }

  lemma ToCloseTail(rs: seq<HttpRequest>)
    requires rs != [] && UpToClose(rs) == rs
    ensures if rs[0].keepAlive then UpToClose(rs[1..]) == rs[1..] && (AllStay(rs) <==> AllStay(rs[1..])) else rs == [rs[0]]
  {
    if rs[0].keepAlive {
      assert ([rs[0]] + UpToClose(rs[1..]))[1..] == UpToClose(rs[1..]);
      Together([rs[0]], rs[1..]);
      assert rs == [rs[0]] + rs[1..];
    }
  }

  lemma QueuedInFront(r: Reply, rs: seq<Reply>)
    ensures QueuedBytes([r] + rs) == if r.close then r.wire else r.wire + QueuedBytes(rs)
  {
    assert ([r] + rs)[1..] == rs;
  }

  lemma {:induction false} RepliesAreQueued(answer: Answers, n: nat, rs: seq<HttpRequest>, failed: bool)
    requires UpToClose(rs) == rs && (failed ==> AllStay(rs))
    ensures AllAnswers(answer, n) + QueuedBytes(Replies(answer, n, rs, failed)) ==
            AllAnswers(answer, n + |rs| + if failed then 1 else 0)
    decreases |rs|
  {
    hide Wire, UpToClose, AllStay;
    if rs == [] {
    } else {
      hide QueuedBytes;
      ToCloseTail(rs);
      var r, rest := Reply(Wire(answer, n), !rs[0].keepAlive), Replies(answer, n + 1, rs[1..], failed);
      assert Replies(answer, n, rs, failed) == [r] + rest;
      QueuedInFront(r, rest);
      assert AllAnswers(answer, n + 1) == AllAnswers(answer, n) + Wire(answer, n);
      if rs[0].keepAlive {
        RepliesAreQueued(answer, n + 1, rs[1..], failed);
      } else {
        NotStaying(rs);
      }
    }
  }

  lemma NotStaying(rs: seq<HttpRequest>)
    requires rs != [] && !rs[0].keepAlive
    ensures !AllStay(rs)
  {
  }

  lemma AnswersGrow(answer: Answers, k: Conn, e: Arrival)
    requires Valid(k.parser) && k.output.offset <= |k.output.pending|
    ensures var k' := Arrive(answer, k, e);
            AllAnswers(answer, k.Answered()) + NewBytes(k.output, OutputEvent(answer, k, e)) ==
            AllAnswers(answer, k'.Answered())
  {
    hide Serve, AllAnswers, Replies, QueuedBytes, QueueAll, Flush, UpToClose;
    var n := k.Answered();
    assert AllAnswers(answer, n) + "" == AllAnswers(answer, n);
    if k.output.open && e.Wakeup? && e.drained {
      var t := Serve(k.parser.Append(e.bytes));
      ServeToClose(k.parser.Append(e.bytes));
      RepliesAreQueued(answer, n, t.requests, t.failed);
    }
  }

  /**
    Over every life of a connection: the bytes sent followed by the bytes pending are the answers to
    the requests served and the errors met, one each and in order, and write interest is
    registered exactly while bytes are pending.
   */
  lemma {:induction false} AnsweredInOrder(answer: Answers, arrivals: seq<Arrival>)
    ensures var k := Live(answer, arrivals);
            Settled(k.output) && Stream(k.output) == AllAnswers(answer, k.Answered())
  {
    hide Arrive, OutputEvent, NewBytes, Stream, Settled, Handle;
    if arrivals == [] {
      NothingAnswered(answer);
    } else {
      var before, e := arrivals[..|arrivals| - 1], arrivals[|arrivals| - 1];
      AnsweredInOrder(answer, before);
      var k := Live(answer, before);
      ArriveHandles(answer, k, e);
      HandleSettles(k.output, OutputEvent(answer, k, e));
      AnswersGrow(answer, k, e);
    }
  }

  lemma NothingAnswered(answer: Answers)
    ensures Settled(NEW_OUTPUT) && Stream(NEW_OUTPUT) == AllAnswers(answer, 0)
  {
  }

  // ----- The rounds of the session, with the time of their flush read off the sends

  function Flushed(rounds: seq<Round>): seq<Round> {
    if rounds == [] then [] else rounds[..|rounds| - 1] + [rounds[|rounds| - 1].(flushed := true)]
  }

  const CUT_OFF: Round := Round("", false, true)

  /** A failed send ends the session like a cut off read. */
  function WithBreak(rounds: seq<Round>, o: Output): seq<Round> {
    if !o.open && HasPending(o) then rounds + [CUT_OFF] else rounds
  }

  function RoundsOf(answer: Answers, arrivals: seq<Arrival>): seq<Round> {
    if arrivals == [] then []
    else
      var before, e := arrivals[..|arrivals| - 1], arrivals[|arrivals| - 1];
      var rounds, o := RoundsOf(answer, before), Live(answer, arrivals).output;
      if !Live(answer, before).output.open then rounds
      else match e
        case HungUp => rounds + [CUT_OFF]
        case CanWrite(_) => WithBreak(if HasPending(o) then rounds else Flushed(rounds), o)
        case Wakeup(bytes, drained, _) =>
          if !drained then rounds + [Round(bytes, false, true)]
          else WithBreak(rounds + [Round(bytes, true, !HasPending(o))], o)
  }

  /** The session of these rounds is this connection. */
  ghost predicate Follows(k: Conn, rounds: seq<Round>) {
    var c, o := WakeAll(rounds), k.output;
    && c.parser == k.parser && c.requests == k.requests && c.rejected == (k.errors > 0) && c.closed == !o.open
    && (o.open ==>
          && c.closing == o.closeAfter && (o.closeAfter ==> HasPending(o))
          && (rounds == [] ==> !HasPending(o))
          && (rounds != [] ==> rounds[|rounds| - 1].drained && rounds[|rounds| - 1].flushed == !HasPending(o)))
  }

  /** The four ways a flush ends. */
  lemma {:induction false} FlushEnds(o: Output, sends: seq<SendResult>)
    requires o.offset <= |o.pending| && o.open
    ensures var f := SendLoop(o, sends);
            && f.closeAfter == o.closeAfter
            && (!HasPending(f) ==> f.open == !o.closeAfter)
    decreases |sends|
  {
    hide Legal;
    if HasPending(o) && sends != [] && sends[0].Sent? && Legal(|o.pending| - o.offset, sends[0]) {
      LegalFits(|o.pending| - o.offset, sends[0]);
      var n := sends[0].n;
      FlushEnds(o.(offset := o.offset + n, sent := o.sent + o.pending[o.offset..o.offset + n]), sends[1..]);
    }
  }

  lemma LegalFits(remaining: int, r: SendResult)
    requires Legal(remaining, r)
    ensures r.Sent? ==> 1 <= r.n <= remaining
  {
  }

  lemma {:induction false} LastReplyDecides(answer: Answers, o: Output, n: nat, rs: seq<HttpRequest>, failed: bool)
    requires UpToClose(rs) == rs && (failed ==> AllStay(rs)) && o.offset <= |o.pending|
    ensures var q := QueueAll(o, Replies(answer, n, rs, failed));
            && q.offset == o.offset && q.open == o.open && q.offset <= |q.pending|
            && (rs == [] && !failed ==> q == o)
            && (rs != [] || failed ==> HasPending(q) && q.closeAfter == (failed || !AllStay(rs)))
            && (HasPending(o) ==> HasPending(q))
    decreases |rs|
  {
    if rs == [] {
    } else {
      var replies, rest := Replies(answer, n, rs, failed), rs[1..];
      var r := replies[0];
      assert r == Reply(Wire(answer, n), !rs[0].keepAlive) && r.wire != "";
      if rs[0].keepAlive {
        assert replies[1..] == Replies(answer, n + 1, rest, failed);
        assert AllStay(rs) <==> AllStay(rest) by { Together([rs[0]], rest); assert rs == [rs[0]] + rest; }
        LastReplyDecides(answer, Queue(o, r), n + 1, rest, failed);
      } else {
        assert !AllStay(rs);
      }
    }
  }

  lemma CutOffCloses(c: Session)
    requires Valid(c.parser)
    ensures Wake(c, CUT_OFF) == c.(closed := true)
  {
    assert c.parser.buffer + "" == c.parser.buffer;
  }

  lemma WakeupFollows(answer: Answers, k: Conn, rounds: seq<Round>, bytes: string, sends: seq<SendResult>)
    requires Valid(k.parser) && k.output.offset <= |k.output.pending| && k.output.open && Follows(k, rounds)
    ensures var k' := Arrive(answer, k, Wakeup(bytes, true, sends)); var o := k'.output;
            Follows(k', WithBreak(rounds + [Round(bytes, true, !HasPending(o))], o))
  {
    hide Serve, WakeAll, QueueAll, Replies, SendLoop, UpToClose, AllStay;
    var s := k.parser.Append(bytes);
    var t, k' := Serve(s), Arrive(answer, k, Wakeup(bytes, true, sends));
    var q := QueueAll(k.output, Replies(answer, k.Answered(), t.requests, t.failed));
    ServeToClose(s);
    LastReplyDecides(answer, k.output, k.Answered(), t.requests, t.failed);
    if HasPending(q) { FlushEnds(q, sends); }
    var r := Round(bytes, true, !HasPending(k'.output));
    WakeNext(rounds, r);
    WakeNext(rounds + [r], CUT_OFF);
    CutOffCloses(WakeAll(rounds + [r]));
  }

  lemma WriteFollows(answer: Answers, k: Conn, rounds: seq<Round>, sends: seq<SendResult>)
    requires Valid(k.parser) && k.output.offset <= |k.output.pending| && k.output.open && Follows(k, rounds)
    ensures var k' := Arrive(answer, k, CanWrite(sends)); var o := k'.output;
            Follows(k', WithBreak(if HasPending(o) then rounds else Flushed(rounds), o))
  {
    hide Serve, WakeAll, SendLoop;
    var o := Arrive(answer, k, CanWrite(sends)).output;
    if HasPending(k.output) {
      FlushEnds(k.output, sends);
      WakeNext(rounds, CUT_OFF);
      CutOffCloses(WakeAll(rounds));
      var before, r := rounds[..|rounds| - 1], rounds[|rounds| - 1];
      assert rounds == before + [r];
      WakeNext(before, r);
      WakeNext(before, r.(flushed := true));
    } else if rounds != [] {
      var before, r := rounds[..|rounds| - 1], rounds[|rounds| - 1];
      assert r == r.(flushed := true);
      assert Flushed(rounds) == rounds;
    }
  }

  /**
    Over every life of a connection, with every send result: its requests, its errors and its close
    are those of the session of its rounds, so that what holds of every session holds of it.
   */
  lemma {:induction false} LiveFollows(answer: Answers, arrivals: seq<Arrival>)
    ensures Follows(Live(answer, arrivals), RoundsOf(answer, arrivals))
  {
    hide Follows, Arrive, Flushed, WithBreak;
    if arrivals == [] {
      StartFollows();
    } else {
      var before, e := arrivals[..|arrivals| - 1], arrivals[|arrivals| - 1];
      LiveFollows(answer, before);
      var k, rounds := Live(answer, before), RoundsOf(answer, before);
      if !k.output.open {
        ClosedForGood(answer, k, e);
      } else {
        match e
        case CanWrite(sends) => WriteFollows(answer, k, rounds, sends);
        case HungUp => CutFollows(answer, k, rounds, "");
        case Wakeup(bytes, drained, sends) =>
          if drained { WakeupFollows(answer, k, rounds, bytes, sends); } else { CutFollows(answer, k, rounds, bytes); }
      }
    }
  }

  lemma StartFollows()
    ensures Follows(Conn(FreshParser(""), [], 0, NEW_OUTPUT), [])
  {
  }

  lemma ClosedForGood(answer: Answers, k: Conn, e: Arrival)
    requires Valid(k.parser) && k.output.offset <= |k.output.pending| && !k.output.open
    ensures Arrive(answer, k, e) == k
  {
  }

  lemma CutFollows(answer: Answers, k: Conn, rounds: seq<Round>, bytes: string)
    requires Valid(k.parser) && k.output.offset <= |k.output.pending| && k.output.open && Follows(k, rounds)
    ensures forall sends :: Follows(Arrive(answer, k, Wakeup(bytes, false, sends)), rounds + [Round(bytes, false, true)])
    ensures Follows(Arrive(answer, k, HungUp), rounds + [CUT_OFF])
  {
    hide Serve, WakeAll;
    WakeNext(rounds, Round(bytes, false, true));
    WakeNext(rounds, CUT_OFF);
    CutOffCloses(WakeAll(rounds));
  }

  /**
    What is served of the bytes a connection took, whatever its sends did: the requests in order, at
    least up to the first that ends the connection, and no further exactly if none overruns the close.
   */
  lemma LiveServesInOrder(answer: Answers, arrivals: seq<Arrival>)
    ensures var k, rounds := Live(answer, arrivals), RoundsOf(answer, arrivals);
            var all := Chunking.ReadStream(Taken(rounds)).requests;
            && UpToClose(all) <= k.requests <= all
            && (k.requests == UpToClose(all) <==> !Overruns(rounds))
  {
    hide Live, RoundsOf, WakeAll, Taken, Chunking.ReadStream, UpToClose, Overruns;
    LiveFollows(answer, arrivals);
    ServedInOrder(RoundsOf(answer, arrivals));
    ServesToCloseIff(RoundsOf(answer, arrivals));
  }
}
