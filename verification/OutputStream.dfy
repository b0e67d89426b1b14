/**
  The client side of a connection (include/core/Connection.hpp, src/core/Gateway.cpp:195-242): queued
  response bytes, partial sends, and the write interest registered with the event loop.
 */
module OutputStream {

  // A send takes some bytes, would block, or fails (which includes sending none).
  datatype SendResult = Sent(n: nat) | WouldBlock | Broken

  // `interest` is EPOLLOUT being registered; `sent` is everything the socket took so far.
  datatype Output = Output(pending: string, offset: nat, closeAfter: bool, open: bool, interest: bool, sent: string)

  const NEW_OUTPUT: Output := Output("", 0, false, true, false, "")

  datatype Reply = Reply(wire: string, close: bool)

  predicate HasPending(o: Output) {
    o.offset < |o.pending|
  }

  function Queue(o: Output, r: Reply): Output {
    o.(pending := o.pending + r.wire, closeAfter := r.close)
  }

  /** The drain loop stops queueing after a reply that closes the connection. */
  function QueueAll(o: Output, rs: seq<Reply>): Output
    decreases |rs|
  {
    if rs == [] then o
    else if rs[0].close then Queue(o, rs[0])
    else QueueAll(Queue(o, rs[0]), rs[1..])
  }

  function QueuedBytes(rs: seq<Reply>): string {
    if rs == [] then "" else if rs[0].close then rs[0].wire else rs[0].wire + QueuedBytes(rs[1..])
  }

  predicate Legal(remaining: int, r: SendResult) {
    r.Sent? ==> 1 <= r.n <= remaining
  }

  /** The send loop; results that a socket cannot give, and no result at all, read as would-block. */
  function SendLoop(o: Output, results: seq<SendResult>): Output
    requires o.offset <= |o.pending|
    decreases |results|
  {
    if !HasPending(o) then
      var done := o.(pending := "", offset := 0);
      if o.closeAfter then done.(open := false) else done.(interest := false)
    else if results == [] || !Legal(|o.pending| - o.offset, results[0]) then o.(interest := true)
    else match results[0]
      case WouldBlock => o.(interest := true)
      case Broken => o.(open := false)
      case Sent(n) =>
        SendLoop(o.(offset := o.offset + n, sent := o.sent + o.pending[o.offset..o.offset + n]), results[1..])
  }

  function Flush(o: Output, results: seq<SendResult>): Output
    requires o.offset <= |o.pending|
  {
    if o.open && HasPending(o) then SendLoop(o, results) else o
  }

  function Shut(o: Output): Output {
    o.(open := false)
  }

  class ClientConnection {
    var pendingWrite: string
    var writeOffset: nat
    var closeAfterWrite: bool
    var isOpen: bool
    var writeInterest: bool
    ghost var sent: string

    ghost function Value(): Output
      reads this
    {
      Output(pendingWrite, writeOffset, closeAfterWrite, isOpen, writeInterest, sent)
    }

    constructor ()
      ensures Value() == NEW_OUTPUT
    {
      pendingWrite, writeOffset, closeAfterWrite, isOpen, writeInterest := "", 0, false, true, false;
      sent := "";
    }

    method QueueResponse(wire: string, close: bool)
      modifies this
      ensures Value() == Queue(old(Value()), Reply(wire, close))
    {
      pendingWrite := pendingWrite + wire;
      closeAfterWrite := close;
    }

    method FlushIfPossible(results: seq<SendResult>)
      requires writeOffset <= |pendingWrite|
      modifies this
      ensures Value() == Flush(old(Value()), results)
    {
      if !isOpen || writeOffset >= |pendingWrite| { return; }
      var i := 0;
      while writeOffset < |pendingWrite|
        invariant isOpen && writeOffset <= |pendingWrite| && i <= |results|
        invariant SendLoop(old(Value()), results) == SendLoop(Value(), results[i..])
        decreases |results| - i
      {
        var remaining := |pendingWrite| - writeOffset;
        if i == |results| || !Legal(remaining, results[i]) || results[i].WouldBlock? {
          writeInterest := true;
          return;
        }
        if results[i].Broken? {
          isOpen := false;
          return;
        }
        sent := sent + pendingWrite[writeOffset..writeOffset + results[i].n];
        writeOffset := writeOffset + results[i].n;
        assert results[i..][1..] == results[i + 1..];
        i := i + 1;
      }
      pendingWrite, writeOffset := "", 0;
      if closeAfterWrite { isOpen := false; } else { writeInterest := false; }
    }

    /** Closes at once, whatever is pending. */
    method CloseConnection()
      modifies this
      ensures Value() == Shut(old(Value()))
    {
      isOpen := false;
    }
  }

  // ----- Runs

  // `Gone` is every close without a flush: end of stream or error while reading, hang-up, the
  // idle sweep, and the end of the worker (src/core/Gateway.cpp:52-55, 75, 96-100).
  datatype Event = Readable(replies: seq<Reply>, results: seq<SendResult>) | Writable(results: seq<SendResult>) | Gone

  function Handle(o: Output, e: Event): Output
    requires o.offset <= |o.pending|
  {
    if !o.open then o
    else match e
      case Gone => Shut(o)
      case Writable(results) => Flush(o, results)
      case Readable(replies, results) => QueueGrows(o, replies); Flush(QueueAll(o, replies), results)
  }

  lemma {:induction false} QueueGrows(o: Output, rs: seq<Reply>)
    requires o.offset <= |o.pending|
    ensures QueueAll(o, rs).pending == o.pending + QueuedBytes(rs)
    ensures var q := QueueAll(o, rs); q.offset == o.offset && q.open == o.open && q.interest == o.interest && q.sent == o.sent
    decreases |rs|
  {
    if rs != [] && !rs[0].close { QueueGrows(Queue(o, rs[0]), rs[1..]); }
  }

  /** Sent bytes and unsent bytes together. */
  function Stream(o: Output): string
    requires o.offset <= |o.pending|
  {
    o.sent + o.pending[o.offset..]
  }

  /** Between events an open connection waits for writability exactly when bytes are pending. */
  predicate Settled(o: Output) {
    && o.offset <= |o.pending|
    && (o.open ==> (o.interest <==> HasPending(o)))
  }

  /** Whether a send fails before `remaining` bytes are taken. */
  predicate Breaks(remaining: int, results: seq<SendResult>)
    decreases |results|
  {
    && remaining > 0 && results != [] && Legal(remaining, results[0])
    && (results[0].Broken? || (results[0].Sent? && Breaks(remaining - results[0].n, results[1..])))
  }

  lemma {:induction false} SendLoopConserves(o: Output, results: seq<SendResult>)
    requires o.offset <= |o.pending| && o.open
    ensures var f := SendLoop(o, results);
            && Settled(f) && Stream(f) == Stream(o)
            && (!f.open && HasPending(f) <==> Breaks(|o.pending| - o.offset, results))
    decreases |results|
  {
    if HasPending(o) && results != [] && results[0].Sent? && Legal(|o.pending| - o.offset, results[0]) {
      hide Stream;
      var n := results[0].n;
      SendConserves(o, n);
      SendLoopConserves(o.(offset := o.offset + n, sent := o.sent + o.pending[o.offset..o.offset + n]), results[1..]);
    }
  }

  lemma SendConserves(o: Output, n: nat)
    requires o.offset + n <= |o.pending|
    ensures Stream(o.(offset := o.offset + n, sent := o.sent + o.pending[o.offset..o.offset + n])) == Stream(o)
  {
    assert o.pending[o.offset..] == o.pending[o.offset..o.offset + n] + o.pending[o.offset + n..];
  }

  /** How many of `remaining` bytes a socket with these results takes before it blocks or fails. */
  function TakenBy(remaining: nat, results: seq<SendResult>): (n: nat)
    ensures n <= remaining
    decreases |results|
  {
    if remaining == 0 || results == [] || !Legal(remaining, results[0]) || !results[0].Sent? then 0
    else results[0].n + TakenBy(remaining - results[0].n, results[1..])
  }

  /** The socket takes `n` bytes, and the loop goes on with what is left. */
  lemma OneSend(o: Output, results: seq<SendResult>, n: nat)
    requires o.offset < |o.pending| && results != [] && results[0] == Sent(n) && 1 <= n <= |o.pending| - o.offset
    ensures SendLoop(o, results) ==
            SendLoop(o.(offset := o.offset + n, sent := o.sent + o.pending[o.offset..o.offset + n]), results[1..])
    ensures TakenBy(|o.pending| - o.offset, results) == n + TakenBy(|o.pending| - o.offset - n, results[1..])
    ensures Breaks(|o.pending| - o.offset, results) <==> Breaks(|o.pending| - o.offset - n, results[1..])
  {
  }

  lemma NoSend(o: Output, results: seq<SendResult>)
    requires o.offset <= |o.pending| && o.open
    requires !(HasPending(o) && results != [] && results[0].Sent? && Legal(|o.pending| - o.offset, results[0]))
    ensures SendLoop(o, results).sent == o.sent && TakenBy(|o.pending| - o.offset, results) == 0
    ensures !HasPending(o) ==> SendLoop(o, results).pending == "" && SendLoop(o, results).open == !o.closeAfter
    ensures HasPending(o) ==> SendLoop(o, results).open == !Breaks(|o.pending| - o.offset, results)
  {
  }

  /**
    A flush sends exactly what the socket takes; after the last byte it closes exactly when it
    was asked to, and before that exactly when a send fails.
   */
  lemma {:induction false} FlushSends(o: Output, results: seq<SendResult>)
    requires o.offset <= |o.pending| && o.open
    ensures var f, n := SendLoop(o, results), TakenBy(|o.pending| - o.offset, results);
            && f.sent == o.sent + o.pending[o.offset..o.offset + n]
            && (o.offset + n == |o.pending| ==> f.pending == "" && f.open == !o.closeAfter)
            && (o.offset + n < |o.pending| ==> f.open == !Breaks(|o.pending| - o.offset, results))
    decreases |results|
  {
    hide SendLoop, TakenBy, Breaks;
    if HasPending(o) && results != [] && results[0].Sent? && Legal(|o.pending| - o.offset, results[0]) {
      var k := results[0].n;
      var o' := o.(offset := o.offset + k, sent := o.sent + o.pending[o.offset..o.offset + k]);
      OneSend(o, results, k);
      FlushSends(o', results[1..]);
      var n := TakenBy(|o.pending| - o.offset, results);
      assert o.pending[o.offset..o.offset + n] == o.pending[o.offset..o.offset + k] + o.pending[o.offset + k..o.offset + n];
    } else {
      NoSend(o, results);
      assert o.sent + o.pending[o.offset..o.offset] == o.sent;
    }
  }

  function Play(events: seq<Event>): (o: Output)
    ensures o.offset <= |o.pending|
  {
    if events == [] then NEW_OUTPUT
    else
      var o, e := Play(events[..|events| - 1]), events[|events| - 1];
      HandleSettles(o, e);
      Handle(o, e)
  }

  function NewBytes(o: Output, e: Event): string {
    if o.open && e.Readable? then QueuedBytes(e.replies) else ""
  }

  /** An event that closes over unsent bytes: a send that fails, or a close while bytes are pending. */
  predicate Drops(o: Output, e: Event)
    requires o.offset <= |o.pending|
  {
    o.open && match e
              case Gone => HasPending(o)
              case Writable(results) => Breaks(|o.pending| - o.offset, results)
              case Readable(replies, results) => Breaks(|o.pending| - o.offset + |QueuedBytes(replies)|, results)
  }

  lemma HandleSettles(o: Output, e: Event)
    requires o.offset <= |o.pending|
    ensures Handle(o, e).offset <= |Handle(o, e).pending|
    ensures Settled(o) ==> Settled(Handle(o, e))
    ensures Stream(Handle(o, e)) == Stream(o) + NewBytes(o, e)
    ensures o.open ==> (!Handle(o, e).open && HasPending(Handle(o, e)) <==> Drops(o, e))
  {
    hide SendLoop, QueueAll, QueuedBytes;
    if o.open {
      match e
      case Gone =>
      case Writable(results) =>
        SendLoopConserves(o, results);
      case Readable(replies, results) =>
        QueueGrows(o, replies);
        var q := QueueAll(o, replies);
        assert q.pending[q.offset..] == o.pending[o.offset..] + QueuedBytes(replies);
        assert Stream(q) == Stream(o) + QueuedBytes(replies);
        SendLoopConserves(q, results);
    }
  }

  /** Everything queued while the connection was open, in order. */
  function AllQueued(events: seq<Event>): string {
    if events == [] then ""
    else
      var before, e := events[..|events| - 1], events[|events| - 1];
      AllQueued(before) + NewBytes(Play(before), e)
  }

  /** Some event of the run closed over unsent bytes. */
  predicate Dropped(events: seq<Event>) {
    events != [] && (Dropped(events[..|events| - 1]) || Drops(Play(events[..|events| - 1]), events[|events| - 1]))
  }

  lemma {:induction false} DroppedIsPending(events: seq<Event>)
    ensures !Play(events).open && HasPending(Play(events)) <==> Dropped(events)
  {
    hide Handle, Drops;
    if events == [] {
    } else {
      var before, e := events[..|events| - 1], events[|events| - 1];
      DroppedIsPending(before);
      HandleSettles(Play(before), e);
      ClosedIsFinal(Play(before), e);
    }
  }

  /**
    Over every run: what the client got, followed by what is still pending, is the concatenation
    of the serialised responses in order; write interest is registered exactly while bytes
    are pending; and a connection that closed has sent everything if and only if no send
    failed over unsent bytes and none were pending when it was closed without a flush.
   */
  lemma {:induction false} OutputIsConserved(events: seq<Event>)
    ensures var o := Play(events);
            && Settled(o) && Stream(o) == AllQueued(events)
            && (!o.open ==> (o.sent == AllQueued(events) <==> !Dropped(events)))
  {
    hide Handle, NewBytes, Dropped;
    DroppedIsPending(events);
    if events == [] {
    } else {
      var before, e := events[..|events| - 1], events[|events| - 1];
      OutputIsConserved(before);
      HandleSettles(Play(before), e);
      ClosedIsFinal(Play(before), e);
    }
    var o := Play(events);
    assert |Stream(o)| == |o.sent| + |o.pending| - o.offset;
    assert !HasPending(o) ==> o.pending[o.offset..] == "";
  }

  lemma ClosedIsFinal(o: Output, e: Event)
    requires o.offset <= |o.pending|
    ensures !o.open ==> Handle(o, e) == o && NewBytes(o, e) == "" && !Drops(o, e)
  {
  }

  /** A client that stops sending while a reply waits for the socket never gets that reply, though no send failed. */
  lemma GoneLosesReply(wire: string)
    requires wire != ""
    ensures var o := Play([Readable([Reply(wire, false)], [WouldBlock]), Gone]);
            !o.open && o.sent == "" && Stream(o) == wire
  {
    var first := Readable([Reply(wire, false)], [WouldBlock]);
    var none: seq<Event> := [];
    assert [first][..0] == none && [first, Gone][..1] == [first];
    assert Play(none) == NEW_OUTPUT;
    var reply := Reply(wire, false);
    assert [reply][1..] == [];
    var q := Queue(NEW_OUTPUT, reply);
    assert QueueAll(q, [reply][1..]) == q;
    assert QueueAll(NEW_OUTPUT, [reply]) == q;
    assert Play([first]) == Flush(q, [WouldBlock]);
    assert Flush(q, [WouldBlock]) == q.(interest := true);
    assert "" + wire == wire;
    assert Play([first, Gone]) == Shut(Play([first]));
  }
}
