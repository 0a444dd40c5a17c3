/**
 What idle signals change in a peer: it sends pings and counts them, but delivers the same messages, until
 too many pings are unanswered and it fails.
 */
module WsIdle {
  import opened Bytes
  import opened WsFrames
  import opened WsReceiver

  lemma DeliveriesSnoc(events: seq<Event>, e: Event)
    ensures Deliveries(events + [e]) == Deliveries(events) + if e.Delivered? then [e.message] else []
  {
    assert (events + [e])[..|events|] == events;
  }

  /** The same but for the pings, sent and counted: the messages delivered, and what will be made of more octets. */
  predicate Same(p: Peer, q: Peer)
  {
    && p.isClient == q.isClient && p.state == q.state && p.buffer == q.buffer && p.partial == q.partial
    && p.partialOpcode == q.partialOpcode && p.closeSent == q.closeSent && Deliveries(p.events) == Deliveries(q.events)
  }

  lemma SameEmit(p: Peer, q: Peer, e: Event)
    requires Same(p, q)
    ensures Same(Emit(p, e), Emit(q, e))
  {
    DeliveriesSnoc(p.events, e);
    DeliveriesSnoc(q.events, e);
    hide Deliveries;
  }

  lemma SameState(p: Peer, q: Peer, state: State)
    requires Same(p, q)
    ensures Same(ChangeState(p, state), ChangeState(q, state))
  {
    if p.state != state {
      SameEmit(p.(state := state), q.(state := state), StateChanged(state));
    }
  }

  lemma SameFlush(p: Peer, q: Peer)
    requires Same(p, q)
    ensures Same(FlushPartial(p), FlushPartial(q))
  {
    if p.partial != [] {
      SameEmit(p, q, Delivered(Message(TypeOf(p.partialOpcode), p.partial)));
    }
  }

  lemma SameFirst(p: Peer, q: Peer, frame: Frame)
    requires Same(p, q)
    ensures Same(RecvFirst(p, frame), RecvFirst(q, frame))
  {
    SameFlush(p, q);
    hide FlushPartial, Deliveries;
    var m := Delivered(Message(TypeOf(frame.opcode), frame.payload));
    SameEmit(FlushPartial(p).(partialOpcode := frame.opcode), FlushPartial(q).(partialOpcode := frame.opcode), m);
  }

  lemma SameContinuation(p: Peer, q: Peer, frame: Frame)
    requires Same(p, q)
    ensures Same(RecvContinuation(p, frame), RecvContinuation(q, frame))
  {
    hide Deliveries;
    var more := p.partial + frame.payload;
    SameEmit(p.(partial := more), q.(partial := more), Delivered(Message(TypeOf(p.partialOpcode), more)));
  }

  lemma SameClose(p: Peer, q: Peer)
    requires Same(p, q)
    ensures Same(Close(p), Close(q))
  {
    SameEmit(p.(closeSent := true), q.(closeSent := true), FrameSent(CLOSE, []));
    hide Deliveries;
  }

  lemma SameControl(p: Peer, q: Peer, frame: Frame)
    requires Same(p, q)
    ensures Same(Emit(p, FrameSent(PONG, frame.payload)), Emit(q, FrameSent(PONG, frame.payload)))
    ensures Same(p.(outstandingPings := 0), q.(outstandingPings := 0))
    ensures Same(Close(p), Close(q))
    ensures Same(ChangeState(Close(p), Disconnected), ChangeState(Close(q), Disconnected))
  {
    hide *;
    SameEmit(p, q, FrameSent(PONG, frame.payload));
    SameClose(p, q);
    SameState(Close(p), Close(q), Disconnected);
    SamePings(p, q);
  }

  lemma SamePings(p: Peer, q: Peer)
    requires Same(p, q)
    ensures Same(p.(outstandingPings := 0), q.(outstandingPings := 0))
  {}

  lemma SameFrame(p: Peer, q: Peer, frame: Frame)
    requires Same(p, q)
    ensures Same(RecvFrame(p, frame), RecvFrame(q, frame))
  {
    hide Same, RecvFirst, RecvContinuation, Close, ChangeState, Emit, Deliveries;
    SameFirst(p, q, frame);
    SameContinuation(p, q, frame);
    SameControl(p, q, frame);
  }

  lemma {:induction false} SameDrain(p: Peer, q: Peer)
    requires Same(p, q)
    ensures Same(Drain(p), Drain(q))
    decreases |p.buffer|
  {
    DrainStep(p);
    DrainStep(q);
    if Decode(p.buffer).Complete? {
      hide Drain, Decode, RecvFrame, Deliveries;
      var frame, size := Decode(p.buffer).frame, Decode(p.buffer).size;
      SameFrame(p, q, frame);
      NextOfMore(p, frame, size, []);
      SameDrain(Next(p, frame, size), Next(q, frame, size));
    }
  }

  lemma SameOpened(p: Peer, q: Peer, parse: Parser)
    requires PrefixStable(parse) && Same(p, q)
    ensures Same(Opened(p, parse), Opened(q, parse))
  {
    hide Deliveries, ChangeState, Emit;
    if p.state == Connecting {
      match parse(p.buffer)
      case NeedMore =>
      case Accepted(_) =>
        SameEmit(p, q, ResponseSent);
        SameState(if p.isClient then p else Emit(p, ResponseSent),
                  if q.isClient then q else Emit(q, ResponseSent), Connected);
      case Rejected(code) =>
        if code.Some? {
          SameEmit(p, q, ErrorSent(code.value));
        }
        SameState(if code.Some? then Emit(p, ErrorSent(code.value)) else p,
                  if code.Some? then Emit(q, ErrorSent(code.value)) else q, Failed);
    }
  }

  /** A chunk of octets makes the same of both. */
  lemma SameIncoming(p: Peer, q: Peer, chunk: seq<byte>, parse: Parser)
    requires PrefixStable(parse) && Same(p, q) && chunk != []
    ensures Same(Incoming(p, chunk, parse), Incoming(q, chunk, parse))
  {
    hide Drain, Opened, Deliveries;
    if Live(p) {
      SameOpened(Buffered(p, chunk), Buffered(q, chunk), parse);
      SameDrain(Opened(Buffered(p, chunk), parse), Opened(Buffered(q, chunk), parse));
    }
  }

  /** More pings than allowed are unanswered. */
  predicate Exceeded(p: Peer)
  {
    0 < p.maxOutstandingPings < p.outstandingPings
  }

  /** A ping is sent and counted. */
  lemma IdlePings(p: Peer)
    ensures var q := Idle(p);
            && Deliveries(q.events) == Deliveries(p.events) && q.maxOutstandingPings == p.maxOutstandingPings
            && (q.state == Failed && p.state != Failed ==> Exceeded(q)) && (q.state != Failed ==> Same(q, p))
  {
    var ping := Emit(p, FrameSent(PING, [0, 0, 0, 0]));
    DeliveriesSnoc(p.events, FrameSent(PING, [0, 0, 0, 0]));
    DeliveriesSnoc(ping.events, StateChanged(Failed));
    hide Deliveries;
  }

  /** An idle signal: nothing but a ping when connected, and nothing at all while the handshake is incomplete. */
  lemma IdleIsSame(p: Peer, parse: Parser)
    requires PrefixStable(parse) && Live(p) && (p.state == Connecting ==> parse(p.buffer) == NeedMore)
    ensures var q := Incoming(p, [], parse);
            && Deliveries(q.events) == Deliveries(p.events) && q.maxOutstandingPings == p.maxOutstandingPings
            && (if q.state == Failed then Exceeded(q) else Same(q, p))
  {
    assert Buffered(p, []) == p;
    IdlePings(p);
    hide Deliveries, Idle, Drain, Emit, ChangeState;
  }

  lemma MaximumStaysInFrame(p: Peer, frame: Frame)
    ensures RecvFrame(p, frame).maxOutstandingPings == p.maxOutstandingPings
  {}

  lemma {:induction false} MaximumStaysInDrain(p: Peer)
    ensures Drain(p).maxOutstandingPings == p.maxOutstandingPings
    decreases |p.buffer|
  {
    DrainStep(p);
    if Decode(p.buffer).Complete? {
      hide Drain, Decode, RecvFrame;
      var frame, size := Decode(p.buffer).frame, Decode(p.buffer).size;
      MaximumStaysInFrame(p, frame);
      NextOfMore(p, frame, size, []);
      MaximumStaysInDrain(Next(p, frame, size));
    }
  }

  lemma MaximumStays(p: Peer, chunk: seq<byte>, parse: Parser)
    requires PrefixStable(parse)
    ensures Incoming(p, chunk, parse).maxOutstandingPings == p.maxOutstandingPings
  {
    hide Drain;
    MaximumStaysInDrain(Opened(Buffered(p, chunk), parse));
  }
}
