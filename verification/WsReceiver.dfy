/**
 The receiving side of the WebSocket transport as a state machine on values: handshake, frame parsing
 from an accumulating buffer, and message reassembly (RFC 6455 sections 5.4 and 5.5). It specifies the
 transport class, and the results about segmentation are stated on it.
 */
module WsReceiver {
  import opened Bytes
  import opened WsFrames

  datatype State = Disconnected | Connecting | Connected | Failed

  datatype MessageType = Text | Binary

  datatype Message = Message(messageType: MessageType, data: seq<byte>)

  /** What the transport does that its user or its lower layer sees, in order. */
  datatype Event =
    | Delivered(message: Message)
    | Ended
    | FrameSent(opcode: byte, payload: seq<byte>)
    | ResponseSent
    | ErrorSent(code: int)
    | StateChanged(state: State)

  /** What parsing the handshake text at the start of the buffer gives. */
  datatype Handshake =
    | NeedMore
    | Accepted(length: nat)
    | Rejected(code: Option<int>)

  type Parser = seq<byte> -> Handshake

  /** A decision of the parser is not changed by more octets, and an accepted text is in the buffer. */
  ghost predicate PrefixStable(parse: Parser)
  {
    && (forall s: seq<byte> :: parse(s).Accepted? ==> parse(s).length <= |s|)
    && (forall s: seq<byte>, t: seq<byte> :: parse(s) != NeedMore ==> parse(s + t) == parse(s))
  }

  datatype Peer = Peer(
    isClient: bool,
    maxOutstandingPings: int,
    state: State,
    buffer: seq<byte>,
    partial: seq<byte>,
    partialOpcode: byte,
    outstandingPings: int,
    closeSent: bool,
    events: seq<Event>)

  predicate Live(p: Peer)
  {
    p.state == Connecting || p.state == Connected
  }

  function Emit(p: Peer, e: Event): Peer
  {
    p.(events := p.events + [e])
  }

  function ChangeState(p: Peer, state: State): Peer
  {
    if p.state == state then p else Emit(p.(state := state), StateChanged(state))
  }

  function TypeOf(opcode: byte): MessageType
  {
    if opcode == TEXT_FRAME then Text else Binary
  }

  function OpcodeOf(messageType: MessageType): byte
  {
    if messageType == Text then TEXT_FRAME else BINARY_FRAME
  }

  /** The messages among the events. */
  function Deliveries(events: seq<Event>): (messages: seq<Message>)
  {
    if events == [] then []
    else
      Deliveries(events[..|events| - 1]) +
      if events[|events| - 1].Delivered? then [events[|events| - 1].message] else []
  }

  /** A CLOSE frame is sent at most once, and only while connected. */
  function Close(p: Peer): Peer
  {
    if p.state != Connected || p.closeSent then p
    else Emit(p.(closeSent := true), FrameSent(CLOSE, []))
  }

  /** An unfinished message is delivered when a new one starts. */
  function FlushPartial(p: Peer): Peer
  {
    if p.partial == [] then p
    else Emit(p, Delivered(Message(TypeOf(p.partialOpcode), p.partial))).(partial := [])
  }

  /** A text or binary frame starts a message. */
  function RecvFirst(p: Peer, frame: Frame): Peer
  {
    var q := FlushPartial(p).(partialOpcode := frame.opcode);
    if frame.fin then Emit(q, Delivered(Message(TypeOf(frame.opcode), frame.payload)))
    else q.(partial := q.partial + frame.payload)
  }

  function RecvContinuation(p: Peer, frame: Frame): Peer
  {
    var q := p.(partial := p.partial + frame.payload);
    if frame.fin then Emit(q, Delivered(Message(TypeOf(q.partialOpcode), q.partial))).(partial := []) else q
  }

  function RecvFrame(p: Peer, frame: Frame): Peer
  {
    if frame.opcode == TEXT_FRAME || frame.opcode == BINARY_FRAME then RecvFirst(p, frame)
    else if frame.opcode == CONTINUATION then RecvContinuation(p, frame)
    else if frame.opcode == PING then Emit(p, FrameSent(PONG, frame.payload))
    else if frame.opcode == PONG then p.(outstandingPings := 0)
    else if frame.opcode == CLOSE then ChangeState(Close(p), Disconnected)
    else Close(p)
  }

  /** All complete frames of the buffer are received and removed; the state is not looked at in between. */
  function Drain(p: Peer): (q: Peer)
    decreases |p.buffer|
  {
    match Decode(p.buffer)
    case Incomplete => p
    case Complete(frame, size) => Drain(RecvFrame(p, frame).(buffer := p.buffer[size..]))
  }

  function Handshaken(p: Peer, parse: Parser): Peer
    requires PrefixStable(parse)
  {
    match parse(p.buffer)
    case NeedMore => p
    case Accepted(length) =>
      var q := if p.isClient then p else Emit(p, ResponseSent);
      ChangeState(q, Connected).(buffer := p.buffer[length..])
    case Rejected(code) =>
      var q := if code.Some? then Emit(p, ErrorSent(code.value)) else p;
      ChangeState(q, Failed)
  }

  /** The lower layer is idle: send a ping, and fail when too many are unanswered. */
  function Idle(p: Peer): Peer
  {
    var q := Emit(p, FrameSent(PING, [0, 0, 0, 0])).(outstandingPings := p.outstandingPings + 1);
    if q.maxOutstandingPings > 0 && q.outstandingPings > q.maxOutstandingPings then ChangeState(q, Failed) else q
  }

  function Buffered(p: Peer, chunk: seq<byte>): Peer
  {
    p.(buffer := p.buffer + chunk)
  }

  function Opened(p: Peer, parse: Parser): Peer
    requires PrefixStable(parse)
  {
    if p.state == Connecting then Handshaken(p, parse) else p
  }

  /** A chunk from the lower layer. */
  function Incoming(p: Peer, chunk: seq<byte>, parse: Parser): Peer
    requires PrefixStable(parse)
  {
    if !Live(p) then p
    else
      var b := Buffered(p, chunk);
      var q := Opened(b, parse);
      if q.state != Connected then q
      else if chunk == [] then Idle(q)
      else Drain(q)
  }

  /** The lower layer is gone. */
  function Lost(p: Peer): Peer
  {
    if !Live(p) then p
    else if p.state == Connected then Emit(ChangeState(p, Disconnected), Ended)
    else ChangeState(p, Failed)
  }

  function AllIncoming(p: Peer, chunks: seq<seq<byte>>, parse: Parser): Peer
    requires PrefixStable(parse)
  {
    if chunks == [] then p
    else Incoming(AllIncoming(p, chunks[..|chunks| - 1], parse), chunks[|chunks| - 1], parse)
  }

  // ----- Segmentation -----

  lemma FlushKeepsBuffer(p: Peer, b: seq<byte>)
    ensures FlushPartial(p.(buffer := b)) == FlushPartial(p).(buffer := b) && p.events <= FlushPartial(p).events
  {}

  lemma RecvDataKeepsBuffer(p: Peer, frame: Frame, b: seq<byte>)
    ensures RecvFirst(p.(buffer := b), frame) == RecvFirst(p, frame).(buffer := b)
    ensures RecvContinuation(p.(buffer := b), frame) == RecvContinuation(p, frame).(buffer := b)
    ensures p.events <= RecvFirst(p, frame).events && p.events <= RecvContinuation(p, frame).events
  {
    FlushKeepsBuffer(p, b);
    hide FlushPartial, TypeOf;
  }

  lemma CloseKeepsBuffer(p: Peer, b: seq<byte>)
    ensures Close(p.(buffer := b)) == Close(p).(buffer := b) && p.events <= Close(p).events
    ensures ChangeState(p.(buffer := b), Disconnected) == ChangeState(p, Disconnected).(buffer := b)
    ensures p.events <= ChangeState(p, Disconnected).events
  {}

  /** Receiving a frame does not look at the buffer, and only adds events. */
  lemma RecvFrameKeepsBuffer(p: Peer, frame: Frame, b: seq<byte>)
    ensures RecvFrame(p.(buffer := b), frame) == RecvFrame(p, frame).(buffer := b)
    ensures p.events <= RecvFrame(p, frame).events
  {
    hide RecvFirst, RecvContinuation, Close, ChangeState;
    RecvDataKeepsBuffer(p, frame, b);
    CloseKeepsBuffer(p, b);
    CloseKeepsBuffer(Close(p), b);
  }

  /** The peer after its first complete frame. */
  function Next(p: Peer, frame: Frame, size: nat): Peer
    requires size <= |p.buffer|
  {
    RecvFrame(p, frame).(buffer := p.buffer[size..])
  }

  lemma DrainStep(p: Peer)
    ensures match Decode(p.buffer)
            case Incomplete => Drain(p) == p
            case Complete(frame, size) => Drain(p) == Drain(Next(p, frame, size))
  {
    hide RecvFrame, Decode;
  }

  lemma NextOfMore(p: Peer, frame: Frame, size: nat, more: seq<byte>)
    requires size <= |p.buffer|
    ensures Next(Buffered(p, more), frame, size) == Buffered(Next(p, frame, size), more)
    ensures |Next(p, frame, size).buffer| == |p.buffer| - size
    ensures p.events <= Next(p, frame, size).events
  {
    hide RecvFrame;
    RecvFrameKeepsBuffer(p, frame, p.buffer + more);
    assert (p.buffer + more)[size..] == p.buffer[size..] + more;
  }

  lemma {:induction false} DrainOfMore(p: Peer, more: seq<byte>)
    ensures Drain(Buffered(p, more)) == Drain(Buffered(Drain(p), more))
    decreases |p.buffer|
  {
    DrainStep(p);
    DrainStep(Buffered(p, more));
    hide Drain, Next, Decode;
    if Decode(p.buffer).Complete? {
      var frame, size := Decode(p.buffer).frame, Decode(p.buffer).size;
      DecodeOfMore(p.buffer, more);
      NextOfMore(p, frame, size, more);
      DrainOfMore(Next(p, frame, size), more);
    }
  }

  /** Events are only ever added. */
  lemma {:induction false} DrainAddsEvents(p: Peer)
    ensures p.events <= Drain(p).events
    decreases |p.buffer|
  {
    DrainStep(p);
    hide Drain, Next, Decode;
    if Decode(p.buffer).Complete? {
      var frame, size := Decode(p.buffer).frame, Decode(p.buffer).size;
      NextOfMore(p, frame, size, []);
      DrainAddsEvents(Next(p, frame, size));
    }
  }

  lemma HandshakenOfMore(p: Peer, more: seq<byte>, parse: Parser)
    requires PrefixStable(parse) && p.state == Connecting && parse(p.buffer) != NeedMore
    ensures Handshaken(Buffered(p, more), parse) ==
            if parse(p.buffer).Accepted? then Buffered(Handshaken(p, parse), more)
            else Handshaken(p, parse).(buffer := p.buffer + more)
  {
    if parse(p.buffer).Accepted? {
      var length := parse(p.buffer).length;
      assert (p.buffer + more)[length..] == p.buffer[length..] + more;
    }
  }

  /** Adding `more` to what is already buffered, before looking at it. */
  lemma OpenedOfMore(p: Peer, more: seq<byte>, parse: Parser)
    requires PrefixStable(parse) && Live(p)
    ensures var q := Opened(p, parse);
            var r := Opened(Buffered(p, more), parse);
            && (q.state == Connected ==> r == Buffered(q, more))
            && (q.state == Connecting ==> q == p)
            && (!Live(q) ==> q.state == Failed && q.buffer == p.buffer && r == q.(buffer := p.buffer + more))
            && p.events <= q.events
  {
    if p.state == Connecting && parse(p.buffer) != NeedMore {
      HandshakenOfMore(p, more, parse);
    }
  }

  /**
   Two chunks or one: the same result, unless the first chunk ended the connection; then the second
   one is ignored, while in one piece the frames behind the CLOSE frame are still received.
   */
  lemma TwoChunks(p: Peer, a: seq<byte>, b: seq<byte>, parse: Parser)
    requires PrefixStable(parse) && Live(p) && a != [] && b != []
    ensures var q := Incoming(p, a, parse);
            && (Live(q) ==> Incoming(q, b, parse) == Incoming(p, a + b, parse))
            && (!Live(q) ==> Incoming(q, b, parse) == q)
            && p.events <= q.events <= Incoming(p, a + b, parse).events
            && (q.state == Disconnected ==> Incoming(p, a + b, parse) == Drain(Buffered(q, b)))
            && (q.state == Failed ==> Incoming(p, a + b, parse) == q.(buffer := q.buffer + b))
  {
    hide Drain, Opened;
    var one, both := Buffered(p, a), Buffered(p, a + b);
    assert Buffered(one, b) == both by { ConcatAssociative(p.buffer, a, b); }
    OpenedOfMore(one, b, parse);
    var ready := Opened(one, parse);
    var q := Incoming(p, a, parse);
    if ready.state == Connected {
      assert q == Drain(ready);
      DrainOfMore(ready, b);
      DrainAddsEvents(ready);
      DrainAddsEvents(Buffered(q, b));
      DrainState(ready);
      assert Incoming(p, a + b, parse) == Drain(Buffered(q, b));
      if q.state == Connected {
        assert Opened(Buffered(q, b), parse) == Buffered(q, b) by { OpenedConnected(Buffered(q, b), parse); }
      }
    } else if ready.state == Connecting {
      assert q == one;
      var r := Opened(both, parse);
      if r.state == Connected {
        DrainAddsEvents(r);
      }
      OpenedOfMore(both, [], parse);
    }
  }

  lemma OpenedConnected(p: Peer, parse: Parser)
    requires PrefixStable(parse) && p.state == Connected
    ensures Opened(p, parse) == p
  {}

  /** Frames take a connected peer to Connected or Disconnected. */
  lemma {:induction false} DrainState(p: Peer)
    requires p.state == Connected || p.state == Disconnected
    ensures Drain(p).state == Connected || Drain(p).state == Disconnected
    decreases |p.buffer|
  {
    DrainStep(p);
    if Decode(p.buffer).Complete? {
      hide Decode, Drain;
      var frame, size := Decode(p.buffer).frame, Decode(p.buffer).size;
      DrainState(Next(p, frame, size));
    }
  }

  predicate NonEmptyChunks(chunks: seq<seq<byte>>)
  {
    forall i :: 0 <= i < |chunks| ==> chunks[i] != []
  }

  /**
   For every split of the received octets into non-empty chunks: what the chunks cause is what the
   octets cause in one piece, up to the end of the connection; everything is equal, the buffer
   included, if the connection is still alive before the last chunk.
   */
  lemma {:induction false} SegmentationIndependence(p: Peer, chunks: seq<seq<byte>>, parse: Parser)
    requires PrefixStable(parse) && Live(p) && chunks != [] && NonEmptyChunks(chunks)
    ensures var x := AllIncoming(p, chunks, parse);
            var y := Incoming(p, Flatten(chunks), parse);
            && x.events <= y.events
            && (Live(x) || Live(AllIncoming(p, chunks[..|chunks| - 1], parse)) ==> x == y)
  {
    hide Incoming;
    var front, last := chunks[..|chunks| - 1], chunks[|chunks| - 1];
    SplitLast(chunks);
    FlattenSnoc(front, last);
    if front == [] {
      assert Flatten(chunks) == last;
    } else {
      SegmentationIndependence(p, front, parse);
      assert Flatten(front) != [] by { SplitFirst(front); }
      TwoChunks(p, Flatten(front), last, parse);
      if !Live(AllIncoming(p, front, parse)) {
        DeadStaysDead(AllIncoming(p, front, parse), last, parse);
      }
    }
  }

  lemma DeadStaysDead(p: Peer, chunk: seq<byte>, parse: Parser)
    requires PrefixStable(parse) && !Live(p)
    ensures Incoming(p, chunk, parse) == p
  {}

  // ----- Behind the end of the connection -----

  /** The complete frames of a buffer. */
  function FramesOf(buffer: seq<byte>): (frames: seq<Frame>)
    decreases |buffer|
  {
    match Decode(buffer)
    case Incomplete => []
    case Complete(frame, size) => [frame] + FramesOf(buffer[size..])
  }

  predicate StartsOrContinues(frame: Frame)
  {
    frame.opcode == TEXT_FRAME || frame.opcode == BINARY_FRAME || frame.opcode == CONTINUATION
  }

  /** Neither a ping nor a frame that ends a message, be it by a new one behind unfinished octets. */
  predicate SilentFrame(unfinished: seq<byte>, frame: Frame)
  {
    && frame.opcode != PING
    && (StartsOrContinues(frame) ==> !frame.fin && (frame.opcode == CONTINUATION || unfinished == []))
  }

  /** No frame, behind the unfinished octets of a message, is answered or delivers something. */
  predicate Silent(unfinished: seq<byte>, frames: seq<Frame>)
    decreases |frames|
  {
    frames == [] ||
    (SilentFrame(unfinished, frames[0]) &&
     Silent(if StartsOrContinues(frames[0]) then unfinished + frames[0].payload else unfinished, frames[1..]))
  }

  lemma SilentFrameExactly(p: Peer, frame: Frame)
    requires p.state == Disconnected
    ensures var q := RecvFrame(p, frame);
            && q.state == Disconnected && (q.events == p.events <==> SilentFrame(p.partial, frame))
            && (SilentFrame(p.partial, frame) ==>
                  q.partial == if StartsOrContinues(frame) then p.partial + frame.payload else p.partial)
  {}

  /** On a closed connection, draining changes the events exactly when some complete frame is not silent. */
  lemma {:induction false} SilentExactly(p: Peer)
    requires p.state == Disconnected
    ensures Drain(p).events == p.events <==> Silent(p.partial, FramesOf(p.buffer))
    decreases |p.buffer|
  {
    DrainStep(p);
    if Decode(p.buffer).Complete? {
      hide Drain, Decode, Silent, RecvFrame, SilentFrame;
      var frame, size := Decode(p.buffer).frame, Decode(p.buffer).size;
      var q := Next(p, frame, size);
      SilentFrameExactly(p, frame);
      SilentExactly(q);
      DrainAddsEvents(q);
      NextOfMore(p, frame, size, []);
      SilentCons(p.partial, frame, FramesOf(q.buffer));
    } else {
      assert FramesOf(p.buffer) == [];
    }
  }

  lemma SilentCons(unfinished: seq<byte>, frame: Frame, frames: seq<Frame>)
    ensures Silent(unfinished, [frame] + frames) <==>
            SilentFrame(unfinished, frame) &&
            Silent(if StartsOrContinues(frame) then unfinished + frame.payload else unfinished, frames)
  {
    assert ([frame] + frames)[1..] == frames;
  }

  /** The octets of the chunks that come when the connection is over. */
  function Ignored(p: Peer, chunks: seq<seq<byte>>, parse: Parser): (octets: seq<byte>)
    requires PrefixStable(parse)
  {
    if chunks == [] then []
    else
      var front := chunks[..|chunks| - 1];
      if Live(AllIncoming(p, front, parse)) then [] else Ignored(p, front, parse) + chunks[|chunks| - 1]
  }

  /** What the octets do in one piece, from what the chunks did and the octets they had left. */
  lemma {:induction false} OnePieceAfterEnd(p: Peer, chunks: seq<seq<byte>>, parse: Parser)
    requires PrefixStable(parse) && Live(p) && chunks != [] && NonEmptyChunks(chunks)
    ensures var x := AllIncoming(p, chunks, parse);
            var y := Incoming(p, Flatten(chunks), parse);
            && (Live(x) ==> x == y)
            && (x.state == Disconnected ==> y == Drain(Buffered(x, Ignored(p, chunks, parse))))
            && (x.state == Failed ==> y.state == Failed && y.events == x.events)
  {
    hide Incoming, Drain;
    var front, last := chunks[..|chunks| - 1], chunks[|chunks| - 1];
    var before := AllIncoming(p, front, parse);
    var x := AllIncoming(p, chunks, parse);
    SegmentationIndependence(p, chunks, parse);
    if Live(before) {
      assert Ignored(p, chunks, parse) == [];
      if x.state == Disconnected {
        EndsDrained(before, last, parse);
        assert Buffered(x, []) == x;
      }
    } else {
      DeadStaysDead(before, last, parse);
      assert front != [];
      SplitLast(chunks);
      FlattenSnoc(front, last);
      assert Flatten(front) != [] by { SplitFirst(front); }
      OnePieceAfterEnd(p, front, parse);
      TwoChunks(p, Flatten(front), last, parse);
      var ignored := Ignored(p, front, parse);
      if x.state == Disconnected {
        DrainKeepsDisconnected(Buffered(x, ignored));
        DrainOfMore(Buffered(x, ignored), last);
        ConcatAssociative(x.buffer, ignored, last);
        assert Buffered(Buffered(x, ignored), last) == Buffered(x, ignored + last);
      }
    }
  }

  /** A chunk that ends the connection by a frame leaves no complete frame. */
  lemma EndsDrained(p: Peer, chunk: seq<byte>, parse: Parser)
    requires PrefixStable(parse) && Live(p) && chunk != []
    ensures var q := Incoming(p, chunk, parse); q.state == Disconnected ==> Drain(q) == q
  {
    hide Drain;
    var ready := Opened(Buffered(p, chunk), parse);
    DrainOfMore(ready, []);
    assert Buffered(ready, []) == ready && Buffered(Drain(ready), []) == Drain(ready);
  }

  /** A connection that frames have closed stays closed. */
  lemma {:induction false} DrainKeepsDisconnected(p: Peer)
    requires p.state == Disconnected
    ensures Drain(p).state == Disconnected
    decreases |p.buffer|
  {
    DrainStep(p);
    if Decode(p.buffer).Complete? {
      hide Decode, Drain, RecvFrame;
      var frame, size := Decode(p.buffer).frame, Decode(p.buffer).size;
      SilentFrameExactly(p, frame);
      DrainKeepsDisconnected(Next(p, frame, size));
    }
  }

  /**
   The chunks cause exactly the events of the octets in one piece, unless a frame ended the connection
   and some complete frame in the octets behind it, which the chunks leave unread, is not silent.
   */
  lemma SegmentationExactly(p: Peer, chunks: seq<seq<byte>>, parse: Parser)
    requires PrefixStable(parse) && Live(p) && chunks != [] && NonEmptyChunks(chunks)
    ensures var x := AllIncoming(p, chunks, parse);
            x.events == Incoming(p, Flatten(chunks), parse).events <==>
            (x.state == Disconnected ==> Silent(x.partial, FramesOf(x.buffer + Ignored(p, chunks, parse))))
  {
    OnePieceAfterEnd(p, chunks, parse);
    hide AllIncoming, Incoming, Drain, Silent, FramesOf, Ignored;
    var x := AllIncoming(p, chunks, parse);
    if x.state == Disconnected {
      SilentExactly(Buffered(x, Ignored(p, chunks, parse)));
    }
  }

  /**
   The exception is real: an unfragmented message behind a CLOSE frame is delivered when both come in
   one chunk, and ignored when it comes in a chunk of its own.
   */
  lemma MessageBehindClose(p: Peer, close: seq<byte>, data: seq<byte>, frame: Frame, parse: Parser)
    requires PrefixStable(parse) && p.state == Connected && p.buffer == p.partial == []
    requires Decode(close).Complete? && Decode(close).size == |close| && Decode(close).frame.opcode == CLOSE
    requires Decode(data) == Complete(frame, |data|)
    requires frame.fin && (frame.opcode == TEXT_FRAME || frame.opcode == BINARY_FRAME)
    ensures var separate := Incoming(Incoming(p, close, parse), data, parse);
            && separate.state == Disconnected
            && Incoming(p, close + data, parse).events ==
               separate.events + [Delivered(Message(TypeOf(frame.opcode), frame.payload))]
  {
    hide *;
    IncomingConnected(p, close, parse);
    IncomingConnected(p, close + data, parse);
    BufferedTwice(p, close, data);
    DrainsClose(Buffered(p, close), close, data, frame);
    DrainOfMore(Buffered(p, close), data);
    DeadStaysDead(Drain(Buffered(p, close)), data, parse);
  }

  lemma BufferedTwice(p: Peer, a: seq<byte>, b: seq<byte>)
    requires p.buffer == []
    ensures Buffered(Buffered(p, a), b) == Buffered(p, a + b)
    ensures Buffered(p, a) == p.(buffer := a)
  {
    assert [] + a == a && [] + (a + b) == a + b;
  }

  lemma DrainsClose(c: Peer, close: seq<byte>, data: seq<byte>, frame: Frame)
    requires c.state == Connected && c.partial == [] && c.buffer == close
    requires Decode(close).Complete? && Decode(close).size == |close| && Decode(close).frame.opcode == CLOSE
    requires Decode(data) == Complete(frame, |data|)
    requires frame.fin && (frame.opcode == TEXT_FRAME || frame.opcode == BINARY_FRAME)
    ensures Drain(c).state == Disconnected && !Live(Drain(c))
    ensures Drain(Buffered(Drain(c), data)).events ==
            Drain(c).events + [Delivered(Message(TypeOf(frame.opcode), frame.payload))]
  {
    hide Decode, Drain, RecvFrame;
    DrainOne(c, Decode(close).frame, |close|);
    ReceivesClose(c, Decode(close).frame);
    var t := Buffered(Drain(c), data);
    assert t.buffer == data;
    DrainOne(t, frame, |data|);
    ReceivesMessage(t, frame);
  }

  lemma ReceivesClose(p: Peer, frame: Frame)
    requires p.state == Connected && frame.opcode == CLOSE
    ensures RecvFrame(p, frame).state == Disconnected && RecvFrame(p, frame).partial == p.partial
  {}

  lemma ReceivesMessage(p: Peer, frame: Frame)
    requires p.partial == [] && frame.fin && (frame.opcode == TEXT_FRAME || frame.opcode == BINARY_FRAME)
    ensures RecvFrame(p, frame).events == p.events + [Delivered(Message(TypeOf(frame.opcode), frame.payload))]
    ensures RecvFrame(p, frame).state == p.state && RecvFrame(p, frame).partial == []
  {}

  /** Octets that meet the conditions: an empty CLOSE frame and a one-letter text. */
  lemma CloseAndText()
    ensures Decode([136, 0]) == Complete(Frame(CLOSE, true, false, []), 2)
    ensures Decode([129, 1, 65]) == Complete(Frame(TEXT_FRAME, true, false, [65]), 3)
  {
    assert [136, 0][2..2] == [];
    assert [129, 1, 65][2..3] == [65];
  }

  lemma IncomingConnected(p: Peer, chunk: seq<byte>, parse: Parser)
    requires PrefixStable(parse) && p.state == Connected && chunk != []
    ensures Incoming(p, chunk, parse) == Drain(Buffered(p, chunk))
  {}

  lemma DrainOne(p: Peer, frame: Frame, size: nat)
    requires Decode(p.buffer) == Complete(frame, size) && size == |p.buffer|
    ensures Drain(p) == RecvFrame(p, frame).(buffer := [])
  {
    hide RecvFrame;
    assert Decode([]) == Incomplete;
  }

  // ----- Fragmented messages -----

  function RecvAll(p: Peer, frames: seq<Frame>): Peer
    decreases frames
  {
    if frames == [] then p else RecvAll(RecvFrame(p, frames[0]), frames[1..])
  }

  predicate IsControl(frame: Frame)
  {
    frame.opcode == PING || frame.opcode == PONG
  }

  /** Continuation frames for the rest of a message, the last one final, with control frames in between. */
  predicate Continues(frames: seq<Frame>, data: seq<byte>)
    decreases frames
  {
    frames != [] &&
    var f := frames[0];
    if IsControl(f) then Continues(frames[1..], data)
    else
      && f.opcode == CONTINUATION
      && if f.fin then frames[1..] == [] && f.payload == data
         else f.payload <= data && Continues(frames[1..], data[|f.payload|..])
  }

  /** A fragmentation of a message (RFC 6455 section 5.4), after and with control frames. */
  predicate Carries(frames: seq<Frame>, m: Message)
    decreases frames
  {
    frames != [] &&
    var f := frames[0];
    if IsControl(f) then Carries(frames[1..], m)
    else
      && f.opcode == OpcodeOf(m.messageType)
      && if f.fin then frames[1..] == [] && f.payload == m.data
         else f.payload <= m.data && Continues(frames[1..], m.data[|f.payload|..])
  }

  /** The answers to the ping frames. */
  function Pongs(frames: seq<Frame>): (events: seq<Event>)
    decreases frames
  {
    if frames == [] then []
    else (if frames[0].opcode == PING then [FrameSent(PONG, frames[0].payload)] else []) + Pongs(frames[1..])
  }

  lemma RecvControl(p: Peer, frame: Frame)
    requires IsControl(frame)
    ensures var q := RecvFrame(p, frame);
            && q.events == p.events + Pongs([frame])
            && q.partial == p.partial && q.partialOpcode == p.partialOpcode
            && q.state == p.state && q.buffer == p.buffer
  {}

  lemma PongsCons(frame: Frame, frames: seq<Frame>)
    ensures Pongs([frame] + frames) == Pongs([frame]) + Pongs(frames)
    ensures frame.opcode != PING ==> Pongs([frame]) == []
  {
    assert ([frame] + frames)[1..] == frames;
  }

  lemma {:induction false} ContinuesDelivers(p: Peer, frames: seq<Frame>, data: seq<byte>)
    requires Continues(frames, data)
    ensures var q := RecvAll(p, frames);
            && q.events == p.events + Pongs(frames) +
                           [Delivered(Message(TypeOf(p.partialOpcode), p.partial + data))]
            && q.partial == [] && q.state == p.state && q.buffer == p.buffer
    decreases frames
  {
    var f, rest := frames[0], frames[1..];
    SplitFirst(frames);
    PongsCons(f, rest);
    var q := RecvFrame(p, f);
    if IsControl(f) {
      RecvControl(p, f);
      hide RecvFrame, Pongs;
      ContinuesDelivers(q, rest, data);
      ConcatAssociative(p.events, Pongs([f]), Pongs(rest));
    } else if !f.fin {
      assert q == p.(partial := p.partial + f.payload);
      hide RecvFrame, Pongs;
      ContinuesDelivers(q, rest, data[|f.payload|..]);
      ConcatAssociative(p.partial, f.payload, data[|f.payload|..]);
      PrefixParts(f.payload, data);
    }
  }

  lemma PrefixParts(a: seq<byte>, s: seq<byte>)
    requires a <= s
    ensures a + s[|a|..] == s
  {}

  /**
   However a message is fragmented, and whatever ping and pong frames come in between: the message is
   delivered in one piece with its type, after the pongs, and no fragment is left over.
   */
  lemma {:induction false} FragmentsDeliver(p: Peer, frames: seq<Frame>, m: Message)
    requires p.partial == [] && Carries(frames, m)
    ensures var q := RecvAll(p, frames);
            && q.events == p.events + Pongs(frames) + [Delivered(m)]
            && q.partial == [] && q.state == p.state && q.buffer == p.buffer
    decreases frames
  {
    var f, rest := frames[0], frames[1..];
    SplitFirst(frames);
    PongsCons(f, rest);
    var q := RecvFrame(p, f);
    if IsControl(f) {
      RecvControl(p, f);
      hide RecvFrame, Pongs;
      FragmentsDeliver(q, rest, m);
      ConcatAssociative(p.events, Pongs([f]), Pongs(rest));
    } else if f.fin {
      ReceivesMessage(p, f);
    } else {
      FirstFragment(p, f);
      hide RecvFrame, Pongs;
      ContinuesDelivers(q, rest, m.data[|f.payload|..]);
      PrefixParts(f.payload, m.data);
    }
  }

  lemma FirstFragment(p: Peer, f: Frame)
    requires p.partial == [] && !f.fin && (f.opcode == TEXT_FRAME || f.opcode == BINARY_FRAME)
    ensures RecvFrame(p, f) == p.(partial := f.payload, partialOpcode := f.opcode)
  {}

  // ----- Octets to frames -----

  predicate Encodable(frames: seq<Frame>)
  {
    forall i :: 0 <= i < |frames| ==> frames[i].opcode < 16 && |frames[i].payload| < TWO_TO_THE_64
  }

  function EncodeAll(frames: seq<Frame>, keys: seq<Key>): (s: seq<byte>)
    requires |keys| == |frames|
    decreases frames
  {
    if frames == [] then [] else Encode(frames[0], keys[0]) + EncodeAll(frames[1..], keys[1..])
  }

  /** The octets of frames, whatever their masking keys, are received as those frames. */
  lemma {:induction false} DrainOfFrames(p: Peer, frames: seq<Frame>, keys: seq<Key>, rest: seq<byte>)
    requires |keys| == |frames| && Encodable(frames)
    ensures Drain(p.(buffer := EncodeAll(frames, keys) + rest)) == Drain(RecvAll(p, frames).(buffer := rest))
    decreases frames
  {
    if frames == [] {
      assert EncodeAll(frames, keys) + rest == rest;
    } else {
      var first, more := Encode(frames[0], keys[0]), EncodeAll(frames[1..], keys[1..]);
      var b := p.(buffer := EncodeAll(frames, keys) + rest);
      assert b.buffer == first + (more + rest) by { ConcatAssociative(first, more, rest); }
      DecodeOfEncode(frames[0], keys[0], more + rest);
      DrainStep(b);
      assert b.buffer[|first|..] == more + rest;
      RecvFrameKeepsBuffer(p, frames[0], b.buffer);
      hide RecvFrame, Drain, Decode, Encode;
      DrainOfFrames(RecvFrame(p, frames[0]), frames[1..], keys[1..], rest);
      assert Next(b, frames[0], |first|) == RecvFrame(p, frames[0]).(buffer := more + rest);
    }
  }
}
