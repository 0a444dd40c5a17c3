/**
 A connected WebSocket transport, its TCP send queue, the wire, and the peer's transport, run together:
 messages, pings and pongs are sent with any masking keys, the socket takes octets as it likes, and the
 peer receives what was written in non-empty chunks cut anywhere, beginning with the handshake text.
 */
module WsEndToEnd {
  import opened Bytes
  import opened WsFrames
  import opened WsReceiver
  import opened WsIdle
  import T = TcpTransport

  /** What does not change in a run: who sends, the handshake text, and the peer's parser and first state. */
  datatype Setting = Setting(isClient: bool, hello: seq<byte>, parse: Parser, peer: Peer)

  datatype System = System(
    sent: seq<Message>,
    frames: seq<Frame>,
    keys: seq<Key>,
    tcp: T.Sender,
    open: bool,
    received: nat,
    peer: Peer)

  datatype Action =
    | SendMessage(message: Message, key: Key, answers: seq<T.Answer>)
    | SendControl(opcode: byte, payload: seq<byte>, key: Key, answers: seq<T.Answer>)
    | FlushQueue(answers: seq<T.Answer>)
    | Arrive(count: nat)
    | IdleSignal

  /** The peer is still connecting, and its parser accepts the handshake text. */
  ghost predicate Ready(c: Setting)
  {
    && PrefixStable(c.parse)
    && c.hello != [] && c.parse(c.hello) == Accepted(|c.hello|)
    && c.peer.state == Connecting && c.peer.buffer == c.peer.partial == [] && c.peer.events == []
  }

  /** The handshake text was handed to TCP; some of it may be written. */
  predicate Initial(c: Setting, s: System)
  {
    && s.sent == [] && s.frames == [] && s.keys == [] && s.open && s.received == 0 && s.peer == c.peer
    && T.Consistent(s.tcp) && T.Accepted(s.tcp) == c.hello
  }

  predicate Enabled(s: System, a: Action)
  {
    match a
    case SendMessage(m, _, _) => s.open && |m.data| < TWO_TO_THE_64
    case SendControl(opcode, payload, _, _) =>
      s.open && (opcode == PING || opcode == PONG) && |payload| < TWO_TO_THE_64
    case FlushQueue(_) => s.open
    case Arrive(count) => 0 < count && s.received + count <= |s.tcp.written|
    case IdleSignal => true
  }

  function DataFrame(c: Setting, m: Message): Frame
  {
    Frame(OpcodeOf(m.messageType), true, c.isClient, m.data)
  }

  function HandDown(s: System, frame: Frame, key: Key, answers: seq<T.Answer>): System
  {
    var r := T.Sent(s.tcp, Encode(frame, key), answers);
    s.(frames := s.frames + [frame], keys := s.keys + [key], tcp := r.sender, open := r.status != T.Broken)
  }

  function Step(c: Setting, s: System, a: Action): System
    requires PrefixStable(c.parse) && Enabled(s, a)
  {
    match a
    case SendMessage(m, key, answers) => HandDown(s, DataFrame(c, m), key, answers).(sent := s.sent + [m])
    case SendControl(opcode, payload, key, answers) =>
      HandDown(s, Frame(opcode, true, c.isClient, payload), key, answers)
    case FlushQueue(answers) =>
      var r := T.Flush(s.tcp, answers);
      s.(tcp := r.sender, open := r.status != T.Broken)
    case Arrive(count) =>
      var chunk := s.tcp.written[s.received..s.received + count];
      s.(received := s.received + count, peer := Incoming(s.peer, chunk, c.parse))
    case IdleSignal => s.(peer := Incoming(s.peer, [], c.parse))
  }

  /** Action i leads from state i to the next one. */
  ghost predicate StepAt(c: Setting, states: seq<System>, actions: seq<Action>, i: int)
    requires PrefixStable(c.parse)
  {
    && 0 <= i < |actions| && i + 1 < |states|
    && Enabled(states[i], actions[i]) && states[i + 1] == Step(c, states[i], actions[i])
  }

  ghost predicate IsRun(c: Setting, states: seq<System>, actions: seq<Action>)
  {
    && PrefixStable(c.parse)
    && |states| == |actions| + 1 && Initial(c, states[0])
    && forall i :: 0 <= i < |actions| ==> StepAt(c, states, actions, i)
  }

  // ----- What the octets mean -----

  /** The messages of final data frames. */
  function MessagesOf(frames: seq<Frame>): (messages: seq<Message>)
  {
    if frames == [] then []
    else
      var last := frames[|frames| - 1];
      MessagesOf(frames[..|frames| - 1]) + if IsControl(last) then [] else [Message(TypeOf(last.opcode), last.payload)]
  }

  /** Final frames with a message, ping or pong. */
  predicate Simple(frames: seq<Frame>)
  {
    forall i :: 0 <= i < |frames| ==> frames[i].fin && (IsControl(frames[i]) || IsData(frames[i]))
  }

  predicate IsData(frame: Frame)
  {
    frame.opcode == TEXT_FRAME || frame.opcode == BINARY_FRAME
  }

  /** More events deliver more messages. */
  lemma {:induction false} DeliveriesGrow(a: seq<Event>, b: seq<Event>)
    requires a <= b
    ensures Deliveries(a) <= Deliveries(b)
  {
    if a == b {
    } else {
      SplitLast(b);
      DeliveriesGrow(a, b[..|b| - 1]);
      DeliveriesSnoc(b[..|b| - 1], b[|b| - 1]);
    }
  }

  lemma RecvAllSnoc(p: Peer, frames: seq<Frame>, last: Frame)
    ensures RecvAll(p, frames + [last]) == RecvFrame(RecvAll(p, frames), last)
    decreases frames
  {
    hide RecvFrame;
    if frames == [] {
      assert [last][1..] == [];
    } else {
      assert (frames + [last])[1..] == frames[1..] + [last];
      RecvAllSnoc(RecvFrame(p, frames[0]), frames[1..], last);
    }
  }

  lemma RecvSimple(p: Peer, f: Frame)
    requires p.partial == [] && f.fin && (IsControl(f) || IsData(f))
    ensures var q := RecvFrame(p, f);
            && q.partial == [] && q.state == p.state && q.buffer == p.buffer
            && Deliveries(q.events) == Deliveries(p.events) + MessagesOf([f])
  {
    assert MessagesOf([f]) == if IsControl(f) then [] else [Message(TypeOf(f.opcode), f.payload)];
    if IsData(f) {
      DeliveriesSnoc(p.events, Delivered(Message(TypeOf(f.opcode), f.payload)));
    } else if f.opcode == PING {
      DeliveriesSnoc(p.events, FrameSent(PONG, f.payload));
    }
  }

  lemma MessagesSnoc(frames: seq<Frame>, last: Frame)
    ensures MessagesOf(frames + [last]) == MessagesOf(frames) + MessagesOf([last])
  {
    assert (frames + [last])[..|frames|] == frames;
  }

  /** The frames deliver their messages and leave the connection open with nothing unfinished. */
  lemma {:induction false} RecvAllSimple(p: Peer, frames: seq<Frame>)
    requires p.partial == [] && Simple(frames)
    ensures var q := RecvAll(p, frames);
            && q.partial == [] && q.state == p.state && q.buffer == p.buffer
            && Deliveries(q.events) == Deliveries(p.events) + MessagesOf(frames)
    decreases |frames|
  {
    if frames != [] {
      var front, last := frames[..|frames| - 1], frames[|frames| - 1];
      SplitLast(frames);
      RecvAllSimple(p, front);
      RecvAllSnoc(p, front, last);
      MessagesSnoc(front, last);
      hide MessagesOf, RecvAll, Deliveries;
      RecvSimple(RecvAll(p, front), last);
    }
  }

  /** What the peer is once it has read the octets w in one piece. */
  function Read(c: Setting, w: seq<byte>): Peer
    requires PrefixStable(c.parse)
  {
    if w == [] then c.peer else Incoming(c.peer, w, c.parse)
  }

  /** The peer right after the handshake. */
  function Greeted(c: Setting): Peer
  {
    var q := if c.peer.isClient then c.peer else Emit(c.peer, ResponseSent);
    ChangeState(q, Connected)
  }

  lemma GreetedState(c: Setting)
    requires Ready(c)
    ensures var g := Greeted(c);
            g.state == Connected && g.buffer == [] && g.partial == [] && Deliveries(g.events) == []
  {
    DeliveriesSnoc([], ResponseSent);
    DeliveriesSnoc([], StateChanged(Connected));
    DeliveriesSnoc([ResponseSent], StateChanged(Connected));
    assert [] + [ResponseSent] == [ResponseSent];
  }

  /** Less than the handshake text decides nothing; after it frames are read. */
  lemma ReadHello(c: Setting, w: seq<byte>)
    requires Ready(c)
    ensures w < c.hello ==> Read(c, w) == c.peer.(buffer := w)
    ensures c.hello <= w ==> Read(c, w) == Drain(Greeted(c).(buffer := w[|c.hello|..]))
  {
    hide Drain;
    assert Buffered(c.peer, w) == c.peer.(buffer := w) by { assert [] + w == w; }
    if w < c.hello {
      var rest := c.hello[|w|..];
      assert w + rest == c.hello;
      assert c.parse(w) != NeedMore ==> c.parse(w + rest) == c.parse(w);
    } else if c.hello <= w {
      assert c.hello + w[|c.hello|..] == w;
      assert c.parse(w) == c.parse(c.hello + w[|c.hello|..]) == Accepted(|c.hello|);
    }
  }

  lemma HelloOrPart(hello: seq<byte>, rest: seq<byte>, w: seq<byte>)
    requires w <= hello + rest
    ensures w < hello || (hello <= w && w[|hello|..] <= rest)
    ensures w == hello + rest ==> hello <= w && w[|hello|..] == rest
  {
    if |w| < |hello| {
      assert w == (hello + rest)[..|w|] == hello[..|w|];
    } else {
      assert (hello + rest)[..|hello|] == hello;
      assert w[..|hello|] == hello;
      assert w[|hello|..] == (hello + rest)[|hello|..|w|] == rest[..|w| - |hello|];
    }
  }

  /**
   Whatever part of the sent octets the peer has read: the connection is open, and what was delivered
   is a prefix of what was sent, and all of it once everything is read.
   */
  lemma ReadPart(c: Setting, frames: seq<Frame>, keys: seq<Key>, w: seq<byte>)
    requires Ready(c) && |keys| == |frames| && Encodable(frames) && Simple(frames)
    requires w <= c.hello + EncodeAll(frames, keys)
    ensures Live(Read(c, w))
    ensures Deliveries(Read(c, w).events) <= MessagesOf(frames)
    ensures w == c.hello + EncodeAll(frames, keys) ==> Deliveries(Read(c, w).events) == MessagesOf(frames)
  {
    ReadHello(c, w);
    HelloOrPart(c.hello, EncodeAll(frames, keys), w);
    if c.hello <= w {
      GreetedState(c);
      DrainPart(Greeted(c), frames, keys, w[|c.hello|..]);
    } else {
      assert Deliveries([]) == [];
    }
  }

  lemma DrainPart(g: Peer, frames: seq<Frame>, keys: seq<Key>, w: seq<byte>)
    requires g.state == Connected && g.buffer == g.partial == [] && Deliveries(g.events) == []
    requires |keys| == |frames| && Encodable(frames) && Simple(frames)
    requires w <= EncodeAll(frames, keys)
    ensures var q := Drain(g.(buffer := w));
            && q.state == Connected && Deliveries(q.events) <= MessagesOf(frames)
            && (w == EncodeAll(frames, keys) ==> Deliveries(q.events) == MessagesOf(frames))
  {
    hide *;
    var all := EncodeAll(frames, keys);
    var rest := all[|w|..];
    DrainWhole(g, frames, keys);
    RestOf(w, all);
    DrainOfMore(g.(buffer := w), rest);
    BufferedOn(g, w, rest);
    DrainOn(Drain(g.(buffer := w)), rest, RecvAll(g, frames));
    DrainState(g.(buffer := w));
  }

  lemma RestOf(w: seq<byte>, all: seq<byte>)
    requires w <= all
    ensures w + all[|w|..] == all
  {}

  lemma BufferedOn(g: Peer, w: seq<byte>, rest: seq<byte>)
    ensures Buffered(g.(buffer := w), rest) == g.(buffer := w + rest)
  {}

  /** All frames together. */
  lemma DrainWhole(g: Peer, frames: seq<Frame>, keys: seq<Key>)
    requires g.state == Connected && g.buffer == g.partial == [] && Deliveries(g.events) == []
    requires |keys| == |frames| && Encodable(frames) && Simple(frames)
    ensures var end := RecvAll(g, frames);
            && Drain(g.(buffer := EncodeAll(frames, keys))) == end
            && end.state == Connected && Deliveries(end.events) == MessagesOf(frames)
  {
    var all := EncodeAll(frames, keys);
    var end := RecvAll(g, frames);
    assert all + [] == all && [] + MessagesOf(frames) == MessagesOf(frames);
    hide *;
    DrainOfFrames(g, frames, keys, []);
    RecvAllSimple(g, frames);
    DrainEmpty(end.(buffer := []));
  }

  /** A peer that will be connected at the end is not disconnected, and has delivered a part. */
  lemma DrainOn(q: Peer, rest: seq<byte>, end: Peer)
    requires Drain(Buffered(q, rest)) == end && end.state == Connected
    ensures q.state != Disconnected && Deliveries(q.events) <= Deliveries(end.events)
  {
    hide Drain, Deliveries;
    DrainAddsEvents(Buffered(q, rest));
    DeliveriesGrow(q.events, end.events);
    if q.state == Disconnected {
      DrainKeepsDisconnected(Buffered(q, rest));
    }
  }

  lemma DrainEmpty(p: Peer)
    requires p.buffer == []
    ensures Drain(p) == p
  {
    hide RecvFrame;
    assert Decode([]) == Incomplete;
  }

  // ----- The invariant of every run -----

  /** What is on the wire and in the queue encodes the frames, whose messages are those sent. */
  predicate Sending(c: Setting, s: System)
  {
    && |s.keys| == |s.frames| && Encodable(s.frames) && Simple(s.frames) && MessagesOf(s.frames) == s.sent
    && s.tcp.written <= c.hello + EncodeAll(s.frames, s.keys)
    && (s.open ==> T.Consistent(s.tcp) && T.Accepted(s.tcp) == c.hello + EncodeAll(s.frames, s.keys))
  }

  /** What becomes of a peer by reading and by idle signals. */
  ghost predicate Reads(c: Setting, p: Peer, w: seq<byte>)
    requires PrefixStable(c.parse)
  {
    && p.maxOutstandingPings == c.peer.maxOutstandingPings
    && if p.state == Failed then Exceeded(p) && Deliveries(p.events) <= Deliveries(Read(c, w).events)
       else Same(p, Read(c, w))
  }

  /** The peer is what it has read of the written octets, but for pings, unless too many of them were unanswered. */
  ghost predicate Receiving(c: Setting, s: System)
    requires PrefixStable(c.parse)
  {
    s.received <= |s.tcp.written| && Reads(c, s.peer, s.tcp.written[..s.received])
  }

  ghost predicate Inv(c: Setting, s: System)
  {
    Ready(c) && Sending(c, s) && Receiving(c, s)
  }

  lemma {:induction false} EncodeAllSnoc(frames: seq<Frame>, keys: seq<Key>, frame: Frame, key: Key)
    requires |keys| == |frames|
    ensures EncodeAll(frames + [frame], keys + [key]) == EncodeAll(frames, keys) + Encode(frame, key)
    decreases frames
  {
    hide Encode;
    if frames == [] {
      assert [frame][1..] == [] && [key][1..] == [];
    } else {
      assert (frames + [frame])[1..] == frames[1..] + [frame] && (keys + [key])[1..] == keys[1..] + [key];
      EncodeAllSnoc(frames[1..], keys[1..], frame, key);
      ConcatAssociative(Encode(frames[0], keys[0]), EncodeAll(frames[1..], keys[1..]), Encode(frame, key));
    }
  }

  lemma HandDownKeeps(c: Setting, s: System, frame: Frame, key: Key, answers: seq<T.Answer>)
    requires Inv(c, s) && s.open
    requires frame.fin && (IsControl(frame) || IsData(frame)) && |frame.payload| < TWO_TO_THE_64
    ensures Inv(c, HandDown(s, frame, key, answers).(sent := s.sent + MessagesOf([frame])))
  {
    hide T.Sent, T.Consistent, T.Accepted, Encode, EncodeAll, MessagesOf, Read, Ready, Encodable, Simple;
    FramesGrow(s.frames, frame);
    Queued(c, s, frame, key, answers);
  }

  lemma FramesGrow(frames: seq<Frame>, frame: Frame)
    requires Encodable(frames) && Simple(frames)
    requires frame.fin && (IsControl(frame) || IsData(frame)) && |frame.payload| < TWO_TO_THE_64
    ensures Encodable(frames + [frame]) && Simple(frames + [frame])
    ensures MessagesOf(frames + [frame]) == MessagesOf(frames) + MessagesOf([frame])
  {
    MessagesSnoc(frames, frame);
    assert frame.opcode < 16;
    hide MessagesOf, IsControl, IsData;
    var more := frames + [frame];
    forall i | 0 <= i < |more|
      ensures more[i].opcode < 16 && |more[i].payload| < TWO_TO_THE_64
      ensures more[i].fin && (IsControl(more[i]) || IsData(more[i]))
    {
      assert more[i] == if i < |frames| then frames[i] else frame;
    }
  }

  lemma Queued(c: Setting, s: System, frame: Frame, key: Key, answers: seq<T.Answer>)
    requires |s.keys| == |s.frames| && s.received <= |s.tcp.written|
    requires T.Consistent(s.tcp) && T.Accepted(s.tcp) == c.hello + EncodeAll(s.frames, s.keys)
    ensures var r := T.Sent(s.tcp, Encode(frame, key), answers);
            var all := c.hello + EncodeAll(s.frames + [frame], s.keys + [key]);
            && r.sender.written <= all
            && (r.status != T.Broken ==> T.Consistent(r.sender) && T.Accepted(r.sender) == all)
            && s.received <= |r.sender.written|
            && r.sender.written[..s.received] == s.tcp.written[..s.received]
  {
    hide *;
    T.SendConserves(s.tcp, Encode(frame, key), answers);
    EncodeAllSnoc(s.frames, s.keys, frame, key);
    ConcatAssociative(c.hello, EncodeAll(s.frames, s.keys), Encode(frame, key));
    SliceOfPrefix(s.tcp.written, T.Sent(s.tcp, Encode(frame, key), answers).sender.written, s.received);
  }

  lemma SliceOfPrefix(a: seq<byte>, b: seq<byte>, n: nat)
    requires a <= b && n <= |a|
    ensures b[..n] == a[..n]
  {}

  lemma FlushKeeps(c: Setting, s: System, answers: seq<T.Answer>)
    requires Inv(c, s) && s.open
    ensures Inv(c, Step(c, s, FlushQueue(answers)))
  {
    var r := T.Flush(s.tcp, answers);
    T.FlushConserves(s.tcp, answers);
    hide T.Flush, T.Consistent, T.Accepted, EncodeAll, MessagesOf, Read, Ready, PrefixStable;
    SliceOfPrefix(s.tcp.written, r.sender.written, s.received);
  }

  lemma ArriveKeeps(c: Setting, s: System, count: nat)
    requires Inv(c, s) && Enabled(s, Arrive(count))
    ensures Inv(c, Step(c, s, Arrive(count)))
    ensures s.peer.state != Failed ==> Step(c, s, Arrive(count)).peer.state != Failed
  {
    hide T.Consistent, T.Accepted, EncodeAll, MessagesOf, Encodable, Simple, PrefixStable, Read, Incoming, Reads;
    var w, to := s.tcp.written, s.received + count;
    ReadOn(c, s.frames, s.keys, w, s.received, to);
    ReadParts(c, s.frames, s.keys, w, s.received);
    ReadParts(c, s.frames, s.keys, w, to);
    ReadsMore(c, s.peer, w[..s.received], w[s.received..to], w[..to]);
  }

  /** A peer goes on reading. */
  lemma ReadsMore(c: Setting, p: Peer, before: seq<byte>, chunk: seq<byte>, after: seq<byte>)
    requires PrefixStable(c.parse) && Reads(c, p, before) && chunk != [] && Live(Read(c, before)) && Live(Read(c, after))
    requires Read(c, after) == Incoming(Read(c, before), chunk, c.parse)
    ensures Reads(c, Incoming(p, chunk, c.parse), after)
    ensures p.state != Failed ==> Incoming(p, chunk, c.parse).state != Failed
  {
    hide PrefixStable, Read, Incoming, Deliveries;
    MaximumStays(p, chunk, c.parse);
    if p.state == Failed {
      DeadStaysDead(p, chunk, c.parse);
      TwoChunks(Read(c, before), chunk, chunk, c.parse);
      DeliveriesGrow(Read(c, before).events, Read(c, after).events);
    } else {
      SameIncoming(p, Read(c, before), chunk, c.parse);
    }
  }

  /** Whatever part is read, the connection is open, and an incomplete handshake text is only incomplete. */
  lemma ReadParts(c: Setting, frames: seq<Frame>, keys: seq<Key>, written: seq<byte>, n: nat)
    requires Ready(c) && |keys| == |frames| && Encodable(frames) && Simple(frames)
    requires written <= c.hello + EncodeAll(frames, keys) && n <= |written|
    ensures var r := Read(c, written[..n]); Live(r) && (r.state == Connecting ==> c.parse(r.buffer) == NeedMore)
  {
    hide Encodable, Simple;
    var w := written[..n];
    assert w <= c.hello + EncodeAll(frames, keys);
    hide EncodeAll;
    ReadPart(c, frames, keys, w);
    HelloOrPart(c.hello, EncodeAll(frames, keys), w);
    ReadHello(c, w);
    hide Read;
    if w < c.hello {
      HelloNeedsMore(c, w);
    } else {
      GreetedState(c);
      DrainPart(Greeted(c), frames, keys, w[|c.hello|..]);
    }
  }

  lemma HelloNeedsMore(c: Setting, w: seq<byte>)
    requires Ready(c) && w < c.hello
    ensures c.parse(w) == NeedMore
  {
    var rest := c.hello[|w|..];
    assert w + rest == c.hello;
    assert c.parse(w) != NeedMore ==> c.parse(w + rest) == c.parse(w);
  }

  lemma IdleKeeps(c: Setting, s: System)
    requires PrefixStable(c.parse) && Enabled(s, IdleSignal) && Inv(c, s)
    ensures Inv(c, Step(c, s, IdleSignal))
    ensures c.peer.maxOutstandingPings <= 0 && s.peer.state != Failed ==> Step(c, s, IdleSignal).peer.state != Failed
  {
    hide T.Consistent, T.Accepted, EncodeAll, MessagesOf, Encodable, Simple, PrefixStable, Read, Incoming, Reads;
    ReadParts(c, s.frames, s.keys, s.tcp.written, s.received);
    ReadsIdle(c, s.peer, s.tcp.written[..s.received]);
  }

  lemma ReadsIdle(c: Setting, p: Peer, w: seq<byte>)
    requires PrefixStable(c.parse) && Reads(c, p, w)
    requires Live(Read(c, w)) && (Read(c, w).state == Connecting ==> c.parse(Read(c, w).buffer) == NeedMore)
    ensures Reads(c, Incoming(p, [], c.parse), w)
    ensures c.peer.maxOutstandingPings <= 0 && p.state != Failed ==> Incoming(p, [], c.parse).state != Failed
  {
    hide PrefixStable, Read, Incoming, Deliveries;
    MaximumStays(p, [], c.parse);
    if p.state == Failed {
      DeadStaysDead(p, [], c.parse);
    } else {
      IdleIsSame(p, c.parse);
    }
  }

  lemma ReadOn(c: Setting, frames: seq<Frame>, keys: seq<Key>, written: seq<byte>, from: nat, to: nat)
    requires Ready(c) && |keys| == |frames| && Encodable(frames) && Simple(frames)
    requires written <= c.hello + EncodeAll(frames, keys) && from < to <= |written|
    ensures Read(c, written[..to]) == Incoming(Read(c, written[..from]), written[from..to], c.parse)
  {
    hide Ready, PrefixStable, Read, Incoming, EncodeAll, Encodable, Simple;
    assert PrefixStable(c.parse) by { ReadyIsStable(c); }
    Slices(written, from, to, c.hello + EncodeAll(frames, keys));
    ReadPart(c, frames, keys, written[..from]);
    ReadMore(c, written[..from], written[from..to]);
  }

  lemma ReadyIsStable(c: Setting)
    requires Ready(c)
    ensures PrefixStable(c.parse)
  {}

  lemma Slices(written: seq<byte>, from: nat, to: nat, all: seq<byte>)
    requires from < to <= |written| && written <= all
    ensures written[..from] + written[from..to] == written[..to] && written[from..to] != []
    ensures written[..from] <= all
  {}

  lemma ReadMore(c: Setting, before: seq<byte>, chunk: seq<byte>)
    requires Ready(c) && Live(Read(c, before)) && chunk != []
    ensures Read(c, before + chunk) == Incoming(Read(c, before), chunk, c.parse)
  {
    hide Incoming;
    if before == [] {
      assert before + chunk == chunk;
    } else {
      TwoChunks(c.peer, before, chunk, c.parse);
    }
  }

  lemma StepKeeps(c: Setting, s: System, a: Action)
    requires Inv(c, s) && Enabled(s, a)
    ensures Inv(c, Step(c, s, a))
  {
    match a
    case SendMessage(m, key, answers) =>
      HandDownKeeps(c, s, DataFrame(c, m), key, answers);
      assert MessagesOf([DataFrame(c, m)]) == [m];
    case SendControl(opcode, payload, key, answers) =>
      var frame := Frame(opcode, true, c.isClient, payload);
      HandDownKeeps(c, s, frame, key, answers);
      assert MessagesOf([frame]) == [];
    case FlushQueue(answers) => FlushKeeps(c, s, answers);
    case Arrive(count) => ArriveKeeps(c, s, count);
    case IdleSignal => IdleKeeps(c, s);
  }

  lemma InitialKeeps(c: Setting, s: System)
    requires Ready(c) && Initial(c, s)
    ensures Inv(c, s)
  {
    assert c.hello + [] == c.hello;
    assert MessagesOf([]) == [];
  }

  lemma {:induction false} RunKeeps(c: Setting, states: seq<System>, actions: seq<Action>, i: nat)
    requires Ready(c) && IsRun(c, states, actions) && i < |states|
    ensures Inv(c, states[i])
  {
    hide Inv, Initial, PrefixStable, Enabled, Step;
    if i == 0 {
      InitialKeeps(c, states[0]);
    } else {
      RunKeeps(c, states, actions, i - 1);
      assert StepAt(c, states, actions, i - 1);
      StepKeeps(c, states[i - 1], actions[i - 1]);
    }
  }

  /** Without idle signals, or without a maximum of unanswered pings, the peer does not fail. */
  predicate Patient(c: Setting, actions: seq<Action>, n: nat)
  {
    c.peer.maxOutstandingPings <= 0 || forall k :: 0 <= k < n && k < |actions| ==> !actions[k].IdleSignal?
  }

  lemma StepStays(c: Setting, s: System, a: Action)
    requires Inv(c, s) && Enabled(s, a) && s.peer.state != Failed
    requires a.IdleSignal? ==> c.peer.maxOutstandingPings <= 0
    ensures Step(c, s, a).peer.state != Failed
  {
    if a.Arrive? {
      ArriveKeeps(c, s, a.count);
    } else if a.IdleSignal? {
      IdleKeeps(c, s);
    }
  }

  lemma {:induction false} RunStays(c: Setting, states: seq<System>, actions: seq<Action>, i: nat)
    requires Ready(c) && IsRun(c, states, actions) && i < |states| && Patient(c, actions, i)
    ensures states[i].peer.state != Failed
  {
    hide Inv, PrefixStable, Enabled, Step;
    if i > 0 {
      RunStays(c, states, actions, i - 1);
      RunKeeps(c, states, actions, i - 1);
      assert StepAt(c, states, actions, i - 1);
      StepStays(c, states[i - 1], actions[i - 1]);
    }
  }

  lemma DeliversPart(c: Setting, s: System)
    requires Inv(c, s)
    ensures Deliveries(s.peer.events) <= s.sent
    ensures if s.peer.state == Failed then Exceeded(s.peer) else Live(s.peer)
    ensures s.peer.state != Failed && s.open && s.tcp.queue == [] && s.received == |s.tcp.written| ==>
              Deliveries(s.peer.events) == s.sent
  {
    var w := s.tcp.written[..s.received];
    assert w <= s.tcp.written;
    assert s.tcp.queue == [] ==> T.Accepted(s.tcp) == s.tcp.written;
    hide T.Consistent, T.Accepted, EncodeAll, MessagesOf, Encodable, Simple, PrefixStable, Read, Deliveries;
    ReadPart(c, s.frames, s.keys, w);
    assert s.received == |s.tcp.written| ==> w == s.tcp.written;
  }

  /**
   End-to-end delivery: in every run and at every moment, the messages the peer has delivered are a
   prefix of those sent, with the same types and octets; its connection is open unless more pings than
   allowed are unanswered; and when it is open, the queue is empty and everything written has arrived, they
   are all of them.
   */
  lemma EndToEnd(c: Setting, states: seq<System>, actions: seq<Action>, i: nat)
    requires Ready(c) && IsRun(c, states, actions) && i < |states|
    ensures var s := states[i];
            && Deliveries(s.peer.events) <= s.sent
            && (Patient(c, actions, i) ==> Live(s.peer))
            && (Live(s.peer) || (s.peer.state == Failed && Exceeded(s.peer)))
            && (Live(s.peer) && s.open && s.tcp.queue == [] && s.received == |s.tcp.written| ==>
                  Deliveries(s.peer.events) == s.sent)
  {
    hide Inv, PrefixStable, Enabled, Step, IsRun, Exceeded, Deliveries;
    RunKeeps(c, states, actions, i);
    DeliversPart(c, states[i]);
    if Patient(c, actions, i) {
      RunStays(c, states, actions, i);
    }
  }

  /**
   From every state of a run (RunKeeps) with a connection that has not failed, the whole rest can arrive: a
   flush into a willing socket and one chunk, and all messages are delivered.
   */
  lemma EverythingCanArrive(c: Setting, s: System)
    requires Inv(c, s) && s.open && s.peer.state != Failed
    ensures PrefixStable(c.parse) && Enabled(s, FlushQueue(T.Taking(s.tcp.queue)))
    ensures var flushed := Step(c, s, FlushQueue(T.Taking(s.tcp.queue)));
            var rest := |flushed.tcp.written| - flushed.received;
            && rest >= 0 && (rest > 0 ==> Enabled(flushed, Arrive(rest)))
            && var last := if rest == 0 then flushed else Step(c, flushed, Arrive(rest));
               Deliveries(last.peer.events) == last.sent == s.sent
  {
    hide *;
    FlushEmpties(c, s);
    var flushed := Step(c, s, FlushQueue(T.Taking(s.tcp.queue)));
    var rest := |flushed.tcp.written| - flushed.received;
    if rest == 0 {
      DeliversPart(c, flushed);
    } else {
      ArriveAll(c, flushed, rest);
      DeliversPart(c, Step(c, flushed, Arrive(rest)));
    }
  }

  lemma FlushEmpties(c: Setting, s: System)
    requires Inv(c, s) && s.open
    ensures PrefixStable(c.parse) && Enabled(s, FlushQueue(T.Taking(s.tcp.queue)))
    ensures var f := Step(c, s, FlushQueue(T.Taking(s.tcp.queue)));
            && Inv(c, f) && f.open && f.tcp.queue == [] && f.sent == s.sent && f.peer == s.peer
            && f.received <= |f.tcp.written|
  {
    InvParts(c, s);
    hide Inv, PrefixStable, T.Flush, T.Consistent;
    T.FlushCanEmpty(s.tcp);
    T.FlushConserves(s.tcp, T.Taking(s.tcp.queue));
    StepKeeps(c, s, FlushQueue(T.Taking(s.tcp.queue)));
    InvParts(c, Step(c, s, FlushQueue(T.Taking(s.tcp.queue))));
  }

  lemma InvParts(c: Setting, s: System)
    requires Inv(c, s)
    ensures PrefixStable(c.parse) && s.received <= |s.tcp.written| && (s.open ==> T.Consistent(s.tcp))
  {}

  lemma ArriveAll(c: Setting, s: System, rest: nat)
    requires Inv(c, s) && PrefixStable(c.parse) && rest > 0 && s.received + rest == |s.tcp.written|
    ensures Enabled(s, Arrive(rest))
    ensures var t := Step(c, s, Arrive(rest));
            && Inv(c, t) && t.open == s.open && t.tcp == s.tcp && t.sent == s.sent
            && (s.peer.state != Failed ==> t.peer.state != Failed)
            && t.received == |t.tcp.written|
  {
    hide Inv, PrefixStable, Incoming;
    ArriveKeeps(c, s, rest);
  }
}
