/**
 The examples of RFC 6455 section 5.7, octet by octet, and the octets of the frames a transport sends on its
 own: what the definitions of frames, opcodes and masking come to on the wire.
 */
module WsExamples {
  import opened Bytes
  import opened WsFrames
  import opened WsReceiver

  const HELLO: seq<byte> := [0x48, 0x65, 0x6c, 0x6c, 0x6f]

  const KEY: Key := [0x37, 0xfa, 0x21, 0x3d]

  /** Octets of a header with a short payload. */
  lemma ShortHeader(opcode: byte, fin: bool, mask: bool, length: nat)
    requires opcode < 16 && length < 126
    ensures Header(opcode, fin, mask, length) ==
            [opcode + if fin then 0x80 else 0, length + if mask then 0x80 else 0]
  {}

  /** A payload of 256 octets has a two-octet length, one of 65536 octets an eight-octet length. */
  lemma LongHeaders()
    ensures Header(2, true, false, 256) == [0x82, 0x7e, 0x01, 0x00]
    ensures Header(2, true, false, 65536) == [0x82, 0x7f, 0, 0, 0, 0, 0, 1, 0, 0]
    ensures Header(1, false, true, 126) == [0x01, 0xfe, 0x00, 0x7e]
  {
    EightOctets();
    hide ToBigEndian;
  }

  lemma EightOctets()
    ensures ToBigEndian(65536, 8) == [0, 0, 0, 0, 0, 1, 0, 0]
  {
    ZeroOctets(5);
    assert ToBigEndian(1, 6) == ToBigEndian(0, 5) + [1];
    assert ToBigEndian(256, 7) == ToBigEndian(1, 6) + [0];
  }

  lemma {:induction false} ZeroOctets(width: nat)
    ensures ToBigEndian(0, width) == seq(width, _ => 0)
  {
    if width > 0 { ZeroOctets(width - 1); }
  }

  lemma MaskedHelloOctets()
    ensures Masked(HELLO, KEY) == [0x7f, 0x9f, 0x4d, 0x51, 0x58]
  {
    var m := Masked(HELLO, KEY);
    MaskedH();
    MaskedE();
    MaskedFirstL();
    MaskedSecondL();
    MaskedO();
    hide Xor;
    assert m[0] == Xor(0x48, 0x37) && m[1] == Xor(0x65, 0xfa) && m[2] == Xor(0x6c, 0x21);
    assert m[3] == Xor(0x6c, 0x3d) && m[4] == Xor(0x6f, 0x37);
  }

  lemma XorStep(a: nat, b: nat, width: nat)
    requires width > 0
    ensures XorBits(a, b, width) == 2 * XorBits(a / 2, b / 2, width - 1) + if a % 2 == b % 2 then 0 else 1
    ensures XorBits(a, b, 0) == 0
  {}

  lemma MaskedH()
    ensures Xor(0x48, 0x37) == 0x7f
  {
    hide XorBits;
    XorStep(0x48, 0x37, 8);
    XorStep(0x24, 0x1b, 7);
    XorStep(0x12, 0x0d, 6);
    XorStep(0x09, 0x06, 5);
    XorStep(0x04, 0x03, 4);
    XorStep(0x02, 0x01, 3);
    XorStep(0x01, 0x00, 2);
    XorStep(0x00, 0x00, 1);
  }

  lemma MaskedE()
    ensures Xor(0x65, 0xfa) == 0x9f
  {
    hide XorBits;
    XorStep(0x65, 0xfa, 8);
    XorStep(0x32, 0x7d, 7);
    XorStep(0x19, 0x3e, 6);
    XorStep(0x0c, 0x1f, 5);
    XorStep(0x06, 0x0f, 4);
    XorStep(0x03, 0x07, 3);
    XorStep(0x01, 0x03, 2);
    XorStep(0x00, 0x01, 1);
  }

  lemma MaskedFirstL()
    ensures Xor(0x6c, 0x21) == 0x4d
  {
    hide XorBits;
    XorStep(0x6c, 0x21, 8);
    XorStep(0x36, 0x10, 7);
    XorStep(0x1b, 0x08, 6);
    XorStep(0x0d, 0x04, 5);
    XorStep(0x06, 0x02, 4);
    XorStep(0x03, 0x01, 3);
    XorStep(0x01, 0x00, 2);
    XorStep(0x00, 0x00, 1);
  }

  lemma MaskedSecondL()
    ensures Xor(0x6c, 0x3d) == 0x51
  {
    hide XorBits;
    XorStep(0x6c, 0x3d, 8);
    XorStep(0x36, 0x1e, 7);
    XorStep(0x1b, 0x0f, 6);
    XorStep(0x0d, 0x07, 5);
    XorStep(0x06, 0x03, 4);
    XorStep(0x03, 0x01, 3);
    XorStep(0x01, 0x00, 2);
    XorStep(0x00, 0x00, 1);
  }

  lemma MaskedO()
    ensures Xor(0x6f, 0x37) == 0x58
  {
    hide XorBits;
    XorStep(0x6f, 0x37, 8);
    XorStep(0x37, 0x1b, 7);
    XorStep(0x1b, 0x0d, 6);
    XorStep(0x0d, 0x06, 5);
    XorStep(0x06, 0x03, 4);
    XorStep(0x03, 0x01, 3);
    XorStep(0x01, 0x00, 2);
    XorStep(0x00, 0x00, 1);
  }

  // ----- Frames on the wire -----

  /** A text, a masked text, a ping and its masked pong. */
  lemma FrameOctets(anyKey: Key)
    ensures Encode(Frame(1, true, false, HELLO), anyKey) == [0x81, 0x05, 0x48, 0x65, 0x6c, 0x6c, 0x6f]
    ensures Encode(Frame(1, true, true, HELLO), KEY) ==
            [0x81, 0x85, 0x37, 0xfa, 0x21, 0x3d, 0x7f, 0x9f, 0x4d, 0x51, 0x58]
    ensures Encode(Frame(9, true, false, HELLO), anyKey) == [0x89, 0x05, 0x48, 0x65, 0x6c, 0x6c, 0x6f]
    ensures Encode(Frame(10, true, true, HELLO), KEY) ==
            [0x8a, 0x85, 0x37, 0xfa, 0x21, 0x3d, 0x7f, 0x9f, 0x4d, 0x51, 0x58]
  {
    ShortHeader(1, true, false, 5);
    ShortHeader(1, true, true, 5);
    ShortHeader(9, true, false, 5);
    ShortHeader(10, true, true, 5);
    MaskedHelloOctets();
    hide Header, Masked;
  }

  /** A masked text is read as what the example says, and unmasked. */
  lemma MaskedTextRead()
    ensures Decode([0x81, 0x85, 0x37, 0xfa, 0x21, 0x3d, 0x7f, 0x9f, 0x4d, 0x51, 0x58]) ==
            Complete(Frame(1, true, true, HELLO), 11)
  {
    FrameOctets(KEY);
    hide Decode, Encode;
    var s := Encode(Frame(1, true, true, HELLO), KEY);
    DecodeOfEncode(Frame(1, true, true, HELLO), KEY, []);
    assert s + [] == s;
  }

  /** What each opcode of section 11.8 does to an open connection without an unfinished message. */
  lemma OpcodesMean(p: Peer, frame: Frame)
    requires p.state == Connected && p.partial == [] && frame.fin
    ensures frame.opcode == 1 ==> RecvFrame(p, frame).events == p.events + [Delivered(Message(Text, frame.payload))]
    ensures frame.opcode == 2 ==> RecvFrame(p, frame).events == p.events + [Delivered(Message(Binary, frame.payload))]
    ensures frame.opcode == 9 ==> RecvFrame(p, frame) == p.(events := p.events + [FrameSent(10, frame.payload)])
    ensures frame.opcode == 10 ==> RecvFrame(p, frame) == p.(outstandingPings := 0)
    ensures frame.opcode == 8 ==>
              RecvFrame(p, frame).events ==
              p.events + (if p.closeSent then [] else [FrameSent(8, [])]) + [StateChanged(Disconnected)]
    ensures OpcodeOf(Text) == 1 && OpcodeOf(Binary) == 2
  {
    assert p.events + [] == p.events;
  }

  /** A new message delivers an unfinished one, with its own type, and an unknown opcode is answered with a CLOSE. */
  lemma OtherFrames(p: Peer, frame: Frame)
    requires p.state == Connected
    ensures frame.opcode == 1 && p.partial != [] && frame.fin ==>
              RecvFrame(p, frame).events ==
              p.events + [Delivered(Message(if p.partialOpcode == 1 then Text else Binary, p.partial))] +
              [Delivered(Message(Text, frame.payload))]
    ensures (frame.opcode == 1 || frame.opcode == 2) && p.partial == [] && !frame.fin ==>
              RecvFrame(p, frame) == p.(partial := frame.payload, partialOpcode := frame.opcode)
    ensures frame.opcode == 0 ==>
              RecvFrame(p, frame) ==
              (if frame.fin
               then p.(partial := [], events := p.events + [Delivered(Message(if p.partialOpcode == 1 then Text else Binary,
                                                                              p.partial + frame.payload))])
               else p.(partial := p.partial + frame.payload))
    ensures 3 <= frame.opcode <= 7 || frame.opcode > 10 ==> RecvFrame(p, frame) == Close(p)
  {
    assert [] + frame.payload == frame.payload;
  }

  /** The frames a transport sends on its own: a ping with four zeros, and one empty CLOSE frame. */
  lemma OwnFrames(p: Peer)
    requires p.state == Connected
    ensures p.events + [FrameSent(9, [0, 0, 0, 0])] <= Idle(p).events
    ensures Idle(p).outstandingPings == p.outstandingPings + 1
    ensures Idle(p).state == if 0 < p.maxOutstandingPings < p.outstandingPings + 1 then Failed else Connected
    ensures Close(p).events == p.events + (if p.closeSent then [] else [FrameSent(8, [])])
    ensures Close(p).closeSent && Close(Close(p)) == Close(p) && Close(p).state == Connected
  {
    assert p.events + [] == p.events;
  }

  // ----- Keeping a connection alive -----

  /** What an open connection gets: an idle signal, or a frame under some key. */
  datatype Input = Quiet | Got(frame: Frame, key: Key)

  /** A frame that can be sent, and does not close the connection. */
  predicate Sendable(input: Input)
  {
    input.Quiet? || (input.frame.opcode < 16 && input.frame.opcode != 8 && |input.frame.payload| < TWO_TO_THE_64)
  }

  predicate AllSendable(inputs: seq<Input>)
  {
    forall i :: 0 <= i < |inputs| ==> Sendable(inputs[i])
  }

  function Fed(p: Peer, inputs: seq<Input>, parse: Parser): Peer
    requires PrefixStable(parse)
  {
    if inputs == [] then p
    else
      var q := Fed(p, inputs[..|inputs| - 1], parse);
      match inputs[|inputs| - 1]
      case Quiet => Incoming(q, [], parse)
      case Got(frame, key) => Incoming(q, Encode(frame, key), parse)
  }

  /** The idle signals since the last PONG frame. */
  function Unanswered(inputs: seq<Input>): (pings: nat)
  {
    if inputs == [] then 0
    else
      var before := Unanswered(inputs[..|inputs| - 1]);
      match inputs[|inputs| - 1]
      case Quiet => before + 1
      case Got(frame, _) => if frame.opcode == 10 then 0 else before
  }

  /** At some moment more idle signals than the maximum had come since the last PONG frame. */
  predicate TooMany(inputs: seq<Input>, maximum: int)
  {
    exists n :: 0 <= n <= |inputs| && Unanswered(inputs[..n]) > maximum > 0
  }

  lemma TooManySnoc(front: seq<Input>, last: Input, maximum: int)
    ensures TooMany(front + [last], maximum) <==>
            TooMany(front, maximum) || Unanswered(front + [last]) > maximum > 0
  {
    var all := front + [last];
    assert all[..|all|] == all;
    assert forall n :: 0 <= n <= |front| ==> all[..n] == front[..n];
    hide Unanswered;
    if TooMany(front, maximum) {
      var n :| 0 <= n <= |front| && Unanswered(front[..n]) > maximum > 0;
      assert Unanswered(all[..n]) > maximum;
    }
  }

  lemma TooManyNow(inputs: seq<Input>, maximum: int)
    ensures Unanswered(inputs) > maximum > 0 ==> TooMany(inputs, maximum)
  {
    assert inputs[..|inputs|] == inputs;
  }

  lemma UnansweredSnoc(front: seq<Input>, last: Input)
    ensures Unanswered(front + [last]) ==
            match last
            case Quiet => Unanswered(front) + 1
            case Got(frame, _) => if frame.opcode == 10 then 0 else Unanswered(front)
  {
    assert (front + [last])[..|front|] == front;
  }

  /** The connection at some moment: open with its pings counted, or failed since too many were unanswered. */
  predicate Kept(p: Peer, inputs: seq<Input>, q: Peer)
  {
    && q.maxOutstandingPings == p.maxOutstandingPings
    && if TooMany(inputs, p.maxOutstandingPings) then q.state == Failed
       else q.state == Connected && q.buffer == [] && q.outstandingPings == Unanswered(inputs)
  }

  lemma FrameKeeps(p: Peer, frame: Frame)
    requires p.state == Connected && frame.opcode != 8
    ensures var q := RecvFrame(p, frame);
            && q.state == Connected && q.maxOutstandingPings == p.maxOutstandingPings
            && q.outstandingPings == if frame.opcode == 10 then 0 else p.outstandingPings
  {}

  lemma OneFrame(p: Peer, frame: Frame, key: Key, parse: Parser)
    requires PrefixStable(parse) && p.state == Connected && p.buffer == [] && Sendable(Got(frame, key))
    ensures var q := Incoming(p, Encode(frame, key), parse);
            && q.state == Connected && q.buffer == [] && q.maxOutstandingPings == p.maxOutstandingPings
            && q.outstandingPings == if frame.opcode == 10 then 0 else p.outstandingPings
  {
    var s := Encode(frame, key);
    assert s + [] == s && [] + s == s;
    hide Decode, Drain, Encode, Incoming, RecvFrame;
    DecodeOfEncode(frame, key, []);
    IncomingConnected(p, s, parse);
    DrainOne(Buffered(p, s), frame, |s|);
    FrameKeeps(Buffered(p, s), frame);
  }

  lemma IdleSignal(p: Peer, parse: Parser)
    requires PrefixStable(parse) && p.state == Connected && p.buffer == []
    ensures var q := Incoming(p, [], parse);
            && q.maxOutstandingPings == p.maxOutstandingPings && q.buffer == []
            && q.outstandingPings == p.outstandingPings + 1
            && q.state == if 0 < p.maxOutstandingPings < p.outstandingPings + 1 then Failed else Connected
  {
    assert Buffered(p, []) == p;
  }

  lemma FedSnoc(p: Peer, front: seq<Input>, last: Input, parse: Parser)
    requires PrefixStable(parse)
    ensures var q := Fed(p, front, parse);
            Fed(p, front + [last], parse) ==
            match last
            case Quiet => Incoming(q, [], parse)
            case Got(frame, key) => Incoming(q, Encode(frame, key), parse)
  {
    assert (front + [last])[..|front|] == front;
    hide Incoming, Encode;
  }

  lemma InputKeeps(p: Peer, front: seq<Input>, last: Input, q: Peer, parse: Parser)
    requires PrefixStable(parse) && Sendable(last) && Kept(p, front, q)
    ensures Kept(p, front + [last], match last
                                    case Quiet => Incoming(q, [], parse)
                                    case Got(frame, key) => Incoming(q, Encode(frame, key), parse))
  {
    TooManySnoc(front, last, p.maxOutstandingPings);
    UnansweredSnoc(front, last);
    TooManyNow(front, p.maxOutstandingPings);
    hide Incoming, Encode, TooMany, Unanswered, Sendable, PrefixStable;
    if q.state == Failed {
      DeadStaysDead(q, if last.Quiet? then [] else Encode(last.frame, last.key), parse);
    } else if last.Quiet? {
      IdleSignal(q, parse);
    } else {
      OneFrame(q, last.frame, last.key, parse);
    }
  }

  lemma {:induction false} FedKeeps(p: Peer, inputs: seq<Input>, parse: Parser)
    requires PrefixStable(parse) && AllSendable(inputs)
    requires p.state == Connected && p.buffer == [] && p.outstandingPings == 0
    ensures Kept(p, inputs, Fed(p, inputs, parse))
  {
    if inputs != [] {
      var front, last := inputs[..|inputs| - 1], inputs[|inputs| - 1];
      SplitLast(inputs);
      hide Kept, Fed, Incoming, Encode, PrefixStable;
      FedKeeps(p, front, parse);
      InputKeeps(p, front, last, Fed(p, front, parse), parse);
      FedSnoc(p, front, last, parse);
    }
  }

  /**
   An open connection without a CLOSE frame fails exactly when, at some moment, more idle signals than the
   maximum had come since the last PONG frame; in particular, it never fails when every ping is answered
   before the next idle signal.
   */
  lemma FailsExactly(p: Peer, inputs: seq<Input>, parse: Parser)
    requires PrefixStable(parse) && AllSendable(inputs)
    requires p.state == Connected && p.buffer == [] && p.outstandingPings == 0
    ensures Fed(p, inputs, parse).state == Failed <==> TooMany(inputs, p.maxOutstandingPings)
  {
    FedKeeps(p, inputs, parse);
    hide TooMany, Fed;
  }

  // ----- The loss of a connection -----

  function EndCount(events: seq<Event>): nat
  {
    if events == [] then 0 else EndCount(events[..|events| - 1]) + if events[|events| - 1].Ended? then 1 else 0
  }

  lemma EndCountSnoc(events: seq<Event>, e: Event)
    ensures EndCount(events + [e]) == EndCount(events) + if e.Ended? then 1 else 0
  {
    assert (events + [e])[..|events|] == events;
  }

  /**
   The user of an open connection that is lost is told once, behind the change of its state; one that was
   never open only fails; and nothing is told about one that is over.
   */
  lemma LostOnce(p: Peer)
    ensures var q := Lost(p);
            && EndCount(q.events) == EndCount(p.events) + (if p.state == Connected then 1 else 0)
            && (p.state == Connected ==>
                  q.state == Disconnected && q.events == p.events + [StateChanged(Disconnected), Ended])
            && (p.state == Connecting ==> q.state == Failed && q.events == p.events + [StateChanged(Failed)])
            && (!Live(p) ==> q == p) && Lost(q) == q
  {
    EndCountSnoc(p.events, StateChanged(Disconnected));
    EndCountSnoc(p.events + [StateChanged(Disconnected)], Ended);
    EndCountSnoc(p.events, StateChanged(Failed));
    hide EndCount;
    assert p.events + [StateChanged(Disconnected)] + [Ended] == p.events + [StateChanged(Disconnected), Ended];
  }
}
