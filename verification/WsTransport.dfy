/**
 The WebSocket transport: an object that appends what it receives to a buffer, unmasks complete frames
 in place, reassembles messages, and hands frames to the lower layer. Each method is proved against
 the state machine of module WsReceiver.
 */
module WsTransport {
  import opened Bytes
  import opened WsFrames
  import opened WsReceiver

  /** The frames among the events, as sent: final, masked by clients. */
  function SentFrames(isClient: bool, events: seq<Event>): (frames: seq<Frame>)
  {
    if events == [] then []
    else
      var front, last := events[..|events| - 1], events[|events| - 1];
      SentFrames(isClient, front) +
      if last.FrameSent? then [Frame(last.opcode, true, isClient, last.payload)] else []
  }

  class Transport {
    const isClient: bool
    const maxOutstandingPings: int
    var state: State
    var buffer: seq<byte>
    var partial: seq<byte>
    var partialOpcode: byte
    var outstandingPings: int
    var closeSent: bool

    /** The messages given to the user, and the frames given to the lower layer. */
    var delivered: seq<Message>
    var outgoing: seq<seq<byte>>

    ghost var events: seq<Event>
    ghost var keys: seq<Key>

    ghost function View(): Peer
      reads this
    {
      Peer(isClient, maxOutstandingPings, state, buffer, partial, partialOpcode, outstandingPings, closeSent, events)
    }

    /** What was handed up and down is what the events say, each frame masked with a key of its own. */
    ghost predicate Valid()
      reads this
    {
      && |keys| == |outgoing| == |SentFrames(isClient, events)|
      && (forall i :: 0 <= i < |outgoing| ==> outgoing[i] == Encode(SentFrames(isClient, events)[i], keys[i]))
      && delivered == Deliveries(events)
    }

    /** The opcode of the unfinished message is not initialized by the program. */
    constructor (isClient: bool, maxOutstandingPings: int, anyOpcode: byte)
      ensures Valid() && View() == Peer(isClient, maxOutstandingPings, Connecting, [], [], anyOpcode, 0, false, [])
    {
      this.isClient, this.maxOutstandingPings := isClient, maxOutstandingPings;
      state, buffer, partial, partialOpcode := Connecting, [], [], anyOpcode;
      outstandingPings, closeSent := 0, false;
      delivered, outgoing := [], [];
      events, keys := [], [];
    }

    /** The lower layer answers whether all octets are on their way; a frame it has to queue is sent later. */
    method Send(message: Message, answer: bool) returns (sent: bool)
      requires Valid()
      modifies this
      ensures Valid() && sent == (old(state) == Connected && answer)
      ensures View() == if old(state) == Connected
                        then Emit(old(View()), FrameSent(OpcodeOf(message.messageType), message.data))
                        else old(View())
    {
      if state != Connected {
        return false;
      }
      var data := new byte[|message.data|](i requires 0 <= i < |message.data| => message.data[i]);
      assert data[..] == message.data;
      sent := SendFrame(OpcodeOf(message.messageType), data, answer);
    }

    /** The frame is built in a buffer of its own; the payload is masked where it is. */
    method SendFrame(opcode: byte, payload: array<byte>, answer: bool) returns (sent: bool)
      requires Valid()
      modifies this`outgoing, this`events, this`keys, payload
      ensures Valid() && sent == answer
      ensures events == old(events) + [FrameSent(opcode, old(payload[..]))]
    {
      hide Encode, SentFrames, Deliveries;
      var frame, key := WriteFrame(opcode, true, isClient, payload);
      EventSnoc(isClient, events, FrameSent(opcode, old(payload[..])));
      outgoing := outgoing + [frame];
      keys, events := keys + [key], events + [FrameSent(opcode, old(payload[..]))];
      return answer;
    }

    /** A message for the user. */
    method Deliver(message: Message)
      requires Valid()
      modifies this`delivered, this`events
      ensures Valid() && events == old(events) + [Delivered(message)]
    {
      delivered := delivered + [message];
      EventSnoc(isClient, events, Delivered(message));
      events := events + [Delivered(message)];
    }

    /** Something that is neither a message nor a frame. */
    ghost method Record(e: Event)
      requires Valid() && !e.Delivered? && !e.FrameSent?
      modifies this`events
      ensures Valid() && events == old(events) + [e]
    {
      EventSnoc(isClient, events, e);
      events := events + [e];
    }

    /** The state callback is called when the state changes. */
    method ChangeState(newState: State)
      requires Valid()
      modifies this`state, this`events
      ensures Valid() && View() == WsReceiver.ChangeState(old(View()), newState)
    {
      if state != newState {
        state := newState;
        Record(StateChanged(newState));
      }
    }

    method Close()
      requires Valid()
      modifies this
      ensures Valid() && View() == WsReceiver.Close(old(View()))
    {
      if state != Connected || closeSent {
        return;
      }
      closeSent := true;
      var empty := new byte[0];
      assert empty[..] == [];
      var answer: bool := *;
      var _ := SendFrame(CLOSE, empty, answer);
    }

    /** Reads the first frame of the buffer, unmasking its payload where it is; size 0 if it is incomplete. */
    method ReadFrame() returns (size: nat, frame: Frame)
      modifies this`buffer
      ensures size == 0 ==> Decode(old(buffer)) == Incomplete && buffer == old(buffer)
      ensures size > 0 ==>
                && Decode(old(buffer)) == Complete(frame, size)
                && |buffer| == |old(buffer)| && buffer[size..] == old(buffer)[size..]
                && |frame.payload| <= size && buffer[size - |frame.payload|..size] == frame.payload
    {
      frame := Frame(BINARY_FRAME, true, true, []);
      NoHeadIsIncomplete(buffer);
      hide ReadHead, Decode, Masked;
      var head, maskingKey := ReadHeader();
      if head == NoHead {
        return 0, frame;
      }
      DecodeAt(buffer, head);
      var cur, length := head.size, head.length;
      if |buffer| - cur < length {
        return 0, frame;
      }
      if head.mask {
        Unmask(cur, length, maskingKey);
      }
      frame := Frame(head.opcode, head.fin, head.mask, buffer[cur..cur + length]);
      size := cur + length;
      SuffixSlice(old(buffer), cur, size);
    }

    lemma NoHeadIsIncomplete(s: seq<byte>)
      ensures ReadHead(s) == NoHead ==> Decode(s) == Incomplete
    {}

    /** The header, and the masking key if there is one. */
    method ReadHeader() returns (head: Head, maskingKey: Key)
      ensures head == ReadHead(buffer)
      ensures head.Head? && head.mask ==> maskingKey == buffer[head.size - 4..head.size]
    {
      hide FromBigEndian;
      maskingKey := [0, 0, 0, 0];
      if |buffer| < 2 {
        return NoHead, maskingKey;
      }
      var b1, b2 := buffer[0], buffer[1];
      var cur := 2;
      var fin, mask := b1 / 128 == 1, b2 / 128 == 1;
      var length: nat := b2 % 128;
      if length == 0x7E {
        if |buffer| - cur < 2 {
          return NoHead, maskingKey;
        }
        length := U16(buffer, cur);
        cur := cur + 2;
      } else if length == 0x7F {
        if |buffer| - cur < 8 {
          return NoHead, maskingKey;
        }
        length := FromBigEndian(buffer[cur..cur + 8]);
        cur := cur + 8;
      }
      if mask {
        if |buffer| - cur < 4 {
          return NoHead, maskingKey;
        }
        maskingKey := buffer[cur..cur + 4];
        cur := cur + 4;
      }
      head := Head(b1 % 16, fin, mask, length, cur);
    }

    method RecvFrame(frame: Frame)
      requires Valid()
      modifies this
      ensures Valid() && View() == WsReceiver.RecvFrame(old(View()), frame)
    {
      hide Encode, SentFrames, Deliveries;
      if frame.opcode == TEXT_FRAME || frame.opcode == BINARY_FRAME {
        RecvFirst(frame);
      } else if frame.opcode == CONTINUATION {
        RecvContinuation(frame);
      } else if frame.opcode == PING {
        var payload := new byte[|frame.payload|](i requires 0 <= i < |frame.payload| => frame.payload[i]);
        assert payload[..] == frame.payload;
        var answer: bool := *;
        var _ := SendFrame(PONG, payload, answer);
      } else if frame.opcode == PONG {
        outstandingPings := 0;
      } else if frame.opcode == CLOSE {
        Close();
        ChangeState(Disconnected);
      } else {
        Close();
      }
    }

    method RecvFirst(frame: Frame)
      requires Valid()
      modifies this`delivered, this`events, this`partial, this`partialOpcode
      ensures Valid() && View() == WsReceiver.RecvFirst(old(View()), frame)
    {
      hide Encode, SentFrames, Deliveries;
      if partial != [] {
        Deliver(Message(TypeOf(partialOpcode), partial));
        partial := [];
      }
      partialOpcode := frame.opcode;
      if frame.fin {
        Deliver(Message(TypeOf(frame.opcode), frame.payload));
      } else {
        partial := partial + frame.payload;
      }
    }

    method RecvContinuation(frame: Frame)
      requires Valid()
      modifies this`delivered, this`events, this`partial
      ensures Valid() && View() == WsReceiver.RecvContinuation(old(View()), frame)
    {
      hide Encode, SentFrames, Deliveries;
      partial := partial + frame.payload;
      if frame.fin {
        Deliver(Message(TypeOf(partialOpcode), partial));
        partial := [];
      }
    }

    /** A chunk from the lower layer, or none when it is gone; the handshake parser is given. */
    method Incoming(message: Option<seq<byte>>, parse: Parser)
      requires Valid() && PrefixStable(parse)
      modifies this
      ensures Valid()
      ensures View() == match message
                        case Some(chunk) => WsReceiver.Incoming(old(View()), chunk, parse)
                        case None => Lost(old(View()))
    {
      hide Encode, SentFrames, Deliveries, PrefixStable, Drain, Opened, Idle;
      if state != Connecting && state != Connected {
        return;
      }
      match message
      case Some(chunk) => {
        buffer := buffer + chunk;
        Open(parse);
        if state == Connected {
          if |chunk| == 0 {
            Ping();
          } else {
            ReadFrames();
          }
        }
      }
      case None => {
        if state == Connected {
          ChangeState(Disconnected);
          Record(Ended);
        } else {
          ChangeState(Failed);
        }
      }
    }

    /** Looks for the end of the handshake text while connecting. */
    method Open(parse: Parser)
      requires Valid() && PrefixStable(parse)
      modifies this`state, this`events, this`buffer
      ensures Valid() && View() == Opened(old(View()), parse)
    {
      hide Encode, SentFrames, Deliveries, Valid, Emit, WsReceiver.ChangeState;
      if state == Connecting {
        match parse(buffer)
        case NeedMore => {}
        case Accepted(length) => Accept(length);
        case Rejected(code) => Reject(code);
      }
    }

    /** The handshake text is removed, and the server answers it. */
    method Accept(length: nat)
      requires Valid() && length <= |buffer|
      modifies this`state, this`events, this`buffer
      ensures Valid()
      ensures var p := old(View());
              View() == WsReceiver.ChangeState(if isClient then p else Emit(p, ResponseSent), Connected)
                        .(buffer := p.buffer[length..])
    {
      hide Encode, SentFrames, Deliveries;
      if !isClient {
        Record(ResponseSent);
      }
      ChangeState(Connected);
      buffer := buffer[length..];
    }

    /** An error is answered when it has a code. */
    method Reject(code: Option<int>)
      requires Valid()
      modifies this`state, this`events
      ensures Valid()
      ensures var p := old(View());
              View() == WsReceiver.ChangeState(if code.Some? then Emit(p, ErrorSent(code.value)) else p, Failed)
    {
      hide Encode, SentFrames, Deliveries;
      if code.Some? {
        Record(ErrorSent(code.value));
      }
      ChangeState(Failed);
    }

    /** TCP is idle. */
    method Ping()
      requires Valid()
      modifies this
      ensures Valid() && View() == Idle(old(View()))
    {
      hide Encode, SentFrames, Deliveries;
      var dummy := new byte[4](_ => 0);
      assert dummy[..] == [0, 0, 0, 0];
      var answer: bool := *;
      var _ := SendFrame(PING, dummy, answer);
      outstandingPings := outstandingPings + 1;
      if maxOutstandingPings > 0 && outstandingPings > maxOutstandingPings {
        ChangeState(Failed);
      }
    }

    /** Receives all complete frames of the buffer and erases them. */
    method ReadFrames()
      requires Valid()
      modifies this
      ensures Valid() && View() == Drain(old(View()))
    {
      hide Encode, SentFrames, Deliveries, WsReceiver.RecvFrame, Drain, Decode;
      ghost var end := Drain(View());
      while true
        invariant Valid() && Drain(View()) == end
        decreases |buffer|
      {
        DrainStep(View());
        ghost var p := View();
        var length, frame := ReadFrame();
        if length == 0 {
          break;
        }
        RecvFrameKeepsBuffer(p, frame, buffer);
        RecvFrame(frame);
        buffer := buffer[length..];
      }
    }

    /** Unmasks part of the buffer. */
    method Unmask(cur: nat, length: nat, maskingKey: Key)
      requires cur + length <= |buffer|
      modifies this`buffer
      ensures buffer == old(buffer)[..cur] + Masked(old(buffer)[cur..cur + length], maskingKey) + old(buffer)[cur + length..]
      ensures MaskedByBits(old(buffer)[cur..cur + length], maskingKey, buffer[cur..cur + length])
    {
      hide Xor, MaskedByBits;
      MaskedBits(buffer[cur..cur + length], maskingKey);
      var i := 0;
      while i < length
        invariant 0 <= i <= length && |buffer| == |old(buffer)|
        invariant forall k :: 0 <= k < |buffer| ==>
                    buffer[k] == if cur <= k < cur + i then Xor(old(buffer)[k], maskingKey[(k - cur) % 4]) else old(buffer)[k]
      {
        buffer := buffer[cur + i := Xor(buffer[cur + i], maskingKey[i % 4])];
        i := i + 1;
      }
      assert buffer[cur..cur + length] == Masked(old(buffer)[cur..cur + length], maskingKey);
    }
  }

  lemma SuffixSlice(s: seq<byte>, cur: nat, size: nat)
    requires cur <= size <= |s|
    ensures s[..cur] + s[cur..size] + s[size..] == s
  {}

  lemma EventSnoc(isClient: bool, events: seq<Event>, e: Event)
    ensures SentFrames(isClient, events + [e]) ==
            SentFrames(isClient, events) +
            if e.FrameSent? then [Frame(e.opcode, true, isClient, e.payload)] else []
    ensures Deliveries(events + [e]) == Deliveries(events) + if e.Delivered? then [e.message] else []
  {
    assert (events + [e])[..|events|] == events;
  }
}
