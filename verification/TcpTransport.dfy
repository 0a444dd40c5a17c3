/**
 The TCP transport's send queue. The socket takes as much as it likes of what it is given, would block,
 or breaks; its answers are a parameter of every operation.
 */
module TcpTransport {
  import opened Bytes
  import opened Queue

  /** The answer of one call of ::send. */
  datatype Answer = Wrote(n: nat) | WouldBlock | Fatal

  datatype Status = Done | Blocked | Broken

  /** What sending some octets comes to: how many were written, how it ended, and the answers left. */
  datatype Outcome = Outcome(written: nat, status: Status, answers: seq<Answer>)

  /** Sends until everything is written or the socket does not take more; without answers it would block. */
  function Attempt(data: seq<byte>, answers: seq<Answer>): (o: Outcome)
    ensures o.written <= |data| && (o.status == Done <==> o.written == |data|)
    decreases |answers|
  {
    if data == [] then Outcome(0, Done, answers)
    else if answers == [] then Outcome(0, Blocked, [])
    else
      match answers[0]
      case WouldBlock => Outcome(0, Blocked, answers[1..])
      case Fatal => Outcome(0, Broken, answers[1..])
      case Wrote(n) =>
        var k := if n < |data| then n else |data|;
        var o := Attempt(data[k..], answers[1..]);
        o.(written := k + o.written)
  }

  /** One answer of the socket. */
  lemma AttemptStep(data: seq<byte>, answers: seq<Answer>)
    ensures Attempt(data, answers) ==
            if data == [] then Outcome(0, Done, answers)
            else if answers == [] then Outcome(0, Blocked, [])
            else
              match answers[0]
              case WouldBlock => Outcome(0, Blocked, answers[1..])
              case Fatal => Outcome(0, Broken, answers[1..])
              case Wrote(n) =>
                var k := if n < |data| then n else |data|;
                var o := Attempt(data[k..], answers[1..]);
                o.(written := k + o.written)
  {}

  /** The queue of messages, the octets the socket took, and the amount reported to the user. */
  datatype Sender = Sender(queue: seq<seq<byte>>, written: seq<byte>, amount: int)

  datatype Result = Result(sender: Sender, status: Status, answers: seq<Answer>)

  function Clamp(amount: int): int
  {
    if amount < 0 then 0 else amount
  }

  /** Sends the queued messages in order; a message that is cut short is replaced by its rest. */
  function Flush(s: Sender, answers: seq<Answer>): (r: Result)
    decreases |s.queue|
  {
    if s.queue == [] then Result(s, Done, answers)
    else
      var first := s.queue[0];
      var o := Attempt(first, answers);
      var written := s.written + first[..o.written];
      match o.status
      case Done => Flush(Sender(s.queue[1..], written, Clamp(s.amount - |first|)), o.answers)
      case Blocked =>
        var rest := first[o.written..];
        Result(Sender([rest] + s.queue[1..], written, Clamp(s.amount - |first| + |rest|)), Blocked, o.answers)
      case Broken => Result(s.(written := written), Broken, o.answers)
  }

  function Enqueue(s: Sender, message: seq<byte>): Sender
  {
    Sender(s.queue + [message], s.written, Clamp(s.amount + |message|))
  }

  /** Flushes the queue and then sends the message directly, or queues what is left of it. */
  function SentDirectly(s: Sender, message: seq<byte>, answers: seq<Answer>): (r: Result)
  {
    var f := Flush(s, answers);
    match f.status
    case Broken => f
    case Blocked => f.(sender := Enqueue(f.sender, message))
    case Done =>
      var o := Attempt(message, f.answers);
      var t := f.sender.(written := f.sender.written + message[..o.written]);
      match o.status
      case Done => Result(t, Done, o.answers)
      case Blocked => Result(Enqueue(t, message[o.written..]), Blocked, o.answers)
      case Broken => Result(t, Broken, o.answers)
  }

  /** An empty message only flushes. */
  function Sent(s: Sender, message: seq<byte>, answers: seq<Answer>): (r: Result)
  {
    if message == [] then Flush(s, answers) else SentDirectly(s, message, answers)
  }

  /** Behind an empty queue, a socket that takes the whole message gets it at once, and the send succeeds. */
  lemma WrittenAtOnce(s: Sender, message: seq<byte>, n: nat, rest: seq<Answer>)
    requires s.queue == [] && message != [] && n >= |message|
    ensures Sent(s, message, [Wrote(n)] + rest) == Result(s.(written := s.written + message), Done, rest)
  {
    var answers := [Wrote(n)] + rest;
    assert answers[1..] == rest && message[|message|..] == [] && message[..|message|] == message;
    assert Attempt([], rest) == Outcome(0, Done, rest);
    assert Attempt(message, answers) == Outcome(|message|, Done, rest);
  }

  /** One that takes a part, and then would block, leaves the rest in the queue, and the send fails. */
  lemma WrittenInPart(s: Sender, message: seq<byte>, n: nat, rest: seq<Answer>)
    requires s.queue == [] && s.amount == 0 && 0 < n < |message|
    ensures Sent(s, message, [Wrote(n), WouldBlock] + rest) ==
            Result(Sender([message[n..]], s.written + message[..n], |message| - n), Blocked, rest)
  {
    var answers := [Wrote(n), WouldBlock] + rest;
    assert answers[1..] == [WouldBlock] + rest && ([WouldBlock] + rest)[1..] == rest;
    assert Attempt(message[n..], [WouldBlock] + rest) == Outcome(0, Blocked, rest);
    assert Attempt(message, answers) == Outcome(n, Blocked, rest);
  }

  // ----- Conservation -----

  /** No queued message is empty, and the amount is the number of queued octets. */
  predicate Consistent(s: Sender)
  {
    && (forall i :: 0 <= i < |s.queue| ==> s.queue[i] != [])
    && s.amount == |Flatten(s.queue)|
  }

  /** What was accepted: the octets written and then those queued. */
  function Accepted(s: Sender): seq<byte>
  {
    s.written + Flatten(s.queue)
  }

  lemma {:induction false} FlushConserves(s: Sender, answers: seq<Answer>)
    requires Consistent(s)
    ensures var r := Flush(s, answers);
            && s.written <= r.sender.written <= Accepted(s)
            && (r.status == Done <==> r.sender.queue == [])
            && (r.status != Broken ==> Consistent(r.sender) && Accepted(r.sender) == Accepted(s))
    decreases |s.queue|
  {
    if s.queue != [] {
      var first, tail := s.queue[0], s.queue[1..];
      var o := Attempt(first, answers);
      hide Attempt;
      SplitFirst(s.queue);
      CutFirst(s.written, first, o.written, tail);
      if o.status == Done {
        FlushConserves(Sender(tail, s.written + first[..o.written], Clamp(s.amount - |first|)), o.answers);
      }
    }
  }

  lemma CutFirst(written: seq<byte>, first: seq<byte>, n: nat, tail: seq<seq<byte>>)
    requires n <= |first|
    ensures Flatten([first] + tail) == first + Flatten(tail)
    ensures Flatten([first[n..]] + tail) == first[n..] + Flatten(tail)
    ensures written + Flatten([first] + tail) == (written + first[..n]) + Flatten([first[n..]] + tail)
    ensures n == |first| ==> Flatten([first[n..]] + tail) == Flatten(tail)
  {
    assert ([first] + tail)[1..] == tail && ([first[n..]] + tail)[1..] == tail;
    assert first == first[..n] + first[n..];
  }

  lemma FlattenKeepsConsistent(s: Sender, message: seq<byte>)
    requires Consistent(s) && message != []
    ensures Consistent(Enqueue(s, message))
    ensures Accepted(Enqueue(s, message)) == Accepted(s) + message
  {
    FlattenSnoc(s.queue, message);
    ConcatAssociative(s.written, Flatten(s.queue), message);
  }

  /**
   However the socket cuts the octets: what was written and then what is queued is what was accepted, in
   order; the amount is the number of queued octets; and a send succeeds exactly when nothing is queued.
   Even when the socket breaks, nothing else was written than the start of what was accepted.
   */
  lemma SendConserves(s: Sender, message: seq<byte>, answers: seq<Answer>)
    requires Consistent(s)
    ensures var r := Sent(s, message, answers);
            && s.written <= r.sender.written <= Accepted(s) + message
            && (r.status != Broken ==>
                  && Consistent(r.sender)
                  && Accepted(r.sender) == Accepted(s) + message
                  && (r.status == Done <==> r.sender.queue == []))
  {
    FlushConserves(s, answers);
    hide Flush, Attempt, Enqueue, Consistent;
    var f := Flush(s, answers);
    assert Accepted(s) + [] == Accepted(s);
    if message != [] && f.status == Blocked {
      FlattenKeepsConsistent(f.sender, message);
      assert Enqueue(f.sender, message).queue != [] && Enqueue(f.sender, message).written == f.sender.written by {
        EnqueueQueues(f.sender, message);
      }
    } else if message != [] && f.status == Done {
      DirectSend(f.sender, message, f.answers);
    }
  }

  /** Answers of a socket that takes every queued message at once. */
  function Taking(queue: seq<seq<byte>>): (answers: seq<Answer>)
    ensures |answers| == |queue|
  {
    if queue == [] then [] else [Wrote(|queue[0]|)] + Taking(queue[1..])
  }

  /** Then flushing empties the queue. */
  lemma {:induction false} FlushCanEmpty(s: Sender)
    requires Consistent(s)
    ensures Flush(s, Taking(s.queue)).status == Done
    decreases |s.queue|
  {
    if s.queue != [] {
      var first, tail := s.queue[0], s.queue[1..];
      var answers := Taking(s.queue);
      assert answers[0] == Wrote(|first|) && answers[1..] == Taking(tail);
      assert first[|first|..] == [];
      assert Attempt(first, answers) == Outcome(|first|, Done, Taking(tail));
      hide Attempt;
      SplitFirst(s.queue);
      CutFirst(s.written, first, |first|, tail);
      FlushCanEmpty(Sender(tail, s.written + first[..|first|], Clamp(s.amount - |first|)));
    }
  }

  lemma EnqueueQueues(s: Sender, message: seq<byte>)
    ensures Enqueue(s, message).queue != [] && Enqueue(s, message).written == s.written
  {}

  lemma DirectSend(s: Sender, message: seq<byte>, answers: seq<Answer>)
    requires Consistent(s) && s.queue == [] && message != []
    ensures var o := Attempt(message, answers);
            var t := s.(written := s.written + message[..o.written]);
            && s.written <= t.written <= Accepted(s) + message
            && (o.status == Done ==> Consistent(t) && Accepted(t) == Accepted(s) + message)
            && (o.status == Blocked ==>
                  var e := Enqueue(t, message[o.written..]);
                  Consistent(e) && Accepted(e) == Accepted(s) + message && e.queue != [] && e.written == t.written)
  {
    var o := Attempt(message, answers);
    hide Attempt;
    var t := s.(written := s.written + message[..o.written]);
    assert message[..o.written] + message[o.written..] == message;
    if o.status == Blocked {
      FlattenKeepsConsistent(t, message[o.written..]);
    }
  }

  // ----- The transport -----

  /** A non-blocking socket with the answers it is going to give. */
  class Socket {
    var answers: seq<Answer>
    var written: seq<byte>

    /** The number of octets taken, or -1 with an error that may be temporary. */
    method Send(data: seq<byte>) returns (len: int, temporary: bool)
      requires data != []
      modifies this
      ensures answers == if old(answers) == [] then [] else old(answers)[1..]
      ensures match if old(answers) == [] then WouldBlock else old(answers)[0]
              case WouldBlock => len == -1 && temporary && written == old(written)
              case Fatal => len == -1 && !temporary && written == old(written)
              case Wrote(n) => len == (if n < |data| then n else |data|) && written == old(written) + data[..len]
    {
      var answer := if answers == [] then WouldBlock else answers[0];
      answers := if answers == [] then [] else answers[1..];
      match answer
      case WouldBlock => return -1, true;
      case Fatal => return -1, false;
      case Wrote(n) =>
        len := if n < |data| then n else |data|;
        written := written + data[..len];
        return len, false;
    }
  }

  class TcpTransport {
    const sendQueue: Queue<seq<byte>>
    const socket: Socket
    var connected: bool
    var bufferedAmount: int
    var reported: seq<int>

    ghost function View(): Sender
      reads this, sendQueue, socket
    {
      Sender(sendQueue.elements, socket.written, bufferedAmount)
    }

    /** The queue is unbounded and counts elements. */
    ghost predicate Valid()
      reads this, sendQueue
    {
      && sendQueue.limit == 0 && !sendQueue.stopping && sendQueue.Counted()
      && (forall m: seq<byte> :: sendQueue.amountOf(m) == 1)
      && bufferedAmount >= 0
    }

    constructor (socket: Socket)
      ensures Valid() && fresh(sendQueue) && this.socket == socket
      ensures View() == Sender([], socket.written, 0)
    {
      this.socket := socket;
      sendQueue := new Queue<seq<byte>>(0, m => 1);
      connected, bufferedAmount, reported := true, 0, [];
    }

    /** Reports every change of the amount. */
    method UpdateBufferedAmount(delta: int)
      requires bufferedAmount >= 0
      modifies this`bufferedAmount, this`reported
      ensures bufferedAmount == Clamp(old(bufferedAmount) + delta)
      ensures reported == if delta == 0 then old(reported) else old(reported) + [bufferedAmount]
    {
      if delta == 0 {
        return;
      }
      bufferedAmount := if bufferedAmount + delta < 0 then 0 else bufferedAmount + delta;
      reported := reported + [bufferedAmount];
    }

    /** When the socket would block, `rest` is what it did not take. */
    method TrySendMessage(message: seq<byte>) returns (status: Status, rest: seq<byte>)
      modifies socket
      ensures var o := Attempt(message, old(socket.answers));
              && status == o.status && socket.answers == o.answers
              && socket.written == old(socket.written) + message[..o.written]
              && (status == Blocked ==> rest == message[o.written..])
    {
      hide Attempt;
      rest := message;
      ghost var sent := 0;
      while |rest| > 0
        invariant 0 <= sent <= |message| && rest == message[sent..]
        invariant socket.written == old(socket.written) + message[..sent]
        invariant var o := Attempt(message, old(socket.answers));
                  o == Attempt(rest, socket.answers).(written := sent + Attempt(rest, socket.answers).written)
        decreases |socket.answers|, |rest|
      {
        AttemptStep(rest, socket.answers);
        var len, temporary := socket.Send(rest);
        if len < 0 {
          status := if temporary then Blocked else Broken;
          return;
        }
        assert rest[len..] == message[sent + len..];
        rest, sent := rest[len..], sent + len;
      }
      AttemptStep(rest, socket.answers);
      status := Done;
    }

    /** Sends queued messages until the queue is empty or the socket does not take more. */
    method TrySendQueue() returns (status: Status)
      requires Valid()
      modifies this`bufferedAmount, this`reported, sendQueue, socket
      ensures Valid()
      ensures var r := Flush(old(View()), old(socket.answers));
              View() == r.sender && status == r.status && socket.answers == r.answers
    {
      hide Attempt;
      while true
        invariant Valid()
        invariant Flush(View(), socket.answers) == Flush(old(View()), old(socket.answers))
        decreases |sendQueue.elements|
      {
        var next := sendQueue.Peek();
        if next == None {
          return Done;
        }
        var message := next.value;
        var size := |message|;
        var rest;
        status, rest := TrySendMessage(message);
        if status == Broken {
          return;
        }
        if status == Blocked {
          var _ := sendQueue.Exchange(rest);
          UpdateBufferedAmount(-size + |rest|);
          return;
        }
        var _ := sendQueue.Pop();
        UpdateBufferedAmount(-size);
      }
    }

    method Outgoing(message: seq<byte>) returns (status: Status)
      requires Valid()
      modifies this`bufferedAmount, this`reported, sendQueue, socket
      ensures Valid()
      ensures var r := SentDirectly(old(View()), message, old(socket.answers));
              View() == r.sender && status == r.status && socket.answers == r.answers
    {
      hide Attempt, Flush;
      var left := message;
      status := TrySendQueue();
      if status == Done {
        status, left := TrySendMessage(message);
        if status == Done {
          return;
        }
      }
      if status == Broken {
        return;
      }
      sendQueue.Push(left);
      UpdateBufferedAmount(|left|);
    }

    /** None when the connection is not open; a message without octets only flushes. */
    method Send(message: seq<byte>) returns (status: Option<Status>)
      requires Valid()
      modifies this`bufferedAmount, this`reported, sendQueue, socket
      ensures Valid()
      ensures !connected ==> status == None && View() == old(View()) && socket.answers == old(socket.answers)
      ensures connected ==>
                var r := Sent(old(View()), message, old(socket.answers));
                View() == r.sender && status == Some(r.status) && socket.answers == r.answers
    {
      if !connected {
        return None;
      }
      var s;
      if |message| == 0 {
        s := TrySendQueue();
      } else {
        s := Outgoing(message);
      }
      status := Some(s);
    }
  }
}
