/**
 The send queue of the SCTP transport: messages and stream resets are handed to the SCTP stack in order
 or queued while it does not take them, and the buffered amount of each stream is kept in a map. What
 the stack answers is a parameter of every operation.
 */
module SctpTransport {
  import opened Bytes
  import Q = Queue

  datatype Kind = Binary | Text | Control | Reset

  datatype Message = Message(kind: Kind, stream: int, data: seq<byte>)

  /** The answer of the SCTP stack to one message. */
  datatype Answer = Taken | WouldBlock | Fatal

  /** A message that was offered to the stack, and the answer; a reset is always taken. */
  datatype Offer = Offer(message: Message, answer: Answer)

  datatype Status = Done | Blocked | Broken

  /** The messages that the stack has taken, in order. */
  function Handed(log: seq<Offer>): (messages: seq<Message>)
  {
    if log == [] then []
    else Handed(log[..|log| - 1]) + if log[|log| - 1].answer == Taken then [log[|log| - 1].message] else []
  }

  /** Only user messages count as buffered. */
  function Size(m: Message): (size: int)
    ensures 0 <= size
  {
    if m.kind == Binary || m.kind == Text then |m.data| else 0
  }

  /**
   `log`, `accepted` and `dropped` are the history: what the stack was offered and answered, what the transport
   accepted, and what a stopped queue dropped. `clamped` tells whether the clamp at zero ever changed an amount.
   */
  datatype Sender = Sender(
    connected: bool,
    queue: seq<Message>,
    stopping: bool,
    shutdown: bool,
    amounts: map<int, int>,
    reported: seq<(int, int)>,
    log: seq<Offer>,
    accepted: seq<Message>,
    dropped: seq<Message>,
    clamped: bool)

  datatype Result = Result(sender: Sender, status: Status, answers: seq<Answer>)

  function Amount(amounts: map<int, int>, stream: int): int
  {
    if stream in amounts then amounts[stream] else 0
  }

  function Max(a: int, b: int): int
  {
    if a > b then a else b
  }

  /** An amount of zero is not in the map; every change is reported. */
  function Update(s: Sender, stream: int, delta: int): Sender
  {
    if delta == 0 then s
    else
      var amount := Max(Amount(s.amounts, stream) + delta, 0);
      s.(amounts := if amount == 0 then s.amounts - {stream} else s.amounts[stream := amount],
         reported := s.reported + [(stream, amount)],
         clamped := s.clamped || Amount(s.amounts, stream) + delta < 0)
  }

  /** A reset is always taken; without answers the stack would block. */
  function Attempt(s: Sender, m: Message, answers: seq<Answer>): (status: Status)
  {
    if !s.connected then Blocked
    else if m.kind == Reset then Done
    else if answers == [] then Blocked
    else
      match answers[0]
      case Taken => Done
      case WouldBlock => Blocked
      case Fatal => Broken
  }

  function AnswersLeft(s: Sender, m: Message, answers: seq<Answer>): seq<Answer>
  {
    if !s.connected || m.kind == Reset || answers == [] then answers else answers[1..]
  }

  /** What the stack is offered. */
  function Offers(s: Sender, m: Message, answers: seq<Answer>): seq<Offer>
  {
    if !s.connected then []
    else [Offer(m, if m.kind == Reset then Taken else if answers == [] then WouldBlock else answers[0])]
  }

  function Tried(s: Sender, m: Message, answers: seq<Answer>): Sender
  {
    s.(log := s.log + Offers(s, m, answers))
  }

  function Shutdown(s: Sender, fails: bool): Sender
  {
    if s.queue == [] && s.stopping && !s.shutdown
    then s.(shutdown := true, connected := s.connected && !fails)
    else s
  }

  /** The queue without its first message, which the stack has taken. */
  function Popped(s: Sender): Sender
    requires s.queue != []
  {
    Update(s.(queue := s.queue[1..]), s.queue[0].stream, -Size(s.queue[0]))
  }

  lemma UpdateKeepsQueue(s: Sender, stream: int, delta: int)
    ensures var t := Update(s, stream, delta);
            && t.queue == s.queue && t.connected == s.connected && t.stopping == s.stopping && t.shutdown == s.shutdown
            && t.log == s.log && t.accepted == s.accepted && t.dropped == s.dropped
  {}

  function Flush(s: Sender, answers: seq<Answer>, fails: bool): (r: Result)
    decreases |s.queue|
  {
    if s.queue == [] then Result(Shutdown(s, fails), Done, answers)
    else
      var m := s.queue[0];
      var t, status, left := Tried(s, m, answers), Attempt(s, m, answers), AnswersLeft(s, m, answers);
      if status != Done then Result(t, status, left)
      else
        UpdateKeepsQueue(t.(queue := t.queue[1..]), m.stream, -Size(m));
        Flush(Popped(t), left, fails)
  }

  /** One step of the flushing loop. */
  lemma FlushStep(s: Sender, answers: seq<Answer>, fails: bool)
    ensures Flush(s, answers, fails) ==
            if s.queue == [] then Result(Shutdown(s, fails), Done, answers)
            else
              var m := s.queue[0];
              var t, status, left := Tried(s, m, answers), Attempt(s, m, answers), AnswersLeft(s, m, answers);
              if status != Done then Result(t, status, left) else Flush(Popped(t), left, fails)
  {
    hide Update, Attempt, AnswersLeft, Shutdown, Size, Offers;
  }

  /** The amount grows even when the queue is stopped and drops the message. */
  function Enqueue(s: Sender, m: Message): Sender
  {
    var t := if s.stopping then s.(dropped := s.dropped + [m])
             else s.(queue := s.queue + [m], accepted := s.accepted + [m]);
    Update(t, m.stream, Size(m))
  }

  /** Flushes the queue and then hands the message over directly, or queues it. */
  function Sent(s: Sender, m: Message, answers: seq<Answer>, fails: bool): (r: Result)
  {
    if !s.connected then Result(s, Blocked, answers)
    else
      var f := Flush(s, answers, fails);
      match f.status
      case Broken => f
      case Blocked => f.(sender := Enqueue(f.sender, m))
      case Done =>
        var t, left := Tried(f.sender, m, f.answers), AnswersLeft(f.sender, m, f.answers);
        match Attempt(f.sender, m, f.answers)
        case Broken => Result(t, Broken, left)
        case Blocked => Result(Enqueue(t, m), Blocked, left)
        case Done => Result(t.(accepted := t.accepted + [m]), Done, left)
  }

  function Flushed(s: Sender, answers: seq<Answer>, fails: bool): (r: Result)
  {
    if !s.connected then Result(s, Blocked, answers) else Flush(s, answers, fails)
  }

  // ----- Runs -----

  datatype Action =
    | Send(message: Message, answers: seq<Answer>, fails: bool)
    | FlushQueue(answers: seq<Answer>, fails: bool)
    | CloseStream(stream: int)
    | Close
    | StateChange(connected: bool)

  function Step(s: Sender, a: Action): Sender
  {
    match a
    case Send(m, answers, fails) => Sent(s, m, answers, fails).sender
    case FlushQueue(answers, fails) => Flushed(s, answers, fails).sender
    case CloseStream(stream) => Enqueue(s, Message(Reset, stream, []))
    case Close => s.(stopping := true)
    case StateChange(connected) => s.(connected := connected)
  }

  function Run(s: Sender, actions: seq<Action>): Sender
  {
    if actions == [] then s else Step(Run(s, actions[..|actions| - 1]), actions[|actions| - 1])
  }

  const INITIAL := Sender(false, [], false, false, map[], [], [], [], [], false)

  /** The octets of the user's messages of one stream. */
  function Total(messages: seq<Message>, stream: int): (total: nat)
  {
    if messages == [] then 0
    else
      (if messages[0].stream == stream && (messages[0].kind == Binary || messages[0].kind == Text)
       then |messages[0].data| else 0) + Total(messages[1..], stream)
  }

  lemma {:induction false} TotalSnoc(messages: seq<Message>, m: Message, stream: int)
    ensures Total(messages + [m], stream) == Total(messages, stream) + if m.stream == stream then Size(m) else 0
  {
    if messages != [] {
      assert (messages + [m])[1..] == messages[1..] + [m];
      TotalSnoc(messages[1..], m, stream);
    }
  }

  /** The amount last reported for a stream. */
  function LastReport(reported: seq<(int, int)>, stream: int): int
  {
    if reported == [] then 0
    else if reported[|reported| - 1].0 == stream then reported[|reported| - 1].1
    else LastReport(reported[..|reported| - 1], stream)
  }

  /** Each stream's amount is the size of what is queued and of what was dropped; zero is not stored. */
  ghost predicate Accounted(s: Sender)
  {
    && (forall stream :: AmountRight(s, stream))
    && (forall stream :: stream in s.amounts ==> s.amounts[stream] > 0)
    && !s.clamped
  }

  ghost predicate AmountRight(s: Sender, stream: int)
  {
    && Amount(s.amounts, stream) == Total(s.queue, stream) + Total(s.dropped, stream)
    && LastReport(s.reported, stream) == Amount(s.amounts, stream)
  }

  ghost predicate Inv(s: Sender)
  {
    && Accounted(s)
    && Handed(s.log) + s.queue == s.accepted
    && (!s.stopping ==> s.dropped == [])
  }

  /** An update by what the queue and the dropped messages change by keeps the account. */
  lemma UpdateKeeps(s: Sender, t: Sender, stream: int, delta: int)
    requires Accounted(s) && t.amounts == s.amounts && t.reported == s.reported && t.clamped == s.clamped
    requires forall x :: Changes(s, t, x, stream, delta)
    ensures Accounted(Update(t, stream, delta))
  {
    var u := Update(t, stream, delta);
    assert Changes(s, t, stream, stream, delta);
    assert AmountRight(s, stream);
    forall x
      ensures AmountRight(u, x)
    {
      assert AmountRight(s, x);
      assert Changes(s, t, x, stream, delta);
      if delta != 0 {
        assert u.reported[..|t.reported|] == t.reported;
      }
    }
  }

  /** From s to t the queued and dropped messages of the stream, and of no other, grow by delta octets. */
  ghost predicate Changes(s: Sender, t: Sender, x: int, stream: int, delta: int)
  {
    Total(t.queue, x) + Total(t.dropped, x) ==
    Total(s.queue, x) + Total(s.dropped, x) + if x == stream then delta else 0
  }

  lemma EnqueueKeeps(s: Sender, m: Message)
    requires Inv(s)
    ensures Inv(Enqueue(s, m))
  {
    var t := if s.stopping then s.(dropped := s.dropped + [m])
             else s.(queue := s.queue + [m], accepted := s.accepted + [m]);
    forall x
      ensures Changes(s, t, x, m.stream, Size(m))
    {
      TotalSnoc(s.queue, m, x);
      TotalSnoc(s.dropped, m, x);
    }
    UpdateKeeps(s, t, m.stream, Size(m));
    UpdateKeepsQueue(t, m.stream, Size(m));
    hide Update, Accounted, Handed;
    ConcatAssociative(Handed(s.log), s.queue, [m]);
  }

  /** A message counts as done exactly when the stack took it, and then only. */
  lemma TriedHands(s: Sender, m: Message, answers: seq<Answer>)
    ensures Handed(Tried(s, m, answers).log) == Handed(s.log) + if Attempt(s, m, answers) == Done then [m] else []
  {
    if s.connected {
      var log := Tried(s, m, answers).log;
      assert log[..|log| - 1] == s.log;
    } else {
      assert s.log + [] == s.log && Handed(s.log) + [] == Handed(s.log);
    }
  }

  lemma TriedKeeps(s: Sender, m: Message, answers: seq<Answer>)
    requires Accounted(s)
    ensures Accounted(Tried(s, m, answers)) && s.log <= Tried(s, m, answers).log
  {
    AccountOfOther(s, Tried(s, m, answers));
  }

  lemma PoppedAccounted(t: Sender)
    requires Accounted(t) && t.queue != []
    ensures Accounted(Popped(t))
  {
    var u := t.(queue := t.queue[1..]);
    var delta := -Size(t.queue[0]);
    forall x
      ensures Changes(t, u, x, t.queue[0].stream, delta)
    {}
    UpdateKeeps(t, u, t.queue[0].stream, delta);
    hide Update, Accounted;
  }

  lemma PoppedIs(t: Sender)
    requires t.queue != []
    ensures var p := Popped(t);
            && p.queue == t.queue[1..] && p.log == t.log && p.accepted == t.accepted
            && p.dropped == t.dropped && p.stopping == t.stopping
  {
    UpdateKeepsQueue(t.(queue := t.queue[1..]), t.queue[0].stream, -Size(t.queue[0]));
    hide Update, Size;
  }

  lemma InvIs(s: Sender)
    ensures Inv(s) <==> Accounted(s) && Handed(s.log) + s.queue == s.accepted && (!s.stopping ==> s.dropped == [])
  {}

  lemma MovesOver(handed: seq<Message>, queue: seq<Message>)
    requires queue != []
    ensures handed + queue == (handed + [queue[0]]) + queue[1..]
  {}

  lemma PoppedKeeps(s: Sender, answers: seq<Answer>)
    requires Inv(s) && s.queue != [] && Attempt(s, s.queue[0], answers) == Done
    ensures var t := Tried(s, s.queue[0], answers);
            && Inv(Popped(t)) && Popped(t).queue == s.queue[1..] && Popped(t).accepted == s.accepted
            && Popped(t).log == t.log && Popped(t).stopping == s.stopping
  {
    hide Attempt, Offers, Handed, Accounted, Inv, Popped;
    var t := Tried(s, s.queue[0], answers);
    InvIs(s);
    InvIs(Popped(t));
    TriedHands(s, s.queue[0], answers);
    TriedKeeps(s, s.queue[0], answers);
    PoppedIs(t);
    PoppedAccounted(t);
    MovesOver(Handed(s.log), s.queue);
  }

  lemma {:induction false} FlushKeeps(s: Sender, answers: seq<Answer>, fails: bool)
    requires Inv(s)
    ensures var r := Flush(s, answers, fails);
            && Inv(r.sender) && r.sender.accepted == s.accepted && s.log <= r.sender.log
            && r.sender.stopping == s.stopping
            && (r.status == Done ==> r.sender.queue == [])
    decreases |s.queue|
  {
    hide *;
    FlushStep(s, answers, fails);
    if s.queue == [] {
      ShutdownKeepsInv(s, fails);
    } else {
      var m := s.queue[0];
      if Attempt(s, m, answers) == Done {
        PoppedKeeps(s, answers);
        TriedKeepsRest(s, m, answers);
        FlushKeeps(Popped(Tried(s, m, answers)), AnswersLeft(s, m, answers), fails);
      } else {
        RefusedKeeps(s, m, answers);
      }
    }
  }

  lemma TriedKeepsRest(s: Sender, m: Message, answers: seq<Answer>)
    ensures var t := Tried(s, m, answers);
            && t.queue == s.queue && t.accepted == s.accepted && t.dropped == s.dropped && t.stopping == s.stopping
            && s.log <= t.log
  {}

  /** A message that is not taken stays where it is. */
  lemma RefusedKeeps(s: Sender, m: Message, answers: seq<Answer>)
    requires Inv(s) && Attempt(s, m, answers) != Done
    ensures var t := Tried(s, m, answers);
            Inv(t) && t.accepted == s.accepted && s.log <= t.log && t.stopping == s.stopping
  {
    hide Attempt, Handed, Accounted, Inv, Tried;
    InvIs(s);
    InvIs(Tried(s, m, answers));
    TriedHands(s, m, answers);
    TriedKeeps(s, m, answers);
    TriedKeepsRest(s, m, answers);
    assert Handed(s.log) + [] == Handed(s.log);
  }

  lemma ShutdownKeepsInv(s: Sender, fails: bool)
    requires Inv(s)
    ensures var t := Shutdown(s, fails);
            && Inv(t) && t.accepted == s.accepted && t.log == s.log && t.stopping == s.stopping && t.queue == s.queue
  {
    ShutdownKeeps(s, fails);
    hide Accounted, Handed;
  }

  lemma ShutdownKeeps(s: Sender, fails: bool)
    requires Accounted(s)
    ensures Accounted(Shutdown(s, fails))
  {
    var t := Shutdown(s, fails);
    forall x
      ensures AmountRight(t, x)
    {
      assert AmountRight(s, x);
    }
  }

  lemma SentKeeps(s: Sender, m: Message, answers: seq<Answer>, fails: bool)
    requires Inv(s)
    ensures var r := Sent(s, m, answers, fails);
            && Inv(r.sender) && s.log <= r.sender.log
            && (r.status == Done ==> r.sender.queue == [])
            && (s.connected && !s.stopping && r.status != Broken ==> r.sender.accepted == s.accepted + [m])
            && (!s.connected || r.status == Broken ==> r.sender.accepted == s.accepted)
  {
    FlushKeeps(s, answers, fails);
    var f := Flush(s, answers, fails);
    hide Flush, Accounted, Attempt, Offers, Enqueue, AnswersLeft, Handed;
    if f.status == Blocked {
      EnqueueKeeps(f.sender, m);
      EnqueueAccepts(f.sender, m);
    } else if f.status == Done {
      var t := Tried(f.sender, m, f.answers);
      TriedHands(f.sender, m, f.answers);
      TriedKeeps(f.sender, m, f.answers);
      assert Handed(f.sender.log) + [] == Handed(f.sender.log) && Handed(t.log) + [] == Handed(t.log);
      if Attempt(f.sender, m, f.answers) == Blocked {
        EnqueueKeeps(t, m);
        EnqueueAccepts(t, m);
      } else {
        AccountOfOther(t, t.(accepted := t.accepted + [m]));
      }
    }
  }

  lemma EnqueueAccepts(s: Sender, m: Message)
    ensures Enqueue(s, m).accepted == if s.stopping then s.accepted else s.accepted + [m]
    ensures Enqueue(s, m).queue == if s.stopping then s.queue else s.queue + [m]
    ensures Enqueue(s, m).log == s.log && Enqueue(s, m).stopping == s.stopping
    ensures Enqueue(s, m).connected == s.connected
  {}

  lemma AccountOfOther(s: Sender, t: Sender)
    requires Accounted(s) && t.amounts == s.amounts && t.reported == s.reported && t.clamped == s.clamped
    requires t.queue == s.queue && t.dropped == s.dropped
    ensures Accounted(t)
  {
    forall x
      ensures AmountRight(t, x)
    {
      assert AmountRight(s, x);
    }
  }

  lemma StepKeeps(s: Sender, a: Action)
    requires Inv(s)
    ensures Inv(Step(s, a)) && s.log <= Step(s, a).log
  {
    match a
    case Send(m, answers, fails) => SentKeeps(s, m, answers, fails);
    case FlushQueue(answers, fails) => FlushKeeps(s, answers, fails);
    case CloseStream(stream) =>
      EnqueueKeeps(s, Message(Reset, stream, []));
      EnqueueAccepts(s, Message(Reset, stream, []));
    case Close => AccountOfOther(s, s.(stopping := true));
    case StateChange(connected) => AccountOfOther(s, s.(connected := connected));
  }

  lemma {:induction false} RunKeeps(actions: seq<Action>)
    ensures Inv(Run(INITIAL, actions))
  {
    if actions == [] {
      forall x
        ensures AmountRight(INITIAL, x)
      {}
    } else {
      RunKeeps(actions[..|actions| - 1]);
      StepKeeps(Run(INITIAL, actions[..|actions| - 1]), actions[|actions| - 1]);
    }
  }

  /**
   In every run, whatever the stack answers: what it took and then the queue are the accepted messages
   and resets in order; a stream's amount, and the one last reported, is the size of its messages that
   are queued or that a stopped queue dropped, so exact until then and never too small; amounts of zero
   are not stored; and the clamp at zero has never changed an amount.
   */
  lemma QueueConservation(actions: seq<Action>, stream: int)
    ensures var s := Run(INITIAL, actions);
            && Handed(s.log) + s.queue == s.accepted
            && Amount(s.amounts, stream) == Total(s.queue, stream) + Total(s.dropped, stream)
            && LastReport(s.reported, stream) == Amount(s.amounts, stream)
            && (stream in s.amounts <==> Total(s.queue, stream) + Total(s.dropped, stream) > 0)
            && (!s.stopping ==> s.dropped == [])
            && !s.clamped
  {
    RunKeeps(actions);
    assert AmountRight(Run(INITIAL, actions), stream);
  }

  /** What a step submits: a message sent while connected, or the reset of a closed stream. */
  function Submitted(s: Sender, a: Action): seq<Message>
  {
    match a
    case Send(m, _, _) => if s.connected then [m] else []
    case CloseStream(stream) => [Message(Reset, stream, [])]
    case _ => []
  }

  /** Until the queue is stopped, every step that does not break accepts exactly what it submits. */
  lemma AcceptedIsSubmitted(actions: seq<Action>, a: Action)
    requires !Run(INITIAL, actions).stopping
    requires a.Send? ==> Sent(Run(INITIAL, actions), a.message, a.answers, a.fails).status != Broken
    ensures var s := Run(INITIAL, actions);
            Step(s, a).accepted == s.accepted + Submitted(s, a)
  {
    RunKeeps(actions);
    var s := Run(INITIAL, actions);
    match a
    case Send(m, answers, fails) => SentKeeps(s, m, answers, fails);
    case FlushQueue(answers, fails) => FlushKeeps(s, answers, fails);
    case CloseStream(stream) => EnqueueAccepts(s, Message(Reset, stream, []));
    case _ =>
  }

  lemma SentStops(s: Sender, m: Message, answers: seq<Answer>, fails: bool)
    requires Inv(s)
    ensures Sent(s, m, answers, fails).sender.stopping == s.stopping
  {
    FlushKeeps(s, answers, fails);
    var f := Flush(s, answers, fails);
    EnqueueAccepts(f.sender, m);
    EnqueueAccepts(Tried(f.sender, m, f.answers), m);
    hide Flush, Inv, Enqueue, Attempt, AnswersLeft, Offers;
  }

  /** The queue is stopped exactly by closing the transport, whatever else happens and fails. */
  lemma {:induction false} StoppedExactly(actions: seq<Action>)
    ensures Run(INITIAL, actions).stopping <==> Close in actions
  {
    if actions != [] {
      var before := actions[..|actions| - 1];
      var s, a := Run(INITIAL, before), actions[|actions| - 1];
      RunKeeps(before);
      StoppedExactly(before);
      assert actions == before + [a];
      assert Run(INITIAL, actions) == Step(s, a);
      hide Run, Inv, Sent, Flush;
      match a
      case Send(m, answers, fails) => SentStops(s, m, answers, fails);
      case FlushQueue(answers, fails) => FlushKeeps(s, answers, fails);
      case CloseStream(stream) => EnqueueAccepts(s, Message(Reset, stream, []));
      case _ =>
    }
  }

  // ----- What the stack was offered -----

  /** An attempt to send several messages ends with the first that is not taken; its answer is the outcome. */
  predicate EndsWith(offers: seq<Offer>, status: Status)
  {
    && (forall i :: 0 <= i < |offers| - 1 ==> offers[i].answer == Taken)
    && (status == Broken <==> offers != [] && offers[|offers| - 1].answer == Fatal)
    && (offers != [] && offers[|offers| - 1].answer == WouldBlock ==> status == Blocked)
    && (status == Done && offers != [] ==> offers[|offers| - 1].answer == Taken)
  }

  lemma EndsWithCons(offer: Offer, offers: seq<Offer>, status: Status)
    requires offer.answer == Taken && EndsWith(offers, status)
    ensures EndsWith([offer] + offers, status)
  {
    var all := [offer] + offers;
    assert forall i :: 0 <= i < |offers| ==> all[i + 1] == offers[i];
    forall i | 0 <= i < |all| - 1
      ensures all[i].answer == Taken
    {
      assert all[i] == if i == 0 then offer else offers[i - 1];
    }
  }

  /** Flushing: the offers, and the message that was refused, which is first in the queue. */
  lemma {:induction false} FlushOffers(s: Sender, answers: seq<Answer>, fails: bool) returns (offers: seq<Offer>)
    ensures var r := Flush(s, answers, fails);
            && r.sender.log == s.log + offers && EndsWith(offers, r.status)
            && (r.status != Done ==> r.sender.queue != [])
            && (offers != [] && offers[|offers| - 1].answer != Taken ==>
                  r.sender.queue != [] && r.sender.queue[0] == offers[|offers| - 1].message)
            && (s.connected && r.status == Blocked ==> offers != [] && offers[|offers| - 1].answer == WouldBlock)
    decreases |s.queue|
  {
    FlushStep(s, answers, fails);
    if s.queue == [] {
      offers := [];
    } else {
      var m := s.queue[0];
      var t := Tried(s, m, answers);
      offers := Offers(s, m, answers);
      UpdateKeepsQueue(t.(queue := t.queue[1..]), m.stream, -Size(m));
      hide Flush, Update;
      if Attempt(s, m, answers) == Done {
        var rest := FlushOffers(Popped(t), AnswersLeft(s, m, answers), fails);
        EndsWithCons(offers[0], rest, Flush(s, answers, fails).status);
        ConcatAssociative(s.log, offers, rest);
        offers := offers + rest;
      }
    }
  }

  lemma EndsWithSnoc(offers: seq<Offer>, last: Offer, status: Status)
    requires EndsWith(offers, Done)
    requires match last.answer
             case Taken => status == Done
             case WouldBlock => status == Blocked
             case Fatal => status == Broken
    ensures EndsWith(offers + [last], status)
  {
    var all := offers + [last];
    forall i | 0 <= i < |all| - 1
      ensures all[i].answer == Taken
    {
      assert all[i] == offers[i];
    }
  }

  /** Behind an empty queue the message itself is offered, if the connection still stands. */
  lemma OfferedLast(f: Sender, m: Message, answers: seq<Answer>, before: seq<Offer>, offers: seq<Offer>)
    requires EndsWith(offers, Done) && f.log == before + offers
    ensures var status := Attempt(f, m, answers);
            var all := offers + Offers(f, m, answers);
            && Tried(f, m, answers).log == before + all
            && (f.connected ==> EndsWith(all, status) && all != [] && all[|all| - 1].message == m)
            && (!f.connected ==> status == Blocked && all == offers)
  {
    ConcatAssociative(before, offers, Offers(f, m, answers));
    if f.connected {
      EndsWithSnoc(offers, Offers(f, m, answers)[0], Attempt(f, m, answers));
    }
  }

  /**
   Sending while connected: everything offered but the last message was taken, and a fatal answer is the last; the
   send succeeds only when the stack took the message itself; it fails only when the stack refuses one for now, or is
   no longer connected, and then the message waits at the end of the queue.
   */
  lemma SentOffers(s: Sender, m: Message, answers: seq<Answer>, fails: bool) returns (offers: seq<Offer>)
    requires Inv(s) && s.connected
    ensures var r := Sent(s, m, answers, fails);
            && r.sender.log == s.log + offers
            && (forall i :: 0 <= i < |offers| - 1 ==> offers[i].answer == Taken)
            && (r.status == Broken <==> offers != [] && offers[|offers| - 1].answer == Fatal)
            && (offers != [] && offers[|offers| - 1].answer == WouldBlock ==> r.status == Blocked)
            && (r.status == Done ==> offers != [] && offers[|offers| - 1] == Offer(m, Taken))
            && (r.status == Blocked && r.sender.connected ==> offers != [] && offers[|offers| - 1].answer == WouldBlock)
            && (r.status == Blocked && !s.stopping ==> r.sender.queue != [] && r.sender.queue[|r.sender.queue| - 1] == m)
            && (r.status == Blocked && !s.stopping && offers != [] && offers[|offers| - 1].answer == WouldBlock ==>
                  r.sender.queue[0] == offers[|offers| - 1].message)
  {
    FlushKeeps(s, answers, fails);
    offers := FlushOffers(s, answers, fails);
    var f := Flush(s, answers, fails);
    SentIs(s, m, answers, fails);
    hide Sent, Flush, Enqueue, Accounted, Inv, Attempt, Offers, AnswersLeft;
    if f.status == Done {
      OfferedLast(f.sender, m, f.answers, s.log, offers);
      offers := offers + Offers(f.sender, m, f.answers);
      AttemptSays(f.sender, m, f.answers);
    }
  }

  /** What a send leaves behind, by the outcomes of flushing and of offering the message. */
  lemma SentIs(s: Sender, m: Message, answers: seq<Answer>, fails: bool)
    requires s.connected
    ensures var f, r := Flush(s, answers, fails), Sent(s, m, answers, fails);
            if f.status != Done then
              && r.status == f.status && r.sender.connected == f.sender.connected && r.sender.log == f.sender.log
              && (f.status == Blocked && !f.sender.stopping ==> r.sender.queue == f.sender.queue + [m])
            else
              && r.sender.connected == f.sender.connected
              && r.status == Attempt(f.sender, m, f.answers) && r.sender.log == Tried(f.sender, m, f.answers).log
              && (r.status == Blocked && !f.sender.stopping ==> r.sender.queue == f.sender.queue + [m])
  {
    var f := Flush(s, answers, fails);
    EnqueueAccepts(f.sender, m);
    EnqueueAccepts(Tried(f.sender, m, f.answers), m);
    hide Flush, Enqueue, Attempt, Offers, AnswersLeft;
  }

  lemma AttemptSays(s: Sender, m: Message, answers: seq<Answer>)
    ensures Offers(s, m, answers) == [] <==> !s.connected
    ensures s.connected ==>
              var last := Offers(s, m, answers)[|Offers(s, m, answers)| - 1];
              last.message == m && (Attempt(s, m, answers) == Blocked ==> last.answer == WouldBlock)
    ensures Tried(s, m, answers).queue == s.queue && Tried(s, m, answers).stopping == s.stopping
  {}

  /**
   A flush while connected leaves an empty queue, or the message that was offered last and not taken is first in it;
   and nothing happens while not connected.
   */
  lemma FlushedSays(s: Sender, answers: seq<Answer>, fails: bool)
    requires Inv(s)
    ensures var r := Flushed(s, answers, fails).sender;
            && (!s.connected ==> r == s)
            && (s.connected && r.queue != [] ==>
                  s.log < r.log && r.log[|r.log| - 1].answer != Taken && r.log[|r.log| - 1].message == r.queue[0])
  {
    if s.connected {
      FlushKeeps(s, answers, fails);
      var offers := FlushOffers(s, answers, fails);
    }
    hide Flush, Inv;
  }

  /** The octets of a message that the stack refused for now are in its stream's amount. */
  lemma RefusedIsCounted(s: Sender, m: Message, answers: seq<Answer>, fails: bool)
    requires Inv(s)
    ensures var r := Sent(s, m, answers, fails).sender;
            r.queue != [] ==> Amount(r.amounts, r.queue[0].stream) >= Size(r.queue[0])
  {
    SentKeeps(s, m, answers, fails);
    hide Sent;
    if Sent(s, m, answers, fails).sender.queue != [] {
      FirstCounts(Sent(s, m, answers, fails).sender);
    }
  }

  lemma FirstCounts(s: Sender)
    requires Accounted(s) && s.queue != []
    ensures Amount(s.amounts, s.queue[0].stream) >= Size(s.queue[0])
  {
    assert AmountRight(s, s.queue[0].stream);
  }

  /** The association is shut down exactly when a stopped queue has been flushed empty, and once. */
  lemma {:induction false} ShutDownExactly(s: Sender, answers: seq<Answer>, fails: bool)
    ensures var r := Flush(s, answers, fails);
            && (r.sender.shutdown <==> s.shutdown || (r.status == Done && s.stopping))
            && (r.sender.connected != s.connected ==> fails && !s.shutdown && r.sender.shutdown && !r.sender.connected)
    decreases |s.queue|
  {
    FlushStep(s, answers, fails);
    if s.queue != [] {
      var t := Tried(s, s.queue[0], answers);
      PoppedIs(t);
      UpdateKeepsQueue(t.(queue := t.queue[1..]), t.queue[0].stream, -Size(t.queue[0]));
      hide Flush, Attempt, AnswersLeft, Update, Size;
      if Attempt(s, s.queue[0], answers) == Done {
        ShutDownExactly(Popped(t), AnswersLeft(s, s.queue[0], answers), fails);
      }
    }
  }

  // ----- The transport -----

  /** The SCTP stack as its user sees it: the answers it is going to give, and what it was offered. */
  class Stack {
    var answers: seq<Answer>
    var log: seq<Offer>

    constructor (answers: seq<Answer>)
      ensures this.answers == answers && log == []
    {
      this.answers, log := answers, [];
    }

    /** Offers a message; without answers the stack would block. */
    method Sendv(m: Message) returns (answer: Answer)
      modifies this
      ensures answer == if old(answers) == [] then WouldBlock else old(answers)[0]
      ensures answers == if old(answers) == [] then [] else old(answers)[1..]
      ensures log == old(log) + [Offer(m, answer)]
    {
      answer := if answers == [] then WouldBlock else answers[0];
      answers := if answers == [] then [] else answers[1..];
      log := log + [Offer(m, answer)];
    }

    /** Resets a stream. */
    method Reset(m: Message)
      modifies this
      ensures answers == old(answers) && log == old(log) + [Offer(m, Taken)]
    {
      log := log + [Offer(m, Taken)];
    }
  }

  class Transport {
    const sendQueue: Q.Queue<Message>
    var connected: bool
    var sendShutdown: bool
    var bufferedAmount: map<int, int>
    var reported: seq<(int, int)>

    /** The SCTP stack. */
    const stack: Stack

    ghost var accepted: seq<Message>
    ghost var dropped: seq<Message>
    ghost var clamped: bool

    ghost function View(): Sender
      reads this, sendQueue, stack
    {
      Sender(connected, sendQueue.elements, sendQueue.stopping, sendShutdown, bufferedAmount, reported,
             stack.log, accepted, dropped, clamped)
    }

    /** The queue is unbounded, and its own counter is the number of queued octets. */
    ghost predicate Valid()
      reads this, sendQueue
    {
      && sendQueue.limit == 0 && sendQueue.Counted()
      && (forall m: Message :: sendQueue.amountOf(m) == Size(m))
    }

    constructor (answers: seq<Answer>)
      ensures Valid() && View() == INITIAL && stack.answers == answers && fresh(sendQueue) && fresh(stack)
    {
      sendQueue := new Q.Queue<Message>(0, m => Size(m));
      connected, sendShutdown, bufferedAmount, reported := false, false, map[], [];
      stack := new Stack(answers);
      accepted, dropped, clamped := [], [], false;
    }

    method UpdateBufferedAmount(stream: int, delta: int)
      requires Valid()
      modifies this`bufferedAmount, this`reported, this`clamped
      ensures Valid() && View() == Update(old(View()), stream, delta)
    {
      if delta == 0 {
        return;
      }
      if stream !in bufferedAmount {
        bufferedAmount := bufferedAmount[stream := 0];
      }
      clamped := clamped || bufferedAmount[stream] + delta < 0;
      var amount := if bufferedAmount[stream] + delta > 0 then bufferedAmount[stream] + delta else 0;
      bufferedAmount := if amount == 0 then bufferedAmount - {stream} else bufferedAmount[stream := amount];
      reported := reported + [(stream, amount)];
    }

    method TrySendMessage(m: Message) returns (status: Status)
      modifies stack
      ensures status == Attempt(old(View()), m, old(stack.answers))
      ensures stack.answers == AnswersLeft(old(View()), m, old(stack.answers))
      ensures stack.log == old(stack.log) + Offers(old(View()), m, old(stack.answers))
    {
      if !connected {
        return Blocked;
      }
      if m.kind == Reset {
        stack.Reset(m);
        return Done;
      }
      var answer := stack.Sendv(m);
      match answer
      case Taken => return Done;
      case WouldBlock => return Blocked;
      case Fatal => return Broken;
    }

    /** Takes the message that was handed over from the queue and from its stream's amount. */
    method DropFirst(message: Message)
      requires Valid() && sendQueue.elements != [] && message == sendQueue.elements[0]
      modifies this`bufferedAmount, this`reported, this`clamped, sendQueue
      ensures Valid()
      ensures View() == Update(old(View()).(queue := old(View()).queue[1..]), message.stream, -Size(message))
    {
      hide Update, Size;
      var _ := sendQueue.Pop();
      UpdateBufferedAmount(message.stream, -Size(message));
    }

    /** Hands over the queued messages; a stopped queue that is empty shuts the association down once. */
    method TrySendQueue(fails: bool) returns (status: Status)
      requires Valid()
      modifies this, sendQueue, stack
      ensures Valid()
      ensures var r := Flush(old(View()), old(stack.answers), fails);
              View() == r.sender && status == r.status && stack.answers == r.answers
    {
      hide Flush, Update, Attempt, AnswersLeft, Size, Shutdown, Offers;
      while true
        invariant Valid()
        invariant Flush(View(), stack.answers, fails) == Flush(old(View()), old(stack.answers), fails)
        decreases |sendQueue.elements|
      {
        var next := sendQueue.Peek();
        FlushStep(View(), stack.answers, fails);
        if next == None {
          break;
        }
        var message := next.value;
        status := TrySendMessage(message);
        if status != Done {
          return;
        }
        ghost var tried := View();
        DropFirst(message);
        UpdateKeepsQueue(tried.(queue := tried.queue[1..]), message.stream, -Size(message));
      }
      ShutDown(fails);
      status := Done;
    }

    method ShutDown(fails: bool)
      requires Valid()
      modifies this`sendShutdown, this`connected
      ensures Valid() && View() == Shutdown(old(View()), fails)
    {
      if !sendQueue.Running() && !sendShutdown {
        sendShutdown := true;
        if fails {
          connected := false;
        }
      }
    }

    /** None when the transport is not connected. */
    method Send(message: Message, fails: bool) returns (status: Option<Status>)
      requires Valid()
      modifies this, sendQueue, stack
      ensures Valid()
      ensures !old(connected) ==> status == None && View() == old(View()) && stack.answers == old(stack.answers)
      ensures old(connected) ==>
                var r := Sent(old(View()), message, old(stack.answers), fails);
                View() == r.sender && status == Some(r.status) && stack.answers == r.answers
    {
      hide Update, Flush, Attempt, AnswersLeft, Offers;
      if !connected {
        return None;
      }
      var s := TrySendQueue(fails);
      if s == Done {
        s := TrySendMessage(message);
        if s == Done {
          accepted := accepted + [message];
          return Some(Done);
        }
      }
      if s == Broken {
        return Some(Broken);
      }
      Push(message);
      return Some(Blocked);
    }

    /** False when the transport is not connected, or when sending failed. */
    method FlushQueue(fails: bool) returns (flushed: bool)
      requires Valid()
      modifies this, sendQueue, stack
      ensures Valid()
      ensures var r := Flushed(old(View()), old(stack.answers), fails);
              && View() == r.sender && stack.answers == r.answers
              && flushed == (old(connected) && r.status != Broken)
    {
      hide Flush;
      if !connected {
        return false;
      }
      var status := TrySendQueue(fails);
      return status != Broken;
    }

    method Push(message: Message)
      requires Valid()
      modifies this`bufferedAmount, this`reported, this`accepted, this`dropped, this`clamped, sendQueue
      ensures Valid() && View() == Enqueue(old(View()), message)
    {
      sendQueue.Push(message);
      if sendQueue.stopping {
        dropped := dropped + [message];
      } else {
        accepted := accepted + [message];
      }
      UpdateBufferedAmount(message.stream, Size(message));
    }

    /** The reset waits in the queue behind the messages of the stream. */
    method CloseStream(stream: int)
      requires Valid()
      modifies this`bufferedAmount, this`reported, this`accepted, this`dropped, this`clamped, sendQueue
      ensures Valid() && View() == Step(old(View()), Action.CloseStream(stream))
    {
      Push(Message(Reset, stream, []));
    }

    method Close()
      requires Valid()
      modifies sendQueue
      ensures Valid() && View() == Step(old(View()), Action.Close)
    {
      sendQueue.Stop();
    }
  }
}
