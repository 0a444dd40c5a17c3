/**
 How the DTLS transport gets its received datagrams processed: producers push to the incoming queue and
 have a call of doRecv enqueued unless one is pending; the calls run one at a time on the thread pool,
 and timers start further calls that decrement the pending counter without having incremented it.
 Every atomic access and every section under a mutex is one step, taken in any order.
 */
module DtlsReceiver {
  import opened Bytes

  type Datagram = seq<byte>

  datatype Phase = Unstarted | Connecting | Connected | Closed

  /** Where the call of doRecv that holds the receive mutex is. */
  datatype Runner = Idle | Begun | AtLoop | AtPop | Emptied | Processing | Closing

  /** Producers inside enqueueRecv are counted by what they do next: look at the counter, count, or enqueue. */
  datatype Receiver = Receiver(
    phase: Phase,
    queue: seq<Datagram>,
    stopping: bool,
    pending: int,
    checking: nat,
    counting: nat,
    enqueueing: nat,
    calls: nat,
    timers: nat,
    timerCalls: nat,
    runner: Runner,
    pushed: seq<Datagram>,
    processed: seq<Datagram>)

  datatype Action =
    | Start(timer: bool)
    | Push(datagram: Datagram)
    | Stop
    | Alert
    | CheckPending
    | CountPending
    | EnqueueCall
    | BeginCall
    | BeginTimerCall
    | CheckState
    | CheckRunning
    | Pop
    | Process(established: bool, over: bool)
    | Return(timer: bool, timeout: bool)
    | Close

  predicate Live(s: Receiver)
  {
    s.phase == Connecting || s.phase == Connected
  }

  predicate Enabled(s: Receiver, a: Action)
  {
    match a
    case Start(_) => s.phase == Unstarted
    case Push(_) => true
    case Stop => true
    case Alert => s.runner == Processing || s.runner == Closing
    case CheckPending => s.checking > 0
    case CountPending => s.counting > 0
    case EnqueueCall => s.enqueueing > 0
    case BeginCall => s.calls > 0 && s.runner == Idle
    case BeginTimerCall => s.timers > 0 && s.runner == Idle
    case CheckState => s.runner == Begun
    case CheckRunning => s.runner == AtLoop
    case Pop => s.runner == AtPop
    case Process(_, _) => s.runner == Processing
    case Return(_, _) => s.runner == Emptied
    case Close => s.runner == Closing
  }

  function Step(s: Receiver, a: Action): Receiver
    requires Enabled(s, a)
  {
    match a
    // the queue takes datagrams even before the start; a stopped one drops them
    case Start(timer) => s.(phase := Connecting, timers := s.timers + if timer then 1 else 0)
    case Push(m) =>
      if s.stopping then s.(checking := s.checking + 1)
      else s.(queue := s.queue + [m], pushed := s.pushed + [m], checking := s.checking + 1)
    case Stop => s.(stopping := true, checking := s.checking + 1)
    case Alert => s.(stopping := true)
    // enqueueRecv
    case CheckPending =>
      s.(checking := s.checking - 1, counting := s.counting + if s.pending > 0 then 0 else 1)
    case CountPending => s.(counting := s.counting - 1, pending := s.pending + 1, enqueueing := s.enqueueing + 1)
    case EnqueueCall => s.(enqueueing := s.enqueueing - 1, calls := s.calls + 1)
    // doRecv
    case BeginCall => s.(calls := s.calls - 1, pending := s.pending - 1, runner := Begun)
    case BeginTimerCall =>
      s.(timers := s.timers - 1, timerCalls := s.timerCalls + 1, pending := s.pending - 1, runner := Begun)
    case CheckState => s.(runner := if Live(s) then AtLoop else Idle)
    case CheckRunning => s.(runner := if s.queue != [] || !s.stopping then AtPop else Closing)
    case Pop =>
      if s.queue == [] then s.(runner := Emptied)
      else s.(queue := s.queue[1..], processed := s.processed + [s.queue[0]], runner := Processing)
    case Process(established, over) =>
      s.(phase := if s.phase == Connecting && established then Connected else s.phase,
         runner := if over then Closing else AtLoop)
    case Return(timer, timeout) =>
      if s.phase == Connecting && timeout then s.(runner := Closing)
      else s.(runner := Idle, timers := s.timers + if s.phase == Connecting && timer then 1 else 0)
    case Close => s.(runner := Idle, phase := Closed)
  }

  /** There is something for doRecv to see. */
  predicate HasWork(s: Receiver)
  {
    s.queue != [] || s.stopping
  }

  /** The running call will still look at the queue, or is closing the transport. */
  predicate Looking(s: Receiver)
  {
    match s.runner
    case Idle => false
    case Emptied => false
    case AtPop => s.queue != []
    case _ => true
  }

  function Producers(s: Receiver): nat
  {
    s.checking + s.counting + s.enqueueing
  }

  /** Work is seen by the running call, by an enqueued call, or a producer is still in enqueueRecv. */
  predicate Covered(s: Receiver)
  {
    HasWork(s) ==> Looking(s) || s.calls > 0 || Producers(s) > 0
  }

  /** The counter is the calls not yet begun and those about to be enqueued, less the calls of timers. */
  predicate Accounted(s: Receiver)
  {
    && s.pending == s.calls + s.enqueueing - s.timerCalls
    && s.pushed == s.processed + s.queue
  }

  const START := Receiver(Unstarted, [], false, 0, 0, 0, 0, 0, 0, 0, Idle, [], [])

  /** Action i leads from state i to the next one. */
  predicate StepAt(states: seq<Receiver>, actions: seq<Action>, i: int)
  {
    0 <= i < |actions| && i + 1 < |states| && Enabled(states[i], actions[i]) && states[i + 1] == Step(states[i], actions[i])
  }

  ghost predicate IsRun(states: seq<Receiver>, actions: seq<Action>)
  {
    && |states| == |actions| + 1 && states[0] == START
    && forall i :: 0 <= i < |actions| ==> StepAt(states, actions, i)
  }

  /** No call runs or is enqueued and no producer is in enqueueRecv. */
  predicate NobodyInside(s: Receiver)
  {
    s.runner == Idle && s.calls == 0 && Producers(s) == 0
  }

  /** The transport is not started with a datagram, or a stop, in the queue and nobody inside. */
  ghost predicate NothingLeftAtStart(states: seq<Receiver>, actions: seq<Action>)
    requires |states| == |actions| + 1
  {
    forall i :: 0 <= i < |actions| && actions[i].Start? && NobodyInside(states[i]) ==> !HasWork(states[i])
  }

  /** Before the start a call can only have begun, and it has not looked at the state yet. */
  predicate UnstartedRunner(s: Receiver)
  {
    s.phase == Unstarted ==> s.runner == Idle || s.runner == Begun
  }

  lemma StepKeepsAccount(s: Receiver, a: Action)
    requires Accounted(s) && Enabled(s, a)
    ensures Accounted(Step(s, a))
  {
    if a.Push? {
      ConcatAssociative(s.processed, s.queue, [a.datagram]);
    } else if a.Pop? && s.queue != [] {
      SplitFirst(s.queue);
      ConcatAssociative(s.processed, [s.queue[0]], s.queue[1..]);
    }
  }

  lemma StepKeepsCover(s: Receiver, a: Action)
    requires Accounted(s) && UnstartedRunner(s) && Enabled(s, a)
    requires Live(s) ==> Covered(s)
    requires a.Start? && NobodyInside(s) ==> !HasWork(s)
    ensures UnstartedRunner(Step(s, a)) && (Live(Step(s, a)) ==> Covered(Step(s, a)))
  {}

  /**
   No lost wake-up: in every interleaving of producers, pool threads and timers, at every moment the
   transport is connecting or connected, whatever is in the queue, and a stop, is seen by a call that is
   running or enqueued, or its producer has not left yet; and datagrams are processed in order.
   */
  lemma {:induction false} NoLostWakeUp(states: seq<Receiver>, actions: seq<Action>, i: nat)
    requires IsRun(states, actions) && i < |states| && NothingLeftAtStart(states, actions)
    ensures Accounted(states[i]) && UnstartedRunner(states[i]) && (Live(states[i]) ==> Covered(states[i]))
  {
    if i > 0 {
      NoLostWakeUp(states, actions, i - 1);
      assert StepAt(states, actions, i - 1);
      StepKeepsAccount(states[i - 1], actions[i - 1]);
      StepKeepsCover(states[i - 1], actions[i - 1]);
    }
  }

  /** A start with work left and nobody inside makes a live transport that nobody looks after. */
  lemma StartStrands(s: Receiver, a: Action)
    requires Enabled(s, a) && a.Start? && NobodyInside(s) && HasWork(s)
    ensures Live(Step(s, a)) && !Covered(Step(s, a))
  {}

  /** No wake-up is lost at any moment of a run exactly when nothing is left at its start. */
  lemma NoLostWakeUpExactly(states: seq<Receiver>, actions: seq<Action>)
    requires IsRun(states, actions)
    ensures (forall i :: 0 <= i < |states| && Live(states[i]) ==> Covered(states[i])) <==>
            NothingLeftAtStart(states, actions)
  {
    hide Live, Covered, Step, Enabled, NobodyInside, HasWork;
    if NothingLeftAtStart(states, actions) {
      forall i | 0 <= i < |states|
        ensures Live(states[i]) ==> Covered(states[i])
      {
        NoLostWakeUp(states, actions, i);
      }
    } else {
      var i :| 0 <= i < |actions| && actions[i].Start? && NobodyInside(states[i]) && HasWork(states[i]);
      assert StepAt(states, actions, i);
      StartStrands(states[i], actions[i]);
      assert Live(states[i + 1]) && !Covered(states[i + 1]);
    }
  }

  /** What the threads do on their own, without the network, the user or a timer. */
  predicate Internal(a: Action)
  {
    !a.Start? && !a.Push? && !a.Stop? && !a.Alert? && !a.BeginTimerCall?
  }

  function RunnerSteps(runner: Runner): nat
  {
    match runner
    case Idle => 0
    case Begun => 5
    case AtLoop => 4
    case AtPop => 3
    case Emptied => 2
    case Processing => 5
    case Closing => 1
  }

  /** A bound of the steps the threads can take on their own. */
  function StepsLeft(s: Receiver): nat
  {
    9 * s.checking + 8 * s.counting + 7 * s.enqueueing + 6 * s.calls + 3 * |s.queue| + RunnerSteps(s.runner)
  }

  lemma InternalStepDecreases(s: Receiver, a: Action)
    requires Enabled(s, a) && Internal(a)
    ensures StepsLeft(Step(s, a)) < StepsLeft(s)
  {}

  /** No thread can take a step on its own exactly when none is inside and no call is enqueued. */
  lemma QuietExactlyWhenNobodyIsInside(s: Receiver)
    ensures (forall a :: Internal(a) ==> !Enabled(s, a)) <==> NobodyInside(s)
  {
    if !NobodyInside(s) {
      var a := SomeStep(s);
      assert Internal(a) && Enabled(s, a);
    }
  }

  lemma SomeStep(s: Receiver) returns (a: Action)
    requires !NobodyInside(s)
    ensures Internal(a) && Enabled(s, a)
  {
    a := if s.checking > 0 then CheckPending
         else if s.counting > 0 then CountPending
         else if s.enqueueing > 0 then EnqueueCall
         else
           match s.runner
           case Idle => BeginCall
           case Begun => CheckState
           case AtLoop => CheckRunning
           case AtPop => Pop
           case Emptied => Return(false, false)
           case Processing => Process(false, false)
           case Closing => Close;
  }

  /**
   Left to themselves the threads stop after a bounded number of steps, and then, unless the transport
   was closed, every datagram has been processed, in order, and no stop is waiting.
   */
  lemma EverythingIsProcessed(states: seq<Receiver>, actions: seq<Action>, from: nat)
    requires IsRun(states, actions) && NothingLeftAtStart(states, actions) && from <= |actions|
    requires forall i :: from <= i < |actions| ==> Internal(actions[i])
    ensures |actions| - from <= StepsLeft(states[from])
    ensures var s := states[|actions|];
            Live(s) && (forall a :: Internal(a) ==> !Enabled(s, a)) ==> s.processed == s.pushed && !s.stopping
  {
    BoundedSteps(states, actions, from, |actions|);
    NoLostWakeUp(states, actions, |actions|);
    QuietExactlyWhenNobodyIsInside(states[|actions|]);
  }

  lemma {:induction false} BoundedSteps(states: seq<Receiver>, actions: seq<Action>, from: nat, end: nat)
    requires IsRun(states, actions) && from <= end <= |actions|
    requires forall i :: from <= i < end ==> Internal(actions[i])
    ensures end - from + StepsLeft(states[end]) <= StepsLeft(states[from])
    decreases end
  {
    hide Step, StepsLeft, Enabled, Internal;
    if from != end {
      BoundedSteps(states, actions, from, end - 1);
      assert StepAt(states, actions, end - 1);
      InternalStepDecreases(states[end - 1], actions[end - 1]);
    }
  }

  /** A run in which a datagram comes before the start, and its call finds the transport unstarted. */
  function EarlyDatagram(m: Datagram): seq<Action>
  {
    [Push(m), CheckPending, CountPending, EnqueueCall, BeginCall, CheckState, Start(false)]
  }

  function After(s: Receiver, actions: seq<Action>): Option<Receiver>
    decreases |actions|
  {
    if |actions| == 0 then Some(s)
    else if !Enabled(s, actions[0]) then None
    else After(Step(s, actions[0]), actions[1..])
  }

  lemma AfterStep(s: Receiver, a: Action, rest: seq<Action>)
    requires Enabled(s, a)
    ensures After(s, [a] + rest) == After(Step(s, a), rest)
  {
    assert ([a] + rest)[1..] == rest;
  }

  /** The datagram is pushed and its call enqueued. */
  lemma EarlyPush(m: Datagram, rest: seq<Action>)
    ensures After(START, [Push(m)] + ([CheckPending] + ([CountPending] + ([EnqueueCall] + rest)))) ==
            After(START.(queue := [m], pushed := [m], calls := 1, pending := 1), rest)
  {
    var s1 := START.(queue := [m], pushed := [m], checking := 1);
    var s2 := s1.(checking := 0, counting := 1);
    var s3 := s2.(counting := 0, pending := 1, enqueueing := 1);
    assert [] + [m] == [m];
    hide After;
    AfterStep(s3, EnqueueCall, rest);
    AfterStep(s2, CountPending, [EnqueueCall] + rest);
    AfterStep(s1, CheckPending, [CountPending] + ([EnqueueCall] + rest));
    AfterStep(START, Push(m), [CheckPending] + ([CountPending] + ([EnqueueCall] + rest)));
  }

  /** The call returns, and the transport is started. */
  lemma EarlyCall(s: Receiver)
    requires s.phase == Unstarted && s.runner == Idle && s.calls == 1
    ensures After(s, [BeginCall] + ([CheckState] + ([Start(false)] + []))) ==
            Some(s.(calls := 0, pending := s.pending - 1, phase := Connecting))
  {
    var s1 := s.(calls := 0, pending := s.pending - 1, runner := Begun);
    var s2 := s1.(runner := Idle);
    assert After(s2.(phase := Connecting), []) == Some(s2.(phase := Connecting));
    hide After;
    AfterStep(s2, Start(false), []);
    AfterStep(s1, CheckState, [Start(false)] + []);
    AfterStep(s, BeginCall, [CheckState] + ([Start(false)] + []));
  }

  lemma EarlyRun(m: Datagram)
    ensures After(START, EarlyDatagram(m)) == Some(START.(phase := Connecting, queue := [m], pushed := [m]))
  {
    hide After;
    EarlyPush(m, [BeginCall] + ([CheckState] + ([Start(false)] + [])));
    EarlyCall(START.(queue := [m], pushed := [m], calls := 1, pending := 1));
    assert EarlyDatagram(m) == [Push(m)] + ([CheckPending] + ([CountPending] + ([EnqueueCall] +
                                 ([BeginCall] + ([CheckState] + ([Start(false)] + []))))));
  }

  /**
   The condition on the start is needed: the incoming callback is registered before the state changes,
   and a datagram in between is left in the queue of a live transport with nobody to process it, until
   a timer or another datagram starts a call.
   */
  lemma EarlyDatagramIsStranded(m: Datagram)
    ensures var r := After(START, EarlyDatagram(m));
            && r.Some? && Live(r.value) && r.value.queue == [m] && !Covered(r.value)
            && forall a :: Internal(a) ==> !Enabled(r.value, a)
  {
    EarlyRun(m);
    hide After, EarlyDatagram;
    QuietExactlyWhenNobodyIsInside(START.(phase := Connecting, queue := [m], pushed := [m]));
  }
}
