/**
 Two peer connections that agree on their roles by offers and answers and then open data channels. The
 identifiers each assigns on its own never collide with the other's, and their open messages are never
 refused for their parity; an identifier the user supplied may, exactly when its parity is wrong.
 */
module TwoPeers {
  import opened Bytes
  import opened DataChannels
  import R = IceRole

  /** An open message for a stream, by its sender. */
  datatype Opening = Opening(peer: bool, stream: int)

  /**
   `inBand` are the channels each peer has created that are not negotiated by the user, and so send an open
   message; `supplied` are the streams users gave them, `openings` and `received` the open messages so far.
   */
  datatype System = System(
    signaling: R.Peers,
    channels: R.Both<Channels>,
    inBand: R.Both<set<int>>,
    supplied: set<Opening>,
    openings: set<Opening>,
    received: set<Opening>,
    rejected: bool)

  datatype Action =
    | Signal(action: R.Action)
    | Create(peer: bool, channel: int, id: Option<int>, negotiated: bool, maxStream: int)
    | Drop(peer: bool, channel: int)
    | AssignStreams(peer: bool, maxStream: int)
    | Open(peer: bool, channel: int)
    | ReceiveOpen(opening: Opening, channel: int)

  const EMPTY := Channels({}, map[], [], map[])

  const START := System(R.START, R.Both(EMPTY, EMPTY), R.Both({}, {}), {}, {}, {}, false)

  /** The transports connect only between a DTLS client and a DTLS server. */
  predicate Connected(s: System)
  {
    R.BothDecided(s.signaling) && s.signaling.roles.first != s.signaling.roles.second
  }

  predicate IsNew(s: System, peer: bool, channel: int)
  {
    channel !in s.channels.Of(peer).streams && channel !in s.channels.Of(peer).unassigned
  }

  predicate Enabled(s: System, a: Action)
  {
    match a
    case Signal(action) => R.Enabled(s.signaling, action)
    case Create(peer, channel, id, _, maxStream) =>
      IsNew(s, peer, channel) && (id.Some? ==> 0 <= id.value < TWO_TO_THE_16) && maxStream < MAX_SCTP_STREAMS_COUNT
    case Drop(_, _) => true
    case AssignStreams(_, maxStream) => Connected(s) && maxStream < MAX_SCTP_STREAMS_COUNT
    case Open(peer, channel) =>
      Connected(s) && channel in s.inBand.Of(peer) && channel in s.channels.Of(peer).alive &&
      channel in s.channels.Of(peer).streams
    case ReceiveOpen(opening, channel) => opening in s.openings && IsNew(s, !opening.peer, channel)
  }

  function Step(s: System, a: Action): System
    requires Enabled(s, a)
  {
    match a
    case Signal(action) => s.(signaling := R.Step(s.signaling, action))
    case Create(peer, channel, id, negotiated, maxStream) =>
      var o := Created(s.channels.Of(peer), channel, id, maxStream);
      var others := s.inBand.Of(peer) - {channel};
      s.(channels := s.channels.With(peer, o.channels),
         inBand := s.inBand.With(peer, if negotiated || o.error.Some? then others else others + {channel}),
         supplied := s.supplied + if id.Some? && !negotiated && o.error.None? then {Opening(peer, id.value)} else {})
    case Drop(peer, channel) =>
      var c := s.channels.Of(peer);
      s.(channels := s.channels.With(peer, c.(alive := c.alive - {channel})))
    case AssignStreams(peer, maxStream) =>
      s.(channels := s.channels.With(peer, Assign(s.channels.Of(peer), s.signaling.roles.Of(peer), maxStream).channels))
    case Open(peer, channel) =>
      s.(openings := s.openings + {Opening(peer, s.channels.Of(peer).streams[channel])})
    case ReceiveOpen(opening, channel) =>
      var receiver := !opening.peer;
      var o := Opened(s.channels.Of(receiver), s.signaling.roles.Of(receiver), opening.stream, channel);
      var t := s.(received := s.received + {opening}, inBand := s.inBand.With(receiver, s.inBand.Of(receiver) - {channel}));
      if o.None? then t.(rejected := true) else t.(channels := s.channels.With(receiver, o.value))
  }

  /** Action i leads from state i to the next one. */
  predicate StepAt(states: seq<System>, actions: seq<Action>, i: int)
  {
    && 0 <= i < |actions| && i + 1 < |states|
    && Enabled(states[i], actions[i]) && states[i + 1] == Step(states[i], actions[i])
  }

  ghost predicate IsRun(states: seq<System>, actions: seq<Action>)
  {
    && |states| == |actions| + 1 && states[0] == START
    && forall i :: 0 <= i < |actions| ==> StepAt(states, actions, i)
  }

  /** The stream has the parity that the sender's role gives it. */
  predicate RightParity(s: System, opening: Opening)
  {
    opening.stream % 2 == Parity(s.signaling.roles.Of(opening.peer))
  }

  /** A stream of the user's, or one with its peer's parity, assigned on a connection. */
  predicate Lawful(s: System, opening: Opening)
  {
    && 0 <= opening.stream < MAX_SCTP_STREAMS_COUNT
    && (opening in s.supplied || (Connected(s) && RightParity(s, opening)))
  }

  ghost predicate ChannelsLawful(s: System, peer: bool)
  {
    var c := s.channels.Of(peer);
    forall channel :: channel in c.streams && channel in s.inBand.Of(peer) ==>
      Lawful(s, Opening(peer, c.streams[channel]))
  }

  ghost predicate Inv(s: System)
  {
    && R.Inv(s.signaling)
    && ChannelsLawful(s, false) && ChannelsLawful(s, true)
    && (forall opening :: opening in s.openings ==> Lawful(s, opening) && Connected(s))
    && s.received <= s.openings
    && (s.rejected <==> exists opening :: opening in s.received && !RightParity(s, opening))
  }

  // ----- Every step -----

  /** Roles that are decided stay, so what is lawful stays lawful. */
  lemma LawfulStays(s: System, t: System, opening: Opening)
    requires Lawful(s, opening) && s.supplied <= t.supplied
    requires Connected(s) ==> t.signaling.roles == s.signaling.roles
    ensures Lawful(t, opening)
  {}

  lemma SignalKeeps(s: System, action: R.Action)
    requires Inv(s) && R.Enabled(s.signaling, action)
    ensures Inv(Step(s, Signal(action)))
  {
    var t := Step(s, Signal(action));
    R.StepKeeps(s.signaling, action);
    hide R.Inv, R.Step;
    if Connected(s) {
      assert t.signaling.roles.Of(false) == s.signaling.roles.Of(false);
      assert t.signaling.roles.Of(true) == s.signaling.roles.Of(true);
      assert t.signaling.roles == s.signaling.roles;
    }
    forall opening | Lawful(s, opening)
      ensures Lawful(t, opening)
    {
      LawfulStays(s, t, opening);
    }
    assert forall opening :: opening in s.received ==> RightParity(t, opening) == RightParity(s, opening);
  }

  /** A step that leaves signaling and messages alone and gives lawful streams. */
  lemma ChannelsChange(s: System, t: System)
    requires Inv(s) && t.signaling == s.signaling && s.supplied <= t.supplied
    requires t.openings == s.openings && t.received == s.received && t.rejected == s.rejected
    requires ChannelsLawful(t, false) && ChannelsLawful(t, true)
    ensures Inv(t)
  {
    hide R.Inv, ChannelsLawful;
    forall opening | opening in t.openings
      ensures Lawful(t, opening) && Connected(t)
    {
      LawfulStays(s, t, opening);
    }
    assert forall opening :: RightParity(t, opening) == RightParity(s, opening);
  }

  /** The channels of a peer whose streams are those from before or lawful ones. */
  lemma StreamsStay(s: System, t: System, peer: bool)
    requires ChannelsLawful(s, peer) && t.signaling == s.signaling && s.supplied <= t.supplied
    requires forall channel :: channel in t.channels.Of(peer).streams && channel in t.inBand.Of(peer) ==>
               Lawful(t, Opening(peer, t.channels.Of(peer).streams[channel])) ||
               (channel in s.inBand.Of(peer) && channel in s.channels.Of(peer).streams &&
                t.channels.Of(peer).streams[channel] == s.channels.Of(peer).streams[channel])
    ensures ChannelsLawful(t, peer)
  {
    forall channel | channel in t.channels.Of(peer).streams && channel in t.inBand.Of(peer)
      ensures Lawful(t, Opening(peer, t.channels.Of(peer).streams[channel]))
    {
      if !Lawful(t, Opening(peer, t.channels.Of(peer).streams[channel])) {
        LawfulStays(s, t, Opening(peer, s.channels.Of(peer).streams[channel]));
      }
    }
  }

  lemma CreateKeeps(s: System, a: Action)
    requires Inv(s) && a.Create? && Enabled(s, a)
    ensures Inv(Step(s, a))
  {
    var t := Step(s, a);
    StreamsStay(s, t, a.peer);
    StreamsStay(s, t, !a.peer);
    ChannelsChange(s, t);
  }

  lemma DropKeeps(s: System, a: Action)
    requires Inv(s) && a.Drop?
    ensures Inv(Step(s, a))
  {
    var t := Step(s, a);
    StreamsStay(s, t, a.peer);
    StreamsStay(s, t, !a.peer);
    ChannelsChange(s, t);
  }

  lemma AssignKeeps(s: System, a: Action)
    requires Inv(s) && a.AssignStreams? && Enabled(s, a)
    ensures Inv(Step(s, a))
  {
    var t := Step(s, a);
    var c, role := s.channels.Of(a.peer), s.signaling.roles.Of(a.peer);
    hide R.Inv;
    forall channel | channel in t.channels.Of(a.peer).streams
      ensures channel in c.streams ==> t.channels.Of(a.peer).streams[channel] == c.streams[channel]
      ensures channel !in c.streams ==> Lawful(t, Opening(a.peer, t.channels.Of(a.peer).streams[channel]))
    {
      NewIdsHaveParity(c, c.unassigned, Parity(role), a.maxStream, channel);
    }
    hide Step;
    StreamsStay(s, t, a.peer);
    StreamsStay(s, t, !a.peer);
    ChannelsChange(s, t);
  }

  lemma OpenKeeps(s: System, a: Action)
    requires Inv(s) && a.Open? && Enabled(s, a)
    ensures Inv(Step(s, a))
  {
    var t := Step(s, a);
    var opening := Opening(a.peer, s.channels.Of(a.peer).streams[a.channel]);
    assert ChannelsLawful(s, a.peer);
    hide R.Inv;
    assert Lawful(s, opening);
    assert forall o :: RightParity(t, o) == RightParity(s, o) && Lawful(t, o) == Lawful(s, o);
  }

  /** An open message is refused exactly when its stream does not have its sender's parity. */
  lemma RefusedExactly(s: System, opening: Opening, channel: int)
    requires Connected(s)
    ensures var receiver := !opening.peer;
            Opened(s.channels.Of(receiver), s.signaling.roles.Of(receiver), opening.stream, channel).None? <==>
            !RightParity(s, opening)
  {}

  lemma ReceiveKeeps(s: System, a: Action)
    requires Inv(s) && a.ReceiveOpen? && Enabled(s, a)
    ensures Inv(Step(s, a))
  {
    var t := Step(s, a);
    RefusedExactly(s, a.opening, a.channel);
    hide R.Inv;
    StreamsStay(s, t, a.opening.peer);
    StreamsStay(s, t, !a.opening.peer);
    assert forall o :: RightParity(t, o) == RightParity(s, o) && Lawful(t, o) == Lawful(s, o);
    assert forall o :: o in t.received <==> o in s.received || o == a.opening;
  }

  lemma StepKeeps(s: System, a: Action)
    requires Inv(s) && Enabled(s, a)
    ensures Inv(Step(s, a))
  {
    hide Step, Inv;
    match a
    case Signal(action) => SignalKeeps(s, action);
    case Create(_, _, _, _, _) => CreateKeeps(s, a);
    case Drop(_, _) => DropKeeps(s, a);
    case AssignStreams(_, _) => AssignKeeps(s, a);
    case Open(_, _) => OpenKeeps(s, a);
    case ReceiveOpen(_, _) => ReceiveKeeps(s, a);
  }

  lemma {:induction false} RunKeeps(states: seq<System>, actions: seq<Action>, i: nat)
    requires IsRun(states, actions) && i < |states|
    ensures Inv(states[i])
  {
    if i == 0 {
      R.StartsUndecided();
    } else {
      hide Step, Inv;
      RunKeeps(states, actions, i - 1);
      assert StepAt(states, actions, i - 1);
      StepKeeps(states[i - 1], actions[i - 1]);
    }
  }

  // ----- Over whole runs -----

  /**
   In every run of offers and answers, crossing or not, of channels created with and without identifiers
   of the user's and dropped on both sides, and of streams assigned and opened while connected: an open
   message has been refused exactly when one with the wrong parity was received, and only a stream that a
   user supplied can have it.
   */
  lemma RejectedExactly(states: seq<System>, actions: seq<Action>, i: nat)
    requires IsRun(states, actions) && i < |states|
    ensures states[i].rejected <==> exists opening :: opening in states[i].received && !RightParity(states[i], opening)
    ensures forall opening :: opening in states[i].openings && !RightParity(states[i], opening) ==>
              opening in states[i].supplied
    ensures states[i].received <= states[i].openings
  {
    RunKeeps(states, actions, i);
  }

  /** A stream that both peers open is one that a user supplied to the peer whose parity it does not have. */
  lemma CollidingIsSupplied(states: seq<System>, actions: seq<Action>, i: nat, stream: int)
    requires IsRun(states, actions) && i < |states|
    requires Opening(false, stream) in states[i].openings && Opening(true, stream) in states[i].openings
    ensures exists peer :: !RightParity(states[i], Opening(peer, stream)) && Opening(peer, stream) in states[i].supplied
  {
    RunKeeps(states, actions, i);
    var s := states[i];
    assert Lawful(s, Opening(false, stream)) && Lawful(s, Opening(true, stream)) && Connected(s);
    assert !RightParity(s, Opening(false, stream)) || !RightParity(s, Opening(true, stream));
  }

  /**
   When every stream a user supplied has its own side's parity, as it does when no user supplies any, no open
   message is refused, no stream is opened by both peers, and each side opens streams of its parity only.
   */
  lemma StreamsNeverCollide(states: seq<System>, actions: seq<Action>, i: nat, stream: int)
    requires IsRun(states, actions) && i < |states|
    requires forall opening :: opening in states[i].supplied ==> RightParity(states[i], opening)
    ensures !states[i].rejected
    ensures !(Opening(false, stream) in states[i].openings && Opening(true, stream) in states[i].openings)
    ensures forall peer :: Opening(peer, stream) in states[i].openings ==>
              0 <= stream < MAX_SCTP_STREAMS_COUNT &&
              (stream % 2 == 0 <==> states[i].signaling.roles.Of(peer) == R.Active)
  {
    RunKeeps(states, actions, i);
    RejectedExactly(states, actions, i);
    if Opening(false, stream) in states[i].openings && Opening(true, stream) in states[i].openings {
      CollidingIsSupplied(states, actions, i, stream);
    }
    forall peer | Opening(peer, stream) in states[i].openings
      ensures Lawful(states[i], Opening(peer, stream)) && RightParity(states[i], Opening(peer, stream))
    {}
  }

  // ----- A channel without an identifier -----

  /** A live in-band channel that waits for a stream, or has one with its side's parity. */
  predicate Served(s: System, peer: bool, channel: int)
  {
    var c := s.channels.Of(peer);
    && channel in c.alive && channel in s.inBand.Of(peer)
    && (channel in c.unassigned || channel in c.streams)
    && (channel in c.streams ==> Connected(s) && RightParity(s, Opening(peer, c.streams[channel])))
  }

  lemma CreatedIsServed(s: System, peer: bool, channel: int, maxStream: int)
    requires Enabled(s, Create(peer, channel, None, false, maxStream))
    ensures Served(Step(s, Create(peer, channel, None, false, maxStream)), peer, channel)
  {}

  lemma {:induction false} AssignKeepsList(c: Channels, todo: seq<int>, parity: int, maxStream: int)
    ensures var o := AssignFrom(c, todo, parity, maxStream);
            o.channels.unassigned == if o.error == None then [] else c.unassigned
    decreases |todo|
  {
    if todo != [] {
      if todo[0] !in c.alive {
        AssignKeepsList(c, todo[1..], parity, maxStream);
      } else if NextFree(c, parity, maxStream).Some? && todo[0] !in c.streams {
        AssignKeepsList(AssignOne(c, todo[0], NextFree(c, parity, maxStream).value), todo[1..], parity, maxStream);
      }
    }
  }

  lemma {:induction false} LiveIsMember(todo: seq<int>, alive: set<int>, channel: int)
    requires channel in alive
    ensures channel in AliveOnly(todo, alive) <==> channel in todo
  {
    if todo != [] {
      LiveIsMember(todo[1..], alive, channel);
      SplitFirst(todo);
    }
  }

  /** Assigning keeps a channel served; when it succeeds, the channel has a stream. */
  lemma AssignServes(s: System, peer: bool, maxStream: int, channel: int)
    requires Served(s, peer, channel) && Enabled(s, AssignStreams(peer, maxStream))
    ensures var t := Step(s, AssignStreams(peer, maxStream));
            && Served(t, peer, channel)
            && (Assign(s.channels.Of(peer), s.signaling.roles.Of(peer), maxStream).error == None ==>
                  channel in t.channels.Of(peer).streams)
  {
    var c, role := s.channels.Of(peer), s.signaling.roles.Of(peer);
    AssignKeepsList(c, c.unassigned, Parity(role), maxStream);
    FailureKeeps(c, c.unassigned, Parity(role), maxStream);
    NewIdsHaveParity(c, c.unassigned, Parity(role), maxStream, channel);
    LiveIsMember(c.unassigned, c.alive, channel);
    hide AssignFrom, AliveOnly;
    AssignedExactly(c, role, maxStream);
  }

  lemma CreateServes(s: System, a: Action, peer: bool, channel: int)
    requires Served(s, peer, channel) && Enabled(s, a) && a.Create?
    ensures Served(Step(s, a), peer, channel)
  {}

  lemma OpenServes(s: System, a: Action, peer: bool, channel: int)
    requires Served(s, peer, channel) && Enabled(s, a) && (a.Open? || a.ReceiveOpen?)
    ensures Served(Step(s, a), peer, channel)
  {}

  lemma DropServes(s: System, a: Action, peer: bool, channel: int)
    requires Served(s, peer, channel) && a.Drop? && a != Drop(peer, channel)
    ensures Served(Step(s, a), peer, channel)
  {}

  lemma StepServes(s: System, a: Action, peer: bool, channel: int)
    requires R.Inv(s.signaling) && Served(s, peer, channel) && Enabled(s, a) && a != Drop(peer, channel)
    ensures Served(Step(s, a), peer, channel)
  {
    if a.Signal? {
      R.StepKeeps(s.signaling, a.action);
      hide R.Inv, R.Step, R.Enabled;
    } else if a.AssignStreams? {
      if a.peer == peer {
        AssignServes(s, peer, a.maxStream, channel);
      } else {
        hide R.Inv;
      }
    } else if a.Create? {
      CreateServes(s, a, peer, channel);
    } else if a.Drop? {
      DropServes(s, a, peer, channel);
    } else {
      OpenServes(s, a, peer, channel);
    }
  }

  lemma {:induction false} RunServes(states: seq<System>, actions: seq<Action>, i: nat, j: nat, peer: bool, channel: int)
    requires IsRun(states, actions) && i <= j < |states| && Served(states[i], peer, channel)
    requires forall k :: i <= k < j ==> actions[k] != Drop(peer, channel)
    ensures Served(states[j], peer, channel)
    decreases j
  {
    hide Served, Step, Enabled;
    if i < j {
      RunServes(states, actions, i, j - 1, peer, channel);
      RunKeeps(states, actions, j - 1);
      assert StepAt(states, actions, j - 1);
      StepServes(states[j - 1], actions[j - 1], peer, channel);
    }
  }

  /**
   A channel that was created in action i without an identifier, and not dropped since, has a stream of its side's
   parity once assigning has succeeded in action j, whatever else happened, and can be opened then.
   */
  lemma WaitingIsOpenable(states: seq<System>, actions: seq<Action>, i: nat, j: nat, peer: bool, channel: int, anyMax: int)
    requires IsRun(states, actions) && i < j < |actions|
    requires actions[i] == Create(peer, channel, None, false, anyMax)
    requires forall k :: i < k < j ==> actions[k] != Drop(peer, channel)
    requires actions[j].AssignStreams? && actions[j].peer == peer
    requires Assign(states[j].channels.Of(peer), states[j].signaling.roles.Of(peer), actions[j].maxStream).error == None
    ensures var s := states[j + 1];
            && channel in s.channels.Of(peer).streams && Connected(s)
            && RightParity(s, Opening(peer, s.channels.Of(peer).streams[channel]))
            && Enabled(s, Open(peer, channel))
  {
    assert StepAt(states, actions, i) && StepAt(states, actions, j);
    CreatedIsServed(states[i], peer, channel, anyMax);
    hide Step, Assign, Served;
    RunServes(states, actions, i + 1, j, peer, channel);
    AssignServes(states[j], peer, actions[j].maxStream, channel);
    ServedIs(states[j + 1], peer, channel);
  }

  lemma ServedIs(s: System, peer: bool, channel: int)
    requires Served(s, peer, channel) && channel in s.channels.Of(peer).streams
    ensures Connected(s) && RightParity(s, Opening(peer, s.channels.Of(peer).streams[channel]))
    ensures Enabled(s, Open(peer, channel))
  {}

  // ----- A failing run -----

  function After(s: System, actions: seq<Action>): Option<System>
    decreases |actions|
  {
    if actions == [] then Some(s)
    else if !Enabled(s, actions[0]) then None
    else After(Step(s, actions[0]), actions[1..])
  }

  lemma AfterStep(s: System, a: Action, rest: seq<Action>)
    requires Enabled(s, a)
    ensures After(s, [a] + rest) == After(Step(s, a), rest)
  {
    assert ([a] + rest)[1..] == rest;
  }

  /** The first peer makes an offer, which the second one answers. */
  const NEGOTIATING :=
    [Signal(R.MakeOffer(false)), Signal(R.Receive(true)), Signal(R.MakeAnswer(true)), Signal(R.Receive(false))]

  lemma FourAndRest<T>(a: seq<T>, rest: seq<T>)
    requires |a| == 4
    ensures [a[0]] + ([a[1]] + ([a[2]] + ([a[3]] + rest))) == a + rest
  {}

  lemma Negotiated(rest: seq<Action>) returns (s: System)
    ensures After(START, NEGOTIATING + rest) == After(s, rest)
    ensures s == START.(signaling := s.signaling) && s.signaling.roles == R.Both(R.Passive, R.Active)
  {
    var a := NEGOTIATING;
    var s1 := Step(START, a[0]);
    assert s1.signaling.signals.second == [R.OFFER];
    var s2 := Step(s1, a[1]);
    assert s2.signaling.roles == R.Both(R.ActPass, R.Active) && s2.signaling.states.second == R.HaveRemoteOffer;
    var s3 := Step(s2, a[2]);
    assert s3.signaling.signals.first == [R.Description(R.Answer, R.Active)];
    s := Step(s3, a[3]);
    hide Step, Enabled, After;
    AfterStep(s3, a[3], rest);
    AfterStep(s2, a[2], [a[3]] + rest);
    AfterStep(s1, a[1], [a[2]] + ([a[3]] + rest));
    AfterStep(START, a[0], [a[1]] + ([a[2]] + ([a[3]] + rest)));
    FourAndRest(a, rest);
  }

  /** Then the second one's user supplies the identifier of a channel, which it opens. */
  function Supplying(stream: int): seq<Action>
  {
    [Create(true, 0, Some(stream), false, MAX_SCTP_STREAMS_COUNT - 1), Open(true, 0), ReceiveOpen(Opening(true, stream), 1)]
  }

  /** The answerer is the DTLS client; an odd identifier that its user supplies is refused. */
  lemma SuppliedIsRefused(stream: int)
    requires 0 <= stream < MAX_SCTP_STREAMS_COUNT && stream % 2 == 1
    ensures var r := After(START, NEGOTIATING + Supplying(stream)); r.Some? && r.value.rejected
  {
    var a := Supplying(stream);
    var s := Negotiated(a);
    var s1 := Step(s, a[0]);
    assert 0 in s1.channels.second.streams && s1.channels.second.streams[0] == stream;
    assert 0 in s1.channels.second.alive && 0 in s1.inBand.second;
    var s2 := Step(s1, a[1]);
    assert Opening(true, stream) in s2.openings && s2.channels.first == EMPTY;
    assert s2.signaling.roles == R.Both(R.Passive, R.Active);
    RefusedExactly(s2, Opening(true, stream), 1);
    var s3 := Step(s2, a[2]);
    assert s3.rejected;
    hide Step, Enabled, After;
    AfterStep(s2, a[2], []);
    AfterStep(s1, a[1], [a[2]]);
    AfterStep(s, a[0], [a[1], a[2]]);
    assert After(s3, []) == Some(s3) by { NothingAfter(s3); }
  }

  lemma NothingAfter(s: System)
    ensures After(s, []) == Some(s)
  {}
}
