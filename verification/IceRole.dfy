/**
 The DTLS role as the ICE transport decides it from the remote description (RFC 5763 section 5), and
 two peers that exchange offers and answers through ordered channels, with crossing offers rolled back.
 */
module IceRole {
  import opened Bytes

  datatype Role = ActPass | Active | Passive

  datatype DescriptionType = Offer | Answer

  datatype Description = Description(descriptionType: DescriptionType, role: Role)

  datatype Error = IllegalRole | IncompatibleRoles

  /** The role afterwards, and the exception if one is thrown. */
  datatype Outcome = Accepted(role: Role) | Rejected(role: Role, error: Error)

  function Opposite(role: Role): Role
  {
    match role
    case ActPass => ActPass
    case Active => Passive
    case Passive => Active
  }

  /** An offer leaves the choice to the answerer. */
  function LocalDescription(role: Role, descriptionType: DescriptionType): Description
  {
    Description(descriptionType, if descriptionType == Offer then ActPass else role)
  }

  /** The role once the remote description is known; the first decision is kept. */
  function Decided(role: Role, remote: Role): Role
  {
    if role != ActPass then role else if remote == Active then Passive else Active
  }

  function SetRemote(role: Role, remote: Description): (o: Outcome)
  {
    if remote.descriptionType == Answer && remote.role == ActPass then Rejected(role, IllegalRole)
    else
      var decided := Decided(role, remote.role);
      if decided == remote.role then Rejected(decided, IncompatibleRoles) else Accepted(decided)
  }

  class IceTransport {
    var role: Role

    constructor ()
      ensures role == ActPass
    {
      role := ActPass;
    }

    method SetRemoteDescription(remote: Description) returns (o: Outcome)
      modifies this
      ensures o == SetRemote(old(role), remote) && role == o.role
    {
      if remote.descriptionType == Answer && remote.role == ActPass {
        return Rejected(role, IllegalRole);
      }
      if role == ActPass {
        role := if remote.role == Active then Passive else Active;
      }
      if role == remote.role {
        return Rejected(role, IncompatibleRoles);
      }
      return Accepted(role);
    }
  }

  /**
   For any remote description: it is accepted exactly when it is no answer that leaves the choice and
   does not claim the role this side already has; then the role is decided, and opposite to the remote
   one if that is decided.
   */
  lemma AcceptedExactlyWhenCompatible(role: Role, remote: Description)
    ensures SetRemote(role, remote).Accepted? <==>
            !(remote.descriptionType == Answer && remote.role == ActPass) && (role == ActPass || role != remote.role)
    ensures SetRemote(role, remote).Accepted? ==>
              var decided := SetRemote(role, remote).role;
              && decided != ActPass
              && (role != ActPass ==> decided == role)
              && (remote.role != ActPass ==> decided == Opposite(remote.role))
  {}

  // ----- Two peers -----

  /** What each of the two peers has, false for the first one and true for the second one. */
  datatype Both<T> = Both(first: T, second: T)
  {
    function Of(peer: bool): T
    {
      if peer then second else first
    }

    function With(peer: bool, value: T): Both<T>
    {
      if peer then this.(second := value) else this.(first := value)
    }
  }

  datatype Signaling = Stable | HaveLocalOffer | HaveRemoteOffer

  /**
   The descriptions on their way to each peer, in order. `crossed` tells whether an undecided peer ever got
   an offer while its own was outstanding, `clashed` whether a description was ever refused for its role.
   */
  datatype Peers = Peers(
    roles: Both<Role>,
    states: Both<Signaling>,
    signals: Both<seq<Description>>,
    crossed: bool,
    clashed: bool)

  datatype Action = MakeOffer(peer: bool) | MakeAnswer(peer: bool) | Receive(peer: bool)

  const START := Peers(Both(ActPass, ActPass), Both(Stable, Stable), Both([], []), false, false)

  /** Both peers may make offers at any time they have none to wait for or to answer. */
  predicate Enabled(p: Peers, a: Action)
  {
    match a
    case MakeOffer(peer) => p.states.Of(peer) == Stable
    case MakeAnswer(peer) => p.states.Of(peer) == HaveRemoteOffer
    case Receive(peer) => p.signals.Of(peer) != []
  }

  function Sent(p: Peers, peer: bool, descriptionType: DescriptionType, state: Signaling): Peers
  {
    var d := LocalDescription(p.roles.Of(peer), descriptionType);
    p.(signals := p.signals.With(!peer, p.signals.Of(!peer) + [d]), states := p.states.With(peer, state))
  }

  /** The role afterwards, and the state unless the role is refused; an offer has rolled back one's own by then. */
  function Applied(p: Peers, peer: bool, d: Description, accepted: Signaling, refused: Signaling): Peers
  {
    var o := SetRemote(p.roles.Of(peer), d);
    p.(roles := p.roles.With(peer, o.role),
       states := p.states.With(peer, if o.Accepted? then accepted else refused),
       clashed := p.clashed || o.Rejected?,
       crossed := p.crossed ||
                  (d.descriptionType == Offer && p.roles.Of(peer) == ActPass && p.states.Of(peer) == HaveLocalOffer))
  }

  /** An answer to no offer, and an offer while one has to be answered, are refused without being looked at. */
  function Received(p: Peers, peer: bool, d: Description): Peers
  {
    if d.descriptionType == Offer && p.states.Of(peer) != HaveRemoteOffer then Applied(p, peer, d, HaveRemoteOffer, Stable)
    else if d.descriptionType == Answer && p.states.Of(peer) == HaveLocalOffer then
      Applied(p, peer, d, Stable, HaveLocalOffer)
    else p
  }

  function Step(p: Peers, a: Action): Peers
    requires Enabled(p, a)
  {
    match a
    case MakeOffer(peer) => Sent(p, peer, Offer, HaveLocalOffer)
    case MakeAnswer(peer) => Sent(p, peer, Answer, Stable)
    case Receive(peer) =>
      var signals := p.signals.Of(peer);
      Received(p.(signals := p.signals.With(peer, signals[1..])), peer, signals[0])
  }

  // ----- The invariant of every run -----

  const OFFER := Description(Offer, ActPass)

  predicate BothDecided(p: Peers)
  {
    p.roles.first != ActPass && p.roles.second != ActPass
  }

  /** The offers of undecided peers are on their way. */
  predicate Undecided(p: Peers)
  {
    && p.roles == Both(ActPass, ActPass) && !p.crossed && !p.clashed
    && forall peer :: p.states.Of(peer) != HaveRemoteOffer &&
                      p.signals.Of(!peer) == if p.states.Of(peer) == HaveLocalOffer then [OFFER] else []
  }

  /** What the peer that decided first has sent since. */
  function SentSince(state: Signaling): seq<Description>
  {
    match state
    case HaveRemoteOffer => []
    case Stable => [Description(Answer, Active)]
    case HaveLocalOffer => [Description(Answer, Active), OFFER]
  }

  /** The peer has decided by the other's offer; its own one is still on its way exactly when they crossed. */
  predicate HalfDecided(p: Peers, peer: bool)
  {
    && p.roles.Of(peer) == Active && p.roles.Of(!peer) == ActPass && !p.clashed
    && p.states.Of(!peer) == HaveLocalOffer && p.signals.Of(peer) == []
    && p.signals.Of(!peer) == (if p.crossed then [OFFER] else []) + SentSince(p.states.Of(peer))
  }

  /** Offers leave the choice, and answers have the role of their sender. */
  predicate Truthful(p: Peers, peer: bool, d: Description)
  {
    d.role == if d.descriptionType == Offer then ActPass else p.roles.Of(!peer)
  }

  ghost predicate Settled(p: Peers)
  {
    && BothDecided(p) && (p.roles.first == p.roles.second <==> p.crossed) && (p.clashed ==> p.crossed)
    && forall peer, d :: d in p.signals.Of(peer) ==> Truthful(p, peer, d)
  }

  ghost predicate Inv(p: Peers)
  {
    Undecided(p) || HalfDecided(p, false) || HalfDecided(p, true) || Settled(p)
  }

  lemma UndecidedStep(p: Peers, a: Action)
    requires Undecided(p) && Enabled(p, a)
    ensures Undecided(Step(p, a)) || (a.Receive? && HalfDecided(Step(p, a), a.peer))
  {
    var x := a.peer;
    assert p.states.Of(!x) != HaveRemoteOffer && p.states.Of(x) != HaveRemoteOffer && !!x == x;
    var t := Step(p, a);
    if a.Receive? {
      assert p.states.Of(!x) == HaveLocalOffer && p.signals.Of(x) == [OFFER];
      assert [OFFER][1..] == [];
      assert t.signals.Of(x) == [] && t.signals.Of(!x) == if p.states.Of(x) == HaveLocalOffer then [OFFER] else [];
      assert t.states.Of(x) == HaveRemoteOffer && SentSince(HaveRemoteOffer) == [];
    } else {
      assert t.signals.Of(!x) == [OFFER] && t.states.Of(x) == HaveLocalOffer;
      assert t.signals.Of(x) == p.signals.Of(x);
      forall peer
        ensures t.states.Of(peer) != HaveRemoteOffer
        ensures t.signals.Of(!peer) == if t.states.Of(peer) == HaveLocalOffer then [OFFER] else []
      {
        assert p.states.Of(peer) != HaveRemoteOffer;
        assert peer == x || peer == !x;
      }
    }
  }

  lemma HalfDecidedStep(p: Peers, a: Action, peer: bool)
    requires HalfDecided(p, peer) && Enabled(p, a)
    ensures HalfDecided(Step(p, a), peer) || Settled(Step(p, a))
    ensures Step(p, a).roles.Of(peer) == p.roles.Of(peer)
  {
    var signals := p.signals.Of(!peer);
    if p.crossed {
      assert [OFFER] + SentSince(p.states.Of(peer)) + [LocalDescription(Active, Answer)]
          == [OFFER] + (SentSince(p.states.Of(peer)) + [LocalDescription(Active, Answer)]);
    }
  }

  lemma SettledStep(p: Peers, a: Action)
    requires Settled(p) && Enabled(p, a)
    ensures Settled(Step(p, a)) && Step(p, a).roles == p.roles
  {
    var t := Step(p, a);
    if a.Receive? {
      var signals := p.signals.Of(a.peer);
      assert signals[0] in signals;
      assert Truthful(p, a.peer, signals[0]);
      assert forall d :: d in signals[1..] ==> d in signals;
    }
    forall peer, d | d in t.signals.Of(peer)
      ensures Truthful(t, peer, d)
    {
      if d in p.signals.Of(peer) {
        assert Truthful(p, peer, d);
      }
    }
  }

  /** A role once decided never changes. */
  lemma StepKeeps(p: Peers, a: Action)
    requires Inv(p) && Enabled(p, a)
    ensures Inv(Step(p, a))
    ensures forall peer :: p.roles.Of(peer) != ActPass ==> Step(p, a).roles.Of(peer) == p.roles.Of(peer)
  {
    hide Step;
    if Undecided(p) {
      UndecidedStep(p, a);
    } else if Settled(p) {
      SettledStep(p, a);
    } else {
      var peer :| HalfDecided(p, peer);
      HalfDecidedStep(p, a, peer);
    }
  }

  /** Action i leads from state i to the next one. */
  predicate StepAt(states: seq<Peers>, actions: seq<Action>, i: int)
  {
    && 0 <= i < |actions| && i + 1 < |states|
    && Enabled(states[i], actions[i]) && states[i + 1] == Step(states[i], actions[i])
  }

  ghost predicate IsRun(states: seq<Peers>, actions: seq<Action>)
  {
    && |states| == |actions| + 1 && states[0] == START
    && forall i :: 0 <= i < |actions| ==> StepAt(states, actions, i)
  }

  lemma {:induction false} RunKeeps(states: seq<Peers>, actions: seq<Action>, i: nat)
    requires IsRun(states, actions) && i < |states|
    ensures Inv(states[i])
  {
    hide Inv, Step;
    if i == 0 {
      StartsUndecided();
    } else {
      RunKeeps(states, actions, i - 1);
      assert StepAt(states, actions, i - 1);
      StepKeeps(states[i - 1], actions[i - 1]);
    }
  }

  lemma StartsUndecided()
    ensures Inv(START)
  {
    assert Undecided(START);
  }

  lemma InvMeans(p: Peers)
    requires Inv(p)
    ensures BothDecided(p) ==> (p.roles.first == p.roles.second <==> p.crossed)
    ensures BothDecided(p) && !p.crossed ==> p.roles.second == Opposite(p.roles.first)
    ensures p.clashed ==> p.crossed
  {}

  /**
   In every run of offers and answers, made at any time by both peers: once both roles are decided they
   are the same exactly when two offers of undecided peers crossed, and opposite otherwise; only then is a
   description ever refused for its role; and a role once decided never changes.
   */
  lemma {:induction false} RolesAreComplementary(states: seq<Peers>, actions: seq<Action>, i: nat, j: nat, peer: bool)
    requires IsRun(states, actions) && i <= j < |states|
    ensures var p := states[j];
            && (BothDecided(p) ==> (p.roles.first == p.roles.second <==> p.crossed))
            && (BothDecided(p) && !p.crossed ==> p.roles.second == Opposite(p.roles.first))
            && (p.clashed ==> p.crossed)
    ensures states[i].roles.Of(peer) != ActPass ==> states[j].roles.Of(peer) == states[i].roles.Of(peer)
    decreases j
  {
    hide Step, Enabled, Inv, BothDecided, Opposite;
    RunKeeps(states, actions, j);
    InvMeans(states[j]);
    if i < j {
      RolesAreComplementary(states, actions, i, j - 1, peer);
      RunKeeps(states, actions, j - 1);
      assert StepAt(states, actions, j - 1);
      StepKeeps(states[j - 1], actions[j - 1]);
    }
  }

  /** Both peers make an offer and then get the other's. */
  const CROSSING := [MakeOffer(false), MakeOffer(true), Receive(true), Receive(false)]

  function After(p: Peers, actions: seq<Action>): Option<Peers>
    decreases |actions|
  {
    if actions == [] then Some(p)
    else if !Enabled(p, actions[0]) then None
    else After(Step(p, actions[0]), actions[1..])
  }

  /** Offers that cross make both sides active, and each refuses the role that the other one claims. */
  lemma CrossingOffersClash()
    ensures var r := After(START, CROSSING);
            r.Some? && r.value.crossed && r.value.roles == Both(Active, Active)
    ensures SetRemote(Active, LocalDescription(Active, Answer)) == Rejected(Active, IncompatibleRoles)
  {
    var s1 := Step(START, MakeOffer(false));
    var s2 := Step(s1, MakeOffer(true));
    var s3 := Step(s2, Receive(true));
    var s4 := Step(s3, Receive(false));
    assert After(s4, []) == Some(s4);
    assert After(s3, [Receive(false)]) == Some(s4);
    assert After(s2, [Receive(true), Receive(false)]) == Some(s4);
    assert After(s1, [MakeOffer(true), Receive(true), Receive(false)]) == Some(s4);
  }
}
