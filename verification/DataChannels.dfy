/**
 How a peer connection assigns stream identifiers to its data channels (RFC 8832 section 6). The map
 from streams to channels holds weak references: an entry may be that of a channel that is gone.
 */
module DataChannels {
  import opened Bytes
  import opened IceRole

  const MAX_SCTP_STREAMS_COUNT: int := 1024

  /** Channels are known by a number; `entries` are the map's, `streams` the channels' own identifiers. */
  datatype Channels = Channels(alive: set<int>, entries: map<int, int>, unassigned: seq<int>, streams: map<int, int>)

  datatype Error = TooManyDataChannels | StreamAlreadyAssigned | StreamTooHigh

  function Parity(role: Role): (parity: int)
    ensures parity == 0 || parity == 1
  {
    if role == Active then 0 else 1
  }

  /** A stream is in use when its entry is that of a channel that is alive. */
  predicate InUse(c: Channels, stream: int)
  {
    stream in c.entries && c.entries[stream] in c.alive
  }

  function NextFree(c: Channels, stream: int, maxStream: int): (free: Option<int>)
    decreases maxStream - stream
  {
    if stream > maxStream then None
    else if InUse(c, stream) then NextFree(c, stream + 2, maxStream)
    else Some(stream)
  }

  /** Adding to the map does nothing when the stream has an entry, be it that of a channel that is gone. */
  function Emplace(entries: map<int, int>, stream: int, channel: int): map<int, int>
  {
    if stream in entries then entries else entries[stream := channel]
  }

  function AssignOne(c: Channels, channel: int, stream: int): Channels
  {
    c.(streams := c.streams[channel := stream], entries := Emplace(c.entries, stream, channel))
  }

  /** The channels afterwards, and the exception that ended the loop. */
  datatype Outcome = Outcome(channels: Channels, error: Option<Error>)

  function AssignFrom(c: Channels, todo: seq<int>, parity: int, maxStream: int): (o: Outcome)
    decreases |todo|
  {
    if todo == [] then Outcome(c.(unassigned := []), None)
    else if todo[0] !in c.alive then AssignFrom(c, todo[1..], parity, maxStream)
    else
      match NextFree(c, parity, maxStream)
      case None => Outcome(c, Some(TooManyDataChannels))
      case Some(stream) =>
        if todo[0] in c.streams then Outcome(c, Some(StreamAlreadyAssigned))
        else AssignFrom(AssignOne(c, todo[0], stream), todo[1..], parity, maxStream)
  }

  function Assign(c: Channels, role: Role, maxStream: int): (o: Outcome)
  {
    AssignFrom(c, c.unassigned, Parity(role), maxStream)
  }

  /** Removes the entries of channels that are gone. */
  function Cleaned(c: Channels): Channels
  {
    c.(entries := map stream | stream in c.entries && c.entries[stream] in c.alive :: c.entries[stream])
  }

  /** A new channel, with the identifier the user supplied or waiting for one. */
  function Created(c: Channels, channel: int, id: Option<int>, maxStream: int): (o: Outcome)
  {
    var d := Cleaned(c).(alive := c.alive + {channel});
    if id.None? then Outcome(d.(unassigned := d.unassigned + [channel]), None)
    else if id.value > maxStream then Outcome(Cleaned(c), Some(StreamTooHigh))
    else Outcome(AssignOne(d, channel, id.value), None)
  }

  /** The parity that the streams opened by the remote peer must have. */
  function RemoteParity(role: Role): (parity: int)
    ensures parity == 0 || parity == 1
  {
    if role == Active then 1 else 0
  }

  /** An open message: rejected with the wrong parity, or a new channel for the stream. */
  function Opened(c: Channels, role: Role, stream: int, channel: int): (o: Option<Channels>)
  {
    if stream % 2 != RemoteParity(role) then None
    else Some(AssignOne(c.(alive := c.alive + {channel}), channel, stream))
  }

  /** The channel that messages on a stream go to. */
  function Find(c: Channels, stream: int): (channel: Option<int>)
  {
    if InUse(c, stream) then Some(c.entries[stream]) else None
  }

  // ----- The object -----

  class PeerConnection {
    var alive: set<int>
    var dataChannels: map<int, int>
    var unassignedDataChannels: seq<int>
    var streams: map<int, int>

    ghost function View(): Channels
      reads this
    {
      Channels(alive, dataChannels, unassignedDataChannels, streams)
    }

    constructor ()
      ensures View() == Channels({}, map[], [], map[])
    {
      alive, dataChannels, unassignedDataChannels, streams := {}, map[], [], map[];
    }

    method AssignDataChannels(role: Role, maxStream: int) returns (error: Option<Error>)
      modifies this
      ensures Assign(old(View()), role, maxStream) == Outcome(View(), error)
    {
      var i := 0;
      var todo := unassignedDataChannels;
      var parity := if role == Active then 0 else 1;
      while i < |todo|
        invariant 0 <= i <= |todo|
        invariant AssignFrom(View(), todo[i..], parity, maxStream) == Assign(old(View()), role, maxStream)
      {
        var channel := todo[i];
        assert todo[i..][1..] == todo[i + 1..];
        if channel in alive {
          var stream := parity;
          while stream <= maxStream && stream in dataChannels && dataChannels[stream] in alive
            invariant NextFree(View(), stream, maxStream) == NextFree(View(), parity, maxStream)
            decreases maxStream - stream
          {
            stream := stream + 2;
          }
          if stream > maxStream {
            return Some(TooManyDataChannels);
          }
          if channel in streams {
            return Some(StreamAlreadyAssigned);
          }
          streams := streams[channel := stream];
          if stream !in dataChannels {
            dataChannels := dataChannels[stream := channel];
          }
        }
        i := i + 1;
      }
      unassignedDataChannels := [];
      error := None;
    }

    /** A channel that is not known yet. */
    method EmplaceDataChannel(channel: int, id: Option<int>, maxStream: int) returns (error: Option<Error>)
      requires channel !in streams
      modifies this
      ensures Created(old(View()), channel, id, maxStream) == Outcome(View(), error)
    {
      CleanupDataChannels();
      match id
      case Some(stream) =>
        if stream > maxStream {
          return Some(StreamTooHigh);
        }
        alive := alive + {channel};
        streams := streams[channel := stream];
        if stream !in dataChannels {
          dataChannels := dataChannels[stream := channel];
        }
        return None;
      case None =>
        alive := alive + {channel};
        unassignedDataChannels := unassignedDataChannels + [channel];
        return None;
    }

    /** The channel made for an open message, unless the message violates the odd/even rule. */
    method ForwardOpen(role: Role, stream: int, channel: int) returns (accepted: bool)
      requires channel !in streams
      modifies this
      ensures accepted == Opened(old(View()), role, stream, channel).Some?
      ensures View() == if accepted then Opened(old(View()), role, stream, channel).value else old(View())
    {
      var remoteParity := if role == Active then 1 else 0;
      if stream % 2 != remoteParity {
        return false;
      }
      alive := alive + {channel};
      streams := streams[channel := stream];
      if stream !in dataChannels {
        dataChannels := dataChannels[stream := channel];
      }
      return true;
    }

    method CleanupDataChannels()
      modifies this`dataChannels
      ensures View() == Cleaned(old(View()))
    {
      var left := dataChannels.Keys;
      while left != {}
        invariant PartlyCleaned(old(View()), left, dataChannels)
        decreases |left|
      {
        ghost var some := Element(left);
        assert some in left;
        var stream :| stream in left;
        left := left - {stream};
        if dataChannels[stream] !in alive {
          dataChannels := dataChannels - {stream};
        }
      }
    }
  }

  /** All entries but those of the streams left to look at are clean. */
  ghost predicate PartlyCleaned(c: Channels, left: set<int>, entries: map<int, int>)
  {
    && left <= entries.Keys
    && entries == map stream | stream in c.entries && (stream in left || c.entries[stream] in c.alive) :: c.entries[stream]
  }

  // ----- Which identifiers are assigned -----

  /** The streams from the given one on, in steps of two, that are not in use. */
  function FreeStreams(c: Channels, stream: int, maxStream: int): (free: seq<int>)
    decreases maxStream - stream
  {
    if stream > maxStream then []
    else (if InUse(c, stream) then [] else [stream]) + FreeStreams(c, stream + 2, maxStream)
  }

  predicate Increasing(s: seq<int>)
  {
    forall i, j :: 0 <= i < j < |s| ==> s[i] < s[j]
  }

  /** A stream that is reached from another one in steps of two. */
  predicate Reached(stream: int, x: int)
  {
    stream <= x && (x - stream) % 2 == 0
  }

  lemma ReachedStep(stream: int, x: int)
    ensures Reached(stream, x) <==> x == stream || Reached(stream + 2, x)
    ensures Reached(stream + 2, x) ==> stream < x
  {}

  /** They are all the streams of the parity that are not too high and not in use, in order. */
  lemma {:induction false} FreeStreamsExactly(c: Channels, stream: int, maxStream: int, x: int)
    ensures var free := FreeStreams(c, stream, maxStream);
            && Increasing(free)
            && (x in free <==> Reached(stream, x) && x <= maxStream && !InUse(c, x))
    decreases maxStream - stream
  {
    FreeStreamsIncrease(c, stream, maxStream);
    FreeStreamsMember(c, stream, maxStream, x);
  }

  lemma {:induction false} FreeStreamsMember(c: Channels, stream: int, maxStream: int, x: int)
    ensures x in FreeStreams(c, stream, maxStream) <==> Reached(stream, x) && x <= maxStream && !InUse(c, x)
    decreases maxStream - stream
  {
    hide InUse;
    ReachedStep(stream, x);
    if stream <= maxStream {
      FreeStreamsMember(c, stream + 2, maxStream, x);
      hide Reached;
    }
  }

  lemma ConsIncreases(x: int, s: seq<int>)
    requires Increasing(s) && forall i :: 0 <= i < |s| ==> x < s[i]
    ensures Increasing([x] + s)
  {}

  lemma {:induction false} FreeStreamsIncrease(c: Channels, stream: int, maxStream: int)
    ensures Increasing(FreeStreams(c, stream, maxStream))
    decreases maxStream - stream
  {
    hide InUse, Reached;
    if stream <= maxStream {
      var rest := FreeStreams(c, stream + 2, maxStream);
      FreeStreamsIncrease(c, stream + 2, maxStream);
      forall i | 0 <= i < |rest|
        ensures stream < rest[i]
      {
        FreeStreamsMember(c, stream + 2, maxStream, rest[i]);
        ReachedStep(stream, rest[i]);
      }
      ConsIncreases(stream, rest);
      assert [] + rest == rest;
    }
  }

  lemma {:induction false} NextFreeIsFirst(c: Channels, stream: int, maxStream: int)
    ensures var free := FreeStreams(c, stream, maxStream);
            NextFree(c, stream, maxStream) == if free == [] then None else Some(free[0])
    decreases maxStream - stream
  {
    if stream <= maxStream {
      NextFreeIsFirst(c, stream + 2, maxStream);
    }
  }

  /** Streams whose entry is that of a channel that is gone. */
  function Stale(c: Channels): set<int>
  {
    set stream | stream in c.entries && c.entries[stream] !in c.alive
  }

  function AliveOnly(todo: seq<int>, alive: set<int>): (live: seq<int>)
  {
    if todo == [] then [] else (if todo[0] in alive then [todo[0]] else []) + AliveOnly(todo[1..], alive)
  }

  /** The identifiers of n channels: the free ones in turn, but a stale one is given out again and again. */
  function Ids(free: seq<int>, stale: set<int>, n: nat): (ids: Option<seq<int>>)
    ensures ids.Some? ==> |ids.value| == n
  {
    if n == 0 then Some([])
    else if free == [] then None
    else
      var rest := Ids(if free[0] in stale then free else free[1..], stale, n - 1);
      if rest.None? then None else Some([free[0]] + rest.value)
  }

  lemma StaleAfterAssign(c: Channels, channel: int, s: int)
    requires channel in c.alive && !InUse(c, s)
    ensures Stale(AssignOne(c, channel, s)) == Stale(c)
  {}

  lemma InUseAfterAssign(c: Channels, channel: int, s: int, x: int)
    requires channel in c.alive && !InUse(c, s)
    ensures InUse(AssignOne(c, channel, s), x) <==> InUse(c, x) || (x == s && s !in Stale(c))
  {}

  /** Assigning a free stream: it is in use afterwards, unless its entry is stale. */
  lemma {:induction false} FreeAfterAssign(c: Channels, channel: int, s: int, stream: int, maxStream: int)
    requires channel in c.alive && !InUse(c, s)
    ensures var d := AssignOne(c, channel, s);
            && Stale(d) == Stale(c)
            && (s in Stale(c) ==> FreeStreams(d, stream, maxStream) == FreeStreams(c, stream, maxStream))
            && (s !in Stale(c) && FreeStreams(c, stream, maxStream) != [] && FreeStreams(c, stream, maxStream)[0] == s ==>
                  FreeStreams(d, stream, maxStream) == FreeStreams(c, stream, maxStream)[1..])
            && (s !in Stale(c) && s < stream ==> FreeStreams(d, stream, maxStream) == FreeStreams(c, stream, maxStream))
    decreases maxStream - stream
  {
    StaleAfterAssign(c, channel, s);
    if stream <= maxStream {
      hide InUse, Stale, AssignOne, Reached;
      FreeAfterAssign(c, channel, s, stream + 2, maxStream);
      FreeStreamsMember(c, stream + 2, maxStream, s);
      InUseAfterAssign(c, channel, s, stream);
      ReachedStep(stream, s);
    }
  }

  /** The channels' own identifiers once the given ones are assigned. */
  function WithIds(streams: map<int, int>, channels: seq<int>, ids: seq<int>): map<int, int>
    requires |channels| == |ids|
    decreases |channels|
  {
    if channels == [] then streams else WithIds(streams[channels[0] := ids[0]], channels[1..], ids[1..])
  }

  predicate Distinct(s: seq<int>)
  {
    forall i, j :: 0 <= i < j < |s| ==> s[i] != s[j]
  }

  /** Channels that are waiting for their first identifier. */
  predicate Fresh(c: Channels, channels: seq<int>)
  {
    Distinct(channels) && forall i :: 0 <= i < |channels| ==> channels[i] !in c.streams
  }

  /** The loop succeeds exactly when every live channel is waiting and Ids are enough, and gives it those. */
  lemma {:induction false} AssignGivesIds(c: Channels, todo: seq<int>, parity: int, maxStream: int)
    ensures var o := AssignFrom(c, todo, parity, maxStream);
            var live := AliveOnly(todo, c.alive);
            var ids := Ids(FreeStreams(c, parity, maxStream), Stale(c), |live|);
            && (o.error == None <==> Fresh(c, live) && ids.Some?)
            && (o.error == None ==> o.channels.streams == WithIds(c.streams, live, ids.value) && o.channels.unassigned == [])
            && (Fresh(c, live) && ids.None? ==> o.error == Some(TooManyDataChannels))
    decreases |todo|
  {
    if todo != [] {
      var live := AliveOnly(todo, c.alive);
      var rest := AliveOnly(todo[1..], c.alive);
      if todo[0] !in c.alive {
        assert live == rest;
        AssignGivesIds(c, todo[1..], parity, maxStream);
      } else {
        assert live[0] == todo[0] && live[1..] == rest;
        NextFreeIsFirst(c, parity, maxStream);
        var free := FreeStreams(c, parity, maxStream);
        if free != [] {
          FreeStreamsExactly(c, parity, maxStream, free[0]);
          FreeAfterAssign(c, todo[0], free[0], parity, maxStream);
          var d := AssignOne(c, todo[0], free[0]);
          FreshRest(c, live, free[0]);
          hide FreeStreams, Stale, NextFree, InUse, Fresh;
          AssignGivesIds(d, todo[1..], parity, maxStream);
        }
      }
    }
  }

  lemma FreshRest(c: Channels, live: seq<int>, s: int)
    requires live != []
    ensures Fresh(c, live) <==> live[0] !in c.streams && Fresh(AssignOne(c, live[0], s), live[1..])
  {
    var rest := live[1..];
    assert forall i :: 1 <= i < |live| ==> live[i] == rest[i - 1];
    if live[0] !in c.streams && Fresh(AssignOne(c, live[0], s), rest) {
      forall i | 0 <= i < |live|
        ensures live[i] !in c.streams
      {
        assert i > 0 ==> rest[i - 1] !in AssignOne(c, live[0], s).streams;
      }
      forall i, j | 0 <= i < j < |live|
        ensures live[i] != live[j]
      {
        assert rest[j - 1] !in AssignOne(c, live[0], s).streams;
        assert i > 0 ==> rest[i - 1] != rest[j - 1];
      }
    }
  }

  lemma {:induction false} WithIdsAt(streams: map<int, int>, channels: seq<int>, ids: seq<int>, x: int)
    requires |channels| == |ids| && Distinct(channels)
    ensures var w := WithIds(streams, channels, ids);
            && (forall k :: 0 <= k < |channels| ==> channels[k] in w && w[channels[k]] == ids[k])
            && (x !in channels ==> (x in w <==> x in streams) && (x in w ==> w[x] == streams[x]))
    decreases |channels|
  {
    if channels != [] {
      var rest := channels[1..];
      WithIdsAt(streams[channels[0] := ids[0]], rest, ids[1..], x);
      WithIdsAt(streams[channels[0] := ids[0]], rest, ids[1..], channels[0]);
      forall k | 0 <= k < |channels|
        ensures var w := WithIds(streams, channels, ids); channels[k] in w && w[channels[k]] == ids[k]
      {
        if k > 0 {
          assert channels[k] == rest[k - 1];
        }
      }
    }
  }

  /** Without stale streams the identifiers are the first free ones. */
  lemma {:induction false} IdsWithoutStale(free: seq<int>, stale: set<int>, n: nat)
    requires forall i :: 0 <= i < |free| && i < n - 1 ==> free[i] !in stale
    ensures Ids(free, stale, n) == if n <= |free| then Some(free[..n]) else None
  {
    if n > 0 && free != [] {
      if n == 1 {
        assert Ids(if free[0] in stale then free else free[1..], stale, 0) == Some([]);
      } else {
        IdsWithoutStale(free[1..], stale, n - 1);
      }
      assert n <= |free| ==> [free[0]] + free[1..][..n - 1] == free[..n];
    }
  }

  /** A stale stream that is not the last one to be assigned is assigned twice. */
  lemma {:induction false} StaleIsGivenAgain(free: seq<int>, stale: set<int>, n: nat, i: nat)
    requires i < |free| && i < n - 1 && free[i] in stale && Ids(free, stale, n).Some?
    ensures !Distinct(Ids(free, stale, n).value)
  {
    var ids := Ids(free, stale, n).value;
    if free[0] in stale {
      assert ids[0] == ids[1] == free[0];
    } else {
      StaleIsGivenAgain(free[1..], stale, n - 1, i - 1);
      var rest := Ids(free[1..], stale, n - 1).value;
      var j, k :| 0 <= j < k < |rest| && rest[j] == rest[k];
      assert ids[j + 1] == ids[k + 1];
    }
  }

  /** No stream that is free, except for the last one needed, has the entry of a channel that is gone. */
  predicate NoStaleInTheWay(c: Channels, role: Role, maxStream: int)
  {
    var free := FreeStreams(c, Parity(role), maxStream);
    forall i :: 0 <= i < |free| && i < |AliveOnly(c.unassigned, c.alive)| - 1 ==> free[i] !in Stale(c)
  }

  /** The identifiers that assigning gives to the live channels, in order. */
  function Given(c: Channels, role: Role, maxStream: int): (ids: Option<seq<int>>)
  {
    Ids(FreeStreams(c, Parity(role), maxStream), Stale(c), |AliveOnly(c.unassigned, c.alive)|)
  }

  /**
   Assigning succeeds exactly when every live channel of the list is there once, waiting for its first
   identifier, and there are enough streams. The identifiers are different ones exactly when no stale
   entry is in the way; they are then the smallest free ones of the role's parity, in order.
   */
  lemma AssignedExactly(c: Channels, role: Role, maxStream: int)
    ensures var o := Assign(c, role, maxStream);
            var live := AliveOnly(c.unassigned, c.alive);
            var free := FreeStreams(c, Parity(role), maxStream);
            && (o.error == None <==> Fresh(c, live) && Given(c, role, maxStream).Some?)
            && (o.error == None ==>
                  forall k :: 0 <= k < |live| ==>
                    live[k] in o.channels.streams && o.channels.streams[live[k]] == Given(c, role, maxStream).value[k])
            && (o.error == None ==> (Distinct(Given(c, role, maxStream).value) <==> NoStaleInTheWay(c, role, maxStream)))
            && (NoStaleInTheWay(c, role, maxStream) ==>
                  && (o.error == None <==> Fresh(c, live) && |live| <= |free|)
                  && (o.error == None ==> Given(c, role, maxStream).value == free[..|live|]))
  {
    var live := AliveOnly(c.unassigned, c.alive);
    var free := FreeStreams(c, Parity(role), maxStream);
    AssignGivesIds(c, c.unassigned, Parity(role), maxStream);
    FreeStreamsExactly(c, Parity(role), maxStream, 0);
    hide FreeStreams, Ids, AssignFrom, WithIds, Stale, AliveOnly;
    if Fresh(c, live) && Given(c, role, maxStream).Some? {
      WithIdsAt(c.streams, live, Given(c, role, maxStream).value, 0);
    }
    DistinctExactly(free, Stale(c), |live|);
    if NoStaleInTheWay(c, role, maxStream) {
      IdsWithoutStale(free, Stale(c), |live|);
    }
  }

  lemma DistinctExactly(free: seq<int>, stale: set<int>, n: nat)
    requires Increasing(free)
    ensures Ids(free, stale, n).Some? ==>
              (Distinct(Ids(free, stale, n).value) <==> forall i :: 0 <= i < |free| && i < n - 1 ==> free[i] !in stale)
  {
    if i :| 0 <= i < |free| && i < n - 1 && free[i] in stale {
      if Ids(free, stale, n).Some? {
        StaleIsGivenAgain(free, stale, n, i);
      }
    } else {
      IdsWithoutStale(free, stale, n);
    }
  }

  // ----- A channel without an identifier -----

  lemma {:induction false} AliveOnlySnoc(todo: seq<int>, channel: int, alive: set<int>)
    ensures AliveOnly(todo + [channel], alive) == AliveOnly(todo, alive) + if channel in alive then [channel] else []
  {
    if todo != [] {
      assert (todo + [channel])[1..] == todo[1..] + [channel];
      AliveOnlySnoc(todo[1..], channel, alive);
    } else {
      assert [channel][1..] == [];
    }
  }

  /** The channel is alive and waits behind the others. */
  lemma CreatedWaits(c: Channels, channel: int, anyMax: int)
    ensures var o := Created(c, channel, None, anyMax);
            && o.error == None && channel in o.channels.alive && o.channels.unassigned == c.unassigned + [channel]
            && o.channels.alive == c.alive + {channel} && o.channels.streams == c.streams && Stale(o.channels) == {}
            && (channel !in c.entries.Values ==> forall x :: InUse(o.channels, x) <==> InUse(c, x))
  {}

  /**
   A channel created without an identifier gets one when assigning succeeds: the free stream of the role's parity
   behind those of the live channels that waited before it.
   */
  lemma WaitingIsGiven(c: Channels, channel: int, anyMax: int, role: Role, maxStream: int)
    requires Assign(Created(c, channel, None, anyMax).channels, role, maxStream).error == None
    ensures var d := Created(c, channel, None, anyMax).channels;
            var o := Assign(d, role, maxStream).channels;
            var before := |AliveOnly(c.unassigned, d.alive)|;
            && channel in o.streams && o.unassigned == []
            && before < |FreeStreams(d, Parity(role), maxStream)|
            && o.streams[channel] == FreeStreams(d, Parity(role), maxStream)[before]
  {
    var d := Created(c, channel, None, anyMax).channels;
    CreatedWaits(c, channel, anyMax);
    AliveOnlySnoc(c.unassigned, channel, d.alive);
    hide AliveOnly, FreeStreams, Created, Stale;
    AssignedExactly(d, role, maxStream);
    AssignGivesIds(d, d.unassigned, Parity(role), maxStream);
    assert NoStaleInTheWay(d, role, maxStream);
    var live := AliveOnly(d.unassigned, d.alive);
    assert live[|live| - 1] == channel;
  }

  /** A channel with the user's identifier is refused exactly when that is too high; else it has that stream. */
  lemma SuppliedIsGiven(c: Channels, channel: int, id: int, maxStream: int)
    requires channel !in c.alive && (forall x :: x in c.entries ==> c.entries[x] != channel)
    ensures var o := Created(c, channel, Some(id), maxStream);
            && (o.error == Some(StreamTooHigh) <==> id > maxStream) && (o.error == None <==> id <= maxStream)
            && (o.error == None ==>
                  && channel in o.channels.alive && channel in o.channels.streams && o.channels.streams[channel] == id
                  && (Find(o.channels, id) == Some(channel) <==> !InUse(c, id))
                  && o.channels.unassigned == c.unassigned)
  {}

  /** Cleaning up leaves no stale entry, and the same streams in use. */
  lemma CleanedHasNoStale(c: Channels, role: Role, maxStream: int, stream: int)
    ensures Stale(Cleaned(c)) == {} && NoStaleInTheWay(Cleaned(c), role, maxStream)
    ensures InUse(Cleaned(c), stream) == InUse(c, stream)
  {}

  /** Every identifier given out has the role's parity, is not too high, and was not in use. */
  lemma {:induction false} GivenAreFree(free: seq<int>, stale: set<int>, n: nat, k: nat)
    requires Ids(free, stale, n).Some? && k < n
    ensures Ids(free, stale, n).value[k] in free
  {
    if k > 0 {
      GivenAreFree(if free[0] in stale then free else free[1..], stale, n - 1, k - 1);
    }
  }

  lemma GivenIsFree(c: Channels, role: Role, maxStream: int, k: nat)
    requires Given(c, role, maxStream).Some? && k < |Given(c, role, maxStream).value|
    ensures Given(c, role, maxStream).value[k] in FreeStreams(c, Parity(role), maxStream)
  {
    hide Ids, FreeStreams, Stale, AliveOnly;
    GivenAreFree(FreeStreams(c, Parity(role), maxStream), Stale(c), |AliveOnly(c.unassigned, c.alive)|, k);
  }

  lemma GivenHaveParity(c: Channels, role: Role, maxStream: int, k: nat)
    requires Given(c, role, maxStream).Some? && k < |Given(c, role, maxStream).value|
    ensures var stream := Given(c, role, maxStream).value[k];
            stream % 2 == Parity(role) && 0 <= stream <= maxStream && !InUse(c, stream)
  {
    hide Given, FreeStreams, InUse, Increasing;
    GivenIsFree(c, role, maxStream, k);
    FreeStreamsMember(c, Parity(role), maxStream, Given(c, role, maxStream).value[k]);
  }

  /** A failing attempt keeps the list as it is, and channels alive and with the identifiers they have. */
  lemma {:induction false} FailureKeeps(c: Channels, todo: seq<int>, parity: int, maxStream: int)
    ensures var o := AssignFrom(c, todo, parity, maxStream);
            && o.channels.alive == c.alive && c.streams.Keys <= o.channels.streams.Keys
            && (o.error.Some? ==> o.channels.unassigned == c.unassigned)
    decreases |todo|
  {
    if todo != [] {
      if todo[0] !in c.alive {
        FailureKeeps(c, todo[1..], parity, maxStream);
      } else if NextFree(c, parity, maxStream).Some? && todo[0] !in c.streams {
        FailureKeeps(AssignOne(c, todo[0], NextFree(c, parity, maxStream).value), todo[1..], parity, maxStream);
      }
    }
  }

  /** A later attempt succeeds exactly when the live channels still wait, each once, and there are enough streams. */
  lemma AfterFailureExactly(c: Channels, role: Role, maxStream: int, laterRole: Role, laterMax: int)
    requires Assign(c, role, maxStream).error.Some?
    ensures var d := Assign(c, role, maxStream).channels;
            Assign(d, laterRole, laterMax).error == None <==>
              Fresh(d, AliveOnly(c.unassigned, c.alive)) && Given(d, laterRole, laterMax).Some?
  {
    var d := Assign(c, role, maxStream).channels;
    FailureKeeps(c, c.unassigned, Parity(role), maxStream);
    assert d.unassigned == c.unassigned && d.alive == c.alive;
    hide Assign, AssignFrom, Given, Ids, FreeStreams, Stale;
    AssignedExactly(d, laterRole, laterMax);
  }

  /**
   A failure that gave a live channel of the list a stream stays: the channel keeps its identifier and
   its place in the list, so every later attempt fails.
   */
  lemma FailureStays(c: Channels, role: Role, maxStream: int, channel: int, laterRole: Role, laterMax: int)
    requires Assign(c, role, maxStream).error.Some?
    requires channel in AliveOnly(c.unassigned, c.alive) && channel in Assign(c, role, maxStream).channels.streams
    ensures Assign(Assign(c, role, maxStream).channels, laterRole, laterMax).error.Some?
  {
    AfterFailureExactly(c, role, maxStream, laterRole, laterMax);
  }

  /** The failure gives a stream to the first live channel whenever there is one for it. */
  lemma FirstIsGiven(c: Channels, role: Role, maxStream: int)
    requires AliveOnly(c.unassigned, c.alive) != [] && NextFree(c, Parity(role), maxStream).Some?
    ensures AliveOnly(c.unassigned, c.alive)[0] in Assign(c, role, maxStream).channels.streams
  {
    FirstLiveIsGiven(c, c.unassigned, Parity(role), maxStream);
  }

  lemma {:induction false} FirstLiveIsGiven(c: Channels, todo: seq<int>, parity: int, maxStream: int)
    requires AliveOnly(todo, c.alive) != [] && NextFree(c, parity, maxStream).Some?
    ensures AliveOnly(todo, c.alive)[0] in AssignFrom(c, todo, parity, maxStream).channels.streams
    decreases |todo|
  {
    if todo[0] !in c.alive {
      FirstLiveIsGiven(c, todo[1..], parity, maxStream);
    } else if todo[0] !in c.streams {
      FailureKeeps(AssignOne(c, todo[0], NextFree(c, parity, maxStream).value), todo[1..], parity, maxStream);
    }
  }

  /**
   Messages on a newly opened stream go to its channel exactly when the stream had no entry: an entry
   that is still there, of a channel that is gone or about to be closed, is not replaced.
   */
  lemma OpenedIsFoundExactlyWhenNew(c: Channels, role: Role, stream: int, channel: int)
    requires Opened(c, role, stream, channel).Some? && channel !in c.alive
    requires stream in c.entries ==> c.entries[stream] != channel
    ensures Find(Opened(c, role, stream, channel).value, stream) == Some(channel) <==> stream !in c.entries
    ensures channel in Opened(c, role, stream, channel).value.streams
    ensures Opened(c, role, stream, channel).value.streams[channel] == stream
  {}

  /** Whether it succeeds or fails, assigning only adds identifiers, of the parity and not too high. */
  lemma {:induction false} NewIdsHaveParity(c: Channels, todo: seq<int>, parity: int, maxStream: int, channel: int)
    requires parity == 0 || parity == 1
    ensures var o := AssignFrom(c, todo, parity, maxStream);
            && (channel in c.streams ==> channel in o.channels.streams && o.channels.streams[channel] == c.streams[channel])
            && (channel in o.channels.streams && channel !in c.streams ==>
                  var stream := o.channels.streams[channel];
                  stream % 2 == parity && parity <= stream <= maxStream)
    decreases |todo|
  {
    if todo != [] {
      if todo[0] !in c.alive {
        NewIdsHaveParity(c, todo[1..], parity, maxStream, channel);
      } else if NextFree(c, parity, maxStream).Some? && todo[0] !in c.streams {
        var stream := NextFree(c, parity, maxStream).value;
        NextFreeIsFirst(c, parity, maxStream);
        FreeStreamsMember(c, parity, maxStream, stream);
        NewIdsHaveParity(AssignOne(c, todo[0], stream), todo[1..], parity, maxStream, channel);
      }
    }
  }
}
