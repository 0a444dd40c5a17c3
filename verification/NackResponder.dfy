/**
 The NACK responder: sent packets are stored, and the packets a NACK message asks for are sent again.
 */
module NackResponder {
  import opened Bytes
  import opened NackField
  import opened NackStore

  const GENERIC_NACK_TYPE := 205
  const GENERIC_NACK_FORMAT := 1

  /** The size in octets of the RTCP packet whose header is at p. */
  function LengthInBytes(message: seq<byte>, p: nat): (length: nat)
    requires p + 4 <= |message|
    ensures length >= 4
  {
    (1 + U16(message, p + 2)) * 4
  }

  predicate IsNack(message: seq<byte>, p: nat)
    requires p + 4 <= |message|
  {
    message[p + 1] == GENERIC_NACK_TYPE && message[p] % 32 == GENERIC_NACK_FORMAT
  }

  /** Every RTCP packet from p on is complete; the program reads past the end of others. */
  predicate WellFormed(message: seq<byte>, p: nat)
    decreases |message| - p
  {
    p == |message| ||
    (&& p + 4 <= |message|
     && p + LengthInBytes(message, p) <= |message|
     && (IsNack(message, p) ==> U16(message, p + 2) >= 2)
     && WellFormed(message, p + LengthInBytes(message, p)))
  }

  function PartAt(message: seq<byte>, p: nat): NackPart
    requires p + 4 <= |message|
  {
    NackPart(U16(message, p), U16(message, p + 2))
  }

  /** The first `count` parts found at p. */
  function PartsAt(message: seq<byte>, p: nat, count: nat): (parts: seq<NackPart>)
    requires p + 4 * count <= |message|
    ensures |parts| == count
  {
    if count == 0 then [] else PartsAt(message, p, count - 1) + [PartAt(message, p + 4 * (count - 1))]
  }

  /** The sequence numbers the RTCP packet at p asks for: none unless it is a generic NACK. */
  function AskedAt(message: seq<byte>, p: nat): (numbers: seq<int>)
    requires WellFormed(message, p) && p < |message|
  {
    if IsNack(message, p) then DecodeAll(PartsAt(message, p + 12, U16(message, p + 2) - 2)) else []
  }

  /** The sequence numbers requested by the RTCP packets from p on. */
  function Requested(message: seq<byte>, p: nat): (numbers: seq<int>)
    requires WellFormed(message, p)
    decreases |message| - p
  {
    if p == |message| then []
    else AskedAt(message, p) + Requested(message, p + LengthInBytes(message, p))
  }

  /** The walk has reached the header at p, and found the numbers `done` before it. */
  ghost predicate Reached(message: seq<byte>, p: nat, done: seq<int>)
  {
    && p <= |message| && WellFormed(message, 0) && WellFormed(message, p)
    && Requested(message, 0) == done + Requested(message, p)
  }

  lemma ReachedNext(message: seq<byte>, p: nat, done: seq<int>)
    requires Reached(message, p, done) && p < |message|
    ensures Reached(message, p + LengthInBytes(message, p), done + AskedAt(message, p))
  {
    ConcatAssociative(done, AskedAt(message, p), Requested(message, p + LengthInBytes(message, p)));
  }

  lemma ReachedEnd(message: seq<byte>, done: seq<int>)
    requires Reached(message, |message|, done)
    ensures Requested(message, 0) == done
  {}

  /** Whether the octets are one RTCP packet, as its length says, with room for a NACK's sources. */
  predicate IsPacket(packet: seq<byte>)
  {
    && |packet| >= 4 && |packet| == 4 + 4 * U16(packet, 2)
    && (packet[1] == 205 && packet[0] % 32 == 1 ==> |packet| >= 12)
  }

  lemma {:induction false} PartsShifted(before: seq<byte>, message: seq<byte>, p: nat, count: nat)
    requires p + 4 * count <= |message|
    ensures PartsAt(before + message, |before| + p, count) == PartsAt(message, p, count)
  {
    if count > 0 {
      PartsShifted(before, message, p, count - 1);
    }
  }

  lemma HeaderShifted(before: seq<byte>, message: seq<byte>, p: nat)
    requires p + 4 <= |message|
    ensures var shifted := |before| + p;
            && U16(before + message, shifted + 2) == U16(message, p + 2)
            && LengthInBytes(before + message, shifted) == LengthInBytes(message, p)
            && (IsNack(before + message, shifted) <==> IsNack(message, p))
  {}

  lemma AskedIs(message: seq<byte>, p: nat)
    requires WellFormed(message, p) && p < |message|
    ensures p + 4 <= |message|
    ensures IsNack(message, p) ==> U16(message, p + 2) >= 2 && p + 4 + 4 * U16(message, p + 2) <= |message|
    ensures AskedAt(message, p) ==
            if IsNack(message, p) then DecodeAll(PartsAt(message, p + 12, U16(message, p + 2) - 2)) else []
  {
    hide IsNack, PartsAt, DecodeAll, U16;
  }

  lemma AskedShifted(before: seq<byte>, message: seq<byte>, p: nat)
    requires WellFormed(message, p) && p < |message| && WellFormed(before + message, |before| + p)
    ensures AskedAt(before + message, |before| + p) == AskedAt(message, p)
  {
    hide *;
    AskedIs(message, p);
    AskedIs(before + message, |before| + p);
    HeaderShifted(before, message, p);
    if IsNack(message, p) {
      PartsShifted(before, message, p + 12, U16(message, p + 2) - 2);
    }
  }

  /** The walk does not depend on what stands before p. */
  lemma {:induction false} WalkShifted(before: seq<byte>, message: seq<byte>, p: nat)
    requires p <= |message|
    ensures WellFormed(before + message, |before| + p) <==> WellFormed(message, p)
    ensures WellFormed(message, p) ==> Requested(before + message, |before| + p) == Requested(message, p)
    decreases |message| - p
  {
    hide IsNack, LengthInBytes, AskedAt, U16;
    if p + 4 <= |message| {
      HeaderShifted(before, message, p);
      if p + LengthInBytes(message, p) <= |message| {
        WalkShifted(before, message, p + LengthInBytes(message, p));
      }
      if WellFormed(message, p) {
        AskedShifted(before, message, p);
      }
    }
  }

  /**
   A compound message is read packet by packet: it is complete exactly when what follows its first packet is, and
   asks for what the first packet asks for and then for the rest.
   */
  lemma CompoundRead(packet: seq<byte>, rest: seq<byte>)
    requires IsPacket(packet)
    ensures WellFormed(packet, 0)
    ensures WellFormed(packet + rest, 0) <==> WellFormed(rest, 0)
    ensures WellFormed(rest, 0) ==> Requested(packet + rest, 0) == Requested(packet, 0) + Requested(rest, 0)
  {
    hide *;
    OnePacket(packet);
    FirstOfMore(packet, rest);
    WalkStep(packet + rest, 0);
    WalkShifted(packet, rest, 0);
    if WellFormed(rest, 0) {
      AskedOfMore(packet, rest);
    }
  }

  lemma OnePacket(packet: seq<byte>)
    requires IsPacket(packet)
    ensures |packet| >= 4 && WellFormed(packet, 0) && Requested(packet, 0) == AskedAt(packet, 0)
  {
    hide IsNack, AskedAt, U16;
    FirstOfMore(packet, []);
    assert packet + [] == packet;
    WalkStep(packet, 0);
    assert Requested(packet, |packet|) == [];
  }

  lemma FirstOfMore(packet: seq<byte>, rest: seq<byte>)
    requires IsPacket(packet)
    ensures var message := packet + rest;
            && U16(message, 2) == U16(packet, 2) && LengthInBytes(message, 0) == |packet|
            && (IsNack(message, 0) <==> IsNack(packet, 0)) && (IsNack(message, 0) ==> U16(message, 2) >= 2)
  {}

  lemma WalkStep(message: seq<byte>, p: nat)
    requires p + 4 <= |message| && p + LengthInBytes(message, p) <= |message|
    requires IsNack(message, p) ==> U16(message, p + 2) >= 2
    ensures var next := p + LengthInBytes(message, p);
            && (WellFormed(message, p) <==> WellFormed(message, next))
            && (WellFormed(message, p) ==> Requested(message, p) == AskedAt(message, p) + Requested(message, next))
  {
    hide IsNack, LengthInBytes, AskedAt, U16;
  }

  lemma AskedOfMore(packet: seq<byte>, rest: seq<byte>)
    requires IsPacket(packet) && WellFormed(packet, 0) && WellFormed(packet + rest, 0)
    ensures AskedAt(packet + rest, 0) == AskedAt(packet, 0)
  {
    FirstOfMore(packet, rest);
    AskedIs(packet, 0);
    AskedIs(packet + rest, 0);
    hide *;
    if IsNack(packet, 0) {
      PartsOfMore(packet, rest, 12, U16(packet, 2) - 2);
    }
  }

  lemma {:induction false} PartsOfMore(message: seq<byte>, rest: seq<byte>, p: nat, count: nat)
    requires p + 4 * count <= |message|
    ensures PartsAt(message + rest, p, count) == PartsAt(message, p, count)
  {
    if count > 0 {
      PartsOfMore(message, rest, p, count - 1);
    }
  }

  /** The packets the store finds for these numbers, in order. */
  function Found(c: Contents, numbers: seq<int>): (packets: seq<Packet>)
  {
    if numbers == [] then []
    else
      Found(c, numbers[..|numbers| - 1]) +
      match Lookup(c, numbers[|numbers| - 1])
      case Some(packet) => [packet]
      case None => []
  }

  class Responder {
    const storage: Storage

    constructor (maxStoredPacketCount: nat)
      requires maxStoredPacketCount > 0
      ensures fresh(storage.Repr) && storage.Valid() && storage.contents == NOTHING
      ensures storage.maximumSize == maxStoredPacketCount
    {
      storage := new Storage(maxStoredPacketCount);
    }

    /** None when there is nothing to send again. */
    method ProcessIncomingControlMessage(message: seq<byte>) returns (resent: Option<seq<Packet>>)
      requires storage.Valid() && WellFormed(message, 0)
      ensures var found := Found(storage.contents, Requested(message, 0));
              resent == if found == [] then None else Some(found)
    {
      var packets := RequestedPackets(message);
      resent := if packets == [] then None else Some(packets);
    }

    method RequestedPackets(message: seq<byte>) returns (packets: seq<Packet>)
      requires storage.Valid() && WellFormed(message, 0)
      ensures packets == Found(storage.contents, Requested(message, 0))
    {
      packets := [];
      var p := 0;
      ghost var done: seq<int> := [];
      while p < |message|
        invariant Reached(message, p, done)
        invariant packets == Found(storage.contents, done)
        decreases |message| - p
      {
        var found := PacketsFor(message, p);
        FoundAppend(storage.contents, done, AskedAt(message, p));
        ReachedNext(message, p, done);
        packets, done := packets + found, done + AskedAt(message, p);
        p := p + LengthInBytes(message, p);
      }
      ReachedEnd(message, done);
    }

    /** The stored packets that the RTCP packet at p asks for. */
    method PacketsFor(message: seq<byte>, p: nat) returns (packets: seq<Packet>)
      requires storage.Valid() && WellFormed(message, p) && p < |message|
      ensures packets == Found(storage.contents, AskedAt(message, p))
    {
      if !IsNack(message, p) {
        return [];
      }
      var fieldsCount := U16(message, p + 2) - 2;
      var missing := ReadFields(message, p + 12, fieldsCount);
      packets := Collect(missing);
    }

    method Collect(missing: seq<int>) returns (packets: seq<Packet>)
      requires storage.Valid()
      ensures packets == Found(storage.contents, missing)
    {
      packets := [];
      for i := 0 to |missing|
        invariant packets == Found(storage.contents, missing[..i])
      {
        assert missing[..i + 1][..i] == missing[..i];
        var optPacket := storage.Get(missing[i]);
        if optPacket.Some? {
          packets := packets + [optPacket.value];
        }
      }
      assert missing[..|missing|] == missing;
    }

    /** Stores each outgoing packet in turn; missing ones and those shorter than an RTP header are skipped. */
    method ProcessOutgoingBinaryMessage(messages: seq<Option<seq<byte>>>)
      requires storage.Valid()
      modifies storage.Repr
      ensures storage.Valid() && fresh(storage.Repr - old(storage.Repr))
      ensures storage.contents == StoredFrom(old(storage.contents), storage.maximumSize, Storables(messages))
    {
      ghost var before := storage.contents;
      assert Storables(messages[..0]) == [] && StoredFrom(before, storage.maximumSize, []) == before;
      hide Stored, StoredFrom, Storables, EntryOf;
      for i := 0 to |messages|
        invariant storage.Valid() && fresh(storage.Repr - old(storage.Repr))
        invariant storage.contents == StoredFrom(before, storage.maximumSize, Storables(messages[..i]))
      {
        NextStored(before, storage.maximumSize, messages, i);
        storage.Store(messages[i]);
      }
      assert messages[..|messages|] == messages;
    }
  }

  /** The messages that are there and have an RTP header. */
  function Storables(messages: seq<Option<seq<byte>>>): (packets: seq<Packet>)
  {
    if messages == [] then []
    else
      var front, last := Storables(messages[..|messages| - 1]), messages[|messages| - 1];
      if last == None || |last.value| < RTP_HEADER_SIZE then front else front + [last.value]
  }

  function StoredFrom(c: Contents, maximumSize: nat, packets: seq<Packet>): Contents
  {
    if packets == [] then c
    else Stored(StoredFrom(c, maximumSize, packets[..|packets| - 1]), maximumSize, EntryOf(packets[|packets| - 1]))
  }

  /** What the next message adds to the store. */
  lemma NextStored(c: Contents, maximumSize: nat, messages: seq<Option<seq<byte>>>, i: nat)
    requires i < |messages|
    ensures StoredFrom(c, maximumSize, Storables(messages[..i + 1])) ==
            var before := StoredFrom(c, maximumSize, Storables(messages[..i]));
            if messages[i] == None || |messages[i].value| < RTP_HEADER_SIZE then before
            else Stored(before, maximumSize, EntryOf(messages[i].value))
  {
    hide Stored, EntryOf;
    assert messages[..i + 1][..i] == messages[..i];
    assert messages[..i + 1][i] == messages[i];
  }

  method ReadFields(message: seq<byte>, p: nat, fieldsCount: nat) returns (missing: seq<int>)
    requires p + 4 * fieldsCount <= |message|
    ensures missing == DecodeAll(PartsAt(message, p, fieldsCount))
  {
    missing := [];
    for i := 0 to fieldsCount
      invariant missing == DecodeAll(PartsAt(message, p, i))
    {
      var field := PartAt(message, p + 4 * i);
      var numbers := GetSequenceNumbers(field);
      DecodeAllSnoc(PartsAt(message, p, i), field);
      missing := missing + numbers;
    }
  }

  lemma {:induction false} FoundAppend(c: Contents, a: seq<int>, b: seq<int>)
    ensures Found(c, a + b) == Found(c, a) + Found(c, b)
  {
    if b == [] {
      assert a + b == a;
    } else {
      FoundAppend(c, a, b[..|b| - 1]);
      assert (a + b)[..|a + b| - 1] == a + b[..|b| - 1];
    }
  }

  // ----- From a receiver's list of missing packets to the packets sent again -----

  function PartOctets(part: NackPart): (s: seq<byte>)
    ensures |s| == 4
  {
    Octets16(part.pid) + Octets16(part.blp)
  }

  function PartsOctets(parts: seq<NackPart>): (s: seq<byte>)
    ensures |s| == 4 * |parts|
  {
    if parts == [] then [] else PartsOctets(parts[..|parts| - 1]) + PartOctets(parts[|parts| - 1])
  }

  /** The RTCP feedback header, as prepared for one media source; `ssrc` stands for its octets. */
  function NackHeader(ssrc: seq<byte>, count: nat): (header: seq<byte>)
    requires |ssrc| == 4 && count < TWO_TO_THE_16 - 2
    ensures |header| == 12 && IsNack(header, 0) && U16(header, 2) == 2 + count
  {
    var length := Octets16(2 + count);
    [128 + GENERIC_NACK_FORMAT, GENERIC_NACK_TYPE, length[0], length[1]] + ssrc + ssrc
  }

  function NackPacket(ssrc: seq<byte>, parts: seq<NackPart>): (message: seq<byte>)
    requires |ssrc| == 4 && |parts| < TWO_TO_THE_16 - 2
    ensures |message| == 12 + 4 * |parts|
  {
    NackHeader(ssrc, |parts|) + PartsOctets(parts)
  }

  lemma PartOctetsRead(before: seq<byte>, part: NackPart, after: seq<byte>)
    ensures PartAt(before + PartOctets(part) + after, |before|) == part
  {
    var s := before + PartOctets(part) + after;
    var p := |before|;
    assert s[p] == PartOctets(part)[0] && s[p + 1] == PartOctets(part)[1];
    assert s[p + 2] == PartOctets(part)[2] && s[p + 3] == PartOctets(part)[3];
  }

  lemma {:induction false} PartsOctetsRead(before: seq<byte>, parts: seq<NackPart>, after: seq<byte>)
    ensures PartsAt(before + PartsOctets(parts) + after, |before|, |parts|) == parts
  {
    if parts != [] {
      var front, last := parts[..|parts| - 1], parts[|parts| - 1];
      var s := before + PartsOctets(parts) + after;
      SplitLast(parts);
      assert s == before + PartsOctets(front) + (PartOctets(last) + after);
      PartsOctetsRead(before, front, PartOctets(last) + after);
      assert s == (before + PartsOctets(front)) + PartOctets(last) + after;
      PartOctetsRead(before + PartsOctets(front), last, after);
    }
  }

  lemma {:induction false} PartsOctetsAt(parts: seq<NackPart>, i: nat, p: nat)
    requires i < |parts| && p == 4 * i
    ensures var s := PartsOctets(parts);
            && 256 * (s[p] as int) + s[p + 1] as int == parts[i].pid
            && 256 * (s[p + 2] as int) + s[p + 3] as int == parts[i].blp
  {
    if i < |parts| - 1 {
      PartsOctetsAt(parts[..|parts| - 1], i, p);
    } else {
      var octets := PartOctets(parts[i]);
      assert octets[0] == parts[i].pid / 256 && octets[1] == parts[i].pid % 256;
      assert octets[2] == parts[i].blp / 256 && octets[3] == parts[i].blp % 256;
    }
  }

  /**
   A NACK packet octet by octet (RFC 4585 sections 6.1 and 6.2.1): version 2, format 1, type 205, the length in
   words less one, the sources, and PID and BLP of each part.
   */
  lemma NackPacketOctets(ssrc: seq<byte>, parts: seq<NackPart>, i: nat, p: nat)
    requires |ssrc| == 4 && |parts| < TWO_TO_THE_16 - 2 && p == 12 + 4 * i
    ensures var m := NackPacket(ssrc, parts);
            && m[0] == 0x81 && m[1] == 205 && 4 * (256 * (m[2] as int) + m[3] as int + 1) == |m|
            && m[4..8] == ssrc && m[8..12] == ssrc
            && (i < |parts| ==> 256 * (m[p] as int) + m[p + 1] as int == parts[i].pid &&
                                256 * (m[p + 2] as int) + m[p + 3] as int == parts[i].blp)
  {
    var m := NackPacket(ssrc, parts);
    var h := NackHeader(ssrc, |parts|);
    assert m[..12] == h && h[4..8] == ssrc && h[8..12] == ssrc;
    assert m[4..8] == h[4..8] && m[8..12] == h[8..12];
    assert h[0] == 0x81 && h[1] == 205 && 256 * (h[2] as int) + h[3] as int == 2 + |parts|;
    hide NackHeader;
    if i < |parts| {
      PartsOctetsAt(parts, i, 4 * i);
    }
  }

  lemma SingleNackRead(header: seq<byte>, parts: seq<NackPart>)
    requires |header| == 12 && |parts| < TWO_TO_THE_16 - 2
    requires IsNack(header, 0) && U16(header, 2) == 2 + |parts|
    ensures WellFormed(header + PartsOctets(parts), 0)
    ensures Requested(header + PartsOctets(parts), 0) == DecodeAll(parts)
  {
    var message := header + PartsOctets(parts);
    PartsOctetsRead(header, parts, []);
    assert message + [] == message;
    assert IsNack(message, 0) && U16(message, 2) == 2 + |parts|;
    hide PartsOctets, PartsAt, DecodeAll, U16;
    assert LengthInBytes(message, 0) == |message|;
    assert Requested(message, |message|) == [];
    assert AskedAt(message, 0) == DecodeAll(PartsAt(message, 12, |parts|));
  }

  /** The responder reads exactly the numbers the parts of a NACK packet denote. */
  lemma NackPacketRead(ssrc: seq<byte>, parts: seq<NackPart>)
    requires |ssrc| == 4 && |parts| < TWO_TO_THE_16 - 2
    ensures WellFormed(NackPacket(ssrc, parts), 0)
    ensures Requested(NackPacket(ssrc, parts), 0) == DecodeAll(parts)
  {
    SingleNackRead(NackHeader(ssrc, |parts|), parts);
  }

  function EntriesOf(packets: seq<Packet>): (entries: seq<Entry>)
    ensures |entries| == |packets|
  {
    seq(|packets|, i requires 0 <= i < |packets| => EntryOf(packets[i]))
  }

  lemma {:induction false} StoredFromIsStoredAll(packets: seq<Packet>, maximumSize: nat)
    ensures StoredFrom(NOTHING, maximumSize, packets) == StoredAll(EntriesOf(packets), maximumSize)
  {
    if packets != [] {
      StoredFromIsStoredAll(packets[..|packets| - 1], maximumSize);
      assert EntriesOf(packets)[..|packets| - 1] == EntriesOf(packets[..|packets| - 1]);
    }
  }

  /** The packets, among those given, with the numbers asked for, in the order asked. */
  function Among(entries: seq<Entry>, numbers: seq<int>): (packets: seq<Packet>)
  {
    if numbers == [] then []
    else
      Among(entries, numbers[..|numbers| - 1]) +
      Numbered(entries, numbers[|numbers| - 1])
  }

  /** The packets with the given number. */
  function Numbered(entries: seq<Entry>, number: int): (packets: seq<Packet>)
  {
    if entries == [] then []
    else
      Numbered(entries[..|entries| - 1], number) +
      if entries[|entries| - 1].number == number then [entries[|entries| - 1].packet] else []
  }

  lemma {:induction false} NumberedIsLookup(entries: seq<Entry>, number: int)
    requires DistinctNumbers(entries)
    ensures Numbered(entries, number) ==
            if number in IndexOf(entries) then [IndexOf(entries)[number]] else []
  {
    if entries != [] {
      var front, last := entries[..|entries| - 1], entries[|entries| - 1];
      NumberedIsLookup(front, number);
      SplitLast(entries);
      AppendedKeepsIndex(front, last);
      IndexOfIsExact(front);
    }
  }

  lemma {:induction false} FoundIsAmong(entries: seq<Entry>, numbers: seq<int>)
    requires DistinctNumbers(entries)
    ensures Found(Contents(entries, IndexOf(entries)), numbers) == Among(entries, numbers)
  {
    if numbers != [] {
      FoundIsAmong(entries, numbers[..|numbers| - 1]);
      NumberedIsLookup(entries, numbers[|numbers| - 1]);
    }
  }

  /**
   For every history of consecutively numbered packets and every ordered list of missing numbers:
   the NACK packet built from the list makes the responder find exactly the missing packets that
   are among the last maximumSize sent, in the order of the list.
   */
  lemma Retransmission(packets: seq<Packet>, first: uint16, maximumSize: nat, missing: seq<uint16>, ssrc: seq<byte>)
    requires 0 < maximumSize < TWO_TO_THE_16
    requires forall i :: 0 <= i < |packets| ==> SequenceNumber(packets[i]) == (first + i) % TWO_TO_THE_16
    requires InOrder(missing) && |EncodeAll(missing)| < TWO_TO_THE_16 - 2 && |ssrc| == 4
    ensures var message := NackPacket(ssrc, EncodeAll(missing));
            && WellFormed(message, 0)
            && Found(StoredFrom(NOTHING, maximumSize, packets), Requested(message, 0)) ==
               Among(LastN(EntriesOf(packets), maximumSize), missing)
  {
    var history := EntriesOf(packets);
    StoredFromIsStoredAll(packets, maximumSize);
    ConsecutiveIsDistinct(history, first, maximumSize);
    StoreIsLastN(history, maximumSize);
    WindowIsDistinct(history, maximumSize, maximumSize);
    RoundTrip(missing);
    NackPacketRead(ssrc, EncodeAll(missing));
    FoundIsAmong(LastN(history, maximumSize), missing);
  }
}
