/**
 From the H.264 packetizer to the NACK responder: the packets of a stream are stored as they are sent, and the
 ones a receiver misses are sent again.
 */
module RtpRetransmission {
  import opened Bytes
  import opened NackField
  import opened NackStore
  import opened NackResponder
  import P = H264Packetizer

  /** The store reads the number that the packetizer has given a packet. */
  lemma StoredNumber(stream: P.Stream, number: uint16, marker: bool, payload: seq<byte>)
    ensures |P.RtpPacket(stream, number, marker, payload)| >= 12
    ensures SequenceNumber(P.RtpPacket(stream, number, marker, payload)) == number
  {
    P.RtpPacketOctets(stream, number, marker, payload);
    hide P.RtpPacket;
  }

  /** The packets of a stream. */
  function Sent(stream: P.Stream, first: uint16, parts: seq<P.Part>): (packets: seq<Packet>)
    ensures |packets| == |parts| && packets == P.Packets(stream, first, parts)
    ensures forall i :: 0 <= i < |parts| ==> SequenceNumber(packets[i]) == (first + i) % TWO_TO_THE_16
  {
    hide P.RtpPacket, SequenceNumber;
    var packets := P.Packets(stream, first, parts);
    assert forall i :: 0 <= i < |parts| ==>
             |packets[i]| >= 12 && SequenceNumber(packets[i]) == (first + i) % TWO_TO_THE_16 by {
      forall i | 0 <= i < |parts|
        ensures |packets[i]| >= 12 && SequenceNumber(packets[i]) == (first + i) % TWO_TO_THE_16
      {
        StoredNumber(stream, (first + i) % TWO_TO_THE_16, parts[i].marker, parts[i].payload);
      }
    }
    packets
  }

  /**
   Which packets are sent again, by counting back from the last one: the packet with a number is as many
   packets old as the numbers lie apart, and is kept while it is among the last maximumSize.
   */
  function Again(packets: seq<Packet>, last: int, maximumSize: nat, missing: seq<uint16>): (again: seq<Packet>)
  {
    if missing == [] then []
    else
      var age := (last - missing[|missing| - 1]) % TWO_TO_THE_16;
      Again(packets, last, maximumSize, missing[..|missing| - 1]) +
      if age < maximumSize && age < |packets| then [packets[|packets| - 1 - age]] else []
  }

  lemma {:induction false} NobodyNumbered(entries: seq<Entry>, number: int)
    requires forall i :: 0 <= i < |entries| ==> entries[i].number != number
    ensures Numbered(entries, number) == []
  {
    if entries != [] {
      NobodyNumbered(entries[..|entries| - 1], number);
    }
  }

  lemma OneNumbered(entries: seq<Entry>, i: nat)
    requires DistinctNumbers(entries) && i < |entries|
    ensures Numbered(entries, entries[i].number) == [entries[i].packet]
  {
    IndexOfIsExact(entries);
    NumberedIsLookup(entries, entries[i].number);
    hide IndexOf, Numbered, DistinctNumbers;
  }

  lemma LastEntry(packets: seq<Packet>, maximumSize: nat, i: nat)
    requires i < |LastN(EntriesOf(packets), maximumSize)|
    ensures var entries := LastN(EntriesOf(packets), maximumSize);
            var k := |packets| - |entries| + i;
            0 <= k < |packets| && entries[i] == Entry(SequenceNumber(packets[k]), packets[k])
  {
    hide SequenceNumber;
  }

  lemma LastCount(packets: seq<Packet>, maximumSize: nat)
    ensures |LastN(EntriesOf(packets), maximumSize)| == if |packets| < maximumSize then |packets| else maximumSize
  {}

  lemma LastDistinct(packets: seq<Packet>, first: uint16, maximumSize: nat)
    requires 0 < maximumSize < TWO_TO_THE_16
    requires forall i :: 0 <= i < |packets| ==> SequenceNumber(packets[i]) == (first + i) % TWO_TO_THE_16
    ensures DistinctNumbers(LastN(EntriesOf(packets), maximumSize))
  {
    ConsecutiveIsDistinct(EntriesOf(packets), first, maximumSize);
    WindowIsDistinct(EntriesOf(packets), maximumSize, maximumSize);
  }

  /** The one packet of the last ones that has a number. */
  lemma NumberedByAge(packets: seq<Packet>, first: uint16, maximumSize: nat, number: uint16)
    requires 0 < maximumSize < TWO_TO_THE_16
    requires forall i :: 0 <= i < |packets| ==> SequenceNumber(packets[i]) == (first + i) % TWO_TO_THE_16
    ensures var age := (first + |packets| - 1 - number) % TWO_TO_THE_16;
            Numbered(LastN(EntriesOf(packets), maximumSize), number) ==
            if age < maximumSize && age < |packets| then [packets[|packets| - 1 - age]] else []
  {
    hide *;
    var entries := LastN(EntriesOf(packets), maximumSize);
    var age := (first + |packets| - 1 - number) % TWO_TO_THE_16;
    LastCount(packets, maximumSize);
    if age < maximumSize && age < |packets| {
      AgeOf(first, |packets|, number);
      LastEntry(packets, maximumSize, |entries| - 1 - age);
      LastDistinct(packets, first, maximumSize);
      OneNumbered(entries, |entries| - 1 - age);
    } else {
      forall i | 0 <= i < |entries|
        ensures entries[i].number != number
      {
        LastEntry(packets, maximumSize, i);
        if (first + (|packets| - |entries| + i)) % TWO_TO_THE_16 == number {
          AgeIs(first, |packets|, |packets| - |entries| + i, number);
        }
      }
      NobodyNumbered(entries, number);
    }
  }

  /** The packet of that age has the number. */
  lemma AgeOf(first: uint16, count: nat, number: uint16)
    ensures var age := (first + count - 1 - number) % TWO_TO_THE_16;
            age < count ==> (first + (count - 1 - age)) % TWO_TO_THE_16 == number
  {
    var age := (first + count - 1 - number) % TWO_TO_THE_16;
    var q := (first + count - 1 - number) / TWO_TO_THE_16;
    assert first + (count - 1 - age) == number + TWO_TO_THE_16 * q;
  }

  lemma AgeIs(first: uint16, count: nat, k: nat, number: uint16)
    requires k < count && count - 1 - k < TWO_TO_THE_16 && (first + k) % TWO_TO_THE_16 == number
    ensures (first + count - 1 - number) % TWO_TO_THE_16 == count - 1 - k
  {
    var q := (first + k) / TWO_TO_THE_16;
    assert first + count - 1 - number == count - 1 - k + TWO_TO_THE_16 * q;
  }

  lemma AgainSnoc(packets: seq<Packet>, last: int, maximumSize: nat, front: seq<uint16>, number: uint16)
    ensures Again(packets, last, maximumSize, front + [number]) ==
            var age := (last - number) % TWO_TO_THE_16;
            Again(packets, last, maximumSize, front) +
            if age < maximumSize && age < |packets| then [packets[|packets| - 1 - age]] else []
  {
    assert (front + [number])[..|front|] == front;
  }

  lemma AmongSnoc(entries: seq<Entry>, front: seq<uint16>, number: uint16)
    ensures Among(entries, front + [number]) == Among(entries, front) + Numbered(entries, number)
  {
    assert (front + [number])[..|front|] == front;
  }

  lemma NoneMissing(entries: seq<Entry>, packets: seq<Packet>, last: int, maximumSize: nat)
    ensures Among(entries, []) == [] == Again(packets, last, maximumSize, [])
  {}

  lemma {:induction false} AmongByAge(packets: seq<Packet>, first: uint16, maximumSize: nat, missing: seq<uint16>)
    requires 0 < maximumSize < TWO_TO_THE_16
    requires forall i :: 0 <= i < |packets| ==> SequenceNumber(packets[i]) == (first + i) % TWO_TO_THE_16
    ensures Among(LastN(EntriesOf(packets), maximumSize), missing) ==
            Again(packets, first + |packets| - 1, maximumSize, missing)
  {
    hide *;
    var entries := LastN(EntriesOf(packets), maximumSize);
    if missing == [] {
      NoneMissing(entries, packets, first + |packets| - 1, maximumSize);
    } else {
      var front, number := missing[..|missing| - 1], missing[|missing| - 1];
      SplitLast(missing);
      AmongByAge(packets, first, maximumSize, front);
      NumberedByAge(packets, first, maximumSize, number);
      AgainSnoc(packets, first + |packets| - 1, maximumSize, front, number);
      AmongSnoc(entries, front, number);
    }
  }

  /**
   For every stream, every list of parts the packetizer makes packets of, and every ordered list of missing
   numbers: the NACK packet built from the list makes the responder send again exactly the packets with those
   numbers among the last maximumSize, in the order of the list.
   */
  lemma PacketsSentAgain(
    stream: P.Stream, first: uint16, parts: seq<P.Part>, maximumSize: nat, missing: seq<uint16>, ssrc: seq<byte>)
    requires 0 < maximumSize < TWO_TO_THE_16
    requires InOrder(missing) && |EncodeAll(missing)| < TWO_TO_THE_16 - 2 && |ssrc| == 4
    ensures var message, packets := NackPacket(ssrc, EncodeAll(missing)), Sent(stream, first, parts);
            && WellFormed(message, 0)
            && Found(StoredFrom(NOTHING, maximumSize, packets), Requested(message, 0)) ==
               Again(packets, first + |packets| - 1, maximumSize, missing)
  {
    hide *;
    var packets := Sent(stream, first, parts);
    Retransmission(packets, first, maximumSize, missing, ssrc);
    AmongByAge(packets, first, maximumSize, missing);
  }
}
