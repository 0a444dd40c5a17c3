/**
 A receiver for H.264 RTP payloads, written from RFC 6184: single NAL unit packets (section 5.6) and
 FU-A fragmentation units (section 5.8). It is the specification of the packetizer.
 */
module Depacketizer {
  import opened Bytes
  import opened NalUnits

  datatype Receiver =
    | Receiver(received: seq<seq<byte>>, pending: Option<seq<byte>>)
    | Malformed

  const IDLE := Receiver([], None)

  function IsStart(header: byte): bool { header / 128 == 1 }
  function IsEnd(header: byte): bool { header / 64 % 2 == 1 }

  /** The header octet of the fragmented NAL unit: F and NRI of the indicator, type of the FU header. */
  function FirstOctet(indicator: byte, header: byte): byte
  {
    indicator - indicator % 32 + header % 32
  }

  function Receive(r: Receiver, payload: seq<byte>): Receiver
  {
    if r.Malformed? || payload == [] then Malformed
    else if 1 <= UnitType(payload[0]) <= 23 then
      if r.pending == None then Receiver(r.received + [payload], None) else Malformed
    else if UnitType(payload[0]) == NAL_TYPE_FU_A && |payload| >= 2 then
      var first, start, end := FirstOctet(payload[0], payload[1]), IsStart(payload[1]), IsEnd(payload[1]);
      if start && end then Malformed
      else if start then
        if r.pending == None then Receiver(r.received, Some([first] + payload[2..])) else Malformed
      else if r.pending == None || r.pending.value == [] || r.pending.value[0] != first then Malformed
      else
        var nalu := r.pending.value + payload[2..];
        if end then Receiver(r.received + [nalu], None) else Receiver(r.received, Some(nalu))
    else Malformed
  }

  function ReceiveAll(r: Receiver, payloads: seq<seq<byte>>): Receiver
    decreases payloads
  {
    if payloads == [] then r else ReceiveAll(Receive(r, payloads[0]), payloads[1..])
  }

  lemma {:induction false} ReceiveAppend(r: Receiver, a: seq<seq<byte>>, b: seq<seq<byte>>)
    ensures ReceiveAll(r, a + b) == ReceiveAll(ReceiveAll(r, a), b)
    decreases a
  {
    if a == [] {
      assert a + b == b;
    } else {
      assert (a + b)[1..] == a[1..] + b;
      ReceiveAppend(Receive(r, a[0]), a[1..], b);
    }
  }

  /** NAL units that may be sent as they are. */
  predicate IsNalu(nalu: seq<byte>)
  {
    nalu != [] && 1 <= UnitType(nalu[0]) <= 23
  }

  lemma IndicatorIsFuA(first: byte)
    ensures UnitType(Indicator(ForbiddenBit(first), Nri(first))) == NAL_TYPE_FU_A
    ensures Indicator(ForbiddenBit(first), Nri(first)) - NAL_TYPE_FU_A == first - first % 32
  {}

  lemma FuHeaderBits(fragmentType: FragmentType, unitType: byte)
    ensures var header := FuHeader(fragmentType, unitType);
            && IsStart(header) == (fragmentType == Start)
            && IsEnd(header) == (fragmentType == End)
            && header % 32 == unitType % 32
  {}

  /** What the receiver reads from the two octets of a fragment. */
  lemma FragmentOctets(nalu: seq<byte>, fragmentType: FragmentType, from: nat, to: nat)
    requires 1 <= from <= to <= |nalu|
    ensures var f := Fragment(nalu, fragmentType, from, to);
            && |f| >= 2 && f[2..] == nalu[from..to]
            && UnitType(f[0]) == NAL_TYPE_FU_A
            && FirstOctet(f[0], f[1]) == nalu[0]
            && IsStart(f[1]) == (fragmentType == Start) && IsEnd(f[1]) == (fragmentType == End)
  {
    IndicatorIsFuA(nalu[0]);
    FuHeaderBits(fragmentType, UnitType(nalu[0]));
  }

  /** One fragment is received as the piece of the NAL unit it was cut from. */
  lemma FragmentReceived(received: seq<seq<byte>>, nalu: seq<byte>, fragmentType: FragmentType, from: nat, to: nat)
    requires 1 <= from <= to <= |nalu|
    requires fragmentType == Start <==> from == 1
    requires fragmentType == End <==> from > 1 && to == |nalu|
    ensures Receive(Receiver(received, if from == 1 then None else Some(nalu[..from])),
                    Fragment(nalu, fragmentType, from, to)) ==
            if fragmentType == End then Receiver(received + [nalu], None) else Receiver(received, Some(nalu[..to]))
  {
    hide FirstOctet, IsStart, IsEnd, UnitType, Fragment;
    FragmentOctets(nalu, fragmentType, from, to);
    assert nalu[..from] + nalu[from..to] == nalu[..to];
    assert nalu[..|nalu|] == nalu;
    assert from == 1 ==> nalu[..1] == [nalu[0]];
  }

  lemma {:induction false} FragmentsReceived(received: seq<seq<byte>>, nalu: seq<byte>, step: nat, offset: nat)
    requires 0 < step && offset < |nalu| - 1 && step < |nalu| - 1
    ensures ReceiveAll(Receiver(received, if offset == 0 then None else Some(nalu[..1 + offset])),
                       FragmentsFromOffset(nalu, step, offset)) == Receiver(received + [nalu], None)
    decreases |nalu| - offset
  {
    hide Receive, Fragment;
    var size := |nalu| - 1;
    var next := if offset + step < size then offset + step else size;
    FragmentReceived(received, nalu, TypeAt(offset, step, size), 1 + offset, 1 + next);
    if next < size {
      FragmentsReceived(received, nalu, step, next);
    }
  }

  lemma PayloadsOfReceived(received: seq<seq<byte>>, nalu: seq<byte>, limit: nat)
    requires limit >= 4 && IsNalu(nalu)
    ensures |nalu| > limit ==> Fragmentable(nalu, limit)
    ensures ReceiveAll(Receiver(received, None), PayloadsOf(nalu, limit)) == Receiver(received + [nalu], None)
  {
    if |nalu| > limit {
      PartsCarryPayload(|nalu|, limit);
      FragmentsReceived(received, nalu, PartSize(|nalu|, limit) - 2, 0);
    }
  }

  /** For every list of NAL units and every limit of at least 4, the payloads are received as those NAL units. */
  lemma {:induction false} PayloadsReceived(received: seq<seq<byte>>, nalus: seq<seq<byte>>, limit: nat)
    requires limit >= 4 && forall i :: 0 <= i < |nalus| ==> IsNalu(nalus[i])
    ensures forall i :: 0 <= i < |nalus| && |nalus[i]| > limit ==> Fragmentable(nalus[i], limit)
    ensures ReceiveAll(Receiver(received, None), Payloads(nalus, limit)) == Receiver(received + nalus, None)
    decreases nalus
  {
    if nalus != [] {
      hide Receive, IsNalu, PayloadsOf, Fragmentable;
      var front, last := nalus[..|nalus| - 1], nalus[|nalus| - 1];
      PayloadsReceived(received, front, limit);
      PayloadsOfReceived(received + front, last, limit);
      ReceiveAppend(Receiver(received, None), Payloads(front, limit), PayloadsOf(last, limit));
      SplitLast(nalus);
      ConcatAssociative(received, front, [last]);
    }
  }

  /** Each payload is within the limit. */
  lemma {:induction false} PayloadsWithin(nalus: seq<seq<byte>>, limit: nat)
    requires forall i :: 0 <= i < |nalus| && |nalus[i]| > limit ==> Fragmentable(nalus[i], limit)
    ensures forall i :: 0 <= i < |Payloads(nalus, limit)| ==> |Payloads(nalus, limit)[i]| <= limit
    ensures |Payloads(nalus, limit)| >= |nalus|
  {
    if nalus != [] {
      var last := nalus[|nalus| - 1];
      PayloadsWithin(nalus[..|nalus| - 1], limit);
      if |last| > limit {
        FragmentsWithin(last, PartSize(|last|, limit) - 2, 0);
      }
    }
  }

  /** A fragmented NAL unit has at least two fragments, the first a Start, the last an End, the others Middle. */
  lemma FragmentShape(nalu: seq<byte>, step: nat, offset: nat, i: nat)
    requires 0 < step && offset < |nalu| - 1
    requires i < |FragmentsFromOffset(nalu, step, offset)|
    ensures var fragments := FragmentsFromOffset(nalu, step, offset);
            && |fragments[i]| >= 2
            && IsStart(fragments[i][1]) == (offset == 0 && i == 0)
            && IsEnd(fragments[i][1]) == (i == |fragments| - 1 && (offset > 0 || i > 0))
    decreases i
  {
    var size := |nalu| - 1;
    var next := if offset + step < size then offset + step else size;
    FragmentOctets(nalu, TypeAt(offset, step, size), 1 + offset, 1 + next);
    if i > 0 {
      FragmentShape(nalu, step, next, i - 1);
    }
  }
}
