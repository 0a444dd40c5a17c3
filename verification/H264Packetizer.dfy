/**
 The H.264 RTP packetizer: messages are split into NAL units, NAL units become RTP payloads, and each
 payload gets an RTP header (RFC 3550 section 5.1, without extensions) with the next sequence number.
 */
module H264Packetizer {
  import opened Bytes
  import opened StartCodes
  import opened NalUnits
  import opened Depacketizer

  const RTP_HEADER_SIZE := 12

  /** The parts of the configuration that packetizing does not change. */
  datatype Stream = Stream(payloadType: byte, timestamp: uint32, ssrc: uint32)

  // ----- RTP packets -----

  function RtpHeader(stream: Stream, sequenceNumber: uint16, marker: bool): (header: seq<byte>)
    ensures |header| == RTP_HEADER_SIZE
  {
    [128, stream.payloadType % 128 + Bit(marker, 128)] + Octets16(sequenceNumber) +
    Octets32(stream.timestamp) + Octets32(stream.ssrc)
  }

  function RtpPacket(stream: Stream, sequenceNumber: uint16, marker: bool, payload: seq<byte>): (packet: seq<byte>)
  {
    RtpHeader(stream, sequenceNumber, marker) + payload
  }

  function PayloadOf(packet: seq<byte>): seq<byte>
    requires |packet| >= RTP_HEADER_SIZE
  {
    packet[RTP_HEADER_SIZE..]
  }

  predicate IsMarked(packet: seq<byte>)
    requires |packet| >= RTP_HEADER_SIZE
  {
    packet[1] / 128 == 1
  }

  function NumberOf(packet: seq<byte>): uint16
    requires |packet| >= RTP_HEADER_SIZE
  {
    U16(packet, 2)
  }

  /** The header fields read back as they were written. */
  lemma RtpPacketRead(stream: Stream, sequenceNumber: uint16, marker: bool, payload: seq<byte>)
    ensures var packet := RtpPacket(stream, sequenceNumber, marker, payload);
            && |packet| >= RTP_HEADER_SIZE
            && PayloadOf(packet) == payload && IsMarked(packet) == marker && NumberOf(packet) == sequenceNumber
            && packet[1] % 128 == stream.payloadType % 128
            && U32(packet, 4) == stream.timestamp && U32(packet, 8) == stream.ssrc
  {
    var header := RtpHeader(stream, sequenceNumber, marker);
    var packet := header + payload;
    assert header[1] == stream.payloadType % 128 + Bit(marker, 128);
    assert header[2] == Octets16(sequenceNumber)[0] && header[3] == Octets16(sequenceNumber)[1];
    var t, s := Octets32(stream.timestamp), Octets32(stream.ssrc);
    assert header[4] == t[0] && header[5] == t[1] && header[6] == t[2] && header[7] == t[3];
    assert header[8] == s[0] && header[9] == s[1] && header[10] == s[2] && header[11] == s[3];
    assert U32(packet, 4) == U32(t, 0);
    assert U32(packet, 8) == U32(s, 0);
  }

  /** The twelve octets of the header as RFC 3550 section 5.1 lays them out: version 2, and nothing optional. */
  lemma RtpPacketOctets(stream: Stream, sequenceNumber: uint16, marker: bool, payload: seq<byte>)
    ensures var p := RtpPacket(stream, sequenceNumber, marker, payload);
            && |p| == 12 + |payload| && p[12..] == payload
            && p[0] == 0x80 && p[1] == stream.payloadType % 128 + (if marker then 128 else 0)
            && 256 * (p[2] as int) + p[3] as int == sequenceNumber
            && (((p[4] as int) * 256 + p[5] as int) * 256 + p[6] as int) * 256 + p[7] as int == stream.timestamp
            && (((p[8] as int) * 256 + p[9] as int) * 256 + p[10] as int) * 256 + p[11] as int == stream.ssrc
  {
    RtpPacketRead(stream, sequenceNumber, marker, payload);
    var header := RtpHeader(stream, sequenceNumber, marker);
    var p := RtpPacket(stream, sequenceNumber, marker, payload);
    assert forall i :: 0 <= i < 12 ==> p[i] == header[i];
    assert header[0] == 128 && header[1] == stream.payloadType % 128 + Bit(marker, 128);
    hide RtpHeader, RtpPacket;
  }

  // ----- Payloads and their markers -----

  datatype Part = Part(payload: seq<byte>, marker: bool)

  /** The payloads of one message; the last one carries the marker. */
  function Parts(payloads: seq<seq<byte>>): (parts: seq<Part>)
    ensures |parts| == |payloads|
    ensures forall i :: 0 <= i < |payloads| ==> parts[i] == Part(payloads[i], i == |payloads| - 1)
  {
    seq(|payloads|, i requires 0 <= i < |payloads| => Part(payloads[i], i == |payloads| - 1))
  }

  /**
   Every NAL unit above the limit is cut into parts that carry payload. Other limits, below 4, are not part
   of this model: the program does not check them, and its loop does not advance with parts of two bytes.
   */
  predicate Packetizable(separator: Separator, limit: nat, message: seq<byte>)
  {
    var nalus := Split(separator, message);
    forall i :: 0 <= i < |nalus| && |nalus[i]| > limit ==> Fragmentable(nalus[i], limit)
  }

  predicate AllPacketizable(separator: Separator, limit: nat, messages: seq<seq<byte>>)
  {
    forall i :: 0 <= i < |messages| ==> Packetizable(separator, limit, messages[i])
  }

  function PartsOf(separator: Separator, limit: nat, message: seq<byte>): (parts: seq<Part>)
    requires Packetizable(separator, limit, message)
  {
    Parts(Payloads(Split(separator, message), limit))
  }

  function AllParts(separator: Separator, limit: nat, messages: seq<seq<byte>>): (parts: seq<Part>)
    requires AllPacketizable(separator, limit, messages)
  {
    if messages == [] then []
    else
      AllParts(separator, limit, messages[..|messages| - 1]) +
      PartsOf(separator, limit, messages[|messages| - 1])
  }

  /** Each of the first n messages has a payload. */
  predicate AllYield(separator: Separator, limit: nat, messages: seq<seq<byte>>, n: nat)
    requires n <= |messages| && AllPacketizable(separator, limit, messages)
  {
    forall i :: 0 <= i < n ==> PartsOf(separator, limit, messages[i]) != []
  }

  /** The packets of the parts, numbered from `first` modulo 2^16. */
  function Packets(stream: Stream, first: uint16, parts: seq<Part>): (packets: seq<seq<byte>>)
    ensures |packets| == |parts|
    ensures forall i :: 0 <= i < |parts| ==>
              packets[i] == RtpPacket(stream, (first + i) % TWO_TO_THE_16, parts[i].marker, parts[i].payload)
  {
    seq(|parts|, i requires 0 <= i < |parts| =>
      RtpPacket(stream, (first + i) % TWO_TO_THE_16, parts[i].marker, parts[i].payload))
  }

  lemma NextNumber(first: nat, a: nat, i: nat)
    ensures ((first + a) % TWO_TO_THE_16 + i) % TWO_TO_THE_16 == (first + (a + i)) % TWO_TO_THE_16
  {}

  lemma PacketsAppend(stream: Stream, first: uint16, a: seq<Part>, b: seq<Part>)
    ensures Packets(stream, first, a + b) ==
            Packets(stream, first, a) + Packets(stream, (first + |a|) % TWO_TO_THE_16, b)
  {
    hide RtpPacket, Packets;
    var whole := Packets(stream, first, a + b);
    var front, back := Packets(stream, first, a), Packets(stream, (first + |a|) % TWO_TO_THE_16, b);
    forall k | 0 <= k < |a| + |b| ensures whole[k] == (front + back)[k] {
      if k >= |a| {
        NextNumber(first, |a|, k - |a|);
        assert (a + b)[k] == b[k - |a|];
      }
    }
    assert |whole| == |front + back|;
  }

  class RtpPacketizationConfig {
    const stream: Stream
    var sequenceNumber: uint16

    constructor (stream: Stream, sequenceNumber: uint16)
      ensures this.stream == stream && this.sequenceNumber == sequenceNumber
    {
      this.stream, this.sequenceNumber := stream, sequenceNumber;
    }
  }

  class H264RtpPacketizer {
    const rtpConfig: RtpPacketizationConfig
    const maximumFragmentSize: uint16
    const separator: Separator

    constructor (separator: Separator, rtpConfig: RtpPacketizationConfig, maximumFragmentSize: uint16)
      ensures this.separator == separator && this.rtpConfig == rtpConfig
      ensures this.maximumFragmentSize == maximumFragmentSize
    {
      this.separator, this.rtpConfig, this.maximumFragmentSize := separator, rtpConfig, maximumFragmentSize;
    }

    /** One packet; the sequence number moves on. */
    method Packetize(payload: seq<byte>, setMark: bool) returns (packet: seq<byte>)
      modifies rtpConfig
      ensures packet == RtpPacket(rtpConfig.stream, old(rtpConfig.sequenceNumber), setMark, payload)
      ensures rtpConfig.sequenceNumber == (old(rtpConfig.sequenceNumber) + 1) % TWO_TO_THE_16
    {
      hide *;
      HeaderSize();
      var number := rtpConfig.sequenceNumber;
      var msg := new byte[RTP_HEADER_SIZE + |payload|](_ => 0);
      WriteHeader(msg, rtpConfig.stream, number, setMark);
      rtpConfig.sequenceNumber := (number + 1) % TWO_TO_THE_16;
      WriteOctets(msg, RTP_HEADER_SIZE, payload);
      packet := msg[..];
      PacketOf(packet, rtpConfig.stream, number, setMark, payload);
    }

    method PacketizeAll(fragments: seq<seq<byte>>) returns (packets: seq<seq<byte>>)
      requires fragments != []
      modifies rtpConfig
      ensures packets == Packets(rtpConfig.stream, old(rtpConfig.sequenceNumber), Parts(fragments))
      ensures rtpConfig.sequenceNumber == (old(rtpConfig.sequenceNumber) + |fragments|) % TWO_TO_THE_16
    {
      hide RtpPacket, Packets, Parts;
      packets := [];
      var i := 0;
      while i < |fragments| - 1
        invariant 0 <= i <= |fragments| - 1
        invariant rtpConfig.sequenceNumber == (old(rtpConfig.sequenceNumber) + i) % TWO_TO_THE_16
        invariant |packets| == i
        invariant forall k :: 0 <= k < i ==>
                    packets[k] == Packets(rtpConfig.stream, old(rtpConfig.sequenceNumber), Parts(fragments))[k]
      {
        var packet := Packetize(fragments[i], false);
        packets := packets + [packet];
        i := i + 1;
      }
      var packet := Packetize(fragments[i], true);
      packets := packets + [packet];
    }

    /**
     None when a message has no NAL unit, as in the length format; the packets of the messages before
     it are lost, but their sequence numbers are used. `done` counts those messages.
     */
    method ProcessOutgoingBinaryMessage(messages: seq<seq<byte>>)
      returns (packets: Option<seq<seq<byte>>>, ghost done: nat)
      requires AllPacketizable(separator, maximumFragmentSize, messages)
      modifies rtpConfig
      ensures done <= |messages|
      ensures AllYield(separator, maximumFragmentSize, messages, done)
      ensures done < |messages| ==> PartsOf(separator, maximumFragmentSize, messages[done]) == []
      ensures packets ==
              if done < |messages| then None
              else Some(Packets(rtpConfig.stream, old(rtpConfig.sequenceNumber),
                                AllParts(separator, maximumFragmentSize, messages)))
      ensures rtpConfig.sequenceNumber ==
              (old(rtpConfig.sequenceNumber) + |AllParts(separator, maximumFragmentSize, messages[..done])|)
              % TWO_TO_THE_16
    {
      hide RtpPacket, Packets, Parts, Fragmentable, PartsOf, Payloads, AllYield, AllPacketizable, AllParts, Split;
      var all: seq<seq<byte>> := [];
      ghost var first := rtpConfig.sequenceNumber;
      ghost var parts: seq<Part> := [];
      var i := 0;
      NothingYet(separator, maximumFragmentSize, messages, rtpConfig.stream, first);
      while i < |messages|
        invariant 0 <= i <= |messages|
        invariant AllPacketizable(separator, maximumFragmentSize, messages[..i])
        invariant AllYield(separator, maximumFragmentSize, messages, i)
        invariant parts == AllParts(separator, maximumFragmentSize, messages[..i])
        invariant all == Packets(rtpConfig.stream, first, parts)
        invariant rtpConfig.sequenceNumber == (first + |parts|) % TWO_TO_THE_16
      {
        var nalus := SplitMessage(messages[i], separator);
        PacketizableAt(separator, maximumFragmentSize, messages, i);
        var fragments := GenerateFragments(nalus, maximumFragmentSize);
        assert Parts(fragments) == PartsOf(separator, maximumFragmentSize, messages[i]);
        if |fragments| == 0 {
          return None, i;
        }
        var packets := PacketizeAll(fragments);
        PacketsAppend(rtpConfig.stream, first, parts, Parts(fragments));
        NextNumber(first, |parts|, |fragments|);
        AllPartsSnoc(separator, maximumFragmentSize, messages, i);
        YieldSnoc(separator, maximumFragmentSize, messages, i);
        all, parts := all + packets, parts + Parts(fragments);
        i := i + 1;
      }
      assert messages[..|messages|] == messages;
      return Some(all), i;
    }
  }

  lemma PacketizableAt(separator: Separator, limit: nat, messages: seq<seq<byte>>, i: nat)
    requires AllPacketizable(separator, limit, messages) && i < |messages|
    ensures Packetizable(separator, limit, messages[i])
    ensures PartsOf(separator, limit, messages[i]) == Parts(Payloads(Split(separator, messages[i]), limit))
    ensures AllPacketizable(separator, limit, messages[..i + 1])
  {}

  lemma NothingYet(separator: Separator, limit: nat, messages: seq<seq<byte>>, stream: Stream, first: uint16)
    requires AllPacketizable(separator, limit, messages)
    ensures AllYield(separator, limit, messages, 0) && AllPacketizable(separator, limit, messages[..0])
    ensures AllParts(separator, limit, messages[..0]) == [] && Packets(stream, first, []) == []
  {}

  lemma YieldSnoc(separator: Separator, limit: nat, messages: seq<seq<byte>>, i: nat)
    requires AllPacketizable(separator, limit, messages) && i < |messages|
    requires AllYield(separator, limit, messages, i) && PartsOf(separator, limit, messages[i]) != []
    ensures AllYield(separator, limit, messages, i + 1)
  {}

  lemma AllPartsSnoc(separator: Separator, limit: nat, messages: seq<seq<byte>>, i: nat)
    requires AllPacketizable(separator, limit, messages) && i < |messages|
    ensures AllParts(separator, limit, messages[..i + 1]) ==
            AllParts(separator, limit, messages[..i]) + PartsOf(separator, limit, messages[i])
  {
    assert messages[..i + 1][..i] == messages[..i];
  }

  /** The marker bit is kept, the other seven bits are those of the type. */
  function SetPayloadType(octet: byte, payloadType: byte): byte
  {
    octet - octet % 128 + payloadType % 128
  }

  lemma HeaderSize()
    ensures RTP_HEADER_SIZE == 12 && TWO_TO_THE_16 == 0x1_0000
  {}

  lemma SecondOctet(payloadType: byte, marker: bool)
    ensures SetBit(0, 128, true) == 128
    ensures (if marker then SetBit(SetPayloadType(0, payloadType), 128, true) else SetPayloadType(0, payloadType))
            == payloadType % 128 + Bit(marker, 128)
  {}

  lemma PacketLayout(header: seq<byte>, stream: Stream, number: uint16, marker: bool)
    requires |header| == RTP_HEADER_SIZE && header[0] == 128
    requires header[1] == stream.payloadType % 128 + Bit(marker, 128)
    requires header[2..4] == Octets16(number)
    requires header[4..8] == Octets32(stream.timestamp) && header[8..12] == Octets32(stream.ssrc)
    ensures header == RtpHeader(stream, number, marker)
  {
    hide Octets16, Octets32;
    assert header == header[..2] + header[2..4] + header[4..8] + header[8..12];
  }

  lemma PacketOf(packet: seq<byte>, stream: Stream, number: uint16, marker: bool, payload: seq<byte>)
    requires packet == RtpHeader(stream, number, marker) + payload
    ensures packet == RtpPacket(stream, number, marker, payload)
  {}

  /** The header fields, written into a zeroed buffer. */
  method WriteHeader(msg: array<byte>, stream: Stream, number: uint16, setMark: bool)
    requires msg.Length >= RTP_HEADER_SIZE && msg[0] == 0 && msg[1] == 0
    modifies msg
    ensures msg[..RTP_HEADER_SIZE] == RtpHeader(stream, number, setMark)
  {
    hide *;
    HeaderSize();
    msg[1] := SetPayloadType(msg[1], stream.payloadType);
    WriteOctets(msg, 2, Octets16(number));
    WriteOctets(msg, 4, Octets32(stream.timestamp));
    WriteOctets(msg, 8, Octets32(stream.ssrc));
    if setMark {
      msg[1] := SetBit(msg[1], 128, true);
    }
    msg[0] := SetBit(msg[0], 128, true);
    SecondOctet(stream.payloadType, setMark);
    PacketLayout(msg[..RTP_HEADER_SIZE], stream, number, setMark);
  }

  // ----- From messages to received NAL units -----

  /** The message splits into at least one NAL unit, each of which may be sent. */
  predicate IsVideo(separator: Separator, message: seq<byte>)
  {
    var nalus := Split(separator, message);
    nalus != [] && forall i :: 0 <= i < |nalus| ==> IsNalu(nalus[i])
  }

  predicate AllVideo(separator: Separator, messages: seq<seq<byte>>)
  {
    forall i :: 0 <= i < |messages| ==> IsVideo(separator, messages[i])
  }

  function AllNalus(separator: Separator, messages: seq<seq<byte>>): (nalus: seq<seq<byte>>)
  {
    if messages == [] then []
    else AllNalus(separator, messages[..|messages| - 1]) + Split(separator, messages[|messages| - 1])
  }

  function PartPayloads(parts: seq<Part>): (payloads: seq<seq<byte>>)
    ensures |payloads| == |parts|
    ensures forall i :: 0 <= i < |parts| ==> payloads[i] == parts[i].payload
  {
    seq(|parts|, i requires 0 <= i < |parts| => parts[i].payload)
  }

  /** The payloads of RTP packets. */
  function PayloadsIn(packets: seq<seq<byte>>): (payloads: seq<seq<byte>>)
    requires forall i :: 0 <= i < |packets| ==> |packets[i]| >= RTP_HEADER_SIZE
    ensures |payloads| == |packets|
    ensures forall i :: 0 <= i < |packets| ==> payloads[i] == PayloadOf(packets[i])
  {
    seq(|packets|, i requires 0 <= i < |packets| => PayloadOf(packets[i]))
  }

  lemma VideoMessage(separator: Separator, limit: nat, message: seq<byte>, received: seq<seq<byte>>)
    requires limit >= 4 && IsVideo(separator, message)
    ensures Packetizable(separator, limit, message)
    ensures PartsOf(separator, limit, message) != []
    ensures ReceiveAll(Receiver(received, None), PartPayloads(PartsOf(separator, limit, message))) ==
            Receiver(received + Split(separator, message), None)
    ensures forall part :: part in PartsOf(separator, limit, message) ==> |part.payload| <= limit
  {
    hide ReceiveAll, Split, Fragmentable, IsNalu, Payloads;
    var nalus := Split(separator, message);
    PayloadsReceived(received, nalus, limit);
    PayloadsWithin(nalus, limit);
    var payloads := Payloads(nalus, limit);
    assert PartPayloads(Parts(payloads)) == payloads;
  }

  lemma ReceiveParts(r: Receiver, a: seq<Part>, b: seq<Part>)
    ensures ReceiveAll(r, PartPayloads(a + b)) == ReceiveAll(ReceiveAll(r, PartPayloads(a)), PartPayloads(b))
  {
    hide ReceiveAll;
    ReceiveAppend(r, PartPayloads(a), PartPayloads(b));
    assert PartPayloads(a + b) == PartPayloads(a) + PartPayloads(b);
  }

  predicate AllWithin(parts: seq<Part>, limit: nat)
  {
    forall i :: 0 <= i < |parts| ==> |parts[i].payload| <= limit
  }

  lemma {:induction false} AllPartsReceived(separator: Separator, limit: nat, messages: seq<seq<byte>>)
    requires limit >= 4 && AllVideo(separator, messages)
    ensures AllPacketizable(separator, limit, messages)
    ensures AllYield(separator, limit, messages, |messages|)
    ensures ReceiveAll(IDLE, PartPayloads(AllParts(separator, limit, messages))) ==
            Receiver(AllNalus(separator, messages), None)
    ensures AllWithin(AllParts(separator, limit, messages), limit)
  {
    if messages != [] {
      var front, last := messages[..|messages| - 1], messages[|messages| - 1];
      AllPartsReceived(separator, limit, front);
      VideoMessage(separator, limit, last, AllNalus(separator, front));
      AllYieldLast(separator, limit, messages);
      hide IsVideo, Packetizable, Split, PartsOf, Receive, ReceiveAll, PartPayloads, AllYield;
      ReceiveParts(IDLE, AllParts(separator, limit, front), PartsOf(separator, limit, last));
    }
  }

  lemma AllYieldLast(separator: Separator, limit: nat, messages: seq<seq<byte>>)
    requires messages != []
    requires AllPacketizable(separator, limit, messages[..|messages| - 1])
    requires AllYield(separator, limit, messages[..|messages| - 1], |messages| - 1)
    requires Packetizable(separator, limit, messages[|messages| - 1])
    requires PartsOf(separator, limit, messages[|messages| - 1]) != []
    ensures AllPacketizable(separator, limit, messages) && AllYield(separator, limit, messages, |messages|)
  {
    hide Packetizable, PartsOf;
    var front := messages[..|messages| - 1];
    forall i | 0 <= i < |messages| ensures Packetizable(separator, limit, messages[i]) {
      assert i < |front| ==> messages[i] == front[i];
    }
    forall i | 0 <= i < |messages| ensures PartsOf(separator, limit, messages[i]) != [] {
      assert i < |front| ==> messages[i] == front[i];
    }
  }

  /** Part j of message m is behind all parts of the messages before it. */
  lemma {:induction false} PartOfMessage(separator: Separator, limit: nat, messages: seq<seq<byte>>, m: nat, j: nat)
    requires AllPacketizable(separator, limit, messages) && m < |messages|
    requires j < |PartsOf(separator, limit, messages[m])|
    ensures AllPacketizable(separator, limit, messages[..m])
    ensures var k := |AllParts(separator, limit, messages[..m])| + j;
            && k < |AllParts(separator, limit, messages)|
            && AllParts(separator, limit, messages)[k] == PartsOf(separator, limit, messages[m])[j]
  {
    hide Packetizable, PartsOf;
    var front := messages[..|messages| - 1];
    if m < |front| {
      PartOfMessage(separator, limit, front, m, j);
      assert front[..m] == messages[..m];
    }
  }

  /** The marker is on the last packet of each message, and on no other. */
  lemma MarkerEndsMessage(separator: Separator, limit: nat, messages: seq<seq<byte>>, m: nat, j: nat)
    requires AllPacketizable(separator, limit, messages) && m < |messages|
    requires j < |PartsOf(separator, limit, messages[m])|
    ensures AllPacketizable(separator, limit, messages[..m])
    ensures var k := |AllParts(separator, limit, messages[..m])| + j;
            && k < |AllParts(separator, limit, messages)|
            && AllParts(separator, limit, messages)[k].marker == (j == |PartsOf(separator, limit, messages[m])| - 1)
  {
    PartOfMessage(separator, limit, messages, m, j);
  }

  /** The packet is what a receiver needs to get the part back. */
  predicate Carries(packet: seq<byte>, part: Part, number: int)
  {
    && |packet| >= RTP_HEADER_SIZE
    && PayloadOf(packet) == part.payload && IsMarked(packet) == part.marker && NumberOf(packet) == number
  }

  lemma PacketsCarry(stream: Stream, first: uint16, parts: seq<Part>)
    ensures var packets := Packets(stream, first, parts);
            && (forall i :: 0 <= i < |packets| ==> Carries(packets[i], parts[i], (first + i) % TWO_TO_THE_16))
            && (forall i :: 0 <= i < |packets| ==> |packets[i]| >= RTP_HEADER_SIZE)
            && PayloadsIn(packets) == PartPayloads(parts)
  {
    hide RtpPacket, PayloadOf, IsMarked, NumberOf;
    var packets := Packets(stream, first, parts);
    forall i | 0 <= i < |packets| ensures Carries(packets[i], parts[i], (first + i) % TWO_TO_THE_16) {
      RtpPacketRead(stream, (first + i) % TWO_TO_THE_16, parts[i].marker, parts[i].payload);
    }
  }

  /**
   For every sequence of messages, every limit of at least 4 and every first sequence number: the
   packets are received as the NAL units of the messages, in order; each payload is within the limit;
   the sequence numbers are consecutive modulo 2^16.
   */
  lemma EndToEnd(separator: Separator, stream: Stream, limit: nat, messages: seq<seq<byte>>, first: uint16)
    requires limit >= 4 && AllVideo(separator, messages)
    ensures AllPacketizable(separator, limit, messages) && AllYield(separator, limit, messages, |messages|)
    ensures var parts := AllParts(separator, limit, messages);
            var packets := Packets(stream, first, parts);
            && (forall i :: 0 <= i < |packets| ==> Carries(packets[i], parts[i], (first + i) % TWO_TO_THE_16))
            && (forall i :: 0 <= i < |packets| ==> |packets[i]| >= RTP_HEADER_SIZE)
            && AllWithin(parts, limit)
            && ReceiveAll(IDLE, PayloadsIn(packets)) == Receiver(AllNalus(separator, messages), None)
  {
    hide *;
    AllPartsReceived(separator, limit, messages);
    PacketsCarry(stream, first, AllParts(separator, limit, messages));
  }

  /** A message of NAL units joined with start codes is received as exactly those NAL units. */
  lemma StartCodesEndToEnd(separator: Separator, stream: Stream, limit: nat, codes: seq<seq<byte>>,
                           nalus: seq<seq<byte>>, first: uint16)
    requires separator != Length && limit >= 4 && |codes| == |nalus| > 0 && AllCodes(separator, codes)
    requires AllCodeFree(separator, nalus) && Separable(separator, nalus[0], codes[1..], nalus[1..])
    requires forall i :: 0 <= i < |nalus| ==> IsNalu(nalus[i])
    ensures var messages := [Interleave(codes, nalus)];
            && AllPacketizable(separator, limit, messages)
            && var packets := Packets(stream, first, AllParts(separator, limit, messages));
            && (forall i :: 0 <= i < |packets| ==> |packets[i]| >= RTP_HEADER_SIZE)
            && ReceiveAll(IDLE, PayloadsIn(packets)) == Receiver(nalus, None)
  {
    SplitOfJoin(separator, codes, nalus);
    OneVideoMessage(separator, Interleave(codes, nalus));
    hide *;
    EndToEnd(separator, stream, limit, [Interleave(codes, nalus)], first);
  }

  lemma OneVideoMessage(separator: Separator, message: seq<byte>)
    requires IsVideo(separator, message)
    ensures AllVideo(separator, [message])
    ensures AllNalus(separator, [message]) == Split(separator, message)
  {
    hide Split, IsVideo;
    assert AllNalus(separator, [message][..0]) == [];
  }
}
