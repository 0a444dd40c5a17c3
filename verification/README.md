# Verified models of libdatachannel's wire formats, queues and schedulers

This project models the parts of libdatachannel whose state must agree with a simple specification, and proves
that it does. `dafny verify dfyconfig.toml` checks everything.

- **WebSocket wire path** (`WsFrames`, `WsReceiver`, `WsTransport`, `TcpTransport`, `Http`, `WsHandshake`,
  `WsIdle`, `WsEndToEnd`, `WsExamples`, `WsTexts`, `WsRefusals`). The frame codec of RFC 6455 section 5.2, an accumulating receive buffer with reassembly
  (section 5.4), the opening handshake (section 4), the TCP send queue with partial writes, and all of it composed:
  whatever the masking keys, the partial writes and the chunks, the messages delivered are a prefix of those sent.
- **H.264 packetization** (`StartCodes`, `NalUnits`, `Depacketizer`, `H264Packetizer`). Start-code splitting,
  FU-A fragmentation and RTP packets, against a receiver written from RFC 6184 sections 5.6 and 5.8.
- **NACK** (`NackField`, `NackStore`, `NackResponder`, `RtpRetransmission`). The PID+BLP codec of RFC 4585 section 6.2.1, the linked list
  with an index that holds the last N packets, and the responder.
- **Queues and schedulers** (`Queue`, `SctpTransport`, `Processor`, `DtlsReceiver`). Conservation, order, exact
  buffered amounts, one task at a time, and no lost wake-up, in every interleaving and for every answer of the
  stack below.
- **Data-channel streams** (`IceRole`, `DataChannels`, `TwoPeers`). DTLS roles from offers and answers
  (RFC 5763 section 5) and stream identifiers by the parity rule (RFC 8832 section 6), for two peers.
- **Smaller algorithms** (`Getopt`, `Sdes`, `SdesAccepted`, `SdpMedia`, `SdpText`, `SdpTexts`). The permuting scan of argv in place, RTCP
  source description packets (RFC 3550 section 6.5), and the lines and the text of an SDP media section.

Objects the program updates in place are classes, and every method of theirs is proved against a function on
values; the results about runs are lemmas about those functions. Where several threads take part, each atomic access
and each section under a mutex is one step of a state machine. `Bytes` and `Numbers` hold octets, byte order,
decimal numbers and facts about sequences. Where a writer and a reader share a definition, its meaning is stated apart
from both, octet by octet or letter by letter: in `WsExamples` (RFC 6455 section 5.7), `WsTexts`, `WsRefusals`, `SdpTexts`, `StartCodes.CodesByOctets`,
`H264Packetizer.RtpPacketOctets`, `NalUnits.FragmentsExactly`, `NackResponder.NackPacketOctets` and `SdesAccepted`.

Some promises do not hold for all inputs. For these there is a concrete failing case, and exactly when they hold is
proved. The failing cases are `WsReceiver.MessageBehindClose`, `NackStore.ReusedNumberBreaksLastN`,
`NackField.WrappedCoverCanBeShorter`, `DtlsReceiver.EarlyDatagramIsStranded`, `DataChannels.FailureStays`,
`IceRole.CrossingOffersClash`, `TwoPeers.SuppliedIsRefused` and `SdpText.LineFeedIsLost`. The exact conditions are `WsReceiver.SegmentationExactly`,
`NackStore.AlwaysLastNExactly` and `NackStore.StoreKeepsLastNExactly`, `NackField.ShorterCoverExactly`,
`DtlsReceiver.NoLostWakeUpExactly`, `DataChannels.AssignedExactly` and `DataChannels.AfterFailureExactly`,
`IceRole.RolesAreComplementary`, `TwoPeers.RejectedExactly`, `SdpText.TextRoundTripExactly`, and, for smaller promises, `DataChannels.OpenedIsFoundExactlyWhenNew`,
`Sdes.CountedExactly`, `Sdes.ChunkHoldsItemsExactly`, `SdesAccepted.AcceptedExactly`, `Getopt.RescanIsIdempotent`,
`StartCodes.SplitOfJoin`, `NalUnits.LeastLimit`, `SdpMedia.ExtMapRead`, `SdpMedia.RtpMapRead`,
`Http.ExplodeOfImplode` and `Queue.Queue.Exchange`.

## Model

| member | source | states |
|---|---|---|
| WsFrames.DecodeOfEncode | src/impl/wstransport.cpp:232-382 | the receiver reads back opcode, final bit, mask bit and payload of any frame with a 4-bit opcode, in all three length encodings, for every masking key and whatever octets follow |
| WsFrames.ProperPrefixIsIncomplete | src/impl/wstransport.cpp:232-267 | no proper prefix of a frame's octets is taken for a complete frame |
| WsFrames.DecodeOfMore | src/impl/wstransport.cpp:232-276 | octets behind a complete frame do not change what is read |
| WsFrames.WriteFrame | src/impl/wstransport.cpp:341-382 | the message handed down is the frame's encoding under the key chosen; its last octets are the payload, each bit of it flipped exactly when the key's bit is set if the frame is masked; the payload buffer is left the same way |
| WsFrames.WriteHeader | src/impl/wstransport.cpp:347-362 | the 14-octet buffer starts with the header in the right one of the three length encodings |
| WsFrames.MaskInPlace | src/impl/wstransport.cpp:371-372 | every bit of every payload octet is combined with the bit of the key octet of its position modulo four, in place |
| Bytes.XorByBits | src/impl/wstransport.cpp:371-372 | a bit of an exclusive or is set exactly when the two octets' bits differ |
| WsExamples.FrameOctets | src/impl/wstransport.cpp:341-382 | the octets of RFC 6455 section 5.7: a text, the same text masked, a ping, and its masked pong |
| WsExamples.LongHeaders | src/impl/wstransport.cpp:347-362 | the headers of payloads of 126, 256 and 65536 octets |
| WsExamples.MaskedTextRead | src/impl/wstransport.cpp:232-276 | the masked text of that section is read as the text |
| WsReceiver.DrainOfMore | src/impl/wstransport.cpp:148-153 | reading all complete frames now and more octets later is the same as reading them all at once |
| WsReceiver.TwoChunks | src/impl/wstransport.cpp:112-157 | two chunks do what their concatenation does unless the first one ended the connection; then the second is ignored, while in one piece the frames behind a CLOSE are received |
| WsReceiver.SegmentationIndependence | src/impl/wstransport.cpp:112-184 | for every split into non-empty chunks, across the handshake boundary, the state, buffer and events are those of the octets in one piece as long as the connection lives, and a prefix of those events in any case |
| WsReceiver.SegmentationExactly | src/impl/wstransport.cpp:112-157 | the events are those of the octets in one piece exactly when no frame ended the connection, or no complete frame in the octets left unread behind it is a ping or ends a message |
| WsReceiver.SilentExactly | src/impl/wstransport.cpp:278-339 | on a closed connection the frames of a buffer cause events exactly when one of them is a ping, is final, or starts a message behind an unfinished one |
| WsReceiver.MessageBehindClose | src/impl/wstransport.cpp:148-153 | the exception is real: a message behind a CLOSE frame is delivered if both come in one chunk and ignored otherwise |
| WsReceiver.CloseAndText | src/impl/wstransport.cpp:232-276 | octets that make the exception happen |
| WsReceiver.FragmentsDeliver | src/impl/wstransport.cpp:278-339 | any fragmentation of a message with pings and pongs in between delivers the message once, in one piece, with its type, behind one pong per ping, and leaves no fragment (RFC 6455 section 5.4) |
| WsReceiver.DrainOfFrames | src/impl/wstransport.cpp:148-153 | the octets of any frames, under any keys, are received as those frames in order |
| WsReceiver.DrainAddsEvents | src/impl/wstransport.cpp:278-339 | nothing that was delivered or sent is taken back |
| WsTransport.Transport.Incoming | src/impl/wstransport.cpp:112-184 | a chunk, or the loss of the connection, changes the object as the state machine says |
| WsTransport.Transport.Open | src/impl/wstransport.cpp:122-139 | while connecting, an accepted handshake text is removed from the buffer and opens the connection, a rejected one fails it |
| WsTransport.Transport.ReadFrame | src/impl/wstransport.cpp:232-276 | an incomplete frame leaves the buffer untouched; a complete one is unmasked where it stands, and the octets behind it are not touched |
| WsTransport.Transport.Unmask | src/impl/wstransport.cpp:270-272 | exactly the payload's octets are unmasked in place, bit by bit as they were masked |
| WsExamples.OpcodesMean | src/impl/wstransport.cpp:278-339 | what each opcode of RFC 6455, by its number, delivers, answers and changes |
| WsExamples.OtherFrames | src/impl/wstransport.cpp:278-339 | unfinished messages and continuations; an unknown opcode is answered with a CLOSE |
| WsExamples.OwnFrames | src/impl/wstransport.cpp:87-110 | an idle connection sends a ping of four zeros, and a CLOSE frame is sent once |
| WsExamples.FailsExactly | src/impl/wstransport.cpp:140-147 | an open connection fails exactly when, at some moment, more idle signals than the maximum had come since the last PONG frame |
| WsExamples.LostOnce | src/impl/wstransport.cpp:170-184 | a lost connection is reported once if it was open, fails if it was not, and stays as it is if it is over |
| WsTransport.Transport.ReadFrames | src/impl/wstransport.cpp:148-153 | all complete frames are received in order and erased from the buffer |
| WsTransport.Transport.RecvFrame | src/impl/wstransport.cpp:278-339 | every opcode has the effect the state machine gives it |
| WsTransport.Transport.RecvFirst | src/impl/wstransport.cpp:283-304 | a text or binary frame first delivers an unfinished message, and is delivered or kept by its final bit |
| WsTransport.Transport.RecvContinuation | src/impl/wstransport.cpp:305-316 | a continuation extends the unfinished message and ends it by its final bit |
| WsTransport.Transport.Send | src/impl/wstransport.cpp:77-84 | a message becomes one final frame with the opcode of its type, only while connected; the answer is that of the layer below |
| WsTransport.Transport.SendFrame | src/impl/wstransport.cpp:341-382 | one more frame is handed down, encoded under a key of its own; clients mask; the answer is that of the layer below |
| WsTransport.Transport.Close | src/impl/wstransport.cpp:86-110 | the CLOSE frame is sent at most once and only while connected |
| WsTransport.Transport.Ping | src/impl/wstransport.cpp:142-147 | an idle connection sends a four-octet ping and fails when too many are unanswered |
| TcpTransport.FlushConserves | src/impl/tcptransport.cpp:319-335 | flushing moves octets from the queue to the socket in order, loses and repeats none, ends with an empty queue exactly when it reports success, and even a broken socket was given nothing but the start of what was accepted |
| TcpTransport.SendConserves | src/impl/tcptransport.cpp:82-113 | for every pattern of partial writes: octets written and then queued are the accepted messages in order, the amount is the number of queued octets, no queued message is empty, and a send succeeds exactly when the queue is then empty |
| TcpTransport.WrittenAtOnce | src/impl/tcptransport.cpp:319-327 | behind an empty queue a socket that takes the whole message gets it at once, and the send succeeds |
| TcpTransport.WrittenInPart | src/impl/tcptransport.cpp:319-376 | one that takes a part leaves exactly the rest in the queue, and the send fails |
| TcpTransport.FlushCanEmpty | src/impl/tcptransport.cpp:319-335 | a socket that takes each message at once empties the queue |
| TcpTransport.TcpTransport.TrySendMessage | src/impl/tcptransport.cpp:337-364 | the socket gets a prefix of the message; when it would block the rest is what it did not take |
| TcpTransport.TcpTransport.TrySendQueue | src/impl/tcptransport.cpp:319-335 | the loop leaves queue, socket and amount as flushing on values does |
| TcpTransport.TcpTransport.Outgoing | src/impl/tcptransport.cpp:103-113 | a message is written directly only behind an empty queue, and otherwise queued from where the socket stopped |
| TcpTransport.TcpTransport.Send | src/impl/tcptransport.cpp:82-93 | nothing happens while not connected; an empty message only flushes |
| TcpTransport.TcpTransport.UpdateBufferedAmount | src/impl/tcptransport.cpp:366-376 | every change of the amount is reported, and only changes |
| WsEndToEnd.EndToEnd | src/impl/wstransport.cpp:77-157 | in every run of sends, pings, partial writes, flushes, arriving chunks and idle signals, beginning with the handshake text: the messages delivered are a prefix of those sent, same types and octets, and all of them once queue and wire are empty; the peer's connection stays open unless idle signals leave more pings unanswered than its maximum, and always without such a maximum |
| WsEndToEnd.EverythingCanArrive | src/impl/tcptransport.cpp:319-335 | from every state of a run with a connection that has not failed: one flush into a willing socket and one chunk deliver everything that was sent |
| WsEndToEnd.ReadPart | src/impl/wstransport.cpp:112-157 | any part of the octets sent delivers a prefix of the messages, and all octets deliver them all |
| WsEndToEnd.RunKeeps | src/impl/tcptransport.cpp:82-113 | the invariant behind it: octets written and queued encode the frames handed down, and the peer is what it has read, but for pings |
| WsIdle.SameIncoming | src/impl/wstransport.cpp:112-157 | pings that were sent and counted make no difference to what a chunk delivers and leaves behind |
| WsIdle.IdleIsSame | src/impl/wstransport.cpp:140-147 | an idle signal delivers nothing and changes nothing but the pings, until too many are unanswered |
| Http.ParseHttpLines | src/impl/http.cpp:27-44 | the cursor loop finds the lines up to the first empty one and their length, or nothing while it is missing |
| Http.LinesOfUnlines | src/impl/http.cpp:27-44 | non-empty lines without line feeds are read back from a text in which each ends with CR LF |
| Http.LinesOfMore | src/impl/http.cpp:27-44 | octets behind the empty line change nothing |
| Http.IsHttpRequestLoop | src/impl/http.cpp:15-25 | a text looks like a request when it starts with one to eight capital letters and a space, or is the start of such a text |
| Http.MethodOfMore | src/impl/http.cpp:15-25 | a text that is no request does not become one, and one that has a line feed stays one |
| Http.IsHttpRequestExactly | src/impl/http.cpp:15-25 | it does exactly when at most eight capital letters stand before the first space or the end |
| Http.ParseHttpHeaders | src/impl/http.cpp:46-64 | one header per line, keys in lower case, in order |
| Http.HeaderRead | src/impl/http.cpp:46-64 | a header line gives back its key in lower case and its value |
| Http.SpacesByCode | src/description.cpp:36-44 | white space is the space, the tabulators, the line feed, the form feed and the carriage return |
| Http.ExplodeOfImplode | src/impl/utils.cpp:37-56 | tokens without the delimiter survive joining and splitting exactly when there are none or the last is not empty |
| WsHandshake.Base64Encode | src/impl/utils.cpp:83-116 | the loop computes base 64 with padding |
| WsHandshake.Base64RoundTrip | src/impl/utils.cpp:83-116 | a reader of base 64 gets the data back from its text, whatever its length modulo three |
| WsHandshake.Base64IsPlain | src/impl/utils.cpp:83-116 | base 64 text has only letters, digits, plus, slash and the padding sign |
| WsTexts.Base64Examples | src/impl/utils.cpp:83-116 | the examples of RFC 4648 section 10 |
| WsTexts.RequestText | src/impl/wshandshake.cpp:58-80 | the lines of a request by their letters |
| WsTexts.ResponseText | src/impl/wshandshake.cpp:82-92 | the lines of a response by their letters |
| WsTexts.AcceptKeyHashes | src/impl/wshandshake.cpp:241-243 | the accept key is base 64 of the hash of the key with the text of RFC 6455 section 4.2.2 behind it |
| WsTexts.OtherResponseRefused | src/impl/wshandshake.cpp:190-229 | with a hash function without collisions, the client accepts the response to its own key and refuses that to any other |
| WsRefusals.RequestWithout | src/impl/wshandshake.cpp:131-188 | a client's request without its host or key line is refused with 400, without its upgrade line with 426; without another line it is accepted as before, and without the list of protocols the server keeps its own |
| WsRefusals.PostRefused | src/impl/wshandshake.cpp:143-150 | a request of another method is refused with 405, whatever its headers |
| WsRefusals.NoRequestRefused | src/impl/wshandshake.cpp:131-133 | what does not begin like a request is refused with 400 |
| WsRefusals.RefusalIsAnswered | src/impl/wstransport.cpp:159-182 | the server answers a refused request with its code, and the connection fails |
| WsRefusals.OtherStatusRefused | src/impl/wshandshake.cpp:190-208 | the client refuses a response with any status but 101, whatever its headers |
| WsRefusals.ResponseWithout | src/impl/wshandshake.cpp:208-228 | of the lines of a response the client needs the upgrade and the accept key, and no others |
| WsHandshake.RequestAccepted | src/impl/wshandshake.cpp:58-187 | the server reads all of the client's request and recovers host, path, key and protocols, for every sendable choice |
| WsHandshake.ResponseAccepted | src/impl/wshandshake.cpp:81-229 | the client accepts all of the server's response when the accept key is the expected one, and rejects it otherwise |
| WsHandshake.HandshakeAgrees | src/impl/wshandshake.cpp:58-243 | both sides agree, whatever the random octets and the hash function |
| WsHandshake.PrefixIsPartial | src/impl/wshandshake.cpp:134-229 | every proper prefix of a request or response is only incomplete |
| WsHandshake.RequestOfMore | src/impl/wshandshake.cpp:134-187 | once made, the server's decision does not depend on what follows |
| WsHandshake.ParsersAreStable | src/impl/wshandshake.cpp:134-229 | so the real parsers meet what the results about segmentation ask of a parser |
| WsHandshake.HandshakeMakesReady | src/impl/wstransport.cpp:122-139 | and end-to-end delivery holds with the real handshake, in both directions |
| WsHandshake.Handshake.ParseHttpRequest | src/impl/wshandshake.cpp:134-187 | the decision, with its response code, and the fields that are set; nothing changes while the text is incomplete |
| WsHandshake.Handshake.ParseHttpResponse | src/impl/wshandshake.cpp:189-229 | accepted only with status 101, the upgrade header, and the accept key computed from the key that was sent |
| StartCodes.AutomatonStep | src/h264rtppacketizer.cpp:34-75 | the automaton reports a match exactly when the bytes read end in a start code of the mode, the long one if both stand there |
| StartCodes.CodeFreeIsNoMatch | src/h264rtppacketizer.cpp:34-75 | no match in a text means that no start code stands in it anywhere |
| StartCodes.CodesByOctets | src/h264rtppacketizer.cpp:34-75 | start codes octet by octet: two or three zeros and a one, which of them by the mode |
| StartCodes.SplitMessage | src/h264rtppacketizer.cpp:77-133 | both loops compute the split of the mode |
| StartCodes.SplitIsExact | src/h264rtppacketizer.cpp:103-131 | no NAL unit contains a start code of the mode, and discarded prefix, codes and NAL units make up the message again |
| StartCodes.SplitOfJoin | src/h264rtppacketizer.cpp:103-131 | joined NAL units are given back exactly when none contains a start code and, in the mixed mode, no short code follows a zero byte |
| StartCodes.SplitOfJoinedLengths | src/h264rtppacketizer.cpp:79-102 | length-prefixed NAL units are given back, except that an empty last one is dropped |
| NalUnits.FragmentsFrom | src/nalunit.cpp:30-64 | the loop ends and yields the fragments that FragmentsExactly describes |
| NalUnits.FragmentsExactly | src/nalunit.cpp:30-64 | a NAL unit of n bytes that takes q parts of the limit is cut into fragments of the least size that makes it q parts: all but the last have exactly that size, the last at most, there are as many as the payload takes, and each has its two header octets and the next bytes of the payload |
| NalUnits.NalUnitFragmentA | src/nalunit.cpp:19-28 | the fragment has F, NRI and type 28 in its indicator, its place and the unit's type in its header, and the data behind them |
| NalUnits.FragmentsWithin | src/nalunit.cpp:30-64 | every fragment carries payload and is within the limit, and there are at least two when the payload exceeds one part |
| NalUnits.PartsCarryPayload | src/nalunit.cpp:33-37 | with a limit of at least 4, every fragment has at least one payload byte |
| NalUnits.LeastLimit | src/nalunit.cpp:33-37 | 4 is the least limit for which that holds for all NAL units above it |
| NalUnits.GenerateFragments | src/nalunit.cpp:83-95 | large NAL units are fragmented and the others passed on, in order |
| Depacketizer.PayloadsReceived | src/nalunit.cpp:30-95 | an RFC 6184 receiver gets exactly the NAL units back, in order, from the payloads |
| Depacketizer.FragmentShape | src/nalunit.cpp:45-58 | the first fragment is marked start, the last end, and no other is marked |
| Depacketizer.PayloadsWithin | src/nalunit.cpp:83-95 | each payload is within the limit |
| H264Packetizer.RtpPacketRead | src/rtppacketizer.cpp:45-95 | payload, marker and sequence number can be read back from a packet |
| H264Packetizer.RtpPacketOctets | src/rtppacketizer.cpp:45-55 | the twelve header octets as RFC 3550 section 5.1 lays them out |
| H264Packetizer.H264RtpPacketizer.Packetize | src/rtppacketizer.cpp:20-95 | one packet with the next sequence number, which advances modulo 2^16 |
| H264Packetizer.H264RtpPacketizer.ProcessOutgoingBinaryMessage | src/h264rtppacketizer.cpp:146-163 | the packets of all messages, numbered consecutively; when a message yields none, everything is dropped but the numbers are used |
| H264Packetizer.MarkerEndsMessage | src/h264rtppacketizer.cpp:156-160 | exactly the last packet of each message carries the marker |
| H264Packetizer.EndToEnd | src/h264rtppacketizer.cpp:146-163 | for all messages of NAL units of types 1 to 23 and every limit of at least 4: the payloads depacketize to those NAL units in order, are within the limit, and the sequence numbers are consecutive modulo 2^16 |
| H264Packetizer.StartCodesEndToEnd | src/h264rtppacketizer.cpp:77-163 | NAL units joined with start codes arrive as exactly those NAL units |
| NackField.RtcpNack.AddMissingPacket | src/rtp.cpp:615-629 | the part buffer, count and active PID are updated as adding to the list of parts, and the parts behind are untouched |
| NackField.GetSequenceNumbers | src/rtp.cpp:586-601 | the loop lists the part's numbers in order |
| NackField.NumbersMeaning | src/rtp.cpp:586-601 | these are PID and PID + k + 1 modulo 2^16 for each set bit k, and no others |
| NackField.RoundTrip | src/rtp.cpp:586-629 | encoding an ordered list of missing packets and reading the parts gives exactly that list |
| NackField.NoPackingIsShorter | src/rtp.cpp:615-629 | no parts that read back as a strictly increasing list are fewer than the encoder's |
| NackField.NoCoverIsShorter | src/rtp.cpp:615-629 | not even when order does not matter, among parts that do not wrap around |
| NackField.NoCoverIsShorterBeforeWrap | src/rtp.cpp:615-629 | nor among any parts, wrapped ones included, when the active PID the encoder ends with is less than 65520 above the first number |
| NackField.ShorterCoverExactly | src/rtp.cpp:615-629 | for any increasing list, some parts cover it with fewer than the encoder's exactly when, for one of its numbers from 65520 on, the encoder takes at least two parts less for the numbers a part with that PID cannot carry |
| NackField.WrappedCoverCanBeShorter | src/rtp.cpp:615-629 | a list that one wrapped part covers and the encoder gives two parts |
| NackStore.Storage.Store | src/rtcpnackresponder.cpp:36-63 | packets shorter than an RTP header are ignored; others change list and index as storing on values does |
| NackStore.Storage.Append | src/rtcpnackresponder.cpp:45-54 | the new element is linked last, and indexed unless its number already is |
| NackStore.Storage.Evict | src/rtcpnackresponder.cpp:56-62 | the oldest element and its number are dropped |
| NackStore.StoreIsLastN | src/rtcpnackresponder.cpp:36-63 | for every history with distinct numbers in each window, list and index hold exactly the last maximumSize packets |
| NackStore.StoreKeepsLastNExactly | src/rtcpnackresponder.cpp:36-63 | one store keeps list and index the last maximumSize packets exactly when its number is new, or the list is not full and the number is indexed with the same packet; a full list must also be indexed by as many numbers |
| NackStore.AlwaysLastNExactly | src/rtcpnackresponder.cpp:36-63 | for every history: they are so after every store exactly when the numbers of any maximumSize + 1 successive packets are distinct, or the list never overflows and equal numbers come with equal packets |
| NackStore.AlwaysLastNIsDistinct | src/rtcpnackresponder.cpp:36-63 | when no packet is stored twice, exactly the histories with distinct numbers in every window |
| NackStore.LookupIsExact | src/rtcpnackresponder.cpp:30-34 | a packet is found by a number exactly when it is among them |
| NackStore.ConsecutiveIsDistinct | src/rtcpnackresponder.cpp:36-63 | consecutive numbering modulo 2^16 meets the condition for sizes up to 65535 |
| NackStore.ReusedNumberBreaksLastN | src/rtcpnackresponder.cpp:54 | a number reused too early keeps the old packet and lengthens the list |
| NackResponder.Responder.ProcessIncomingControlMessage | src/rtcpnackresponder.cpp:68-107 | the packets sent again are the stored ones among those requested by all NACKs of the message, in order |
| NackResponder.Responder.ProcessOutgoingBinaryMessage | src/rtcpnackresponder.cpp:109-116 | every outgoing packet is stored in turn, and missing or too short ones are skipped |
| NackResponder.NackPacketRead | src/rtp.cpp:603-613 | the responder reads from a NACK packet exactly the numbers its parts denote |
| NackResponder.CompoundRead | src/rtcpnackresponder.cpp:73-99 | a compound message is complete exactly when what follows its first packet is, and asks for what its packets ask for, in order |
| NackResponder.Retransmission | src/rtcpnackresponder.cpp:36-116 | for every history of consecutively numbered packets and every ordered list of missing ones, exactly the missing packets among the last maximumSize are sent again, in the order of the list |
| NackResponder.NackPacketOctets | src/rtp.cpp:609-613 | the octets of a NACK packet |
| RtpRetransmission.StoredNumber | src/rtcpnackresponder.cpp:40-41 | the store reads the sequence number that the packetizer has given a packet |
| RtpRetransmission.PacketsSentAgain | src/rtcpnackresponder.cpp:36-116 | for the packets the packetizer makes of any parts, and any ordered list of missing numbers: sent again are exactly those among the last maximumSize, found by counting back from the last number |
| Queue.Queue.Push | src/impl/queue.hpp:92-100 | elements are appended in order, a stopped queue drops them, the counter stays the sum of the amounts, and the limit is kept |
| Queue.Queue.Pop | src/impl/queue.hpp:102-111 | the first element leaves, and the counter stays right |
| Queue.Queue.Exchange | src/impl/queue.hpp:118-125 | the first element is replaced; the counter stays right exactly when both have the same amount |
| SctpTransport.QueueConservation | src/impl/sctptransport.cpp:372-416 | in every run: the messages the stack has answered to have taken, and then the queue, are the accepted messages and resets in order; per stream the buffered amount is the number of the user's octets queued, absent when zero; the clamp never changes a value |
| SctpTransport.SentOffers | src/impl/sctptransport.cpp:372-390 | of what one send offers the stack, all but the last was taken; a fatal answer ends it; it succeeds only when the stack took the message itself, and fails only when the stack refused a message or is no longer connected; a message refused for now is first in the queue, and the message sent is last |
| SctpTransport.RefusedIsCounted | src/impl/sctptransport.cpp:386-388 | the octets of the first queued message are in its stream's amount |
| SctpTransport.ShutDownExactly | src/impl/sctptransport.cpp:572-586 | the association is shut down once, exactly when a stopped queue has been flushed empty |
| SctpTransport.StoppedExactly | src/impl/sctptransport.cpp:418-421 | in every run the queue is stopped exactly if the transport was closed |
| SctpTransport.FlushedSays | src/impl/sctptransport.cpp:391-404 | flushing while connected leaves an empty queue, or the message offered last, which was not taken, is first in it; while not connected nothing happens |
| SctpTransport.AcceptedIsSubmitted | src/impl/sctptransport.cpp:372-416 | until the queue is stopped, each send while connected and each closed stream is accepted, as the next one |
| SctpTransport.SentKeeps | src/impl/sctptransport.cpp:372-389 | a send keeps all that, takes back nothing handed over, and succeeds only with an empty queue |
| SctpTransport.FlushKeeps | src/impl/sctptransport.cpp:560-585 | so does flushing |
| SctpTransport.UpdateKeeps | src/impl/sctptransport.cpp:672-687 | updating by what the queue changes by keeps every stream's account and never needs the clamp |
| SctpTransport.Transport.TrySendQueue | src/impl/sctptransport.cpp:560-585 | the loop leaves queue, amounts and association as flushing on values does, with one shutdown of a stopped empty queue |
| SctpTransport.Transport.Send | src/impl/sctptransport.cpp:372-389 | refused while not connected, else as sending on values |
| SctpTransport.Transport.FlushQueue | src/impl/sctptransport.cpp:391-404 | the queue, stack and amounts are left as flushing on values leaves them; false exactly while not connected or when the stack failed |
| SctpTransport.Transport.UpdateBufferedAmount | src/impl/sctptransport.cpp:672-687 | the map entry is made, changed or erased, and the new amount reported |
| SctpTransport.Transport.CloseStream | src/impl/sctptransport.cpp:406-416 | the reset goes behind the queued messages |
| Processor.TasksInOrder | src/impl/processor.hpp:58-72 | for any number of processors on a pool that takes tasks in any order: completed tasks, the one under way, and the queue are the enqueued ones in order; no processor ever has two jobs; it is pending exactly when it has one; join's condition holds exactly when all tasks completed and no job is left |
| Processor.RunKeepsInv | src/impl/processor.cpp:22-31 | the invariant of every run behind it |
| Processor.AllQuietAllDone | src/impl/processor.cpp:17-20 | when no job is left anywhere, every processor has completed everything |
| Processor.TaskProcessor.Enqueue | src/impl/processor.hpp:58-72 | the pool gets the task exactly when none is pending, else the queue does |
| Processor.TaskProcessor.Schedule | src/impl/processor.cpp:22-31 | the pool gets the next task, or pending is cleared |
| DtlsReceiver.NoLostWakeUp | src/impl/dtlstransport.cpp:31-39 | in every interleaving of producers, pool threads and timers, while live: a non-empty queue, and a stop, is seen by a running or enqueued call, or its producer has not left; the counter is exactly the calls not begun and about to be enqueued, less the timers' calls; datagrams are processed in order |
| DtlsReceiver.StepKeepsCover | src/impl/dtlstransport.cpp:905-989 | every single step keeps work covered, but for a start with work left and nobody inside |
| DtlsReceiver.NoLostWakeUpExactly | src/impl/dtlstransport.cpp:31-39 | a run never loses a wake-up while live exactly when it is not started with a datagram or a stop in the queue while no call runs or is enqueued and no producer is inside |
| DtlsReceiver.EverythingIsProcessed | src/impl/dtlstransport.cpp:905-989 | left to themselves the threads stop within a bound, and then all datagrams of a live transport are processed and no stop is waiting |
| DtlsReceiver.EarlyDatagramIsStranded | src/impl/dtlstransport.cpp:826-829 | a datagram between the registration of the callback and the state change can be left in the queue of a live transport with nobody to process it |
| IceRole.AcceptedExactlyWhenCompatible | src/impl/icetransport.cpp:179-196 | which remote descriptions are accepted, exactly, and that the role decided is then opposite to the remote one |
| IceRole.RolesAreComplementary | src/impl/icetransport.cpp:165-196 | in every run of offers and answers made at any time by both peers, over ordered channels and with the rollback of crossed offers: two decided roles are the same exactly when an undecided peer got an offer while its own was outstanding, and opposite otherwise; only then is a description refused for its role; a decided role never changes |
| IceRole.StepKeeps | src/peerconnection.cpp:163-227 | every offer, answer and reception keeps the invariant behind it, with what can be on its way in each signaling state |
| IceRole.CrossingOffersClash | src/impl/icetransport.cpp:191-196 | a run in which offers cross and make both sides active; each would refuse the other's answer |
| IceRole.IceTransport.SetRemoteDescription | src/impl/icetransport.cpp:179-196 | the object's role and the exception, as on values |
| DataChannels.AssignedExactly | src/impl/peerconnection.cpp:620-657 | on any channels: assigning succeeds exactly when the live waiting channels are there once, have no stream yet, and there are enough streams; the identifiers are different exactly when no stale entry is in the way, and then the smallest free ones of the role's parity in order |
| DataChannels.WaitingIsGiven | src/impl/peerconnection.cpp:591-654 | a channel created without an identifier gets, when assigning succeeds, the free stream of the parity behind those of the live channels that waited before it |
| DataChannels.SuppliedIsGiven | src/impl/peerconnection.cpp:581-589 | one with an identifier gets that stream, unless it is too high, and messages on it exactly when the stream was not in use |
| DataChannels.CleanedHasNoStale | src/impl/peerconnection.cpp:684-695 | cleaning up meets that condition and keeps the streams in use |
| DataChannels.FreeStreamsExactly | src/impl/peerconnection.cpp:638-648 | the streams the search goes through are all free ones of the parity up to the maximum, increasing |
| DataChannels.GivenHaveParity | src/impl/peerconnection.cpp:638-654 | every identifier given out has the parity, is not too high, and was not in use |
| DataChannels.FailureStays | src/impl/peerconnection.cpp:640-657 | after a failure that gave any live waiting channel a stream, every later attempt fails too, whatever the role and the maximum |
| DataChannels.AfterFailureExactly | src/impl/peerconnection.cpp:640-657 | after any failure, a later attempt succeeds exactly when the live waiting channels still have no stream, are there once, and there are enough streams then |
| DataChannels.FirstIsGiven | src/impl/peerconnection.cpp:638-654 | the first live waiting channel has a stream afterwards whenever there was one for it, also when the attempt fails |
| DataChannels.OpenedIsFoundExactlyWhenNew | src/impl/peerconnection.cpp:449-457 | messages on a newly opened stream reach its channel exactly when the stream had no entry |
| DataChannels.PeerConnection.AssignDataChannels | src/impl/peerconnection.cpp:620-657 | the loops assign as on values, exceptions included |
| DataChannels.PeerConnection.CleanupDataChannels | src/impl/peerconnection.cpp:684-695 | exactly the entries of channels that are gone are erased |
| DataChannels.PeerConnection.EmplaceDataChannel | src/impl/peerconnection.cpp:568-592 | a channel with the user's identifier or waiting for one, after a cleanup; too high an identifier is refused |
| DataChannels.PeerConnection.ForwardOpen | src/impl/peerconnection.cpp:435-457 | an open message of the wrong parity is refused, another one makes a channel |
| TwoPeers.StreamsNeverCollide | src/impl/peerconnection.cpp:435-441 | in every such run whose user-supplied identifiers have their own side's parity: no open message is refused, no stream is opened by both peers, and each opens streams of its parity only |
| TwoPeers.WaitingIsOpenable | src/impl/peerconnection.cpp:568-657 | in every run: a channel created without an identifier and not dropped has a stream of its side's parity once assigning has succeeded, and can be opened |
| TwoPeers.RejectedExactly | src/impl/peerconnection.cpp:435-441 | in every run of signaling, crossing offers included, of channels created with and without user-supplied identifiers and dropped, and of streams assigned and opened: an open message has been refused exactly when one was received whose stream lacks its sender's parity, and only a user-supplied one can |
| TwoPeers.CollidingIsSupplied | src/impl/peerconnection.cpp:581-600 | a stream that both peers open was supplied by a user on the side whose parity it lacks |
| TwoPeers.SuppliedIsRefused | src/impl/peerconnection.cpp:581-600 | a run in which the answerer's user supplies an odd identifier and the open message is refused |
| TwoPeers.RunKeeps | src/impl/peerconnection.cpp:620-657 | the invariant of every run behind it |
| Getopt.Scanner.Exchange | examples/client/getopt.cpp:75-110 | the in-place swaps end and exchange the two blocks, keep the order within each, and touch nothing else |
| Getopt.SwapBlocks | examples/client/getopt.cpp:84-104 | one round of swaps exchanges two blocks of equal length |
| Getopt.RotateShortFirst | examples/client/getopt.cpp:83-95 | swapping a shorter first block to the end leaves a smaller exchange with the same result |
| Getopt.RotateShortSecond | examples/client/getopt.cpp:96-107 | so does swapping a second block that is not longer to the start |
| Getopt.Scanner.FindNext | examples/client/getopt.cpp:149-188 | the next option, with everything found so far kept; at the end all options are in front and optind is at the first of the others |
| Getopt.Scanner.TakeOption | examples/client/getopt.cpp:277-291 | optind moves behind the option and its argument |
| Getopt.Scanner.Scan | examples/client/getopt.cpp:149-188 | the whole scan: options with arguments in order, then the others in order, then optind; "--" ends the options |
| Getopt.ClassifyIsStable | examples/client/getopt.cpp:149-188 | both groups keep their order, and together they are the arguments: argv stays a permutation |
| Getopt.GroupsByCharacters | examples/client/getopt.cpp:149-165 | without "--" nothing with a dash and more is among the others, and, when no option takes an argument, everything in front of them is of that form |
| Getopt.ArgumentFollows | examples/client/getopt.cpp:149-188 | an option's argument comes with it |
| Getopt.RescanIsIdempotent | examples/client/getopt.cpp:149-188 | scanning the result again changes nothing, except exactly when the last option lacks its argument and there are others |
| Sdes.ChunkHoldsItemsExactly | src/rtp.cpp:327-335 | a chunk has room for its items and one to four null bytes exactly when they take at most 1019 bytes |
| Sdes.WritePacket | src/rtcpsrreporter.cpp:59-80 | chunks and items written through the walks into zeroed memory of the computed size give a packet that holds them |
| Sdes.PreparedHoldsChunks | src/rtp.cpp:470-478 | preparing the header makes such a packet of chunks that stand one after the other |
| Sdes.HeldIsValid | src/rtp.cpp:371-436 | it is accepted |
| Sdes.HeldIsFound | src/rtp.cpp:341-468 | the walks land on every chunk and every item |
| Sdes.CountedExactly | src/rtp.cpp:438-449 | the number of chunks is right exactly when their size fits 16 bits |
| Sdes.CheckValid | src/rtp.cpp:414-436 | the loop decides validity |
| Sdes.CountChunks | src/rtp.cpp:438-449 | the loop counts |
| Sdes.PreparePacket | src/rtp.cpp:470-478 | only the four header bytes change |
| SdesAccepted.AcceptedIsTiled | src/rtp.cpp:414-436 | the chunks of an accepted packet, of any origin, stand one behind the other and take exactly the declared bytes |
| SdesAccepted.AcceptedExactly | src/rtp.cpp:371-436 | when none of the chunks that tile it has more than 1019 bytes of items, a packet is accepted exactly when chunks tile it |
| SdesAccepted.AcceptedIsCounted | src/rtp.cpp:438-449 | below 2^16 bytes of chunks, the count of an accepted packet is the number of the chunks that tile it |
| SdesAccepted.ItemsInsideExactly | src/rtp.cpp:327-370 | the walk over a chunk's items stays inside the chunk exactly when they take at most 1019 bytes |
| SdesAccepted.PreparedOctets | src/rtp.cpp:470-478 | the four octets of the prepared header (RFC 3550 section 6.5) |
| SdesAccepted.ChunkLayout | src/rtp.cpp:313-370 | the octets of a chunk: its source, its items, and null bytes |
| SdesAccepted.ItemLayout | src/rtp.cpp:301-325 | the octets of an item |
| SdpMedia.MediaRoundTrip | src/description.cpp:583-1043 | feeding the lines of a section one by one to a fresh one rebuilds identifier, direction, bitrate, attributes, header extensions, and formats with their lists in order |
| SdpMedia.LinesParsed | src/description.cpp:583-1043 | whatever order the tables are walked through in |
| SdpMedia.ExtMapRead | src/description.cpp:588-718 | a header extension is read back exactly when its name has no space |
| SdpMedia.RtpMapRead | src/description.cpp:968-1082 | a format is read back exactly when its name has no slash |
| SdpMedia.ValueRead | src/description.cpp:1003-1020 | a feedback or parameter value is read back behind its payload type, whatever it is |
| SdpMedia.ValueLinesParsed | src/description.cpp:1003-1020 | such lines append their values in order |
| SdpMedia.Media.GenerateSdpLines | src/description.cpp:960-986 | the loops give the lines of the text, tables in ascending order |
| SdpMedia.Media.GenerateEntryLines | src/description.cpp:583-634 | so do those that all kinds of sections share |
| SdpTexts.SectionText | src/description.cpp:583-986 | a whole section by its letters, in the order of its lines |
| SdpTexts.DirectionTexts | src/description.cpp:603-604 | the line of each direction by its letters |
| SdpTexts.ExtMapText | src/description.cpp:588-601 | a header extension by its letters |
| SdpTexts.RtpMapText | src/description.cpp:968-975 | a format by its letters |
| SdpTexts.OnlyRead | src/description.cpp:1023-1037 | what a source line and the mark of a bundled section do |
| SdpTexts.ValueBeforeFormat | src/description.cpp:1001-1017 | a feedback or parameter line for a format not known yet makes one with nothing but its type |
| SdpMedia.Media.ParseSdpLine | src/description.cpp:988-1043 | the line's effect on the object, or the exception |
| SdpText.TextRoundTripExactly | src/description.cpp:583-1043 | for every line end of white space and a line feed: a section with an identifier and with fields free of their delimiters is rebuilt from its text exactly when no field has a line feed and those at the end of a line neither end with white space nor are empty behind a space |
| SdpText.TextRoundTrip | src/description.cpp:826-842 | such a section is read back from its text, and refused exactly when it has no identifier |
| SdpText.SectionReadExactly | src/description.cpp:583-986 | the lines of the text are the generated ones exactly under that condition on the fields |
| SdpText.LinesReadExactly | src/description.cpp:828-838 | any lines are read back from their text exactly when none is empty, has a line feed, or ends with white space |
| SdpText.LineFeedIsLost | src/description.cpp:828-838 | what an identifier has behind a line feed is lost |
| SdpText.ReadText | src/description.cpp:826-842 | the loop reads line by line, without white space at their ends, and without the empty ones |
| SdpText.GenerateText | src/description.cpp:583-634 | the printed text is the section's lines, each with the line end behind it |
| Numbers.IntegerRead | src/description.cpp:58-65 | a printed 32-bit number is read back if no digit follows |
| Numbers.IntegerReadExactly | src/description.cpp:58-65 | exactly the 32-bit numbers are read back |
| Numbers.DecimalIsDecimal | src/description.cpp:583-601 | numbers are printed in decimal, without leading zeros |

## Left out

- TLS, DTLS, SRTP, usrsctp, libjuice and libnice, SHA-1, certificates: calls into other code; what they answer is a parameter.
- Sockets, polling, name resolution, timers' durations, logging, and the C API: not part of this model.
- RTP header extensions in packets: packets are modelled as configured without them.
- WsTransport.Transport.RecvFrame: a PONG masks the payload in the receive buffer in place before it is erased; the model sends from a copy. Exceptions of the layer below while sending are not modelled.
- WsTransport.Transport.Close: the ten-second timer behind the CLOSE frame is not modelled.
- WsEndToEnd.EndToEnd: the sender sends no CLOSE frame.
- WsHandshake.Handshake.ParseHttpRequest: of headers with the same name the first one counts; the program leaves open which one its multimap finds.
- TcpTransport.TcpTransport.TrySendMessage: a socket without further answers would block.
- StartCodes.SplitMessage: the debug assertions about incomplete lengths are not modelled, only the checks behind them.
- NalUnits.FragmentsFrom: limits below 4 whose parts carry no payload are excluded, where the program's loop does not advance; `ceil` of a double is integer ceiling division, and fragment sizes are unbounded integers.
- NackField.RtcpNack.AddMissingPacket: a number equal to the active PID is excluded, where the program shifts by -1.
- NackResponder.Responder.ProcessIncomingControlMessage: every RTCP packet of the message is complete; the program does not check it.
- SctpTransport.Transport.Send: priorities, reliability and the callbacks' exceptions are left out; the stack's answer is a parameter.
- SctpTransport.Transport.Close: the flush it schedules is an action of its own, and shutting down while still connecting is left out.
- DtlsReceiver.NoLostWakeUp: the state before the start is included, the destruction of the transport is not; alerts come from a call that processes a datagram or closes.
- Processor.TasksInOrder: processors without a queue limit, on a pool that is not cleared.
- TwoPeers.RejectedExactly: the DTLS transports connect only when one side is client and the other server; a refused stream is not closed, and user-negotiated channels send no open message.
- IceRole.RolesAreComplementary: descriptions arrive in order; provisional answers, rollbacks asked for by the user, and the transport's restart are left out.
- DataChannels.PeerConnection.AssignDataChannels: stream numbers are unbounded integers; the negotiated maximum is below 1024, so the 16-bit increment cannot wrap around.
- Getopt.Scanner.TakeOption: whether an option takes the next argument is a parameter; clusters of short options, abbreviations and diagnostics are left out, and so are the non-permuting modes.
- Sdes.CheckValid: the program does not check the length of the memory behind the packet; packets whose walk stays inside are covered.
- Sdes.WritePacket: the program writes one chunk with one item; the method writes any number in the same way.
- SdpMedia.MediaRoundTrip: no simulcast identifiers; which sources are known and whether the section is removed are not compared.
- SdpText.TextRoundTripExactly: the text is that of one section behind its first two lines, which its parser skips; a whole description takes attributes of the session, such as candidates, out of its sections.
- SdpMedia.Media.ParseSdpLine: when an existing entry is changed in part before an exception, that part is not specified.
- The rest of the SDP description, candidates, media tracks, RTCP reports other than the above, and configuration: plain storage of fields.
