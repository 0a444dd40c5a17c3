/**
 WebSocket frames (RFC 6455 sections 5.2 and 5.3): three length encodings and XOR masking.
 */
module WsFrames {
  import opened Bytes

  const CONTINUATION: byte := 0
  const TEXT_FRAME: byte := 1
  const BINARY_FRAME: byte := 2
  const CLOSE: byte := 8
  const PING: byte := 9
  const PONG: byte := 10

  datatype Frame = Frame(opcode: byte, fin: bool, mask: bool, payload: seq<byte>)

  type Key = k: seq<byte> | |k| == 4 witness [0, 0, 0, 0]

  /** Transformed octet i is the exclusive or of octet i and octet i % 4 of the key. */
  function Masked(payload: seq<byte>, key: Key): (r: seq<byte>)
    ensures |r| == |payload|
    ensures forall i :: 0 <= i < |payload| ==> r[i] == Xor(payload[i], key[i % 4])
  {
    seq(|payload|, i requires 0 <= i < |payload| => Xor(payload[i], key[i % 4]))
  }

  /** Every bit of a masked octet tells whether it differs from the key's bit (RFC 6455 section 5.3). */
  predicate MaskedByBits(payload: seq<byte>, key: Key, r: seq<byte>)
  {
    |r| == |payload| &&
    forall i, k :: 0 <= i < |payload| && 0 <= k < 8 ==>
      (BitSet(r[i], k) <==> BitSet(payload[i], k) != BitSet(key[i % 4], k))
  }

  lemma MaskedBits(payload: seq<byte>, key: Key)
    ensures MaskedByBits(payload, key, Masked(payload, key))
  {
    hide Xor, BitSet;
    var r := Masked(payload, key);
    forall i, k | 0 <= i < |payload| && 0 <= k < 8
      ensures BitSet(r[i], k) <==> BitSet(payload[i], k) != BitSet(key[i % 4], k)
    {
      XorByBits(payload[i], key[i % 4], k);
    }
  }

  lemma MaskedTwice(payload: seq<byte>, key: Key)
    ensures Masked(Masked(payload, key), key) == payload
  {
    hide Xor;
    forall i | 0 <= i < |payload| ensures Masked(Masked(payload, key), key)[i] == payload[i] {
      XorTwice(payload[i], key[i % 4]);
    }
  }

  // ----- Writing -----

  function LengthOctets(length: nat, mask: bool): (s: seq<byte>)
    ensures |s| == if length < 126 then 1 else if length < TWO_TO_THE_16 then 3 else 9
  {
    if length < 126 then [length + Bit(mask, 128)]
    else if length < TWO_TO_THE_16 then [126 + Bit(mask, 128)] + Octets16(length)
    else [127 + Bit(mask, 128)] + ToBigEndian(length, 8)
  }

  /** The frame header without the masking key. */
  function Header(opcode: byte, fin: bool, mask: bool, length: nat): (s: seq<byte>)
    ensures 2 <= |s| <= 10
  {
    [opcode % 16 + Bit(fin, 128)] + LengthOctets(length, mask)
  }

  function Body(mask: bool, payload: seq<byte>, key: Key): (s: seq<byte>)
    ensures |s| == |payload| + if mask then 4 else 0
  {
    if mask then key + Masked(payload, key) else payload
  }

  function Encode(frame: Frame, key: Key): (s: seq<byte>)
    ensures |s| >= 2
  {
    Header(frame.opcode, frame.fin, frame.mask, |frame.payload|) + Body(frame.mask, frame.payload, key)
  }

  // ----- Reading -----

  datatype Head = NoHead | Head(opcode: byte, fin: bool, mask: bool, length: nat, size: nat)

  function ExtendedSize(length7: nat): nat
  {
    if length7 == 126 then 2 else if length7 == 127 then 8 else 0
  }

  /** The header, masking key included, if it is there in full. */
  function ReadHead(s: seq<byte>): (head: Head)
    ensures head.Head? ==> 2 <= head.size <= |s| && (head.mask ==> head.size >= 6)
  {
    if |s| < 2 then NoHead
    else
      var length7, mask := s[1] % 128, s[1] / 128 == 1;
      var size := 2 + ExtendedSize(length7) + if mask then 4 else 0;
      if |s| < size then NoHead
      else
        var length := if length7 == 126 then U16(s, 2)
                      else if length7 == 127 then FromBigEndian(s[2..10])
                      else length7;
        Head(s[0] % 16, s[0] / 128 == 1, mask, length, size)
  }

  datatype Parsed = Incomplete | Complete(frame: Frame, size: nat)

  /** The payload behind a header, unmasked. */
  function PayloadAt(s: seq<byte>, head: Head): (payload: seq<byte>)
    requires head.Head? && head.size + head.length <= |s| && (head.mask ==> head.size >= 6)
    ensures |payload| == head.length
  {
    var raw := s[head.size..head.size + head.length];
    if head.mask then Masked(raw, s[head.size - 4..head.size]) else raw
  }

  /** The first frame of the octets, payload unmasked, and its size. */
  function Decode(s: seq<byte>): (parsed: Parsed)
    ensures parsed.Complete? ==> 2 <= parsed.size <= |s|
  {
    var head := ReadHead(s);
    if head == NoHead || |s| < head.size + head.length then Incomplete
    else Complete(Frame(head.opcode, head.fin, head.mask, PayloadAt(s, head)), head.size + head.length)
  }

  // ----- Reading what was written -----

  lemma ReadHeadOfHeader(opcode: byte, fin: bool, mask: bool, length: nat, rest: seq<byte>)
    requires opcode < 16 && length < TWO_TO_THE_64 && (mask ==> |rest| >= 4)
    ensures var header := Header(opcode, fin, mask, length);
            ReadHead(header + rest) == Head(opcode, fin, mask, length, |header| + if mask then 4 else 0)
  {
    var header := Header(opcode, fin, mask, length);
    var s := header + rest;
    assert s[0] == opcode + Bit(fin, 128);
    assert s[1] == header[1];
    if length < 126 {
    } else if length < TWO_TO_THE_16 {
      assert s[2] == header[2] == Octets16(length)[0] && s[3] == header[3] == Octets16(length)[1];
    } else {
      assert s[2..10] == ToBigEndian(length, 8);
      Pow256Values();
      BigEndianRoundTrip(length, 8);
    }
  }

  /** The frame behind a header. */
  lemma DecodeAt(s: seq<byte>, head: Head)
    requires head.Head? && ReadHead(s) == head
    ensures Decode(s).Complete? <==> head.size + head.length <= |s|
    ensures head.size + head.length <= |s| ==>
              Decode(s) == Complete(Frame(head.opcode, head.fin, head.mask, PayloadAt(s, head)), head.size + head.length)
  {
    hide ReadHead, PayloadAt;
  }

  lemma EncodeParts(frame: Frame, key: Key, rest: seq<byte>)
    ensures var header := Header(frame.opcode, frame.fin, frame.mask, |frame.payload|);
            var body := Body(frame.mask, frame.payload, key);
            && Encode(frame, key) + rest == header + (body + rest) == (header + body) + rest
            && |Encode(frame, key)| == |header| + |body|
  {
    hide Header, Body;
    ConcatAssociative(Header(frame.opcode, frame.fin, frame.mask, |frame.payload|),
                      Body(frame.mask, frame.payload, key), rest);
  }

  lemma PayloadOfEncode(header: seq<byte>, mask: bool, payload: seq<byte>, key: Key, rest: seq<byte>, head: Head)
    requires head.Head? && head.mask == mask && head.length == |payload| && 2 <= |header|
    requires head.size == |header| + if mask then 4 else 0
    ensures |header| + |Body(mask, payload, key)| == head.size + head.length
    ensures PayloadAt((header + Body(mask, payload, key)) + rest, head) == payload
  {
    hide Masked;
    if mask {
      SlicesOfJoin(header, key, Masked(payload, key), rest);
      MaskedTwice(payload, key);
    } else {
      SlicesOfJoin(header, [], payload, rest);
      assert [] + payload == payload;
    }
  }

  /** A frame is read back from its octets, whatever follows, for every masking key. */
  lemma DecodeOfEncode(frame: Frame, key: Key, rest: seq<byte>)
    requires frame.opcode < 16 && |frame.payload| < TWO_TO_THE_64
    ensures Decode(Encode(frame, key) + rest) == Complete(frame, |Encode(frame, key)|)
  {
    hide *;
    var header := Header(frame.opcode, frame.fin, frame.mask, |frame.payload|);
    var size := |header| + if frame.mask then 4 else 0;
    var head := Head(frame.opcode, frame.fin, frame.mask, |frame.payload|, size);
    EncodeParts(frame, key, rest);
    ReadHeadOfHeader(frame.opcode, frame.fin, frame.mask, |frame.payload|, Body(frame.mask, frame.payload, key) + rest);
    DecodeAt(Encode(frame, key) + rest, head);
    PayloadOfEncode(header, frame.mask, frame.payload, key, rest, head);
  }

  lemma ReadHeadOfMore(s: seq<byte>, t: seq<byte>)
    requires ReadHead(s) != NoHead
    ensures ReadHead(s + t) == ReadHead(s)
  {
    if s[1] % 128 == 127 {
      assert (s + t)[2..10] == s[2..10];
    }
  }

  lemma CompleteHasHead(s: seq<byte>)
    ensures Decode(s).Complete? ==> ReadHead(s) != NoHead
  {
    hide ReadHead, PayloadAt;
  }

  lemma PayloadOfMore(s: seq<byte>, t: seq<byte>, head: Head)
    requires head.Head? && head.size + head.length <= |s| && (head.mask ==> head.size >= 6)
    ensures PayloadAt(s + t, head) == PayloadAt(s, head)
  {
    hide Masked;
    SliceOfMore(s, t, head.size, head.size + head.length);
    if head.mask {
      SliceOfMore(s, t, head.size - 4, head.size);
    }
  }

  /** Octets behind a complete frame do not change it. */
  lemma DecodeOfMore(s: seq<byte>, t: seq<byte>)
    requires Decode(s).Complete?
    ensures Decode(s + t) == Decode(s)
  {
    hide *;
    var head := ReadHead(s);
    CompleteHasHead(s);
    DecodeAt(s, head);
    ReadHeadOfMore(s, t);
    DecodeAt(s + t, head);
    PayloadOfMore(s, t, head);
  }

  /** No proper prefix of a frame's octets is a complete frame. */
  lemma ProperPrefixIsIncomplete(frame: Frame, key: Key, n: nat)
    requires frame.opcode < 16 && |frame.payload| < TWO_TO_THE_64 && n < |Encode(frame, key)|
    ensures Decode(Encode(frame, key)[..n]) == Incomplete
  {
    hide Decode, Encode;
    var s := Encode(frame, key);
    if Decode(s[..n]).Complete? {
      DecodeOfMore(s[..n], s[n..]);
      assert s[..n] + s[n..] == s + [];
      DecodeOfEncode(frame, key, []);
    }
  }

  // ----- Writing into buffers -----

  /** Masks octets where they are; the key is given. */
  method MaskInPlace(payload: array<byte>, key: Key)
    modifies payload
    ensures payload[..] == Masked(old(payload[..]), key)
    ensures MaskedByBits(old(payload[..]), key, payload[..])
  {
    hide Xor, MaskedByBits;
    MaskedBits(payload[..], key);
    for i := 0 to payload.Length
      invariant forall k :: 0 <= k < i ==> payload[k] == Xor(old(payload[k]), key[k % 4])
      invariant forall k :: i <= k < payload.Length ==> payload[k] == old(payload[k])
    {
      payload[i] := Xor(payload[i], key[i % 4]);
    }
  }

  /** The header in a buffer of 14 octets, masking key not included, and its size. */
  method WriteHeader(buffer: array<byte>, opcode: byte, fin: bool, mask: bool, length: nat) returns (cur: nat)
    requires buffer.Length == 14
    modifies buffer
    ensures 2 <= cur <= 10 && buffer[..cur] == Header(opcode, fin, mask, length)
  {
    buffer[0] := opcode % 16 + Bit(fin, 128);
    if length < 0x7E {
      buffer[1] := length % 128 + Bit(mask, 128);
      cur := 2;
    } else if length <= 0xFFFF {
      buffer[1] := 0x7E + Bit(mask, 128);
      WriteOctets(buffer, 2, Octets16(length));
      cur := 4;
    } else {
      buffer[1] := 0x7F + Bit(mask, 128);
      WriteOctets(buffer, 2, ToBigEndian(length, 8));
      cur := 10;
    }
  }

  /** The octets of a frame, with a random key when it is masked; the payload is then masked where it is. */
  method WriteFrame(opcode: byte, fin: bool, mask: bool, payload: array<byte>) returns (message: seq<byte>, key: Key)
    modifies payload
    ensures message == Encode(Frame(opcode, fin, mask, old(payload[..])), key)
    ensures payload[..] == if mask then Masked(old(payload[..]), key) else old(payload[..])
    ensures |message| >= payload.Length && message[|message| - payload.Length..] == payload[..]
    ensures mask ==> MaskedByBits(old(payload[..]), key, message[|message| - payload.Length..])
  {
    hide *;
    ghost var plain := payload[..];
    var buffer := new byte[14](_ => 0);
    var cur := WriteHeader(buffer, opcode, fin, mask, payload.Length);
    ghost var header := buffer[..cur];
    var k0: byte, k1: byte, k2: byte, k3: byte := *, *, *, *;
    key := [k0, k1, k2, k3];
    if mask {
      WriteOctets(buffer, cur, key);
      cur := cur + 4;
      assert buffer[..cur] == header + key;
      MaskInPlace(payload, key);
    } else {
      assert buffer[..cur] == header + [];
    }
    Assembled(opcode, fin, mask, plain, key);
    message := buffer[..cur] + payload[..];
    assert message[cur..] == payload[..];
  }

  lemma Assembled(opcode: byte, fin: bool, mask: bool, plain: seq<byte>, key: Key)
    ensures Encode(Frame(opcode, fin, mask, plain), key) ==
            (Header(opcode, fin, mask, |plain|) + if mask then key else []) + if mask then Masked(plain, key) else plain
  {
    hide Header, Masked;
    var header := Header(opcode, fin, mask, |plain|);
    if mask {
      ConcatAssociative(header, key, Masked(plain, key));
    } else {
      assert header + [] == header;
    }
  }
}
