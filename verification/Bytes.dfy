/**
 Octets, network byte order and a few facts about sequences shared by the wire formats.
 */
module Bytes {

  /**
   An octet, as the program's `byte` and `uint8_t`. Its bit fields are read and written with
   arithmetic: `b & 0x0F` is b % 16, `b >> 7` is b / 128, `b << 4` of a nibble is b * 16, and `|` of
   fields that do not overlap is their sum.
   */
  type byte = n: int | 0 <= n < 256

  datatype Option<+T> = None | Some(value: T)

  const TWO_TO_THE_16: int := 0x1_0000
  const TWO_TO_THE_32: int := 0x1_0000_0000
  const TWO_TO_THE_64: int := 0x1_0000_0000_0000_0000

  type uint16 = n: int | 0 <= n < 0x1_0000
  type uint32 = n: int | 0 <= n < 0x1_0000_0000

  function Pow256(width: nat): (p: nat)
    ensures p > 0
  {
    if width == 0 then 1 else 256 * Pow256(width - 1)
  }

  /** The `width` octets of `n`, most significant first (htons, htonl, htonll). */
  function ToBigEndian(n: nat, width: nat): (s: seq<byte>)
    ensures |s| == width
  {
    if width == 0 then [] else ToBigEndian(n / 256, width - 1) + [n % 256]
  }

  /** The number a string of octets denotes, most significant first (ntohs, ntohl, ntohll). */
  function FromBigEndian(s: seq<byte>): (n: nat)
    ensures n < Pow256(|s|)
  {
    if s == [] then 0 else 256 * FromBigEndian(s[..|s| - 1]) + s[|s| - 1]
  }

  /** The 16-bit number at position i (ntohs). */
  function U16(s: seq<byte>, i: nat): (n: uint16)
    requires i + 2 <= |s|
  {
    256 * (s[i] as int) + s[i + 1] as int
  }

  /** The two octets of a 16-bit number (htons). */
  function Octets16(n: uint16): (s: seq<byte>)
    ensures |s| == 2 && U16(s, 0) == n
  {
    [n / 256, n % 256]
  }

  /** The 32-bit number at position i (ntohl). */
  function U32(s: seq<byte>, i: nat): (n: uint32)
    requires i + 4 <= |s|
  {
    TWO_TO_THE_16 * (U16(s, i) as int) + U16(s, i + 2) as int
  }

  /** The four octets of a 32-bit number (htonl). */
  function Octets32(n: uint32): (s: seq<byte>)
    ensures |s| == 4 && U32(s, 0) == n
  {
    Octets16(n / TWO_TO_THE_16) + Octets16(n % TWO_TO_THE_16)
  }

  lemma FromBigEndianSnoc(front: seq<byte>, last: byte)
    ensures FromBigEndian(front + [last]) == 256 * FromBigEndian(front) + last
  {
    assert (front + [last])[..|front|] == front;
  }

  /** Reading what was written gives the number back, for every number that fits. */
  lemma {:induction false} BigEndianRoundTrip(n: nat, width: nat)
    requires n < Pow256(width)
    ensures FromBigEndian(ToBigEndian(n, width)) == n
  {
    if width > 0 {
      var front, last := ToBigEndian(n / 256, width - 1), n % 256;
      assert ToBigEndian(n, width) == front + [last];
      BigEndianRoundTrip(n / 256, width - 1);
      FromBigEndianSnoc(front, last);
    }
  }

  lemma Pow256Values()
    ensures Pow256(2) == TWO_TO_THE_16
    ensures Pow256(4) == TWO_TO_THE_32
    ensures Pow256(8) == TWO_TO_THE_64
  {
    assert Pow256(2) == 256 * Pow256(1);
    assert Pow256(4) == 256 * Pow256(3);
    assert Pow256(3) == 256 * Pow256(2);
    assert Pow256(8) == 256 * Pow256(7);
    assert Pow256(7) == 256 * Pow256(6);
    assert Pow256(6) == 256 * Pow256(5);
    assert Pow256(5) == 256 * Pow256(4);
  }

  /** Exclusive or of the lowest `width` bits of a and b. */
  function XorBits(a: nat, b: nat, width: nat): (r: nat)
  {
    if width == 0 then 0
    else 2 * XorBits(a / 2, b / 2, width - 1) + (if a % 2 == b % 2 then 0 else 1)
  }

  lemma {:induction false} XorBitsBound(a: nat, b: nat, width: nat, bound: nat)
    requires IsPowerOfTwo(bound, width)
    ensures XorBits(a, b, width) < bound
  {
    if width > 0 { XorBitsBound(a / 2, b / 2, width - 1, bound / 2); }
  }

  predicate IsPowerOfTwo(n: nat, exponent: nat)
  {
    if exponent == 0 then n == 1 else n % 2 == 0 && IsPowerOfTwo(n / 2, exponent - 1)
  }

  lemma TwoToThe16IsAPower()
    ensures IsPowerOfTwo(TWO_TO_THE_16, 16)
  {
    assert IsPowerOfTwo(256, 8);
    assert IsPowerOfTwo(0x1_0000, 16) == IsPowerOfTwo(0x1000, 12);
    assert IsPowerOfTwo(0x1000, 12) == IsPowerOfTwo(256, 8);
  }

  lemma {:induction false} XorBitsTwice(a: nat, b: nat, width: nat, bound: nat)
    requires IsPowerOfTwo(bound, width) && a < bound
    ensures XorBits(XorBits(a, b, width), b, width) == a
  {
    if width > 0 {
      XorBitsTwice(a / 2, b / 2, width - 1, bound / 2);
      var x := XorBits(a, b, width);
      assert x / 2 == XorBits(a / 2, b / 2, width - 1);
      assert x % 2 == if a % 2 == b % 2 then 0 else 1;
    }
  }

  /** Bit k of a number, counted from the lowest one. */
  predicate BitSet(n: nat, k: nat)
  {
    if k == 0 then n % 2 == 1 else BitSet(n / 2, k - 1)
  }

  /** The bits of an octet, by their weights. */
  lemma OctetIsItsBits(b: byte)
    ensures b == Bit(BitSet(b, 0), 1) + Bit(BitSet(b, 1), 2) + Bit(BitSet(b, 2), 4) + Bit(BitSet(b, 3), 8) +
                 Bit(BitSet(b, 4), 16) + Bit(BitSet(b, 5), 32) + Bit(BitSet(b, 6), 64) + Bit(BitSet(b, 7), 128)
  {
    hide BitSet, Bit;
    var h := b / 16;
    NibbleIsItsBits(b);
    NibbleIsItsBits(h);
    HalvedFourTimes(b);
    assert h / 16 == 0;
    Sixteenfold(BitSet(h, 0), 1, 16);
    Sixteenfold(BitSet(h, 1), 2, 32);
    Sixteenfold(BitSet(h, 2), 4, 64);
    Sixteenfold(BitSet(h, 3), 8, 128);
    hide *;
  }

  lemma Sixteenfold(isSet: bool, weight: nat, more: nat)
    requires more == 16 * weight
    ensures Bit(isSet, more) == 16 * Bit(isSet, weight)
  {}

  lemma NibbleIsItsBits(n: nat)
    ensures n == Bit(BitSet(n, 0), 1) + Bit(BitSet(n, 1), 2) + Bit(BitSet(n, 2), 4) + Bit(BitSet(n, 3), 8) + 16 * (n / 16)
  {
    var a, b, c := n / 2, n / 4, n / 8;
    assert a / 2 == b && b / 2 == c && c / 2 == n / 16;
    assert BitSet(n, 1) == BitSet(a, 0) && BitSet(n, 2) == BitSet(a, 1) == BitSet(b, 0);
    assert BitSet(n, 3) == BitSet(a, 2) == BitSet(b, 1) == BitSet(c, 0);
  }

  lemma HalvedFourTimes(n: nat)
    ensures BitSet(n, 4) == BitSet(n / 16, 0) && BitSet(n, 5) == BitSet(n / 16, 1)
    ensures BitSet(n, 6) == BitSet(n / 16, 2) && BitSet(n, 7) == BitSet(n / 16, 3)
  {
    FourthBit(n, 0);
    FourthBit(n, 1);
    FourthBit(n, 2);
    FourthBit(n, 3);
  }

  lemma FourthBit(n: nat, k: nat)
    ensures BitSet(n, k + 4) == BitSet(n / 16, k)
  {
    var a, b, c := n / 2, n / 4, n / 8;
    assert a / 2 == b && b / 2 == c && c / 2 == n / 16;
    assert BitSet(n, k + 4) == BitSet(a, k + 3) == BitSet(b, k + 2) == BitSet(c, k + 1) == BitSet(n / 16, k);
  }

  lemma {:induction false} XorBitsBit(a: nat, b: nat, width: nat, k: nat)
    requires k < width
    ensures BitSet(XorBits(a, b, width), k) <==> BitSet(a, k) != BitSet(b, k)
  {
    var x := XorBits(a, b, width);
    assert x / 2 == XorBits(a / 2, b / 2, width - 1) && x % 2 == if a % 2 == b % 2 then 0 else 1;
    if k > 0 {
      XorBitsBit(a / 2, b / 2, width - 1, k - 1);
    }
  }

  /** Each bit of an exclusive or tells whether that bit of the two octets differs. */
  lemma XorByBits(a: byte, b: byte, k: nat)
    requires k < 8
    ensures BitSet(Xor(a, b), k) <==> BitSet(a, k) != BitSet(b, k)
  {
    XorBitsBit(a, b, 8, k);
  }

  /** A bit of an octet, by its weight. */
  function Bit(isSet: bool, weight: nat): nat
  {
    if isSet then weight else 0
  }

  /** The program's `^` on octets. */
  function Xor(a: byte, b: byte): (r: byte)
  {
    XorBitsBound(a, b, 8, 256);
    XorBits(a, b, 8)
  }

  lemma XorTwice(a: byte, b: byte)
    ensures Xor(Xor(a, b), b) == a
  {
    XorBitsTwice(a, b, 8, 256);
  }

  /** The octet strings of `parts`, one after the other. */
  function Flatten<T>(parts: seq<seq<T>>): (s: seq<T>)
  {
    if parts == [] then [] else parts[0] + Flatten(parts[1..])
  }

  lemma {:induction false} FlattenAppend<T>(a: seq<seq<T>>, b: seq<seq<T>>)
    ensures Flatten(a + b) == Flatten(a) + Flatten(b)
  {
    if a == [] {
      assert a + b == b;
    } else {
      assert (a + b)[0] == a[0] && (a + b)[1..] == a[1..] + b;
      FlattenAppend(a[1..], b);
      assert a[0] + (Flatten(a[1..]) + Flatten(b)) == (a[0] + Flatten(a[1..])) + Flatten(b);
    }
  }

  lemma FlattenSnoc<T>(a: seq<seq<T>>, last: seq<T>)
    ensures Flatten(a + [last]) == Flatten(a) + last
  {
    FlattenAppend(a, [last]);
    assert Flatten([last]) == last + Flatten<T>([]);
  }

  lemma SplitLast<T>(s: seq<T>)
    requires s != []
    ensures s == s[..|s| - 1] + [s[|s| - 1]]
  {}

  lemma SplitFirst<T>(s: seq<T>)
    requires s != []
    ensures s == [s[0]] + s[1..]
  {}

  lemma UpdateLast<T>(s: seq<T>, x: T)
    requires s != []
    ensures s[|s| - 1 := x] == s[..|s| - 1] + [x]
  {}

  lemma SliceOfMore<T>(s: seq<T>, t: seq<T>, from: nat, to: nat)
    requires from <= to <= |s|
    ensures (s + t)[from..to] == s[from..to]
  {}

  /** Slices of a string put together from four pieces. */
  lemma SlicesOfJoin<T>(a: seq<T>, b: seq<T>, c: seq<T>, d: seq<T>)
    ensures var s := (a + (b + c)) + d;
            && s[|a|..|a| + |b|] == b
            && s[|a| + |b|..|a| + |b| + |c|] == c
            && s == a + ((b + c) + d)
  {}

  lemma ConcatAssociative<T>(a: seq<T>, b: seq<T>, c: seq<T>)
    ensures a + (b + c) == (a + b) + c
  {}

  lemma Regroup<T>(a: seq<T>, b: seq<T>, c: seq<T>, d: seq<T>)
    ensures a + b + (c + d) == a + (b + c) + d == a + b + c + d
  {}

  lemma Element<T>(s: set<T>) returns (x: T)
    requires s != {}
    ensures x in s
  {
    x :| x in s;
  }

  /** memcpy of octets into a buffer. */
  method WriteOctets(msg: array<byte>, offset: nat, octets: seq<byte>)
    requires offset + |octets| <= msg.Length
    modifies msg
    ensures msg[..] == old(msg[..offset]) + octets + old(msg[offset + |octets|..])
  {
    for i := 0 to |octets|
      invariant forall k :: 0 <= k < i ==> msg[offset + k] == octets[k]
      invariant forall k :: 0 <= k < msg.Length && !(offset <= k < offset + i) ==> msg[k] == old(msg[k])
    {
      msg[offset + i] := octets[i];
    }
  }
}
