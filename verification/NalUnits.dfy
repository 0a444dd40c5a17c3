/**
 H.264 NAL units and their fragmentation into FU-A payloads (RFC 6184 section 5.8), against a
 depacketizer written from sections 5.6 and 5.8 of that RFC.
 */
module NalUnits {
  import opened Bytes

  // ----- Header octets -----

  function ForbiddenBit(first: byte): bool { first / 128 == 1 }
  function Nri(first: byte): byte { first / 32 % 4 }
  function UnitType(first: byte): byte { first % 32 }

  /** The octet with the bit of the given weight cleared or set. */
  function SetBit(first: byte, weight: nat, isSet: bool): (r: nat)
    requires weight == 128 || weight == 64 || weight == 32
    ensures r < 256
  {
    (if first / weight % 2 == 1 then first - weight else first) + Bit(isSet, weight)
  }

  function SetForbiddenBit(first: byte, isSet: bool): byte { SetBit(first, 128, isSet) }
  function SetNri(first: byte, nri: byte): byte { first - first / 32 % 4 * 32 + nri % 4 * 32 }
  function SetUnitType(first: byte, unitType: byte): byte { first - first % 32 + unitType % 32 }

  function SetStart(first: byte, isSet: bool): byte { SetBit(first, 128, isSet) }
  function SetEnd(first: byte, isSet: bool): byte { SetBit(first, 64, isSet) }
  function SetReservedBit6(first: byte, isSet: bool): byte { SetBit(first, 32, isSet) }

  datatype FragmentType = Start | Middle | End

  const NAL_TYPE_FU_A: byte := 28

  /** The FU indicator: F and NRI of the NAL unit, type 28. */
  function Indicator(forbiddenBit: bool, nri: byte): byte
  {
    Bit(forbiddenBit, 128) + nri % 4 * 32 + NAL_TYPE_FU_A
  }

  /** The FU header: start and end bits, and the type of the NAL unit. */
  function FuHeader(fragmentType: FragmentType, unitType: byte): byte
  {
    Bit(fragmentType == Start, 128) + Bit(fragmentType == End, 64) + unitType % 32
  }

  lemma IndicatorOctet(forbiddenBit: bool, nri: byte)
    ensures SetUnitType(SetNri(SetForbiddenBit(0, forbiddenBit), nri), NAL_TYPE_FU_A) == Indicator(forbiddenBit, nri)
  {
    var n := nri % 4;
    var high := if forbiddenBit then 4 else 0;
    assert SetForbiddenBit(0, forbiddenBit) == high * 32;
    assert SetNri(high * 32, nri) == (high + n) * 32;
    assert SetUnitType((high + n) * 32, NAL_TYPE_FU_A) == (high + n) * 32 + NAL_TYPE_FU_A;
  }

  lemma FuHeaderOctet(fragmentType: FragmentType, unitType: byte)
    ensures SetUnitType(SetEnd(SetStart(SetReservedBit6(0, false), fragmentType == Start), fragmentType == End), unitType)
            == FuHeader(fragmentType, unitType)
  {
    hide *;
    match fragmentType
    case Start => StartOctet(unitType);
    case Middle => MiddleOctet(unitType);
    case End => EndOctet(unitType);
  }

  lemma EmptyHeader()
    ensures SetReservedBit6(0, false) == 0 && SetStart(0, false) == 0 && SetStart(0, true) == 128
    ensures SetEnd(128, false) == 128 && SetEnd(0, false) == 0 && SetEnd(0, true) == 64
  {}

  lemma StartOctet(unitType: byte)
    ensures SetUnitType(SetEnd(SetStart(SetReservedBit6(0, false), true), false), unitType) == FuHeader(Start, unitType)
  {
    hide SetReservedBit6, SetStart, SetEnd;
    EmptyHeader();
  }

  lemma MiddleOctet(unitType: byte)
    ensures SetUnitType(SetEnd(SetStart(SetReservedBit6(0, false), false), false), unitType) == FuHeader(Middle, unitType)
  {
    hide SetReservedBit6, SetStart, SetEnd;
    EmptyHeader();
  }

  lemma EndOctet(unitType: byte)
    ensures SetUnitType(SetEnd(SetStart(SetReservedBit6(0, false), false), true), unitType) == FuHeader(End, unitType)
  {
    hide SetReservedBit6, SetStart, SetEnd;
    EmptyHeader();
  }

  method NalUnitFragmentA(fragmentType: FragmentType, forbiddenBit: bool, nri: byte, unitType: byte, data: seq<byte>)
    returns (fragment: seq<byte>)
    ensures fragment == [Indicator(forbiddenBit, nri), FuHeader(fragmentType, unitType)] + data
  {
    hide *;
    var buffer := new byte[|data| + 2](_ => 0);
    buffer[0] := SetForbiddenBit(buffer[0], forbiddenBit);
    buffer[0] := SetNri(buffer[0], nri);
    buffer[0] := SetUnitType(buffer[0], NAL_TYPE_FU_A);
    buffer[1] := SetReservedBit6(buffer[1], false);
    buffer[1] := SetStart(buffer[1], fragmentType == Start);
    buffer[1] := SetEnd(buffer[1], fragmentType == End);
    buffer[1] := SetUnitType(buffer[1], unitType);
    IndicatorOctet(forbiddenBit, nri);
    FuHeaderOctet(fragmentType, unitType);
    var i := 0;
    while i < |data|
      invariant 0 <= i <= |data|
      invariant buffer[0] == Indicator(forbiddenBit, nri) && buffer[1] == FuHeader(fragmentType, unitType)
      invariant forall k :: 0 <= k < i ==> buffer[2 + k] == data[k]
    {
      buffer[2 + i] := data[i];
      i := i + 1;
    }
    fragment := buffer[..];
    assert fragment[2..] == data;
  }

  // ----- The size of the fragments -----

  function CeilDiv(a: nat, b: nat): (q: nat)
    requires b > 0
    ensures a <= q * b < a + b
  {
    (a + b - 1) / b
  }

  /** The NAL unit is cut into as many parts as it takes, all of about this size, headers included. */
  function PartSize(size: nat, limit: nat): (n: nat)
    requires size > limit > 0
    ensures 0 < n <= limit
  {
    var count := CeilDiv(size, limit);
    SmallerQuotient(size, count, limit);
    CeilDiv(size, count)
  }

  lemma SmallerFactor(p: nat, q: nat, b: nat)
    requires p * b < q * b
    ensures p < q
  {
    if q <= p {
      LargerProduct(q, p, b);
      assert false;
    }
  }

  lemma LargerProduct(p: nat, q: nat, b: nat)
    requires p <= q
    ensures p * b <= q * b && b * p <= b * q
  {}

  lemma SmallerQuotient(size: nat, count: nat, limit: nat)
    requires 0 < size <= count * limit
    ensures count > 0 && 0 < CeilDiv(size, count) <= limit
  {
    var q := CeilDiv(size, count);
    assert (limit + 1) * count == count * limit + count;
    SmallerFactor(q, limit + 1, count);
    SmallerFactor(0, q, count);
  }

  /** With a limit of at least 4 every fragment carries at least one payload byte. */
  lemma PartsCarryPayload(size: nat, limit: nat)
    requires size > limit >= 4
    ensures PartSize(size, limit) >= 3
  {
    var count := CeilDiv(size, limit);
    SmallerFactor(1, count, limit);
    assert (count - 1) * limit == count * limit - limit;
    LargerProduct(4, limit, count - 1);
    SmallerFactor(2, CeilDiv(size, count), count);
  }

  /** A NAL unit that is cut into parts without payload. */
  lemma SmallLimitFails(limit: nat) returns (size: nat)
    requires 0 < limit < 4
    ensures size > limit && PartSize(size, limit) < 3
  {
    size := limit + 1;
    assert CeilDiv(2, 1) == 2;
    assert CeilDiv(3, 2) == 2;
    assert CeilDiv(4, 3) == 2;
    var count := CeilDiv(size, limit);
    assert count == 2;
    assert CeilDiv(size, 2) <= 2;
  }

  /** 4 is the least limit that works for every NAL unit above it. */
  lemma LeastLimit(limit: nat)
    requires limit > 0
    ensures limit >= 4 <==> forall size: nat :: size > limit ==> PartSize(size, limit) >= 3
  {
    hide PartSize;
    if limit >= 4 {
      forall size: nat | size > limit ensures PartSize(size, limit) >= 3 {
        PartsCarryPayload(size, limit);
      }
    } else {
      var size := SmallLimitFails(limit);
    }
  }

  // ----- Fragmentation -----

  /**
   The program asserts that the NAL unit is above the limit. It does not check that parts carry payload, as
   they do from a limit of 4 on: its loop does not advance with parts of two bytes, and such limits are not
   part of this model.
   */
  predicate Fragmentable(nalu: seq<byte>, limit: nat)
  {
    |nalu| > limit > 0 && PartSize(|nalu|, limit) >= 3
  }

  function TypeAt(offset: nat, step: nat, size: nat): FragmentType
  {
    if offset == 0 then Start else if offset + step < size then Middle else End
  }

  function Fragment(nalu: seq<byte>, fragmentType: FragmentType, from: nat, to: nat): (fragment: seq<byte>)
    requires 1 <= from <= to <= |nalu|
  {
    [Indicator(ForbiddenBit(nalu[0]), Nri(nalu[0])), FuHeader(fragmentType, UnitType(nalu[0]))] + nalu[from..to]
  }

  /** The fragments of the payload from `offset` on, `step` bytes each, the last one perhaps shorter. */
  function FragmentsFromOffset(nalu: seq<byte>, step: nat, offset: nat): (fragments: seq<seq<byte>>)
    requires 1 <= |nalu| && 0 < step && offset <= |nalu| - 1
    decreases |nalu| - offset
  {
    var size := |nalu| - 1;
    if offset == size then []
    else
      var next := if offset + step < size then offset + step else size;
      [Fragment(nalu, TypeAt(offset, step, size), 1 + offset, 1 + next)] + FragmentsFromOffset(nalu, step, next)
  }

  function FragmentsOf(nalu: seq<byte>, limit: nat): (fragments: seq<seq<byte>>)
    requires Fragmentable(nalu, limit)
  {
    FragmentsFromOffset(nalu, PartSize(|nalu|, limit) - 2, 0)
  }

  lemma PartSizeIs(size: nat, limit: nat)
    requires size > limit > 0
    ensures CeilDiv(size, limit) > 0 && PartSize(size, limit) == CeilDiv(size, CeilDiv(size, limit))
  {
    hide CeilDiv;
    SmallerQuotient(size, CeilDiv(size, limit), limit);
  }

  lemma StepIs(nalu: seq<byte>, limit: nat)
    requires Fragmentable(nalu, limit)
    ensures var count := CeilDiv(|nalu|, limit);
            count > 0 && 3 <= CeilDiv(|nalu|, count) <= limit &&
            FragmentsOf(nalu, limit) == FragmentsFromOffset(nalu, CeilDiv(|nalu|, count) - 2, 0)
  {
    hide PartSize, FragmentsFromOffset, CeilDiv;
    PartSizeIs(|nalu|, limit);
  }

  method FragmentsFrom(nalu: seq<byte>, limit: nat) returns (result: seq<seq<byte>>)
    requires Fragmentable(nalu, limit)
    ensures result == FragmentsOf(nalu, limit)
  {
    assert |nalu| > limit > 0;
    hide *;
    StepIs(nalu, limit);
    var fragmentsCount := CeilDiv(|nalu|, limit);
    var maximumFragmentSize := CeilDiv(|nalu|, fragmentsCount);
    maximumFragmentSize := maximumFragmentSize - 2;
    ghost var step := maximumFragmentSize;
    var f := ForbiddenBit(nalu[0]);
    var nri := Nri(nalu[0]);
    var naluType := UnitType(nalu[0]);
    var payload := nalu[1..];
    result := [];
    var offset := 0;
    while offset < |payload|
      invariant 0 <= offset <= |payload|
      invariant offset < |payload| ==> maximumFragmentSize == step
      invariant FragmentsOf(nalu, limit) == result + FragmentsFromOffset(nalu, step, offset)
      decreases |payload| - offset
    {
      var fragmentType;
      if offset == 0 {
        fragmentType := Start;
      } else if offset + maximumFragmentSize < |payload| {
        fragmentType := Middle;
      } else {
        if offset + maximumFragmentSize > |payload| {
          maximumFragmentSize := |payload| - offset;
        }
        fragmentType := End;
      }
      var fragmentData := payload[offset..offset + maximumFragmentSize];
      var fragment := NalUnitFragmentA(fragmentType, f, nri, naluType, fragmentData);
      FragmentsStep(nalu, step, offset, maximumFragmentSize, fragmentType, fragment, result);
      result := result + [fragment];
      offset := offset + maximumFragmentSize;
    }
    FragmentsEnd(nalu, step, result);
  }

  lemma FragmentsEnd(nalu: seq<byte>, step: nat, before: seq<seq<byte>>)
    requires 1 <= |nalu| && 0 < step
    ensures before + FragmentsFromOffset(nalu, step, |nalu| - 1) == before
  {
    assert before + [] == before;
  }

  /** One more fragment, which starts at `offset` and carries `part` bytes. */
  lemma FragmentsStep(nalu: seq<byte>, step: nat, offset: nat, part: nat, fragmentType: FragmentType,
                      fragment: seq<byte>, before: seq<seq<byte>>)
    requires 1 <= |nalu| && 0 < step && offset < |nalu| - 1
    requires part == if offset + step < |nalu| - 1 then step else |nalu| - 1 - offset
    requires offset == 0 <==> fragmentType == Start
    requires offset > 0 ==> (fragmentType == Middle <==> offset + step < |nalu| - 1)
    requires fragment == [Indicator(ForbiddenBit(nalu[0]), Nri(nalu[0])), FuHeader(fragmentType, UnitType(nalu[0]))] +
                         nalu[1..][offset..offset + part]
    ensures before + FragmentsFromOffset(nalu, step, offset) ==
            before + [fragment] + FragmentsFromOffset(nalu, step, offset + part)
  {
    hide Indicator, FuHeader, ForbiddenBit, Nri, UnitType;
    assert nalu[1..][offset..offset + part] == nalu[1 + offset..1 + (offset + part)];
    assert fragment == Fragment(nalu, TypeAt(offset, step, |nalu| - 1), 1 + offset, 1 + (offset + part));
    ConcatAssociative(before, [fragment], FragmentsFromOffset(nalu, step, offset + part));
  }

  /** Each fragment is within the limit, and there are at least two. */
  lemma {:induction false} FragmentsWithin(nalu: seq<byte>, step: nat, offset: nat)
    requires 1 <= |nalu| && 0 < step && offset < |nalu| - 1
    ensures var fragments := FragmentsFromOffset(nalu, step, offset);
            && (forall i :: 0 <= i < |fragments| ==> 3 <= |fragments[i]| <= step + 2)
            && |fragments| >= if offset + step < |nalu| - 1 then 2 else 1
    decreases |nalu| - offset
  {
    var size := |nalu| - 1;
    var next := if offset + step < size then offset + step else size;
    if next < size {
      FragmentsWithin(nalu, step, next);
    }
  }

  // ----- What the fragments are, octet by octet -----

  /** The fragment has s bytes and carries those behind `from`, or all that are left (RFC 6184 section 5.8). */
  predicate IsFragment(f: seq<byte>, nalu: seq<byte>, s: nat, from: nat, isFirst: bool, isLast: bool)
    requires nalu != []
  {
    && |f| >= 3 && from + |f| - 1 <= |nalu| && f[2..] == nalu[1 + from..from + |f| - 1]
    && f[0] == nalu[0] - nalu[0] % 32 + 28
    && f[1] == nalu[0] % 32 + (if isFirst then 128 else 0) + (if isLast && !isFirst then 64 else 0)
    && (if isLast then |f| <= s && from + |f| - 1 == |nalu| else |f| == s)
  }

  lemma FragmentIs(nalu: seq<byte>, step: nat, offset: nat)
    requires 1 <= |nalu| && 0 < step && offset < |nalu| - 1
    ensures var size := |nalu| - 1;
            var next := if offset + step < size then offset + step else size;
            IsFragment(Fragment(nalu, TypeAt(offset, step, size), 1 + offset, 1 + next), nalu, step + 2, offset,
                       offset == 0, next == size)
  {
    IndicatorOf(nalu[0]);
    hide Indicator;
  }

  /** What each fragment from an offset on is. */
  lemma {:induction false} FragmentAt(nalu: seq<byte>, step: nat, offset: nat, i: nat, from: nat)
    requires 1 <= |nalu| && 0 < step && offset <= |nalu| - 1 && from == offset + i * step
    ensures var fragments := FragmentsFromOffset(nalu, step, offset);
            i < |fragments| ==> IsFragment(fragments[i], nalu, step + 2, from, from == 0, i == |fragments| - 1)
    decreases |nalu| - offset
  {
    var size := |nalu| - 1;
    if offset < size {
      var next := if offset + step < size then offset + step else size;
      FragmentIs(nalu, step, offset);
      hide Fragment, IsFragment;
      if i > 0 {
        Successor(i - 1, step);
        if next < size {
          FragmentAt(nalu, step, next, i - 1, from);
        }
      }
    }
  }

  /** How many fragments there are from an offset on. */
  lemma {:induction false} FragmentCount(nalu: seq<byte>, step: nat, offset: nat)
    requires 1 <= |nalu| && 0 < step && offset < |nalu| - 1
    ensures var k := |FragmentsFromOffset(nalu, step, offset)|;
            k > 0 && (k - 1) * step < |nalu| - 1 - offset <= k * step
    decreases |nalu| - offset
  {
    hide Fragment;
    var size := |nalu| - 1;
    if offset + step < size {
      FragmentCount(nalu, step, offset + step);
      var k := |FragmentsFromOffset(nalu, step, offset + step)|;
      Successor(k - 1, step);
      Successor(k, step);
    } else {
      assert FragmentsFromOffset(nalu, step, size) == [];
    }
  }

  lemma Successor(k: nat, step: nat)
    ensures (k + 1) * step == k * step + step
  {}

  lemma CeilDivIs(a: nat, b: nat, q: nat)
    requires b > 0 && q > 0 && (q - 1) * b < a <= q * b
    ensures CeilDiv(a, b) == q
  {
    var c := CeilDiv(a, b);
    assert (c - 1) * b == c * b - b;
    SmallerFactor(q - 1, c, b);
    SmallerFactor(c - 1, q, b);
  }

  /**
   A NAL unit of n bytes takes q parts of the limit, and parts of s bytes make it so many: every fragment but
   the last has s bytes, headers included, and carries the next s - 2 bytes behind the first one.
   */
  lemma FragmentsExactly(nalu: seq<byte>, limit: nat, q: nat, s: nat, i: nat, from: nat)
    requires Fragmentable(nalu, limit)
    requires q > 0 && (q - 1) * limit < |nalu| <= q * limit
    requires s > 0 && (s - 1) * q < |nalu| <= s * q
    requires from == i * (s - 2)
    ensures var fragments := FragmentsOf(nalu, limit);
            var k := |fragments|;
            && s >= 3 && k > 0 && (k - 1) * (s - 2) < |nalu| - 1 <= k * (s - 2)
            && (i < k ==> IsFragment(fragments[i], nalu, s, from, i == 0, i == k - 1))
  {
    CeilDivIs(|nalu|, limit, q);
    CeilDivIs(|nalu|, q, s);
    hide CeilDiv, FragmentsFromOffset, IsFragment;
    FragmentAt(nalu, s - 2, 0, i, from);
    FragmentCount(nalu, s - 2, 0);
    if i > 0 {
      Successor(i - 1, s - 2);
    }
  }

  lemma IndicatorOf(first: byte)
    ensures Indicator(ForbiddenBit(first), Nri(first)) == first - first % 32 + 28
  {}

  // ----- NAL units to RTP payloads -----

  /** Large NAL units are fragmented, the others are payloads as they are. */
  function Payloads(nalus: seq<seq<byte>>, limit: nat): (payloads: seq<seq<byte>>)
    requires forall i :: 0 <= i < |nalus| && |nalus[i]| > limit ==> Fragmentable(nalus[i], limit)
  {
    if nalus == [] then []
    else
      Payloads(nalus[..|nalus| - 1], limit) +
      PayloadsOf(nalus[|nalus| - 1], limit)
  }

  function PayloadsOf(nalu: seq<byte>, limit: nat): (payloads: seq<seq<byte>>)
    requires |nalu| > limit ==> Fragmentable(nalu, limit)
  {
    if |nalu| > limit then FragmentsOf(nalu, limit) else [nalu]
  }

  method GenerateFragments(nalus: seq<seq<byte>>, limit: nat) returns (result: seq<seq<byte>>)
    requires forall i :: 0 <= i < |nalus| && |nalus[i]| > limit ==> Fragmentable(nalus[i], limit)
    ensures result == Payloads(nalus, limit)
  {
    hide Fragmentable;
    result := [];
    for i := 0 to |nalus|
      invariant result == Payloads(nalus[..i], limit)
    {
      assert nalus[..i + 1][..i] == nalus[..i];
      var nalu := nalus[i];
      if |nalu| > limit {
        var fragments := FragmentsFrom(nalu, limit);
        result := result + fragments;
      } else {
        result := result + [nalu];
      }
    }
    assert nalus[..|nalus|] == nalus;
  }
}
