/**
 The generic NACK field (RFC 4585 section 6.2.1): a list of (PID, BLP) parts, where PID names one
 lost packet and bit k of the 16-bit mask BLP names packet PID + k + 1.
 */
module NackField {
  import opened Bytes

  datatype NackPart = NackPart(pid: uint16, blp: uint16)

  /** The mask with bit k set, which RFC 4585 calls bit k + 1: mask | (1 << k). */
  function SetBit(mask: nat, k: nat): (r: nat)
    ensures r >= mask
  {
    if k == 0 then (if mask % 2 == 1 then mask else mask + 1)
    else 2 * SetBit(mask / 2, k - 1) + mask % 2
  }

  /** The numbers first + k, modulo 2^16, of the bits k set in the mask, lowest bit first. */
  function MaskNumbers(first: uint16, mask: nat): (numbers: seq<int>)
    decreases mask
  {
    if mask == 0 then []
    else (if mask % 2 == 1 then [first] else []) + MaskNumbers((first + 1) % TWO_TO_THE_16, mask / 2)
  }

  /** The sequence numbers one part denotes. */
  function Numbers(part: NackPart): (numbers: seq<int>)
    ensures |numbers| > 0 && numbers[0] == part.pid
  {
    [part.pid] + MaskNumbers((part.pid + 1) % TWO_TO_THE_16, part.blp)
  }

  function DecodeAll(parts: seq<NackPart>): (numbers: seq<int>)
  {
    if parts == [] then [] else DecodeAll(parts[..|parts| - 1]) + Numbers(parts[|parts| - 1])
  }

  /** The part a missing packet joins is the last one, when the packet is within its window. */
  predicate StartsPart(parts: seq<NackPart>, missing: uint16)
  {
    parts == [] || missing < parts[|parts| - 1].pid || missing > parts[|parts| - 1].pid + 16
  }

  /** A packet equal to the last PID has no bit in the mask; the program's shift is then undefined. */
  predicate Addable(parts: seq<NackPart>, missing: uint16)
  {
    parts == [] || missing != parts[|parts| - 1].pid
  }

  function Widen(part: NackPart, missing: uint16): NackPart
    requires part.pid < missing <= part.pid + 16
  {
    SetBitBound(part.blp, missing - (1 + part.pid));
    NackPart(part.pid, SetBit(part.blp, missing - (1 + part.pid)))
  }

  function Add(parts: seq<NackPart>, missing: uint16): (r: seq<NackPart>)
    requires Addable(parts, missing)
    ensures r != []
  {
    if StartsPart(parts, missing) then parts + [NackPart(missing, 0)]
    else
      var last := parts[|parts| - 1];
      parts[|parts| - 1 := Widen(last, missing)]
  }

  /** The feedback packet being built: a caller-provided buffer of parts. */
  class RtcpNack {
    const parts: array<NackPart>

    constructor (capacity: nat)
      ensures parts.Length == capacity && fresh(parts)
    {
      parts := new NackPart[capacity](_ => NackPart(0, 0));
    }

    /** The caller threads the part count and the active PID from one call to the next. */
    method AddMissingPacket(fciCount: nat, fciPID: uint16, missingPacket: uint16)
      returns (grown: bool, newCount: nat, newPID: uint16)
      requires fciCount < parts.Length
      requires fciCount > 0 ==> parts[fciCount - 1].pid == fciPID != missingPacket
      modifies parts
      ensures newCount <= parts.Length
      ensures parts[..newCount] == Add(old(parts[..fciCount]), missingPacket)
      ensures newPID == parts[newCount - 1].pid
      ensures grown <==> newCount == fciCount + 1
      ensures !grown ==> newCount == fciCount
      ensures forall k :: newCount <= k < parts.Length ==> parts[k] == old(parts[k])
    {
      if fciCount == 0 || missingPacket < fciPID || missingPacket > fciPID + 16 {
        parts[fciCount] := NackPart(missingPacket, 0);
        return true, fciCount + 1, missingPacket;
      }
      var blp := parts[fciCount - 1].blp;
      SetBitBound(blp, missingPacket - (1 + fciPID));
      parts[fciCount - 1] := NackPart(fciPID, SetBit(blp, missingPacket - (1 + fciPID)));
      return false, fciCount, fciPID;
    }
  }

  method GetSequenceNumbers(part: NackPart) returns (result: seq<int>)
    ensures result == Numbers(part)
  {
    result := [part.pid];
    var bitmask: nat := part.blp;
    var i: uint16 := (part.pid + 1) % TWO_TO_THE_16;
    while bitmask > 0
      invariant Numbers(part) == result + MaskNumbers(i, bitmask)
      decreases bitmask
    {
      if bitmask % 2 == 1 {
        result := result + [i];
      }
      i := (i + 1) % TWO_TO_THE_16;
      bitmask := bitmask / 2;
    }
  }

  // ----- What a part denotes -----

  /** The mask has no bit at position k or above. */
  predicate Below(mask: nat, k: nat)
  {
    if k == 0 then mask == 0 else Below(mask / 2, k - 1)
  }

  lemma {:induction false} BelowMore(mask: nat, j: nat, k: nat)
    requires j <= k && Below(mask, j)
    ensures Below(mask, k)
  {
    if k > 0 { BelowMore(mask / 2, if j == 0 then 0 else j - 1, k - 1); }
  }

  lemma {:induction false} BelowPower(mask: nat, k: nat, bound: nat)
    requires IsPowerOfTwo(bound, k)
    ensures Below(mask, k) <==> mask < bound
  {
    if k > 0 { BelowPower(mask / 2, k - 1, bound / 2); }
  }

  lemma {:induction false} SetBitBelow(mask: nat, k: nat, width: nat)
    requires Below(mask, width) && k < width
    ensures Below(SetBit(mask, k), width)
  {
    if k > 0 { SetBitBelow(mask / 2, k - 1, width - 1); }
  }

  /** A 16-bit mask stays one. */
  lemma SetBitBound(mask: uint16, k: nat)
    requires k < 16
    ensures SetBit(mask, k) < TWO_TO_THE_16
  {
    TwoToThe16IsAPower();
    BelowPower(mask, 16, TWO_TO_THE_16);
    SetBitBelow(mask, k, 16);
    BelowPower(SetBit(mask, k), 16, TWO_TO_THE_16);
  }

  lemma {:induction false} NoBits(k: nat)
    ensures !BitSet(0, k)
  {
    if k > 0 { NoBits(k - 1); }
  }

  /** Bit k of the mask stands for the number n. */
  predicate Denotes(first: uint16, mask: nat, k: nat, n: uint16)
  {
    BitSet(mask, k) && n == (first + k) % TWO_TO_THE_16
  }

  lemma NumberOfMask(first: uint16, mask: nat, n: uint16)
    requires n in MaskNumbers(first, mask)
    ensures mask > 0
    ensures (mask % 2 == 1 && n == first) || n in MaskNumbers((first + 1) % TWO_TO_THE_16, mask / 2)
  {}

  lemma DenotesNext(first: uint16, mask: nat, k: nat, n: uint16)
    requires Denotes((first + 1) % TWO_TO_THE_16, mask / 2, k, n)
    ensures Denotes(first, mask, k + 1, n)
  {}

  lemma BelowStep(mask: nat, width: nat)
    requires mask > 0 && Below(mask, width)
    ensures width > 0 && Below(mask / 2, width - 1)
  {}

  lemma {:induction false} NumberHasBit(first: uint16, mask: nat, width: nat, n: uint16) returns (k: nat)
    requires Below(mask, width)
    requires n in MaskNumbers(first, mask)
    ensures k < width && Denotes(first, mask, k, n)
    decreases width
  {
    NumberOfMask(first, mask, n);
    BelowStep(mask, width);
    if mask % 2 == 1 && n == first {
      k := 0;
    } else {
      hide MaskNumbers, Denotes, Below;
      var j := NumberHasBit((first + 1) % TWO_TO_THE_16, mask / 2, width - 1, n);
      DenotesNext(first, mask, j, n);
      k := j + 1;
    }
  }

  lemma {:induction false} BitHasNumber(first: uint16, mask: nat, k: nat, n: uint16)
    requires Denotes(first, mask, k, n)
    ensures n in MaskNumbers(first, mask)
    decreases k
  {
    if mask == 0 {
      NoBits(k);
    } else if k > 0 {
      BitHasNumber((first + 1) % TWO_TO_THE_16, mask / 2, k - 1, n);
    }
  }

  /** Bit k of a part's mask stands for the number n. */
  predicate DenotedBy(part: NackPart, k: nat, n: uint16)
  {
    Denotes((part.pid + 1) % TWO_TO_THE_16, part.blp, k, n)
  }

  /** The meaning RFC 4585 gives a part: PID, and PID + k + 1 for each set bit k, modulo 2^16. */
  lemma NumbersMeaning(part: NackPart, n: uint16)
    ensures n in Numbers(part) <==> n == part.pid || exists k :: 0 <= k < 16 && DenotedBy(part, k, n)
  {
    TwoToThe16IsAPower();
    BelowPower(part.blp, 16, TWO_TO_THE_16);
    var first: uint16 := (part.pid + 1) % TWO_TO_THE_16;
    if n in MaskNumbers(first, part.blp) {
      var k := NumberHasBit(first, part.blp, 16, n);
      assert DenotedBy(part, k, n);
    }
    if k :| 0 <= k < 16 && DenotedBy(part, k, n) {
      BitHasNumber(first, part.blp, k, n);
    }
  }

  // ----- Building and reading back -----

  /** The PID of the part that holds the last number of the list. */
  function ActivePid(list: seq<uint16>): (pid: uint16)
    requires list != []
  {
    var missing := list[|list| - 1];
    if |list| == 1 then missing
    else
      var pid := ActivePid(list[..|list| - 1]);
      if missing < pid || missing > pid + 16 then missing else pid
  }

  /**
   Each number is above its predecessor, or below the PID of the part its predecessor is in (as
   when the numbering wraps around). Every strictly increasing list is such a list.
   */
  predicate InOrder(list: seq<uint16>)
  {
    |list| <= 1 ||
    var before := list[..|list| - 1];
    && InOrder(before)
    && (list[|list| - 1] > before[|before| - 1] || list[|list| - 1] < ActivePid(before))
  }

  predicate StrictlyIncreasing(list: seq<int>)
  {
    forall i, j :: 0 <= i < j < |list| ==> list[i] < list[j]
  }

  lemma {:induction false} ActivePidBounds(list: seq<uint16>)
    requires list != [] && InOrder(list)
    ensures ActivePid(list) <= list[|list| - 1] <= ActivePid(list) + 16
  {
    if |list| > 1 {
      ActivePidBounds(list[..|list| - 1]);
    }
  }

  lemma {:induction false} IncreasingIsInOrder(list: seq<uint16>)
    requires StrictlyIncreasing(list)
    ensures InOrder(list)
  {
    if list != [] {
      IncreasingIsInOrder(list[..|list| - 1]);
    }
  }

  /** The parts after feeding `list` to AddMissingPacket, one number at a time, from an empty packet. */
  function EncodeAll(list: seq<uint16>): (parts: seq<NackPart>)
    requires InOrder(list)
    ensures parts == [] <==> list == []
    ensures list != [] ==> parts[|parts| - 1].pid == ActivePid(list)
  {
    if list == [] then []
    else
      var before := list[..|list| - 1];
      assert before != [] ==> ActivePid(before) <= before[|before| - 1] by {
        if before != [] { ActivePidBounds(before); }
      }
      Add(EncodeAll(before), list[|list| - 1])
  }

  lemma MaskStep(first: uint16, mask: nat)
    requires first + 1 < TWO_TO_THE_16
    ensures MaskNumbers(first, mask) == (if mask % 2 == 1 then [first] else []) + MaskNumbers(first + 1, mask / 2)
  {}

  /** Setting a bit above all others appends one number. */
  lemma {:induction false} SetHighBit(first: uint16, mask: nat, k: nat)
    requires first + k < TWO_TO_THE_16
    requires Below(mask, k)
    ensures MaskNumbers(first, SetBit(mask, k)) == MaskNumbers(first, mask) + [first + k]
    ensures Below(SetBit(mask, k), k + 1)
    decreases k
  {
    var wider := SetBit(mask, k);
    if k == 0 {
      assert mask == 0 && wider == 1;
      assert MaskNumbers(first, 1) == [first];
    } else {
      SetHighBit(first + 1, mask / 2, k - 1);
      assert wider / 2 == SetBit(mask / 2, k - 1) && wider % 2 == mask % 2;
      MaskStep(first, wider);
      MaskStep(first, mask);
    }
  }

  lemma DecodeAllSnoc(parts: seq<NackPart>, part: NackPart)
    ensures DecodeAll(parts + [part]) == DecodeAll(parts) + Numbers(part)
  {
    assert (parts + [part])[..|parts|] == parts;
  }

  /** Setting the bit of a number above all the part's numbers appends that number. */
  lemma WidenAppends(part: NackPart, missing: uint16, top: nat)
    requires part.pid < missing <= part.pid + 16
    requires top < missing - part.pid && Below(part.blp, top)
    ensures Numbers(Widen(part, missing)) == Numbers(part) + [missing]
    ensures Below(Widen(part, missing).blp, missing - part.pid)
  {
    var k := missing - (1 + part.pid);
    WidenIs(part, missing);
    NumbersBelow(part);
    NumbersBelow(Widen(part, missing));
    hide *;
    BelowMore(part.blp, top, k);
    SetHighBit(part.pid + 1, part.blp, k);
    var numbers := MaskNumbers(part.pid + 1, part.blp);
    assert [part.pid] + (numbers + [missing]) == [part.pid] + numbers + [missing];
  }

  lemma WidenIs(part: NackPart, missing: uint16)
    requires part.pid < missing <= part.pid + 16
    ensures Widen(part, missing).pid == part.pid
    ensures Widen(part, missing).blp == SetBit(part.blp, missing - (1 + part.pid))
  {
    hide SetBit;
  }

  lemma NumbersBelow(part: NackPart)
    requires part.pid + 1 < TWO_TO_THE_16
    ensures Numbers(part) == [part.pid] + MaskNumbers(part.pid + 1, part.blp)
  {
    hide MaskNumbers;
  }

  lemma ReplaceLast(front: seq<NackPart>, last: NackPart, wider: NackPart, missing: uint16)
    requires Numbers(wider) == Numbers(last) + [missing]
    ensures DecodeAll(front + [wider]) == DecodeAll(front + [last]) + [missing]
  {
    DecodeAllSnoc(front, last);
    DecodeAllSnoc(front, wider);
    assert DecodeAll(front) + (Numbers(last) + [missing]) == DecodeAll(front) + Numbers(last) + [missing];
  }

  /** The last part has no number above `top`. */
  predicate Topped(parts: seq<NackPart>, top: nat)
  {
    parts != [] &&
    var last := parts[|parts| - 1];
    last.pid <= top && Below(last.blp, top - last.pid)
  }

  /** The number is above those of the last part, or outside its window. */
  predicate Fits(parts: seq<NackPart>, top: nat, missing: uint16)
  {
    parts != [] ==> Topped(parts, top) && (missing > top || missing < parts[|parts| - 1].pid)
  }

  lemma FitsLast(parts: seq<NackPart>, top: nat, missing: uint16)
    requires Fits(parts, top, missing)
    ensures Addable(parts, missing)
    ensures !StartsPart(parts, missing) ==>
              var last := parts[|parts| - 1];
              last.pid < missing <= last.pid + 16 && top - last.pid < missing - last.pid &&
              top >= last.pid && Below(last.blp, top - last.pid)
  {}

  /** A number that fits is appended when the parts are read back. */
  lemma AddAppends(parts: seq<NackPart>, top: nat, missing: uint16)
    requires Fits(parts, top, missing)
    ensures Addable(parts, missing)
    ensures DecodeAll(Add(parts, missing)) == DecodeAll(parts) + [missing]
  {
    FitsLast(parts, top, missing);
    if StartsPart(parts, missing) {
      DecodeAllSnoc(parts, NackPart(missing, 0));
    } else {
      var last, front := parts[|parts| - 1], parts[..|parts| - 1];
      SplitLast(parts);
      UpdateLast(parts, Widen(last, missing));
      WidenAppends(last, missing, top - last.pid);
      ReplaceLast(front, last, Widen(last, missing), missing);
    }
  }

  lemma AddIsTopped(parts: seq<NackPart>, top: nat, missing: uint16)
    requires Fits(parts, top, missing)
    ensures Addable(parts, missing) && Topped(Add(parts, missing), missing)
  {
    FitsLast(parts, top, missing);
    if !StartsPart(parts, missing) {
      var last := parts[|parts| - 1];
      WidenAppends(last, missing, top - last.pid);
    }
  }

  /** Encoding an ordered list of missing packets and reading the parts back gives exactly that list. */
  lemma {:induction false} RoundTrip(list: seq<uint16>)
    requires InOrder(list)
    ensures DecodeAll(EncodeAll(list)) == list
    ensures list != [] ==> Topped(EncodeAll(list), list[|list| - 1])
  {
    if list != [] {
      var before, missing := list[..|list| - 1], list[|list| - 1];
      RoundTrip(before);
      var parts := EncodeAll(before);
      var top := if before == [] then 0 else before[|before| - 1];
      AddAppends(parts, top, missing);
      AddIsTopped(parts, top, missing);
      assert EncodeAll(list) == Add(parts, missing);
      SplitLast(list);
    }
  }

  // ----- No packing is shorter -----

  /** The part's numbers do not wrap around past 65535. */
  ghost predicate Unwrapped(part: NackPart)
  {
    forall n :: n in Numbers(part) ==> part.pid <= n
  }

  /** The part, among `parts`, that carries n. */
  predicate CarriedBy(parts: seq<NackPart>, i: int, n: uint16)
  {
    0 <= i < |parts| && n in Numbers(parts[i])
  }

  ghost predicate Covers(parts: seq<NackPart>, list: seq<uint16>)
  {
    forall n :: n in list ==> exists i :: CarriedBy(parts, i, n)
  }

  lemma UnwrappedWindow(part: NackPart, n: uint16)
    requires Unwrapped(part) && n in Numbers(part)
    ensures part.pid <= n <= part.pid + 16
  {
    NumbersMeaning(part, n);
  }

  function Pids(parts: seq<NackPart>): (pids: seq<int>)
    ensures |pids| == |parts|
    ensures forall i :: 0 <= i < |parts| ==> pids[i] == parts[i].pid
  {
    seq(|parts|, i requires 0 <= i < |parts| => parts[i].pid)
  }

  /** Each PID is more than a window above the one before. */
  predicate FarApart(pids: seq<int>)
  {
    forall i, j :: 0 <= i < j < |pids| ==> pids[i] + 16 < pids[j]
  }

  lemma AddPids(parts: seq<NackPart>, missing: uint16)
    requires Addable(parts, missing)
    ensures Pids(Add(parts, missing)) == Pids(parts) + if StartsPart(parts, missing) then [missing] else []
  {}

  lemma FarApartSnoc(pids: seq<int>, pid: int)
    requires FarApart(pids)
    requires pids != [] ==> pids[|pids| - 1] + 16 < pid
    ensures FarApart(pids + [pid])
  {
    forall i | 0 <= i < |pids| ensures pids[i] + 16 < pid {
      assert i < |pids| - 1 ==> pids[i] + 16 < pids[|pids| - 1];
    }
  }

  /** The PIDs of the encoder's parts are numbers of the list, pairwise more than a window apart. */
  lemma {:induction false} PidsAreFarApart(list: seq<uint16>)
    requires StrictlyIncreasing(list)
    requires InOrder(list)
    ensures forall pid :: pid in Pids(EncodeAll(list)) ==> pid in list
    ensures FarApart(Pids(EncodeAll(list)))
  {
    if list != [] {
      var before, missing := list[..|list| - 1], list[|list| - 1];
      PidsAreFarApart(before);
      if before != [] {
        ActivePidBounds(before);
        assert before[|before| - 1] < missing;
      }
      var parts := EncodeAll(before);
      AddPids(parts, missing);
      if StartsPart(parts, missing) {
        FarApartSnoc(Pids(parts), missing);
      }
      assert list == before + [missing];
    }
  }

  lemma {:induction false} Pigeonhole(holes: seq<nat>, bound: nat)
    requires forall k :: 0 <= k < |holes| ==> holes[k] < bound
    requires forall j, k :: 0 <= j < k < |holes| ==> holes[j] != holes[k]
    ensures |holes| <= bound
    decreases bound
  {
    assert holes != [] ==> holes[0] < bound;
    if bound > 0 {
      if k :| 0 <= k < |holes| && holes[k] == bound - 1 {
        Pigeonhole(holes[..k] + holes[k + 1..], bound - 1);
      } else {
        Pigeonhole(holes, bound - 1);
      }
    }
  }

  /** Some part of a smaller cover carries two PIDs of the encoder's parts. */
  lemma SharedPart(list: seq<uint16>, others: seq<NackPart>) returns (i: nat, m: uint16, n: uint16)
    requires StrictlyIncreasing(list) && InOrder(list)
    requires Covers(others, list) && |others| < |EncodeAll(list)|
    ensures CarriedBy(others, i, m) && CarriedBy(others, i, n)
    ensures m + 16 < n && m in list && n in list && n <= ActivePid(list)
  {
    PidsAreFarApart(list);
    var pids := Pids(EncodeAll(list));
    var holes := seq(|pids|, k requires 0 <= k < |pids| =>
      assert pids[k] in list;
      var i: nat :| CarriedBy(others, i, pids[k]); i);
    if forall j, k :: 0 <= j < k < |holes| ==> holes[j] != holes[k] {
      Pigeonhole(holes, |others|);
      assert false;
    }
    var j, k :| 0 <= j < k < |holes| && holes[j] == holes[k];
    i, m, n := holes[j], pids[j], pids[k];
    assert k < |pids| - 1 ==> pids[k] + 16 < pids[|pids| - 1];
  }

  /** No set of unwrapped parts that covers the list, in any order, is smaller than the encoder's. */
  lemma NoCoverIsShorter(list: seq<uint16>, others: seq<NackPart>)
    requires StrictlyIncreasing(list) && InOrder(list)
    requires Covers(others, list)
    requires forall i :: 0 <= i < |others| ==> Unwrapped(others[i])
    ensures |EncodeAll(list)| <= |others|
  {
    if |others| < |EncodeAll(list)| {
      var i, m, n := SharedPart(list, others);
      UnwrappedWindow(others[i], m);
      UnwrappedWindow(others[i], n);
    }
  }

  lemma {:induction false} DecodedFrom(parts: seq<NackPart>, n: uint16) returns (i: nat)
    requires n in DecodeAll(parts)
    ensures CarriedBy(parts, i, n)
  {
    if n in Numbers(parts[|parts| - 1]) {
      i := |parts| - 1;
    } else {
      i := DecodedFrom(parts[..|parts| - 1], n);
    }
  }

  lemma {:induction false} IncreasingPartsAreUnwrapped(parts: seq<NackPart>)
    requires StrictlyIncreasing(DecodeAll(parts))
    ensures forall i :: 0 <= i < |parts| ==> Unwrapped(parts[i])
  {
    if parts != [] {
      var front, last := parts[..|parts| - 1], parts[|parts| - 1];
      var before, numbers := DecodeAll(front), Numbers(last);
      assert DecodeAll(parts) == before + numbers;
      forall i, j | 0 <= i < j < |before| ensures before[i] < before[j] {
        assert DecodeAll(parts)[i] == before[i] && DecodeAll(parts)[j] == before[j];
      }
      IncreasingPartsAreUnwrapped(front);
      forall n | n in numbers ensures last.pid <= n {
        var k :| 0 <= k < |numbers| && numbers[k] == n;
        assert DecodeAll(parts)[|before|] == numbers[0] && DecodeAll(parts)[|before| + k] == n;
      }
    }
  }

  /** No parts that read back as the list are fewer than the encoder's. */
  lemma NoPackingIsShorter(list: seq<uint16>, others: seq<NackPart>)
    requires StrictlyIncreasing(list)
    requires DecodeAll(others) == list
    ensures InOrder(list) && |EncodeAll(list)| <= |others|
  {
    IncreasingIsInOrder(list);
    IncreasingPartsAreUnwrapped(others);
    forall n | n in list ensures exists i :: CarriedBy(others, i, n) {
      var i := DecodedFrom(others, n);
    }
    NoCoverIsShorter(list, others);
  }

  // ----- Parts that wrap around -----

  /** At most 16 above the PID, counted modulo 2^16. */
  predicate InWindow(pid: uint16, n: uint16)
  {
    (n - pid) % TWO_TO_THE_16 <= 16
  }

  /** Every number of a part is in its window. */
  lemma NumberInWindow(part: NackPart, n: uint16)
    requires n in Numbers(part)
    ensures InWindow(part.pid, n)
  {
    NumbersMeaning(part, n);
  }

  /** Two numbers of one part are at most 16 apart, or more than 65519. */
  lemma NumbersOfOnePart(part: NackPart, m: uint16, n: uint16)
    requires m in Numbers(part) && n in Numbers(part) && m <= n
    ensures n - m <= 16 || (TWO_TO_THE_16 - 16 <= part.pid <= n && n - m >= TWO_TO_THE_16 - 16)
  {
    NumberInWindow(part, m);
    NumberInWindow(part, n);
  }

  /**
   When the active PID is more than a window before the first number comes around again, as it is when
   the list spans less than 65520, nothing that covers it is smaller than the encoder's parts, wrapped
   or not.
   */
  lemma NoCoverIsShorterBeforeWrap(list: seq<uint16>, others: seq<NackPart>)
    requires StrictlyIncreasing(list) && InOrder(list)
    requires list != [] ==> ActivePid(list) - list[0] < TWO_TO_THE_16 - 16
    requires Covers(others, list)
    ensures |EncodeAll(list)| <= |others|
  {
    if |others| < |EncodeAll(list)| {
      var i, m, n := SharedPart(list, others);
      NumbersOfOnePart(others[i], m, n);
    }
  }

  /** The numbers of the list strictly between two bounds. */
  function Between(list: seq<uint16>, low: int, high: int): (kept: seq<uint16>)
  {
    if list == [] then []
    else
      var last := list[|list| - 1];
      Between(list[..|list| - 1], low, high) + if low < last < high then [last] else []
  }

  lemma {:induction false} BetweenIsExact(list: seq<uint16>, low: int, high: int)
    ensures forall x :: x in Between(list, low, high) <==> x in list && low < x < high
  {
    if list != [] {
      BetweenIsExact(list[..|list| - 1], low, high);
      SplitLast(list);
    }
  }

  lemma IncreasingSnoc(front: seq<int>, last: int)
    requires StrictlyIncreasing(front) && forall x :: x in front ==> x < last
    ensures StrictlyIncreasing(front + [last])
  {
    forall i | 0 <= i < |front| ensures front[i] < last {
      assert front[i] in front;
    }
  }

  lemma {:induction false} BetweenIncreases(list: seq<uint16>, low: int, high: int)
    requires StrictlyIncreasing(list)
    ensures StrictlyIncreasing(Between(list, low, high))
  {
    if list != [] {
      var front, last := list[..|list| - 1], list[|list| - 1];
      BetweenIncreases(front, low, high);
      BetweenIsExact(front, low, high);
      forall x | x in Between(front, low, high) ensures x < last {
        var k :| 0 <= k < |front| && front[k] == x;
      }
      IncreasingSnoc(Between(front, low, high), last);
    }
  }

  /** The numbers of the list that a part with a PID n from 65520 on cannot carry. */
  function Middle(list: seq<uint16>, n: uint16): (middle: seq<uint16>)
  {
    Between(list, n + 16 - TWO_TO_THE_16, n)
  }

  lemma OutOfWindow(n: uint16, x: uint16)
    requires n >= TWO_TO_THE_16 - 16
    ensures !InWindow(n, x) <==> n + 16 - TWO_TO_THE_16 < x < n
  {}

  lemma MiddleMembers(list: seq<uint16>, n: uint16, x: uint16)
    requires n >= TWO_TO_THE_16 - 16
    ensures x in Middle(list, n) <==> x in list && !InWindow(n, x)
  {
    hide Between, InWindow;
    BetweenIsExact(list, n + 16 - TWO_TO_THE_16, n);
    OutOfWindow(n, x);
  }

  lemma MiddleIncreases(list: seq<uint16>, n: uint16)
    requires StrictlyIncreasing(list)
    ensures StrictlyIncreasing(Middle(list, n)) && InOrder(Middle(list, n))
  {
    hide Between, StrictlyIncreasing, InOrder;
    BetweenIncreases(list, n + 16 - TWO_TO_THE_16, n);
    IncreasingIsInOrder(Middle(list, n));
  }

  lemma MiddleIsExact(list: seq<uint16>, n: uint16)
    requires StrictlyIncreasing(list) && n >= TWO_TO_THE_16 - 16
    ensures StrictlyIncreasing(Middle(list, n)) && InOrder(Middle(list, n))
    ensures forall x :: x in Middle(list, n) <==> x in list && !InWindow(n, x)
  {
    hide *;
    MiddleIncreases(list, n);
    forall x
      ensures x in Middle(list, n) <==> x in list && !InWindow(n, x)
    {
      MiddleMembers(list, n, x);
    }
  }

  lemma MiddleEndsBeforeWrap(list: seq<uint16>, n: uint16)
    requires InOrder(Middle(list, n)) && Middle(list, n) != []
    ensures ActivePid(Middle(list, n)) - Middle(list, n)[0] < TWO_TO_THE_16 - 16
  {
    var middle := Middle(list, n);
    BetweenIsExact(list, n + 16 - TWO_TO_THE_16, n);
    ActivePidBounds(middle);
    hide Between, InOrder, ActivePid;
    assert middle[0] in middle && middle[|middle| - 1] in middle;
  }

  /** One part that starts with n of the list and wraps around saves a part. */
  predicate WrapSaves(list: seq<uint16>, n: uint16)
    requires InOrder(list)
  {
    && n in list && n >= TWO_TO_THE_16 - 16
    && InOrder(Middle(list, n)) && 1 + |EncodeAll(Middle(list, n))| < |EncodeAll(list)|
  }

  lemma {:induction false} AllBits(mask: nat, width: nat, k: nat)
    requires IsPowerOfTwo(mask + 1, width) && k < width
    ensures BitSet(mask, k)
  {
    if k > 0 { AllBits(mask / 2, width - 1, k - 1); }
  }

  lemma WindowBit(n: uint16, x: uint16) returns (k: nat)
    requires InWindow(n, x) && x != n
    ensures k < 16 && x == ((n + 1) % TWO_TO_THE_16 + k) % TWO_TO_THE_16
  {
    k := (x - n) % TWO_TO_THE_16 - 1;
  }

  lemma FullPart(n: uint16, x: uint16)
    requires InWindow(n, x)
    ensures x in Numbers(NackPart(n, TWO_TO_THE_16 - 1))
  {
    var part := NackPart(n, TWO_TO_THE_16 - 1);
    NumbersMeaning(part, x);
    if x != n {
      var k := WindowBit(n, x);
      TwoToThe16IsAPower();
      AllBits(part.blp, 16, k);
      hide Numbers, InWindow, BitSet;
      assert DenotedBy(part, k, x);
    }
  }

  lemma WrappedCover(list: seq<uint16>, n: uint16) returns (others: seq<NackPart>)
    requires StrictlyIncreasing(list) && InOrder(list) && WrapSaves(list, n)
    ensures Covers(others, list) && |others| < |EncodeAll(list)|
  {
    hide Middle, EncodeAll, DecodeAll, Numbers, InOrder, StrictlyIncreasing, ActivePid, Topped, InWindow;
    var middle := Middle(list, n);
    MiddleIsExact(list, n);
    var rest := EncodeAll(middle);
    others := [NackPart(n, TWO_TO_THE_16 - 1)] + rest;
    forall x | x in list ensures exists i :: CarriedBy(others, i, x) {
      if x in middle {
        RoundTrip(middle);
        var i := DecodedFrom(rest, x);
        assert others[i + 1] == rest[i];
        assert CarriedBy(others, i + 1, x);
      } else {
        FullPart(n, x);
        assert CarriedBy(others, 0, x);
      }
    }
  }

  /** The smallest number of the list that is not below q. */
  lemma {:induction false} FirstFrom(list: seq<uint16>, q: int, n: uint16) returns (s: uint16)
    requires n in list && q <= n
    ensures s in list && q <= s <= n
    ensures forall x :: x in list && q <= x ==> s <= x
    decreases n
  {
    if x :| x in list && q <= x < n {
      s := FirstFrom(list, q, x);
    } else {
      s := n;
    }
  }

  lemma RestCovers(others: seq<NackPart>, i: nat, list: seq<uint16>, part: seq<uint16>)
    requires i < |others| && Covers(others, list)
    requires forall x :: x in part ==> x in list && x !in Numbers(others[i])
    ensures Covers(others[..i] + others[i + 1..], part)
  {
    var rest := others[..i] + others[i + 1..];
    forall x | x in part ensures exists k :: CarriedBy(rest, k, x) {
      var k :| CarriedBy(others, k, x);
      assert CarriedBy(rest, if k < i then k else k - 1, x);
    }
  }

  lemma WindowMoves(pid: uint16, n: uint16, x: uint16)
    requires TWO_TO_THE_16 - 16 <= pid <= n && InWindow(pid, x) && (pid <= x ==> n <= x)
    ensures InWindow(n, x)
  {}

  lemma SmallerCoverWraps(list: seq<uint16>, others: seq<NackPart>) returns (s: uint16)
    requires StrictlyIncreasing(list) && InOrder(list)
    requires Covers(others, list) && |others| < |EncodeAll(list)|
    ensures WrapSaves(list, s)
  {
    hide Middle, EncodeAll, Numbers, InOrder, StrictlyIncreasing, ActivePid, Covers, InWindow;
    var i, m, n := SharedPart(list, others);
    NumbersOfOnePart(others[i], m, n);
    s := FirstFrom(list, others[i].pid, n);
    var middle := Middle(list, s);
    MiddleIsExact(list, s);
    forall x | x in middle ensures x in list && x !in Numbers(others[i]) {
      if x in Numbers(others[i]) {
        NumberInWindow(others[i], x);
        WindowMoves(others[i].pid, s, x);
      }
    }
    RestCovers(others, i, list, middle);
    if middle != [] {
      MiddleEndsBeforeWrap(list, s);
    }
    NoCoverIsShorterBeforeWrap(middle, others[..i] + others[i + 1..]);
  }

  /**
   Fewer parts than the encoder's cover the list exactly when a part that starts with one of its
   numbers from 65520 on, and wraps around, leaves to the encoder a list with two parts less.
   */
  lemma ShorterCoverExactly(list: seq<uint16>)
    requires StrictlyIncreasing(list) && InOrder(list)
    ensures (exists others :: Covers(others, list) && |others| < |EncodeAll(list)|) <==>
            (exists n :: WrapSaves(list, n))
  {
    if others :| Covers(others, list) && |others| < |EncodeAll(list)| {
      var n := SmallerCoverWraps(list, others);
    }
    if n :| WrapSaves(list, n) {
      var others := WrappedCover(list, n);
    }
  }

  /** A part that wraps around can beat the encoder when the order of the numbers does not matter. */
  lemma WrappedCoverCanBeShorter()
    ensures var list: seq<uint16> := [0, 65535];
            && StrictlyIncreasing(list) && InOrder(list)
            && Covers([NackPart(65535, 1)], list)
            && |EncodeAll(list)| == 2
  {
    var list: seq<uint16> := [0, 65535];
    IncreasingIsInOrder(list);
    assert list[..1] == [0] && list[..1][..0] == [];
    assert EncodeAll([0]) == [NackPart(0, 0)];
    var part := NackPart(65535, 1);
    assert MaskNumbers(0, 1) == [0] + MaskNumbers(1, 0);
    assert Numbers(part) == [65535, 0];
    assert CarriedBy([part], 0, 0) && CarriedBy([part], 0, 65535);
  }
}
