/**
 Splitting a video message into NAL units: by start codes (the Annex B byte stream of H.264, found
 with a small automaton) or by 32-bit lengths.
 */
module StartCodes {
  import opened Bytes

  datatype Separator = Length | LongStartSequence | ShortStartSequence | StartSequence

  datatype Match = NoMatch | FirstZero | SecondZero | ThirdZero | ShortMatch | LongMatch

  const SHORT_CODE: seq<byte> := [0, 0, 1]
  const LONG_CODE: seq<byte> := [0, 0, 0, 1]

  predicate DetectsShort(separator: Separator)
  {
    separator == ShortStartSequence || separator == StartSequence
  }

  predicate DetectsLong(separator: Separator)
  {
    separator == LongStartSequence || separator == StartSequence
  }

  function StartSequenceMatchSucc(m: Match, b: byte, separator: Separator): Match
    requires separator != Length
  {
    match m
    case NoMatch => if b == 0 then FirstZero else NoMatch
    case FirstZero => if b == 0 then SecondZero else NoMatch
    case SecondZero =>
      if b == 0 && DetectsLong(separator) then ThirdZero
      else if b == 0 && DetectsShort(separator) then SecondZero
      else if b == 1 && DetectsShort(separator) then ShortMatch
      else NoMatch
    case ThirdZero =>
      if b == 0 && DetectsLong(separator) then ThirdZero
      else if b == 1 && DetectsLong(separator) then LongMatch
      else NoMatch
    case ShortMatch => ShortMatch
    case LongMatch => LongMatch
  }

  // ----- What splitting means -----

  /** One of the mode's start codes stands at position i. */
  predicate CodeAt(separator: Separator, s: seq<byte>, i: int)
  {
    0 <= i <= |s| &&
    ((DetectsShort(separator) && SHORT_CODE <= s[i..]) || (DetectsLong(separator) && LONG_CODE <= s[i..]))
  }

  predicate CodeFree(separator: Separator, s: seq<byte>)
  {
    forall i :: 0 <= i <= |s| ==> !CodeAt(separator, s, i)
  }

  /** The number of zero bytes at the end. */
  function Zeros(s: seq<byte>): (z: nat)
    ensures z <= |s|
    ensures forall i :: |s| - z <= i < |s| ==> s[i] == 0
    ensures z < |s| ==> s[|s| - z - 1] != 0
  {
    if s == [] || s[|s| - 1] != 0 then 0 else 1 + Zeros(s[..|s| - 1])
  }

  /** The fewest zero bytes in a start code of the mode. */
  function Needed(separator: Separator): nat
  {
    if separator == LongStartSequence then 3 else 2
  }

  /** The bytes end in a start code. */
  predicate EndsInCode(separator: Separator, s: seq<byte>)
  {
    s != [] && s[|s| - 1] == 1 && Zeros(s[..|s| - 1]) >= Needed(separator)
  }

  /** The length of the start code the bytes end in: the long one if both are detected and both stand there. */
  function CodeLength(separator: Separator, s: seq<byte>): (n: nat)
    requires EndsInCode(separator, s)
    ensures 3 <= n <= 4 && n <= |s|
  {
    if DetectsLong(separator) && Zeros(s[..|s| - 1]) >= 3 then 4 else 3
  }

  lemma CodeStands(separator: Separator, s: seq<byte>)
    requires separator != Length && EndsInCode(separator, s)
    ensures IsCode(separator, s[|s| - CodeLength(separator, s)..])
  {
    var front := s[..|s| - 1];
    var n := CodeLength(separator, s);
    assert forall i :: |s| - n <= i < |s| - 1 ==> s[i] == front[i] == 0;
    assert s[|s| - n..] == if n == 4 then LONG_CODE else SHORT_CODE;
  }

  predicate IsCode(separator: Separator, code: seq<byte>)
  {
    (DetectsShort(separator) && code == SHORT_CODE) || (DetectsLong(separator) && code == LONG_CODE)
  }

  /** The length of the shortest prefix of s, at least k long, that ends in a start code; |s| + 1 if none. */
  function FirstMatch(separator: Separator, s: seq<byte>, k: nat): (end: nat)
    requires k <= |s|
    ensures k <= end <= |s| + 1
    ensures end <= |s| ==> EndsInCode(separator, s[..end])
    ensures forall j :: k <= j < end && j <= |s| ==> !EndsInCode(separator, s[..j])
    decreases |s| - k
  {
    if EndsInCode(separator, s[..k]) then k
    else if k == |s| then |s| + 1
    else FirstMatch(separator, s, k + 1)
  }

  /** The NAL units that follow a start code. */
  function SplitRest(separator: Separator, s: seq<byte>): (nalus: seq<seq<byte>>)
    requires separator != Length
    ensures nalus != []
    decreases |s|
  {
    var end := FirstMatch(separator, s, 0);
    if end > |s| then [s]
    else
      [s[..end - CodeLength(separator, s[..end])]] + SplitRest(separator, s[end..])
  }

  /** The bytes up to the first start code are discarded; without a start code there is one empty NAL unit. */
  function SplitCodes(separator: Separator, s: seq<byte>): (nalus: seq<seq<byte>>)
    requires separator != Length
    ensures nalus != []
  {
    var end := FirstMatch(separator, s, 0);
    if end > |s| then [[]] else SplitRest(separator, s[end..])
  }

  // ----- The automaton tracks the zero bytes at the end -----

  function StateOf(separator: Separator, zeros: nat): Match
  {
    if zeros == 0 then NoMatch
    else if zeros == 1 then FirstZero
    else if zeros == 2 || !DetectsLong(separator) then SecondZero
    else ThirdZero
  }

  /** One byte more: a match is reported exactly when the bytes end in a start code, with its length. */
  lemma AutomatonStep(separator: Separator, s: seq<byte>, b: byte)
    requires separator != Length
    ensures var m := StartSequenceMatchSucc(StateOf(separator, Zeros(s)), b, separator);
            if EndsInCode(separator, s + [b])
            then m == if CodeLength(separator, s + [b]) == 4 then LongMatch else ShortMatch
            else m == StateOf(separator, Zeros(s + [b]))
  {
    assert (s + [b])[..|s|] == s;
  }

  /** No prefix of `rest` up to length k ends in a start code. */
  predicate NoMatchUpTo(separator: Separator, rest: seq<byte>, k: nat)
    requires k <= |rest|
  {
    forall j :: 0 <= j <= k ==> !EndsInCode(separator, rest[..j])
  }

  lemma StepWithin(separator: Separator, rest: seq<byte>, k: nat)
    requires separator != Length && k < |rest| && NoMatchUpTo(separator, rest, k)
    ensures var m := StartSequenceMatchSucc(StateOf(separator, Zeros(rest[..k])), rest[k], separator);
            if m == LongMatch || m == ShortMatch
            then FirstMatch(separator, rest, 0) == k + 1 &&
                 CodeLength(separator, rest[..k + 1]) == if m == LongMatch then 4 else 3
            else m == StateOf(separator, Zeros(rest[..k + 1])) && NoMatchUpTo(separator, rest, k + 1)
  {
    assert rest[..k + 1] == rest[..k] + [rest[k]];
    AutomatonStep(separator, rest[..k], rest[k]);
  }

  // ----- The 32-bit length format -----

  /** NAL units with their lengths before them; an incomplete one ends the list, and so does a length at the very end. */
  function SplitLengths(s: seq<byte>): (nalus: seq<seq<byte>>)
    decreases |s|
  {
    if |s| <= 4 || 4 + U32(s, 0) > |s| then []
    else [s[4..4 + U32(s, 0)]] + SplitLengths(s[4 + U32(s, 0)..])
  }

  function Split(separator: Separator, s: seq<byte>): (nalus: seq<seq<byte>>)
  {
    if separator == Length then SplitLengths(s) else SplitCodes(separator, s)
  }

  // ----- The methods -----

  method SplitMessage(message: seq<byte>, separator: Separator) returns (nalus: seq<seq<byte>>)
    ensures nalus == Split(separator, message)
  {
    if separator == Length {
      nalus := SplitByLengths(message);
    } else {
      nalus := SplitByCodes(message, separator);
    }
  }

  method SplitByLengths(message: seq<byte>) returns (nalus: seq<seq<byte>>)
    ensures nalus == SplitLengths(message)
  {
    nalus := [];
    var index := 0;
    while index < |message|
      invariant index <= |message|
      invariant SplitLengths(message) == nalus + SplitLengths(message[index..])
    {
      if index + 4 >= |message| {
        break;
      }
      var length := U32(message, index);
      var naluStartIndex := index + 4;
      var naluEndIndex := naluStartIndex + length;
      if naluEndIndex > |message| {
        break;
      }
      SplitLengthsStep(message, index, nalus);
      nalus := nalus + [message[naluStartIndex..naluEndIndex]];
      index := naluEndIndex;
    }
    SplitLengthsEnd(message, index);
  }

  lemma SplitLengthsEnd(s: seq<byte>, index: nat)
    requires index <= |s|
    requires index + 4 >= |s| || index + 4 + U32(s, index) > |s|
    ensures SplitLengths(s[index..]) == []
  {
    assert index + 4 < |s| ==> U32(s[index..], 0) == U32(s, index);
  }

  lemma SplitLengthsStep(s: seq<byte>, index: nat, before: seq<seq<byte>>)
    requires index + 4 < |s| && index + 4 + U32(s, index) <= |s|
    ensures var end := index + 4 + U32(s, index);
            before + SplitLengths(s[index..]) == before + [s[index + 4..end]] + SplitLengths(s[end..])
  {
    hide SplitLengths, U32;
    var rest, end := s[index..], index + 4 + U32(s, index);
    LengthOfRest(s, index);
    SplitLengthsOf(rest);
    assert rest[4..4 + U32(rest, 0)] == s[index + 4..end];
    assert rest[4 + U32(rest, 0)..] == s[end..];
    ConcatAssociative(before, [s[index + 4..end]], SplitLengths(s[end..]));
  }

  lemma LengthOfRest(s: seq<byte>, index: nat)
    requires index + 4 < |s|
    ensures U32(s[index..], 0) == U32(s, index)
  {}

  lemma SplitLengthsOf(s: seq<byte>)
    requires 4 < |s| && 4 + U32(s, 0) <= |s|
    ensures SplitLengths(s) == [s[4..4 + U32(s, 0)]] + SplitLengths(s[4 + U32(s, 0)..])
  {
    hide U32;
  }

  method SplitByCodes(message: seq<byte>, separator: Separator) returns (nalus: seq<seq<byte>>)
    requires separator != Length
    ensures nalus == SplitCodes(separator, message)
  {
    hide *;
    nalus := [];
    var m := NoMatch;
    var index := SkipToCode(message, separator);
    var naluStartIndex: nat := index;
    while index < |message|
      invariant naluStartIndex <= index <= |message|
      invariant Scanned(separator, message, naluStartIndex, index, m)
      invariant SplitSoFar(separator, message, nalus, naluStartIndex)
    {
      ScanStep(separator, message, naluStartIndex, index, m);
      m := StartSequenceMatchSucc(m, message[index], separator);
      if m == LongMatch || m == ShortMatch {
        var sequenceLength := if m == LongMatch then 4 else 3;
        var naluEndIndex := index - sequenceLength;
        m := NoMatch;
        MatchStep(separator, message, nalus, naluStartIndex, naluEndIndex + 1, index + 1);
        nalus := nalus + [message[naluStartIndex..naluEndIndex + 1]];
        naluStartIndex := index + 1;
      }
      index := index + 1;
    }
    LastNaluOf(separator, message, nalus, naluStartIndex, m);
    nalus := nalus + [message[naluStartIndex..]];
  }

  /** The NAL units found so far and those of the rest are those of the message. */
  ghost predicate SplitSoFar(separator: Separator, message: seq<byte>, nalus: seq<seq<byte>>, start: nat)
  {
    && separator != Length && start <= |message|
    && SplitCodes(separator, message) == nalus + SplitRest(separator, message[start..])
  }

  /** The automaton has read message[start..index] from its initial state without a match. */
  ghost predicate Scanned(separator: Separator, message: seq<byte>, start: nat, index: nat, m: Match)
  {
    && start <= index <= |message|
    && NoMatchUpTo(separator, message[start..], index - start)
    && m == StateOf(separator, Zeros(message[start..][..index - start]))
  }

  lemma ScanStep(separator: Separator, message: seq<byte>, start: nat, index: nat, m: Match)
    requires separator != Length && index < |message| && Scanned(separator, message, start, index, m)
    ensures var next := StartSequenceMatchSucc(m, message[index], separator);
            if next == LongMatch || next == ShortMatch
            then MatchEnds(separator, message, start, index + 1, if next == LongMatch then 4 else 3)
            else Scanned(separator, message, start, index + 1, next)
  {
    hide StartSequenceMatchSucc, StateOf, Zeros, NoMatchUpTo, FirstMatch, EndsInCode, CodeLength;
    assert message[start..][index - start] == message[index];
    StepWithin(separator, message[start..], index - start);
  }

  lemma LastNaluOf(separator: Separator, message: seq<byte>, nalus: seq<seq<byte>>, start: nat, m: Match)
    requires SplitSoFar(separator, message, nalus, start)
    requires Scanned(separator, message, start, |message|, m)
    ensures SplitCodes(separator, message) == nalus + [message[start..]]
  {
    LastNalu(separator, message[start..]);
  }

  /** The first start code after `start` ends at `next` and has the given length. */
  ghost predicate MatchEnds(separator: Separator, message: seq<byte>, start: nat, next: nat, length: nat)
  {
    && start <= next <= |message|
    && FirstMatch(separator, message[start..], 0) == next - start
    && CodeLength(separator, message[start..][..next - start]) == length
  }

  lemma MatchStep(separator: Separator, message: seq<byte>, nalus: seq<seq<byte>>, start: nat, end: int, next: nat)
    requires SplitSoFar(separator, message, nalus, start)
    requires end <= next && MatchEnds(separator, message, start, next, next - end)
    ensures start <= end
    ensures SplitSoFar(separator, message, nalus + [message[start..end]], next)
    ensures Scanned(separator, message, next, next, NoMatch)
  {
    hide SplitCodes, SplitRest, FirstMatch, NoMatchUpTo, Zeros, EndsInCode, CodeLength;
    var rest := message[start..];
    SplitRestStep(separator, rest, next - start, nalus);
    Slices(message, start, next, end);
    EmptyHasNoCode(separator, message[next..]);
  }

  lemma Slices(s: seq<byte>, start: nat, next: nat, end: int)
    requires start <= next <= |s| && start <= end <= |s|
    ensures s[start..][next - start..] == s[next..]
    ensures s[start..][..end - start] == s[start..end]
  {}

  /** The index after the first start code, or the size of the message. */
  method SkipToCode(message: seq<byte>, separator: Separator) returns (index: nat)
    requires separator != Length
    ensures index <= |message|
    ensures SplitSoFar(separator, message, [], index)
    ensures Scanned(separator, message, index, index, NoMatch)
  {
    hide *;
    var m := NoMatch;
    index := 0;
    NothingScanned(separator, message, 0);
    while index < |message|
      invariant index <= |message|
      invariant Scanned(separator, message, 0, index, m)
    {
      ScanStep(separator, message, 0, index, m);
      m := StartSequenceMatchSucc(m, message[index], separator);
      index := index + 1;
      if m == LongMatch || m == ShortMatch {
        SkippedTo(separator, message, index, if m == LongMatch then 4 else 3);
        return;
      }
    }
    NothingToSkipTo(separator, message, m);
  }

  lemma NothingScanned(separator: Separator, message: seq<byte>, start: nat)
    requires start <= |message|
    ensures Scanned(separator, message, start, start, NoMatch)
  {
    EmptyHasNoCode(separator, message[start..]);
  }

  lemma SkippedTo(separator: Separator, message: seq<byte>, next: nat, length: nat)
    requires separator != Length && MatchEnds(separator, message, 0, next, length)
    ensures SplitSoFar(separator, message, [], next) && Scanned(separator, message, next, next, NoMatch)
  {
    NothingScanned(separator, message, next);
    assert message[0..] == message;
    hide FirstMatch, SplitRest, Scanned;
  }

  lemma NothingToSkipTo(separator: Separator, message: seq<byte>, m: Match)
    requires separator != Length && Scanned(separator, message, 0, |message|, m)
    ensures SplitSoFar(separator, message, [], |message|)
    ensures Scanned(separator, message, |message|, |message|, NoMatch)
  {
    NothingScanned(separator, message, |message|);
    assert message[0..] == message;
    LastNalu(separator, message);
    LastNalu(separator, []);
    hide FirstMatch;
  }

  lemma EmptyHasNoCode(separator: Separator, s: seq<byte>)
    ensures NoMatchUpTo(separator, s, 0) && Zeros(s[..0]) == 0
  {}

  lemma LastNalu(separator: Separator, s: seq<byte>)
    requires separator != Length && NoMatchUpTo(separator, s, |s|)
    ensures FirstMatch(separator, s, 0) > |s| && SplitRest(separator, s) == [s]
  {}

  lemma SplitRestStep(separator: Separator, rest: seq<byte>, end: nat, before: seq<seq<byte>>)
    requires separator != Length && end <= |rest| && FirstMatch(separator, rest, 0) == end
    ensures var nalu := rest[..end - CodeLength(separator, rest[..end])];
            before + SplitRest(separator, rest) == before + [nalu] + SplitRest(separator, rest[end..])
  {
    var nalu := rest[..end - CodeLength(separator, rest[..end])];
    ConcatAssociative(before, [nalu], SplitRest(separator, rest[end..]));
  }

  // ----- Splitting is exact -----

  lemma ZerosAtLeast(s: seq<byte>, n: nat)
    requires n <= |s| && forall i :: |s| - n <= i < |s| ==> s[i] == 0
    ensures Zeros(s) >= n
  {}

  lemma EndOfCode(separator: Separator, s: seq<byte>, i: nat)
    requires separator != Length && CodeAt(separator, s, i)
    ensures exists k :: 0 <= k <= |s| && EndsInCode(separator, s[..k])
  {
    var n := if DetectsShort(separator) && SHORT_CODE <= s[i..] then 3 else 4;
    var k := i + n;
    assert forall j :: 0 <= j < n ==> s[i + j] == s[i..][j];
    var front := s[..k - 1];
    assert s[..k][..k - 1] == front && s[k - 1] == 1;
    assert forall j :: k - n <= j < k - 1 ==> front[j] == 0;
    hide CodeAt, Zeros;
    ZerosAtLeast(front, n - 1);
    assert EndsInCode(separator, s[..k]);
  }

  lemma StartOfCode(separator: Separator, s: seq<byte>, k: nat)
    requires separator != Length && k <= |s| && EndsInCode(separator, s[..k])
    ensures CodeAt(separator, s, k - CodeLength(separator, s[..k]))
  {
    CodeStands(separator, s[..k]);
    hide Zeros, EndsInCode;
    SliceIsPrefix(s, k - CodeLength(separator, s[..k]), k);
  }

  lemma SliceIsPrefix(s: seq<byte>, i: nat, k: nat)
    requires i <= k <= |s|
    ensures s[..k][i..] == s[i..k] && s[i..k] <= s[i..]
  {}

  /** The automaton's matches and the literal start codes are the same thing. */
  lemma CodeFreeIsNoMatch(separator: Separator, s: seq<byte>)
    requires separator != Length
    ensures CodeFree(separator, s) <==> NoMatchUpTo(separator, s, |s|)
  {
    if i :| 0 <= i <= |s| && CodeAt(separator, s, i) {
      EndOfCode(separator, s, i);
    }
    if k :| 0 <= k <= |s| && EndsInCode(separator, s[..k]) {
      StartOfCode(separator, s, k);
    }
  }

  lemma NoMatchPrefix(separator: Separator, s: seq<byte>, k: nat)
    requires k <= |s| && NoMatchUpTo(separator, s, k)
    ensures NoMatchUpTo(separator, s[..k], k)
  {
    forall j | 0 <= j <= k ensures !EndsInCode(separator, s[..k][..j]) {
      assert s[..k][..j] == s[..j];
    }
  }

  /** The bytes before a first start code contain none. */
  lemma BeforeMatch(separator: Separator, s: seq<byte>)
    requires separator != Length
    ensures var end := FirstMatch(separator, s, 0);
            if end > |s| then CodeFree(separator, s)
            else CodeFree(separator, s[..end - CodeLength(separator, s[..end])])
  {
    var end := FirstMatch(separator, s, 0);
    if end > |s| {
      CodeFreeIsNoMatch(separator, s);
    } else {
      var k := end - CodeLength(separator, s[..end]);
      NoMatchPrefix(separator, s, k);
      CodeFreeIsNoMatch(separator, s[..k]);
    }
  }

  /** Each code before its NAL unit. */
  function Interleave(codes: seq<seq<byte>>, nalus: seq<seq<byte>>): (s: seq<byte>)
    requires |codes| == |nalus|
  {
    if codes == [] then [] else codes[0] + nalus[0] + Interleave(codes[1..], nalus[1..])
  }

  /** In the mixed mode a short code after a zero byte would be a long code. */
  predicate ShortAfterZero(separator: Separator, before: seq<byte>, code: seq<byte>)
  {
    separator == StartSequence && code == SHORT_CODE && Zeros(before) > 0
  }

  /** The codes are codes of the mode, and in the mixed mode no short one follows a zero byte. */
  predicate Separable(separator: Separator, before: seq<byte>, codes: seq<seq<byte>>, nalus: seq<seq<byte>>)
    requires |codes| == |nalus|
    decreases codes
  {
    codes == [] ||
    (&& !ShortAfterZero(separator, before, codes[0])
     && Separable(separator, nalus[0], codes[1..], nalus[1..]))
  }

  predicate AllCodes(separator: Separator, codes: seq<seq<byte>>)
  {
    forall i :: 0 <= i < |codes| ==> IsCode(separator, codes[i])
  }

  predicate AllCodeFree(separator: Separator, nalus: seq<seq<byte>>)
  {
    forall i :: 0 <= i < |nalus| ==> CodeFree(separator, nalus[i])
  }

  lemma SplitInThree<T>(s: seq<T>, k: nat, end: nat)
    requires k <= end <= |s|
    ensures s == s[..k] + (s[k..end] + s[end..])
    ensures s[..end][k..] == s[k..end] && s[..end][..k] == s[..k]
  {}

  /** A code of the mode that ends at `s` is the long one when it can be. */
  lemma LongestCode(separator: Separator, s: seq<byte>)
    requires separator != Length && EndsInCode(separator, s)
    ensures var k := |s| - CodeLength(separator, s);
            IsCode(separator, s[k..]) && !ShortAfterZero(separator, s[..k], s[k..])
  {
    CodeStands(separator, s);
    var k := |s| - CodeLength(separator, s);
    var front := s[..|s| - 1];
    if k > 0 && separator == StartSequence && Zeros(front) == 2 {
      assert s[..k][k - 1] == front[k - 1] != 0;
    }
  }

  lemma MatchSplits(separator: Separator, s: seq<byte>, end: nat)
    requires separator != Length && end <= |s| && end == FirstMatch(separator, s, 0)
    ensures var k := end - CodeLength(separator, s[..end]);
            && IsCode(separator, s[k..end])
            && s == s[..k] + (s[k..end] + s[end..])
            && !ShortAfterZero(separator, s[..k], s[k..end])
            && CodeFree(separator, s[..k])
  {
    hide *;
    LongestCode(separator, s[..end]);
    SplitInThree(s, end - CodeLength(separator, s[..end]), end);
    BeforeMatch(separator, s);
  }

  /** The codes put back between the NAL units give the bytes that were split. */
  ghost predicate IsJoin(separator: Separator, s: seq<byte>, codes: seq<seq<byte>>, nalus: seq<seq<byte>>)
  {
    && |nalus| == |codes| + 1
    && s == nalus[0] + Interleave(codes, nalus[1..])
    && AllCodes(separator, codes) && AllCodeFree(separator, nalus)
    && Separable(separator, nalus[0], codes, nalus[1..])
  }

  lemma IsJoinCons(separator: Separator, s: seq<byte>, nalu: seq<byte>, code: seq<byte>, codes: seq<seq<byte>>,
                   nalus: seq<seq<byte>>)
    requires IsJoin(separator, s, codes, nalus)
    requires IsCode(separator, code) && CodeFree(separator, nalu) && !ShortAfterZero(separator, nalu, code)
    ensures IsJoin(separator, nalu + (code + s), [code] + codes, [nalu] + nalus)
  {
    hide CodeFree, IsCode, ShortAfterZero;
    assert ([nalu] + nalus)[1..] == nalus && ([code] + codes)[1..] == codes;
    ConcatAssociative(code, nalus[0], Interleave(codes, nalus[1..]));
    assert Interleave([code] + codes, nalus) == code + s;
  }

  lemma RestUnfolded(separator: Separator, s: seq<byte>)
    requires separator != Length
    ensures var end := FirstMatch(separator, s, 0);
            if end > |s| then IsJoin(separator, s, [], SplitRest(separator, s))
            else SplitRest(separator, s) ==
                 [s[..end - CodeLength(separator, s[..end])]] + SplitRest(separator, s[end..])
  {
    if FirstMatch(separator, s, 0) > |s| {
      BeforeMatch(separator, s);
    }
  }

  lemma {:induction false} RestIsExact(separator: Separator, s: seq<byte>) returns (codes: seq<seq<byte>>)
    requires separator != Length
    ensures IsJoin(separator, s, codes, SplitRest(separator, s))
    decreases |s|
  {
    hide *;
    var end := FirstMatch(separator, s, 0);
    RestUnfolded(separator, s);
    if end > |s| {
      codes := [];
    } else {
      var k := end - CodeLength(separator, s[..end]);
      MatchSplits(separator, s, end);
      var tail := RestIsExact(separator, s[end..]);
      codes := [s[k..end]] + tail;
      IsJoinCons(separator, s[end..], s[..k], s[k..end], tail, SplitRest(separator, s[end..]));
    }
  }

  /**
   Without a start code there is one empty NAL unit; otherwise the message is a code-free prefix,
   which is discarded, and the NAL units, all code-free, each behind a start code of the mode.
   */
  lemma SplitIsExact(separator: Separator, s: seq<byte>) returns (prefix: seq<byte>, codes: seq<seq<byte>>)
    requires separator != Length
    ensures var nalus := SplitCodes(separator, s);
            if CodeFree(separator, s) then nalus == [[]]
            else
              && |codes| == |nalus|
              && s == prefix + Interleave(codes, nalus)
              && AllCodes(separator, codes) && CodeFree(separator, prefix) && AllCodeFree(separator, nalus)
              && Separable(separator, prefix, codes, nalus)
  {
    var end := FirstMatch(separator, s, 0);
    CodeFreeIsNoMatch(separator, s);
    if end > |s| {
      prefix, codes := s, [];
    } else {
      var k := end - CodeLength(separator, s[..end]);
      MatchSplits(separator, s, end);
      var tail := RestIsExact(separator, s[end..]);
      prefix, codes := s[..k], [s[k..end]] + tail;
      var nalus := SplitRest(separator, s[end..]);
      IsJoinCons(separator, s[end..], prefix, s[k..end], tail, nalus);
      assert ([prefix] + nalus)[1..] == nalus;
      assert !NoMatchUpTo(separator, s, |s|);
      hide CodeAt, CodeFree, FirstMatch, SplitRest, CodeLength;
    }
  }

  // ----- Splitting a join -----

  lemma {:induction false} ZerosAppend(s: seq<byte>, n: nat)
    ensures Zeros(s + seq(n, _ => 0)) == Zeros(s) + n
  {
    var t := s + seq(n, _ => 0);
    if n == 0 {
      assert t == s;
    } else {
      ZerosAppend(s, n - 1);
      assert t[..|t| - 1] == s + seq(n - 1, _ => 0);
    }
  }

  lemma CodeEnds(separator: Separator, nalu: seq<byte>, code: seq<byte>)
    requires separator != Length && IsCode(separator, code)
    ensures EndsInCode(separator, nalu + code)
    ensures CodeLength(separator, nalu + code) == |code| + if ShortAfterZero(separator, nalu, code) then 1 else 0
  {
    hide Zeros;
    ZerosOfCode(nalu, code, |code| - 1);
    var s := nalu + code;
    assert s[|s| - 1] == code[|code| - 1] && |s| - 1 == |nalu| + (|code| - 1);
  }

  lemma ZerosOfCode(nalu: seq<byte>, code: seq<byte>, n: nat)
    requires n <= |code| && forall i :: 0 <= i < n ==> code[i] == 0
    ensures Zeros((nalu + code)[..|nalu| + n]) == Zeros(nalu) + n
  {
    hide Zeros;
    ZerosAppend(nalu, n);
    assert (nalu + code)[..|nalu| + n] == nalu + seq(n, _ => 0);
  }

  lemma NoMatchBefore(separator: Separator, nalu: seq<byte>, code: seq<byte>, rest: seq<byte>, j: nat)
    requires separator != Length && IsCode(separator, code) && CodeFree(separator, nalu)
    requires j < |nalu| + |code|
    ensures !EndsInCode(separator, (nalu + (code + rest))[..j])
  {
    var s := nalu + (code + rest);
    if j <= |nalu| {
      CodeFreeIsNoMatch(separator, nalu);
      assert s[..j] == nalu[..j];
    } else {
      assert s[..j][j - 1] == code[j - 1 - |nalu|] == 0;
    }
  }

  lemma FirstMatchIs(separator: Separator, s: seq<byte>, end: nat)
    requires end <= |s| && EndsInCode(separator, s[..end])
    requires forall j :: 0 <= j < end ==> !EndsInCode(separator, s[..j])
    ensures FirstMatch(separator, s, 0) == end
  {
    hide EndsInCode;
  }

  lemma JoinSlices(nalu: seq<byte>, code: seq<byte>, rest: seq<byte>)
    ensures var s := nalu + (code + rest);
            && s[..|nalu| + |code|] == nalu + code && s[|nalu| + |code|..] == rest
            && (forall k :: 0 <= k <= |nalu| ==> s[..k] == nalu[..k])
  {}

  /** The first match after a code-free NAL unit is the end of the code behind it. */
  lemma MatchAfterNalu(separator: Separator, nalu: seq<byte>, code: seq<byte>, rest: seq<byte>)
    requires separator != Length && IsCode(separator, code) && CodeFree(separator, nalu)
    ensures var cut := if ShortAfterZero(separator, nalu, code) then nalu[..|nalu| - 1] else nalu;
            SplitRest(separator, nalu + (code + rest)) == [cut] + SplitRest(separator, rest)
    ensures FirstMatch(separator, nalu + (code + rest), 0) == |nalu| + |code|
  {
    hide EndsInCode, CodeLength, CodeFree, IsCode;
    var s := nalu + (code + rest);
    var end := |nalu| + |code|;
    JoinSlices(nalu, code, rest);
    CodeEnds(separator, nalu, code);
    forall j | 0 <= j < end ensures !EndsInCode(separator, s[..j]) {
      NoMatchBefore(separator, nalu, code, rest, j);
    }
    FirstMatchIs(separator, s, end);
    assert nalu[..|nalu|] == nalu;
  }

  lemma {:induction false} RestOfJoin(separator: Separator, codes: seq<seq<byte>>, nalus: seq<seq<byte>>)
    requires separator != Length && |nalus| == |codes| + 1
    requires AllCodes(separator, codes) && AllCodeFree(separator, nalus)
    ensures SplitRest(separator, nalus[0] + Interleave(codes, nalus[1..])) == nalus <==>
            Separable(separator, nalus[0], codes, nalus[1..])
    decreases |codes|
  {
    hide CodeFree, IsCode, SplitRest;
    var nalu := nalus[0];
    if codes == [] {
      assert nalu + Interleave(codes, nalus[1..]) == nalu;
      CodeFreeIsNoMatch(separator, nalu);
      LastNalu(separator, nalu);
    } else {
      var tail := nalus[1..];
      RestOfJoin(separator, codes[1..], tail);
      var rest := tail[0] + Interleave(codes[1..], tail[1..]);
      assert Interleave(codes, tail) == codes[0] + rest by {
        ConcatAssociative(codes[0], tail[0], Interleave(codes[1..], tail[1..]));
      }
      MatchAfterNalu(separator, nalu, codes[0], rest);
      var cut := if ShortAfterZero(separator, nalu, codes[0]) then nalu[..|nalu| - 1] else nalu;
      assert ([cut] + SplitRest(separator, rest))[0] == cut;
      assert ([cut] + SplitRest(separator, rest))[1..] == SplitRest(separator, rest);
      assert nalus == [nalu] + tail;
    }
  }

  /**
   Splitting NAL units joined with start codes gives them back exactly when none contains a start
   code and, in the mixed mode, none that ends in a zero byte is followed by a short code.
   */
  lemma SplitOfJoin(separator: Separator, codes: seq<seq<byte>>, nalus: seq<seq<byte>>)
    requires separator != Length && |codes| == |nalus| > 0 && AllCodes(separator, codes)
    ensures SplitCodes(separator, Interleave(codes, nalus)) == nalus <==>
            AllCodeFree(separator, nalus) && Separable(separator, nalus[0], codes[1..], nalus[1..])
  {
    hide CodeFree, IsCode, ShortAfterZero;
    var s := Interleave(codes, nalus);
    var rest := nalus[0] + Interleave(codes[1..], nalus[1..]);
    assert s == [] + (codes[0] + rest) by {
      ConcatAssociative(codes[0], nalus[0], Interleave(codes[1..], nalus[1..]));
    }
    EmptyIsCodeFree(separator);
    MatchAfterNalu(separator, [], codes[0], rest);
    assert s[|codes[0]|..] == rest;
    if AllCodeFree(separator, nalus) {
      RestOfJoin(separator, codes[1..], nalus);
    } else {
      var _ := RestIsExact(separator, rest);
    }
  }

  lemma EmptyIsCodeFree(separator: Separator)
    ensures CodeFree(separator, [])
  {}

  /** Each NAL unit behind its 32-bit length. */
  function JoinLengths(nalus: seq<seq<byte>>): (s: seq<byte>)
    requires forall i :: 0 <= i < |nalus| ==> |nalus[i]| < TWO_TO_THE_32
  {
    if nalus == [] then [] else Octets32(|nalus[0]|) + nalus[0] + JoinLengths(nalus[1..])
  }

  lemma JoinLengthsStep(nalu: seq<byte>, rest: seq<byte>)
    requires |nalu| < TWO_TO_THE_32
    ensures var s := Octets32(|nalu|) + nalu + rest;
            SplitLengths(s) == if |s| == 4 then [] else [nalu] + SplitLengths(rest)
  {
    var length := Octets32(|nalu|);
    var s := length + nalu + rest;
    assert s[0] == length[0] && s[1] == length[1] && s[2] == length[2] && s[3] == length[3];
    assert s[4..4 + |nalu|] == nalu && s[4 + |nalu|..] == rest;
  }

  /** NAL units written with their lengths are read back, unless the last one is empty: it is then dropped. */
  lemma {:induction false} SplitOfJoinedLengths(nalus: seq<seq<byte>>)
    requires forall i :: 0 <= i < |nalus| ==> |nalus[i]| < TWO_TO_THE_32
    ensures SplitLengths(JoinLengths(nalus)) ==
            if nalus != [] && nalus[|nalus| - 1] == [] then nalus[..|nalus| - 1] else nalus
  {
    if nalus != [] {
      var nalu, rest := nalus[0], nalus[1..];
      SplitOfJoinedLengths(rest);
      JoinLengthsStep(nalu, JoinLengths(rest));
      SplitFirst(nalus);
      hide SplitLengths, Octets32;
      if |nalus| > 1 {
        assert JoinLengths(rest) != [];
        assert nalus[..|nalus| - 1] == [nalu] + rest[..|rest| - 1];
      }
    }
  }

  /** The start codes octet by octet (H.264 Annex B): two or three zeros and a one, by the mode. */
  lemma CodesByOctets(s: seq<byte>, i: nat)
    requires i + 4 <= |s|
    ensures var short := s[i] == 0 && s[i + 1] == 0 && s[i + 2] == 1;
            var long := s[i] == 0 && s[i + 1] == 0 && s[i + 2] == 0 && s[i + 3] == 1;
            && (CodeAt(ShortStartSequence, s, i) <==> short)
            && (CodeAt(LongStartSequence, s, i) <==> long)
            && (CodeAt(StartSequence, s, i) <==> short || long)
            && !CodeAt(Length, s, i)
  {
    assert s[i..][0] == s[i] && s[i..][1] == s[i + 1] && s[i..][2] == s[i + 2] && s[i..][3] == s[i + 3];
  }
}
