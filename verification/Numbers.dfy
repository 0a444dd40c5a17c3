/**
 Numbers in texts: decimal digits as they are printed and read.
 */
module Numbers {
  import opened Bytes
  import opened Http

  predicate IsDigit(c: char)
  {
    '0' <= c <= '9'
  }

  /** The number that the decimal digits at the start continue. */
  function LeadingNumber(s: string, value: nat): nat
  {
    if s == [] || !IsDigit(s[0]) then value
    else LeadingNumber(s[1..], 10 * value + (s[0] as int - '0' as int))
  }

  function Decimal(n: nat): (s: string)
    ensures s != [] && IsDigit(s[0])
  {
    if n < 10 then [('0' as int + n) as char] else Decimal(n / 10) + [('0' as int + n % 10) as char]
  }

  /** Printed digits are read as their number, whatever follows. */
  lemma {:induction false} DecimalRead(n: nat, rest: string)
    ensures LeadingNumber(Decimal(n) + rest, 0) == LeadingNumber(rest, n)
  {
    var last := [('0' as int + n % 10) as char];
    if n < 10 {
      assert (Decimal(n) + rest)[1..] == rest;
    } else {
      ConcatAssociative(Decimal(n / 10), last, rest);
      DecimalRead(n / 10, last + rest);
      assert (last + rest)[1..] == rest;
    }
  }

  /** The value of decimal digits by their places, the last one counting once. */
  function PlaceValue(s: string): (n: int)
  {
    if s == [] then 0 else 10 * PlaceValue(s[..|s| - 1]) + (s[|s| - 1] as int - '0' as int)
  }

  /** Printed numbers are decimal, without leading zeros. */
  lemma {:induction false} DecimalIsDecimal(n: nat)
    ensures PlaceValue(Decimal(n)) == n
    ensures Decimal(n)[0] == '0' <==> n == 0
  {
    if n >= 10 {
      DecimalIsDecimal(n / 10);
      var last := [('0' as int + n % 10) as char];
      assert (Decimal(n / 10) + last)[..|Decimal(n / 10)|] == Decimal(n / 10);
    }
  }

  function Integer(n: int): (s: string)
  {
    if n < 0 then "-" + Decimal(-n) else Decimal(n)
  }

  const TWO_TO_THE_31: int := 0x8000_0000
  const TWO_TO_THE_63: int := 0x8000_0000_0000_0000

  predicate IsInt(n: int)
  {
    -TWO_TO_THE_31 <= n < TWO_TO_THE_31
  }

  /** The text's sign and the text behind it. */
  function SignedDigits(s: string): (r: (bool, string))
  {
    var t := SkipWhite(s);
    if t != [] && t[0] == '-' then (true, t[1..])
    else if t != [] && t[0] == '+' then (false, t[1..])
    else (false, t)
  }

  /** A 64-bit number at the start of a text, reduced to 32 bits; None is the exception. */
  function ToInt(s: string): (n: Option<int>)
  {
    var (negative, digits) := SignedDigits(s);
    if digits == [] || !IsDigit(digits[0]) then None
    else
      var n := LeadingNumber(digits, 0);
      var v: int := if negative then 0 - n else n;
      if v < -TWO_TO_THE_63 || v >= TWO_TO_THE_63 then None
      else Some((v + TWO_TO_THE_31) % TWO_TO_THE_32 - TWO_TO_THE_31)
  }

  function ToUnsigned(s: string): (n: Option<int>)
  {
    var (negative, digits) := SignedDigits(s);
    if digits == [] || !IsDigit(digits[0]) then None
    else
      var n := LeadingNumber(digits, 0);
      if n >= TWO_TO_THE_64 then None else Some((if negative then TWO_TO_THE_64 - n else n) % TWO_TO_THE_32)
  }

  lemma SignRead(n: int, rest: string)
    ensures var digits := Decimal(if n < 0 then -n else n) + rest;
            SignedDigits(Integer(n) + rest) == (n < 0, digits) && digits != [] && IsDigit(digits[0])
  {
    var digits := Decimal(if n < 0 then -n else n) + rest;
    assert IsDigit(digits[0]) && !IsSpace(digits[0]);
    if n < 0 {
      assert Integer(n) + rest == ['-'] + digits;
      assert (['-'] + digits)[1..] == digits;
    }
  }

  /** A printed int is read back, if no digit follows. */
  lemma IntegerRead(n: int, rest: string)
    requires IsInt(n) && (rest == [] || !IsDigit(rest[0]))
    ensures ToInt(Integer(n) + rest) == Some(n)
  {
    SignRead(n, rest);
    var magnitude := if n < 0 then -n else n;
    DecimalRead(magnitude, rest);
    assert LeadingNumber(rest, magnitude) == magnitude;
    hide Decimal, SignedDigits, LeadingNumber, Integer;
  }

  /** Exactly the numbers of 32 bits are read back. */
  lemma IntegerReadExactly(n: int)
    ensures ToInt(Integer(n)) == Some(n) <==> -0x8000_0000 <= n <= 0x7fff_ffff
  {
    if -0x8000_0000 <= n <= 0x7fff_ffff {
      IntegerRead(n, []);
      assert Integer(n) + [] == Integer(n);
    }
    hide Integer, SignedDigits, LeadingNumber;
  }

  lemma {:induction false} DecimalIsDigits(n: nat)
    ensures forall i :: 0 <= i < |Decimal(n)| ==> IsDigit(Decimal(n)[i])
  {
    if n >= 10 {
      DecimalIsDigits(n / 10);
    }
  }

  /** Printed numbers have only digits and a sign. */
  lemma IntegerHasNo(n: int, c: char)
    requires !IsDigit(c) && c != '-'
    ensures c !in Integer(n)
  {
    DecimalIsDigits(if n < 0 then -n else n);
  }
}
