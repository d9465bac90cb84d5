/**
 * Decimal text for 32-bit `int`: `std::to_string` and the parse done by `std::stoi`
 * (locale "C", base 10), the two library conversions the program relies on.
 */
module Decimal {
  import opened Wrappers

  /** `std::numeric_limits<int>::max()`, the program's `_MAX_INTEGER`. */
  const IntMax: int := 0x7FFF_FFFF
  /** `std::numeric_limits<int>::min()`. */
  const IntMin: int := -0x8000_0000

  predicate IsInt32(i: int) {
    IntMin <= i <= IntMax
  }

  predicate IsDigit(c: char) {
    '0' <= c <= '9'
  }

  predicate AllDigits(s: string) {
    forall k :: 0 <= k < |s| ==> IsDigit(s[k])
  }

  /** `isspace` in the "C" locale: blank, tab, newline, vertical tab, form feed, carriage return. */
  predicate IsSpace(c: char) {
    c == ' ' || 9 <= c as int <= 13
  }

  function DigitValue(c: char): (d: nat)
    requires IsDigit(c)
    ensures d < 10
  {
    c as int - '0' as int
  }

  function DigitChar(d: nat): (c: char)
    requires d < 10
    ensures IsDigit(c) && DigitValue(c) == d
  {
    ('0' as int + d) as char
  }

  /** The value of a string of decimal digits, most significant first. */
  function DigitsValue(s: string): nat
    requires AllDigits(s)
    decreases |s|
  {
    if |s| == 0 then 0 else DigitsValue(s[..|s| - 1]) * 10 + DigitValue(s[|s| - 1])
  }

  /** The shortest decimal spelling of `n`: digits only, no leading zero except for "0" itself. */
  function NatToString(n: nat): (r: string)
    decreases n
    ensures |r| > 0 && AllDigits(r)
    ensures r[0] == '0' ==> r == "0"
  {
    if n < 10 then [DigitChar(n)] else NatToString(n / 10) + [DigitChar(n % 10)]
  }

  /** `std::to_string(int)`: a minus sign before the magnitude of a negative value. */
  function IntToString(i: int): (r: string)
    ensures |r| > 0
    ensures i < 0 <==> r[0] == '-'
    ensures forall k :: 0 <= k < |r| ==> r[k] != ',' && r[k] != '\n'
  {
    if i < 0 then ['-'] + NatToString(-i) else NatToString(i)
  }

  lemma {:induction false} NatToStringValue(n: nat)
    ensures DigitsValue(NatToString(n)) == n
    decreases n
  {
    if n >= 10 {
      var s := NatToString(n);
      assert s[..|s| - 1] == NatToString(n / 10);
      NatToStringValue(n / 10);
    }
  }

  /** The length of the run of white space at the start of `s`, which `strtol` skips. */
  function SpaceRun(s: string): (n: nat)
    decreases |s|
    ensures n <= |s|
    ensures forall k :: 0 <= k < n ==> IsSpace(s[k])
    ensures n < |s| ==> !IsSpace(s[n])
  {
    if |s| > 0 && IsSpace(s[0]) then 1 + SpaceRun(s[1..]) else 0
  }

  function DropSpace(s: string): string {
    s[SpaceRun(s)..]
  }

  /** The length of the longest run of digits at the start of `s`. */
  function DigitRun(s: string): (n: nat)
    decreases |s|
    ensures n <= |s| && AllDigits(s[..n])
    ensures n < |s| ==> !IsDigit(s[n])
  {
    if |s| > 0 && IsDigit(s[0]) then 1 + DigitRun(s[1..]) else 0
  }

  /** The two exceptions `std::stoi` throws. */
  datatype StoiError = InvalidArgument | OutOfRange

  /**
   * `std::stoi(s)`: skip white space, accept one optional sign, then read the longest
   * run of digits; characters after that run are ignored ("12abc" reads as 12). No
   * digit at all is `invalid_argument`; a value outside `int` is `out_of_range`.
   */
  function Stoi(s: string): (r: Result<int, StoiError>)
    ensures r.Success? ==> IsInt32(r.value)
    ensures (forall k :: 0 <= k < |s| ==> !IsDigit(s[k])) ==> r == Failure(InvalidArgument)
  {
    var t := DropSpace(s);
    var negative := |t| > 0 && t[0] == '-';
    var u := Unsigned(t);
    var n := DigitRun(u);
    if n == 0 then Failure(InvalidArgument)
    else
      var v := Signed(negative, DigitsValue(u[..n]));
      if IsInt32(v) then Success(v) else Failure(OutOfRange)
  }

  function Signed(negative: bool, magnitude: nat): int {
    if negative then 0 - magnitude else magnitude
  }

  /** `t` without its one optional leading sign. */
  function Unsigned(t: string): string {
    if |t| > 0 && (t[0] == '-' || t[0] == '+') then t[1..] else t
  }

  lemma {:induction false} DigitRunOfDigits(s: string)
    requires AllDigits(s)
    ensures DigitRun(s) == |s|
    decreases |s|
  {
    if |s| > 0 {
      DigitRunOfDigits(s[1..]);
    }
  }

  /** A digit string, with or without a minus sign before it, reads back as its signed value. */
  lemma StoiOfSignedDigits(negative: bool, d: string)
    requires |d| > 0 && AllDigits(d)
    ensures var v := Signed(negative, DigitsValue(d));
            Stoi(if negative then ['-'] + d else d) == if IsInt32(v) then Success(v) else Failure(OutOfRange)
  {
    var s := if negative then ['-'] + d else d;
    assert IsDigit(d[0]);
    NoLeadingSpace(s);
    var u := Unsigned(s);
    assert u == d by {
      if negative {
        assert s[1..] == d;
      }
    }
    DigitRunOfDigits(d);
    assert u[..DigitRun(u)] == d;
  }

  lemma NoLeadingSpace(s: string)
    requires |s| > 0 && !IsSpace(s[0])
    ensures DropSpace(s) == s
  {
    assert SpaceRun(s) == 0;
  }

  /**
   * `stoi` reads back every `int` that `to_string` writes, and refuses the
   * decimal text of every value outside `int` as out of range.
   */
  lemma StoiOfIntToString(i: int)
    ensures Stoi(IntToString(i)) == if IsInt32(i) then Success(i) else Failure(OutOfRange)
  {
    var m: nat := if i < 0 then -i else i;
    NatToStringValue(m);
    StoiOfSignedDigits(i < 0, NatToString(m));
  }

  /** Zeros written before a digit string leave its value unchanged. */
  lemma {:induction false} LeadingZerosValue(z: string, s: string)
    requires forall k :: 0 <= k < |z| ==> z[k] == '0'
    requires AllDigits(s)
    ensures AllDigits(z + s)
    ensures DigitsValue(z + s) == DigitsValue(s)
    decreases |z| + |s|
  {
    var zs := z + s;
    if |s| == 0 {
      assert zs == z;
      if |z| > 0 {
        assert z[..|z| - 1] + [] == z[..|z| - 1];
        LeadingZerosValue(z[..|z| - 1], []);
      }
    } else {
      assert zs[..|zs| - 1] == z + s[..|s| - 1];
      LeadingZerosValue(z, s[..|s| - 1]);
    }
  }
}
