/** Decimal text of integers: `std::to_string` for output and `std::stoi`
    for input, on the 32-bit `int` of the source. */
module Decimal {
  import opened Wrappers

  const INT_MIN: int := -0x8000_0000
  const INT_MAX: int := 0x7fff_ffff

  predicate IsInt32(x: int) {
    INT_MIN <= x <= INT_MAX
  }

  /** `x` modulo 2^32 read as a signed 32-bit `int`: what the conversion of
      an integer to `uint32_t` and back, or of a `size_t` to `int`, gives. */
  function Wrap32(x: int): (r: int)
    ensures IsInt32(r) && (x - r) % 0x1_0000_0000 == 0
    ensures IsInt32(x) ==> r == x
  {
    var u := x % 0x1_0000_0000;
    if u <= INT_MAX then u else u - 0x1_0000_0000
  }

  predicate IsDigit(c: char) {
    '0' <= c <= '9'
  }

  /** The C `isspace` set, which `strtol` skips before the number. */
  predicate IsSpace(c: char) {
    c == ' ' || c == '\t' || c == '\n' || c == '\r' || c == '\U{000B}' || c == '\U{000C}'
  }

  predicate AllDigits(s: string) {
    forall i :: 0 <= i < |s| ==> IsDigit(s[i])
  }

  function DigitChar(d: nat): (c: char)
    requires d < 10
    ensures IsDigit(c) && c as int - '0' as int == d
  {
    (d + '0' as int) as char
  }

  /** `std::to_string` of a non-negative number. */
  function NatToString(n: nat): (r: string)
    ensures |r| > 0 && AllDigits(r)
    ensures r[0] == '0' ==> n == 0
  {
    if n < 10 then [DigitChar(n)] else NatToString(n / 10) + [DigitChar(n % 10)]
  }

  /** `std::to_string` of an `int`. */
  function IntToString(x: int): (r: string)
    ensures |r| > 0
    ensures x < 0 <==> r[0] == '-'
  {
    if x < 0 then "-" + NatToString(-x) else NatToString(x)
  }

  /** The value of a run of decimal digits. */
  function DigitsValue(s: string): nat
    requires AllDigits(s)
  {
    if |s| == 0 then 0 else DigitsValue(s[..|s| - 1]) * 10 + (s[|s| - 1] as int - '0' as int)
  }

  lemma {:induction false} DigitsValueOfNatToString(n: nat)
    ensures DigitsValue(NatToString(n)) == n
  {
    if n >= 10 {
      var s := NatToString(n);
      assert s[..|s| - 1] == NatToString(n / 10);
      DigitsValueOfNatToString(n / 10);
    }
  }

  /** The longest prefix of `s` made of digits. */
  function LeadingDigits(s: string): (r: string)
    ensures |r| <= |s| && AllDigits(r) && r == s[..|r|]
    ensures |r| == |s| || !IsDigit(s[|r|])
  {
    if |s| > 0 && IsDigit(s[0]) then
      var rest := LeadingDigits(s[1..]);
      assert s[..1 + |rest|] == [s[0]] + s[1..][..|rest|];
      [s[0]] + rest
    else []
  }

  lemma {:induction false} LeadingDigitsOfDigits(s: string)
    requires AllDigits(s)
    ensures LeadingDigits(s) == s
  {
    if |s| > 0 {
      LeadingDigitsOfDigits(s[1..]);
    }
  }

  /** `s` without its leading white space. */
  function SkipSpace(s: string): (r: string)
    ensures |r| == 0 || !IsSpace(r[0])
    ensures |r| <= |s| && r == s[|s| - |r|..]
  {
    if |s| > 0 && IsSpace(s[0]) then SkipSpace(s[1..]) else s
  }

  /** `std::stoi(s)`: optional white space and sign, then the longest run of
      digits; no digit throws `invalid_argument`, a value outside `int`
      throws `out_of_range`. Whatever follows the digits is ignored. */
  function Stoi(s: string): (r: Result<int>)
    ensures r.Failure? ==> r.error == InvalidArgument || r.error == OutOfRange
    ensures r.Success? ==> IsInt32(r.value)
  {
    var t := SkipSpace(s);
    var negative := |t| > 0 && t[0] == '-';
    var body := if |t| > 0 && (t[0] == '-' || t[0] == '+') then t[1..] else t;
    var digits := LeadingDigits(body);
    if |digits| == 0 then Failure(InvalidArgument)
    else
      var magnitude: int := DigitsValue(digits);
      var v := if negative then -magnitude else magnitude;
      if IsInt32(v) then Success(v) else Failure(OutOfRange)
  }

  /** `std::stoi` reads back what `std::to_string` writes. */
  lemma StoiOfIntToString(x: int)
    requires IsInt32(x)
    ensures Stoi(IntToString(x)) == Success(x)
  {
    var s := IntToString(x);
    var n: nat := if x < 0 then -x else x;
    var digits := NatToString(n);
    DigitsValueOfNatToString(n);
    LeadingDigitsOfDigits(digits);
    assert !IsSpace(s[0]);
    assert SkipSpace(s) == s;
    if x < 0 {
      assert s == "-" + digits;
      assert s[1..] == digits;
    } else {
      assert s == digits;
      assert IsDigit(s[0]);
    }
  }
}
