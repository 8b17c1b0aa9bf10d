/** 64-bit arithmetic as Rust does it, and integers as decimal text. */
module Integers {
  import opened Wrappers

  const I64_MIN: int := -0x8000_0000_0000_0000
  const I64_MAX: int := 0x7FFF_FFFF_FFFF_FFFF

  type I64 = n: int | I64_MIN <= n <= I64_MAX

  type U16 = n: nat | n < 0x1_0000

  function Min(a: int, b: int): int {
    if a <= b then a else b
  }

  function Max(a: int, b: int): int {
    if a >= b then a else b
  }

  /** The nearest value an `i64` can hold. */
  function Clamp(n: int): I64 {
    if n < I64_MIN then I64_MIN else if n > I64_MAX then I64_MAX else n
  }

  function SatAdd(a: I64, b: I64): I64 {
    Clamp(a + b)
  }

  function SatSub(a: I64, b: I64): I64 {
    Clamp(a - b)
  }

  function SatMul(a: I64, b: I64): I64 {
    Clamp(a * b)
  }

  /** Rust's `/`: toward zero, where Dafny's rounds a negative quotient down. */
  function TruncDiv(a: int, b: int): int
    requires b > 0
  {
    if a >= 0 then a / b else -((-a) / b)
  }

  // ------------------------------------------------------ decimal text

  predicate IsDigit(c: char) {
    '0' <= c <= '9'
  }

  predicate AllDigits(s: string) {
    forall k :: 0 <= k < |s| ==> IsDigit(s[k])
  }

  function DigitChar(d: nat): (c: char)
    requires d < 10
    ensures IsDigit(c) && c as int - '0' as int == d
  {
    '0' + d as char
  }

  /** A natural number in decimal, without leading zeros. */
  function Digits(n: nat): (s: string)
    ensures s != [] && AllDigits(s)
    ensures s[0] == '0' <==> n == 0
    ensures n < 10 ==> |s| == 1
  {
    if n < 10 then [DigitChar(n)] else Digits(n / 10) + [DigitChar(n % 10)]
  }

  function DigitsValue(s: string): nat
    requires AllDigits(s)
  {
    if s == [] then 0 else DigitsValue(s[..|s| - 1]) * 10 + (s[|s| - 1] as int - '0' as int)
  }

  lemma {:induction false} DigitsReadBack(n: nat)
    ensures DigitsValue(Digits(n)) == n
  {
    if n < 10 {
      assert Digits(n)[..0] == [];
    } else {
      DigitsReadBack(n / 10);
      assert Digits(n)[..|Digits(n)| - 1] == Digits(n / 10);
    }
  }

  /** Without leading zeros a number has one spelling. */
  lemma {:induction false} CanonicalDigits(s: string)
    requires s != [] && AllDigits(s) && (|s| > 1 ==> s[0] != '0')
    ensures Digits(DigitsValue(s)) == s
    ensures |s| > 1 ==> DigitsValue(s) >= 10
  {
    var init, last := s[..|s| - 1], s[|s| - 1];
    assert s == init + [last];
    if |s| > 1 {
      CanonicalDigits(init);
      if |init| == 1 {
        assert DigitsValue(init[..0]) == 0;
        assert DigitsValue(init) >= 1;
      }
      assert DigitsValue(s) / 10 == DigitsValue(init);
    } else {
      assert DigitsValue(init) == 0;
    }
  }

  /** `n.to_string()`. */
  function Show(n: int): (s: string)
    ensures s != []
  {
    if n < 0 then "-" + Digits(-n) else Digits(n)
  }

  /** `str::parse` at a signed type: one optional sign, at least one digit,
      nothing else, and a value the type holds. */
  function ParseI64(s: string): Option<I64> {
    var body := if s != [] && (s[0] == '-' || s[0] == '+') then s[1..] else s;
    if body == [] || !AllDigits(body) then None
    else
      var size: int := DigitsValue(body);
      var n := if s[0] == '-' then -size else size;
      if I64_MIN <= n <= I64_MAX then Some(n) else None
  }

  lemma ShownReadsBack(n: I64)
    ensures ParseI64(Show(n)) == Some(n)
  {
    var size: int := if n < 0 then 0 - n as int else n;
    if n < 0 {
      assert Show(n)[1..] == Digits(size);
      DigitsReadBack(size);
    } else {
      DigitsReadBack(n);
    }
  }
}
