/**
 * Decimal text of integers: what `%d` and `%llu` print, and what the
 * consumer's `int(...)` reads back from a field of plain digits.
 */
module Decimal {
  import opened Optional

  predicate IsDigit(c: char)
  {
    '0' <= c <= '9'
  }

  predicate AllDigits(s: string)
  {
    forall i :: 0 <= i < |s| ==> IsDigit(s[i])
  }

  function DigitValue(c: char): (d: nat)
    requires IsDigit(c)
    ensures d < 10
  {
    c as int - '0' as int
  }

  function DigitChar(d: nat): (c: char)
    requires d < 10
    ensures IsDigit(c) && DigitValue(c) == d
  {
    ('0' as int + d) as char
  }

  function Pow10(k: nat): (p: nat)
    ensures p >= 1
  {
    if k == 0 then 1 else 10 * Pow10(k - 1)
  }

  /**
   * The decimal numeral of n: at least one digit, nothing but digits, and
   * no leading zero except in "0" itself.
   */
  function Dec(n: nat): (s: string)
    ensures 1 <= |s|
    ensures AllDigits(s)
    ensures s[0] == '0' ==> n == 0 && s == "0"
    decreases n
  {
    if n < 10 then [DigitChar(n)] else Dec(n / 10) + [DigitChar(n % 10)]
  }

  /** `%d`: a minus sign before the numeral of the magnitude when negative. */
  function DecInt(i: int): (s: string)
    ensures 1 <= |s|
    ensures i >= 0 ==> s == Dec(i)
    ensures i < 0 ==> s[0] == '-' && s[1..] == Dec(-i)
  {
    if i < 0 then "-" + Dec(-i) else Dec(i)
  }

  /** The value of a string of digits, most significant first. */
  function DigitsValue(s: string): nat
    requires AllDigits(s)
  {
    if s == [] then 0 else DigitsValue(s[..|s| - 1]) * 10 + DigitValue(s[|s| - 1])
  }

  /**
   * Python's `int(field)` restricted to fields of plain digits: the value of a
   * non-empty digit string, and failure for anything else.
   */
  function ParseNat(s: string): (r: Option<nat>)
    ensures r.Some? <==> 1 <= |s| && AllDigits(s)
    ensures r.Some? ==> r.value < Pow10(|s|)
  {
    if 1 <= |s| && AllDigits(s) then
      DigitsValueBound(s);
      Some(DigitsValue(s))
    else
      None
  }

  lemma {:induction false} DigitsValueBound(s: string)
    requires AllDigits(s)
    ensures DigitsValue(s) < Pow10(|s|)
  {
    if s != [] {
      DigitsValueBound(s[..|s| - 1]);
    }
  }

  /** Reading back a printed numeral gives the number that was printed. */
  lemma {:induction false} ParseDec(n: nat)
    ensures ParseNat(Dec(n)) == Some(n)
    decreases n
  {
    if n >= 10 {
      ParseDec(n / 10);
      var s := Dec(n);
      assert s[..|s| - 1] == Dec(n / 10);
    }
  }

  /** Printing the value of a canonical digit string (no leading zero) gives that string back. */
  lemma {:induction false} DecDigits(s: string)
    requires 1 <= |s| && AllDigits(s)
    requires s[0] == '0' ==> |s| == 1
    ensures Dec(DigitsValue(s)) == s
    decreases |s|
  {
    if |s| > 1 {
      var p := s[..|s| - 1];
      DecDigits(p);
      var n := DigitsValue(s);
      assert DigitsValue(p) != 0;
      assert n / 10 == DigitsValue(p);
      assert n % 10 == DigitValue(s[|s| - 1]);
      assert s == p + [s[|s| - 1]];
    } else {
      assert s == [s[0]];
    }
  }

  /** Distinct numbers print as distinct numerals. */
  lemma DecInjective(m: nat, n: nat)
    requires Dec(m) == Dec(n)
    ensures m == n
  {
    ParseDec(m);
    ParseDec(n);
  }

  /** A number below 10^k prints in at most k digits. */
  lemma {:induction false} DecLength(n: nat, k: nat)
    requires 1 <= k && n < Pow10(k)
    ensures |Dec(n)| <= k
    decreases n
  {
    if n >= 10 {
      DecLength(n / 10, k - 1);
    }
  }

  /** `%llu` of a `uint64_t` prints at most 20 characters. */
  lemma U64DecLength(n: nat)
    requires n < 0x1_0000_0000_0000_0000
    ensures |Dec(n)| <= 20
  {
    assert Pow10(10) == 10_000_000_000;
    assert Pow10(20) == 100_000_000_000_000_000_000;
    DecLength(n, 20);
  }

  /** `%d` of a 32-bit `int` prints at most 11 characters, sign included. */
  lemma I32DecLength(i: int)
    requires -0x8000_0000 <= i < 0x8000_0000
    ensures |DecInt(i)| <= 11
  {
    assert Pow10(10) == 10_000_000_000;
    if i < 0 {
      DecLength(-i, 10);
    } else {
      DecLength(i, 10);
    }
  }
}
