/** Decimal notation of integers, as `QString::arg(int)` writes it and `QVariant::toInt` reads it back. */
module Decimal {

  function Digit(n: nat): (c: char)
    requires n < 10
  {
    '0' + n as char
  }

  predicate IsDigit(c: char) {
    '0' <= c <= '9'
  }

  predicate AllDigits(s: string) {
    s != "" && forall i :: 0 <= i < |s| ==> IsDigit(s[i])
  }

  function OfNat(n: nat): (s: string)
    ensures AllDigits(s)
  {
    if n < 10 then [Digit(n)] else OfNat(n / 10) + [Digit(n % 10)]
  }

  function ToNat(s: string): (n: nat)
    requires s == "" || AllDigits(s)
  {
    if s == "" then 0
    else 10 * ToNat(s[..|s| - 1]) + (s[|s| - 1] as int - '0' as int)
  }

  function OfInt(n: int): string {
    if n < 0 then "-" + OfNat(-n) else OfNat(n)
  }

  /** Texts that are not a plain decimal number, or do not fit 32 bits, read as 0. */
  function ToInt(s: string): int {
    var n: int := if AllDigits(s) then ToNat(s)
             else if |s| > 1 && s[0] == '-' && AllDigits(s[1..]) then 0 - ToNat(s[1..])
             else 0;
    if -0x8000_0000 <= n < 0x8000_0000 then n else 0
  }

  lemma {:induction false} ReadBackNat(n: nat)
    ensures ToNat(OfNat(n)) == n
  {
    if n >= 10 {
      ReadBackNat(n / 10);
      var s := OfNat(n);
      assert s[..|s| - 1] == OfNat(n / 10);
    } else {
      assert OfNat(n)[..0] == "";
    }
  }

  /** Distinct numbers have distinct notations, so numbered settings never share a key. */
  lemma Injective(a: int, b: int)
    requires OfInt(a) == OfInt(b)
    ensures a == b
  {
    if a < 0 {
      assert OfInt(b)[0] == '-';
      assert OfInt(a)[1..] == OfNat(-a) && OfInt(b)[1..] == OfNat(-b);
      ReadBackNat(-a);
      ReadBackNat(-b);
    } else {
      assert IsDigit(OfInt(a)[0]);
      ReadBackNat(a);
      ReadBackNat(b);
    }
  }

  /** The last digit of a number with more than one is its remainder by ten, the digits before are its quotient. */
  lemma Notation(n: int)
    requires n >= 0
    ensures n < 10 ==> OfInt(n) == ["0123456789"[n]]
    ensures n >= 10 ==> OfInt(n) == OfInt(n / 10) + ["0123456789"[n % 10]]
    ensures n > 0 ==> OfInt(-n) == "-" + OfInt(n)
  {
  }

  /** A number of 32 bits is read back from its notation. */
  lemma ReadBack(n: int)
    requires -0x8000_0000 <= n < 0x8000_0000
    ensures ToInt(OfInt(n)) == n
  {
    if n >= 0 {
      ReadBackNat(n);
    } else {
      ReadBackNat(-n);
      assert OfInt(n)[1..] == OfNat(-n);
      assert !IsDigit(OfInt(n)[0]);
    }
  }
}
