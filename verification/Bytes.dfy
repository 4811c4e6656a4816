/** Octets, decimal numerals and C strings: the vocabulary shared by the other modules. */
module Bytes {

  /** An octet.  It is a restricted character so that protocol tokens can be written as literals. */
  type byte = c: char | c as int < 256

  type bytes = seq<byte>

  const NUL: byte := '\0'

  predicate IsDigit(c: char) {
    '0' <= c <= '9'
  }

  predicate AllDigits(s: bytes) {
    forall i :: 0 <= i < |s| ==> IsDigit(s[i])
  }

  function DigitChar(d: nat): byte
    requires d < 10
  {
    ('0' as int + d) as char
  }

  function DigitValue(c: char): nat
    requires IsDigit(c)
  {
    c as int - '0' as int
  }

  /** The numeral printed by "%u": no leading zero, and "0" for zero. */
  function Decimal(n: nat): (s: bytes)
    ensures |s| >= 1
    ensures AllDigits(s)
  {
    if n < 10 then [DigitChar(n)] else Decimal(n / 10) + [DigitChar(n % 10)]
  }

  /** The number denoted by a run of digits, as accumulated from left to right. */
  function DecimalValue(s: bytes): nat
    requires AllDigits(s)
  {
    if s == [] then 0 else DecimalValue(s[..|s| - 1]) * 10 + DigitValue(s[|s| - 1])
  }

  lemma {:induction false} DecimalRoundTrip(n: nat)
    ensures DecimalValue(Decimal(n)) == n
  {
    var s := Decimal(n);
    if n < 10 {
      assert s[..|s| - 1] == [];
    } else {
      DecimalRoundTrip(n / 10);
      assert s[..|s| - 1] == Decimal(n / 10);
    }
  }

  /** Printing a smaller number never takes more digits. */
  lemma {:induction false} DecimalLengthMonotone(m: nat, n: nat)
    requires m <= n
    ensures |Decimal(m)| <= |Decimal(n)|
  {
    if n >= 10 && m >= 10 {
      DecimalLengthMonotone(m / 10, n / 10);
    }
  }

  function Pow10(k: nat): nat {
    if k == 0 then 1 else 10 * Pow10(k - 1)
  }

  lemma {:induction false} DecimalLength(n: nat, k: nat)
    requires k >= 1
    ensures |Decimal(n)| <= k <==> n < Pow10(k)
  {
    if k == 1 {
      assert Pow10(1) == 10 * Pow10(0);
    } else if n >= 10 {
      DecimalLength(n / 10, k - 1);
    } else {
      Pow10Grows(k);
    }
  }

  lemma {:induction false} Pow10Grows(k: nat)
    requires k >= 1
    ensures Pow10(k) >= 10
  {
    if k > 1 { Pow10Grows(k - 1); }
  }

  lemma TenDigits(n: nat)
    ensures |Decimal(n)| <= 10 <==> n < 10_000_000_000
  {
    DecimalLength(n, 10);
    assert Pow10(5) == 10 * (10 * Pow10(3)) && Pow10(3) == 10 * (10 * Pow10(1));
    assert Pow10(10) == 10 * (10 * Pow10(8)) && Pow10(8) == 10 * (10 * Pow10(6)) && Pow10(6) == 10 * Pow10(5);
  }

  /** The part of a character buffer that strcmp looks at: everything before the first NUL. */
  function CString(s: bytes): (r: bytes)
    ensures NUL !in r
    ensures r <= s
    ensures |r| < |s| ==> s[|r|] == NUL
  {
    if s == [] || s[0] == NUL then [] else [s[0]] + CString(s[1..])
  }

  lemma {:induction false} CStringIsAll(s: bytes)
    requires NUL !in s
    ensures CString(s) == s
  {
    if s != [] {
      CStringIsAll(s[1..]);
    }
  }

  lemma {:induction false} CStringOfTerminated(s: bytes, tail: bytes)
    requires NUL !in s
    ensures CString(s + [NUL] + tail) == s
  {
    var t := s + [NUL] + tail;
    if s != [] {
      CStringOfTerminated(s[1..], tail);
      assert t[1..] == s[1..] + [NUL] + tail;
    }
  }

  lemma ConcatAssociative(a: bytes, b: bytes, c: bytes)
    ensures a + (b + c) == a + b + c
  {
  }
}
