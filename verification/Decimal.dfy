/** Decimal text: what Rust prints for an integer and what its `parse` reads back. */
module Decimal {
  import opened Wrappers

  predicate IsDigit(c: char) { '0' <= c <= '9' }

  predicate AllDigits(s: string) { forall i | 0 <= i < |s| :: IsDigit(s[i]) }

  function DigitChar(d: nat): (c: char)
    requires d < 10
    ensures IsDigit(c)
  {
    ('0' as int + d) as char
  }

  function DigitValue(c: char): (d: nat)
    requires IsDigit(c)
    ensures d < 10
  {
    c as int - '0' as int
  }

  /** Shortest decimal form. */
  function Digits(n: nat): (s: string)
    ensures s != [] && AllDigits(s)
    ensures n > 0 ==> s[0] != '0'
  {
    if n < 10 then [DigitChar(n)] else Digits(n / 10) + [DigitChar(n % 10)]
  }

  function Value(s: string): nat
    requires AllDigits(s)
  {
    if s == [] then 0 else Value(s[..|s| - 1]) * 10 + DigitValue(s[|s| - 1])
  }

  lemma {:induction false} DigitsReadBack(n: nat)
    ensures Value(Digits(n)) == n
  {
    if n >= 10 {
      DigitsReadBack(n / 10);
      var s := Digits(n);
      assert s[..|s| - 1] == Digits(n / 10);
    } else {
      var s := Digits(n);
      assert s[..0] == [];
      assert Value(s) == Value(s[..0]) * 10 + DigitValue(s[0]);
    }
  }

  function Pow10(k: nat): (p: nat)
    ensures p >= 1
  {
    if k == 0 then 1 else 10 * Pow10(k - 1)
  }

  /** A number has at most `k` digits exactly when it is below the `k`-th power of ten. */
  lemma {:induction false} DigitCount(n: nat, k: nat)
    requires k >= 1
    ensures |Digits(n)| <= k <==> n < Pow10(k)
  {
    if k == 1 {
      assert Pow10(1) == 10 * Pow10(0);
    } else if n >= 10 {
      DigitCount(n / 10, k - 1);
      assert Pow10(k) == 10 * Pow10(k - 1);
    } else {
      assert Pow10(k) == 10 * Pow10(k - 1) && Pow10(k - 1) >= 1;
    }
  }

  /** Leading zeros do not change the value. */
  lemma {:induction false} ZerosDoNotCount(k: nat, s: string)
    requires AllDigits(s)
    ensures AllDigits(Zeros(k) + s) && Value(Zeros(k) + s) == Value(s)
  {
    if s == [] {
      assert Zeros(k) + s == Zeros(k);
      ZerosAreZero(k);
    } else {
      var t := Zeros(k) + s;
      ZerosDoNotCount(k, s[..|s| - 1]);
      assert t[..|t| - 1] == Zeros(k) + s[..|s| - 1];
      assert AllDigits(t);
    }
  }

  function Zeros(k: nat): (s: string)
    ensures |s| == k && AllDigits(s)
    ensures forall i | 0 <= i < k :: s[i] == '0'
  {
    if k == 0 then [] else Zeros(k - 1) + ['0']
  }

  lemma {:induction false} ZerosAreZero(k: nat)
    ensures Value(Zeros(k)) == 0
  {
    if k > 0 {
      ZerosAreZero(k - 1);
      assert Zeros(k)[..k - 1] == Zeros(k - 1);
    }
  }

  /** `{n:0width}`: zero padded, the sign counted in the width. */
  function Padded(n: int, width: nat): string {
    if n < 0 then "-" + PaddedNat(Abs(n), Less1(width)) else PaddedNat(n, width)
  }

  function Abs(n: int): nat { if n < 0 then 0 - n else n }

  function Less1(width: nat): nat { if width == 0 then 0 else width - 1 }

  function PaddedNat(n: nat, width: nat): (s: string)
    ensures s != [] && AllDigits(s) && |s| >= width
  {
    var digits := Digits(n);
    if |digits| < width then Zeros(width - |digits|) + digits else digits
  }

  lemma PaddedNatReadsBack(n: nat, width: nat)
    ensures Value(PaddedNat(n, width)) == n
    ensures width >= 1 ==> (|PaddedNat(n, width)| == width <==> n < Pow10(width))
  {
    PaddedNatValue(n, width);
    if width >= 1 { DigitCount(n, width); }
  }

  lemma PaddedNatValue(n: nat, width: nat)
    ensures Value(PaddedNat(n, width)) == n
  {
    DigitsReadBack(n);
    if |Digits(n)| < width { ZerosDoNotCount(width - |Digits(n)|, Digits(n)); }
  }

  /** `str::parse` for a signed integer type with the given range. */
  function ParseSigned(s: string, lo: int, hi: int): Option<int> {
    if s == [] then None
    else
      var digits := if s[0] == '+' || s[0] == '-' then s[1..] else s;
      if digits == [] || !AllDigits(digits) then None
      else
        var v: int := if s[0] == '-' then -(Value(digits) as int) else Value(digits);
        if lo <= v <= hi then Some(v) else None
  }

  /** `str::parse` for an unsigned integer type: a minus sign is not a digit. */
  function ParseUnsigned(s: string, hi: nat): Option<nat> {
    if s == [] then None
    else
      var digits := if s[0] == '+' then s[1..] else s;
      if digits == [] || !AllDigits(digits) || Value(digits) > hi then None else Some(Value(digits))
  }

  lemma ParsePadded(n: int, width: nat, lo: int, hi: int)
    requires lo <= n <= hi
    ensures ParseSigned(Padded(n, width), lo, hi) == Some(n)
  {
    if n < 0 {
      PaddedNatReadsBack(Abs(n), Less1(width));
      var digits := PaddedNat(Abs(n), Less1(width));
      assert ("-" + digits)[1..] == digits && Value(digits) == Abs(n);
    } else {
      PaddedNatReadsBack(n, width);
      var digits := PaddedNat(n, width);
      assert IsDigit(digits[0]) && Value(digits) == n;
    }
  }

  /** Two digit characters, read as a number. */
  lemma TwoDigits(s: string, hi: nat)
    requires |s| == 2 && AllDigits(s) && hi >= 99
    ensures Value(s) == DigitValue(s[0]) * 10 + DigitValue(s[1]) < 100
    ensures ParseSigned(s, -(hi as int) - 1, hi) == Some(Value(s)) && ParseUnsigned(s, hi) == Some(Value(s))
  {
    assert s[..1][..0] == [] && s[..1][0] == s[0];
    assert Value(s[..1]) == Value(s[..1][..0]) * 10 + DigitValue(s[0]);
  }

  lemma {:induction false} ValueBound(s: string)
    requires AllDigits(s)
    ensures Value(s) < Pow10(|s|)
  {
    if s != [] { ValueBound(s[..|s| - 1]); }
  }
}
