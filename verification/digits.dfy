/** Fixed-width decimal fields, as read by `strptime` directives and written by a
    zero-padding formatter. */
module Digits {

  predicate IsDigit(c: char) {
    '0' <= c <= '9'
  }

  predicate AllDigits(s: string) {
    forall i :: 0 <= i < |s| ==> IsDigit(s[i])
  }

  function DigitValue(c: char): (d: nat)
    requires IsDigit(c)
    ensures d < 10
  {
    c as int - '0' as int
  }

  function DigitChar(d: nat): (c: char)
    requires d < 10
    ensures IsDigit(c) && DigitValue(c) == d
  {
    ('0' as int + d) as char
  }

  function Pow10(n: nat): (p: nat)
    ensures p >= 1
  {
    if n == 0 then 1 else 10 * Pow10(n - 1)
  }

  lemma {:induction false} Pow10Add(a: nat, b: nat)
    ensures Pow10(a + b) == Pow10(a) * Pow10(b)
    decreases a
  {
    if a > 0 {
      Pow10Add(a - 1, b);
    }
  }

  /** The number a string of decimal digits denotes, most significant digit first;
      it always fits in as many digits as the string has. */
  function Value(s: string): (v: nat)
    requires AllDigits(s)
    ensures v < Pow10(|s|)
  {
    if |s| == 0 then 0
    else
      var prefix := s[..|s| - 1];
      10 * Value(prefix) + DigitValue(s[|s| - 1])
  }

  /** Appending `k` zero digits to a digit string keeps it below `10^(|s| + k)`. */
  lemma ValueShifted(s: string, k: nat)
    requires AllDigits(s)
    ensures Value(s) * Pow10(k) < Pow10(|s| + k)
  {
    Pow10Add(|s|, k);
    BelowScaled(Value(s), Pow10(|s|), Pow10(k));
  }

  lemma BelowScaled(v: nat, bound: nat, p: nat)
    requires v < bound && p >= 1
    ensures v * p < bound * p
  {
  }

  /** `k` zero digits. */
  function Zeros(k: nat): (z: string)
    ensures |z| == k && AllDigits(z)
  {
    seq(k, _ => '0')
  }

  /** Appending `k` zero digits multiplies the value by `10^k`. */
  lemma {:induction false} ValueAppendZeros(s: string, k: nat)
    requires AllDigits(s)
    ensures AllDigits(s + Zeros(k))
    ensures Value(s + Zeros(k)) == Value(s) * Pow10(k)
    decreases k
  {
    var t := s + Zeros(k);
    if k == 0 {
      assert t == s;
    } else {
      var front := s + Zeros(k - 1);
      assert t[..|t| - 1] == front;
      assert t[|t| - 1] == '0';
      ValueAppendZeros(s, k - 1);
      ScaleByTen(Value(s), Pow10(k - 1));
    }
  }

  lemma ScaleByTen(v: nat, p: nat)
    ensures 10 * (v * p) == v * (10 * p)
  {
  }

  /** `n` written with exactly `width` digits, zero-padded on the left. */
  function Pad(n: nat, width: nat): (s: string)
    requires n < Pow10(width)
    ensures |s| == width && AllDigits(s)
  {
    if width == 0 then "" else Pad(n / 10, width - 1) + [DigitChar(n % 10)]
  }

  /** Reading a padded rendering back gives the number. */
  lemma {:induction false} ValuePad(n: nat, width: nat)
    requires n < Pow10(width)
    ensures Value(Pad(n, width)) == n
  {
    if width > 0 {
      var front := Pad(n / 10, width - 1);
      var s := Pad(n, width);
      assert s[..|s| - 1] == front;
      ValuePad(n / 10, width - 1);
    }
  }

  /** Every digit string is the padded rendering of its own value: reading a field
      loses nothing. */
  lemma {:induction false} PadValue(s: string)
    requires AllDigits(s)
    ensures Pad(Value(s), |s|) == s
  {
    if |s| > 0 {
      var prefix := s[..|s| - 1];
      var d := DigitValue(s[|s| - 1]);
      var v := Value(s);
      assert v == 10 * Value(prefix) + d;
      assert v / 10 == Value(prefix) && v % 10 == d;
      PadValue(prefix);
      assert DigitChar(d) == s[|s| - 1];
      assert s == prefix + [s[|s| - 1]];
    }
  }
}
