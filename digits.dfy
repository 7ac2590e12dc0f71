/**
 * Decimal digit strings: how a run of ASCII digits reads as a natural number
 * (the reading `strconv` and `time` perform) and how a natural number is
 * written back with zero padding (the inverse used by the round-trip lemmas).
 */
module Digits {

  predicate IsDigit(c: char) {
    '0' <= c <= '9'
  }

  predicate AllDigits(s: string) {
    forall i :: 0 <= i < |s| ==> IsDigit(s[i])
  }

  function Pow10(n: nat): (r: nat)
    ensures r >= 1
  {
    if n == 0 then 1 else 10 * Pow10(n - 1)
  }

  function DigitValue(c: char): (d: nat)
    requires IsDigit(c)
    ensures d < 10
  {
    c as int - '0' as int
  }

  function DigitChar(d: nat): (c: char)
    requires d < 10
    ensures IsDigit(c) && DigitValue(c) == d
  {
    (d + '0' as int) as char
  }

  /** The number a digit string denotes, read most significant digit first. */
  function DigitsValue(s: string): nat
    requires AllDigits(s)
  {
    if |s| == 0 then 0 else DigitsValue(s[..|s| - 1]) * 10 + DigitValue(s[|s| - 1])
  }

  /** `n` in decimal, left-padded with zeros to at least `width` digits. */
  function NatDigits(n: nat, width: nat): (s: string)
    ensures AllDigits(s) && |s| >= 1 && |s| >= width
    decreases n + width
  {
    if n < 10 && width <= 1 then [DigitChar(n)]
    else NatDigits(n / 10, if width == 0 then 0 else width - 1) + [DigitChar(n % 10)]
  }

  /** Reading a digit string of length `n` gives a number below 10^n. */
  lemma {:induction false} DigitsValueBound(s: string)
    requires AllDigits(s)
    ensures DigitsValue(s) < Pow10(|s|)
  {
    if |s| > 0 {
      DigitsValueBound(s[..|s| - 1]);
    }
  }

  /** Reading a concatenation: the left part is shifted by the length of the right part. */
  lemma {:induction false} DigitsValueAppend(a: string, b: string)
    requires AllDigits(a) && AllDigits(b)
    ensures AllDigits(a + b)
    ensures DigitsValue(a + b) == DigitsValue(a) * Pow10(|b|) + DigitsValue(b)
  {
    assert AllDigits(a + b) by {
      forall i | 0 <= i < |a + b| ensures IsDigit((a + b)[i]) {
        if i < |a| { assert (a + b)[i] == a[i]; } else { assert (a + b)[i] == b[i - |a|]; }
      }
    }
    if |b| == 0 {
      assert a + b == a;
    } else {
      var b' := b[..|b| - 1];
      var c := b[|b| - 1];
      assert (a + b)[..|a + b| - 1] == a + b';
      assert (a + b)[|a + b| - 1] == c;
      DigitsValueAppend(a, b');
      ShiftStep(DigitsValue(a), DigitsValue(b'), Pow10(|b'|), DigitValue(c));
    }
  }

  lemma ShiftStep(x: int, y: int, p: int, d: int)
    ensures (x * p + y) * 10 + d == x * (p * 10) + (y * 10 + d)
  {
  }

  /** Writing then reading gives the number back. */
  lemma {:induction false} NatDigitsRoundTrip(n: nat, width: nat)
    ensures DigitsValue(NatDigits(n, width)) == n
    decreases n + width
  {
    var s := NatDigits(n, width);
    if n < 10 && width <= 1 {
    } else {
      var w' := if width == 0 then 0 else width - 1;
      NatDigitsRoundTrip(n / 10, w');
      assert s[..|s| - 1] == NatDigits(n / 10, w');
    }
  }

  /** A number below 10^width is written in exactly `width` digits (width at least 1). */
  lemma {:induction false} NatDigitsLength(n: nat, width: nat)
    requires width >= 1 && n < Pow10(width)
    ensures |NatDigits(n, width)| == width
    decreases width
  {
    if n < 10 && width <= 1 {
    } else {
      assert width >= 2;
      NatDigitsLength(n / 10, width - 1);
    }
  }

  /** A non-empty digit string is exactly the padded rendering of its own value. */
  lemma {:induction false} DigitsRoundTrip(s: string)
    requires AllDigits(s) && |s| >= 1
    ensures NatDigits(DigitsValue(s), |s|) == s
    decreases |s|
  {
    var n := |s|;
    var v := DigitsValue(s);
    var last := DigitValue(s[n - 1]);
    if n == 1 {
      assert s[..0] == [];
      assert v == last;
      assert DigitChar(last) == s[0];
    } else {
      var init := s[..n - 1];
      assert v == DigitsValue(init) * 10 + last;
      assert v / 10 == DigitsValue(init) && v % 10 == last;
      DigitsRoundTrip(init);
      assert DigitChar(last) == s[n - 1];
      assert init + [s[n - 1]] == s;
    }
  }
}
