/**
 * Money amounts as `strconv.ParseFloat` reads them, restricted to plain decimal
 * notation and kept exact: an amount is `units / 10^scale`. The three float
 * tests of the points rules become integer tests on `units`, and lemmas tie
 * each to the exact real value of the amount.
 */
module Amounts {
  import opened Wrappers
  import opened Digits

  /** The decimal number `units / 10^scale`; `scale` is the number of digits after the point. */
  datatype Decimal = Decimal(units: int, scale: nat)

  function Value(d: Decimal): real {
    d.units as real / Pow10(d.scale) as real
  }

  /**
   * Reads a plain decimal left to right, as Go's float reader does: every digit
   * is accumulated into `units`, digits after the single allowed '.' also count
   * into `scale`, and the text must hold at least one digit.
   */
  function ScanDecimal(s: string, units: nat, scale: nat, sawDot: bool, sawDigits: bool): (r: Option<Decimal>)
    ensures r.Some? ==> r.value.units >= 0
    decreases |s|
  {
    if s == [] then (if sawDigits then Some(Decimal(units, scale)) else None)
    else if IsDigit(s[0]) then
      ScanDecimal(s[1..], units * 10 + DigitValue(s[0]), if sawDot then scale + 1 else scale, sawDot, true)
    else if s[0] == '.' && !sawDot then ScanDecimal(s[1..], units, scale, true, sawDigits)
    else None
  }

  /** An optional sign, then `digits* [. digits*]` with at least one digit; anything else does not parse. */
  function ParseAmount(s: string): (r: Option<Decimal>)
    ensures r.Some? && r.value.units < 0 ==> s != [] && s[0] == '-'
  {
    if s != [] && s[0] == '-' then Negate(ScanDecimal(s[1..], 0, 0, false, false))
    else if s != [] && s[0] == '+' then ScanDecimal(s[1..], 0, 0, false, false)
    else ScanDecimal(s, 0, 0, false, false)
  }

  function Negate(r: Option<Decimal>): Option<Decimal> {
    if r.Some? then Some(Decimal(-r.value.units, r.value.scale)) else None
  }

  /** The amount the rules see: the parsed value, or zero when parsing failed. */
  function AmountOrZero(s: string): (d: Decimal)
    ensures ParseAmount(s).None? ==> Value(d) == 0.0
  {
    match ParseAmount(s)
    case Some(d) => d
    case None => Decimal(0, 0)
  }

  /** Writes an amount with exactly `scale` digits after the point and at least one before it. */
  function FormatAmount(d: Decimal): string {
    if d.units < 0 then "-" + FormatUnsigned(-d.units, d.scale)
    else FormatUnsigned(d.units, d.scale)
  }

  function FormatUnsigned(m: nat, scale: nat): string {
    var ds := NatDigits(m, scale + 1);
    if scale == 0 then ds
    else ds[..|ds| - scale] + "." + ds[|ds| - scale..]
  }

  /** A run of digits is consumed by shifting the accumulated units and, after the point, growing the scale. */
  lemma {:induction false} ScanDigits(ds: string, rest: string, units: nat, scale: nat, sawDot: bool, sawDigits: bool)
    requires AllDigits(ds)
    ensures ScanDecimal(ds + rest, units, scale, sawDot, sawDigits)
         == ScanDecimal(rest, units * Pow10(|ds|) + DigitsValue(ds),
                        if sawDot then scale + |ds| else scale, sawDot, sawDigits || ds != [])
    decreases |ds|
  {
    if ds == [] {
      assert ds + rest == rest;
    } else {
      var c, tail := ds[0], ds[1..];
      assert (ds + rest)[0] == c && (ds + rest)[1..] == tail + rest;
      var units' := units * 10 + DigitValue(c);
      ScanDigits(tail, rest, units', if sawDot then scale + 1 else scale, sawDot, true);
      assert [c] + tail == ds;
      DigitsValueAppend([c], tail);
      assert [c][..0] == [];
      assert DigitsValue([c]) == DigitValue(c);
      ShiftLeading(units, DigitValue(c), DigitsValue(tail), Pow10(|tail|));
    }
  }

  lemma ShiftLeading(u: int, c: int, t: int, p: int)
    ensures (u * 10 + c) * p + t == u * (10 * p) + (c * p + t)
  {
  }

  /** `whole.frac` with digits on either side (at least one in all) parses to whole * 10^|frac| + frac at scale |frac|. */
  lemma ScanDotted(whole: string, frac: string)
    requires AllDigits(whole) && AllDigits(frac) && |whole| + |frac| > 0
    ensures ScanDecimal(whole + "." + frac, 0, 0, false, false)
         == Some(Decimal(DigitsValue(whole) * Pow10(|frac|) + DigitsValue(frac), |frac|))
  {
    assert whole + "." + frac == whole + ("." + frac);
    ScanDigits(whole, "." + frac, 0, 0, false, false);
    ScanPoint(frac, DigitsValue(whole), whole != []);
    ScanFraction(frac, DigitsValue(whole), whole != []);
  }

  /** The single '.' switches to counting scale and changes nothing else. */
  lemma ScanPoint(frac: string, units: nat, sawDigits: bool)
    ensures ScanDecimal("." + frac, units, 0, false, sawDigits) == ScanDecimal(frac, units, 0, true, sawDigits)
  {
    assert ("." + frac)[0] == '.' && ("." + frac)[1..] == frac;
  }

  /** The digits after the point end the text and set the scale to their count. */
  lemma ScanFraction(frac: string, units: nat, sawDigits: bool)
    requires AllDigits(frac) && (sawDigits || frac != [])
    ensures ScanDecimal(frac, units, 0, true, sawDigits)
         == Some(Decimal(units * Pow10(|frac|) + DigitsValue(frac), |frac|))
  {
    ScanDigits(frac, [], units, 0, true, sawDigits);
    assert frac + [] == frac;
  }

  /** A non-empty run of digits alone parses to its value at scale 0. */
  lemma ScanWhole(whole: string)
    requires AllDigits(whole) && whole != []
    ensures ScanDecimal(whole, 0, 0, false, false) == Some(Decimal(DigitsValue(whole), 0))
  {
    ScanDigits(whole, [], 0, 0, false, false);
    assert whole + [] == whole;
  }

  /** Formatting then parsing gives back the same amount, scale included. */
  lemma FormatParseRoundTrip(d: Decimal)
    ensures ParseAmount(FormatAmount(d)) == Some(d)
  {
    if d.units < 0 {
      FormatParseNegative(d);
    } else {
      FormatParseNonNegative(d);
    }
  }

  lemma FormatParseNegative(d: Decimal)
    requires d.units < 0
    ensures ParseAmount(FormatAmount(d)) == Some(d)
  {
    var body := FormatUnsigned(-d.units, d.scale);
    FormatUnsignedScans(-d.units, d.scale);
    ParseNegated(body);
  }

  lemma FormatParseNonNegative(d: Decimal)
    requires d.units >= 0
    ensures ParseAmount(FormatAmount(d)) == Some(d)
  {
    FormatUnsignedScans(d.units, d.scale);
  }

  lemma ParseNegated(body: string)
    ensures ParseAmount("-" + body) == Negate(ScanDecimal(body, 0, 0, false, false))
  {
    var s := "-" + body;
    assert s[0] == '-' && s[1..] == body;
  }

  lemma FormatUnsignedScans(m: nat, scale: nat)
    ensures IsDigit(FormatUnsigned(m, scale)[0])
    ensures ScanDecimal(FormatUnsigned(m, scale), 0, 0, false, false) == Some(Decimal(m, scale))
  {
    NatDigitsRoundTrip(m, scale + 1);
    if scale == 0 {
      ScanWhole(NatDigits(m, 1));
    } else {
      FormatDottedScans(m, scale);
    }
  }

  lemma FormatDottedScans(m: nat, scale: nat)
    requires scale > 0
    ensures IsDigit(FormatUnsigned(m, scale)[0])
    ensures ScanDecimal(FormatUnsigned(m, scale), 0, 0, false, false) == Some(Decimal(m, scale))
  {
    var ds := NatDigits(m, scale + 1);
    NatDigitsRoundTrip(m, scale + 1);
    var n := |ds| - scale;
    assert FormatUnsigned(m, scale) == ds[..n] + "." + ds[n..];
    ScanSplitDigits(ds, n);
  }

  /** Putting a point into a digit string at position n (n >= 1) keeps its digits as units and makes the rest the scale. */
  lemma ScanSplitDigits(ds: string, n: nat)
    requires AllDigits(ds) && 0 < n <= |ds|
    ensures IsDigit((ds[..n] + "." + ds[n..])[0])
    ensures ScanDecimal(ds[..n] + "." + ds[n..], 0, 0, false, false) == Some(Decimal(DigitsValue(ds), |ds| - n))
  {
    var whole, frac := ds[..n], ds[n..];
    SplitDigits(ds, n);
    assert |frac| == |ds| - n;
    assert DigitsValue(whole) * Pow10(|frac|) + DigitsValue(frac) == DigitsValue(ds);
    ScanDotted(whole, frac);
    DottedFirst(whole, frac);
  }

  lemma SplitDigits(ds: string, n: nat)
    requires AllDigits(ds) && 0 < n <= |ds|
    ensures AllDigits(ds[..n]) && AllDigits(ds[n..]) && IsDigit(ds[..n][0])
    ensures DigitsValue(ds) == DigitsValue(ds[..n]) * Pow10(|ds| - n) + DigitsValue(ds[n..])
  {
    assert ds[..n] + ds[n..] == ds;
    DigitsValueAppend(ds[..n], ds[n..]);
  }

  lemma DottedFirst(whole: string, frac: string)
    requires whole != []
    ensures (whole + "." + frac)[0] == whole[0]
  {
  }

  /** A plain `whole.frac` amount parses to its digits as units and the number of fraction digits as scale. */
  lemma ParseDotted(whole: string, frac: string)
    requires AllDigits(whole) && AllDigits(frac) && |whole| + |frac| > 0
    ensures ParseAmount(whole + "." + frac)
         == Some(Decimal(DigitsValue(whole) * Pow10(|frac|) + DigitsValue(frac), |frac|))
  {
    var s := whole + "." + frac;
    assert s[0] == '.' || IsDigit(s[0]);
    ScanDotted(whole, frac);
  }

  /** A plain `whole.frac` amount denotes whole + frac / 10^|frac|. */
  lemma DecimalReading(whole: string, frac: string)
    requires AllDigits(whole) && AllDigits(frac) && |whole| + |frac| > 0
    ensures ParseAmount(whole + "." + frac).Some?
    ensures Value(ParseAmount(whole + "." + frac).value)
            == DigitsValue(whole) as real + DigitsValue(frac) as real / Pow10(|frac|) as real
  {
    ParseDotted(whole, frac);
    ValueOfShifted(DigitsValue(whole), DigitsValue(frac), Pow10(|frac|),
                   Decimal(DigitsValue(whole) * Pow10(|frac|) + DigitsValue(frac), |frac|));
  }

  // ------------------------------------------------------------ the accepted grammar

  predicate AllDigitsOrPoints(s: string) {
    forall i :: 0 <= i < |s| ==> IsDigit(s[i]) || s[i] == '.'
  }

  predicate AtMostOnePoint(s: string) {
    forall i, j :: 0 <= i < j < |s| && s[i] == '.' ==> s[j] != '.'
  }

  predicate NoPoint(s: string) {
    forall i :: 0 <= i < |s| ==> s[i] != '.'
  }

  predicate HasDigit(s: string) {
    exists i :: 0 <= i < |s| && IsDigit(s[i])
  }

  /** Plain decimal notation: digits and at most one point, with at least one digit somewhere. */
  predicate IsPlainDecimal(s: string) {
    AllDigitsOrPoints(s) && AtMostOnePoint(s) && HasDigit(s)
  }

  /** The text after an optional leading sign. */
  function Unsigned(s: string): (body: string)
    ensures s != [] && (s[0] == '-' || s[0] == '+') ==> body == s[1..]
    ensures s == [] || (s[0] != '-' && s[0] != '+') ==> body == s
  {
    if s != [] && (s[0] == '-' || s[0] == '+') then s[1..] else s
  }

  /**
   * The scanner accepts exactly the texts made of digits and points, with no
   * second point (and none at all once a point was seen), and with a digit
   * somewhere unless one was seen already.
   */
  lemma {:induction false} ScanAccepts(s: string, units: nat, scale: nat, sawDot: bool, sawDigits: bool)
    ensures ScanDecimal(s, units, scale, sawDot, sawDigits).Some?
        <==> AllDigitsOrPoints(s) && AtMostOnePoint(s) && (sawDot ==> NoPoint(s)) && (sawDigits || HasDigit(s))
    decreases |s|
  {
    if s != [] {
      var c, tail := s[0], s[1..];
      HeadAndTail(s);
      if IsDigit(c) {
        ScanAccepts(tail, units * 10 + DigitValue(c), if sawDot then scale + 1 else scale, sawDot, true);
      } else if c == '.' && !sawDot {
        ScanAccepts(tail, units, scale, true, sawDigits);
      }
    }
  }

  /** How each part of the grammar splits into the first character and the rest. */
  lemma HeadAndTail(s: string)
    requires s != []
    ensures AllDigitsOrPoints(s) <==> (IsDigit(s[0]) || s[0] == '.') && AllDigitsOrPoints(s[1..])
    ensures AtMostOnePoint(s) <==> AtMostOnePoint(s[1..]) && (s[0] == '.' ==> NoPoint(s[1..]))
    ensures NoPoint(s) <==> s[0] != '.' && NoPoint(s[1..])
    ensures HasDigit(s) <==> IsDigit(s[0]) || HasDigit(s[1..])
  {
    var t := s[1..];
    assert forall i :: 0 <= i < |t| ==> t[i] == s[i + 1];
    if HasDigit(s) && !IsDigit(s[0]) {
      var i :| 0 <= i < |s| && IsDigit(s[i]);
      assert t[i - 1] == s[i];
    }
    if HasDigit(t) {
      var i :| 0 <= i < |t| && IsDigit(t[i]);
      assert s[i + 1] == t[i];
    }
    if AtMostOnePoint(t) && (s[0] == '.' ==> NoPoint(t)) {
      forall i, j | 0 <= i < j < |s| && s[i] == '.'
        ensures s[j] != '.'
      {
        if i > 0 {
          assert t[i - 1] == s[i] && t[j - 1] == s[j];
        } else {
          assert t[j - 1] == s[j];
        }
      }
    }
    if AtMostOnePoint(s) {
      forall i, j | 0 <= i < j < |t| && t[i] == '.'
        ensures t[j] != '.'
      {
        assert s[i + 1] == t[i] && s[j + 1] == t[j];
      }
    }
  }

  /** An amount parses exactly when, after an optional sign, it is in plain decimal notation. */
  lemma ParseAmountAccepts(s: string)
    ensures ParseAmount(s).Some? <==> IsPlainDecimal(Unsigned(s))
  {
    ScanAccepts(Unsigned(s), 0, 0, false, false);
  }

  /** Anything else, an exponent, a second point, a stray letter or no digit at all, counts as zero. */
  lemma OutsideGrammarIsZero(s: string)
    requires !IsPlainDecimal(Unsigned(s))
    ensures Value(AmountOrZero(s)) == 0.0
  {
    ParseAmountAccepts(s);
  }

  /** A minus sign in front of an unsigned amount negates its value and fails exactly where the amount fails. */
  lemma NegatedValue(body: string)
    requires body == Unsigned(body)
    ensures ParseAmount("-" + body).Some? <==> ParseAmount(body).Some?
    ensures ParseAmount(body).Some? ==> Value(ParseAmount("-" + body).value) == -Value(ParseAmount(body).value)
  {
    ParseNegated(body);
    var plain := ScanDecimal(body, 0, 0, false, false);
    assert ParseAmount(body) == plain;
    if plain.Some? {
      NegatedDecimal(plain.value);
    }
  }

  lemma NegatedDecimal(d: Decimal)
    ensures Value(Decimal(-d.units, d.scale)) == -Value(d)
  {
  }

  lemma ValueOfShifted(w: int, f: int, p: nat, d: Decimal)
    requires p == Pow10(d.scale) && d.units == w * p + f
    ensures Value(d) == w as real + f as real / p as real
  {
    assert Value(d) == (w * p + f) as real / p as real;
    DivideSum(w, f, p);
  }

  lemma DivideSum(w: int, f: int, p: int)
    requires p > 0
    ensures (w * p + f) as real / p as real == w as real + f as real / p as real
  {
    var pr := p as real;
    assert (w * p + f) as real == w as real * pr + f as real;
    assert (w as real * pr + f as real) / pr == w as real * pr / pr + f as real / pr;
    assert w as real * pr / pr == w as real;
  }

  /** `total == math.Floor(total)` on an exact decimal. */
  predicate IsWhole(d: Decimal) {
    d.units % Pow10(d.scale) == 0
  }

  /** `math.Mod(total, 0.25) == 0` on an exact decimal. */
  predicate IsQuarterMultiple(d: Decimal) {
    (4 * d.units) % Pow10(d.scale) == 0
  }

  /** `int(math.Ceil(price * 0.2))` on an exact decimal. */
  function CeilFifth(d: Decimal): int {
    CeilDiv(d.units, 5 * Pow10(d.scale))
  }

  /** The least integer not below a / b. */
  function CeilDiv(a: int, b: int): (q: int)
    requires b > 0
    ensures b * (q - 1) < a <= b * q
  {
    -((-a) / b)
  }

  /** x / p for integers with p > 0 is an integer exactly when p divides x. */
  lemma WholeQuotient(x: int, p: int)
    requires p > 0
    ensures x % p == 0 <==> (x as real / p as real) == (x as real / p as real).Floor as real
  {
    var q, m := x / p, x % p;
    var pr := p as real;
    var v := x as real / pr;
    assert x == q * p + m && 0 <= m < p;
    DivideSum(q, m, p);
    FractionBelowOne(m as real, pr);
    var frac := m as real / pr;
    assert v == q as real + frac;
    FloorBetween(v, q);
    assert frac == 0.0 <==> m == 0 by {
      FractionBelowOne(m as real, pr);
    }
  }

  lemma FractionBelowOne(m: real, p: real)
    requires 0.0 <= m < p
    ensures 0.0 <= m / p < 1.0
    ensures m / p == 0.0 <==> m == 0.0
  {
    DivideMonotone(m, p, p);
    assert p / p == 1.0;
  }

  lemma FloorBetween(v: real, q: int)
    requires q as real <= v < q as real + 1.0
    ensures v.Floor == q
  {
  }

  /** The round-dollar test holds exactly when the amount has no fractional part. */
  lemma IsWholeMeaning(d: Decimal)
    ensures IsWhole(d) <==> Value(d) == Value(d).Floor as real
  {
    WholeQuotient(d.units, Pow10(d.scale));
  }

  /** The quarter test holds exactly when four times the amount has no fractional part. */
  lemma IsQuarterMultipleMeaning(d: Decimal)
    ensures IsQuarterMultiple(d) <==> 4.0 * Value(d) == (4.0 * Value(d)).Floor as real
  {
    var p := Pow10(d.scale) as real;
    assert 4.0 * Value(d) == (4 * d.units) as real / p;
    WholeQuotient(4 * d.units, Pow10(d.scale));
  }

  /** Every round-dollar amount is a multiple of a quarter. */
  lemma WholeIsQuarterMultiple(d: Decimal)
    requires IsWhole(d)
    ensures IsQuarterMultiple(d)
  {
    var p := Pow10(d.scale);
    var q := d.units / p;
    assert d.units == q * p;
    assert 4 * d.units == (4 * q) * p;
    MultipleMod(4 * q, p);
  }

  lemma MultipleMod(k: int, p: int)
    requires p > 0
    ensures (k * p) % p == 0
  {
    var m, r := (k * p) / p, (k * p) % p;
    assert k * p == m * p + r && 0 <= r < p;
    assert (k - m) * p == r;
    if k - m >= 1 {
      assert false;
    } else if k - m <= -1 {
      assert false;
    }
  }

  /** CeilFifth is the ceiling of a fifth of the amount: the least integer not below Value / 5. */
  lemma CeilFifthMeaning(d: Decimal)
    ensures (CeilFifth(d) - 1) as real < Value(d) / 5.0 <= CeilFifth(d) as real
  {
    var p := Pow10(d.scale);
    FifthOfQuotient(d.units, p);
    CeilBracket(d.units, 5 * p, CeilFifth(d));
  }

  /** A non-negative amount never rounds up to a negative number of points. */
  lemma CeilFifthNonNegative(d: Decimal)
    requires d.units >= 0
    ensures CeilFifth(d) >= 0
  {
    ProductSign(5 * Pow10(d.scale), CeilFifth(d));
  }

  lemma ProductSign(b: int, q: int)
    requires b > 0
    ensures q < 0 <==> b * q < 0
  {
  }

  lemma FifthOfQuotient(u: int, p: int)
    requires p > 0
    ensures (u as real / p as real) / 5.0 == u as real / (5 * p) as real
  {
    assert (5 * p) as real == 5.0 * p as real;
  }

  lemma CeilBracket(a: int, b: int, q: int)
    requires b > 0 && b * (q - 1) < a <= b * q
    ensures (q - 1) as real < a as real / b as real <= q as real
  {
    assert (b * (q - 1)) as real == b as real * (q - 1) as real;
    assert (b * q) as real == b as real * q as real;
    QuotientAbove(a as real, (q - 1) as real, b as real);
    QuotientAtMost(a as real, q as real, b as real);
  }

  lemma QuotientAbove(x: real, y: real, p: real)
    requires p > 0.0 && p * y < x
    ensures y < x / p
  {
    DivideMonotone(p * y, x, p);
    assert p * y / p == y;
  }

  lemma QuotientAtMost(x: real, y: real, p: real)
    requires p > 0.0 && x <= p * y
    ensures x / p <= y
  {
    DivideMonotone(x, p * y, p);
    assert p * y / p == y;
  }

  lemma DivideMonotone(x: real, y: real, p: real)
    requires p > 0.0
    ensures x < y ==> x / p < y / p
    ensures x <= y ==> x / p <= y / p
  {
  }
}
