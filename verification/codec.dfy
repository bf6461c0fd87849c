/** The coordinate codec shared by the three scripts: decimal degrees to the
    EXIF degrees/minutes/seconds rational triple (`convertDegreesToDMS`), the
    "bridge" degrees-and-minutes form (`convertDegreesToDMSBridge`), and the
    way back (`convertDMSToDD`, plain and quantized to ten fractional digits).

    A `Decimal` built from a reference-table cell is held exactly as a
    mantissa and a number of fractional digits, and the arithmetic is exact;
    the scripts' decimal precision context is not modelled. */
module Codec {
  import opened Arith
  import opened Results

  /** The decimal number `mantissa / 10^scale`. */
  datatype Dec = Dec(mantissa: int, scale: nat) {

    function Value(): real {
      mantissa as real / Pow10(scale) as real
    }

    function Neg(): (n: Dec)
      ensures n.Value() == -Value()
    {
      Dec(-mantissa, scale)
    }
  }

  /** An EXIF rational, numerator over denominator. */
  datatype Rational = Rational(num: int, den: int)

  /** The EXIF GPS coordinate triple: degrees, minutes, seconds. */
  datatype Dms = Dms(deg: Rational, min: Rational, sec: Rational)

  /** The triple is non-negative, whole minutes below 60 and seconds
      below 60 with a positive denominator. */
  predicate InRange(dms: Dms)
  {
    && dms.deg.num >= 0
    && 0 <= dms.min.num <= 59
    && dms.sec.den > 0
    && 0 <= dms.sec.num < 60 * dms.sec.den
  }

  lemma AbsValue(v: Dec)
    ensures RealAbs(v.Value()) == Abs(v.mantissa) as real / Pow10(v.scale) as real
  {
    var p := Pow10(v.scale) as real;
    var m := v.mantissa;
    if m < 0 {
      assert (-m) as real / p == -(m as real / p);
    } else {
      assert m as real / p >= 0.0;
    }
  }

  lemma CancelFactor(g: nat, n: nat, d: nat)
    requires g > 0 && d > 0
    ensures (g * n) as real / (g * d) as real == n as real / d as real
  {
    var gr, nr, dr := g as real, n as real, d as real;
    assert (g * n) as real == gr * nr;
    assert (g * d) as real == gr * dr;
    assert (gr * nr) / (gr * dr) == nr / dr;
  }

  /** `as_integer_ratio` of the non-negative fraction `n/d`: the same value
      in lowest terms. */
  function IntegerRatio(n: nat, d: nat): (r: Rational)
    requires d > 0
    ensures r.num >= 0
    ensures LowestTerms(r.num, r.den)
    ensures r.num as real / r.den as real == n as real / d as real
  {
    ReducedIsLowest(n, d);
    var g := Gcd(n, d);
    DividesFactor(g, n);
    DividesFactor(g, d);
    CancelFactor(g, n / g, d / g);
    Rational(n / g, d / g)
  }

  lemma RatioBelow(a: int, b: int, n: int, d: int, k: int)
    requires b > 0 && d > 0
    requires a as real / b as real == n as real / d as real
    requires n < k * d
    ensures a < k * b
  {
    var ar, br, nr, dr, kr := a as real, b as real, n as real, d as real, k as real;
    assert (k * d) as real == kr * dr;
    assert nr / dr < kr;
    assert ar / br < kr;
    assert ar < kr * br;
    assert (k * b) as real == kr * br;
  }

  /** `convertDegreesToDMS`: degrees is `|int(v)|`, minutes is
      `|int((v % 1) * 60)|` and seconds is `|((v % 1) * 60 % 1) * 60|` as a
      reduced fraction, where `int` truncates and `%` keeps the dividend's
      sign, as for `Decimal`. Every quantity below is scaled by `10^scale`. */
  function DegreesToDms(v: Dec): (r: Dms)
    ensures r.deg.den == 1 && r.min.den == 1
    ensures r.deg.num as real <= RealAbs(v.Value()) < r.deg.num as real + 1.0
    ensures InRange(r)
    ensures LowestTerms(r.sec.num, r.sec.den)
  {
    var unit := Pow10(v.scale);
    var minutes := 60 * TruncMod(v.mantissa, unit);
    var seconds := 60 * TruncMod(minutes, unit);
    var r := Dms(Rational(Abs(TruncDiv(v.mantissa, unit)), 1),
                 Rational(Abs(TruncDiv(minutes, unit)), 1),
                 IntegerRatio(Abs(seconds), unit));
    DegreesToDmsBounds(v);
    r
  }

  lemma DegreesToDmsBounds(v: Dec)
    ensures
      var unit := Pow10(v.scale);
      var minutes := 60 * TruncMod(v.mantissa, unit);
      var seconds := 60 * TruncMod(minutes, unit);
      var r := Dms(Rational(Abs(TruncDiv(v.mantissa, unit)), 1),
                   Rational(Abs(TruncDiv(minutes, unit)), 1),
                   IntegerRatio(Abs(seconds), unit));
      && r.deg.num as real <= RealAbs(v.Value()) < r.deg.num as real + 1.0
      && InRange(r)
  {
    var unit := Pow10(v.scale);
    var n := Abs(v.mantissa);
    var minutes := 60 * TruncMod(v.mantissa, unit);
    var seconds := 60 * TruncMod(minutes, unit);
    var r := Dms(Rational(Abs(TruncDiv(v.mantissa, unit)), 1),
                 Rational(Abs(TruncDiv(minutes, unit)), 1),
                 IntegerRatio(Abs(seconds), unit));
    AbsValue(v);
    FloorOfRatio(n, unit);
    assert Abs(minutes) < 60 * unit;
    assert Abs(TruncDiv(minutes, unit)) <= 59 by {
      DivBelow(Abs(minutes), unit, 60);
    }
    assert Abs(seconds) < 60 * unit;
    RatioBelow(r.sec.num, r.sec.den, Abs(seconds), unit, 60);
  }

  lemma FloorOfRatio(n: nat, d: nat)
    requires d > 0
    ensures (n / d) as real <= n as real / d as real < (n / d + 1) as real
  {
    var q, m := n / d, n % d;
    var dr := d as real;
    assert n as real == q as real * dr + m as real;
    assert n as real / dr == q as real + m as real / dr;
  }

  lemma DivBelow(a: nat, d: nat, k: nat)
    requires d > 0 && a < k * d
    ensures a / d < k
  {
    if a / d >= k {
      MulLowerBound(d, a / d - k + 1);
      assert false;
    }
  }

  /** `convertDMSToDD`: degrees plus minutes over 60 plus seconds over 3600.
      Only the numerators of the degree and minute entries are read; a zero
      seconds denominator makes the `Decimal` division fail. */
  function DmsToDecimal(dms: Dms): (r: Result<real>)
    ensures r.Err? <==> dms.sec.den == 0
    ensures r.Err? ==> r.error == InvalidRational
    ensures r.Ok? && dms.deg.num >= 0 && dms.min.num >= 0 && dms.sec.num >= 0 && dms.sec.den > 0
      ==> r.value >= 0.0
    ensures r.Ok? && InRange(dms) ==> r.value.Floor == dms.deg.num
  {
    if dms.sec.den == 0 then
      Err(InvalidRational)
    else
      var seconds := dms.sec.num as real / dms.sec.den as real;
      var fraction := dms.min.num as real / 60.0 + seconds / 3600.0;
      if InRange(dms) then
        FractionBelowOne(dms);
        FloorOfSum(dms.deg.num, fraction);
        Ok(dms.deg.num as real + fraction)
      else
        Ok(dms.deg.num as real + fraction)
  }

  lemma FractionBelowOne(dms: Dms)
    requires InRange(dms)
    ensures 0.0 <= dms.min.num as real / 60.0 + (dms.sec.num as real / dms.sec.den as real) / 3600.0 < 1.0
  {
    assert (60 * dms.sec.den) as real == 60.0 * dms.sec.den as real;
    FractionBelowOneReal(dms.min.num as real, dms.sec.num as real, dms.sec.den as real);
  }

  lemma FractionBelowOneReal(mi: real, sn: real, sd: real)
    requires 0.0 <= mi <= 59.0
    requires sd > 0.0 && 0.0 <= sn < 60.0 * sd
    ensures 0.0 <= mi / 60.0 + (sn / sd) / 3600.0 < 1.0
  {
    assert 0.0 <= sn / sd < 60.0;
  }

  lemma FloorOfSum(n: int, x: real)
    requires 0.0 <= x < 1.0
    ensures (n as real + x).Floor == n
  {
  }

  /** The degree and minute denominators never influence the decoded value. */
  lemma DecodeIgnoresDenominators(dms: Dms, degDen: int, minDen: int)
    ensures DmsToDecimal(dms) ==
            DmsToDecimal(Dms(Rational(dms.deg.num, degDen), Rational(dms.min.num, minDen), dms.sec))
  {
  }

  lemma DecomposeReal(n: nat, d: nat, deg: nat, r1: nat, mi: nat, r2: nat)
    requires d > 0
    requires n == deg * d + r1
    requires 60 * r1 == mi * d + r2
    ensures deg as real + mi as real / 60.0 + ((60 * r2) as real / d as real) / 3600.0
            == n as real / d as real
  {
    var dr := d as real;
    var degr, r1r, mir, r2r := deg as real, r1 as real, mi as real, r2 as real;
    assert mir / 60.0 + ((60 * r2) as real / dr) / 3600.0 == r1r / dr by {
      assert 60.0 * r1r == mir * dr + r2r;
      MinutesAndSeconds(mir, r2r, r1r, dr);
    }
    assert degr + r1r / dr == n as real / dr by {
      assert n as real == degr * dr + r1r;
      SplitQuotient(degr, r1r, dr);
    }
  }

  lemma MinutesAndSeconds(mi: real, r2: real, r1: real, d: real)
    requires d > 0.0
    requires 60.0 * r1 == mi * d + r2
    ensures mi / 60.0 + ((60.0 * r2) / d) / 3600.0 == r1 / d
  {
    assert ((60.0 * r2) / d) / 3600.0 == r2 / (60.0 * d);
    assert mi / 60.0 == (mi * d) / (60.0 * d);
    assert (mi * d + r2) / (60.0 * d) == (60.0 * r1) / (60.0 * d);
  }

  lemma SplitQuotient(a: real, b: real, d: real)
    requires d > 0.0
    ensures a + b / d == (a * d + b) / d
  {
    assert (a * d) / d == a;
  }

  /** The triple `DegreesToDms` yields for a magnitude `n / unit`, written
      with plain quotient and remainder. */
  function MagnitudeDms(n: nat, unit: nat): Dms
    requires unit > 0
  {
    var r1 := n % unit;
    Dms(Rational(n / unit, 1),
        Rational((60 * r1) / unit, 1),
        IntegerRatio(60 * ((60 * r1) % unit), unit))
  }

  /** For a non-negative mantissa the truncating operations are the plain
      ones; with `SignBlind` this gives the form of the result for any sign. */
  lemma MagnitudeForm(v: Dec)
    ensures DegreesToDms(v) == MagnitudeDms(Abs(v.mantissa), Pow10(v.scale))
  {
    if v.mantissa < 0 {
      SignBlind(v);
      NonNegativeForm(v.Neg());
    } else {
      NonNegativeForm(v);
    }
  }

  lemma NonNegativeForm(v: Dec)
    requires v.mantissa >= 0
    ensures DegreesToDms(v) == MagnitudeDms(v.mantissa, Pow10(v.scale))
  {
    var unit := Pow10(v.scale);
    var r1 := v.mantissa % unit;
    assert TruncDiv(v.mantissa, unit) == v.mantissa / unit;
    assert TruncMod(v.mantissa, unit) == r1;
    var minutes := 60 * r1;
    assert minutes >= 0;
    assert TruncDiv(minutes, unit) == minutes / unit;
    assert TruncMod(minutes, unit) == minutes % unit;
  }

  lemma DecodeMagnitude(n: nat, unit: nat)
    requires unit > 0
    ensures DmsToDecimal(MagnitudeDms(n, unit)) == Ok(n as real / unit as real)
  {
    var deg, r1 := n / unit, n % unit;
    var mi, r2 := (60 * r1) / unit, (60 * r1) % unit;
    var sec := IntegerRatio(60 * r2, unit);
    assert sec.num as real / sec.den as real == (60 * r2) as real / unit as real;
    DecomposeReal(n, unit, deg, r1, mi, r2);
  }

  /** Decoding what `DegreesToDms` produced gives back `|v|` exactly. */
  lemma RoundTrip(v: Dec)
    ensures DmsToDecimal(DegreesToDms(v)) == Ok(RealAbs(v.Value()))
  {
    MagnitudeForm(v);
    DecodeMagnitude(Abs(v.mantissa), Pow10(v.scale));
    AbsValue(v);
  }

  /** The sign of the input is discarded: `v` and `-v` encode alike. */
  lemma SignBlind(v: Dec)
    ensures DegreesToDms(v.Neg()) == DegreesToDms(v)
  {
    var unit := Pow10(v.scale);
    var m := v.mantissa;
    var minutes := 60 * TruncMod(m, unit);
    assert v.Neg() == Dec(-m, v.scale);
    assert Abs(TruncDiv(-m, unit)) == Abs(TruncDiv(m, unit)) && 60 * TruncMod(-m, unit) == -minutes by {
      TruncNeg(m, unit);
    }
    assert Abs(TruncDiv(-minutes, unit)) == Abs(TruncDiv(minutes, unit))
        && Abs(60 * TruncMod(-minutes, unit)) == Abs(60 * TruncMod(minutes, unit)) by {
      TruncNeg(minutes, unit);
    }
  }

  /** The reference value `38.529057` encodes as 38 deg 31 min and
      111513/2500 s. */
  lemma EncodeExample()
    ensures DegreesToDms(Dec(38529057, 6))
            == Dms(Rational(38, 1), Rational(31, 1), Rational(111513, 2500))
  {
    assert Pow10(6) == 1000000 by {
      assert Pow10(1) == 10;
      assert Pow10(2) == 100;
      assert Pow10(3) == 1000;
      assert Pow10(4) == 10000;
      assert Pow10(5) == 100000;
    }
    MagnitudeForm(Dec(38529057, 6));
    assert Gcd(44605200, 1000000) == 400 by {
      assert Gcd(2000, 400) == 400;
      assert Gcd(2400, 2000) == 400;
      assert Gcd(26000, 2400) == 400;
      assert Gcd(184400, 26000) == 400;
      assert Gcd(210400, 184400) == 400;
      assert Gcd(394800, 210400) == 400;
      assert Gcd(605200, 394800) == 400;
      assert Gcd(1000000, 605200) == 400;
    }
  }

  /** `convertDegreesToDMSBridge`: whole degrees and the untruncated minutes
      `|(v % 1) * 60|`. */
  function DegreesToDmsBridge(v: Dec): (r: (nat, real))
    ensures 0.0 <= r.1 < 60.0
    ensures r.0 as real + r.1 / 60.0 == RealAbs(v.Value())
  {
    var unit := Pow10(v.scale);
    var minutes := 60 * TruncMod(v.mantissa, unit);
    var r := (Abs(TruncDiv(v.mantissa, unit)), Abs(minutes) as real / unit as real);
    BridgeFacts(v);
    r
  }

  lemma BridgeFacts(v: Dec)
    ensures
      var unit := Pow10(v.scale);
      var m := Abs(60 * TruncMod(v.mantissa, unit)) as real / unit as real;
      && 0.0 <= m < 60.0
      && Abs(TruncDiv(v.mantissa, unit)) as real + m / 60.0 == RealAbs(v.Value())
  {
    var unit, n := Pow10(v.scale), Abs(v.mantissa);
    assert Abs(60 * TruncMod(v.mantissa, unit)) == 60 * (n % unit);
    BridgeMagnitude(n, unit);
    AbsValue(v);
  }

  lemma BridgeMagnitude(n: nat, unit: nat)
    requires unit > 0
    ensures 0.0 <= (60 * (n % unit)) as real / unit as real < 60.0
    ensures (n / unit) as real + ((60 * (n % unit)) as real / unit as real) / 60.0
            == n as real / unit as real
  {
    var deg, r1 := n / unit, n % unit;
    var ur, r1r := unit as real, r1 as real;
    assert (60 * r1) as real == 60.0 * r1r;
    assert 0.0 <= r1r < ur;
    assert n as real == deg as real * ur + r1r;
    calc {
      deg as real + ((60.0 * r1r) / ur) / 60.0;
      deg as real + r1r / ur;
      (deg as real * ur + r1r) / ur;
    }
  }

  /** Number of fractional digits `Validate.py` quantizes to. */
  const QuantizeDigits: nat := 10

  /** `10^QuantizeDigits`: one unit of the last kept digit is its inverse. */
  const Scale10: real := Pow10(QuantizeDigits) as real

  predicate IsIntegral(y: real)
  {
    y.Floor as real == y
  }

  /** Rounds to the nearest integer, ties to the even neighbour: the default
      rounding of Python's decimal context. */
  function RoundHalfEven(y: real): (n: int)
    ensures RealAbs(y - n as real) <= 0.5
    ensures RealAbs(y - n as real) == 0.5 ==> n % 2 == 0
  {
    var f := y.Floor;
    var frac := y - f as real;
    if frac < 0.5 then f
    else if frac > 0.5 then f + 1
    else if f % 2 == 0 then f
    else f + 1
  }

  /** `Decimal.quantize(Decimal('0.0000000001'))`: the nearest multiple of
      `10^-10`, ties to even. */
  function Quantize10(x: real): (q: real)
    ensures IsIntegral(q * Scale10)
    ensures RealAbs(q - x) * Scale10 <= 0.5
    ensures RealAbs(q - x) * Scale10 == 0.5 ==> (q * Scale10).Floor % 2 == 0
  {
    assert Scale10 > 0.0;
    var n := RoundHalfEven(x * Scale10);
    var q := n as real / Scale10;
    assert q * Scale10 == n as real;
    assert (q - x) * Scale10 == n as real - x * Scale10;
    assert RealAbs(q - x) * Scale10 == RealAbs(x * Scale10 - n as real);
    q
  }

  /** A value that already has at most ten fractional digits is kept. */
  lemma QuantizeKeeps(x: real)
    requires IsIntegral(x * Scale10)
    ensures Quantize10(x) == x
  {
    var y := x * Scale10;
    assert RoundHalfEven(y) == y.Floor;
  }

  lemma QuantizeIdempotent(x: real)
    ensures Quantize10(Quantize10(x)) == Quantize10(x)
  {
    QuantizeKeeps(Quantize10(x));
  }

  /** Values that quantize alike lie at most one unit of the tenth digit
      apart: any larger difference is detected. */
  lemma QuantizeEqualClose(a: real, b: real)
    requires Quantize10(a) == Quantize10(b)
    ensures RealAbs(a - b) * Scale10 <= 1.0
  {
    var q := Quantize10(a);
    assert RealAbs(q - a) * Scale10 <= 0.5;
    assert RealAbs(q - b) * Scale10 <= 0.5;
    assert (a - b) * Scale10 == (q - b) * Scale10 - (q - a) * Scale10;
  }

  /** A difference of exactly one unit can be absorbed: `+0.5e-10` and
      `-0.5e-10` both quantize to zero. */
  lemma QuantizeTieAbsorbs()
    ensures Quantize10(0.5 / Scale10) == Quantize10(-0.5 / Scale10) == 0.0
    ensures (0.5 / Scale10 - (-0.5 / Scale10)) * Scale10 == 1.0
  {
    assert (0.5 / Scale10) * Scale10 == 0.5;
    assert (-0.5 / Scale10) * Scale10 == -0.5;
    assert RoundHalfEven(0.5) == 0;
    assert RoundHalfEven(-0.5) == 0;
  }

  /** The rounding is pinned down by its contract: at most half a unit
      away, and even on a tie. */
  lemma RoundUnique(y: real, n: int, m: int)
    requires RealAbs(y - n as real) <= 0.5 && RealAbs(y - m as real) <= 0.5
    requires RealAbs(y - n as real) == 0.5 ==> n % 2 == 0
    requires RealAbs(y - m as real) == 0.5 ==> m % 2 == 0
    ensures n == m
  {
  }

  /** Quantizing commutes with negation, ties included. */
  lemma QuantizeOdd(x: real)
    ensures Quantize10(-x) == -Quantize10(x)
  {
    var y := x * Scale10;
    var n := RoundHalfEven(y);
    assert (-x) * Scale10 == -y;
    assert RealAbs(-y - (-n) as real) == RealAbs(y - n as real);
    RoundUnique(-y, RoundHalfEven(-y), -n);
  }

  /** `convertDMSToDD` of `Validate.py`: the decoded value quantized to ten
      fractional digits. */
  function DmsToDecimalQuantized(dms: Dms): (r: Result<real>)
    ensures r.Err? <==> dms.sec.den == 0
    ensures r.Ok? ==> IsIntegral(r.value * Scale10) && Quantize10(r.value) == r.value
    ensures r.Ok? ==> RealAbs(r.value - DmsToDecimal(dms).value) * Scale10 <= 0.5
  {
    var dd :- DmsToDecimal(dms);
    QuantizeIdempotent(dd);
    Ok(Quantize10(dd))
  }

  /** A value with at most ten fractional digits has an integral
      `value * 10^10`. */
  lemma FewDigitsIntegral(v: Dec)
    requires v.scale <= QuantizeDigits
    ensures IsIntegral(RealAbs(v.Value()) * Scale10)
    ensures IsIntegral(v.Value() * Scale10)
  {
    Pow10Add(v.scale, QuantizeDigits - v.scale);
    AbsValue(v);
    ScaledIntegral(Abs(v.mantissa), Pow10(v.scale), Pow10(QuantizeDigits - v.scale));
    var y := RealAbs(v.Value()) * Scale10;
    if v.Value() < 0.0 {
      assert v.Value() * Scale10 == -y;
      assert (-y).Floor == -(y.Floor);
    }
  }

  lemma ScaledIntegral(n: nat, unit: nat, rest: nat)
    requires unit > 0
    ensures IsIntegral((n as real / unit as real) * (unit * rest) as real)
  {
    var ur, rr := unit as real, rest as real;
    assert (unit * rest) as real == ur * rr;
    assert (n as real / ur) * (ur * rr) == n as real * rr;
    var x := (n as real / ur) * (unit * rest) as real;
    assert x == (n * rest) as real;
    assert x.Floor == n * rest;
    assert IsIntegral(x);
    assert x == (n as real / unit as real) * (unit * rest) as real;
  }

  /** With at most ten fractional digits the quantized decoder still returns
      `|v|` exactly. */
  lemma RoundTripQuantized(v: Dec)
    requires v.scale <= QuantizeDigits
    ensures DmsToDecimalQuantized(DegreesToDms(v)) == Ok(RealAbs(v.Value()))
  {
    var a := RealAbs(v.Value());
    var dms := DegreesToDms(v);
    assert DmsToDecimal(dms) == Ok(a) by { RoundTrip(v); }
    QuantizeFewDigits(v);
  }

  /** Quantizing leaves a value of at most ten fractional digits alone. */
  lemma QuantizeFewDigits(v: Dec)
    requires v.scale <= QuantizeDigits
    ensures Quantize10(RealAbs(v.Value())) == RealAbs(v.Value())
    ensures Quantize10(v.Value()) == v.Value()
  {
    FewDigitsIntegral(v);
    QuantizeKeeps(RealAbs(v.Value()));
    QuantizeKeeps(v.Value());
  }
}
