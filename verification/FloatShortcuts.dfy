/** The shortcuts of `push_double` and `push_float` in
    `layerstack/src/float_text.rs` against the path they skip: the guards on the
    bits, `is_positional` and `may_tie` together leave no digit to correct and one
    layout to write. The digits are given, and assumed as near as a `float`'s are. */
module FloatShortcuts {
  import opened Powers
  import opened DecimalText
  import opened FloatTies
  import opened FloatDigits

  // ----------------------------------------------------- nothing to correct

  /** Digits of a number that cannot tie are left as they are. */
  lemma {:induction false} NothingToBreak(d: Decimal, bits: nat, b: Binary, most: nat)
    requires 1 <= |d.digits| <= most <= 17
    requires OddSignificand(bits) == Some(b) && b.k < Pow(10, most + 1) && !MayTie(b.k, b.q, most)
    ensures TieBroken(d, bits) == d
  {
    hide Power, Pow, MayTie, TieBroken, Number, OddSignificand, Unreduced, DecimalValue, Binary.Value, Halfway;
    var (n, place) := (Number(d.digits), d.exponent - |d.digits|);
    TieBrokenIs(d, bits);
    OddSignificandIs(bits);
    MayTieExactly(b.k, b.q, most);
    if TieBroken(d, bits) != d {
      HalfUnit(b.Value(), n, place + 1);
      NumberBelow(d.digits);
      PowUp(10, |d.digits|, most);
      PowNext(10, most);
      TieFound(b, n, place, most);
    }
  }

  lemma {:induction false} TieFound(b: Binary, n: nat, place: int, most: nat)
    requires n > 0 && 10 * n <= Pow(10, most + 1) && b.Value() == DecimalValue(10 * n - 5, place)
    ensures Halfway(b.k, b.q, most)
  {
    hide Power, Pow, DecimalValue, Binary.Value, EndsInFive;
    FiveLess(n);
    assert HalfwayAt(b.k, b.q, most, 10 * n - 5, place);
  }

  lemma {:induction false} FiveLess(n: nat)
    requires n > 0
    ensures EndsInFive(10 * n - 5)
  {
    assert 10 * n - 5 == 10 * (n - 1) + 5;
  }

  // ------------------------------------------------------------- one layout

  /** What is asked of the digits of a number: the first is not zero, and they miss
      it by a relative 2^-24 at most. */
  predicate Near(d: Decimal, v: real) {
    d.digits != [] && d.digits[0] != 0 && v - v / 16777216.0 <= d.Magnitude() <= v + v / 16777216.0
  }

  /** The bounds of `is_positional` as the doubles nearest to them. */
  ghost predicate IsPositional(v: real) {
    Unreduced(POSITIONAL_F64_LOW - 1).Value() < v < Unreduced(POSITIONAL_F64_HIGH).Value()
  }

  lemma {:induction false} NumberAtLeast(ds: seq<Digit>)
    requires ds != [] && ds[0] != 0
    ensures Pow(10, |ds| - 1) <= Number(ds)
  {
    hide Pow;
    if |ds| == 1 {
      assert ds[..0] == [];
      PowNext(10, 0);
    } else {
      NumberAtLeast(ds[..|ds| - 1]);
      PowNext(10, |ds| - 2);
    }
  }

  lemma {:induction false} Grows(a: real, b: real, u: real)
    requires u > 0.0
    ensures a <= b ==> a * u <= b * u
    ensures a < b ==> a * u < b * u
  {
    var d := b - a;
    assert b * u == a * u + d * u;
    if d > 0.0 { assert d * u > 0.0; }
  }

  lemma {:induction false} ValuesCompare(a: nat, b: nat, p: int)
    ensures a <= b ==> DecimalValue(a, p) <= DecimalValue(b, p)
    ensures a < b ==> DecimalValue(a, p) < DecimalValue(b, p)
  {
    hide Power;
    Grows(a as real, b as real, Power(10, p));
  }

  lemma {:induction false} ValueBounds(number: nat, n: nat, place: int)
    requires n > 0 && Pow(10, n - 1) <= number < Pow(10, n)
    ensures Power(10, n - 1 + place) <= DecimalValue(number, place) < Power(10, n + place)
  {
    hide Pow, Power, DecimalValue;
    ValuesCompare(Pow(10, n - 1), number, place);
    ValuesCompare(number, Pow(10, n), place);
    PowerTimes(n - 1, place);
    PowerTimes(n, place);
  }

  lemma {:induction false} PowerTimes(n: nat, place: int)
    ensures Power(10, n + place) == DecimalValue(Pow(10, n), place)
  {
    hide Pow, Power;
    PowerSum(10, n, place);
    PowerIsTen(n);
  }

  /** The exponent is that of the power of ten at or below the number. */
  lemma {:induction false} ExponentIs(d: Decimal)
    requires d.digits != [] && d.digits[0] != 0
    ensures Power(10, d.exponent) <= d.Magnitude() < Power(10, d.exponent + 1)
  {
    hide Pow, Power, Number, DecimalValue;
    var (n, place) := (|d.digits|, d.exponent - |d.digits| + 1);
    NumberAtLeast(d.digits);
    NumberBelow(d.digits);
    ValueBounds(Number(d.digits), n, place);
    assert n - 1 + place == d.exponent && n + place == d.exponent + 1;
  }

  lemma {:induction false} PowerIsTen(e: nat)
    ensures Power(10, e) == Pow(10, e) as real
  {
  }

  lemma {:induction false} PowerUp(x: int, y: int)
    requires x <= y
    ensures Power(10, x) <= Power(10, y)
    decreases y - x
  {
    hide Power, Pow;
    if x < y {
      PowerUp(x, y - 1);
      PowerNext(10, y - 1);
    }
  }

  lemma {:induction false} Ends()
    ensures Power(10, -6) == 0.000001 && Power(10, 15) == 1000000000000000.0
  {
    hide Power;
    assert Pow(10, 6) == 1000000 && Pow(10, 5) == 100000;
    PowSum(10, 5, 5);
    PowSum(10, 10, 5);
    PowerIsTen(15);
    PowerAtMinusSix();
  }

  lemma {:induction false} PowerAtMinusSix()
    requires Pow(10, 6) == 1000000
    ensures Power(10, -6) == 0.000001
  {
  }

  /** A number well inside the ends has digits of a positional exponent. */
  lemma {:induction false} InsideExponent(d: Decimal, v: real)
    requires 0.0000010000009 <= v <= 999999100000000.0 && Near(d, v)
    ensures -6 <= d.exponent < 15
  {
    hide Power, Decimal.Magnitude;
    ExponentIs(d);
    Ends();
    if d.exponent < -6 { PowerUp(d.exponent + 1, -6); }
    if d.exponent >= 15 { PowerUp(15, d.exponent); }
  }

  lemma {:induction false} Inverse(n: nat)
    ensures n > 0 ==> Power(2, -(n as int)) == 1.0 / Pow(2, n) as real
    ensures Power(2, n) == Pow(2, n) as real
  {
    hide Pow;
  }

  lemma {:induction false} TwoTo72()
    ensures Power(2, -72) == 1.0 / 4722366482869645213696.0 && Power(2, -3) == 0.125
    ensures Power(2, -43) == 1.0 / 8796093022208.0 && Power(2, 26) == 67108864.0
  {
    hide Power, Pow;
    SmallPowers();
    PowSum(2, 10, 10);
    PowSum(2, 20, 20);
    PowSum(2, 20, 6);
    PowSum(2, 40, 3);
    PowSum(2, 43, 26);
    PowSum(2, 69, 3);
    Inverse(72);
    Inverse(43);
    Inverse(26);
    Inverse(3);
  }

  lemma {:induction false} SmallPowers()
    ensures Pow(2, 3) == 8 && Pow(2, 6) == 64 && Pow(2, 10) == 0x400
  {
  }

  /** The doubles the bounds are. */
  lemma {:induction false} DoubleEnds()
    ensures Unreduced(POSITIONAL_F64_LOW - 1).Value() == 4722371205236128.0 / 4722366482869645213696.0
    ensures Unreduced(POSITIONAL_F64_HIGH).Value() == 999999000000000.0
  {
    hide Power;
    TwoTo72();
  }

  /** `is_positional` promises the exponents written positionally. */
  lemma {:induction false} PositionalExponent(d: Decimal, v: real)
    requires IsPositional(v) && Near(d, v)
    ensures -6 <= d.exponent < 15
  {
    hide Unreduced, Binary.Value, Near;
    DoubleEnds();
    InsideExponent(d, v);
  }

  // ----------------------------------------------------------- bits in order

  /** The normal number of a significand of `w + fraction` units. */
  function Normal(exponent: nat, fraction: nat, w: nat, bias: int): real {
    Binary(w + fraction, exponent as int - bias).Value()
  }

  lemma {:induction false} UnitsOrder(a: nat, b: nat, u: real)
    requires u > 0.0 && a < b
    ensures a as real * u < b as real * u
  {
    Grows(a as real, b as real, u);
  }

  lemma {:induction false} Doubled(n: nat, q: int)
    ensures Binary(2 * n, q).Value() == Binary(n, q + 1).Value()
  {
    hide Power;
    PowerNext(2, q);
    assert (2 * n) as real == 2.0 * n as real;
  }

  lemma {:induction false} NormalNext(exponent: nat, fraction: nat, w: nat, bias: int)
    requires fraction < w
    ensures Normal(exponent, fraction, w, bias) < Normal(exponent + 1, 0, w, bias)
  {
    hide Power;
    Doubled(w, exponent as int - bias);
    UnitsOrder(w + fraction, 2 * w, Power(2, exponent as int - bias));
  }

  /** Normal numbers order as their exponents, then as their fractions. */
  lemma {:induction false} NormalOrder(e: nat, f: nat, i: nat, j: nat, w: nat, bias: int)
    requires f < w && j < w && (e < i || (e == i && f < j))
    ensures Normal(e, f, w, bias) < Normal(i, j, w, bias)
    decreases i - e
  {
    hide Power;
    if e == i {
      UnitsOrder(w + f, w + j, Power(2, e as int - bias));
    } else {
      NormalNext(e, f, w, bias);
      if e + 1 < i || 0 < j { NormalOrder(e + 1, 0, i, j, w, bias); }
    }
  }

  /** The bits of finite doubles order as their magnitudes, subnormals included. */
  lemma {:induction false} DoublesOrder(a: nat, b: nat)
    requires a < b < 0x7ff * HIDDEN
    ensures Unreduced(a).Value() < Unreduced(b).Value()
  {
    hide Power;
    var (e, f, i, j) := (a / HIDDEN, a % HIDDEN, b / HIDDEN, b % HIDDEN);
    assert e < i || (e == i && f < j);
    assert Exponent(a) == e && Exponent(b) == i;
    if i == 0 {
      UnitsOrder(f, j, Power(2, -1074));
    } else if e == 0 {
      UnitsOrder(f, HIDDEN, Power(2, -1074));
      if (1, 0) != (i, j) { NormalOrder(1, 0, i, j, HIDDEN, 1075); }
    } else {
      NormalOrder(e, f, i, j, HIDDEN, 1075);
    }
  }

  /** The range of bits is exactly the doubles `is_positional` accepts. */
  lemma {:induction false} PositionalDoubles(bits: nat)
    requires bits < 0x7ff * HIDDEN
    ensures POSITIONAL_F64_LOW <= bits < POSITIONAL_F64_HIGH <==> IsPositional(Unreduced(bits).Value())
  {
    hide Unreduced, Binary.Value;
    var (low, high) := (POSITIONAL_F64_LOW - 1, POSITIONAL_F64_HIGH);
    if low < bits { DoublesOrder(low, bits); } else if bits < low { DoublesOrder(bits, low); }
    if high < bits { DoublesOrder(high, bits); } else if bits < high { DoublesOrder(bits, high); }
  }

  lemma {:induction false} FloatsOrder(a: nat, b: nat)
    requires a < b
    ensures FloatMagnitude(a).Value() < FloatMagnitude(b).Value()
  {
    hide Power;
    NormalOrder(a / 0x80_0000, a % 0x80_0000, b / 0x80_0000, b % 0x80_0000, 0x80_0000, 150);
  }

  /** The floats at the ends of the range and next to them. */
  lemma {:induction false} FloatEnds()
    ensures FloatMagnitude(POSITIONAL_F32_LOW - 1).Value() == 8796102.0 / 8796093022208.0
    ensures FloatMagnitude(POSITIONAL_F32_LOW - 2).Value() == 8796101.0 / 8796093022208.0
    ensures FloatMagnitude(POSITIONAL_F32_HIGH).Value() == 999998980358144.0
    ensures FloatMagnitude(POSITIONAL_F32_HIGH + 1).Value() == 999999047467008.0
  {
    hide Power;
    TwoTo72();
  }

  /** For floats the range leaves out one more at either end. */
  lemma {:induction false} PositionalFloats(bits: nat)
    ensures POSITIONAL_F32_LOW - 1 <= bits <= POSITIONAL_F32_HIGH <==> IsPositional(FloatMagnitude(bits).Value())
  {
    hide Unreduced, FloatMagnitude, Binary.Value;
    DoubleEnds();
    FloatEnds();
    var (low, high) := (POSITIONAL_F32_LOW, POSITIONAL_F32_HIGH);
    if low - 1 < bits { FloatsOrder(low - 1, bits); } else if bits < low - 2 { FloatsOrder(bits, low - 2); }
    if high + 1 < bits { FloatsOrder(high + 1, bits); } else if bits < high { FloatsOrder(bits, high); }
  }

  // ----------------------------------------------------------- the shortcuts

  /** What `push_double` and `push_float` write without a shortcut. */
  function FullPath(d: Decimal, bits: nat): string
    requires 1 <= |d.digits| <= 17
  {
    TieBrokenIs(d, bits);
    Shortest(TieBroken(d, bits))
  }

  lemma {:induction false} Same(d: Decimal, bits: nat, b: Binary, most: nat)
    requires 1 <= |d.digits| <= most <= 17 && OddSignificand(bits) == Some(b) && b.k < Pow(10, most + 1)
    requires !MayTie(b.k, b.q, most) && IsPositional(Unreduced(bits).Value()) && Near(d, Unreduced(bits).Value())
    ensures FullPath(d, bits) == Positional(d)
  {
    hide Unreduced, Binary.Value, OddSignificand, MayTie, Near, IsPositional, TieBroken, Positional, Pow;
    NothingToBreak(d, bits, b, most);
    PositionalExponent(d, Unreduced(bits).Value());
  }

  /** Either shortcut of `push_double` writes what the path it skips writes. */
  lemma {:induction false} DoubleShortcuts(d: Decimal, bits: nat)
    requires bits < 0x7ff * HIDDEN && 1 <= |d.digits| <= 17 && Near(d, Unreduced(bits).Value())
    requires
      || QuickDouble(bits)
      || (IsPositional(Unreduced(bits).Value()) && OddSignificand(bits).Some?
          && !MayTie(OddSignificand(bits).value.k, OddSignificand(bits).value.q, 17))
    ensures FullPath(d, bits) == Positional(d)
  {
    hide Unreduced, Binary.Value, OddSignificand, MayTie, Near, IsPositional, FullPath, Positional, Pow, Halfway;
    if QuickDouble(bits) {
      QuickDoubleNeverTies(bits);
      PositionalDoubles(bits);
    }
    OddSignificandIs(bits);
    TableEnds();
    Same(d, bits, OddSignificand(bits).value, 17);
  }

  /** The significand of a float, odd, is below 2^24. */
  lemma {:induction false} FloatSignificand(single: nat, b: Binary)
    requires b.k % 2 == 1 && b.Value() == FloatMagnitude(single).Value()
    ensures b.k < 0x100_0000
  {
    hide Power, Pow, TrailingZeros;
    var f := FloatMagnitude(single);
    var zeros := TrailingZeros(f.k);
    OddPart(f.k, f.q);
    OddUnique(b, Binary(f.k / Pow(2, zeros), f.q + zeros));
    Shrinks(f.k, Pow(2, zeros));
  }

  /** So does either of `push_float`, for a normal float and the double equal to
      it. */
  lemma {:induction false} SingleShortcuts(d: Decimal, single: nat, bits: nat)
    requires Unreduced(bits).Value() == FloatMagnitude(single).Value()
    requires 1 <= |d.digits| <= 9 && Near(d, Unreduced(bits).Value())
    requires
      || QuickFloat(single)
      || (IsPositional(Unreduced(bits).Value()) && OddSignificand(bits).Some?
          && !MayTie(OddSignificand(bits).value.k, OddSignificand(bits).value.q, 9))
    ensures FullPath(d, bits) == Positional(d)
  {
    hide Unreduced, Binary.Value, OddSignificand, MayTie, Near, IsPositional, FullPath, Positional, Pow, Halfway, Power, FloatMagnitude;
    OddSignificandIs(bits);
    FloatIsPositive(single);
    var b := OddSignificand(bits).value;
    FloatSignificand(single, b);
    if QuickFloat(single) {
      QuickFloatNeverTies(single, b);
      PositionalFloats(single);
    }
    TableEnds();
    Same(d, bits, b, 9);
  }

  lemma {:induction false} FloatIsPositive(single: nat)
    ensures FloatMagnitude(single).Value() > 0.0
  {
    hide Power;
    var b := FloatMagnitude(single);
    UnitsOrder(0, b.k, Power(2, b.q));
  }
}
