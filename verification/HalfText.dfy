/** A half written to six significant digits and read back: `push_half` in
    `layerstack/src/float_text.rs` against the rounding of
    `layerstack/src/half.rs`. */
module HalfText {
  import opened Powers
  import opened DecimalText
  import opened FloatTies
  import DecimalRounding
  import FloatDigits
  import HalfFloat
  import Rounding

  // ------------------------------------------------------ the half's number

  /** The magnitude of a finite half, before its trailing zeros are removed. */
  function HalfBinary(g: nat): Binary {
    if g / 0x400 == 0 then Binary(g % 0x400, -24) else Binary(0x400 + g % 0x400, g / 0x400 - 25)
  }

  /** As an odd number times a power of two. */
  function OddHalf(g: nat): Binary
    requires g > 0
  {
    var b := HalfBinary(g);
    var zeros := TrailingZeros(b.k);
    Binary(b.k / Pow(2, zeros), b.q + zeros)
  }

  /** It is what the bits of the double equal to the half are taken apart into,
      and small enough for the tables and for 128 bits. */
  lemma {:induction false} OddHalfIs(g: nat)
    requires 0 < g < HalfFloat.INFINITY
    ensures var b := OddHalf(g);
      && b.Value() == HalfFloat.HalfMagnitude(g) && b.k % 2 == 1 && 0 < b.k < 0x800 && b.q >= -24
      && (b.q < 0 ==> b.k * Pow(5, -b.q) < DecimalRounding.U128)
    ensures forall bits :: Unreduced(bits).Value() == HalfFloat.HalfMagnitude(g) ==> OddSignificand(bits) == Some(OddHalf(g))
  {
    hide Power, Pow, TrailingZeros, Unreduced, OddSignificand, DecimalValue, Binary.Value;
    HalfBinaryIs(g);
    var (h, b) := (HalfBinary(g), OddHalf(g));
    OddPart(h.k, h.q);
    Shrinks(h.k, Pow(2, TrailingZeros(h.k)));
    Positive(h);
    if b.q < 0 { Fits(b.k, -b.q); }
    forall bits | Unreduced(bits).Value() == HalfFloat.HalfMagnitude(g) ensures OddSignificand(bits) == Some(b) {
      OddSignificandIs(bits);
      OddUnique(OddSignificand(bits).value, b);
    }
  }

  lemma {:induction false} HalfBinaryIs(g: nat)
    requires 0 < g < HalfFloat.INFINITY
    ensures HalfBinary(g).Value() == HalfFloat.HalfMagnitude(g) && 0 < HalfBinary(g).k < 0x800
  {
    hide Power;
  }

  lemma {:induction false} Fits(k: nat, n: nat)
    requires k < 0x800 && n <= 24
    ensures k * Pow(5, n) < DecimalRounding.U128
  {
    hide Pow;
    PowUp(5, n, 28);
    TableEnds();
    FloatDigits.Monotone(k, 0x800, Pow(5, n));
  }

  /** An odd number times a power of two is an integer exactly when the power is
      one. */
  lemma {:induction false} IntegerExactly(b: Binary, n: nat)
    requires b.k % 2 == 1
    ensures b.q >= 0 ==> b.Value() == (b.k * Pow(2, b.q)) as real
    ensures b.Value() == n as real ==> b.q >= 0
  {
    hide Power, Pow, TrailingZeros;
    PowerZero(2);
    if b.q >= 0 { PowerIsPow(b.q); }
    Positive(b);
    if b.Value() == n as real {
      var zeros := TrailingZeros(n);
      assert Binary(n, 0).Value() == n as real;
      OddPart(n, 0);
      OddUnique(b, Binary(n / Pow(2, zeros), 0 + zeros));
    }
  }

  // --------------------------------------------------------------- the text

  function SixDigits(negative: bool, exact: nat, place: int): string {
    FloatDigits.DigitsKept(negative, exact, place, 6);
    FloatDigits.SixDigitLayout(FloatDigits.RoundedDecimal(negative, exact, place, 6))
  }

  /** What a finite half is written as. */
  function Text(negative: bool, g: nat): string
    requires g < HalfFloat.INFINITY
  {
    if g == 0 then Sign(negative) + Chars(DigitsOf(0))
    else
      var b := OddHalf(g);
      if b.q >= 0 then Sign(negative) + Chars(DigitsOf(b.k * Pow(2, b.q)))
      else SixDigits(negative, b.k * Pow(5, -b.q), b.q)
  }

  /** Six digits are within a part in 200000. */
  lemma {:induction false} SixDigitsNear(exact: nat, place: int)
    ensures var (v, x) := (DecimalValue(exact, place), FloatDigits.RoundedValue(exact, place, 6));
      200000.0 * HalfFloat.Gap(v, x) <= v
  {
    hide Power, Pow, DecimalRounding.Length, Rounding.HalfEven;
    var length := DecimalRounding.Length(exact);
    var u := Power(10, place);
    if length > 6 {
      var d := Pow(10, length - 6);
      var h := DecimalRounding.Correct(exact, 6);
      FloatDigits.LongIsPositive(exact);
      DecimalRounding.LengthIs(exact);
      PowSum(10, 5, length - 6);
      HundredThousand();
      Rounding.HalfEvenNearest(exact, d);
      ScaledGap(exact, h * d, Rounding.Distance(exact, h * d), u);
    } else {
      assert exact as real * u >= 0.0;
    }
  }

  lemma {:induction false} HundredThousand()
    ensures Pow(10, 5) == 100000
  {
  }

  lemma {:induction false} ScaledGap(n: nat, m: nat, distance: nat, u: real)
    requires u > 0.0 && distance == Rounding.Distance(n, m) && 200000 * distance <= n
    ensures 200000.0 * HalfFloat.Gap(n as real * u, m as real * u) <= n as real * u
  {
    Distributes(n, m, u);
    Distributes(m, n, u);
    Distributes(n, 200000 * distance, u);
    assert (200000 * distance) as real * u == 200000.0 * (distance as real * u);
  }

  lemma {:induction false} Distributes(a: nat, b: nat, u: real)
    requires u > 0.0
    ensures a >= b ==> (a - b) as real * u == a as real * u - b as real * u && a as real * u >= b as real * u
  {
    assert (a - b) as real == a as real - b as real;
    if a >= b { assert (a - b) as real * u >= 0.0; }
  }

  /** A half's text denotes a number within a part in 200000 of it. */
  lemma {:induction false} TextIsNear(negative: bool, g: nat)
    requires g < HalfFloat.INFINITY
    ensures var m := Meaning(Text(negative, g));
      m.negative == negative && 200000.0 * HalfFloat.Gap(HalfFloat.HalfMagnitude(g), m.magnitude) <= HalfFloat.HalfMagnitude(g)
  {
    hide Power, Pow, DecimalValue, Meaning, OddHalf, HalfFloat.HalfMagnitude, FloatDigits.RoundedDecimal, FloatDigits.RoundedValue,
      FloatDigits.SixDigitLayout, Binary.Value, Chars, DigitsOf;
    HalfFloat.Extremes();
    if g == 0 {
      IntegerText(negative, 0);
    } else {
      OddHalfIs(g);
      var b := OddHalf(g);
      HalfPositive(g);
      if b.q >= 0 {
        IntegerExactly(b, 0);
        IntegerText(negative, b.k * Pow(2, b.q));
      } else {
        var exact := b.k * Pow(5, -b.q);
        FloatDigits.ExactDecimal(b.k, -b.q);
        FloatDigits.SixDigitsMean(negative, exact, b.q);
        SixDigitsNear(exact, b.q);
      }
    }
  }

  lemma {:induction false} HalfPositive(g: nat)
    requires g > 0
    ensures HalfFloat.HalfMagnitude(g) > 0.0
  {
    hide HalfFloat.HalfMagnitude;
    HalfFloat.Extremes();
    HalfFloat.HalfOrder(0, g);
  }

  lemma {:induction false} IntegerText(negative: bool, n: nat)
    ensures Meaning(Sign(negative) + Chars(DigitsOf(n))) == Real(negative, n as real)
  {
    hide DigitsOf, BodyMeaning, Meaning, Power, Number;
    DigitsOfIs(n);
    IntegerMeans(DigitsOf(n));
    CharIsNoSign(DigitsOf(n)[0]);
    Signed(negative, Chars(DigitsOf(n)));
    PowerZero(10);
  }

  lemma {:induction false} CharIsNoSign(d: Digit)
    ensures Char(d) != '-'
  {
  }

  // ------------------------------------------------------------ reading back

  lemma {:induction false} Spread(n: nat, e: int)
    requires 0 < n < 0x800
    ensures HalfFloat.Scaled(n - 1, e) == HalfFloat.Scaled(n, e) - Power(2, e)
    ensures HalfFloat.Scaled(n + 1, e) == HalfFloat.Scaled(n, e) + Power(2, e)
    ensures 0.0 < HalfFloat.Scaled(n, e) < 2048.0 * Power(2, e)
  {
    hide Power;
    var u := Power(2, e);
    assert (0x800 - n) as real * u > 0.0;
  }

  /** Halves up to the smallest normal are as far apart as the smallest. */
  lemma {:induction false} ApartLow(g: nat)
    requires 0 < g <= 0x400
    ensures 4096.0 * (HalfFloat.HalfMagnitude(g) - HalfFloat.HalfMagnitude(g - 1)) > HalfFloat.HalfMagnitude(g) > 0.0
    ensures 4096.0 * (HalfFloat.HalfMagnitude(g + 1) - HalfFloat.HalfMagnitude(g)) > HalfFloat.HalfMagnitude(g)
  {
    hide HalfFloat.HalfMagnitude, HalfFloat.Scaled, Power;
    HalfFloat.HalfLow(g - 1);
    HalfFloat.HalfLow(g);
    HalfFloat.HalfLow(g + 1);
    Spread(g, -24);
  }

  /** Below the first of an exponent the next half is half as far. */
  lemma {:induction false} ApartFirst(e: nat)
    requires 1 < e
    ensures var g := e * 0x400;
      && 4096.0 * (HalfFloat.HalfMagnitude(g) - HalfFloat.HalfMagnitude(g - 1)) > HalfFloat.HalfMagnitude(g) > 0.0
      && 4096.0 * (HalfFloat.HalfMagnitude(g + 1) - HalfFloat.HalfMagnitude(g)) > HalfFloat.HalfMagnitude(g)
  {
    hide HalfFloat.HalfMagnitude, HalfFloat.Scaled, Power;
    HalfFloat.HalfLine(e, 0);
    HalfFloat.HalfLine(e, 1);
    HalfFloat.HalfLine(e - 1, 0x3ff);
    HalfFloat.ScaledTwice(0x400, e as int - 26);
    HalfFloat.DoubleScaled(0x400, e as int - 26);
    TopStep(e as int - 26);
    Spread(0x400, e as int - 25);
    PowerNext(2, e as int - 26);
  }

  lemma {:induction false} TopStep(e: int)
    ensures HalfFloat.Scaled(0x7ff, e) == HalfFloat.Scaled(0x800, e) - Power(2, e)
  {
    hide Power;
  }

  lemma {:induction false} ApartWithin(e: nat, t: nat)
    requires 1 <= e && 0 < t < 0x400
    ensures var g := e * 0x400 + t;
      && 4096.0 * (HalfFloat.HalfMagnitude(g) - HalfFloat.HalfMagnitude(g - 1)) > HalfFloat.HalfMagnitude(g) > 0.0
      && 4096.0 * (HalfFloat.HalfMagnitude(g + 1) - HalfFloat.HalfMagnitude(g)) > HalfFloat.HalfMagnitude(g)
  {
    hide HalfFloat.HalfMagnitude, HalfFloat.Scaled, Power;
    HalfFloat.HalfLine(e, t - 1);
    HalfFloat.HalfLine(e, t);
    HalfFloat.HalfLine(e, t + 1);
    Spread(0x400 + t, e as int - 25);
  }

  /** The halves beside a half are further from it than a part in 2^12. */
  lemma {:induction false} Apart(g: nat)
    requires g > 0
    ensures 4096.0 * (HalfFloat.HalfMagnitude(g) - HalfFloat.HalfMagnitude(g - 1)) > HalfFloat.HalfMagnitude(g) > 0.0
    ensures 4096.0 * (HalfFloat.HalfMagnitude(g + 1) - HalfFloat.HalfMagnitude(g)) > HalfFloat.HalfMagnitude(g)
  {
    hide HalfFloat.HalfMagnitude;
    var (e, t) := (g / 0x400, g % 0x400);
    assert g == e * 0x400 + t;
    if g <= 0x400 { ApartLow(g); } else if t == 0 { ApartFirst(e); } else { ApartWithin(e, t); }
  }

  /** What lies within a part in 2^13 of a half rounds to it. */
  lemma {:induction false} NearRounds(g: nat, y: real)
    requires g < HalfFloat.INFINITY && 8192.0 * HalfFloat.Gap(HalfFloat.HalfMagnitude(g), y) <= HalfFloat.HalfMagnitude(g)
    ensures HalfFloat.RoundsTo(y, g)
  {
    hide HalfFloat.HalfMagnitude;
    HalfFloat.Extremes();
    if g == 0 { HalfPositive(1); } else { Apart(g); }
  }

  /** Six digits are enough: the half nearest to the number a half's text denotes
      is that half, whatever its exponent, subnormals and zeros included. */
  lemma {:induction false} TextRoundsBack(half: nat)
    requires half < 0x1_0000 && half % 0x8000 < HalfFloat.INFINITY
    ensures var m := Meaning(Text(half >= 0x8000, half % 0x8000));
      m.negative == (half >= 0x8000) && HalfFloat.RoundsTo(m.magnitude, half % 0x8000)
  {
    hide Text, Meaning, HalfFloat.HalfMagnitude, HalfFloat.RoundsTo;
    TextIsNear(half >= 0x8000, half % 0x8000);
    NearRounds(half % 0x8000, Meaning(Text(half >= 0x8000, half % 0x8000)).magnitude);
  }

  /** Also when it is read as a float first, which rounds: any float of its sign
      within a part in 2^16 narrows to the half, bit for bit. */
  lemma {:induction false} TextReadsBack(half: nat, single: nat)
    requires half < 0x1_0000 && half % 0x8000 < HalfFloat.INFINITY && single < 0x1_0000_0000 && HalfFloat.SingleFinite(single)
    requires var m := Meaning(Text(half >= 0x8000, half % 0x8000));
      HalfFloat.SingleNegative(single) == m.negative
      && 65536.0 * HalfFloat.Gap(m.magnitude, HalfFloat.SingleMagnitude(single)) <= m.magnitude
    ensures HalfFloat.FromF32(single) == half
  {
    hide Text, Meaning, HalfFloat.HalfMagnitude, HalfFloat.RoundsTo, HalfFloat.SingleMagnitude, HalfFloat.Narrowed, HalfFloat.FromF32,
      HalfFloat.SingleNegative;
    var (g, x) := (half % 0x8000, HalfFloat.SingleMagnitude(single));
    TextIsNear(half >= 0x8000, g);
    NearRounds(g, x);
    HalfFloat.FromF32Rounds(single);
    HalfFloat.RoundsMonotone(x, g, x, HalfFloat.Narrowed(single));
    HalfFloat.RoundsMonotone(x, HalfFloat.Narrowed(single), x, g);
    FromF32Parts(single);
  }

  lemma {:induction false} FromF32Parts(single: nat)
    ensures HalfFloat.FromF32(single) == (if HalfFloat.SingleNegative(single) then 0x8000 else 0) + HalfFloat.Narrowed(single)
  {
  }
}
