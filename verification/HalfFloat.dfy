/** Conversion between 32-bit floats and halves, on their bits:
    `layerstack/src/half.rs`. */
module HalfFloat {
  import opened Powers
  import opened Rounding

  const INFINITY: nat := 0x7c00

  // ------------------------------------------------------- what bits stand for

  function SingleExponent(bits: nat): nat { bits / 0x80_0000 % 0x100 }

  function SingleMantissa(bits: nat): nat { bits % 0x80_0000 }

  function SingleNegative(bits: nat): bool { bits / 0x8000_0000 % 2 == 1 }

  predicate SingleFinite(bits: nat) { SingleExponent(bits) < 0xff }

  predicate SingleNaN(bits: nat) { SingleExponent(bits) == 0xff && SingleMantissa(bits) != 0 }

  /** `n * 2^e` */
  function Scaled(n: nat, e: int): real { n as real * Power(2, e) }

  /** The magnitude of a finite float (section 3.4 of IEEE 754-2019). */
  function SingleMagnitude(bits: nat): real {
    var (e, m) := (SingleExponent(bits), SingleMantissa(bits));
    if e == 0 then Scaled(m, -149) else Scaled(0x80_0000 + m, e as int - 150)
  }

  /** The magnitude of the half whose bits below the sign are `g`; at infinity,
      the number that would come next. */
  function HalfMagnitude(g: nat): real {
    var (e, m) := (g / 0x400, g % 0x400);
    if e == 0 then Scaled(m, -24) else Scaled(0x400 + m, e as int - 25)
  }

  // ------------------------------------------------------------- conversions

  /** An odd quotient adds one to what a half less one adds before the shift. */
  function AddAndShift(n: nat, shift: nat): nat
    requires shift > 0
  {
    (n + Pow(2, shift - 1) - 1 + n / Pow(2, shift) % 2) / Pow(2, shift)
  }

  /** The bits below the sign. */
  function Narrowed(bits: nat): nat {
    var (exponent, mantissa) := (SingleExponent(bits) as int - 112, SingleMantissa(bits));
    if exponent <= 0 then
      if exponent < -10 then 0 else AddAndShift(mantissa + 0x80_0000, 14 - exponent)
    else if exponent == 0xff - 112 then
      if mantissa == 0 then INFINITY
      else
        var top := mantissa / 0x2000;
        INFINITY + if top == 0 then 1 else top
    else
      var rounded := mantissa + 0xfff + mantissa / 0x2000 % 2;
      var (e, r) := if rounded >= 0x80_0000 then (exponent + 1, 0) else (exponent, rounded);
      if e > 30 then INFINITY else e * 0x400 + r / 0x2000
  }

  function FromF32(bits: nat): nat { (if SingleNegative(bits) then 0x8000 else 0) + Narrowed(bits) }

  /** The position of the highest bit. */
  function HighestBit(n: nat): nat
    requires n > 0
  {
    if n == 1 then 0 else 1 + HighestBit(n / 2)
  }

  /** The bits of the float `m * 2^-24`, normal for every `m` of ten bits. */
  function Subnormal(m: nat): nat
    requires m < 0x400
  {
    if m == 0 then 0
    else
      HighestBitIs(m);
      TenBits(m);
      var k := HighestBit(m);
      (103 + k) * 0x80_0000 + (m * Pow(2, 23 - k) - 0x80_0000)
  }

  /** The float a half widens to. */
  function ToF32(half: nat): nat {
    var (exponent, mantissa) := (half / 0x400 % 0x20, half % 0x400);
    var magnitude :=
      if exponent == 0 then Subnormal(mantissa)
      else if exponent == 0x1f then 0x7f80_0000 + mantissa * 0x2000
      else (exponent + 112) * 0x80_0000 + mantissa * 0x2000;
    (if half / 0x8000 % 2 == 1 then 0x8000_0000 else 0) + magnitude
  }

  lemma {:induction false} HighestBitIs(n: nat)
    requires n > 0
    ensures Pow(2, HighestBit(n)) <= n < 2 * Pow(2, HighestBit(n))
  {
    if n > 1 {
      HighestBitIs(n / 2);
      PowNext(2, HighestBit(n / 2));
    }
  }

  lemma {:induction false} TenBits(m: nat)
    requires 0 < m < 0x400
    ensures HighestBit(m) < 10
    ensures 0x80_0000 <= m * Pow(2, 23 - HighestBit(m)) < 0x100_0000
  {
    HighestBitIs(m);
    var k := HighestBit(m);
    assert Pow(2, 10) == 0x400;
    if k >= 10 { PowUp(2, 10, k); }
    PowSum(2, k, 23 - k);
    TwentyThree();
    Times(Pow(2, k), m, Pow(2, 23 - k));
    Times(m + 1, 2 * Pow(2, k), Pow(2, 23 - k));
    Associate(2, Pow(2, k), Pow(2, 23 - k));
  }

  lemma {:induction false} TwentyThree()
    ensures Pow(2, 23) == 0x80_0000 && Pow(2, 13) == 0x2000
  {
    assert Pow(2, 13) == 0x2000 && Pow(2, 10) == 0x400;
    PowSum(2, 10, 13);
  }

  lemma {:induction false} Times(a: nat, b: nat, c: nat)
    ensures a <= b ==> a * c <= b * c
    ensures (a + 1) * c == a * c + c
  {
    if a < b { Below(a, b, c); }
  }

  // ------------------------------------------------------- add and shift

  lemma {:induction false} QuotientIs(n: nat, q: nat, r: nat, d: nat)
    requires n == q * d + r && r < d
    ensures n / d == q
  {
    MultipleRest(q, d, r);
  }

  /** Adding half less one, and one more for an odd quotient, before the shift is
      rounding half to even, for every significand and shift. */
  lemma {:induction false} AddAndShiftRounds(n: nat, shift: nat)
    requires shift > 0
    ensures AddAndShift(n, shift) == HalfEven(n, Pow(2, shift))
  {
    hide Pow, HalfEven;
    PowNext(2, shift - 1);
    var q, r := Split(n, Pow(2, shift));
    ShiftParts(q, r, Pow(2, shift - 1));
  }

  lemma {:induction false} ShiftParts(q: nat, r: nat, half: nat)
    requires half > 0 && r < 2 * half
    ensures var n := q * (2 * half) + r;
      (n + half - 1 + n / (2 * half) % 2) / (2 * half) == HalfEven(n, 2 * half)
  {
    hide HalfEven;
    var d := 2 * half;
    var n := q * d + r;
    QuotientIs(n, q, r, d);
    HalfEvenIs(n, d, q, r);
    var sum := r + half - 1 + q % 2;
    Times(q, q, d);
    if sum < d { QuotientIs(q * d + sum, q, sum, d); } else { QuotientIs((q + 1) * d + (sum - d), q + 1, sum - d, d); }
  }

  /** For a normal half the bits are the exponent field plus the rounded mantissa,
      so that 1024 steps of the mantissa are one of the exponent. */
  lemma {:induction false} NarrowedNormal(bits: nat)
    requires 112 < SingleExponent(bits) < 0xff
    ensures var g := (SingleExponent(bits) - 112) * 0x400 + HalfEven(SingleMantissa(bits), 0x2000);
      Narrowed(bits) == if g < INFINITY then g else INFINITY
  {
    hide HalfEven;
    TwentyThree();
    var m := SingleMantissa(bits);
    AddAndShiftRounds(m, 13);
    assert Pow(2, 12) == 0x1000;
    assert AddAndShift(m, 13) == (m + 0xfff + m / 0x2000 % 2) / 0x2000;
  }

  // ------------------------------------------------------ the line of halves

  lemma {:induction false} ScaledUp(n: nat, k: nat, e: int)
    ensures Scaled(n * Pow(2, k), e) == Scaled(n, e + k)
  {
    hide Power, Pow;
    PowerSum(2, k, e);
    TwoPower(k);
    var (a, b) := (Pow(2, k) as real, Power(2, e));
    assert (n * Pow(2, k)) as real == n as real * a;
    assert n as real * a * b == n as real * (a * b);
  }

  lemma {:induction false} TwoPower(e: nat)
    ensures Power(2, e) == Pow(2, e) as real
  {
  }

  lemma {:induction false} ScaledTwice(n: nat, e: int)
    ensures Scaled(2 * n, e) == Scaled(n, e + 1)
  {
    hide Scaled;
    ScaledUp(n, 1, e);
    assert Pow(2, 1) == 2;
    assert n * Pow(2, 1) == 2 * n;
  }

  /** Multiples of one power of two compare as their multipliers. */
  lemma {:induction false} ScaledCompares(a: int, b: int, e: int)
    ensures a as real * Power(2, e) < b as real * Power(2, e) <==> a < b
  {
    hide Power;
    var u := Power(2, e);
    assert (b - a) as real == b as real - a as real;
    assert (b as real - a as real) * u == b as real * u - a as real * u;
    SignOf((b - a) as real, u);
  }

  lemma {:induction false} SignOf(x: real, u: real)
    requires u > 0.0
    ensures x * u > 0.0 <==> x > 0.0
  {
    if x <= 0.0 { assert (-x) * u >= 0.0; assert (-x) * u == -(x * u); }
  }

  /** From the first of its exponent to the first of the next, halves are equally
      spaced. */
  lemma {:induction false} HalfLine(e: nat, t: nat)
    requires e >= 1 && t <= 0x400
    ensures HalfMagnitude(e * 0x400 + t) == Scaled(0x400 + t, e as int - 25)
  {
    hide Scaled;
    if t == 0x400 { ScaledTwice(0x400, e as int - 25); }
  }

  /** So are those up to twice the smallest normal. */
  lemma {:induction false} HalfLow(t: nat)
    requires t <= 0x800
    ensures HalfMagnitude(t) == Scaled(t, -24)
  {
    hide Scaled;
    if t >= 0x400 { HalfLine(1, t - 0x400); }
  }

  lemma {:induction false} HalfNext(g: nat)
    ensures HalfMagnitude(g) < HalfMagnitude(g + 1)
  {
    hide HalfMagnitude, Power;
    if g < 0x400 {
      HalfLow(g);
      HalfLow(g + 1);
      ScaledCompares(g, g + 1, -24);
    } else {
      var (e, t) := (g / 0x400, g % 0x400);
      HalfLine(e, t);
      HalfLine(e, t + 1);
      ScaledCompares(0x400 + t, 0x400 + t + 1, e as int - 25);
    }
  }

  lemma {:induction false} HalfOrder(g: nat, h: nat)
    requires g < h
    ensures HalfMagnitude(g) < HalfMagnitude(h)
    decreases h
  {
    hide HalfMagnitude;
    HalfNext(h - 1);
    if g < h - 1 { HalfOrder(g, h - 1); }
  }

  // --------------------------------------------------------- round to nearest

  /** `g` is the half nearest to `x`, the even one where two are, and infinity
      where the half after the largest would be it. */
  ghost predicate RoundsTo(x: real, g: nat) {
    && g <= INFINITY
    && (g > 0 ==> HalfMagnitude(g - 1) + HalfMagnitude(g) <= 2.0 * x)
    && (g > 0 && HalfMagnitude(g - 1) + HalfMagnitude(g) == 2.0 * x ==> g % 2 == 0)
    && (g < INFINITY ==> 2.0 * x <= HalfMagnitude(g) + HalfMagnitude(g + 1))
    && (g < INFINITY && 2.0 * x == HalfMagnitude(g) + HalfMagnitude(g + 1) ==> g % 2 == 0)
  }

  function Gap(x: real, y: real): real { if x <= y then y - x else x - y }

  /** No finite half is nearer, and only an even one has one as near. */
  lemma {:induction false} RoundsToNearest(x: real, g: nat, h: nat)
    requires RoundsTo(x, g) && g < INFINITY && h < INFINITY
    ensures Gap(x, HalfMagnitude(g)) <= Gap(x, HalfMagnitude(h))
    ensures g != h && Gap(x, HalfMagnitude(g)) == Gap(x, HalfMagnitude(h)) ==> g % 2 == 0
  {
    hide HalfMagnitude;
    if h < g {
      HalfOrder(h, g);
      if h < g - 1 { HalfOrder(h, g - 1); }
    } else if g < h {
      HalfOrder(g, h);
      if g + 1 < h { HalfOrder(g + 1, h); }
    }
  }

  lemma {:induction false} Extremes()
    ensures HalfMagnitude(INFINITY - 1) + HalfMagnitude(INFINITY) == 131040.0
    ensures HalfMagnitude(0) == 0.0
  {
    assert Pow(2, 5) == 32 && Pow(2, 6) == 64;
    assert HalfMagnitude(INFINITY - 1) == Scaled(0x7ff, 5) == 65504.0;
    assert HalfMagnitude(INFINITY) == Scaled(0x400, 6) == 65536.0;
  }

  /** Infinity stands for the numbers from 65520 up. */
  lemma {:induction false} OverflowsFrom(x: real, g: nat)
    requires RoundsTo(x, g)
    ensures g == INFINITY <==> x >= 65520.0
  {
    hide HalfMagnitude;
    Extremes();
    if g < INFINITY - 1 {
      HalfOrder(g, INFINITY - 1);
      HalfOrder(g + 1, INFINITY);
    }
  }

  /** Rounding is monotone; so a number rounds to one half only. */
  lemma {:induction false} RoundsMonotone(x: real, g: nat, y: real, h: nat)
    requires RoundsTo(x, g) && RoundsTo(y, h) && x <= y
    ensures g <= h
  {
    hide HalfMagnitude;
    if h < g {
      if h < g - 1 {
        HalfOrder(h, g - 1);
        HalfOrder(h + 1, g);
      }
    }
  }

  /** A float between two multiples of a unit rounds as its significand does. */
  lemma {:induction false} RoundsOnLine(s: nat, shift: nat, e: int, h: nat)
    requires h == HalfEven(s, Pow(2, shift))
    ensures h > 0 ==> Scaled(h - 1, e + shift) + Scaled(h, e + shift) <= 2.0 * Scaled(s, e)
    ensures h > 0 && Scaled(h - 1, e + shift) + Scaled(h, e + shift) == 2.0 * Scaled(s, e) ==> h % 2 == 0
    ensures 2.0 * Scaled(s, e) <= Scaled(h, e + shift) + Scaled(h + 1, e + shift)
    ensures 2.0 * Scaled(s, e) == Scaled(h, e + shift) + Scaled(h + 1, e + shift) ==> h % 2 == 0
  {
    hide HalfEven, Pow;
    var d := Pow(2, shift);
    HalfEvenNearest(s, d);
    Next(h, d);
    SumScaled(h, shift, e);
    if h > 0 {
      Next(h - 1, d);
      SumScaled(h - 1, shift, e);
      CompareTwice(s, (h - 1) * d + h * d, e);
    }
    CompareTwice(s, h * d + (h + 1) * d, e);
  }

  lemma {:induction false} SumScaled(h: nat, shift: nat, e: int)
    ensures Scaled(h, e + shift) + Scaled(h + 1, e + shift) == Scaled(h * Pow(2, shift) + (h + 1) * Pow(2, shift), e)
  {
    hide Pow, Power;
    ScaledUp(h, shift, e);
    ScaledUp(h + 1, shift, e);
    var (a, b) := (h * Pow(2, shift), (h + 1) * Pow(2, shift));
    assert (a + b) as real == a as real + b as real;
    assert (a as real + b as real) * Power(2, e) == a as real * Power(2, e) + b as real * Power(2, e);
  }

  lemma {:induction false} CompareTwice(s: nat, n: nat, e: int)
    ensures 2.0 * Scaled(s, e) < Scaled(n, e) <==> 2 * s < n
    ensures 2.0 * Scaled(s, e) > Scaled(n, e) <==> 2 * s > n
  {
    hide Power;
    ScaledCompares(2 * s, n, e);
    ScaledCompares(n, 2 * s, e);
    assert (2 * s) as real == 2.0 * s as real;
    assert 2.0 * s as real * Power(2, e) == 2.0 * (s as real * Power(2, e));
  }

  // ------------------------------------------------------------ from a float

  lemma {:induction false} SingleFields(bits: nat)
    ensures SingleMantissa(bits) < 0x80_0000 && SingleExponent(bits) < 0x100
  {
  }

  lemma {:induction false} RoundedMantissa(m: nat)
    requires m < 0x80_0000
    ensures HalfEven(m, 0x2000) <= 0x400 && HalfEven(0x80_0000 + m, 0x2000) == 0x400 + HalfEven(m, 0x2000)
  {
    var q, r := Split(m, 0x2000);
    HalfEvenIs(m, 0x2000, q, r);
    HalfEvenIs(0x80_0000 + m, 0x2000, 0x400 + q, r);
  }

  /** Below the first of an exponent come halves spaced no wider. */
  lemma {:induction false} BelowLine(e: nat)
    requires e >= 1
    ensures HalfMagnitude(e * 0x400 - 1) < HalfMagnitude(e * 0x400) == Scaled(0x400, e as int - 25)
    ensures HalfMagnitude(e * 0x400 + 0x400) == Scaled(0x800, e as int - 25)
  {
    hide HalfMagnitude, Scaled;
    HalfNext(e * 0x400 - 1);
    HalfLine(e, 0);
    HalfLine(e, 0x400);
  }

  lemma {:induction false} ScaledOrder(a: nat, b: nat, e: int)
    ensures Scaled(a, e) < Scaled(b, e) <==> a < b
    ensures Scaled(a, e) == Scaled(b, e) <==> a == b
  {
    hide Power;
    ScaledCompares(a, b, e);
    ScaledCompares(b, a, e);
  }

  /** The significand of a normal float in units of the half it rounds to. */
  lemma {:induction false} NormalMagnitude(bits: nat)
    requires 0 < SingleExponent(bits) < 0xff
    ensures SingleMagnitude(bits) == Scaled(0x80_0000 + SingleMantissa(bits), SingleExponent(bits) as int - 150)
    ensures Scaled(0x400, SingleExponent(bits) as int - 137) <= SingleMagnitude(bits) < Scaled(0x800, SingleExponent(bits) as int - 137)
  {
    hide Scaled;
    var e := SingleExponent(bits) as int - 150;
    SingleFields(bits);
    TwentyThree();
    ScaledUp(0x400, 13, e);
    ScaledUp(0x800, 13, e);
    ScaledOrder(0x80_0000 + SingleMantissa(bits), 0x100_0000, e);
    ScaledOrder(0x80_0000 + SingleMantissa(bits), 0x80_0000, e);
  }

  /** A float of a normal half's exponent. */
  lemma {:induction false} NormalRounds(bits: nat)
    requires 112 < SingleExponent(bits) <= 142
    ensures RoundsTo(SingleMagnitude(bits), Narrowed(bits))
  {
    hide HalfMagnitude, Scaled, HalfEven, SingleMagnitude, Narrowed, SingleMantissa;
    var (e, m) := (SingleExponent(bits) - 112, SingleMantissa(bits));
    SingleFields(bits);
    NarrowedNormal(bits);
    NormalMagnitude(bits);
    RoundedMantissa(m);
    var t := HalfEven(m, 0x2000);
    TwentyThree();
    RoundsOnLine(0x80_0000 + m, 13, e as int - 38, 0x400 + t);
    BelowLine(e);
    LineAround(e, t);
    NormalSides(SingleMagnitude(bits), e, t);
  }

  lemma {:induction false} LineAround(e: nat, t: nat)
    requires e >= 1 && t <= 0x400
    ensures HalfMagnitude(e * 0x400 + t) == Scaled(0x400 + t, e as int - 25)
    ensures t > 0 ==> HalfMagnitude(e * 0x400 + t - 1) == Scaled(0x400 + t - 1, e as int - 25)
    ensures t < 0x400 ==> HalfMagnitude(e * 0x400 + t + 1) == Scaled(0x400 + t + 1, e as int - 25)
  {
    hide HalfMagnitude, Scaled;
    HalfLine(e, t);
    if t > 0 { HalfLine(e, t - 1); }
    if t < 0x400 { HalfLine(e, t + 1); }
  }

  lemma {:induction false} NormalSides(x: real, e: nat, t: nat)
    requires 1 <= e <= 30 && t <= 0x400
    requires Scaled(0x400, e as int - 25) <= x < Scaled(0x800, e as int - 25)
    requires var (g, u) := (0x400 + t, e as int - 25);
      && Scaled(g - 1, u) + Scaled(g, u) <= 2.0 * x && (Scaled(g - 1, u) + Scaled(g, u) == 2.0 * x ==> g % 2 == 0)
      && 2.0 * x <= Scaled(g, u) + Scaled(g + 1, u) && (2.0 * x == Scaled(g, u) + Scaled(g + 1, u) ==> g % 2 == 0)
    ensures RoundsTo(x, e * 0x400 + t)
  {
    hide HalfMagnitude, Scaled;
    BelowLine(e);
    LineAround(e, t);
    HalfNext(e * 0x400 + t);
  }

  /** A float of a subnormal half, which may round to the smallest normal. */
  lemma {:induction false} SubnormalRounds(bits: nat)
    requires 102 <= SingleExponent(bits) <= 112
    ensures RoundsTo(SingleMagnitude(bits), Narrowed(bits))
  {
    hide HalfMagnitude, Scaled, HalfEven, AddAndShift, SingleMantissa;
    var (e, s) := (SingleExponent(bits) as int - 150, 0x80_0000 + SingleMantissa(bits));
    SingleFields(bits);
    var shift: nat := -24 - e;
    AddAndShiftRounds(s, shift);
    var h := HalfEven(s, Pow(2, shift));
    RoundsOnLine(s, shift, e, h);
    SubnormalBound(s, shift);
    HalfLow(h);
    HalfLow(h + 1);
    if h > 0 { HalfLow(h - 1); }
  }

  lemma {:induction false} SubnormalBound(s: nat, shift: nat)
    requires s < 0x100_0000 && shift >= 14
    ensures HalfEven(s, Pow(2, shift)) <= 0x400
  {
    hide Pow, HalfEven;
    PowUp(2, 14, shift);
    TwentyThree();
    PowNext(2, 13);
    var d := Pow(2, shift);
    var q, r := Split(s, d);
    HalfEvenIs(s, d, q, r);
    Times(0x400, q, d);
    Times(0x4000, d, 0x400);
  }

  lemma {:induction false} ScaledLess(n: nat, k: nat, e: int, f: int)
    requires n < Pow(2, k) && e + k <= f
    ensures Scaled(n, e) < Scaled(1, f)
  {
    hide Pow, Power;
    PowSum(2, k, f - e - k);
    ScaledUp(1, f - e, e);
    PowUp(2, k, f - e);
    ScaledOrder(n, Pow(2, f - e), e);
    assert 1 * Pow(2, f - e) == Pow(2, f - e);
  }

  /** A float below half of the smallest half. */
  lemma {:induction false} TinyRounds(bits: nat)
    requires SingleExponent(bits) < 102
    ensures RoundsTo(SingleMagnitude(bits), 0) && Narrowed(bits) == 0
  {
    hide HalfMagnitude, Scaled, Pow;
    SingleFields(bits);
    TwentyThree();
    PowNext(2, 23);
    var (e, m) := (SingleExponent(bits), SingleMantissa(bits));
    if e == 0 { ScaledLess(m, 23, -149, -25); } else { ScaledLess(0x80_0000 + m, 24, e as int - 150, -25); }
    ScaledTwice(1, -25);
    DoubleScaled(1, -25);
    HalfLow(0);
    HalfLow(1);
    Extremes();
  }

  lemma {:induction false} DoubleScaled(n: nat, e: int)
    ensures Scaled(2 * n, e) == 2.0 * Scaled(n, e)
  {
    hide Power;
    assert (2 * n) as real == 2.0 * n as real;
    assert 2.0 * n as real * Power(2, e) == 2.0 * (n as real * Power(2, e));
  }

  /** A float past the halves. */
  lemma {:induction false} LargeRounds(bits: nat)
    requires 142 < SingleExponent(bits) < 0xff
    ensures RoundsTo(SingleMagnitude(bits), INFINITY) && Narrowed(bits) == INFINITY
  {
    hide HalfMagnitude, Scaled, HalfEven, SingleMagnitude, Narrowed;
    NarrowedNormal(bits);
    NormalMagnitude(bits);
    var e := SingleExponent(bits) - 112;
    HalfLine(e, 0);
    if e > 31 { HalfOrder(INFINITY, e * 0x400); }
    HalfNext(INFINITY - 1);
  }

  /** Every finite float narrows to the nearest half, ties to even, and keeps its
      sign. */
  lemma {:induction false} FromF32Rounds(bits: nat)
    requires SingleFinite(bits)
    ensures RoundsTo(SingleMagnitude(bits), Narrowed(bits))
    ensures FromF32(bits) % 0x8000 == Narrowed(bits) && (FromF32(bits) >= 0x8000 <==> SingleNegative(bits))
  {
    hide RoundsTo, SingleMagnitude, Narrowed;
    var e := SingleExponent(bits);
    if e < 102 { TinyRounds(bits); }
    else if e <= 112 { SubnormalRounds(bits); }
    else if e <= 142 { NormalRounds(bits); }
    else { LargeRounds(bits); }
    AtMostInfinity(SingleMagnitude(bits), Narrowed(bits));
  }

  lemma {:induction false} AtMostInfinity(x: real, g: nat)
    requires RoundsTo(x, g)
    ensures g <= INFINITY
  {
  }

  function Signed(negative: bool, magnitude: real): real { if negative then -magnitude else magnitude }

  /** The number a finite float stands for. */
  function SingleValue(bits: nat): real { Signed(SingleNegative(bits), SingleMagnitude(bits)) }

  /** The number a half stands for, infinities as 65536. */
  function HalfValue(half: nat): real { Signed(half >= 0x8000, HalfMagnitude(half % 0x8000)) }

  lemma {:induction false} MagnitudesMonotone(a: nat, b: nat)
    requires SingleFinite(a) && SingleFinite(b) && SingleMagnitude(a) <= SingleMagnitude(b)
    ensures Narrowed(a) <= Narrowed(b) && HalfMagnitude(Narrowed(a)) <= HalfMagnitude(Narrowed(b))
  {
    hide RoundsTo, SingleMagnitude, Narrowed, HalfMagnitude;
    FromF32Rounds(a);
    FromF32Rounds(b);
    RoundsMonotone(SingleMagnitude(a), Narrowed(a), SingleMagnitude(b), Narrowed(b));
    if Narrowed(a) < Narrowed(b) { HalfOrder(Narrowed(a), Narrowed(b)); }
  }

  lemma {:induction false} NotBelowZero(bits: nat)
    requires SingleFinite(bits)
    ensures SingleMagnitude(bits) >= 0.0 && HalfMagnitude(Narrowed(bits)) >= 0.0
    ensures SingleMagnitude(bits) == 0.0 ==> HalfMagnitude(Narrowed(bits)) == 0.0
  {
    hide RoundsTo, Narrowed, HalfMagnitude, Power;
    FromF32Rounds(bits);
    var g := Narrowed(bits);
    Extremes();
    if g > 0 {
      HalfOrder(0, g);
      if SingleMagnitude(bits) == 0.0 { ZeroRounds(g); }
    }
  }

  lemma {:induction false} ZeroRounds(g: nat)
    requires RoundsTo(0.0, g)
    ensures g == 0
  {
    hide HalfMagnitude;
    Extremes();
    if g > 0 {
      HalfOrder(0, g);
      if g > 1 { HalfOrder(0, g - 1); }
    }
  }

  /** Narrowing is monotone, signs included, and overflows from 65520 up. */
  lemma {:induction false} FromF32Monotone(a: nat, b: nat)
    requires SingleFinite(a) && SingleFinite(b)
    ensures SingleMagnitude(a) <= SingleMagnitude(b) ==> Narrowed(a) <= Narrowed(b)
    ensures SingleValue(a) <= SingleValue(b) ==> HalfValue(FromF32(a)) <= HalfValue(FromF32(b))
    ensures Narrowed(a) == INFINITY <==> SingleMagnitude(a) >= 65520.0
  {
    hide RoundsTo, SingleMagnitude, Narrowed, HalfMagnitude, SingleNegative, FromF32;
    FromF32Rounds(a);
    FromF32Rounds(b);
    OverflowsFrom(SingleMagnitude(a), Narrowed(a));
    NotBelowZero(a);
    NotBelowZero(b);
    if SingleMagnitude(a) <= SingleMagnitude(b) { MagnitudesMonotone(a, b); }
    if SingleMagnitude(b) <= SingleMagnitude(a) { MagnitudesMonotone(b, a); }
  }

  /** Infinities and NaNs stay what they are; a NaN keeps the part of its
      significand that fits, unless that part is zero. */
  lemma {:induction false} SpecialsNarrow(bits: nat)
    requires !SingleFinite(bits)
    ensures SingleNaN(bits) <==> Narrowed(bits) > INFINITY
    ensures SingleMantissa(bits) / 0x2000 != 0 ==> Narrowed(bits) == INFINITY + SingleMantissa(bits) / 0x2000
    ensures Narrowed(bits) < 0x8000
  {
  }

  // -------------------------------------------------------------- to a float

  /** The fields of a float put together from them. */
  lemma {:induction false} FieldsOf(negative: bool, e: nat, m: nat)
    requires e < 0x100 && m < 0x80_0000
    ensures var bits := (if negative then 0x8000_0000 else 0) + (e * 0x80_0000 + m);
      SingleExponent(bits) == e && SingleMantissa(bits) == m && (SingleNegative(bits) <==> negative)
  {
  }

  /** Widening gives a float of these fields. */
  lemma {:induction false} ToF32Fields(half: nat)
    requires half < 0x1_0000
    ensures var (e, m, bits) := (half / 0x400 % 0x20, half % 0x400, ToF32(half));
      && (SingleNegative(bits) <==> half >= 0x8000)
      && (0 < e ==> SingleMantissa(bits) == m * 0x2000 && SingleExponent(bits) == if e == 0x1f then 0xff else e + 112)
      && (e == 0 && m == 0 ==> SingleExponent(bits) == 0 && SingleMantissa(bits) == 0)
      && (e == 0 && m > 0 ==>
        HighestBit(m) < 10 && SingleExponent(bits) == 103 + HighestBit(m)
        && 0x80_0000 + SingleMantissa(bits) == m * Pow(2, 23 - HighestBit(m)))
  {
    hide SingleExponent, SingleMantissa, SingleNegative, Pow, HighestBit;
    var (e, m, negative) := (half / 0x400 % 0x20, half % 0x400, half / 0x8000 % 2 == 1);
    if e > 0 {
      FieldsOf(negative, if e == 0x1f then 0xff else e + 112, m * 0x2000);
    } else if m > 0 {
      TenBits(m);
      FieldsOf(negative, 103 + HighestBit(m), m * Pow(2, 23 - HighestBit(m)) - 0x80_0000);
    } else {
      FieldsOf(negative, 0, 0);
    }
  }

  /** Widening is exact. */
  lemma {:induction false} ToF32Exact(half: nat)
    requires half < 0x1_0000 && half % 0x8000 < INFINITY
    ensures SingleFinite(ToF32(half)) && SingleMagnitude(ToF32(half)) == HalfMagnitude(half % 0x8000)
    ensures SingleNegative(ToF32(half)) <==> half >= 0x8000
  {
    hide Scaled, Pow, HighestBit, ToF32, SingleExponent, SingleMantissa, SingleNegative, SingleMagnitude;
    ToF32Fields(half);
    HalfFields(half);
    var (e, m) := (half / 0x400 % 0x20, half % 0x400);
    WidenedMagnitude(ToF32(half), e, m);
    WidenedFinite(ToF32(half), e, m);
  }

  lemma {:induction false} HalfFields(half: nat)
    requires half < 0x1_0000
    ensures half % 0x8000 / 0x400 == half / 0x400 % 0x20 && half % 0x8000 % 0x400 == half % 0x400
    ensures half % 0x8000 < INFINITY <==> half / 0x400 % 0x20 < 0x1f
  {
  }

  lemma {:induction false} WidenedFinite(bits: nat, e: nat, m: nat)
    requires e < 0x1f
    requires 0 < e ==> SingleExponent(bits) == e + 112
    requires e == 0 && m == 0 ==> SingleExponent(bits) == 0
    requires e == 0 && m > 0 ==> HighestBit(m) < 10 && SingleExponent(bits) == 103 + HighestBit(m)
    ensures SingleFinite(bits)
  {
    hide SingleExponent, HighestBit;
  }

  lemma {:induction false} WidenedMagnitude(bits: nat, e: nat, m: nat)
    requires e < 0x1f && m < 0x400
    requires 0 < e ==> SingleMantissa(bits) == m * 0x2000 && SingleExponent(bits) == e + 112
    requires e == 0 && m == 0 ==> SingleExponent(bits) == 0 && SingleMantissa(bits) == 0
    requires e == 0 && m > 0 ==>
      && HighestBit(m) < 10 && SingleExponent(bits) == 103 + HighestBit(m)
      && 0x80_0000 + SingleMantissa(bits) == m * Pow(2, 23 - HighestBit(m))
    ensures SingleMagnitude(bits) == if e == 0 then Scaled(m, -24) else Scaled(0x400 + m, e as int - 25)
  {
    hide Scaled, Pow, HighestBit, SingleExponent, SingleMantissa;
    if e > 0 {
      ScaledUp(0x400 + m, 13, e as int - 38);
      TwentyThree();
    } else if m > 0 {
      ScaledUp(m, 23 - HighestBit(m), HighestBit(m) - 47);
    } else {
      ScaledZero();
    }
  }

  lemma {:induction false} ScaledZero()
    ensures Scaled(0, -149) == 0.0 && Scaled(0, -24) == 0.0
  {
  }

  /** A half itself is the one half its value rounds to. */
  lemma {:induction false} RoundsToItself(g: nat, h: nat)
    requires RoundsTo(HalfMagnitude(h), g) && h < INFINITY
    ensures g == h
  {
    hide HalfMagnitude;
    if g < h { HalfOrder(g, h); if g + 1 < h { HalfOrder(g + 1, h); } }
    if h < g { HalfOrder(h, g); if h < g - 1 { HalfOrder(h, g - 1); } }
  }

  /** Every half that is no NaN widens and narrows to itself, and a NaN to a NaN
      with its own bits. */
  lemma {:induction false} RoundTrip(half: nat)
    requires half < 0x1_0000
    ensures FromF32(ToF32(half)) == half
  {
    hide HalfMagnitude, SingleMagnitude, RoundsTo, Narrowed, ToF32;
    var g := half % 0x8000;
    ToF32Fields(half);
    if g < INFINITY {
      ToF32Exact(half);
      FromF32Rounds(ToF32(half));
      RoundsToItself(Narrowed(ToF32(half)), g);
    } else {
      SpecialRoundTrip(half);
    }
  }

  lemma {:induction false} SpecialRoundTrip(half: nat)
    requires half < 0x1_0000 && half % 0x8000 >= INFINITY
    ensures Narrowed(ToF32(half)) == half % 0x8000
  {
    hide ToF32, SingleExponent, SingleMantissa, Narrowed;
    ToF32Fields(half);
    HalfFields(half);
    SpecialFields(half);
    SpecialNarrowed(ToF32(half), half % 0x400);
  }

  lemma {:induction false} SpecialFields(half: nat)
    requires half < 0x1_0000 && half % 0x8000 >= INFINITY
    ensures half / 0x400 % 0x20 == 0x1f && half % 0x8000 == INFINITY + half % 0x400
  {
  }

  lemma {:induction false} SpecialNarrowed(bits: nat, m: nat)
    requires SingleExponent(bits) == 0xff && SingleMantissa(bits) == m * 0x2000
    ensures Narrowed(bits) == INFINITY + m
  {
    hide SingleExponent, SingleMantissa;
    assert m * 0x2000 / 0x2000 == m;
  }
}
