/** When the fewest digits of a float can tie: `odd_significand`, `may_tie`,
    `equals_decimal` and the guards of `push_double` and `push_float` in
    `layerstack/src/float_text.rs`. */
module FloatTies {
  import opened Powers

  datatype Option<+T> = None | Some(value: T)

  const U64: nat := 0x1_0000_0000_0000_0000

  /** `k * 2^q` */
  datatype Binary = Binary(k: nat, q: int) {
    function Value(): real { k as real * Power(2, q) }
  }

  function Plus(e: int): nat { if e >= 0 then e else 0 }

  function Minus(e: int): nat { if e >= 0 then 0 else -e }

  predicate EndsInFive(m: nat) { m % 10 == 5 }

  // ------------------------------------------- binary against decimal

  /** A power with its negative exponent cleared. */
  lemma {:induction false} Cleared(b: nat, e: int)
    requires b > 0
    ensures Power(b, e) * Pow(b, Minus(e)) as real == Pow(b, Plus(e)) as real
  {
    if e < 0 {
      assert Power(b, e) == 1.0 / Pow(b, -e) as real;
    }
  }

  lemma {:induction false} Rearranged(k: real, a: real, b: real, x: real, y: real, m: real, c: real, d: real)
    requires k * a == m * c && a * x == b && c * y == d
    ensures k * b * y == m * d * x
  {
    assert k * b * y == k * a * (x * y);
    assert m * d * x == m * c * (x * y);
  }

  /** Equality of a binary and a decimal number, in integers: `n` is how far
      the power of two exceeds the power of ten. */
  lemma {:induction false} InIntegers(k: nat, n: int, m: nat, p: int)
    requires k as real * Power(2, n) == m as real * Power(5, p)
    ensures k * Pow(2, Plus(n)) * Pow(5, Minus(p)) == m * Pow(5, Plus(p)) * Pow(2, Minus(n))
  {
    hide Power, Pow;
    Cleared(2, n);
    Cleared(5, p);
    var (a, b, c, d) := (Pow(2, Plus(n)), Pow(2, Minus(n)), Pow(5, Plus(p)), Pow(5, Minus(p)));
    Rearranged(k as real, Power(2, n), a as real, b as real, d as real, m as real, Power(5, p), c as real);
    assert (k * a * d) as real == k as real * a as real * d as real;
    assert (m * c * b) as real == m as real * c as real * b as real;
  }

  lemma {:induction false} OddTimesOdd(a: nat, b: nat)
    requires a % 2 == 1 && b % 2 == 1
    ensures (a * b) % 2 == 1
  {
    var (x, y) := (a / 2, b / 2);
    assert a * b == 2 * (2 * x * y + x + y) + 1;
  }

  lemma {:induction false} EvenTimes(a: nat, b: nat)
    requires b % 2 == 0
    ensures (a * b) % 2 == 0
  {
    var y := b / 2;
    assert a * b == 2 * (a * y);
  }

  lemma {:induction false} SplitPowers(k: real, q: int, m: real, p: int)
    ensures k * Power(2, q) == m * Power(10, p) <==> k * Power(2, q - p) == m * Power(5, p)
  {
    hide Power;
    PowerSum(2, q - p, p);
    PowerTen(p);
    var (a, b, c) := (Power(2, q - p), Power(2, p), Power(5, p));
    assert k * (a * b) == k * a * b;
    assert m * (b * c) == m * c * b;
    if k * a * b == m * c * b { Cancels(k * a, m * c, b); }
  }

  /** For odd `k` and `m`, `k * 2^q == m * 10^p` only at one place. */
  lemma {:induction false} SameNumber(k: nat, q: int, m: nat, p: int)
    requires k % 2 == 1 && m % 2 == 1
    ensures Binary(k, q).Value() == DecimalValue(m, p) <==> q == p && k * Pow(5, Minus(p)) == m * Pow(5, Plus(p))
  {
    hide Power, Pow, Plus, Minus;
    if Binary(k, q).Value() == DecimalValue(m, p) { SameNumberOnly(k, q, m, p); }
    if q == p && k * Pow(5, Minus(p)) == m * Pow(5, Plus(p)) { SameNumberIf(k, m, p); }
  }

  lemma {:induction false} SameNumberOnly(k: nat, q: int, m: nat, p: int)
    requires k % 2 == 1 && m % 2 == 1 && Binary(k, q).Value() == DecimalValue(m, p)
    ensures q == p && k * Pow(5, Minus(p)) == m * Pow(5, Plus(p))
  {
    hide Power, Pow;
    SplitPowers(k as real, q, m as real, p);
    InIntegers(k, q - p, m, p);
    Parities(k, q - p, m, p);
    PowZero(2);
  }

  lemma {:induction false} SameNumberIf(k: nat, m: nat, p: int)
    requires k * Pow(5, Minus(p)) == m * Pow(5, Plus(p))
    ensures Binary(k, p).Value() == DecimalValue(m, p)
  {
    hide Power, Pow, Plus, Minus;
    SplitPowers(k as real, p, m as real, p);
    PowerZero(2);
    Cleared(5, p);
    var (f, g, w) := (Pow(5, Minus(p)), Pow(5, Plus(p)), Power(5, p));
    assert (k * f) as real == k as real * f as real;
    assert (m * g) as real == m as real * g as real;
    assert m as real * (w * f as real) == m as real * w * f as real;
    Cancels(k as real, m as real * w, f as real);
  }

  lemma {:induction false} PowZero(b: nat)
    ensures Pow(b, 0) == 1
  {
  }

  lemma {:induction false} Reorder(a: nat, b: nat, c: nat)
    ensures a * b * c == a * c * b
  {
  }

  lemma {:induction false} Parities(k: nat, n: int, m: nat, p: int)
    requires k % 2 == 1 && m % 2 == 1
    requires k * Pow(2, Plus(n)) * Pow(5, Minus(p)) == m * Pow(5, Plus(p)) * Pow(2, Minus(n))
    ensures n == 0
  {
    hide Pow;
    PowOfFiveIsOdd(Minus(p));
    PowOfFiveIsOdd(Plus(p));
    PowZero(2);
    var (f, g) := (Pow(5, Minus(p)), Pow(5, Plus(p)));
    OddTimesOdd(k, f);
    OddTimesOdd(m, g);
    if n > 0 {
      PowOfTwoIsEven(n);
      Reorder(k, Pow(2, n), f);
      EvenTimes(k * f, Pow(2, n));
    } else if n < 0 {
      PowOfTwoIsEven(-n);
      EvenTimes(m * g, Pow(2, -n));
    }
  }

  // -------------------------------------------------------------- may_tie

  /** `b^i`, for the powers a table of `size` entries holds. */
  function Table(b: nat, size: nat, i: nat): Option<nat> { if i < size then Some(Pow(b, i)) else None }

  function PowerOfFive(i: nat): Option<nat> { Table(5, 28, i) }

  function PowerOfTen(i: nat): Option<nat> { Table(10, 20, i) }

  /** A product in 64 bits. */
  function CheckedMul(a: nat, b: nat): Option<nat> { if a * b < U64 then Some(a * b) else None }

  predicate IsMultipleOf(k: nat, d: nat) { if d == 0 then k == 0 else k % d == 0 }

  predicate MayTie(k: nat, q: int, digits: nat) {
    var limit := PowerOfTen(digits + 1);
    if limit.None? then true
    else
      var power := PowerOfFive((if q >= 0 then q else -q) + if q >= 0 then 1 else 0);
      if power.None? then false
      else if q >= 0 then IsMultipleOf(k, power.value)
      else
        var decimal := CheckedMul(k, power.value);
        decimal.Some? && decimal.value < limit.value
  }

  /** `k * 2^q` lies midway between two neighbours of `digits` digits: with one
      digit more it is exact, and that digit is 5. */
  ghost predicate Halfway(k: nat, q: int, digits: nat) {
    exists m: nat, p: int :: HalfwayAt(k, q, digits, m, p)
  }

  ghost predicate HalfwayAt(k: nat, q: int, digits: nat, m: nat, p: int) {
    EndsInFive(m) && m < Pow(10, digits + 1) && Binary(k, q).Value() == DecimalValue(m, p)
  }

  lemma {:induction false} TableEnds()
    ensures Pow(5, 28) == 37252902984619140625 && Pow(5, 26) == 1490116119384765625 && Pow(5, 15) == 30517578125
    ensures Pow(10, 19) == 10000000000000000000 && Pow(10, 18) == 1000000000000000000 && Pow(10, 10) == 10000000000
  {
    assert Pow(5, 5) == 3125;
    assert Pow(10, 5) == 100000;
    PowSum(5, 5, 5);
    PowSum(5, 10, 5);
    PowSum(5, 15, 10);
    PowSum(5, 25, 1);
    PowSum(5, 25, 3);
    assert Pow(5, 3) == 125 && Pow(5, 1) == 5;
    PowSum(10, 5, 5);
    PowSum(10, 10, 5);
    PowSum(10, 15, 3);
    PowSum(10, 15, 4);
    assert Pow(10, 3) == 1000 && Pow(10, 4) == 10000;
  }

  lemma {:induction false} Multiple(a: nat, b: nat)
    requires b > 0
    ensures (a * b) % b == 0
  {
    MultipleRest(a, b, 0);
  }

  lemma {:induction false} TenthAndFive(m: nat, fifth: int, half: int)
    requires m == 5 * fifth && m == 2 * half + 1
    ensures m % 10 == 5
  {
    var tenth := half - 2 * fifth;
    assert m == 10 * tenth + 5;
  }

  lemma {:induction false} FiveTimesOdd(m: nat)
    requires m % 2 == 1 && m % 5 == 0
    ensures EndsInFive(m)
  {
    var (fifth, half) := (m / 5, m / 2);
    TenthAndFive(m, fifth, half);
  }

  lemma {:induction false} HalfwayIf(k: nat, q: int, digits: nat, m: nat)
    requires k % 2 == 1 && EndsInFive(m) && m < Pow(10, digits + 1) && k * Pow(5, Minus(q)) == m * Pow(5, Plus(q))
    ensures Halfway(k, q, digits)
  {
    hide Power, Pow, Plus, Minus, DecimalValue, Binary.Value;
    SameNumber(k, q, m, q);
    assert HalfwayAt(k, q, digits, m, q);
  }

  lemma {:induction false} HalfwayOnly(k: nat, q: int, digits: nat) returns (m: nat)
    requires k % 2 == 1 && Halfway(k, q, digits)
    ensures EndsInFive(m) && m < Pow(10, digits + 1) && k * Pow(5, Minus(q)) == m * Pow(5, Plus(q))
  {
    hide Power, Pow, Plus, Minus, DecimalValue, Binary.Value;
    var c: nat, p: int :| HalfwayAt(k, q, digits, c, p);
    SameNumber(k, q, c, p);
    m := c;
  }

  /** A tie at the place of a power of ten that is not negative. */
  lemma {:induction false} TieUp(k: nat, q: nat, digits: nat)
    requires k % 2 == 1 && k < Pow(10, digits + 1)
    ensures IsMultipleOf(k, Pow(5, q + 1)) <==> Halfway(k, q, digits)
  {
    hide Power, Pow, Halfway, IsMultipleOf;
    var f := Pow(5, q);
    PowNext(5, 0);
    PowNext(5, q);
    if IsMultipleOf(k, 5 * f) {
      var m := TieUpMultiple(k, f);
      HalfwayIf(k, q, digits, m);
    }
    if Halfway(k, q, digits) {
      var m := HalfwayOnly(k, q, digits);
      FiveMultiple(m, f);
    }
  }

  lemma {:induction false} FiveMultiple(m: nat, f: nat)
    requires EndsInFive(m) && f > 0
    ensures IsMultipleOf(m * f, 5 * f)
  {
    Reassociate(m / 5, f);
    Multiple(m / 5, 5 * f);
  }

  lemma {:induction false} Reassociate(j: nat, f: nat)
    ensures 5 * j * f == j * (5 * f) == 5 * (j * f)
  {
  }

  lemma {:induction false} TieUpMultiple(k: nat, f: nat) returns (m: nat)
    requires k % 2 == 1 && f > 0 && IsMultipleOf(k, 5 * f)
    ensures k == m * f && EndsInFive(m) && m <= k
  {
    var j := k / (5 * f);
    m := 5 * j;
    assert k == 5 * f * j;
    Reassociate(j, f);
    assert f * m == m * f;
    if m % 2 == 0 { EvenTimes(f, m); }
    FiveTimesOdd(m);
    AtLeast(f, m);
  }

  /** A tie at the place of a negative power of ten. */
  lemma {:induction false} TieDown(k: nat, n: nat, digits: nat)
    requires k % 2 == 1 && n > 0
    ensures k * Pow(5, n) < Pow(10, digits + 1) <==> Halfway(k, -(n as int), digits)
  {
    hide Power, Pow, Halfway;
    var (f, q) := (Pow(5, n), -(n as int));
    var m := k * f;
    PowZero(5);
    PowOfFiveIsOdd(n);
    OddTimesOdd(k, f);
    PowNext(5, n - 1);
    Reassociate(k, Pow(5, n - 1));
    FiveTimesOdd(m);
    if m < Pow(10, digits + 1) { HalfwayIf(k, q, digits, m); }
    if Halfway(k, q, digits) {
      var c := HalfwayOnly(k, q, digits);
      assert c == m;
    }
  }

  /** `may_tie` answers exactly whether the number equals a decimal ending in
      5 with no more than `digits + 1` digits, past its tables and past 64 bits too. */
  lemma {:induction false} MayTieExactly(k: nat, q: int, digits: nat)
    requires digits <= 18 && k % 2 == 1 && k < Pow(10, digits + 1)
    ensures MayTie(k, q, digits) <==> Halfway(k, q, digits)
  {
    hide Power, Pow, Halfway;
    TableEnds();
    PowUp(10, digits + 1, 19);
    if q >= 0 {
      TieUp(k, q, digits);
      if q + 1 >= 28 {
        PowUp(5, 28, q + 1);
        assert k < Pow(5, q + 1) && !IsMultipleOf(k, Pow(5, q + 1));
      }
    } else {
      TieDown(k, -q, digits);
      var f := Pow(5, -q);
      AtLeast(k, f);
      if -q >= 28 { PowUp(5, 28, -q); }
    }
  }

  // ------------------------------------------------------------- the bits

  /** The number of trailing zero bits. */
  function TrailingZeros(n: nat): nat
    requires n > 0
  {
    if n % 2 == 1 then 0 else 1 + TrailingZeros(n / 2)
  }

  lemma {:induction false} TrailingZerosIs(n: nat)
    requires n > 0
    ensures var p := Pow(2, TrailingZeros(n)); n % p == 0 && (n / p) % 2 == 1 && n == n / p * p
  {
    if n % 2 == 0 {
      TrailingZerosIs(n / 2);
      var p := Pow(2, TrailingZeros(n / 2));
      var j := n / 2 / p;
      assert n == j * (2 * p);
      MultipleRest(j, 2 * p, 0);
    }
  }

  lemma {:induction false} TrailingZerosMost(n: nat, t: nat, x: nat)
    requires n > 0 && n == x * Pow(2, t)
    ensures t <= TrailingZeros(n)
  {
    if t > 0 {
      assert Pow(2, t) == 2 * Pow(2, t - 1);
      assert n == 2 * (x * Pow(2, t - 1));
      TrailingZerosMost(n / 2, t - 1, x);
    }
  }

  const HIDDEN: nat := 0x10_0000_0000_0000

  function Exponent(bits: nat): nat { bits / HIDDEN % 0x800 }

  function Fraction(bits: nat): nat { bits % HIDDEN }

  /** The magnitude of a finite double, before its trailing zeros are removed. */
  function Unreduced(bits: nat): Binary {
    if Exponent(bits) == 0 then Binary(Fraction(bits), -1074)
    else Binary(Fraction(bits) + HIDDEN, Exponent(bits) as int - 1075)
  }

  /** The magnitude as an odd number times a power of two; none for zero. */
  function OddSignificand(bits: nat): Option<Binary> {
    var b := Unreduced(bits);
    if b.k == 0 then None
    else
      var zeros := TrailingZeros(b.k);
      Some(Binary(b.k / Pow(2, zeros), b.q + zeros))
  }

  lemma {:induction false} OddPart(k: nat, q: int)
    requires k > 0
    ensures var zeros := TrailingZeros(k);
      Binary(k / Pow(2, zeros), q + zeros).Value() == Binary(k, q).Value() && k / Pow(2, zeros) % 2 == 1
  {
    hide Power, Pow, TrailingZeros;
    TrailingZerosIs(k);
    var zeros := TrailingZeros(k);
    PowerSum(2, zeros, q);
    PowerIsPow(zeros);
    Regroups(k / Pow(2, zeros), Pow(2, zeros), Power(2, q));
  }

  lemma {:induction false} Regroups(j: nat, p: nat, x: real)
    ensures j as real * (p as real * x) == (j * p) as real * x
  {
    assert (j * p) as real == j as real * p as real;
  }

  lemma {:induction false} PowerIsPow(e: nat)
    ensures Power(2, e) == Pow(2, e) as real
  {
  }

  lemma {:induction false} Positive(b: Binary)
    ensures b.Value() == 0.0 <==> b.k == 0
  {
    hide Power;
    if b.k > 0 { assert b.k as real * Power(2, b.q) > 0.0; }
  }

  /** The significand is odd, below 2^53, and the number is unchanged. */
  lemma {:induction false} OddSignificandIs(bits: nat)
    ensures OddSignificand(bits).None? <==> Unreduced(bits).Value() == 0.0
    ensures OddSignificand(bits).Some? ==> var b := OddSignificand(bits).value;
      b.k % 2 == 1 && b.k < 2 * HIDDEN && b.Value() == Unreduced(bits).Value()
  {
    hide Power, Pow, TrailingZeros;
    var b := Unreduced(bits);
    Positive(b);
    if b.k > 0 {
      OddPart(b.k, b.q);
      Shrinks(b.k, Pow(2, TrailingZeros(b.k)));
    }
  }

  lemma {:induction false} Shrinks(a: nat, b: nat)
    requires b > 0
    ensures a / b <= a
  {
    var q := a / b;
    assert a == b * q + a % b;
    AtLeast(b, q);
  }

  /** A number is one odd number times one power of two. */
  lemma {:induction false} OddUnique(a: Binary, b: Binary)
    requires a.k % 2 == 1 && b.k % 2 == 1 && a.Value() == b.Value()
    ensures a == b
  {
    hide Power, Pow;
    PowerSum(2, a.q - b.q, b.q);
    var w := Power(2, b.q);
    assert a.k as real * (Power(2, a.q - b.q) * w) == a.k as real * Power(2, a.q - b.q) * w;
    Cancels(a.k as real * Power(2, a.q - b.q), b.k as real, w);
    PowerZero(5);
    InIntegers(a.k, a.q - b.q, b.k, 0);
    PowZero(5);
    PowZero(2);
    Parities(a.k, a.q - b.q, b.k, 0);
  }

  // ----------------------------------------------------------- the guards

  /** `bits` of an exponent and a fraction of `width` bits have no fewer
      trailing zeros than the significand they make. */
  lemma {:induction false} SignificandZeros(exponent: nat, fraction: nat, width: nat)
    requires exponent > 0 && fraction < Pow(2, width)
    ensures exponent * Pow(2, width) + fraction > 0
    ensures TrailingZeros(fraction + Pow(2, width)) <= TrailingZeros(exponent * Pow(2, width) + fraction)
  {
    hide Pow, TrailingZeros;
    var (w, s) := (Pow(2, width), fraction + Pow(2, width));
    var t := TrailingZeros(s);
    TrailingZerosIs(s);
    AtLeast(exponent, w);
    var (p, j) := (Pow(2, t), s / Pow(2, t));
    AtLeast(j, p);
    if t > width {
      PowUp(2, width + 1, t);
      PowNext(2, width);
    } else {
      PowSum(2, t, width - t);
      var r := Pow(2, width - t);
      MovesOut(exponent, j, p, r, fraction);
      TrailingZerosMost(exponent * w + fraction, t, exponent * r + (j - r));
    }
  }

  lemma {:induction false} MovesOut(e: nat, j: nat, p: nat, r: nat, fraction: nat)
    requires p > 0 && fraction + p * r == j * p
    ensures e * (p * r) + fraction == (e * r + (j - r)) * p && j >= r
  {
    assert (j - r) * p == j * p - p * r == fraction;
    NotNegative(j - r, p);
    assert e * (p * r) == e * r * p;
    assert (e * r + (j - r)) * p == e * r * p + (j - r) * p;
  }

  lemma {:induction false} Negative(a: int, b: nat)
    requires a > 0
    ensures (-a) * b == -(a * b) && a * b >= b
  {
    AtLeast(a, b);
  }

  lemma {:induction false} NotNegative(a: int, b: nat)
    requires b > 0 && a * b >= 0
    ensures a >= 0
  {
    if a < 0 { Negative(-a, b); }
  }

  /** Below the powers of five that outgrow the digits no number ties. */
  lemma {:induction false} TooFine(k: nat, n: nat, least: nat, digits: nat)
    requires k % 2 == 1 && 0 < least <= n && Pow(10, digits + 1) <= Pow(5, least)
    ensures !Halfway(k, -(n as int), digits)
  {
    hide Pow, Power, Halfway;
    PowUp(5, least, n);
    TieDown(k, n, digits);
    AtLeast(k, Pow(5, n));
  }

  /** A normal number whose exponent field and trailing zeros sum to less than
      `bound` is `k * 2^q` with `q` below `bound - bias`. */
  lemma {:induction false} GuardedPlace(exponent: nat, fraction: nat, width: nat, bias: nat, bound: nat, b: Binary)
    requires exponent > 0 && fraction < Pow(2, width)
    requires exponent * Pow(2, width) + fraction > 0
    requires exponent + TrailingZeros(exponent * Pow(2, width) + fraction) < bound
    requires b.k % 2 == 1 && b.Value() == Binary(fraction + Pow(2, width), exponent as int - bias as int).Value()
    ensures b.q < bound as int - bias as int
  {
    hide Pow, Power;
    var s := fraction + Pow(2, width);
    SignificandZeros(exponent, fraction, width);
    OddPart(s, exponent as int - bias as int);
    var zeros := TrailingZeros(s);
    OddUnique(b, Binary(s / Pow(2, zeros), exponent as int - bias as int + zeros));
  }

  const POSITIONAL_F64_LOW: nat := 4517329197830473121
  const POSITIONAL_F64_HIGH: nat := 4831355192913801216
  const POSITIONAL_F32_LOW: nat := 897988551
  const POSITIONAL_F32_HIGH: nat := 1482907546

  /** The quick path of `push_double`. */
  predicate QuickDouble(bits: nat) {
    POSITIONAL_F64_LOW <= bits < POSITIONAL_F64_HIGH && bits / HIDDEN + TrailingZeros(bits) < 1050
  }

  /** The quick path of `push_float`. */
  predicate QuickFloat(bits: nat) {
    POSITIONAL_F32_LOW <= bits < POSITIONAL_F32_HIGH && bits / 0x80_0000 + TrailingZeros(bits) < 136
  }

  /** The magnitude of a normal 32-bit float. */
  function FloatMagnitude(bits: nat): Binary { Binary(bits % 0x80_0000 + 0x80_0000, bits / 0x80_0000 - 150) }

  /** No double on the quick path ties among 17 digits. */
  lemma {:induction false} QuickDoubleNeverTies(bits: nat)
    requires QuickDouble(bits)
    ensures OddSignificand(bits).Some? && var b := OddSignificand(bits).value;
      !MayTie(b.k, b.q, 17) && !Halfway(b.k, b.q, 17)
  {
    hide Power, Pow, Halfway, MayTie, TrailingZeros, OddSignificand, Binary.Value;
    PowersOfTwo();
    TableEnds();
    OddSignificandIs(bits);
    QuickFields(bits);
    Positive(Unreduced(bits));
    var b := OddSignificand(bits).value;
    GuardedPlace(bits / HIDDEN, Fraction(bits), 52, 1075, 1050, b);
    TooFine(b.k, -b.q, 26, 17);
    MayTieExactly(b.k, b.q, 17);
  }

  lemma {:induction false} QuickFields(bits: nat)
    requires POSITIONAL_F64_LOW <= bits < POSITIONAL_F64_HIGH
    ensures Unreduced(bits) == Binary(Fraction(bits) + HIDDEN, bits / HIDDEN - 1075) && bits / HIDDEN > 0
    ensures bits / HIDDEN * HIDDEN + Fraction(bits) == bits
  {
  }

  /** No float on the quick path ties among 9 digits. */
  lemma {:induction false} QuickFloatNeverTies(bits: nat, b: Binary)
    requires QuickFloat(bits) && b.k % 2 == 1 && b.k < 0x100_0000 && b.Value() == FloatMagnitude(bits).Value()
    ensures !MayTie(b.k, b.q, 9) && !Halfway(b.k, b.q, 9)
  {
    hide Power, Pow, Halfway, MayTie;
    PowersOfTwo();
    TableEnds();
    GuardedPlace(bits / 0x80_0000, bits % 0x80_0000, 23, 150, 136, b);
    TooFine(b.k, -b.q, 15, 9);
    MayTieExactly(b.k, b.q, 9);
  }

  lemma {:induction false} PowersOfTwo()
    ensures Pow(2, 52) == HIDDEN && Pow(2, 23) == 0x80_0000
  {
    assert Pow(2, 13) == 0x2000 && Pow(2, 10) == 0x400;
    PowSum(2, 10, 13);
    PowSum(2, 13, 13);
    PowSum(2, 26, 26);
  }

  // ------------------------------------------------------- equals_decimal

  function CheckedPow(b: nat, e: nat): Option<nat> { if Pow(b, e) < U64 then Some(Pow(b, e)) else None }

  /** Compares a double with an odd decimal by their odd parts and places. */
  predicate EqualsDecimal(bits: nat, m: nat, place: int) {
    var b := OddSignificand(bits);
    if b.None? || b.value.q != place then false
    else
      var power := CheckedPow(5, if place >= 0 then place else -place);
      if power.None? then false
      else if place >= 0 then CheckedMul(m, power.value) == Some(b.value.k)
      else CheckedMul(b.value.k, power.value) == Some(m)
  }

  lemma {:induction false} DecimalPositive(m: nat, p: int)
    ensures DecimalValue(m, p) == 0.0 <==> m == 0
  {
    hide Power;
    if m > 0 { assert m as real * Power(10, p) > 0.0; }
  }

  /** The powers of two agree only at one place, and past 64 bits nothing is
      equal. */
  lemma {:induction false} EqualsDecimalExactly(bits: nat, m: nat, place: int)
    requires m < U64 && EndsInFive(m)
    ensures EqualsDecimal(bits, m, place) <==> Unreduced(bits).Value() == DecimalValue(m, place)
  {
    hide Power, Pow, Unreduced, DecimalValue, Binary.Value;
    OddSignificandIs(bits);
    if OddSignificand(bits).None? {
      DecimalPositive(m, place);
    } else {
      var b := OddSignificand(bits).value;
      SameNumber(b.k, b.q, m, place);
      PowZero(5);
      var f := Pow(5, if place >= 0 then place else -place);
      AtLeast(b.k, f);
      AtLeast(m, f);
    }
  }
}
