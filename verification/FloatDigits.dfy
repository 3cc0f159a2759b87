/** The digits of a float as they are rounded, corrected and written: `Digits`
    in `layerstack/src/float_text.rs`. */
module FloatDigits {
  import opened Powers
  import opened DecimalText
  import opened Rounding
  import DecimalRounding
  import FloatTies

  const DIGITS: nat := 24

  // ------------------------------------------------------- trailing zeros

  function Trimmed(ds: seq<Digit>): seq<Digit> {
    if |ds| > 1 && ds[|ds| - 1] == 0 then Trimmed(ds[..|ds| - 1]) else ds
  }

  lemma {:induction false} DropsZero(negative: bool, ds: seq<Digit>, exponent: int)
    requires |ds| > 1 && ds[|ds| - 1] == 0
    ensures Decimal(negative, ds[..|ds| - 1], exponent).Magnitude() == Decimal(negative, ds, exponent).Magnitude()
  {
    hide DecimalValue;
    TenTimes(Number(ds[..|ds| - 1]), exponent - |ds| + 1);
  }

  /** No zero is left at the end but a single digit's, and the number is the
      same. */
  lemma {:induction false} TrimmedKeeps(negative: bool, ds: seq<Digit>, exponent: int)
    requires ds != []
    ensures var now := Trimmed(ds);
      && now != [] && now <= ds && (|now| > 1 ==> now[|now| - 1] != 0)
      && Decimal(negative, now, exponent).Magnitude() == Decimal(negative, ds, exponent).Magnitude()
  {
    hide Decimal.Magnitude;
    if |ds| > 1 && ds[|ds| - 1] == 0 {
      TrimmedKeeps(negative, ds[..|ds| - 1], exponent);
      DropsZero(negative, ds, exponent);
    }
  }

  lemma {:induction false} TenTimes(n: nat, e: int)
    ensures DecimalValue(n * 10, e) == DecimalValue(n, e + 1)
  {
    hide Power;
    PowerNext(10, e);
    assert (n * 10) as real == n as real * 10.0;
  }

  // --------------------------------------------------------------- rounding

  lemma {:induction false} DigitsLength(n: nat)
    ensures |DigitsOf(n)| == DecimalRounding.Length(n)
  {
    if n >= 10 { DigitsLength(n / 10); }
  }

  /** `exact * 10^place` as the code rounds it. */
  function RoundedDecimal(negative: bool, exact: nat, place: int, significant: nat): Decimal {
    var first := DecimalRounding.LeadingDigits(exact);
    var length := DecimalRounding.Length(exact) - first.dropped;
    var kept := DecimalRounding.Rounded(exact, significant);
    var carried := length > significant && kept == Pow(10, significant);
    Decimal(negative, Trimmed(DigitsOf(if carried then kept / 10 else kept)),
      length - 1 + place + first.dropped + if carried then 1 else 0)
  }

  /** What rounding half to even makes of an integer at a decimal place. */
  function RoundedValue(exact: nat, place: int, significant: nat): real {
    var length := DecimalRounding.Length(exact);
    if length > significant then
      DecimalValue(DecimalRounding.Correct(exact, significant) * Pow(10, length - significant), place)
    else DecimalValue(exact, place)
  }

  /** A rounded quotient stays within the significant digits, or is one more. */
  lemma {:induction false} CorrectBounds(exact: nat, significant: nat)
    requires significant >= 1 && DecimalRounding.Length(exact) > significant
    ensures Pow(10, significant - 1) <= DecimalRounding.Correct(exact, significant) <= Pow(10, significant)
  {
    hide Pow, DecimalRounding.Length, HalfEven;
    var length := DecimalRounding.Length(exact);
    var d := Pow(10, length - significant);
    LongIsPositive(exact);
    DecimalRounding.LengthIs(exact);
    PowSum(10, significant, length - significant);
    PowSum(10, significant - 1, length - significant);
    var q, r := Split(exact, d);
    HalfEvenIs(exact, d, q, r);
    QuotientBounds(exact, d, q, r, Pow(10, significant - 1), Pow(10, significant));
  }

  lemma {:induction false} LongIsPositive(n: nat)
    requires DecimalRounding.Length(n) > 1
    ensures n > 0
  {
  }

  lemma {:induction false} Monotone(a: nat, b: nat, d: nat)
    ensures a <= b ==> a * d <= b * d
    ensures a < b ==> a * d + d <= b * d
  {
    if a < b { Below(a, b, d); }
  }

  lemma {:induction false} QuotientBounds(n: nat, d: nat, q: nat, r: nat, low: nat, high: nat)
    requires n == q * d + r && r < d && low * d <= n < high * d
    ensures low <= q < high
  {
    Monotone(high, q, d);
    Monotone(q, low, d);
  }

  lemma {:induction false} MagnitudeOfDigits(negative: bool, n: nat, e: int)
    ensures Decimal(negative, Trimmed(DigitsOf(n)), e).Magnitude()
      == DecimalValue(n, e - DecimalRounding.Length(n) + 1)
  {
    hide DecimalValue, Trimmed;
    DigitsOfIs(n);
    DigitsLength(n);
    TrimmedKeeps(negative, DigitsOf(n), e);
  }

  lemma {:induction false} RoundedLong(negative: bool, exact: nat, place: int, significant: nat, kept: nat, length: nat)
    requires 1 <= significant < length && Pow(10, significant - 1) <= kept <= Pow(10, significant)
    ensures var (n, e) := if kept == Pow(10, significant) then (kept / 10, length + place) else (kept, length - 1 + place);
      Decimal(negative, Trimmed(DigitsOf(n)), e).Magnitude()
        == DecimalValue(kept * Pow(10, length - significant), place)
  {
    hide DecimalValue, Pow, Trimmed, DigitsOf, Decimal.Magnitude, DecimalRounding.Length;
    Shifted(kept, length - significant, place);
    PowNext(10, significant - 1);
    PowUp(10, 0, significant - 1);
    PowNext(10, 0);
    if kept == Pow(10, significant) {
      var n := Pow(10, significant - 1);
      assert kept / 10 == n;
      DecimalRounding.LengthIf(n, significant);
      MagnitudeOfDigits(negative, n, length + place);
      TenTimes(n, place + length - significant);
    } else {
      DecimalRounding.LengthIf(kept, significant);
      MagnitudeOfDigits(negative, kept, length - 1 + place);
    }
  }

  lemma {:induction false} ShortNumber(exact: nat, significant: nat)
    requires significant <= 17 && DecimalRounding.Length(exact) <= significant
    ensures DecimalRounding.LeadingDigits(exact) == DecimalRounding.Leading(exact, 0)
    ensures DecimalRounding.Rounded(exact, significant) == exact
  {
    hide DecimalRounding.Length;
    if exact >= DecimalRounding.U64 { DecimalRounding.LongNumber(exact); }
  }

  /** Up to 17 significant digits the rounded digits denote the number rounded
      half to even, carries included. */
  lemma {:induction false} RoundedMeans(negative: bool, exact: nat, place: int, significant: nat)
    requires 1 <= significant <= 17
    ensures RoundedDecimal(negative, exact, place, significant).Magnitude() == RoundedValue(exact, place, significant)
  {
    hide DecimalValue, Pow, Trimmed, DigitsOf, Decimal.Magnitude, DecimalRounding.Length, DecimalRounding.Correct, DecimalRounding.Rounded,
      DecimalRounding.LeadingDigits;
    var length := DecimalRounding.Length(exact);
    if length > significant {
      DecimalRounding.RoundsCorrectly(exact, significant);
      CorrectBounds(exact, significant);
      RoundedLong(negative, exact, place, significant, DecimalRounding.Rounded(exact, significant), length);
    } else {
      ShortNumber(exact, significant);
      MagnitudeOfDigits(negative, exact, length - 1 + place);
    }
  }

  // ------------------------------------------------------------------ ties

  /** The number whose last digit is one less. */
  function Predecessor(ds: seq<Digit>): seq<Digit>
    requires ds != [] && ds[|ds| - 1] > 0
  {
    ds[|ds| - 1 := ds[|ds| - 1] - 1]
  }

  /** The digits when a tie is broken to the even candidate. */
  function TieBroken(d: Decimal, bits: nat): Decimal
    requires d.digits != []
  {
    var n := Number(d.digits);
    if d.digits[|d.digits| - 1] % 2 == 0 then d
    else if FloatTies.EqualsDecimal(bits, n * 10 - 5, d.exponent - |d.digits|) then
      d.(digits := Trimmed(Predecessor(d.digits)))
    else d
  }

  lemma {:induction false} NumberBelow(ds: seq<Digit>)
    ensures Number(ds) < Pow(10, |ds|)
  {
    if ds != [] {
      NumberBelow(ds[..|ds| - 1]);
      PowNext(10, |ds| - 1);
    }
  }

  lemma {:induction false} PredecessorIs(ds: seq<Digit>)
    requires ds != [] && ds[|ds| - 1] > 0
    ensures Number(Predecessor(ds)) == Number(ds) - 1 && Predecessor(ds) != []
  {
    assert Predecessor(ds)[..|ds| - 1] == ds[..|ds| - 1];
  }

  /** Half a unit below `n` units is `10 * n - 5` tenths of one. */
  lemma {:induction false} HalfUnit(v: real, n: nat, p: int)
    requires n > 0
    ensures 2.0 * v == (2 * n - 1) as real * Power(10, p) <==> v == DecimalValue(10 * n - 5, p - 1)
  {
    hide Power;
    PowerNext(10, p - 1);
    var (x, m) := (Power(10, p - 1), 10 * n - 5);
    assert (2 * n - 1) as real * (10.0 * x) == 2.0 * (m as real * x) by {
      assert (2 * n - 1) as real * 10.0 == 2.0 * m as real;
      assert (2 * n - 1) as real * (10.0 * x) == (2 * n - 1) as real * 10.0 * x;
    }
  }

  lemma {:induction false} TieAnswer(d: Decimal, bits: nat)
    requires 1 <= |d.digits| <= 17 && Number(d.digits) % 2 == 1
    ensures var (n, unit) := (Number(d.digits), Power(10, d.exponent - |d.digits| + 1));
      var answer := FloatTies.EqualsDecimal(bits, n * 10 - 5, d.exponent - |d.digits|);
      answer <==> 2.0 * FloatTies.Unreduced(bits).Value() == (2 * n - 1) as real * unit
  {
    hide Power, FloatTies.EqualsDecimal, DecimalValue, FloatTies.Unreduced, FloatTies.Binary.Value, Pow, Number;
    var (ds, n) := (d.digits, Number(d.digits));
    var p := d.exponent - |ds| + 1;
    NumberBelow(ds);
    PowUp(10, |ds|, 17);
    TieBound();
    HalfUnit(FloatTies.Unreduced(bits).Value(), n, p);
    FloatTies.EqualsDecimalExactly(bits, 10 * n - 5, p - 1);
  }

  /** Breaking a tie changes the digits exactly when the last one is odd and the
      double is halfway to the number before. It is then as far from the number
      before, which is even, as it was. */
  lemma {:induction false} TieBrokenIs(d: Decimal, bits: nat)
    requires 1 <= |d.digits| <= 17
    ensures var (n, unit) := (Number(d.digits), Power(10, d.exponent - |d.digits| + 1));
      var (v, r) := (FloatTies.Unreduced(bits).Value(), TieBroken(d, bits));
      && r.negative == d.negative && r.exponent == d.exponent && r.digits != []
      && if n % 2 == 1 && 2.0 * v == (2 * n - 1) as real * unit then
          r.Magnitude() == (n - 1) as real * unit && d.Magnitude() - v == v - r.Magnitude() && r.Magnitude() != d.Magnitude()
        else r == d
  {
    hide Power, FloatTies.EqualsDecimal, FloatTies.Unreduced, FloatTies.Binary.Value, Trimmed, Pow, Number;
    var (ds, n) := (d.digits, Number(d.digits));
    NumberParity(ds);
    if n % 2 == 1 {
      TieAnswer(d, bits);
      PredecessorIs(ds);
      TrimmedKeeps(d.negative, Predecessor(ds), d.exponent);
      Equidistant(FloatTies.Unreduced(bits).Value(), n, Power(10, d.exponent - |ds| + 1));
    }
  }

  lemma {:induction false} NumberParity(ds: seq<Digit>)
    requires ds != []
    ensures Number(ds) % 2 == ds[|ds| - 1] % 2
  {
  }

  lemma {:induction false} TieBound()
    ensures 10 * Pow(10, 17) < FloatTies.U64
  {
    FloatTies.TableEnds();
    PowNext(10, 17);
  }

  lemma {:induction false} Equidistant(v: real, n: nat, unit: real)
    requires n > 0 && unit > 0.0
    ensures 2.0 * v == (2 * n - 1) as real * unit ==>
      n as real * unit - v == v - (n - 1) as real * unit && n as real * unit != (n - 1) as real * unit
  {
    assert (n - 1) as real == n as real - 1.0;
    assert (2 * n - 1) as real == 2.0 * n as real - 1.0;
    assert (n as real - 1.0) * unit == n as real * unit - unit;
    assert (2.0 * n as real - 1.0) * unit == 2.0 * (n as real * unit) - unit;
  }

  // ---------------------------------------------------------- the rounding

  lemma {:induction false} TenIsEven(e: nat)
    requires e > 0
    ensures Pow(10, e) % 2 == 0
  {
    assert Pow(10, e) == 2 * (5 * Pow(10, e - 1));
  }

  /** The digits kept are few enough for the buffer. */
  lemma {:induction false} LeadingSmall(exact: nat)
    ensures DecimalRounding.LeadingDigits(exact).kept <= 20000000000000000000
  {
    hide DecimalRounding.Length, Pow;
    if exact >= DecimalRounding.U64 {
      DecimalRounding.LongNumber(exact);
      var dropped := DecimalRounding.Length(exact) - 19;
      var d := Pow(10, dropped);
      DecimalRounding.LengthIs(exact);
      PowSum(10, 19, dropped);
      Parts(exact, d);
      FloatTies.TableEnds();
      Monotone(Pow(10, 19), exact / d, d);
    }
  }

  lemma {:induction false} LengthAtMost(n: nat)
    requires n <= 20000000000000000001
    ensures DecimalRounding.Length(n) <= 20
  {
    hide DecimalRounding.Length, Pow;
    FloatTies.TableEnds();
    PowNext(10, 19);
    DecimalRounding.LengthIs(n);
    if DecimalRounding.Length(n) > 20 { LongIsPositive(n); PowUp(10, 20, DecimalRounding.Length(n) - 1); }
  }

  lemma {:induction false} QuotientAtMost(n: nat, d: nat)
    requires d > 0
    ensures n / d <= n
  {
    Parts(n, d);
    Monotone(1, d, n / d);
    assert n / d * d == d * (n / d);
  }

  lemma {:induction false} LeadingLength(exact: nat)
    ensures DecimalRounding.LeadingDigits(exact).dropped < DecimalRounding.Length(exact)
  {
    hide DecimalRounding.Length;
    if exact >= DecimalRounding.U64 { DecimalRounding.LongNumber(exact); }
  }

  /** The digits to round, how many they are and the place of the last. */
  method TakeLeading(exact: nat, place: int) returns (kept: nat, length: nat, at: int)
    requires exact < DecimalRounding.U128
    ensures var first := DecimalRounding.LeadingDigits(exact);
      kept == first.kept && length + first.dropped == DecimalRounding.Length(exact) && at == place + first.dropped
  {
    hide DecimalRounding.Length, Pow;
    if exact < DecimalRounding.U64 {
      kept, length, at := exact, DecimalRounding.Length(exact), place;
    } else {
      DecimalRounding.LongNumber(exact);
      var dropped := DecimalRounding.Length(exact) - 19;
      var divisor := Pow(10, dropped);
      var quotient, remainder := exact / divisor, exact % divisor;
      kept := if remainder != 0 && quotient % 2 == 0 then quotient + 1 else quotient;
      length, at := 19, place + dropped;
    }
  }

  /** Quotient and remainder. */
  method Divide(n: nat, d: nat) returns (quotient: nat, remainder: nat)
    requires d > 0
    ensures n == quotient * d + remainder && remainder < d && quotient <= n
  {
    Parts(n, d);
    QuotientAtMost(n, d);
    quotient, remainder := n / d, n % d;
  }

  /** Drops the digits past the significant ones. */
  method DropDigits(n: nat, dropped: nat) returns (kept: nat)
    requires dropped > 0
    ensures kept == HalfEven(n, Pow(10, dropped)) && kept <= n + 1
  {
    hide Pow, HalfEven;
    var divisor := Pow(10, dropped);
    TenIsEven(dropped);
    var quotient, remainder := Divide(n, divisor);
    HalfEvenIs(n, divisor, quotient, remainder);
    var half := divisor / 2;
    kept := quotient;
    if remainder > half || (remainder == half && quotient % 2 == 1) {
      kept := kept + 1;
    }
  }

  /** The integer of the digits to write, and the decimal exponent to write them
      with. */
  method RoundDigits(exact: nat, place: int, significant: nat) returns (kept: nat, exponent: int)
    requires exact < DecimalRounding.U128 && 1 <= significant
    ensures DecimalRounding.Length(kept) <= DIGITS
    ensures forall negative ::
      Decimal(negative, Trimmed(DigitsOf(kept)), exponent) == RoundedDecimal(negative, exact, place, significant)
  {
    hide DecimalRounding.Length, Pow, Trimmed, DigitsOf, DecimalRounding.LeadingDigits, HalfEven;
    LeadingSmall(exact);
    LeadingLength(exact);
    var length, at;
    kept, length, at := TakeLeading(exact, place);
    exponent := length - 1 + at;
    if length > significant {
      kept := DropDigits(kept, length - significant);
      if kept == Pow(10, significant) {
        kept := kept / 10;
        exponent := exponent + 1;
      }
    }
    LengthAtMost(kept);
  }

  lemma {:induction false} Signs(out: string, negative: bool, body: string)
    ensures (if negative then out + "-" else out) + body == out + (Sign(negative) + body)
  {
    assert out + "-" + body == out + ("-" + body);
    assert "" + body == body;
  }

  lemma {:induction false} Joined(a: string, b: string, c: string, d: string)
    ensures a + b + c + d == a + (b + c + d)
    ensures b == "" ==> a + c + d == a + (c + d)
  {
  }

  /** Appends zeros. */
  method PushZeros(out: string, n: nat) returns (r: string)
    ensures r == out + Chars(Zeros(n))
  {
    r := out;
    for i := 0 to n
      invariant r == out + Chars(Zeros(i))
    {
      r := r + "0";
      assert Zeros(i + 1) == Zeros(i) + [0];
      CharsOfSum(Zeros(i), [0]);
      assert Chars([0]) == "0";
    }
  }

  /** Appends an exponent. */
  method PushPower(out: string, exponent: int, cStyle: bool) returns (r: string)
    ensures r == out + ExponentText(exponent, cStyle)
  {
    hide Chars, DigitsOf;
    r := out;
    if exponent < 0 { r := r + "-"; } else if cStyle { r := r + "+"; }
    var magnitude := Abs(exponent);
    if cStyle && magnitude < 10 { r := r + "0"; }
    r := r + Chars(DigitsOf(magnitude));
  }

  /** Reads the exponent after an `e`. */
  method ReadPower(rest: string) returns (exponent: int)
    ensures exponent == if '-' in rest then -(ReadExponent(rest) as int) else ReadExponent(rest)
  {
    exponent := 0;
    var exponentNegative := false;
    for j := 0 to |rest|
      invariant exponent == ReadExponent(rest[..j]) && (exponentNegative <==> '-' in rest[..j])
    {
      assert rest[..j + 1][..j] == rest[..j];
      if rest[j] == '-' {
        exponentNegative := true;
      } else {
        exponent := exponent * 10 + DigitOf(rest[j]);
      }
    }
    assert rest[..|rest|] == rest;
    if exponentNegative { exponent := -exponent; }
  }

  lemma {:induction false} ReadStep(body: string, i: nat)
    requires i < |body| && body[i] != 'e'
    ensures ReadDigits(body[i..]) == if body[i] == '.' then ReadDigits(body[i + 1..]) else [DigitOf(body[i])] + ReadDigits(body[i + 1..])
  {
    assert body[i..][1..] == body[i + 1..];
    assert [] + ReadDigits(body[i + 1..]) == ReadDigits(body[i + 1..]);
  }

  lemma {:induction false} ReadEnd(body: string, i: nat)
    requires i <= |body| && (i < |body| ==> body[i] == 'e')
    ensures ReadDigits(body[i..]) == []
  {
  }

  lemma {:induction false} StopsAt(body: string, i: nat)
    requires i <= |body| && 'e' !in body[..i] && (i < |body| ==> body[i] == 'e')
    ensures After(body, 'e') == if i < |body| then body[i + 1..] else ""
  {
    if i < |body| {
      assert body == body[..i] + "e" + body[i + 1..];
      SplitsAt(body[..i], 'e', body[i + 1..]);
    } else {
      assert body[..i] == body;
      NoSplit(body, 'e');
    }
  }

  // --------------------------------------------------------------- the state

  /** Digits kept in place, of which the first `len` count. */
  class Digits {
    var negative: bool
    const digits: array<Digit>
    var len: nat
    var exponent: int

    ghost predicate Valid()
      reads this, digits
    {
      digits.Length == DIGITS && 1 <= len <= DIGITS
    }

    /** The number held. */
    function Held(): Decimal
      requires Valid()
      reads this, digits
    {
      Decimal(negative, digits[..len], exponent)
    }

    method TrimTrailingZeros()
      requires Valid()
      modifies this`len
      ensures Valid() && Held() == old(Held()).(digits := Trimmed(old(Held()).digits))
    {
      ghost var start := digits[..len];
      while len > 1 && digits[len - 1] == 0
        invariant Valid() && Trimmed(digits[..len]) == Trimmed(start)
        decreases len
      {
        assert digits[..len][..len - 1] == digits[..len - 1];
        len := len - 1;
      }
    }

    /** A buffer that holds `RoundedDecimal`. */
    constructor Rounded(negative: bool, exact: nat, place: int, significant: nat)
      requires exact < DecimalRounding.U128 && 1 <= significant
      ensures Valid() && fresh(digits) && Held() == RoundedDecimal(negative, exact, place, significant)
    {
      this.negative, digits, len, exponent := negative, new Digit[DIGITS](_ => 0), 1, 0;
      new;
      var kept, power := RoundDigits(exact, place, significant);
      exponent := power;
      Fill(kept);
      TrimTrailingZeros();
    }

    /** Writes the digits of an integer. */
    method Fill(n: nat)
      requires digits.Length == DIGITS && DecimalRounding.Length(n) <= DIGITS
      modifies this`len, digits
      ensures Valid() && digits[..len] == DigitsOf(n)
    {
      len := DecimalRounding.Length(n);
      DigitsLength(n);
      var kept, i := n, len;
      while i > 0
        invariant 0 <= i <= len == DecimalRounding.Length(n)
        invariant i > 0 ==> DecimalRounding.Length(kept) == i && DigitsOf(n) == DigitsOf(kept) + digits[i..len]
        invariant i == 0 ==> DigitsOf(n) == digits[..len]
      {
        i := i - 1;
        ghost var tail := digits[i + 1..len];
        digits[i] := kept % 10;
        assert digits[i + 1..len] == tail;
        assert digits[i..len] == [kept % 10] + tail;
        kept := kept / 10;
      }
    }

    /** Takes the even candidate where two are as close to the double. */
    method BreakTieToEven(bits: nat)
      requires Valid() && len <= 17
      modifies this`len, digits
      ensures Valid() && Held() == TieBroken(old(Held()), bits)
    {
      if digits[len - 1] % 2 == 0 { return; }
      var n: nat := 0;
      for i := 0 to len
        invariant n == Number(digits[..i])
      {
        assert digits[..i + 1][..i] == digits[..i];
        n := n * 10 + digits[i];
      }
      var place := exponent - len;
      if FloatTies.EqualsDecimal(bits, n * 10 - 5, place) {
        ghost var before := digits[..len];
        digits[len - 1] := digits[len - 1] - 1;
        assert digits[..len] == Predecessor(before);
        TrimTrailingZeros();
      }
    }

    /** Reads the exponential layout. */
    constructor Read(text: string)
      requires 1 <= |DecimalText.Read(text).digits| <= DIGITS
      ensures Valid() && fresh(digits) && Held() == DecimalText.Read(text)
    {
      hide ReadDigits, ReadExponent, After;
      negative, digits, len, exponent := text != "" && text[0] == '-', new Digit[DIGITS](_ => 0), 0, 0;
      new;
      var body := if text != "" && text[0] == '-' then text[1..] else text;
      var i := ReadMantissa(body);
      StopsAt(body, i);
      var power := ReadPower(if i < |body| then body[i + 1..] else "");
      exponent := power;
    }

    method PushDigit(d: Digit)
      requires digits.Length == DIGITS && len < DIGITS
      modifies this`len, digits
      ensures len == old(len) + 1 && digits[..len] == old(digits[..len]) + [d]
    {
      digits[len] := d;
      len := len + 1;
    }

    /** Reads digits up to an `e`, and tells where it stopped. */
    method ReadMantissa(body: string) returns (i: nat)
      requires digits.Length == DIGITS && len == 0 && |ReadDigits(body)| <= DIGITS
      modifies this`len, digits
      ensures len <= DIGITS && digits[..len] == ReadDigits(body)
      ensures i <= |body| && 'e' !in body[..i] && (i < |body| ==> body[i] == 'e')
    {
      hide ReadDigits, DigitOf;
      i := 0;
      assert body[0..] == body;
      while i < |body| && body[i] != 'e'
        invariant i <= |body| && len <= DIGITS
        invariant ReadDigits(body) == digits[..len] + ReadDigits(body[i..])
        invariant 'e' !in body[..i]
      {
        ReadStep(body, i);
        if body[i] != '.' {
          PushDigit(DigitOf(body[i]));
        }
        i := i + 1;
      }
      ReadEnd(body, i);
    }

    method PushPositional(out: string) returns (r: string)
      requires Valid()
      ensures r == out + Positional(Held())
    {
      hide Chars, Zeros;
      r := if negative then out + "-" else out;
      var text := digits[..len];
      var point := exponent + 1;
      Signs(out, negative, PositionalBody(text, exponent));
      if point <= 0 {
        Joined(r, "0.", Chars(Zeros(-point)), Chars(text));
        r := PushZeros(r + "0.", -point);
        r := r + Chars(text);
      } else if point >= |text| {
        Joined(r, "", Chars(text), Chars(Zeros(point - |text|)));
        r := PushZeros(r + Chars(text), point - |text|);
      } else {
        Joined(r, Chars(text[..point]), ".", Chars(text[point..]));
        r := r + Chars(text[..point]) + "." + Chars(text[point..]);
      }
    }

    method PushExponential(out: string, cStyle: bool) returns (r: string)
      requires Valid()
      ensures r == out + Exponential(Held(), cStyle)
    {
      hide Chars, DigitsOf, ExponentText;
      r := if negative then out + "-" else out;
      var text := digits[..len];
      Signs(out, negative, Mantissa(text) + "e" + ExponentText(exponent, cStyle));
      Joined(r, Mantissa(text), "e", ExponentText(exponent, cStyle));
      ghost var front := r;
      r := r + Chars(text[..1]);
      if |text| > 1 { r := r + "." + Chars(text[1..]); }
      assert r == front + Mantissa(text);
      r := PushPower(r + "e", exponent, cStyle);
    }

    /** Appends the layout `Shortest` picks. */
    method PushShortest(out: string) returns (r: string)
      requires Valid()
      ensures r == out + Shortest(Held())
    {
      if -6 <= exponent < 15 { r := PushPositional(out); } else { r := PushExponential(out, false); }
    }

    /** Appends the layout `SixDigitLayout` picks. */
    method PushSixDigitLayout(out: string) returns (r: string)
      requires Valid()
      ensures r == out + SixDigitLayout(Held())
    {
      if -4 <= exponent < 6 { r := PushPositional(out); } else { r := PushExponential(out, true); }
    }
  }

  function Shortest(d: Decimal): string
    requires d.digits != []
  {
    if -6 <= d.exponent < 15 then Positional(d) else Exponential(d, false)
  }

  function SixDigitLayout(d: Decimal): string
    requires d.digits != []
  {
    if -4 <= d.exponent < 6 then Positional(d) else Exponential(d, true)
  }

  /** Whatever layout the exponent picks, the text denotes the number. */
  lemma {:induction false} LayoutsMean(d: Decimal)
    requires d.digits != []
    ensures Meaning(Shortest(d)) == Real(d.negative, d.Magnitude())
    ensures Meaning(SixDigitLayout(d)) == Real(d.negative, d.Magnitude())
  {
    hide Meaning, Positional, Exponential;
    PositionalMeans(d);
    ExponentialMeans(d, false);
    ExponentialMeans(d, true);
  }

  /** A half's text denotes its exact value rounded half to even to six digits. */
  lemma {:induction false} SixDigitsMean(negative: bool, exact: nat, place: int)
    ensures var d := RoundedDecimal(negative, exact, place, 6);
      d.digits != [] && Meaning(SixDigitLayout(d)) == Real(negative, RoundedValue(exact, place, 6))
  {
    hide Meaning, SixDigitLayout, RoundedValue, Pow, Power, DigitsOf, DecimalRounding.Rounded, DecimalRounding.LeadingDigits,
      DecimalRounding.Length, Decimal.Magnitude;
    var d := RoundedDecimal(negative, exact, place, 6);
    DigitsKept(negative, exact, place, 6);
    RoundedMeans(negative, exact, place, 6);
    LayoutsMean(d);
  }

  lemma {:induction false} DigitsKept(negative: bool, exact: nat, place: int, significant: nat)
    ensures RoundedDecimal(negative, exact, place, significant).digits != []
  {
    hide DecimalRounding.Rounded, DecimalRounding.LeadingDigits, DecimalRounding.Length, Pow;
    var first := DecimalRounding.LeadingDigits(exact);
    var kept := DecimalRounding.Rounded(exact, significant);
    DigitsOfIs(kept);
    DigitsOfIs(kept / 10);
    TrimmedKeeps(negative, DigitsOf(kept), 0);
    TrimmedKeeps(negative, DigitsOf(kept / 10), 0);
  }

  /** A number with a negative power of two is exactly a decimal at its place, so
      a half is written from its exact value. */
  lemma {:induction false} ExactDecimal(k: nat, n: nat)
    requires n > 0
    ensures FloatTies.Binary(k, -(n as int)).Value() == DecimalValue(k * Pow(5, n), -(n as int))
  {
    hide Pow, Power, DecimalValue, FloatTies.Binary.Value;
    PowNext(5, 0);
    FloatTies.SameNumberIf(k, k * Pow(5, n), -(n as int));
  }
}
