/** Rounding an integer to a number of decimal digits, half to even, through its
    first 19 digits when 64 bits do not hold it: the arithmetic of
    `Digits::rounded` in `layerstack/src/float_text.rs`. */
module DecimalRounding {
  import opened Powers
  import opened Rounding

  const U64: nat := 0x1_0000_0000_0000_0000
  const U128: nat := 0x1_0000_0000_0000_0000_0000_0000_0000_0000

  /** The number of decimal digits; zero has one. */
  function Length(n: nat): (r: nat)
    ensures r >= 1
  {
    if n < 10 then 1 else 1 + Length(n / 10)
  }

  lemma {:induction false} LengthIs(n: nat)
    ensures n < Pow(10, Length(n))
    ensures n > 0 ==> Pow(10, Length(n) - 1) <= n
  {
    PowNext(10, 0);
    if n >= 10 {
      LengthIs(n / 10);
      PowNext(10, Length(n / 10));
      PowNext(10, Length(n / 10) - 1);
    }
  }

  lemma {:induction false} LengthIf(n: nat, l: nat)
    requires l >= 1 && Pow(10, l - 1) <= n < Pow(10, l)
    ensures Length(n) == l
  {
    hide Pow, Length;
    LengthIs(n);
    if Length(n) < l { PowUp(10, Length(n), l - 1); } else if Length(n) > l { PowUp(10, l, Length(n) - 1); }
  }

  // ------------------------------------------------------- the sticky digit

  /** What the rounding starts from: the digits kept and how many were dropped. */
  datatype Leading = Leading(kept: nat, dropped: nat)

  /** `q` made odd when something was dropped behind it. */
  function Sticky(q: nat, rest: nat): nat { if rest != 0 && q % 2 == 0 then q + 1 else q }

  lemma {:induction false} LongNumber(exact: nat)
    requires exact >= U64
    ensures Length(exact) >= 20
  {
    hide Length;
    LengthIs(exact);
    assert Pow(10, 10) == 10000000000;
    assert Pow(10, 9) == 1000000000;
    PowSum(10, 10, 9);
    if Length(exact) < 20 { PowUp(10, Length(exact), 19); }
  }

  function Shortened(n: nat, divisor: nat): nat
    requires divisor > 0
  {
    Sticky(n / divisor, n % divisor)
  }

  function LeadingDigits(exact: nat): Leading {
    if exact < U64 then Leading(exact, 0)
    else
      LongNumber(exact);
      var dropped := Length(exact) - 19;
      Leading(Shortened(exact, Pow(10, dropped)), dropped)
  }

  /** The significant digits the code rounds to. */
  function Rounded(exact: nat, significant: nat): nat {
    var first := LeadingDigits(exact);
    var length := Length(exact) - first.dropped;
    if length > significant then HalfEven(first.kept, Pow(10, length - significant)) else first.kept
  }

  /** The significant digits of a number that has more of them. */
  function Correct(exact: nat, significant: nat): nat
    requires Length(exact) > significant
  {
    HalfEven(exact, Pow(10, Length(exact) - significant))
  }

  lemma {:induction false} EvenMultiple(q: nat, e: nat)
    requires e % 2 == 0
    ensures q * e % 2 == 0
  {
    var h := e / 2;
    assert q * e == 2 * (q * h);
  }

  /** A sticky digit changes the remainder by one at most. */
  lemma {:induction false} StickyParts(m: nat, rest: nat, e: nat, q: nat, r: nat)
    requires m == q * e + r && r < e && e % 2 == 0
    ensures Sticky(m, rest) == q * e + Sticky(r, rest) && Sticky(r, rest) < e
  {
    EvenMultiple(q, e);
  }

  /** Against an even half, `r * d + rest` compares as `r` made sticky does. */
  lemma {:induction false} SameSide(r: nat, rest: nat, d: nat, half: nat)
    requires rest < d && half % 2 == 0
    ensures r * d + rest > half * d <==> Sticky(r, rest) > half
    ensures r * d + rest == half * d <==> Sticky(r, rest) == half
  {
    if r > half { Below(half, r, d); }
    if r < half { Below(r, half, d); }
  }

  lemma {:induction false} Halves(x: nat, half: nat, d: nat)
    ensures 2 * x > 2 * half * d <==> x > half * d
    ensures 2 * x == 2 * half * d <==> x == half * d
  {
    Associate(2, half, d);
  }

  lemma {:induction false} Nested(q: nat, e: nat, r: nat, d: nat, rest: nat)
    ensures (q * e + r) * d + rest == q * (e * d) + (r * d + rest)
  {
    Associate(q, e, d);
  }

  lemma {:induction false} PartsRound(q: nat, e: nat, r: nat, d: nat, rest: nat)
    requires r < e && rest < d && e % 4 == 0
    ensures e * d > 0
    ensures HalfEven(Sticky(q * e + r, rest), e) == HalfEven((q * e + r) * d + rest, e * d)
  {
    hide HalfEven, Sticky;
    AtLeast(e, d);
    Nested(q, e, r, d, rest);
    Below(r, e, d);
    HalfEvenIs((q * e + r) * d + rest, e * d, q, r * d + rest);
    StickyParts(q * e + r, rest, e, q, r);
    HalfEvenIs(Sticky(q * e + r, rest), e, q, Sticky(r, rest));
    var half := e / 2;
    SameSide(r, rest, d, half);
    Halves(r * d + rest, half, d);
    assert e == 2 * half;
  }

  /** Rounding what a sticky digit ends is rounding the number it stands for,
      by any divisor that is a multiple of four. */
  lemma {:induction false} StickyRounds(m: nat, rest: nat, d: nat, e: nat)
    requires rest < d && e > 0 && e % 4 == 0
    ensures e * d > 0 && HalfEven(Sticky(m, rest), e) == HalfEven(m * d + rest, e * d)
  {
    hide HalfEven, Sticky;
    var q, r := Split(m, e);
    PartsRound(q, e, r, d, rest);
  }

  lemma {:induction false} FourDivides(e: nat)
    requires e >= 2
    ensures Pow(10, e) % 4 == 0
  {
    PowNext(10, e - 1);
    PowNext(10, e - 2);
    assert Pow(10, e) == 4 * (25 * Pow(10, e - 2));
  }

  /** Up to 17 significant digits the code rounds every number correctly. */
  lemma {:induction false} RoundsCorrectly(exact: nat, significant: nat)
    requires 1 <= significant <= 17 && Length(exact) > significant
    ensures Length(exact) - LeadingDigits(exact).dropped > significant
    ensures Rounded(exact, significant) == Correct(exact, significant)
  {
    hide Pow, Length, HalfEven;
    if exact >= U64 {
      LongNumber(exact);
      var dropped := Length(exact) - 19;
      FourDivides(19 - significant);
      var d := Pow(10, dropped);
      Parts(exact, d);
      StickyRounds(exact / d, exact % d, d, Pow(10, 19 - significant));
      PowSum(10, 19 - significant, dropped);
    }
  }

  predicate Fails(exact: nat, significant: nat) {
    exact < U128 && Length(exact) > significant && Rounded(exact, significant) != Correct(exact, significant)
  }

  lemma {:induction false} LengthTwenty(exact: nat)
    requires 10000000000000000000 <= exact < 100000000000000000000
    ensures Length(exact) == 20
  {
    hide Length;
    assert Pow(10, 10) == 10000000000;
    assert Pow(10, 9) == 1000000000;
    PowSum(10, 10, 9);
    PowSum(10, 10, 10);
    LengthIf(exact, 20);
  }

  /** The last digit kept is 5 before and after it is made odd, so a number
      above halfway reads as halfway. */
  lemma {:induction false} EighteenFails()
    ensures Fails(20000000000000000051, 18)
  {
    hide Length;
    LengthTwenty(20000000000000000051);
    assert Pow(10, 1) == 10 && Pow(10, 2) == 100;
    assert LeadingDigits(20000000000000000051) == Leading(2000000000000000005, 1);
  }

  /** The digit made odd is printed. */
  lemma {:induction false} NineteenFails()
    ensures Fails(20000000000000000001, 19)
  {
    hide Length;
    LengthTwenty(20000000000000000001);
    assert Pow(10, 1) == 10;
    assert LeadingDigits(20000000000000000001) == Leading(2000000000000000001, 1);
  }

  lemma {:induction false} NeverFails(exact: nat, significant: nat)
    requires 1 <= significant <= 17
    ensures !Fails(exact, significant)
  {
    hide Rounded, Correct, Length;
    if Length(exact) > significant { RoundsCorrectly(exact, significant); }
  }

  /** Among the numbers of significant digits the first 19 digits can be asked
      for, the code rounds all integers of 128 bits correctly up to 17 only. */
  lemma {:induction false} CorrectUpToSeventeen(significant: nat)
    requires 1 <= significant <= 19
    ensures significant <= 17 <==> forall exact: nat :: !Fails(exact, significant)
  {
    hide *;
    if significant <= 17 {
      forall exact: nat ensures !Fails(exact, significant) { NeverFails(exact, significant); }
    } else {
      EighteenFails();
      NineteenFails();
    }
  }
}
