/** Powers of positive integers and of two, five and ten as real numbers, and
    facts of division. */
module Powers {

  function Pow(b: nat, e: nat): (r: nat)
    ensures b > 0 ==> r > 0
  {
    if e == 0 then 1 else b * Pow(b, e - 1)
  }

  function Power(b: nat, e: int): (r: real)
    requires b > 0
    ensures r > 0.0
  {
    if e >= 0 then Pow(b, e) as real else 1.0 / (Pow(b, -e) as real)
  }

  /** `m * 10^p` */
  function DecimalValue(m: nat, p: int): real { m as real * Power(10, p) }

  lemma {:induction false} PowNext(b: nat, e: nat)
    ensures Pow(b, e + 1) == b * Pow(b, e) && Pow(b, 0) == 1
  {
  }

  lemma {:induction false} Associate(a: nat, b: nat, c: nat)
    ensures a * (b * c) == a * b * c
  {
  }

  lemma {:induction false} PowSum(b: nat, x: nat, y: nat)
    ensures Pow(b, x + y) == Pow(b, x) * Pow(b, y)
  {
    hide Pow;
    if x == 0 {
      PowNext(b, 0);
    } else {
      PowSum(b, x - 1, y);
      PowNext(b, x - 1 + y);
      PowNext(b, x - 1);
      Associate(b, Pow(b, x - 1), Pow(b, y));
    }
  }

  lemma {:induction false} PowUp(b: nat, x: nat, y: nat)
    requires b > 0 && x <= y
    ensures Pow(b, x) <= Pow(b, y)
    decreases y
  {
    if x < y {
      PowUp(b, x, y - 1);
      assert Pow(b, y) == b * Pow(b, y - 1) >= Pow(b, y - 1);
    }
  }

  lemma {:induction false} PowTen(e: nat)
    ensures Pow(10, e) == Pow(2, e) * Pow(5, e)
  {
    if e > 0 { PowTen(e - 1); }
  }

  lemma {:induction false} PowOfTwoIsEven(e: nat)
    requires e > 0
    ensures Pow(2, e) % 2 == 0
  {
  }

  lemma {:induction false} PowOfFiveIsOdd(e: nat)
    ensures Pow(5, e) % 2 == 1
  {
    if e > 0 { PowOfFiveIsOdd(e - 1); }
  }

  lemma {:induction false} Cancels(x: real, y: real, z: real)
    requires z > 0.0 && x * z == y * z
    ensures x == y
  {
    assert (x - y) * z == 0.0;
  }

  lemma {:induction false} InverseTimes(b: real, p: real)
    requires b > 0.0 && p > 0.0 && b * p > 0.0
    ensures b * (1.0 / (b * p)) == 1.0 / p
  {
    var (x, y) := (1.0 / (b * p), 1.0 / p);
    assert x * (b * p) == 1.0 && y * p == 1.0;
    assert (b * x) * p == x * (b * p);
    Cancels(b * x, y, p);
  }

  lemma {:induction false} PowerNext(b: nat, e: int)
    requires b > 0
    ensures Power(b, e + 1) == b as real * Power(b, e)
  {
    if e < 0 {
      var p := Pow(b, -e - 1);
      assert Pow(b, -e) == b * p;
      assert (b * p) as real == b as real * p as real;
      InverseTimes(b as real, p as real);
      assert Power(b, e + 1) == 1.0 / p as real;
    } else {
      assert Pow(b, e + 1) == b * Pow(b, e);
    }
  }

  lemma {:induction false} Swap(a: real, x: real, y: real)
    ensures a * (x * y) == x * (a * y)
  {
  }

  lemma {:induction false} PowerZero(b: nat)
    requires b > 0
    ensures Power(b, 0) == 1.0
  {
  }

  /** One step of `PowerSum`, up or down. */
  lemma {:induction false} PowerSumStep(b: nat, x: int, y: int)
    requires b > 0
    ensures Power(b, x + y) == Power(b, x) * Power(b, y) <==> Power(b, x + y + 1) == Power(b, x) * Power(b, y + 1)
  {
    hide Power, Pow;
    PowerNext(b, x + y);
    PowerNext(b, y);
    var (r, p, q) := (b as real, Power(b, x), Power(b, y));
    Swap(r, p, q);
    assert Power(b, x) * Power(b, y + 1) == r * (p * q);
    if r * Power(b, x + y) == r * (p * q) { Back(r, Power(b, x + y), p * q); }
  }

  lemma {:induction false} PowerSum(b: nat, x: int, y: int)
    requires b > 0
    ensures Power(b, x + y) == Power(b, x) * Power(b, y)
    decreases if y >= 0 then y else -y
  {
    hide Power, Pow;
    if y == 0 {
      PowerZero(b);
    } else if y > 0 {
      PowerSum(b, x, y - 1);
      PowerSumStep(b, x, y - 1);
    } else {
      PowerSum(b, x, y + 1);
      PowerSumStep(b, x, y);
    }
  }

  lemma {:induction false} Back(b: real, x: real, y: real)
    requires b > 0.0 && b * x == b * y
    ensures x == y
  {
    Cancels(x, y, b);
  }

  lemma {:induction false} PowerTen(e: int)
    ensures Power(10, e) == Power(2, e) * Power(5, e)
    decreases if e >= 0 then e else -e
  {
    hide Power, Pow;
    if e == 0 {
      PowerZero(10);
      PowerZero(2);
      PowerZero(5);
    } else if e > 0 {
      PowerTen(e - 1);
      PowerNext(10, e - 1);
      PowerNext(2, e - 1);
      PowerNext(5, e - 1);
      Pairs(2.0, Power(2, e - 1), 5.0, Power(5, e - 1));
    } else {
      PowerTen(e + 1);
      PowerNext(10, e);
      PowerNext(2, e);
      PowerNext(5, e);
      Pairs(2.0, Power(2, e), 5.0, Power(5, e));
      Cancels(Power(10, e), Power(2, e) * Power(5, e), 10.0);
    }
  }

  lemma {:induction false} Pairs(a: real, x: real, b: real, y: real)
    ensures (a * x) * (b * y) == (a * b) * (x * y)
  {
    assert (a * x) * (b * y) == a * (x * (b * y));
    Swap(b, x, y);
    assert a * (b * (x * y)) == (a * b) * (x * y);
  }

  // ------------------------------------------------------------ division

  lemma {:induction false} AtLeast(a: nat, b: nat)
    requires a > 0
    ensures a * b >= b
  {
  }

  lemma {:induction false} OneQuotient(a: int, r: nat, q: int, s: nat, b: nat)
    requires a * b + r == q * b + s && r < b && s < b
    ensures a == q && r == s
  {
    assert (a - q) * b == a * b - q * b;
    if a > q { AtLeast(a - q, b); } else if a < q {
      assert (q - a) * b == q * b - a * b;
      AtLeast(q - a, b);
    }
  }

  lemma {:induction false} MultipleRest(a: nat, b: nat, r: nat)
    requires r < b
    ensures (a * b + r) % b == r && (a * b + r) / b == a
  {
    var n := a * b + r;
    var (q, s) := (n / b, n % b);
    assert n == b * q + s;
    assert b * q == q * b;
    OneQuotient(a, r, q, s, b);
  }

  lemma {:induction false} Parts(n: nat, d: nat)
    requires d > 0
    ensures n == n / d * d + n % d && n % d < d
  {
    assert n == d * (n / d) + n % d;
  }
}
