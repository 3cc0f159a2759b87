/** Division rounded to the nearest integer, half to even. */
module Rounding {
  import opened Powers

  /** `n / d` rounded to the nearest integer, half to even. */
  function HalfEven(n: nat, d: nat): nat
    requires d > 0
  {
    var (quotient, remainder) := (n / d, n % d);
    if 2 * remainder > d || (2 * remainder == d && quotient % 2 == 1) then quotient + 1 else quotient
  }

  function Distance(a: int, b: int): nat { if a <= b then b - a else a - b }

  lemma {:induction false} Next(a: int, d: int)
    ensures (a + 1) * d == a * d + d
  {
  }

  /** It is nearest, and even where two are. */
  lemma {:induction false} HalfEvenNearest(n: nat, d: nat)
    requires d > 0
    ensures var h := HalfEven(n, d); 2 * Distance(n, h * d) <= d && (2 * Distance(n, h * d) == d ==> h % 2 == 0)
  {
    var (q, r) := (n / d, n % d);
    assert n == d * q + r == q * d + r;
    Next(q, d);
  }

  lemma {:induction false} Below(r: nat, e: nat, d: nat)
    requires r < e
    ensures r * d + d <= e * d
  {
    assert (e - r) * d == e * d - r * d;
    AtLeast(e - r, d);
  }

  lemma {:induction false} HalfEvenIs(n: nat, d: nat, q: nat, r: nat)
    requires n == q * d + r && r < d
    ensures HalfEven(n, d) == if 2 * r > d || (2 * r == d && q % 2 == 1) then q + 1 else q
  {
    MultipleRest(q, d, r);
  }

  lemma {:induction false} Split(n: nat, d: nat) returns (q: nat, r: nat)
    requires d > 0
    ensures n == q * d + r && r < d
  {
    Parts(n, d);
    q, r := n / d, n % d;
  }
}
