/** The layouts a decimal is written in and what they denote: `push_positional`,
    `push_exponential` and `Digits::read` in `layerstack/src/float_text.rs`, as
    functions of the text. */
module DecimalText {
  import opened Powers

  type Digit = d: int | 0 <= d < 10

  /** A decimal in scientific form: its first digit counts tens to `exponent`. */
  datatype Decimal = Decimal(negative: bool, digits: seq<Digit>, exponent: int) {
    function Magnitude(): real { DecimalValue(Number(digits), exponent - |digits| + 1) }
  }

  function Number(ds: seq<Digit>): nat {
    if ds == [] then 0 else Number(ds[..|ds| - 1]) * 10 + ds[|ds| - 1]
  }

  function Zeros(n: nat): (r: seq<Digit>)
    ensures |r| == n && forall i :: 0 <= i < n ==> r[i] == 0
  {
    seq(n, i requires 0 <= i < n => 0)
  }

  lemma {:induction false} NumberOfSum(a: seq<Digit>, b: seq<Digit>)
    ensures Number(a + b) == Number(a) * Pow(10, |b|) + Number(b)
  {
    if b == [] {
      assert a + b == a;
      PowNext(10, 0);
    } else {
      var (front, last) := (b[..|b| - 1], b[|b| - 1]);
      NumberOfSum(a, front);
      PowNext(10, |front|);
      assert (a + b)[..|a + b| - 1] == a + front;
      Tens(Number(a), Pow(10, |front|), Number(front), last);
    }
  }

  lemma {:induction false} Tens(n: nat, p: nat, m: nat, last: nat)
    ensures (n * p + m) * 10 + last == n * (10 * p) + (m * 10 + last)
  {
  }

  lemma {:induction false} NumberOfZeros(n: nat)
    ensures Number(Zeros(n)) == 0
  {
    if n > 0 {
      NumberOfZeros(n - 1);
      assert Zeros(n)[..n - 1] == Zeros(n - 1);
    }
  }

  /** The digits of an integer. */
  function DigitsOf(n: nat): seq<Digit> { if n < 10 then [n] else DigitsOf(n / 10) + [n % 10] }

  lemma {:induction false} DigitsOfIs(n: nat)
    ensures Number(DigitsOf(n)) == n && |DigitsOf(n)| >= 1
  {
    if n >= 10 {
      DigitsOfIs(n / 10);
      assert DigitsOf(n)[..|DigitsOf(n)| - 1] == DigitsOf(n / 10);
    } else {
      assert [n as Digit][..0] == [];
    }
  }

  // --------------------------------------------------------------- layouts

  function Char(d: Digit): char { ('0' as int + d) as char }

  predicate IsDigit(c: char) { '0' <= c <= '9' }

  function DigitOf(c: char): Digit { if IsDigit(c) then c as int - '0' as int else 0 }

  function Chars(ds: seq<Digit>): (r: string)
    ensures |r| == |ds| && forall i :: 0 <= i < |r| ==> r[i] == Char(ds[i])
  {
    seq(|ds|, i requires 0 <= i < |ds| => Char(ds[i]))
  }

  function Values(s: string): (r: seq<Digit>)
    ensures |r| == |s| && forall i :: 0 <= i < |r| ==> r[i] == DigitOf(s[i])
  {
    seq(|s|, i requires 0 <= i < |s| => DigitOf(s[i]))
  }

  function Sign(negative: bool): string { if negative then "-" else "" }

  /** `123.45`, `0.00012` or `1200`. */
  function PositionalBody(ds: seq<Digit>, exponent: int): string {
    var point := exponent + 1;
    if point <= 0 then "0." + Chars(Zeros(-point)) + Chars(ds)
    else if point >= |ds| then Chars(ds) + Chars(Zeros(point - |ds|))
    else Chars(ds[..point]) + "." + Chars(ds[point..])
  }

  function Positional(d: Decimal): string { Sign(d.negative) + PositionalBody(d.digits, d.exponent) }

  function Abs(e: int): nat { if e < 0 then -e else e }

  function ExponentSign(e: int, cStyle: bool): string { if e < 0 then "-" else if cStyle then "+" else "" }

  function Padding(e: int, cStyle: bool): string { if cStyle && Abs(e) < 10 then "0" else "" }

  function Mantissa(ds: seq<Digit>): string
    requires ds != []
  {
    Chars(ds[..1]) + if |ds| > 1 then "." + Chars(ds[1..]) else ""
  }

  function ExponentText(e: int, cStyle: bool): string {
    ExponentSign(e, cStyle) + Padding(e, cStyle) + Chars(DigitsOf(Abs(e)))
  }

  /** One digit, the rest after a point, and the exponent, in the C style signed
      and at least two digits wide. */
  function Exponential(d: Decimal, cStyle: bool): string
    requires d.digits != []
  {
    Sign(d.negative) + (Mantissa(d.digits) + "e" + ExponentText(d.exponent, cStyle))
  }

  // --------------------------------------------------- what a text denotes

  /** The index of the first `c`, or the length. */
  function Find(s: string, c: char): (n: nat)
    ensures n <= |s| && (n < |s| ==> s[n] == c)
  {
    if s == "" then 0 else if s[0] == c then 0 else 1 + Find(s[1..], c)
  }

  function Before(s: string, c: char): string { s[..Find(s, c)] }

  function After(s: string, c: char): string { var n := Find(s, c); if n < |s| then s[n + 1..] else "" }

  function SignedInteger(s: string): int {
    if s != "" && s[0] == '-' then -(Number(Values(s[1..])) as int)
    else if s != "" && s[0] == '+' then Number(Values(s[1..]))
    else Number(Values(s))
  }

  /** The number a decimal text stands for: its sign, and its magnitude read
      from the digits around the point and the exponent. */
  datatype Real = Real(negative: bool, magnitude: real)

  function BodyMeaning(body: string): real {
    var mantissa := Before(body, 'e');
    var (whole, part) := (Before(mantissa, '.'), After(mantissa, '.'));
    DecimalValue(Number(Values(whole + part)), SignedInteger(After(body, 'e')) - |part|)
  }

  function Meaning(text: string): Real {
    if text != "" && text[0] == '-' then Real(true, BodyMeaning(text[1..])) else Real(false, BodyMeaning(text))
  }

  lemma {:induction false} FindFirst(a: string, c: char, b: string)
    requires c !in a
    ensures Find(a + [c] + b, c) == |a|
  {
    var s := a + [c] + b;
    if a != "" {
      assert s[1..] == a[1..] + [c] + b;
      assert a[0] != c;
      FindFirst(a[1..], c, b);
    }
  }

  lemma {:induction false} FindNone(a: string, c: char)
    requires c !in a
    ensures Find(a, c) == |a|
  {
    if a != "" {
      assert a[0] != c;
      FindNone(a[1..], c);
    }
  }

  lemma {:induction false} SplitsAt(a: string, c: char, b: string)
    requires c !in a
    ensures Before(a + [c] + b, c) == a && After(a + [c] + b, c) == b
  {
    FindFirst(a, c, b);
  }

  lemma {:induction false} NoSplit(a: string, c: char)
    requires c !in a
    ensures Before(a, c) == a && After(a, c) == ""
  {
    FindNone(a, c);
  }

  /** The characters of digits are digits. */
  lemma {:induction false} CharsAreDigits(ds: seq<Digit>)
    ensures Values(Chars(ds)) == ds
    ensures forall c :: c in Chars(ds) ==> IsDigit(c)
  {
  }

  lemma {:induction false} ValuesOfSum(a: string, b: string)
    ensures Values(a + b) == Values(a) + Values(b)
  {
  }

  lemma {:induction false} CharsOfSum(a: seq<Digit>, b: seq<Digit>)
    ensures Chars(a + b) == Chars(a) + Chars(b)
  {
  }

  lemma {:induction false} Signed(negative: bool, body: string)
    requires body != "" && body[0] != '-'
    ensures Meaning(Sign(negative) + body) == Real(negative, BodyMeaning(body))
  {
    assert Sign(negative) + body == if negative then "-" + body else body;
    assert ("-" + body)[1..] == body;
  }

  /** A whole part, a point and a fraction. */
  lemma {:induction false} PointMeans(a: seq<Digit>, b: seq<Digit>)
    ensures BodyMeaning(Chars(a) + "." + Chars(b)) == DecimalValue(Number(a + b), -|b|)
  {
    hide DecimalValue, Number;
    CharsAreDigits(a);
    CharsAreDigits(b);
    var s := Chars(a) + "." + Chars(b);
    NoSplit(s, 'e');
    SplitsAt(Chars(a), '.', Chars(b));
    ValuesOfSum(Chars(a), Chars(b));
    assert Number(Values("")) == 0 by { NumberOfZeros(0); assert Values("") == Zeros(0); }
  }

  lemma {:induction false} IntegerMeans(a: seq<Digit>)
    ensures BodyMeaning(Chars(a)) == DecimalValue(Number(a), 0)
  {
    hide DecimalValue, Number;
    CharsAreDigits(a);
    NoSplit(Chars(a), 'e');
    NoSplit(Chars(a), '.');
    assert Chars(a) + "" == Chars(a);
    assert Number(Values("")) == 0 by { NumberOfZeros(0); assert Values("") == Zeros(0); }
  }

  lemma {:induction false} Shifted(n: nat, e: nat, m: int)
    ensures DecimalValue(n * Pow(10, e), m) == DecimalValue(n, m + e)
  {
    hide Power, Pow;
    PowerSum(10, e, m);
    TenPower(e);
    assert (n * Pow(10, e)) as real == n as real * Pow(10, e) as real;
    assert n as real * Pow(10, e) as real * Power(10, m) == n as real * (Pow(10, e) as real * Power(10, m));
  }

  lemma {:induction false} TenPower(e: nat)
    ensures Power(10, e) == Pow(10, e) as real
  {
  }

  lemma {:induction false} LeadingZeros(ds: seq<Digit>, n: nat)
    ensures Number(Zeros(n) + ds) == Number(ds)
  {
    hide Pow;
    NumberOfSum(Zeros(n), ds);
    NumberOfZeros(n);
  }

  lemma {:induction false} PointBefore(ds: seq<Digit>, n: nat)
    requires ds != []
    ensures BodyMeaning("0." + Chars(Zeros(n)) + Chars(ds)) == DecimalValue(Number(ds), -(n as int) - |ds|)
  {
    hide DecimalValue, Number, BodyMeaning, Pow;
    var (a, b) := ([0 as Digit], Zeros(n) + ds);
    CharsOfSum(Zeros(n), ds);
    assert Chars(a) == "0";
    assert "0." + Chars(Zeros(n)) + Chars(ds) == Chars(a) + "." + Chars(b);
    PointMeans(a, b);
    assert a + b == Zeros(n + 1) + ds;
    LeadingZeros(ds, n + 1);
  }

  lemma {:induction false} PointAfter(ds: seq<Digit>, n: nat)
    requires ds != []
    ensures BodyMeaning(Chars(ds) + Chars(Zeros(n))) == DecimalValue(Number(ds), n)
  {
    hide DecimalValue, Number, BodyMeaning, Pow;
    CharsOfSum(ds, Zeros(n));
    IntegerMeans(ds + Zeros(n));
    NumberOfSum(ds, Zeros(n));
    NumberOfZeros(n);
    Shifted(Number(ds), n, 0);
  }

  lemma {:induction false} PositionalBodyMeans(ds: seq<Digit>, e: int)
    requires ds != []
    ensures BodyMeaning(PositionalBody(ds, e)) == DecimalValue(Number(ds), e - |ds| + 1)
  {
    hide DecimalValue, Number, BodyMeaning, Chars, Zeros;
    var point := e + 1;
    if point <= 0 {
      PointBefore(ds, -point);
    } else if point >= |ds| {
      PointAfter(ds, point - |ds|);
    } else {
      PointMeans(ds[..point], ds[point..]);
      assert ds[..point] + ds[point..] == ds;
    }
  }

  lemma {:induction false} PositionalStarts(ds: seq<Digit>, e: int)
    requires ds != []
    ensures PositionalBody(ds, e) != "" && PositionalBody(ds, e)[0] != '-'
  {
    CharsAreDigits(ds);
    var point := e + 1;
    if 0 < point < |ds| { assert PositionalBody(ds, e)[0] == Char(ds[0]); }
    if point >= |ds| { assert PositionalBody(ds, e)[0] == Char(ds[0]); }
    if point <= 0 { assert PositionalBody(ds, e)[0] == '0'; }
  }

  /** The positional layout denotes the decimal, wherever its point falls. */
  lemma {:induction false} PositionalMeans(d: Decimal)
    requires d.digits != []
    ensures Meaning(Positional(d)) == Real(d.negative, d.Magnitude())
  {
    hide DecimalValue, Number, BodyMeaning, Meaning, PositionalBody;
    PositionalBodyMeans(d.digits, d.exponent);
    PositionalStarts(d.digits, d.exponent);
    Signed(d.negative, PositionalBody(d.digits, d.exponent));
  }

  /** A zero before digits does not change what they are read as. */
  lemma {:induction false} PaddedDigits(pad: string, ds: seq<Digit>)
    requires pad == "" || pad == "0"
    ensures Number(Values(pad + Chars(ds))) == Number(ds)
  {
    hide Number, Chars, Values;
    CharsAreDigits(ds);
    ValuesOfSum(pad, Chars(ds));
    if pad == "0" {
      ZeroIsRead();
      LeadingZeros(ds, 1);
    } else {
      assert pad + Chars(ds) == Chars(ds);
    }
  }

  lemma {:induction false} ZeroIsRead()
    ensures Values("0") == Zeros(1)
  {
  }

  /** A sign before a digit is read as the sign. */
  lemma {:induction false} SignedDigits(sign: string, tail: string)
    requires (sign == "" || sign == "-" || sign == "+") && tail != "" && IsDigit(tail[0])
    ensures SignedInteger(sign + tail) == if sign == "-" then -(Number(Values(tail)) as int) else Number(Values(tail))
  {
    hide Number, Values;
    var s := sign + tail;
    assert s[|sign|..] == tail;
    assert sign == "" ==> s == tail;
    assert sign != "" ==> s[0] == sign[0];
  }

  /** An exponent is read as it is written. */
  lemma {:induction false} ExponentMeans(e: int, cStyle: bool)
    ensures SignedInteger(ExponentText(e, cStyle)) == e
  {
    hide Number, DigitsOf, Values, SignedInteger;
    var ds := DigitsOf(Abs(e));
    DigitsOfIs(Abs(e));
    CharsAreDigits(ds);
    var (sign, pad) := (ExponentSign(e, cStyle), Padding(e, cStyle));
    var tail := pad + Chars(ds);
    PaddedDigits(pad, ds);
    assert tail[0] == if pad == "" then Chars(ds)[0] else pad[0];
    assert pad == "" ==> tail[0] in Chars(ds);
    SignedDigits(sign, tail);
    assert sign + pad + Chars(ds) == sign + tail;
  }

  lemma {:induction false} MantissaHasNoExponent(ds: seq<Digit>)
    requires ds != []
    ensures 'e' !in Mantissa(ds) && Mantissa(ds) != "" && Mantissa(ds)[0] != '-'
  {
    CharsAreDigits(ds[..1]);
    CharsAreDigits(ds[1..]);
    assert Mantissa(ds)[0] == Chars(ds[..1])[0];
    assert forall c :: c in Mantissa(ds) ==> c in Chars(ds[..1]) || c == '.' || c in Chars(ds[1..]);
  }

  lemma {:induction false} MantissaParts(ds: seq<Digit>)
    requires ds != []
    ensures Before(Mantissa(ds), '.') == Chars(ds[..1]) && After(Mantissa(ds), '.') == Chars(ds[1..])
  {
    CharsAreDigits(ds[..1]);
    if |ds| > 1 {
      assert Mantissa(ds) == Chars(ds[..1]) + "." + Chars(ds[1..]);
      SplitsAt(Chars(ds[..1]), '.', Chars(ds[1..]));
    } else {
      NoSplit(Chars(ds[..1]), '.');
    }
  }

  /** The exponential layout denotes the decimal, in either style. */
  lemma {:induction false} ExponentialMeans(d: Decimal, cStyle: bool)
    requires d.digits != []
    ensures Meaning(Exponential(d, cStyle)) == Real(d.negative, d.Magnitude())
  {
    hide DecimalValue, Number, Before, After, Mantissa, ExponentText, SignedInteger, Meaning;
    var ds := d.digits;
    var body := Mantissa(ds) + "e" + ExponentText(d.exponent, cStyle);
    MantissaHasNoExponent(ds);
    SplitsAt(Mantissa(ds), 'e', ExponentText(d.exponent, cStyle));
    MantissaParts(ds);
    ExponentMeans(d.exponent, cStyle);
    CharsOfSum(ds[..1], ds[1..]);
    assert ds[..1] + ds[1..] == ds;
    CharsAreDigits(ds);
    assert body[0] == Mantissa(ds)[0];
    Signed(d.negative, body);
  }

  // ------------------------------------------------------------- read back

  /** The digits of a text up to its `e`. */
  function ReadDigits(s: string): seq<Digit> {
    if s == "" || s[0] == 'e' then []
    else (if s[0] == '.' then [] else [DigitOf(s[0])]) + ReadDigits(s[1..])
  }

  function ReadExponent(s: string): nat {
    if s == "" then 0
    else
      var last := s[|s| - 1];
      var before := ReadExponent(s[..|s| - 1]);
      if last == '-' then before else before * 10 + DigitOf(last)
  }

  function ReadBody(negative: bool, body: string): Decimal {
    var tail := After(body, 'e');
    Decimal(negative, ReadDigits(body), if '-' in tail then -(ReadExponent(tail) as int) else ReadExponent(tail))
  }

  function Read(text: string): Decimal {
    if text != "" && text[0] == '-' then ReadBody(true, text[1..]) else ReadBody(false, text)
  }

  lemma {:induction false} ReadsDigits(ds: seq<Digit>, tail: string)
    ensures ReadDigits(Chars(ds) + tail) == ds + ReadDigits(tail)
  {
    var s := Chars(ds) + tail;
    if ds == [] {
      assert s == tail;
    } else {
      assert IsDigit(s[0]) && DigitOf(s[0]) == ds[0];
      assert s[1..] == Chars(ds[1..]) + tail;
      ReadsDigits(ds[1..], tail);
      assert ds == [ds[0]] + ds[1..];
    }
  }

  lemma {:induction false} ReadsMarks(tail: string)
    ensures ReadDigits("e" + tail) == [] && ReadDigits("." + tail) == ReadDigits(tail)
  {
    assert ("." + tail)[1..] == tail;
  }

  lemma {:induction false} ReadsMantissa(ds: seq<Digit>, tail: string)
    requires ds != []
    ensures ReadDigits(Mantissa(ds) + "e" + tail) == ds
  {
    hide ReadDigits, Chars;
    var rest := "e" + tail;
    ReadsMarks(tail);
    if |ds| > 1 {
      var fraction := Chars(ds[1..]) + rest;
      assert Mantissa(ds) + "e" + tail == Chars(ds[..1]) + ("." + fraction);
      ReadsMarks(fraction);
      ReadsDigits(ds[..1], "." + fraction);
      ReadsDigits(ds[1..], rest);
      assert ds == ds[..1] + ds[1..];
    } else {
      assert ds[..1] == ds;
      assert Mantissa(ds) + "e" + tail == Chars(ds) + rest;
      ReadsDigits(ds, rest);
    }
  }

  lemma {:induction false} ReadsNumber(sign: string, ds: seq<Digit>)
    requires sign == "" || sign == "-"
    ensures ReadExponent(sign + Chars(ds)) == Number(ds)
  {
    var s := sign + Chars(ds);
    if ds != [] {
      var front := ds[..|ds| - 1];
      assert s[..|s| - 1] == sign + Chars(front);
      assert s[|s| - 1] == Char(ds[|ds| - 1]);
      ReadsNumber(sign, front);
    } else {
      assert s == sign;
      assert "-"[..0] == "";
    }
  }

  lemma {:induction false} ReadsExponent(e: int)
    ensures var tail := ExponentText(e, false);
      ('-' in tail <==> e < 0) && ReadExponent(tail) == Abs(e)
  {
    hide Number, DigitsOf, ReadExponent;
    var (sign, number) := (ExponentSign(e, false), DigitsOf(Abs(e)));
    var tail := ExponentText(e, false);
    assert tail == sign + Chars(number);
    DigitsOfIs(Abs(e));
    ReadsNumber(sign, number);
    CharsAreDigits(number);
    assert e < 0 ==> tail[0] == '-';
    assert forall c :: c in tail ==> c in sign || c in Chars(number);
  }

  /** Reading inverts the exponential layout, digit for digit. */
  lemma {:induction false} ReadInverts(d: Decimal)
    requires d.digits != []
    ensures Read(Exponential(d, false)) == d
  {
    hide Before, ExponentText, Mantissa, ReadDigits, ReadExponent, After;
    var tail := ExponentText(d.exponent, false);
    var body := Mantissa(d.digits) + "e" + tail;
    MantissaHasNoExponent(d.digits);
    SplitsAt(Mantissa(d.digits), 'e', tail);
    ReadsMantissa(d.digits, tail);
    ReadsExponent(d.exponent);
    assert body[0] == Mantissa(d.digits)[0];
    assert ("-" + body)[1..] == body;
    assert Exponential(d, false) == if d.negative then "-" + body else body;
  }
}
