/** What the order of names does with numbers, letters and other characters, said
    in bytes and without its tokens: the promises of `dictionary_cmp` in
    `layerstack/src/ident.rs`. */
module NameOrder {
  import opened DictionaryOrder

  /** The bytes of an integer written without leading zeros. */
  function Decimal(n: nat): seq<Byte> { if n < 10 then [48 + n] else Decimal(n / 10) + [48 + n % 10] }

  function Zeros(n: nat): (r: seq<Byte>)
    ensures |r| == n && forall i :: 0 <= i < n ==> r[i] == 48
  {
    seq(n, i requires 0 <= i < n => 48)
  }

  predicate EndsInDigit(p: seq<Byte>) { p != [] && 48 <= p[|p| - 1] <= 57 }

  predicate StartsInDigit(s: seq<Byte>) { s != [] && 48 <= s[0] <= 57 }

  // ---------------------------------------------------------------- numbers

  lemma {:induction false} DecimalIs(n: nat)
    ensures Digits(Decimal(n)) && Decimal(n) != [] && Value(Decimal(n)) == n
    ensures n > 0 ==> Decimal(n)[0] != 48
  {
    if n >= 10 {
      DecimalIs(n / 10);
      var (front, last) := (Decimal(n / 10), 48 + n % 10);
      assert Decimal(n)[..|front|] == front;
    } else {
      assert [48 + n][..0] == [];
    }
  }

  /** The digits of a number with zeros before it. */
  function Padded(zeros: nat, n: nat): seq<Byte> { Zeros(zeros) + Decimal(n) }

  lemma {:induction false} PaddedIs(zeros: nat, n: nat)
    ensures Digits(Padded(zeros, n)) && Padded(zeros, n) != [] && Value(Padded(zeros, n)) == n
  {
    DecimalIs(n);
    var s := Padded(zeros, n);
    assert Digits(s);
    ValueOfZeros(s, zeros);
    assert s[zeros..] == Decimal(n);
  }

  lemma {:induction false} PaddedAt(p: seq<Byte>, d: seq<Byte>, s: seq<Byte>)
    requires Digits(d) && d != [] && !EndsInDigit(p) && !StartsInDigit(s)
    ensures var (l, e) := (p + d + s, |p| + |d|);
      && Boundary(l, |p|) && Boundary(l, e) && RunEnd(l, |p|) == e && l[|p|..e] == d
      && (forall k :: 0 <= k < |d| ==> l[|p| + k] == d[k]) && (forall k :: 0 <= k < |s| ==> l[e + k] == s[k])
  {
    var (l, e) := (p + d + s, |p| + |d|);
    RunEndIs(l, |p|, e);
  }

  lemma {:induction false} NumberAt(p: seq<Byte>, d: seq<Byte>, s: seq<Byte>)
    requires Digits(d) && d != [] && !EndsInDigit(p) && !StartsInDigit(s)
    ensures var (l, a) := (p + d + s, |p|);
      Boundary(l, a) && Digit(l[a]) && TokenEnd(l, a) == a + |d| && TokenAt(l, a) == RunToken(d, a == 0)
  {
    hide RunToken;
    PaddedAt(p, d, s);
    var (l, a) := (p + d + s, |p|);
    assert l[a] == d[0];
  }

  lemma {:induction false} PrefixAligned(p: seq<Byte>, l: seq<Byte>, r: seq<Byte>)
    requires p <= l && p <= r && Boundary(l, |p|) && Boundary(r, |p|)
    ensures Aligned(l, |p|, r, |p|)
  {
    hide Key, LexLess, TokenAt;
    assert forall k :: 0 <= k < |p| ==> l[k] == p[k] == r[k];
    SkipAgreement(l, 0, r, 0, |p|);
  }

  lemma {:induction false} ByValue(d: seq<Byte>, e: seq<Byte>, first: bool)
    requires Digits(d) && Digits(e) && Value(d) < Value(e)
    ensures TokenLess(RunToken(d, first), RunToken(e, first)) && RunToken(d, first) != RunToken(e, first)
  {
  }

  /** Numbers in the same place of two names order them by value, whatever their
      leading zeros and whatever follows. */
  lemma {:induction false} NumbersOrdered(
      p: seq<Byte>, i: nat, m: nat, s: seq<Byte>, j: nat, n: nat, t: seq<Byte>)
    requires m < n && !EndsInDigit(p) && !StartsInDigit(s) && !StartsInDigit(t)
    ensures Less(p + Padded(i, m) + s, p + Padded(j, n) + t)
  {
    hide *;
    PaddedIs(i, m);
    PaddedIs(j, n);
    NumberAt(p, Padded(i, m), s);
    NumberAt(p, Padded(j, n), t);
    var (l, r) := (p + Padded(i, m) + s, p + Padded(j, n) + t);
    PrefixAligned(p, l, r);
    ByValue(Padded(i, m), Padded(j, n), |p| == 0);
    TokensDecide(l, |p|, r, |p|);
  }

  lemma {:induction false} SameValue(d: seq<Byte>, e: seq<Byte>, first: bool)
    requires Digits(d) && Digits(e) && Value(d) == Value(e) > 0
    ensures RunToken(d, first) == RunToken(e, first)
  {
  }

  lemma {:induction false} AlignedEnds(l: seq<Byte>, r: seq<Byte>)
    requires Aligned(l, |l|, r, |r|)
    ensures Key(l, 0) == Key(r, 0)
  {
  }

  lemma {:induction false} TailAgrees(l: seq<Byte>, a: nat, r: seq<Byte>, b: nat, s: seq<Byte>)
    requires Aligned(l, a, r, b) && |l| == a + |s| && |r| == b + |s|
    requires forall k :: 0 <= k < |s| ==> l[a + k] == s[k] && r[b + k] == s[k]
    ensures Key(l, 0) == Key(r, 0)
  {
    hide Key, LexLess, TokenAt;
    forall k | a <= k < a + |s| ensures l[k] == r[k - a + b] { assert l[a + (k - a)] == s[k - a] == r[b + (k - a)]; }
    forall k | b <= k < b + |s| ensures r[k] == l[k - b + a] { assert r[b + (k - b)] == s[k - b] == l[a + (k - b)]; }
    SkipAgreement(l, a, r, b, |s|);
    AlignedEnds(l, r);
  }

  /** Leading zeros of a number that is not zero change no token. */
  lemma {:induction false} ZerosAlike(p: seq<Byte>, i: nat, j: nat, n: nat, s: seq<Byte>)
    requires n > 0 && !EndsInDigit(p) && !StartsInDigit(s)
    ensures Key(p + Padded(i, n) + s, 0) == Key(p + Padded(j, n) + s, 0)
  {
    hide *;
    PaddedIs(i, n);
    PaddedIs(j, n);
    var (d, e) := (Padded(i, n), Padded(j, n));
    var (l, r) := (p + d + s, p + e + s);
    PaddedAt(p, d, s);
    PaddedAt(p, e, s);
    NumberAt(p, d, s);
    NumberAt(p, e, s);
    PrefixAligned(p, l, r);
    SameValue(d, e, |p| == 0);
    AlignedStep(l, |p|, r, |p|);
    TailAgrees(l, |p| + |d|, r, |p| + |e|, s);
  }

  lemma {:induction false} ByLength(d: seq<Byte>, e: seq<Byte>, first: bool)
    requires Digits(d) && Digits(e) && Value(d) == Value(e) == 0 && |d| < |e|
    ensures TokenLess(RunToken(d, first), RunToken(e, first)) && RunToken(d, first) != RunToken(e, first)
  {
  }

  /** Runs of zeros alone order by their length, whatever follows. */
  lemma {:induction false} ZeroRunsByLength(p: seq<Byte>, i: nat, s: seq<Byte>, j: nat, t: seq<Byte>)
    requires i < j && !EndsInDigit(p) && !StartsInDigit(s) && !StartsInDigit(t)
    ensures Less(p + Padded(i, 0) + s, p + Padded(j, 0) + t)
    ensures Key(p + Padded(i, 0) + s, 0) != Key(p + Padded(j, 0) + t, 0)
  {
    hide *;
    PaddedIs(i, 0);
    PaddedIs(j, 0);
    PaddedLength(i);
    PaddedLength(j);
    NumberAt(p, Padded(i, 0), s);
    NumberAt(p, Padded(j, 0), t);
    var (l, r) := (p + Padded(i, 0) + s, p + Padded(j, 0) + t);
    PrefixAligned(p, l, r);
    ByLength(Padded(i, 0), Padded(j, 0), |p| == 0);
    TokensDecide(l, |p|, r, |p|);
  }

  lemma {:induction false} PaddedLength(i: nat)
    ensures |Padded(i, 0)| == i + 1
  {
  }

  /** So leading zeros are ignored exactly before a number that is not zero. */
  lemma {:induction false} ZerosIgnored(p: seq<Byte>, i: nat, j: nat, n: nat, s: seq<Byte>)
    requires !EndsInDigit(p) && !StartsInDigit(s)
    ensures Key(p + Padded(i, n) + s, 0) == Key(p + Padded(j, n) + s, 0) <==> n > 0 || i == j
  {
    hide *;
    if n > 0 { ZerosAlike(p, i, j, n, s); }
    else if i < j { ZeroRunsByLength(p, i, s, j, s); }
    else if j < i { ZeroRunsByLength(p, j, s, i, s); }
  }

  lemma {:induction false} TiesLess(l: seq<Byte>, r: seq<Byte>, n: nat)
    requires Key(l, 0) == Key(r, 0) && n < |l| && n < |r| && l[..n] == r[..n] && l[n] != r[n]
    ensures Less(l, r) <==> r[n] == 48 || (l[n] != 48 && l[n] < r[n])
  {
    hide Key, Ties;
    assert forall k :: 0 <= k < n ==> l[k] == l[..n][k] && r[k] == r[..n][k];
    TiesDecide(l, r, n);
    LexIrreflexive(Key(l, 0));
  }

  /** Of names alike but for leading zeros the one with fewer comes first. */
  lemma {:induction false} FewerZerosFirst(p: seq<Byte>, i: nat, j: nat, n: nat, s: seq<Byte>)
    requires i < j && n > 0 && !EndsInDigit(p) && !StartsInDigit(s)
    ensures Less(p + Padded(i, n) + s, p + Padded(j, n) + s)
  {
    hide Less, Key, Ties, Decimal;
    ZerosAlike(p, i, j, n, s);
    DecimalIs(n);
    var (l, r, k) := (p + Padded(i, n) + s, p + Padded(j, n) + s, |p| + i);
    assert l[k] == Decimal(n)[0] && r[k] == 48;
    assert l[..k] == p + Zeros(i) == r[..k];
    TiesLess(l, r, k);
  }

  // ---------------------------------------------------------------- letters

  /** The same byte, or one letter in two cases. */
  predicate SameLetter(x: Byte, y: Byte) {
    x == y || (65 <= x <= 90 && y == x + 32) || (65 <= y <= 90 && x == y + 32)
  }

  predicate SameLetters(l: seq<Byte>, r: seq<Byte>) {
    |l| == |r| && forall k :: 0 <= k < |l| ==> SameLetter(l[k], r[k])
  }

  lemma {:induction false} SameToken(x: Byte, y: Byte)
    requires SameLetter(x, y)
    ensures Digit(x) == Digit(y) && (Digit(x) ==> x == y) && (!Digit(x) ==> CharToken(x) == CharToken(y))
  {
  }

  lemma {:induction false} SameRun(l: seq<Byte>, r: seq<Byte>, i: nat)
    requires SameLetters(l, r) && i < |l|
    ensures TokenEnd(l, i) == TokenEnd(r, i) && TokenAt(l, i) == TokenAt(r, i)
  {
    hide CharToken, RunToken;
    forall k | 0 <= k < |l| ensures Digit(l[k]) == Digit(r[k]) && (Digit(l[k]) ==> l[k] == r[k]) { SameToken(l[k], r[k]); }
    SameToken(l[i], r[i]);
    if Digit(l[i]) {
      RunEndIs(r, i, RunEnd(l, i));
      assert l[i..RunEnd(l, i)] == r[i..RunEnd(l, i)];
    }
  }

  lemma {:induction false} SameKeys(l: seq<Byte>, r: seq<Byte>, i: nat)
    requires SameLetters(l, r) && i <= |l|
    ensures Key(l, i) == Key(r, i)
    decreases |l| - i
  {
    hide TokenAt, TokenEnd;
    if i < |l| {
      SameRun(l, r, i);
      SameKeys(l, r, TokenEnd(l, i));
    }
  }

  /** Names that differ in case alone have one key, and then uppercase comes
      first at the first difference. */
  lemma {:induction false} CaseAlone(l: seq<Byte>, r: seq<Byte>, n: nat)
    requires SameLetters(l, r)
    ensures Key(l, 0) == Key(r, 0)
    ensures n < |l| && l[..n] == r[..n] && 65 <= l[n] <= 90 && r[n] == l[n] + 32 ==> Less(l, r)
  {
    hide Key, Less;
    SameKeys(l, r, 0);
    if n < |l| && l[..n] == r[..n] && l[n] != r[n] { TiesLess(l, r, n); }
  }

  // ------------------------------------------------------- other characters

  /** How two different bytes that are no digits order. From 64 to 127 they do by
      their place among 32, `_` before the letters and letters without their
      case; elsewhere by themselves. */
  predicate Earlier(x: Byte, y: Byte) {
    if 64 <= x < 128 && 64 <= y < 128 && (x + 5) % 32 != (y + 5) % 32 then (x + 5) % 32 < (y + 5) % 32 else x < y
  }

  lemma {:induction false} TokensEarlier(x: Byte, y: Byte)
    requires !SameLetter(x, y)
    ensures CharToken(x) != CharToken(y) && (TokenLess(CharToken(x), CharToken(y)) <==> Earlier(x, y))
  {
    hide Digit;
    if 64 <= x < 128 && 64 <= y < 128 { RanksApart(x, y); }
  }

  lemma {:induction false} RanksApart(x: Byte, y: Byte)
    requires 64 <= x < 128 && 64 <= y < 128 && !SameLetter(x, y)
    ensures Rank(x) == (x + 5) % 32 && Rank(y) == (y + 5) % 32
    ensures Rank(x) == Rank(y) ==> !Letter(x) && !Letter(y)
  {
  }

  lemma {:induction false} CharAt(p: seq<Byte>, x: Byte, s: seq<Byte>)
    requires !(48 <= x <= 57)
    ensures var l := p + [x] + s; p <= l && Boundary(l, |p|) && l[|p|] == x && !Digit(x) && TokenAt(l, |p|) == CharToken(x)
  {
    hide CharToken;
    var l := p + [x] + s;
    assert l[..|p|] == p;
  }

  /** Names alike up to two characters that are neither digits nor one letter. */
  lemma {:induction false} CharactersOrdered(p: seq<Byte>, x: Byte, s: seq<Byte>, y: Byte, t: seq<Byte>)
    requires !(48 <= x <= 57) && !(48 <= y <= 57) && !SameLetter(x, y)
    ensures Less(p + [x] + s, p + [y] + t) <==> Earlier(x, y)
  {
    hide *;
    var (l, r) := (p + [x] + s, p + [y] + t);
    CharAt(p, x, s);
    CharAt(p, y, t);
    PrefixAligned(p, l, r);
    TokensEarlier(x, y);
    TokensDecide(l, |p|, r, |p|);
  }

  /** What that means of letters and `_`. */
  lemma {:induction false} LettersEarlier(x: Byte, y: Byte)
    requires 65 <= y <= 90 || 97 <= y <= 122
    ensures x == 95 ==> Earlier(x, y)
    ensures (65 <= x <= 90 || 97 <= x <= 122) && !SameLetter(x, y) ==> (Earlier(x, y) <==> x % 32 < y % 32)
  {
  }

  /** A digit against another character: by byte at the start of the names,
      before it after a character, after it in a number that goes on. */
  lemma {:induction false} DigitOrdered(p: seq<Byte>, x: Byte, s: seq<Byte>, y: Byte, t: seq<Byte>)
    requires 48 <= x <= 57 && !(48 <= y <= 57)
    ensures Less(p + [x] + s, p + [y] + t) <==> if p == [] then x < y else !EndsInDigit(p)
  {
    hide *;
    var (l, r) := (p + [x] + s, p + [y] + t);
    Shared(p, [x] + s, [y] + t);
    assert l == p + ([x] + s) && r == p + ([y] + t);
    DigitsAre(x);
    DigitsAre(y);
    if p != [] { DigitsAre(p[|p| - 1]); EndIs(p, l); }
    StartsAligned(l, r);
    DigitAgainstCharacter(l, 0, r, 0, |p|);
    LastIs(p);
  }

  lemma {:induction false} Shared(p: seq<Byte>, a: seq<Byte>, b: seq<Byte>)
    ensures Agree(p + a, 0, p + b, 0, |p|)
    ensures a != [] ==> (p + a)[|p|] == a[0]
    ensures b != [] ==> (p + b)[|p|] == b[0]
  {
  }

  lemma {:induction false} DigitsAre(c: Byte)
    ensures Digit(c) <==> 48 <= c <= 57
  {
  }

  lemma {:induction false} EndIs(p: seq<Byte>, l: seq<Byte>)
    requires p != [] && p <= l
    ensures l[|p| - 1] == p[|p| - 1]
  {
  }

  lemma {:induction false} LastIs(p: seq<Byte>)
    ensures EndsInDigit(p) <==> p != [] && 48 <= p[|p| - 1] <= 57
  {
  }

  lemma {:induction false} StartsAligned(l: seq<Byte>, r: seq<Byte>)
    ensures Aligned(l, 0, r, 0)
  {
  }

  /** A name comes before every name that goes on from it. */
  lemma {:induction false} PrefixFirst(p: seq<Byte>, s: seq<Byte>)
    requires s != []
    ensures Less(p, p + s)
  {
    hide *;
    Shared(p, [], s);
    assert p + [] == p;
    FastPath(p, p + s, |p|);
    ComparesLess(p, p + s);
  }

  lemma {:induction false} ComparesLess(l: seq<Byte>, r: seq<Byte>)
    requires Compare(l, r) == Before
    ensures Less(l, r)
  {
    hide Less;
  }
}
