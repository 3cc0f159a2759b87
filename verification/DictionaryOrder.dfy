/** The order OpenUSD gives names: `dictionary_less` and `dictionary_cmp` of
    `layerstack/src/ident.rs`, as the lexicographic order of a token key. */
module DictionaryOrder {

  type Byte = c: int | 0 <= c < 256

  const ZERO: Byte := 48

  predicate Digit(c: Byte) { 48 <= c <= 57 }

  predicate Upper(c: Byte) { 65 <= c <= 90 }

  predicate Lower(c: Byte) { 97 <= c <= 122 }

  predicate Letter(c: Byte) { Upper(c) || Lower(c) }

  // `c & !0x20`.
  function ClearCase(c: Byte): Byte { if (c / 32) % 2 == 1 then c - 32 else c }

  // `c.wrapping_add(5) & 31`, which puts `_` before every letter.
  function Rank(c: Byte): int { ((c + 5) % 256) % 32 }

  // ---------------------------------------------------------------- the key

  /** One token of a name, ordered by kind, then major, then minor. */
  datatype Token = Token(kind: int, major: int, minor: int)

  predicate TokenLess(a: Token, b: Token) {
    || a.kind < b.kind
    || (a.kind == b.kind && a.major < b.major)
    || (a.kind == b.kind && a.major == b.major && a.minor < b.minor)
  }

  /** Where the run of digits at `i` stops. */
  function RunEnd(s: seq<Byte>, i: nat): (e: nat)
    requires i <= |s|
    ensures i <= e <= |s|
    ensures forall k :: i <= k < e ==> Digit(s[k])
    ensures e < |s| ==> !Digit(s[e])
    decreases |s| - i
  {
    if i < |s| && Digit(s[i]) then RunEnd(s, i + 1) else i
  }

  function DigitValue(c: Byte): (d: nat)
    requires Digit(c)
    ensures d < 10
  {
    c as int - ZERO as int
  }

  function Value(digits: seq<Byte>): nat
    requires forall k :: 0 <= k < |digits| ==> Digit(digits[k])
  {
    if digits == [] then 0 else 10 * Value(digits[..|digits| - 1]) + DigitValue(digits[|digits| - 1])
  }

  /** A run of digits by its value, an all-zero run by its length. It comes
      before every other character, but by its bytes at the start of a name. */
  function RunToken(digits: seq<Byte>, first: bool): Token
    requires forall k :: 0 <= k < |digits| ==> Digit(digits[k])
  {
    var value := Value(digits);
    Token(if first then ZERO else -1, value, if value == 0 then |digits| else 0)
  }

  /** A letter without its case; `@` to DEL by rank, then by byte; any other
      byte by itself. */
  function CharToken(c: Byte): Token {
    if 64 <= c < 128 then Token(64, Rank(c), if Letter(c) then 0 else c) else Token(c, 0, 0)
  }

  function TokenEnd(s: seq<Byte>, i: nat): (e: nat)
    requires i < |s|
    ensures i < e <= |s|
  {
    if Digit(s[i]) then RunEnd(s, i) else i + 1
  }

  function TokenAt(s: seq<Byte>, i: nat): Token
    requires i < |s|
  {
    if Digit(s[i]) then RunToken(s[i..RunEnd(s, i)], i == 0) else CharToken(s[i])
  }

  /** The tokens of `s` from `i`. */
  function Key(s: seq<Byte>, i: nat): seq<Token>
    requires i <= |s|
    decreases |s| - i
  {
    if i == |s| then [] else [TokenAt(s, i)] + Key(s, TokenEnd(s, i))
  }

  predicate LexLess(a: seq<Token>, b: seq<Token>) {
    if b == [] then false
    else if a == [] then true
    else if a[0] == b[0] then LexLess(a[1..], b[1..])
    else TokenLess(a[0], b[0])
  }

  /** The bytes of `s`, a zero after every other byte. */
  function Ties(s: seq<Byte>): seq<Token> {
    seq(|s|, i requires 0 <= i < |s| => Token(if s[i] == ZERO then 256 else s[i], 0, 0))
  }

  /** The order itself: by key, then by the first difference. */
  predicate Less(l: seq<Byte>, r: seq<Byte>) {
    LexLess(Key(l, 0), Key(r, 0)) || (Key(l, 0) == Key(r, 0) && LexLess(Ties(l), Ties(r)))
  }

  // ------------------------------------------------- a strict total order

  lemma {:induction false} LexIrreflexive(a: seq<Token>)
    ensures !LexLess(a, a)
  {
    if a != [] { LexIrreflexive(a[1..]); }
  }

  lemma {:induction false} LexTransitive(a: seq<Token>, b: seq<Token>, c: seq<Token>)
    requires LexLess(a, b) && LexLess(b, c)
    ensures LexLess(a, c)
  {
    if a != [] && a[0] == b[0] == c[0] { LexTransitive(a[1..], b[1..], c[1..]); }
  }

  lemma {:induction false} LexTotal(a: seq<Token>, b: seq<Token>)
    ensures LexLess(a, b) || a == b || LexLess(b, a)
  {
    if a != [] && b != [] && a[0] == b[0] {
      LexTotal(a[1..], b[1..]);
      assert a == [a[0]] + a[1..] && b == [b[0]] + b[1..];
    }
  }

  lemma {:induction false} TiesInjective(l: seq<Byte>, r: seq<Byte>)
    requires Ties(l) == Ties(r)
    ensures l == r
  {
    assert |l| == |Ties(l)| == |r|;
    forall i | 0 <= i < |l| ensures l[i] == r[i] {
      assert Ties(l)[i] == Ties(r)[i];
    }
  }

  lemma {:induction false} LessIrreflexive(s: seq<Byte>)
    ensures !Less(s, s)
  {
    LexIrreflexive(Key(s, 0));
    LexIrreflexive(Ties(s));
  }

  lemma {:induction false} LessTransitive(a: seq<Byte>, b: seq<Byte>, c: seq<Byte>)
    requires Less(a, b) && Less(b, c)
    ensures Less(a, c)
  {
    if LexLess(Key(a, 0), Key(b, 0)) && LexLess(Key(b, 0), Key(c, 0)) {
      LexTransitive(Key(a, 0), Key(b, 0), Key(c, 0));
    } else if Key(a, 0) == Key(b, 0) == Key(c, 0) && !LexLess(Key(a, 0), Key(b, 0)) && !LexLess(Key(b, 0), Key(c, 0)) {
      LexTransitive(Ties(a), Ties(b), Ties(c));
    }
  }

  /** Of two names exactly one comes first, or they are the same name. */
  lemma {:induction false} LessTotal(l: seq<Byte>, r: seq<Byte>)
    ensures l != r ==> Less(l, r) != Less(r, l)
  {
    LexTotal(Key(l, 0), Key(r, 0));
    LexTotal(Ties(l), Ties(r));
    if l != r && Less(l, r) && Less(r, l) {
      LessTransitive(l, r, l);
      LessIrreflexive(l);
    }
    if l != r && Ties(l) == Ties(r) { TiesInjective(l, r); }
  }

  // -------------------------------------------------------- runs by value

  ghost predicate Digits(s: seq<Byte>) { forall k :: 0 <= k < |s| ==> Digit(s[k]) }

  ghost function Pow10(n: nat): nat { if n == 0 then 1 else 10 * Pow10(n - 1) }

  lemma {:induction false} Pow10Grows(m: nat, n: nat)
    requires m <= n
    ensures Pow10(m) <= Pow10(n)
    decreases n
  {
    if m < n { Pow10Grows(m, n - 1); }
  }

  lemma {:induction false} ValueBounds(s: seq<Byte>)
    requires Digits(s)
    ensures Value(s) < Pow10(|s|)
    ensures s != [] && s[0] != ZERO ==> Pow10(|s| - 1) <= Value(s)
  {
    if s != [] { ValueBounds(s[..|s| - 1]); }
  }

  lemma {:induction false} ValueOfZeros(s: seq<Byte>, k: nat)
    requires Digits(s) && k <= |s| && forall i :: 0 <= i < k ==> s[i] == ZERO
    ensures Value(s) == Value(s[k..])
  {
    if k < |s| {
      ValueOfZeros(s[..|s| - 1], k);
      assert s[k..][..|s[k..]| - 1] == s[..|s| - 1][k..];
    } else if s != [] {
      ValueOfZeros(s[..|s| - 1], k - 1);
      assert s[..|s| - 1][k - 1..] == [] == s[k..];
    }
  }

  lemma {:induction false} LongerIsGreater(s: seq<Byte>, t: seq<Byte>)
    requires Digits(s) && Digits(t) && |s| < |t| && t[0] != ZERO
    ensures Value(s) < Value(t)
  {
    ValueBounds(s);
    ValueBounds(t);
    Pow10Grows(|s|, |t| - 1);
  }

  lemma {:induction false} FirstDigitDecides(s: seq<Byte>, t: seq<Byte>, k: nat)
    requires Digits(s) && Digits(t) && |s| == |t| && k < |s|
    requires s[..k] == t[..k] && s[k] < t[k]
    ensures Value(s) < Value(t)
  {
    if k == |s| - 1 {
      assert s[..|s| - 1] == t[..|t| - 1];
    } else {
      assert s[..|s| - 1][..k] == s[..k] == t[..k] == t[..|t| - 1][..k];
      FirstDigitDecides(s[..|s| - 1], t[..|t| - 1], k);
    }
  }

  lemma {:induction false} ValueOfPrefix(p: seq<Byte>, q: seq<Byte>)
    requires Digits(p) && Digits(q) && q != []
    ensures Digits(p + q) && 10 * Value(p) <= Value(p + q)
  {
    var w := p + q;
    assert w[..|w| - 1] == p + q[..|q| - 1];
    if |q| > 1 {
      ValueOfPrefix(p, q[..|q| - 1]);
    } else {
      assert p + q[..|q| - 1] == p;
    }
  }

  /** A run that goes on is greater than the one it goes on from. */
  lemma {:induction false} LongerRunIsGreater(p: seq<Byte>, q: seq<Byte>, first: bool)
    requires Digits(p) && Digits(q) && p != [] && q != []
    ensures Digits(p + q) && TokenLess(RunToken(p, first), RunToken(p + q, first))
  {
    ValueOfPrefix(p, q);
  }

  /** Digits without leading zeros compare by what follows their common
      prefix: by length, then by the first digit. */
  lemma {:induction false} ValuesByPrefix(x: seq<Byte>, y: seq<Byte>, k: nat)
    requires Digits(x) && Digits(y) && k <= |x| && k <= |y| && x[..k] == y[..k]
    requires (x != [] ==> x[0] != ZERO) && (y != [] ==> y[0] != ZERO)
    requires k < |x| && k < |y| ==> x[k] != y[k]
    ensures Value(x) == Value(y) <==> k == |x| == |y|
    ensures Value(x) < Value(y) <==> |x| < |y| || (|x| == |y| && k < |x| && x[k] < y[k])
  {
    if |x| < |y| {
      LongerIsGreater(x, y);
    } else if |y| < |x| {
      LongerIsGreater(y, x);
    } else if k == |x| {
      assert x == x[..k] == y[..k] == y;
    } else if x[k] < y[k] {
      FirstDigitDecides(x, y, k);
    } else {
      FirstDigitDecides(y, x, k);
    }
  }

  // -------------------------------------------- walking two names at once

  /** `i` does not split a run of digits. */
  ghost predicate Boundary(s: seq<Byte>, i: nat) {
    i <= |s| && (0 < i < |s| ==> !(Digit(s[i - 1]) && Digit(s[i])))
  }

  /** The names agree token by token before `a` and `b`, so that the rest
      decides. */
  ghost predicate Aligned(l: seq<Byte>, a: nat, r: seq<Byte>, b: nat) {
    && Boundary(l, a) && Boundary(r, b)
    && (a == 0 <==> b == 0)
    && (a > 0 ==> (Digit(l[a - 1]) <==> Digit(r[b - 1])))
    && (LexLess(Key(l, 0), Key(r, 0)) <==> LexLess(Key(l, a), Key(r, b)))
    && (LexLess(Key(r, 0), Key(l, 0)) <==> LexLess(Key(r, b), Key(l, a)))
    && (Key(l, 0) == Key(r, 0) <==> Key(l, a) == Key(r, b))
  }

  /** The names also agree byte by byte for `n` bytes from there. */
  ghost predicate Agree(l: seq<Byte>, a: nat, r: seq<Byte>, b: nat, n: nat) {
    && a + n <= |l| && b + n <= |r|
    && (forall k :: a <= k < a + n ==> l[k] == r[k - a + b])
    && (forall k :: b <= k < b + n ==> r[k] == l[k - b + a])
  }

  lemma {:induction false} AlignedStep(l: seq<Byte>, a: nat, r: seq<Byte>, b: nat)
    requires Aligned(l, a, r, b) && a < |l| && b < |r|
    requires TokenAt(l, a) == TokenAt(r, b) && (Digit(l[a]) <==> Digit(r[b]))
    ensures Aligned(l, TokenEnd(l, a), r, TokenEnd(r, b))
  {
    var (ka, kb) := (Key(l, TokenEnd(l, a)), Key(r, TokenEnd(r, b)));
    assert Key(l, a) == [TokenAt(l, a)] + ka && Key(l, a)[1..] == ka;
    assert Key(r, b) == [TokenAt(r, b)] + kb && Key(r, b)[1..] == kb;
  }

  lemma {:induction false} RunEndIs(s: seq<Byte>, i: nat, e: nat)
    requires i <= e <= |s| && (forall k :: i <= k < e ==> Digit(s[k])) && (e < |s| ==> !Digit(s[e]))
    ensures RunEnd(s, i) == e
    decreases e - i
  {
    if i < e { RunEndIs(s, i + 1, e); }
  }

  lemma {:induction false} RunWithin(s: seq<Byte>, a: nat, n: nat)
    requires n > 0 && Boundary(s, a + n) && Digit(s[a])
    ensures RunEnd(s, a) <= a + n
  {
    if a + n < |s| && Digit(s[a + n - 1]) { assert !Digit(s[a + n]); }
  }

  lemma {:induction false} NextTokenAgrees(l: seq<Byte>, a: nat, r: seq<Byte>, b: nat, n: nat)
    requires n > 0 && Aligned(l, a, r, b) && Agree(l, a, r, b, n)
    requires Boundary(l, a + n) && Boundary(r, b + n)
    ensures TokenAt(l, a) == TokenAt(r, b) && (Digit(l[a]) <==> Digit(r[b]))
    ensures TokenEnd(l, a) - a == TokenEnd(r, b) - b <= n
  {
    assert l[a] == r[b];
    if Digit(l[a]) {
      var e := RunEnd(l, a);
      RunWithin(l, a, n);
      RunWithin(r, b, n);
      RunEndIs(r, b, b + (e - a));
      assert l[a..e] == r[b..b + (e - a)];
    }
  }

  lemma {:induction false} SkipAgreement(l: seq<Byte>, a: nat, r: seq<Byte>, b: nat, n: nat)
    requires Aligned(l, a, r, b) && Agree(l, a, r, b, n)
    requires Boundary(l, a + n) && Boundary(r, b + n)
    ensures Aligned(l, a + n, r, b + n)
    decreases n
  {
    hide *;
    if n > 0 {
      NextTokenAgrees(l, a, r, b, n);
      AlignedStep(l, a, r, b);
      var step := TokenEnd(l, a) - a;
      AgreeOn(l, a, r, b, n, step);
      SkipAgreement(l, a + step, r, b + step, n - step);
    }
  }

  lemma {:induction false} AgreeOn(l: seq<Byte>, a: nat, r: seq<Byte>, b: nat, n: nat, k: nat)
    requires Agree(l, a, r, b, n) && k <= n
    ensures Agree(l, a, r, b, k) && Agree(l, a + k, r, b + k, n - k)
  {
  }

  /** Where the run of digits around `i` starts: the last boundary up to it. */
  function RunStart(s: seq<Byte>, i: nat): (b: nat)
    requires i <= |s|
    ensures b <= i
    ensures forall k :: b <= k < i ==> Digit(s[k])
    ensures b > 0 ==> !Digit(s[b - 1])
  {
    if i > 0 && Digit(s[i - 1]) then RunStart(s, i - 1) else i
  }

  lemma {:induction false} RunStartIs(s: seq<Byte>, i: nat, b: nat)
    requires b <= i <= |s| && (forall k :: b <= k < i ==> Digit(s[k])) && (b > 0 ==> !Digit(s[b - 1]))
    ensures RunStart(s, i) == b
  {
    if b < i { RunStartIs(s, i - 1, b); }
  }

  /** Runs of digits that reach the ends of an agreement start in it, at the
      same place of both names. */
  lemma {:induction false} StartsAgree(l: seq<Byte>, a: nat, r: seq<Byte>, b: nat, n: nat)
    requires Aligned(l, a, r, b) && Agree(l, a, r, b, n)
    requires || (a + n < |l| && b + n < |r| && Digit(l[a + n]) && Digit(r[b + n]))
             || (n > 0 && Digit(l[a + n - 1]))
    ensures a <= RunStart(l, a + n)
    ensures n > 0 && Digit(l[a + n - 1]) ==> RunStart(l, a + n) < a + n
    ensures RunStart(r, b + n) == b + (RunStart(l, a + n) - a)
  {
    var s := RunStart(l, a + n);
    assert s <= a ==> a == 0 || !Digit(l[a - 1]);
    RunStartIs(r, b + n, b + (s - a));
  }

  // --------------------------------------------- what decides two names

  lemma {:induction false} Swapped(l: seq<Byte>, a: nat, r: seq<Byte>, b: nat, n: nat)
    requires Aligned(l, a, r, b) && Agree(l, a, r, b, n)
    ensures Aligned(r, b, l, a) && Agree(r, b, l, a, n)
  {
    hide LexLess, Less;
  }

  /** The first tokens that differ decide. */
  lemma {:induction false} TokensDecide(l: seq<Byte>, a: nat, r: seq<Byte>, b: nat)
    requires Aligned(l, a, r, b) && a < |l| && b < |r| && TokenAt(l, a) != TokenAt(r, b)
    ensures Less(l, r) <==> TokenLess(TokenAt(l, a), TokenAt(r, b))
    ensures Less(r, l) <==> TokenLess(TokenAt(r, b), TokenAt(l, a))
    ensures Key(l, 0) != Key(r, 0)
  {
    hide TokenAt, TokenEnd;
    assert Key(l, a)[0] == TokenAt(l, a) && Key(r, b)[0] == TokenAt(r, b);
  }

  /** A name that ends where the other goes on comes first. */
  lemma {:induction false} EndDecides(l: seq<Byte>, r: seq<Byte>, b: nat)
    requires Aligned(l, |l|, r, b) && b < |r|
    ensures Less(l, r) && !Less(r, l) && Key(l, 0) != Key(r, 0)
  {
    hide TokenAt, TokenEnd;
    assert Key(l, |l|) == [] && Key(r, b) != [];
  }

  /** The names are aligned where the runs of digits around their first
      difference start. */
  lemma {:induction false} AlignedAtRuns(l: seq<Byte>, a: nat, r: seq<Byte>, b: nat, n: nat)
    requires Aligned(l, a, r, b) && Agree(l, a, r, b, n)
    requires || (a + n < |l| && b + n < |r| && Digit(l[a + n]) && Digit(r[b + n]))
             || (n > 0 && Digit(l[a + n - 1]))
    ensures var (s, t) := (RunStart(l, a + n), RunStart(r, b + n));
      && Aligned(l, s, r, t) && (s == 0 <==> t == 0) && a <= s && t == b + (s - a)
    ensures n > 0 && Digit(l[a + n - 1]) ==> RunStart(l, a + n) < a + n && RunStart(r, b + n) < b + n
  {
    hide Key, LexLess, Less;
    StartsAgree(l, a, r, b, n);
    SkipAgreement(l, a, r, b, RunStart(l, a + n) - a);
  }

  /** The run of digits around `i`. */
  function Run(s: seq<Byte>, i: nat): (x: seq<Byte>)
    requires i <= |s|
    ensures Digits(x)
  {
    s[RunStart(s, i)..RunEnd(s, i)]
  }

  lemma {:induction false} RunIsToken(s: seq<Byte>, i: nat)
    requires i <= |s| && (RunStart(s, i) < i || (i < |s| && Digit(s[i])))
    ensures var (b, e) := (RunStart(s, i), RunEnd(s, i));
      && b < e && Digit(s[b]) && RunEnd(s, b) == e == TokenEnd(s, b)
      && TokenAt(s, b) == RunToken(Run(s, i), b == 0)
  {
    RunEndIs(s, RunStart(s, i), RunEnd(s, i));
  }

  lemma {:induction false} AgreedSlices(l: seq<Byte>, a: nat, r: seq<Byte>, b: nat, n: nat, k: nat)
    requires Agree(l, a, r, b, n) && k <= n
    ensures l[a + k..a + n] == r[b + k..b + n]
  {
  }

  lemma {:induction false} SplitRun(s: seq<Byte>, i: nat)
    requires i < |s| && RunStart(s, i) < i && Digit(s[i])
    ensures var (p, q) := (s[RunStart(s, i)..i], s[i..RunEnd(s, i)]);
      Digits(p) && Digits(q) && p != [] && q != [] && Run(s, i) == p + q
  {
    hide RunStart, RunEnd;
    var (b, e) := (RunStart(s, i), RunEnd(s, i));
    assert s[b..e] == s[b..i] + s[i..e];
  }

  lemma {:induction false} RunEndsHere(s: seq<Byte>, i: nat)
    requires i <= |s|
    requires i < |s| ==> !Digit(s[i])
    ensures Run(s, i) == s[RunStart(s, i)..i]
  {
    RunEndIs(s, i, i);
  }

  lemma {:induction false} LongerRunIsLater(l: seq<Byte>, i: nat, r: seq<Byte>, j: nat)
    requires i <= |l| && RunStart(l, i) < i && (i < |l| ==> !Digit(l[i]))
    requires j < |r| && RunStart(r, j) < j && Digit(r[j])
    requires l[RunStart(l, i)..i] == r[RunStart(r, j)..j] && (RunStart(l, i) == 0 <==> RunStart(r, j) == 0)
    ensures var (x, y) := (TokenAt(l, RunStart(l, i)), TokenAt(r, RunStart(r, j)));
      TokenLess(x, y) && !TokenLess(y, x) && x != y
  {
    hide *;
    RunEndsHere(l, i);
    RunIsToken(l, i);
    RunIsToken(r, j);
    SplitRun(r, j);
    LongerRunIsGreater(r[RunStart(r, j)..j], r[j..RunEnd(r, j)], RunStart(r, j) == 0);
    RunTokensOrdered(Run(l, i), Run(r, j), RunStart(r, j) == 0);
  }

  /** A run of digits that goes on in `r` alone puts `l` first. */
  lemma {:induction false} RunGoesOn(l: seq<Byte>, a: nat, r: seq<Byte>, b: nat, n: nat)
    requires a + n <= |l| && Aligned(l, a, r, b) && Agree(l, a, r, b, n) && n > 0 && Digit(l[a + n - 1])
    requires a + n < |l| ==> !Digit(l[a + n])
    requires b + n < |r| && Digit(r[b + n])
    ensures Less(l, r) && !Less(r, l) && Key(l, 0) != Key(r, 0)
  {
    hide *;
    AlignedAtRuns(l, a, r, b, n);
    var (s, t) := (RunStart(l, a + n), RunStart(r, b + n));
    AgreedSlices(l, a, r, b, n, s - a);
    LongerRunIsLater(l, a + n, r, b + n);
    TokensDecide(l, s, r, t);
  }

  lemma {:induction false} RunTokensOrdered(x: seq<Byte>, y: seq<Byte>, first: bool)
    requires Digits(x) && Digits(y) && TokenLess(RunToken(x, first), RunToken(y, first))
    ensures RunToken(x, first) != RunToken(y, first)
    ensures !TokenLess(RunToken(y, first), RunToken(x, first))
  {
  }

  /** A digit and another character at the first difference. */
  lemma {:induction false} DigitAgainstCharacter(l: seq<Byte>, a: nat, r: seq<Byte>, b: nat, n: nat)
    requires Aligned(l, a, r, b) && Agree(l, a, r, b, n) && a + n < |l| && b + n < |r|
    requires Digit(l[a + n]) != Digit(r[b + n])
    ensures a + n == 0 ==> (Less(l, r) <==> l[0] < r[0])
    ensures a + n > 0 && Digit(l[a + n - 1]) ==> (Less(l, r) <==> Digit(r[b + n]))
    ensures a + n > 0 && !Digit(l[a + n - 1]) ==> (Less(l, r) <==> Digit(l[a + n]))
  {
    hide Key, LexLess, Less;
    if a + n > 0 && Digit(l[a + n - 1]) {
      Swapped(l, a, r, b, n);
      if Digit(r[b + n]) { RunGoesOn(l, a, r, b, n); } else { RunGoesOn(r, b, l, a, n); }
    } else {
      SkipAgreement(l, a, r, b, n);
      TokensDecide(l, a + n, r, b + n);
    }
  }

  /** Two characters, neither a digit, at the first difference. */
  lemma {:induction false} CharactersDecide(l: seq<Byte>, a: nat, r: seq<Byte>, b: nat, n: nat)
    requires Aligned(l, a, r, b) && Agree(l, a, r, b, n) && a + n < |l| && b + n < |r|
    requires !Digit(l[a + n]) && !Digit(r[b + n])
    ensures var x, y := CharToken(l[a + n]), CharToken(r[b + n]);
      if x == y then Aligned(l, a + n + 1, r, b + n + 1)
      else (Less(l, r) <==> TokenLess(x, y)) && (Less(r, l) <==> TokenLess(y, x))
  {
    hide Key, LexLess, Less, CharToken;
    SkipAgreement(l, a, r, b, n);
    if CharToken(l[a + n]) == CharToken(r[b + n]) {
      AlignedStep(l, a + n, r, b + n);
    } else {
      TokensDecide(l, a + n, r, b + n);
    }
  }

  /** `x` has exactly `i` leading zeros. */
  ghost predicate Stripped(x: seq<Byte>, i: nat) {
    Digits(x) && i <= |x| && (forall k :: 0 <= k < i ==> x[k] == ZERO) && (i < |x| ==> x[i] != ZERO)
  }

  /** Runs compare by the values left of them once leading zeros are gone. */
  lemma {:induction false} RunsCompare(x: seq<Byte>, i: nat, y: seq<Byte>, j: nat, first: bool)
    requires Stripped(x, i) && Stripped(y, j) && (i < |x| || j < |y|)
    ensures var (v, w, p, q) := (Value(x[i..]), Value(y[j..]), RunToken(x, first), RunToken(y, first));
      if v == w then p == q else p != q && (v < w <==> TokenLess(p, q))
  {
    ValueOfZeros(x, i);
    ValueOfZeros(y, j);
    ValueBounds(x[i..]);
    ValueBounds(y[j..]);
    Pow10Grows(0, |x[i..]|);
    if i < |x| { Pow10Grows(0, |x[i..]| - 1); }
    if j < |y| { Pow10Grows(0, |y[j..]| - 1); }
  }

  lemma {:induction false} AlignedRunsDecide(
      l: seq<Byte>, s: nat, r: seq<Byte>, t: nat, x: seq<Byte>, i: nat, y: seq<Byte>, j: nat)
    requires Aligned(l, s, r, t) && s < |l| && t < |r| && Digit(l[s]) && Digit(r[t])
    requires Stripped(x, i) && Stripped(y, j) && (i < |x| || j < |y|)
    requires TokenAt(l, s) == RunToken(x, s == 0) && TokenAt(r, t) == RunToken(y, s == 0)
    ensures if Value(x[i..]) == Value(y[j..]) then Aligned(l, TokenEnd(l, s), r, TokenEnd(r, t))
      else Less(l, r) <==> Value(x[i..]) < Value(y[j..])
  {
    hide Key, LexLess, Less, Aligned, Value, TokenAt, RunToken, TokenEnd;
    RunsCompare(x, i, y, j, s == 0);
    if Value(x[i..]) == Value(y[j..]) {
      AlignedStep(l, s, r, t);
    } else {
      TokensDecide(l, s, r, t);
    }
  }

  /** Two runs of digits at the first difference: their values decide, once
      `i` and `j` leading zeros are gone, or are equal. */
  lemma {:induction false} RunsDecide(l: seq<Byte>, a: nat, r: seq<Byte>, b: nat, n: nat, i: nat, j: nat)
    requires Aligned(l, a, r, b) && Agree(l, a, r, b, n) && a + n < |l| && b + n < |r|
    requires Digit(l[a + n]) && Digit(r[b + n]) && l[a + n] != r[b + n]
    requires Stripped(Run(l, a + n), i) && Stripped(Run(r, b + n), j)
    ensures var (x, y) := (Value(Run(l, a + n)[i..]), Value(Run(r, b + n)[j..]));
      if x == y then Aligned(l, RunEnd(l, a + n), r, RunEnd(r, b + n)) else Less(l, r) <==> x < y
  {
    hide *;
    AllZeros(l, a + n, i);
    AllZeros(r, b + n, j);
    AlignedAtRuns(l, a, r, b, n);
    RunIsToken(l, a + n);
    RunIsToken(r, b + n);
    AlignedRunsDecide(l, RunStart(l, a + n), r, RunStart(r, b + n), Run(l, a + n), i, Run(r, b + n), j);
  }

  lemma {:induction false} AllZeros(s: seq<Byte>, i: nat, zeros: nat)
    requires i < |s| && Digit(s[i]) && Stripped(Run(s, i), zeros)
    ensures zeros < |Run(s, i)| || s[i] == ZERO
  {
    assert Run(s, i)[i - RunStart(s, i)] == s[i];
  }

  /** Names that agree up to the end of `l` come in the order of their
      lengths; `Ties` decides between names that agree to the end of both. */
  lemma {:induction false} EndsDecide(l: seq<Byte>, a: nat, r: seq<Byte>, b: nat, n: nat)
    requires Aligned(l, a, r, b) && Agree(l, a, r, b, n) && a + n == |l|
    ensures b + n < |r| ==> Less(l, r) && !Less(r, l) && Key(l, 0) != Key(r, 0)
    ensures b + n == |r| ==> Key(l, 0) == Key(r, 0) && (Less(l, r) <==> LexLess(Ties(l), Ties(r)))
  {
    hide LexLess, Less, Ties, TokenAt, TokenEnd;
    if b + n < |r| && n > 0 && Digit(l[a + n - 1]) && Digit(r[b + n]) {
      RunGoesOn(l, a, r, b, n);
    } else {
      SkipAgreement(l, a, r, b, n);
      if b + n < |r| { EndDecides(l, r, b + n); } else { KeysEqual(l, r); }
    }
  }

  lemma {:induction false} KeysEqual(l: seq<Byte>, r: seq<Byte>)
    requires Key(l, 0) == Key(r, 0)
    ensures Less(l, r) <==> LexLess(Ties(l), Ties(r))
  {
    LexIrreflexive(Key(l, 0));
  }

  /** Between names of one key, the first difference decides, a zero last. */
  lemma {:induction false} TiesDecide(l: seq<Byte>, r: seq<Byte>, n: nat)
    requires n < |l| && n < |r| && Agree(l, 0, r, 0, n) && l[n] != r[n]
    ensures LexLess(Ties(l), Ties(r)) <==> r[n] == ZERO || (l[n] != ZERO && l[n] < r[n])
  {
    if n > 0 {
      assert l[0] == r[0];
      forall k | 0 <= k < n - 1 ensures l[1..][k] == r[1..][k] { assert l[k + 1] == r[k + 1]; }
      TiesDecide(l[1..], r[1..], n - 1);
      assert Ties(l)[1..] == Ties(l[1..]) && Ties(r)[1..] == Ties(r[1..]);
    }
  }

  // ------------------------------------- the walk and its decisions

  /** The walk is at `i` of `l` and `j` of `r`: what precedes `a` and `b`
      decides nothing, and from there the names agree so far. */
  ghost predicate Walking(l: seq<Byte>, a: nat, r: seq<Byte>, b: nat, i: nat, j: nat) {
    a <= i <= |l| && j - b == i - a && Aligned(l, a, r, b) && Agree(l, a, r, b, i - a)
  }

  /** The walk stops at two bytes that differ. */
  ghost predicate Differ(l: seq<Byte>, a: nat, r: seq<Byte>, b: nat, i: nat, j: nat) {
    Walking(l, a, r, b, i, j) && i < |l| && j < |r| && l[i] != r[j]
  }

  predicate ByRank(x: Byte, y: Byte) {
    var ascii := x < 0x80 && y < 0x80;
    ascii && ClearCase(x) != ClearCase(y) && x >= 0x40 && y >= 0x40
  }

  lemma {:induction false} Begins(l: seq<Byte>, r: seq<Byte>, i: nat)
    requires Agree(l, 0, r, 0, i)
    ensures Walking(l, 0, r, 0, i, i)
  {
    hide Key, LexLess;
  }

  lemma {:induction false} GoesOn(l: seq<Byte>, a: nat, r: seq<Byte>, b: nat, i: nat, j: nat, p: nat, q: nat)
    requires Walking(l, a, r, b, i, j) && i <= p && q - j == p - i && Agree(l, i, r, j, p - i)
    ensures Walking(l, a, r, b, p, q)
  {
    hide Key, LexLess, Aligned;
  }

  lemma {:induction false} RanksInOrder(x: Byte, y: Byte)
    requires ByRank(x, y)
    ensures !Digit(x) && !Digit(y) && CharToken(x) != CharToken(y)
    ensures TokenLess(CharToken(x), CharToken(y)) <==> Rank(x) < Rank(y)
  {
    RankOf(x);
    RankOf(y);
    hide Rank, ClearCase;
  }

  lemma {:induction false} BytesInOrder(x: Byte, y: Byte)
    requires x != y && !ByRank(x, y) && !Digit(x) && !Digit(y)
    ensures CharToken(x) == CharToken(y) <==> Letter(x) && Letter(y)
    ensures CharToken(x) != CharToken(y) ==> (TokenLess(CharToken(x), CharToken(y)) <==> x < y)
  {
    if 64 <= x < 128 { RankOf(x); }
    if 64 <= y < 128 { RankOf(y); }
    hide Rank, ClearCase;
  }

  lemma {:induction false} RankOf(c: Byte)
    requires 64 <= c < 128
    ensures ClearCase(c) == if c < 96 then c else c - 32
    ensures Rank(c) == if ClearCase(c) < 91 then ClearCase(c) - 59 else ClearCase(c) - 91
  {
  }

  lemma {:induction false} RanksDecide(l: seq<Byte>, a: nat, r: seq<Byte>, b: nat, i: nat, j: nat)
    requires Differ(l, a, r, b, i, j) && ByRank(l[i], r[j])
    ensures Less(l, r) <==> Rank(l[i]) < Rank(r[j])
  {
    RanksInOrder(l[i], r[j]);
    hide Key, LexLess, Less, Aligned, Agree, CharToken, Rank, ByRank, TokenLess, ClearCase;
    CharactersDecide(l, a, r, b, i - a);
  }

  lemma {:induction false} OneDigitDecides(l: seq<Byte>, a: nat, r: seq<Byte>, b: nat, i: nat, j: nat)
    requires Differ(l, a, r, b, i, j) && Digit(l[i]) != Digit(r[j])
    ensures Less(l, r) <==> if i == 0 then l[i] < r[j] else if Digit(l[i - 1]) then Digit(r[j]) else Digit(l[i])
  {
    hide Key, LexLess, Less, Agree;
    DigitAgainstCharacter(l, a, r, b, i - a);
  }

  lemma {:induction false} BytesDecide(l: seq<Byte>, a: nat, r: seq<Byte>, b: nat, i: nat, j: nat)
    requires Differ(l, a, r, b, i, j) && !ByRank(l[i], r[j]) && !Digit(l[i]) && !Digit(r[j])
    ensures if Letter(l[i]) && Letter(r[j]) then Walking(l, i + 1, r, j + 1, i + 1, j + 1)
      else Less(l, r) <==> l[i] < r[j]
  {
    hide Key, LexLess, Less, CharToken, ByRank, TokenLess, Letter, Digit, Aligned, Agree;
    BytesInOrder(l[i], r[j]);
    CharactersDecide(l, a, r, b, i - a);
    if Letter(l[i]) && Letter(r[j]) { AfterRuns(l, r, i + 1, j + 1); }
  }

  /** Both runs of digits around `i` and `j`: `x` and `y` leading zeros are
      skipped, and then `n` common digits, up to `ls` and `rs`. */
  ghost predicate Matching(l: seq<Byte>, i: nat, r: seq<Byte>, j: nat,
                           x: nat, y: nat, n: nat, ls: nat, le: nat, rs: nat, re: nat) {
    && i < |l| && j < |r| && le == RunEnd(l, i) && re == RunEnd(r, j)
    && ls == RunStart(l, i) + x + n && rs == RunStart(r, j) + y + n && ls <= le && rs <= re
    && Stripped(Run(l, i), x) && Stripped(Run(r, j), y)
    && l[ls - n..ls] == r[rs - n..rs]
  }

  /** Their common digits end there. */
  ghost predicate RunsMatched(l: seq<Byte>, i: nat, r: seq<Byte>, j: nat,
                              x: nat, y: nat, n: nat, ls: nat, le: nat, rs: nat, re: nat) {
    Matching(l, i, r, j, x, y, n, ls, le, rs, re) && (ls < le && rs < re ==> l[ls] != r[rs])
  }

  lemma {:induction false} MatchedValues(l: seq<Byte>, i: nat, r: seq<Byte>, j: nat,
                                         x: nat, y: nat, n: nat, ls: nat, le: nat, rs: nat, re: nat)
    requires RunsMatched(l, i, r, j, x, y, n, ls, le, rs, re)
    ensures var (v, w) := (Value(Run(l, i)[x..]), Value(Run(r, j)[y..]));
      && (v == w <==> ls == le && rs == re)
      && (v < w <==> le - ls < re - rs || (le - ls == re - rs && ls < le && l[ls] < r[rs]))
  {
    hide RunStart, RunEnd, Value, Run, Stripped, Digits, Digit;
    SignificantDigits(l, i, x, n);
    SignificantDigits(r, j, y, n);
    ValuesByPrefix(Run(l, i)[x..], Run(r, j)[y..], n);
  }

  lemma {:induction false} RestOfSlice(s: seq<Byte>, b: nat, x: nat, n: nat, e: nat)
    requires b + x + n <= e <= |s|
    ensures var (u, c) := (s[b..e][x..], b + x + n);
      u == s[b + x..e] && u[..n] == s[b + x..c] && (c < e ==> u[n] == s[c])
  {
  }

  lemma {:induction false} SignificantDigits(s: seq<Byte>, i: nat, x: nat, n: nat)
    requires i <= |s| && Stripped(Run(s, i), x) && RunStart(s, i) + x + n <= RunEnd(s, i)
    ensures x <= |Run(s, i)|
    ensures var (u, c, e) := (Run(s, i)[x..], RunStart(s, i) + x + n, RunEnd(s, i));
      && Digits(u) && |u| == e - c + n && u[..n] == s[c - n..c]
      && (u != [] ==> u[0] != ZERO) && (c < e ==> u[n] == s[c])
  {
    hide RunStart, RunEnd;
    RestOfSlice(s, RunStart(s, i), x, n, RunEnd(s, i));
  }

  lemma {:induction false} AfterRuns(l: seq<Byte>, r: seq<Byte>, a: nat, b: nat)
    requires Aligned(l, a, r, b)
    ensures Walking(l, a, r, b, a, b)
  {
    hide Key, LexLess;
  }

  lemma {:induction false} RunsVerdict(l: seq<Byte>, a: nat, r: seq<Byte>, b: nat, i: nat, j: nat,
                                       x: nat, y: nat, n: nat, ls: nat, le: nat, rs: nat, re: nat)
    requires Differ(l, a, r, b, i, j) && Digit(l[i]) && Digit(r[j])
    requires RunsMatched(l, i, r, j, x, y, n, ls, le, rs, re)
    ensures ls == le && rs == re ==> Walking(l, le, r, re, le, re)
    ensures ls != le || rs != re ==> (Less(l, r) <==> le - ls < re - rs || (le - ls == re - rs && ls < le && l[ls] < r[rs]))
  {
    hide Key, LexLess, Less, Aligned, Agree, Value, Run, RunStart, RunEnd, Stripped;
    RunsDecide(l, a, r, b, i - a, x, y);
    MatchedValues(l, i, r, j, x, y, n, ls, le, rs, re);
    if ls == le && rs == re { AfterRuns(l, r, le, re); }
  }

  /** One name, or both, end where the walk is. */
  lemma {:induction false} EndsAt(l: seq<Byte>, a: nat, r: seq<Byte>, b: nat, i: nat, j: nat)
    requires Walking(l, a, r, b, i, j) && j <= |r| && (i == |l| || j == |r|)
    ensures i != |l| || j != |r| ==> (Less(l, r) <==> i == |l|) && Key(l, 0) != Key(r, 0)
    ensures i == |l| && j == |r| ==> Key(l, 0) == Key(r, 0) && (Less(l, r) <==> LexLess(Ties(l), Ties(r)))
  {
    hide Key, LexLess, Less, Aligned, Agree;
    if i == |l| {
      EndsDecide(l, a, r, b, i - a);
    } else {
      Swapped(l, a, r, b, i - a);
      EndsDecide(r, b, l, a, i - a);
    }
  }

  /** Names of one key differ before either ends, and their first difference
      decides. */
  lemma {:induction false} FirstDifferenceDecides(l: seq<Byte>, r: seq<Byte>, n: nat)
    requires Key(l, 0) == Key(r, 0) && l != r && Agree(l, 0, r, 0, n)
    requires n < |l| && n < |r| ==> l[n] != r[n]
    ensures n < |l| && n < |r|
    ensures Less(l, r) <==> r[n] == ZERO || (l[n] != ZERO && l[n] < r[n])
  {
    hide Key, LexLess, Less, Ties;
    if n == |l| || n == |r| {
      Begins(l, r, n);
      EndsAt(l, 0, r, 0, n, n);
    } else {
      KeysEqual(l, r);
      TiesDecide(l, r, n);
    }
  }

  // ------------------------------------------------------------- the code

  /** Skips the bytes from `(i, j)` on that agree, at most `n` of them. */
  method Mismatch(l: seq<Byte>, r: seq<Byte>, i: nat, j: nat, n: nat) returns (p: nat, q: nat)
    requires i + n <= |l| && j + n <= |r|
    ensures i <= p <= i + n && q - j == p - i && Agree(l, i, r, j, p - i)
    ensures p < i + n ==> l[p] != r[q]
  {
    p, q := i, j;
    while p < i + n && l[p] == r[q]
      invariant i <= p <= i + n && q - j == p - i && Agree(l, i, r, j, p - i)
    {
      p, q := p + 1, q + 1;
    }
  }

  /** The run of digits around `at`, without its leading zeros. */
  method DigitRun(s: seq<Byte>, at: nat) returns (start: nat, stop: nat)
    requires at < |s| && Digit(s[at])
    ensures at < stop == RunEnd(s, at) && RunStart(s, at) <= start <= stop
    ensures Stripped(Run(s, at), start - RunStart(s, at))
  {
    start := at;
    while start > 0 && Digit(s[start - 1])
      invariant start <= at && RunStart(s, start) == RunStart(s, at)
    {
      start := start - 1;
    }
    stop := at;
    while stop < |s| && Digit(s[stop])
      invariant at <= stop <= |s| && RunEnd(s, stop) == RunEnd(s, at)
    {
      stop := stop + 1;
    }
    while start != stop && s[start] == ZERO
      invariant RunStart(s, at) <= start <= stop
      invariant forall k :: RunStart(s, at) <= k < start ==> s[k] == ZERO
    {
      start := start + 1;
    }
  }

  lemma {:induction false} MatchBegins(l: seq<Byte>, i: nat, r: seq<Byte>, j: nat,
                                       x: nat, y: nat, ls: nat, le: nat, rs: nat, re: nat)
    requires i < |l| && j < |r| && le == RunEnd(l, i) && re == RunEnd(r, j)
    requires ls == RunStart(l, i) + x && rs == RunStart(r, j) + y && ls <= le && rs <= re
    requires Stripped(Run(l, i), x) && Stripped(Run(r, j), y)
    ensures Matching(l, i, r, j, x, y, 0, ls, le, rs, re)
  {
    hide Run, RunStart, RunEnd, Stripped;
  }

  lemma {:induction false} MatchGoesOn(l: seq<Byte>, i: nat, r: seq<Byte>, j: nat,
                                       x: nat, y: nat, n: nat, ls: nat, le: nat, rs: nat, re: nat)
    requires Matching(l, i, r, j, x, y, n, ls, le, rs, re) && ls < le && rs < re && l[ls] == r[rs]
    ensures Matching(l, i, r, j, x, y, n + 1, ls + 1, le, rs + 1, re)
  {
    hide Run, RunStart, RunEnd, Stripped;
    assert l[ls - n..ls + 1] == l[ls - n..ls] + [l[ls]];
    assert r[rs - n..rs + 1] == r[rs - n..rs] + [r[rs]];
  }

  lemma {:induction false} MatchEnds(l: seq<Byte>, i: nat, r: seq<Byte>, j: nat,
                                     x: nat, y: nat, n: nat, ls: nat, le: nat, rs: nat, re: nat)
    requires Matching(l, i, r, j, x, y, n, ls, le, rs, re)
    requires ls < le <= |l| && rs < re <= |r| ==> l[ls] != r[rs]
    ensures RunsMatched(l, i, r, j, x, y, n, ls, le, rs, re)
  {
    hide Run, RunStart, RunEnd, Stripped;
  }

  /** Both runs of digits, up to where they first differ. */
  method MatchRuns(l: seq<Byte>, i: nat, r: seq<Byte>, j: nat)
    returns (ls: nat, le: nat, rs: nat, re: nat, ghost x: nat, ghost y: nat, ghost n: nat)
    requires i < |l| && j < |r| && Digit(l[i]) && Digit(r[j])
    ensures i < le <= |l| && j < re <= |r| && ls <= le && rs <= re
    ensures RunsMatched(l, i, r, j, x, y, n, ls, le, rs, re)
  {
    hide *;
    ls, le := DigitRun(l, i);
    rs, re := DigitRun(r, j);
    x, y, n := ls - RunStart(l, i), rs - RunStart(r, j), 0;
    MatchBegins(l, i, r, j, x, y, ls, le, rs, re);
    while ls != le && rs != re && l[ls] == r[rs]
      invariant ls <= le <= |l| && rs <= re <= |r| && Matching(l, i, r, j, x, y, n, ls, le, rs, re)
    {
      MatchGoesOn(l, i, r, j, x, y, n, ls, le, rs, re);
      ls, rs, n := ls + 1, rs + 1, n + 1;
    }
    MatchEnds(l, i, r, j, x, y, n, ls, le, rs, re);
  }

  method DictionaryLess(l: seq<Byte>, r: seq<Byte>) returns (less: bool)
    ensures less == Less(l, r)
  {
    hide Key, LexLess, Less, Ties, Walking, RunsMatched, Digit, Letter, Rank, ByRank, Agree;
    var end := if |l| < |r| then |l| else |r|;
    var i: nat, j: nat := Mismatch(l, r, 0, 0, end);
    if i == end && |l| == |r| {
      AgreedWhole(l, r);
      LessIrreflexive(l);
      return false;
    }
    ghost var a: nat, b: nat := 0, 0;
    Begins(l, r, i);
    while i != end
      invariant i <= end <= |l| && j <= |r| && end - i == if |l| - i < |r| - j then |l| - i else |r| - j
      invariant Walking(l, a, r, b, i, j)
      invariant i != end ==> l[i] != r[j]
      decreases |l| - i
    {
      var x, y := l[i], r[j];
      if ByRank(x, y) {
        RanksDecide(l, a, r, b, i, j);
        return Rank(x) < Rank(y);
      } else if Digit(x) || Digit(y) {
        if !(Digit(x) && Digit(y)) {
          OneDigitDecides(l, a, r, b, i, j);
          if i == 0 {
            return x < y;
          }
          return if Digit(l[i - 1]) then Digit(y) else Digit(x);
        }
        var ls, le, rs, re, m, n, k := MatchRuns(l, i, r, j);
        RunsVerdict(l, a, r, b, i, j, m, n, k, ls, le, rs, re);
        if (ls == le) != (rs == re) {
          return ls == le;
        }
        if ls != le {
          return le - ls < re - rs || (le - ls == re - rs && l[ls] < r[rs]);
        }
        i, j, a, b := le, re, le, re;
        end := i + if |l| - i < |r| - j then |l| - i else |r| - j;
      } else if !(Letter(x) && Letter(y)) {
        BytesDecide(l, a, r, b, i, j);
        return x < y;
      } else {
        BytesDecide(l, a, r, b, i, j);
        i, j, a, b := i + 1, j + 1, i + 1, j + 1;
      }
      var p, q := Mismatch(l, r, i, j, end - i);
      GoesOn(l, a, r, b, i, j, p, q);
      i, j := p, q;
    }
    EndsAt(l, a, r, b, i, j);
    if i != |l| || j != |r| {
      return i == |l|;
    }
    i, j := Mismatch(l, r, 0, 0, if |l| < |r| then |l| else |r|);
    FirstDifferenceDecides(l, r, i);
    var x, y := if i < |l| then l[i] else 0, if j < |r| then r[j] else 0;
    return y == ZERO || (x != ZERO && x < y);
  }

  lemma {:induction false} AgreedWhole(l: seq<Byte>, r: seq<Byte>)
    requires |l| == |r| && Agree(l, 0, r, 0, |l|)
    ensures l == r
  {
  }

  datatype Ordering = Before | Same | After

  /** The ordering that `Less` makes of two names. */
  function Compare(l: seq<Byte>, r: seq<Byte>): Ordering {
    if Less(l, r) then Before else if l == r then Same else After
  }

  /** After `n` bytes in common, an end of either name, or a pair of letters both
      upper or both lower, settles the ordering without the key. */
  lemma {:induction false} FastPath(l: seq<Byte>, r: seq<Byte>, n: nat)
    requires n <= |l| && n <= |r| && Agree(l, 0, r, 0, n)
    ensures n == |l| == |r| ==> Compare(l, r) == Same
    ensures n == |l| < |r| ==> Compare(l, r) == Before
    ensures n == |r| < |l| ==> Compare(l, r) == After
    ensures n < |l| && n < |r| && l[n] != r[n] && OneCase(l[n], r[n]) ==>
      Compare(l, r) == if l[n] < r[n] then Before else After
  {
    hide Key, LexLess, Less, Rank, ClearCase, Agree, Aligned, Digit;
    Begins(l, r, n);
    if n == |l| == |r| {
      AgreedWhole(l, r);
      LessIrreflexive(l);
    } else if n == |l| || n == |r| {
      EndsAt(l, 0, r, 0, n, n);
    } else if l[n] != r[n] && OneCase(l[n], r[n]) {
      RankOf(l[n]);
      RankOf(r[n]);
      RanksDecide(l, 0, r, 0, n, n);
    }
  }

  predicate OneCase(x: Byte, y: Byte) { (Lower(x) && Lower(y)) || (Upper(x) && Upper(y)) }

  /** The fast path and the walk always give the ordering of `Less`. */
  method DictionaryCmp(l: seq<Byte>, r: seq<Byte>) returns (o: Ordering)
    ensures o == Compare(l, r)
  {
    hide Less, Agree;
    var n, _ := Mismatch(l, r, 0, 0, if |l| < |r| then |l| else |r|);
    FastPath(l, r, n);
    if n == |l| && n == |r| {
      return Same;
    } else if n == |l| {
      return Before;
    } else if n == |r| {
      return After;
    } else if OneCase(l[n], r[n]) {
      return if l[n] < r[n] then Before else After;
    }
    var less := DictionaryLess(l, r);
    return if less then Before else if l == r then Same else After;
  }

  /** `Compare` is a total order: `Same` only for the same name, and reversed
      when its arguments are. */
  lemma {:induction false} CompareTotal(l: seq<Byte>, r: seq<Byte>)
    ensures Compare(l, r) == Same <==> l == r
    ensures Compare(l, r) == Before <==> Compare(r, l) == After
  {
    LessIrreflexive(l);
    LessTotal(l, r);
  }
}
