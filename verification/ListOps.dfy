/** List operations over unique lists: `UniqueList` and `ListOp` of
    `core-spec-supplemental-release_dec2025/data_types/listop.py`
    (section 6.6.3 of AOUSD Core). */
module ListOps {

  datatype Option<+T> = None | Some(value: T)

  predicate Unique<T(==)>(s: seq<T>) {
    forall i, j :: 0 <= i < j < |s| ==> s[i] != s[j]
  }

  /** A list its constructor accepts: one that repeats no element. */
  type UniqueList<T(==)> = s: seq<T> | Unique(s)

  function Items<T(==)>(s: seq<T>): set<T> {
    set e | e in s
  }

  /** `(e for e in s if e not in dropped)`. */
  function Without<T(==)>(s: seq<T>, dropped: set<T>): seq<T> {
    if s == [] then []
    else if s[0] in dropped then Without(s[1..], dropped)
    else [s[0]] + Without(s[1..], dropped)
  }

  datatype ListOp<T(==)> = ListOp(
    explicitItems: Option<UniqueList<T>>,
    deleted: UniqueList<T>,
    prepended: UniqueList<T>,
    appended: UniqueList<T>)
  {
    predicate IsExplicit() { explicitItems.Some? }

    /** Whether the operation is inert: it edits nothing. */
    predicate Inert() {
      !IsExplicit() && deleted == [] && prepended == [] && appended == []
    }

    /** The elements a composable operation edits. */
    function Edited(): set<T> { Items(deleted) + Items(prepended) + Items(appended) }

    function ComposeOverExplicit(weaker: ListOp<T>): (r: ListOp<T>)
      requires !IsExplicit() && weaker.IsExplicit()
      ensures r.IsExplicit()
    {
      UniqueEdit(prepended, weaker.explicitItems.value, appended, Items(deleted));
      Explicit(
        Without(prepended, Items(appended))
        + Without(weaker.explicitItems.value, Edited())
        + appended)
    }

    function ComposeDeleted(weaker: ListOp<T>): UniqueList<T> {
      var kept := Items(prepended) + Items(appended);
      UniqueUnion(weaker.deleted, deleted, kept);
      Without(weaker.deleted, kept) + Without(deleted, Items(weaker.deleted) + kept)
    }

    function ComposePrepended(weaker: ListOp<T>): UniqueList<T> {
      UniqueEdit(prepended, weaker.prepended, appended, Items(deleted));
      Without(prepended, Items(appended)) + Without(weaker.prepended, Edited())
    }

    function ComposeAppended(weaker: ListOp<T>): UniqueList<T> {
      UniqueEdit(prepended, weaker.appended, appended, Items(deleted));
      Without(weaker.appended, Edited()) + appended
    }

    function ComposeOverAppliable(weaker: ListOp<T>): (r: ListOp<T>)
      requires !IsExplicit() && !weaker.IsExplicit()
      ensures !r.IsExplicit()
    {
      ListOp(None, ComposeDeleted(weaker), ComposePrepended(weaker), ComposeAppended(weaker))
    }

    function CombinedWith(weaker: ListOp<T>): ListOp<T> {
      if Inert() && weaker.Inert() then ListOp(None, [], [], [])
      else if Inert() then
        if weaker.IsExplicit() then Explicit(weaker.explicitItems.value)
        else ListOp(None, weaker.deleted, weaker.prepended, weaker.appended)
      else if IsExplicit() then Explicit(explicitItems.value)
      else if weaker.Inert() then ListOp(None, deleted, prepended, appended)
      else if weaker.IsExplicit() then ComposeOverExplicit(weaker)
      else ComposeOverAppliable(weaker)
    }

    function Reduced(): ListOp<T> {
      if IsExplicit() then Explicit(explicitItems.value)
      else
        UniqueWithout(deleted, Items(appended) + Items(prepended));
        UniqueWithout(prepended, Items(appended));
        ListOp(
          None,
          Without(deleted, Items(appended) + Items(prepended)),
          Without(prepended, Items(appended)),
          appended)
    }

    function OrderedElements(): seq<T> {
      if IsExplicit() then explicitItems.value
      else Without(prepended, Items(appended)) + appended
    }
  }

  function Explicit<T(==)>(items: UniqueList<T>): ListOp<T> {
    ListOp(Some(items), [], [], [])
  }

  /** The fold of a chain of operations, strongest first, onto `strong`. */
  function Fold<T(==)>(strong: ListOp<T>, weaker: seq<ListOp<T>>): ListOp<T>
    decreases |weaker|
  {
    if weaker == [] then strong else Fold(strong.CombinedWith(weaker[0]), weaker[1..])
  }

  // ---------------------------------------------------- filtered lists

  lemma {:induction false} InWithout<T>(s: seq<T>, dropped: set<T>)
    ensures forall e :: e in Without(s, dropped) <==> e in s && e !in dropped
  {
    if s != [] {
      InWithout(s[1..], dropped);
      assert s == [s[0]] + s[1..];
    }
  }

  lemma {:induction false} ItemsWithout<T>(s: seq<T>, dropped: set<T>)
    ensures Items(Without(s, dropped)) == Items(s) - dropped
  {
    if s != [] {
      ItemsWithout(s[1..], dropped);
      ItemsConcat([s[0]], s[1..]);
      ItemsConcat([s[0]], Without(s[1..], dropped));
      assert s == [s[0]] + s[1..];
      assert Items([s[0]]) == {s[0]};
    }
  }

  lemma {:induction false} ItemsConcat<T>(s: seq<T>, t: seq<T>)
    ensures Items(s + t) == Items(s) + Items(t)
  {
  }

  lemma {:induction false} UniqueWithout<T>(s: seq<T>, dropped: set<T>)
    requires Unique(s)
    ensures Unique(Without(s, dropped))
  {
    if s != [] {
      UniqueWithout(s[1..], dropped);
      InWithout(s[1..], dropped);
      assert forall e :: e in Without(s[1..], dropped) ==> e != s[0];
    }
  }

  lemma {:induction false} UniqueConcat<T>(a: seq<T>, b: seq<T>)
    requires Unique(a) && Unique(b) && forall e :: e in a ==> e !in b
    ensures Unique(a + b)
  {
    forall i, j | 0 <= i < j < |a + b| ensures (a + b)[i] != (a + b)[j] {
      if i < |a| <= j { assert a[i] in a; }
    }
  }

  lemma {:induction false} UniqueUnion<T>(a: seq<T>, b: seq<T>, dropped: set<T>)
    requires Unique(a) && Unique(b)
    ensures Unique(Without(a, dropped) + Without(b, Items(a) + dropped))
  {
    UniqueWithout(a, dropped);
    InWithout(a, dropped);
    UniqueWithout(b, Items(a) + dropped);
    InWithout(b, Items(a) + dropped);
    var (x, y) := (Without(a, dropped), Without(b, Items(a) + dropped));
    forall e | e in x ensures e !in y {
      assert e in a;
      assert e in Items(a) + dropped;
    }
    UniqueConcat(x, y);
  }

  /** Editing a unique list leaves it unique. */
  lemma {:induction false} UniqueEdit<T>(front: seq<T>, list: seq<T>, back: seq<T>, deleted: set<T>)
    requires Unique(front) && Unique(list) && Unique(back)
    ensures var (f, m) := (Without(front, Items(back)), Without(list, deleted + Items(front) + Items(back)));
      Unique(f + m) && Unique(m + back) && Unique(f + m + back)
  {
    var (f, m) := (Without(front, Items(back)), Without(list, deleted + Items(front) + Items(back)));
    UniqueWithout(front, Items(back));
    InWithout(front, Items(back));
    UniqueWithout(list, deleted + Items(front) + Items(back));
    InWithout(list, deleted + Items(front) + Items(back));
    UniqueConcat(f, m);
    UniqueConcat(m, back);
    UniqueConcat(f + m, back);
  }

  lemma {:induction false} WithoutConcat<T>(s: seq<T>, t: seq<T>, d: set<T>)
    ensures Without(s + t, d) == Without(s, d) + Without(t, d)
  {
    if s == [] {
      assert s + t == t;
    } else {
      WithoutConcat(s[1..], t, d);
      assert (s + t)[0] == s[0] && (s + t)[1..] == s[1..] + t;
      var (x, y) := (Without(s[1..], d), Without(t, d));
      assert [s[0]] + (x + y) == ([s[0]] + x) + y;
    }
  }

  lemma {:induction false} WithoutTwice<T>(s: seq<T>, d: set<T>, e: set<T>)
    ensures Without(Without(s, d), e) == Without(s, d + e)
  {
    if s != [] { WithoutTwice(s[1..], d, e); }
  }

  lemma {:induction false} WithoutSame<T>(s: seq<T>, d: set<T>, e: set<T>)
    requires forall x :: x in s ==> (x in d <==> x in e)
    ensures Without(s, d) == Without(s, e)
  {
    if s != [] { WithoutSame(s[1..], d, e); }
  }

  lemma {:induction false} WithoutNothing<T>(s: seq<T>)
    ensures Without(s, {}) == s
  {
    if s != [] { WithoutNothing(s[1..]); }
  }

  // -------------------------------------------------- what an edit means

  function Delete<T(==)>(items: seq<T>, list: seq<T>): seq<T> { Without(list, Items(items)) }

  /** Moves `items` to the front of `list`, in their order. */
  function Prepend<T(==)>(items: seq<T>, list: seq<T>): seq<T> { items + Without(list, Items(items)) }

  /** Moves `items` to the back of `list`, in their order. */
  function Append<T(==)>(items: seq<T>, list: seq<T>): seq<T> { Without(list, Items(items)) + items }

  /** The list `op` makes of `list`: its explicit items, or its deletions,
      then its prepended items, then its appended items. */
  function Apply<T(==)>(op: ListOp<T>, list: seq<T>): seq<T> {
    if op.IsExplicit() then op.explicitItems.value
    else Append(op.appended, Prepend(op.prepended, Delete(op.deleted, list)))
  }

  /** The operations applied weakest first, the strongest last. */
  function ApplyAll<T(==)>(ops: seq<ListOp<T>>, list: seq<T>): seq<T> {
    if ops == [] then list else Apply(ops[0], ApplyAll(ops[1..], list))
  }

  /** What composing over an explicit list computes is the application. */
  lemma {:induction false} ApplyIs<T>(op: ListOp<T>, list: seq<T>)
    requires !op.IsExplicit()
    ensures Apply(op, list) == Without(op.prepended, Items(op.appended)) + Without(list, op.Edited()) + op.appended
  {
    var (d, p, a) := (Items(op.deleted), Items(op.prepended), Items(op.appended));
    WithoutTwice(list, d, p);
    WithoutConcat(op.prepended, Without(list, d + p), a);
    WithoutTwice(list, d + p, a);
  }

  lemma {:induction false} ApplyUnique<T>(op: ListOp<T>, list: seq<T>)
    requires Unique(list)
    ensures Unique(Apply(op, list))
  {
    if !op.IsExplicit() {
      ApplyIs(op, list);
      UniqueEdit(op.prepended, list, op.appended, Items(op.deleted));
    }
  }

  lemma {:induction false} InertApplies<T>(op: ListOp<T>, list: seq<T>)
    requires op.Inert()
    ensures Apply(op, list) == list
  {
    assert Items<T>([]) == {};
    WithoutNothing(list);
    ApplyIs(op, list);
  }

  // ------------------------------------------- composing is applying

  /** Composing two composable operations composes their applications. */
  lemma {:induction false} ComposedApplies<T>(a: ListOp<T>, b: ListOp<T>, list: seq<T>)
    requires !a.IsExplicit() && !b.IsExplicit()
    ensures Apply(a.ComposeOverAppliable(b), list) == Apply(a, Apply(b, list))
  {
    var c := a.ComposeOverAppliable(b);
    var (ea, eb) := (a.Edited(), b.Edited());
    var front := Without(b.prepended, Items(b.appended));
    ApplyIs(a, Apply(b, list));
    ApplyIs(b, list);
    ApplyIs(c, list);
    ComposedEdits(a, b);
    ComposedFront(a, b);
    assert c.appended == Without(b.appended, ea) + a.appended;
    hide *;
    WithoutConcat(front + Without(list, eb), b.appended, ea);
    WithoutConcat(front, Without(list, eb), ea);
    WithoutTwice(list, eb, ea);
    WithoutSame(list, eb + ea, c.Edited());
    Regroup(Without(a.prepended, Items(a.appended)), Without(front, ea), Without(list, c.Edited()),
            Without(b.appended, ea), a.appended);
  }

  lemma {:induction false} Regroup<T>(p: seq<T>, q: seq<T>, m: seq<T>, b: seq<T>, a: seq<T>)
    ensures (p + q) + m + (b + a) == p + ((q + m) + b) + a
  {
  }

  lemma {:induction false} ComposedEdits<T>(a: ListOp<T>, b: ListOp<T>)
    requires !a.IsExplicit() && !b.IsExplicit()
    ensures a.ComposeOverAppliable(b).Edited() == a.Edited() + b.Edited()
  {
    var kept := Items(a.prepended) + Items(a.appended);
    ItemsWithout(b.deleted, kept);
    ItemsWithout(a.deleted, Items(b.deleted) + kept);
    ItemsWithout(a.prepended, Items(a.appended));
    ItemsWithout(b.prepended, a.Edited());
    ItemsWithout(b.appended, a.Edited());
    ItemsConcat(Without(b.deleted, kept), Without(a.deleted, Items(b.deleted) + kept));
    ItemsConcat(Without(a.prepended, Items(a.appended)), Without(b.prepended, a.Edited()));
    ItemsConcat(Without(b.appended, a.Edited()), a.appended);
    hide Items, Without;
  }

  /** The front of the composed operation. */
  lemma {:induction false} ComposedFront<T>(a: ListOp<T>, b: ListOp<T>)
    requires !a.IsExplicit() && !b.IsExplicit()
    ensures var c := a.ComposeOverAppliable(b);
      Without(c.prepended, Items(c.appended))
      == Without(a.prepended, Items(a.appended)) + Without(Without(b.prepended, Items(b.appended)), a.Edited())
  {
    var c := a.ComposeOverAppliable(b);
    var (x, y, d) := (Without(a.prepended, Items(a.appended)), Without(b.prepended, a.Edited()), Items(c.appended));
    InWithout(b.appended, a.Edited());
    InWithout(a.prepended, Items(a.appended));
    WithoutConcat(x, y, d);
    WithoutSame(x, d, {});
    WithoutNothing(x);
    WithoutTwice(b.prepended, a.Edited(), d);
    WithoutTwice(b.prepended, Items(b.appended), a.Edited());
    WithoutSame(b.prepended, a.Edited() + d, Items(b.appended) + a.Edited());
  }

  /** Composing any two operations composes their applications: for every list,
      the composed operation does what the weaker and then the stronger do. */
  lemma {:induction false} CombinedApplies<T>(a: ListOp<T>, b: ListOp<T>, list: seq<T>)
    ensures Apply(a.CombinedWith(b), list) == Apply(a, Apply(b, list))
  {
    if a.Inert() { InertApplies(a, Apply(b, list)); }
    if b.Inert() { InertApplies(b, list); }
    if a.Inert() && b.Inert() {
      InertApplies(ListOp<T>.ListOp(None, [], [], []), list);
    } else if !a.Inert() && !a.IsExplicit() && !b.Inert() {
      if b.IsExplicit() {
        ApplyIs(a, b.explicitItems.value);
      } else {
        ComposedApplies(a, b, list);
      }
    }
  }

  /** `(A over B) over` an explicit list is `A over (B over` that list`)`, as
      lists. */
  lemma {:induction false} CombinedOverExplicit<T>(a: ListOp<T>, b: ListOp<T>, list: UniqueList<T>)
    ensures a.CombinedWith(b).CombinedWith(Explicit(list)) == a.CombinedWith(b.CombinedWith(Explicit(list)))
  {
    OverExplicit(a.CombinedWith(b), list);
    OverExplicit(b, list);
    ApplyUnique(b, list);
    OverExplicit(a, Apply(b, list));
    CombinedApplies(a, b, list);
  }

  lemma {:induction false} OverExplicit<T>(op: ListOp<T>, list: UniqueList<T>)
    ensures Unique(Apply(op, list)) && op.CombinedWith(Explicit(list)) == Explicit(Apply(op, list))
  {
    ApplyUnique(op, list);
    if op.Inert() { InertApplies(op, list); } else if !op.IsExplicit() { ApplyIs(op, list); }
  }

  lemma {:induction false} ExplicitApplies<T>(op: ListOp<T>, list: seq<T>)
    requires op.IsExplicit()
    ensures Apply(op, list) == op.explicitItems.value
  {
  }

  lemma {:induction false} WithoutNone<T>(dropped: set<T>)
    ensures Without([], dropped) == []
  {
  }

  lemma {:induction false} OrderedIsApplied<T>(op: ListOp<T>)
    ensures op.Reduced().OrderedElements() == op.OrderedElements() == Apply(op, [])
  {
    hide Without, Apply, Items;
    if op.IsExplicit() {
      ExplicitApplies(op, []);
    } else {
      ApplyIs(op, []);
      WithoutNone<T>(op.Edited());
      WithoutTwice(op.prepended, Items(op.appended), Items(op.appended));
      assert Items(op.appended) + Items(op.appended) == Items(op.appended);
    }
  }

  lemma {:induction false} FoldApplies<T>(strong: ListOp<T>, weaker: seq<ListOp<T>>, list: seq<T>)
    ensures Apply(Fold(strong, weaker), list) == Apply(strong, ApplyAll(weaker, list))
    decreases |weaker|
  {
    if weaker != [] {
      FoldApplies(strong.CombinedWith(weaker[0]), weaker[1..], list);
      CombinedApplies(strong, weaker[0], ApplyAll(weaker[1..], list));
    }
  }

  /** A chain folded strongest first, reduced and read as a list is the chain
      applied weakest first to the empty list, and repeats nothing. */
  lemma {:induction false} ChainResolves<T>(ops: seq<ListOp<T>>)
    requires ops != []
    ensures Fold(ops[0], ops[1..]).Reduced().OrderedElements() == ApplyAll(ops, [])
    ensures Unique(ApplyAll(ops, []))
  {
    var folded := Fold(ops[0], ops[1..]);
    OrderedIsApplied(folded);
    FoldApplies(ops[0], ops[1..], []);
    ApplyUnique(folded, []);
  }

  // -------------------------------------------------------- associativity

  /** Equal up to `Reduced` and the order of deleted items. */
  ghost predicate Alike<T>(x: ListOp<T>, y: ListOp<T>) {
    var (p, q) := (x.Reduced(), y.Reduced());
    && p.explicitItems == q.explicitItems && p.prepended == q.prepended && p.appended == q.appended
    && Items(p.deleted) == Items(q.deleted)
  }

  /** What an operation does to any list: it fixes it, or puts a front and a
      back around what it leaves of it. */
  datatype Meaning<T> = Fixed(items: seq<T>) | Around(front: seq<T>, edited: set<T>, back: seq<T>)

  ghost function MeaningOf<T>(op: ListOp<T>): Meaning<T> {
    if op.IsExplicit() then Fixed(op.explicitItems.value)
    else Around(Without(op.prepended, Items(op.appended)), op.Edited(), op.appended)
  }

  ghost function Compose<T>(m: Meaning<T>, n: Meaning<T>): Meaning<T> {
    match m
    case Fixed(_) => m
    case Around(front, edited, back) =>
      match n
      case Fixed(items) => Fixed(front + Without(items, edited) + back)
      case Around(f, e, b) => Around(front + Without(f, edited), edited + e, Without(b, edited) + back)
  }

  /** Operations are alike exactly when they have one meaning. */
  lemma {:induction false} AlikeMeans<T>(x: ListOp<T>, y: ListOp<T>)
    ensures Alike(x, y) <==> MeaningOf(x) == MeaningOf(y)
  {
    EditedSplits(x);
    EditedSplits(y);
    assert x.IsExplicit() ==> Items(x.Reduced().deleted) == {};
  }

  lemma {:induction false} EditedSplits<T>(x: ListOp<T>)
    ensures !x.IsExplicit() ==>
      var (r, front, back) := (x.Reduced(), Items(Without(x.prepended, Items(x.appended))), Items(x.appended));
      && x.Edited() == Items(r.deleted) + front + back
      && Items(r.deleted) == x.Edited() - front - back
  {
    InWithout(x.deleted, Items(x.appended) + Items(x.prepended));
    InWithout(x.prepended, Items(x.appended));
    if !x.IsExplicit() {
      var (r, front, back) := (x.Reduced(), Items(Without(x.prepended, Items(x.appended))), Items(x.appended));
      forall e ensures e in x.Edited() <==> e in Items(r.deleted) + front + back {
        assert e in x.Edited() <==> e in x.deleted || e in x.prepended || e in x.appended;
      }
    }
  }

  /** The list is cut at an element that occurs once. */
  lemma {:induction false} SplitAt<T>(a: seq<T>, b: seq<T>, c: seq<T>, d: seq<T>, x: T)
    requires a + [x] + b == c + [x] + d && x !in a && x !in c
    ensures a == c && b == d
  {
    var s := a + [x] + b;
    assert s[|a|] == x && s[|c|] == x;
    assert forall i :: 0 <= i < |a| ==> s[i] == a[i] && a[i] in a;
    assert forall i :: 0 <= i < |c| ==> s[i] == c[i] && c[i] in c;
    assert s[..|a|] == a && s[..|c|] == c && s[|a| + 1..] == b && s[|c| + 1..] == d;
  }

  /** What a meaning does to a list. */
  ghost function Acts<T>(m: Meaning<T>, list: seq<T>): seq<T> {
    match m
    case Fixed(items) => items
    case Around(front, edited, back) => front + Without(list, edited) + back
  }

  lemma {:induction false} MeaningActs<T>(op: ListOp<T>, list: seq<T>)
    ensures Apply(op, list) == Acts(MeaningOf(op), list)
  {
    if !op.IsExplicit() { ApplyIs(op, list); }
  }

  /** An operation says nothing of `x`. */
  ghost predicate Silent<T>(op: ListOp<T>, x: T) {
    x !in op.Edited() && (op.IsExplicit() ==> x !in op.explicitItems.value)
  }

  /** Both operations make one list of any list that repeats nothing. */
  ghost predicate ActAlike<T(!new)>(x: ListOp<T>, y: ListOp<T>) {
    forall list: seq<T> :: Unique(list) ==> Apply(x, list) == Apply(y, list)
  }

  lemma {:induction false} FrontAndBack<T>(op: ListOp<T>)
    requires !op.IsExplicit()
    ensures var m := MeaningOf(op); Items(m.front) <= m.edited && Items(m.back) <= m.edited
  {
    ItemsWithout(op.prepended, Items(op.appended));
  }

  lemma {:induction false} WithoutOne<T>(x: T, dropped: set<T>)
    ensures Without([x], dropped) == if x in dropped then [] else [x]
  {
    assert [x][1..] == [];
  }

  /** Operations that act alike, on a list of an element neither speaks of and
      on lists of one element, mean the same. */
  lemma {:induction false} ActingMeans<T(!new)>(x: ListOp<T>, y: ListOp<T>, other: T)
    requires Silent(x, other) && Silent(y, other) && ActAlike(x, y)
    ensures MeaningOf(x) == MeaningOf(y)
  {
    hide Without, MeaningOf, Silent;
    OneActs(x, y, other);
    SilentMeans(x, other);
    SilentMeans(y, other);
    WithoutOne(other, if x.IsExplicit() then {} else MeaningOf(x).edited);
    WithoutOne(other, if y.IsExplicit() then {} else MeaningOf(y).edited);
    var (m, n) := (MeaningOf(x), MeaningOf(y));
    if m.Around? && n.Around? {
      FrontAndBack(x);
      FrontAndBack(y);
      SplitAt(m.front, m.back, n.front, n.back, other);
      forall e ensures e in m.edited <==> e in n.edited {
        OneActs(x, y, e);
        WithoutOne(e, m.edited);
        WithoutOne(e, n.edited);
        assert |Acts(m, [e])| == |m.front| + |m.back| + if e in m.edited then 0 else 1;
      }
    } else {
      assert m.Around? ==> other in Acts(m, [other]);
      assert n.Around? ==> other in Acts(n, [other]);
    }
  }

  lemma {:induction false} SilentMeans<T>(op: ListOp<T>, x: T)
    requires Silent(op, x)
    ensures op.IsExplicit() <==> MeaningOf(op).Fixed?
    ensures match MeaningOf(op)
      case Fixed(items) => x !in items
      case Around(front, edited, back) => x !in edited && x !in front && x !in back
  {
    InWithout(op.prepended, Items(op.appended));
  }

  lemma {:induction false} OneActs<T(!new)>(x: ListOp<T>, y: ListOp<T>, e: T)
    requires ActAlike(x, y)
    ensures Acts(MeaningOf(x), [e]) == Acts(MeaningOf(y), [e])
  {
    MeaningActs(x, [e]);
    MeaningActs(y, [e]);
    assert Unique([e]);
  }

  /** Operations are alike exactly when they do the same to every list, as long
      as there is an element neither speaks of. */
  lemma {:induction false} AlikeActs<T(!new)>(x: ListOp<T>, y: ListOp<T>, other: T)
    requires Silent(x, other) && Silent(y, other)
    ensures Alike(x, y) <==> forall list: seq<T> :: Apply(x, list) == Apply(y, list)
    ensures Alike(x, y) <==> ActAlike(x, y)
  {
    hide Apply, Alike, Silent, Unique;
    AlikeMeans(x, y);
    if Alike(x, y) {
      forall list: seq<T> ensures Apply(x, list) == Apply(y, list) {
        MeaningActs(x, list);
        MeaningActs(y, list);
      }
    }
    if ActAlike(x, y) { ActingMeans(x, y, other); }
  }

  /** What `CombinedWith` would be without its shortcuts. */
  function General<T(==)>(a: ListOp<T>, b: ListOp<T>): ListOp<T> {
    if a.IsExplicit() then Explicit(a.explicitItems.value)
    else if b.IsExplicit() then a.ComposeOverExplicit(b)
    else a.ComposeOverAppliable(b)
  }

  lemma {:induction false} GeneralMeans<T>(a: ListOp<T>, b: ListOp<T>)
    ensures MeaningOf(General(a, b)) == Compose(MeaningOf(a), MeaningOf(b))
  {
    hide Without, Items;
    if !a.IsExplicit() && !b.IsExplicit() {
      ComposedEdits(a, b);
      ComposedFront(a, b);
    }
  }

  lemma {:induction false} InertMeans<T>(op: ListOp<T>)
    requires op.Inert()
    ensures MeaningOf(op) == Around([], {}, [])
  {
    assert op.Edited() == {};
  }

  /** An operation that edits nothing composes to the other. */
  lemma {:induction false} ComposeNothing<T>(m: Meaning<T>)
    ensures Compose(Around([], {}, []), m) == m
    ensures m.Around? ==> Compose(m, Around([], {}, [])) == m
  {
    match m
    case Fixed(items) => WithoutNothing(items);
    case Around(front, edited, back) =>
      WithoutNothing(front);
      WithoutNothing(back);
      assert edited + {} == {} + edited == edited;
  }

  /** Every branch of `CombinedWith` composes the meanings: its shortcuts for
      inert operations too. */
  lemma {:induction false} CombinedMeans<T>(a: ListOp<T>, b: ListOp<T>)
    ensures MeaningOf(a.CombinedWith(b)) == Compose(MeaningOf(a), MeaningOf(b))
  {
    hide Compose, ListOp.ComposeOverExplicit, ListOp.ComposeOverAppliable, ListOp.Edited;
    ComposeNothing(MeaningOf(a));
    ComposeNothing(MeaningOf(b));
    if a.Inert() { InertMeans(a); }
    if b.Inert() { InertMeans(b); }
    GeneralMeans(a, b);
  }

  lemma {:induction false} ComposeAssociative<T>(l: Meaning<T>, m: Meaning<T>, n: Meaning<T>)
    ensures Compose(Compose(l, m), n) == Compose(l, Compose(m, n))
  {
    hide Without;
    if l.Around? && m.Around? {
      match n
      case Fixed(items) =>
        WithoutConcat(m.front + Without(items, m.edited), m.back, l.edited);
        WithoutConcat(m.front, Without(items, m.edited), l.edited);
        WithoutTwice(items, m.edited, l.edited);
        assert m.edited + l.edited == l.edited + m.edited;
        Regroup(l.front, Without(m.front, l.edited), Without(items, l.edited + m.edited), Without(m.back, l.edited), l.back);
      case Around(f, e, b) =>
        WithoutConcat(m.front, Without(f, m.edited), l.edited);
        WithoutConcat(Without(b, m.edited), m.back, l.edited);
        WithoutTwice(f, m.edited, l.edited);
        WithoutTwice(b, m.edited, l.edited);
        assert m.edited + l.edited == l.edited + m.edited;
        assert l.edited + m.edited + e == l.edited + (m.edited + e);
    }
  }

  /** Composition is associative over explicit, composable and inert
      operations, up to `Reduced` and the order of deleted items. */
  lemma {:induction false} CombinedAssociative<T>(a: ListOp<T>, b: ListOp<T>, c: ListOp<T>)
    ensures Alike(a.CombinedWith(b).CombinedWith(c), a.CombinedWith(b.CombinedWith(c)))
  {
    CombinedMeans(a.CombinedWith(b), c);
    CombinedMeans(a, b);
    CombinedMeans(a, b.CombinedWith(c));
    CombinedMeans(b, c);
    ComposeAssociative(MeaningOf(a), MeaningOf(b), MeaningOf(c));
    AlikeMeans(a.CombinedWith(b).CombinedWith(c), a.CombinedWith(b.CombinedWith(c)));
  }

  /** The shortcuts agree with the general formula they skip. */
  lemma {:induction false} ShortcutsAgree<T>(a: ListOp<T>, b: ListOp<T>)
    ensures Alike(a.CombinedWith(b), General(a, b))
  {
    CombinedMeans(a, b);
    GeneralMeans(a, b);
    AlikeMeans(a.CombinedWith(b), General(a, b));
  }
}
