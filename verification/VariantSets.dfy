/** The evaluation of variant sets: `evaluate_variant_sets` in
    `layerstack/src/compose.rs`. Each selection may open branches, and what
    these author takes part in the evaluation from then on. */
module VariantSets {

  datatype Option<+T> = None | Some(value: T)

  type Token = int

  type Selections = map<Token, Token>

  datatype Branch = Branch(of: Token, variant: Token)

  /** Every branch of `branches` is selected by `selections`. */
  predicate Selected(branches: seq<Branch>, selections: Selections) {
    forall b :: b in branches ==> b.of in selections && selections[b.of] == b.variant
  }

  /** A prim spec or variant spec that may author and declare selections. */
  datatype Site = Site(branch: seq<Branch>, authored: Option<Selections>, declared: seq<Token>) {
    /** The selections agree with the site's whole path of branches. */
    predicate Composed(selections: Selections) { Selected(branch, selections) }

    function Authored(): Selections { if authored.Some? then authored.value else map[] }
  }

  /** `unselected`: sets evaluated without a selection since the last one. */
  datatype State = State(selections: Selections, unselected: set<Token>)

  // -------------------------------------------------- choosing a set

  function FirstNew(declared: seq<Token>, s: State): Option<Token> {
    if declared == [] then None
    else if declared[0] !in s.selections && declared[0] !in s.unselected then Some(declared[0])
    else FirstNew(declared[1..], s)
  }

  /** The first set not yet evaluated of the strongest composed site with one. */
  function Next(sites: seq<Site>, s: State): Option<Token> {
    if sites == [] then None
    else
      var here := if sites[0].Composed(s.selections) then FirstNew(sites[0].declared, s) else None;
      if here.Some? then here else Next(sites[1..], s)
  }

  /** The selection the strongest composed site authors. */
  function Found(sites: seq<Site>, selections: Selections, t: Token): Option<Token> {
    if sites == [] then None
    else if sites[0].Composed(selections) && t in sites[0].Authored() then Some(sites[0].Authored()[t])
    else Found(sites[1..], selections, t)
  }

  predicate Authors(sites: seq<Site>, i: nat, selections: Selections, t: Token) {
    i < |sites| && sites[i].Composed(selections) && t in sites[i].Authored()
  }

  predicate Declares(sites: seq<Site>, i: nat, selections: Selections, t: Token) {
    i < |sites| && sites[i].Composed(selections) && t in sites[i].declared
  }

  lemma {:induction false} FirstNewIs(declared: seq<Token>, s: State)
    ensures var t := FirstNew(declared, s);
      if t.Some? then t.value in declared && t.value !in s.selections && t.value !in s.unselected
      else forall d :: d in declared ==> d in s.selections || d in s.unselected
  {
    if declared != [] {
      FirstNewIs(declared[1..], s);
      assert declared == [declared[0]] + declared[1..];
    }
  }

  /** `Next` misses no set a composed site declares. */
  lemma {:induction false} NextIs(sites: seq<Site>, s: State)
    ensures var t := Next(sites, s);
      if t.Some? then
        t.value !in s.selections && t.value !in s.unselected && exists i: nat :: Declares(sites, i, s.selections, t.value)
      else forall i: nat, d :: Declares(sites, i, s.selections, d) ==> d in s.selections || d in s.unselected
  {
    if sites != [] {
      NextIs(sites[1..], s);
      FirstNewIs(sites[0].declared, s);
      var t := Next(sites, s);
      if t.Some? {
        if sites[0].Composed(s.selections) && FirstNew(sites[0].declared, s).Some? {
          assert Declares(sites, 0, s.selections, t.value);
        } else {
          var i: nat :| Declares(sites[1..], i, s.selections, t.value);
          assert Declares(sites, i + 1, s.selections, t.value);
        }
      } else {
        forall i: nat, d | Declares(sites, i, s.selections, d) ensures d in s.selections || d in s.unselected {
          if i > 0 { assert Declares(sites[1..], i - 1, s.selections, d); }
        }
      }
    }
  }

  /** Every set in `declared` was evaluated. */
  predicate AllEvaluated(declared: seq<Token>, s: State) {
    forall d :: d in declared ==> d in s.selections || d in s.unselected
  }

  lemma {:induction false} FirstNewAt(declared: seq<Token>, s: State) returns (k: nat)
    requires FirstNew(declared, s).Some?
    ensures k < |declared| && declared[k] == FirstNew(declared, s).value && AllEvaluated(declared[..k], s)
  {
    k := 0;
    if declared[0] in s.selections || declared[0] in s.unselected {
      var later := FirstNewAt(declared[1..], s);
      k := later + 1;
      assert declared[..k] == [declared[0]] + declared[1..][..later];
    }
  }

  /** The next set comes first in its list among those not evaluated, and no
      stronger composed site lists another. */
  lemma {:induction false} NextIsFirst(sites: seq<Site>, s: State)
    requires Next(sites, s).Some?
    ensures exists i: nat, k: nat ::
      && i < |sites| && sites[i].Composed(s.selections) && k < |sites[i].declared|
      && sites[i].declared[k] == Next(sites, s).value && AllEvaluated(sites[i].declared[..k], s)
      && forall j: nat :: j < i && sites[j].Composed(s.selections) ==> AllEvaluated(sites[j].declared, s)
  {
    var here := if sites[0].Composed(s.selections) then FirstNew(sites[0].declared, s) else None;
    if here.Some? {
      var k := FirstNewAt(sites[0].declared, s);
      assert sites[0].declared[k] == Next(sites, s).value;
    } else {
      var rest := sites[1..];
      NextIsFirst(rest, s);
      FirstNewIs(sites[0].declared, s);
      var i: nat, k: nat :|
        && i < |rest| && rest[i].Composed(s.selections) && k < |rest[i].declared|
        && rest[i].declared[k] == Next(rest, s).value && AllEvaluated(rest[i].declared[..k], s)
        && forall j: nat :: j < i && rest[j].Composed(s.selections) ==> AllEvaluated(rest[j].declared, s);
      assert sites[i + 1].declared[k] == Next(sites, s).value;
      assert forall j: nat :: 0 < j < i + 1 ==> sites[j] == rest[j - 1];
    }
  }

  /** Site `i` is the strongest composed site to author a selection of `t`. */
  ghost predicate Strongest(sites: seq<Site>, i: nat, selections: Selections, t: Token) {
    Authors(sites, i, selections, t) && forall j: nat :: j < i ==> !Authors(sites, j, selections, t)
  }

  /** `Found` comes from the strongest author, and is missing only if none is
      composed. */
  lemma {:induction false} FoundIs(sites: seq<Site>, selections: Selections, t: Token)
    ensures var v := Found(sites, selections, t);
      if v.Some? then exists i: nat :: Strongest(sites, i, selections, t) && v.value == sites[i].Authored()[t]
      else forall i: nat :: !Authors(sites, i, selections, t)
  {
    if sites != [] {
      if Authors(sites, 0, selections, t) {
        assert Strongest(sites, 0, selections, t);
      } else {
        FoundIs(sites[1..], selections, t);
        assert forall i: nat :: i > 0 ==> (Authors(sites, i, selections, t) <==> Authors(sites[1..], i - 1, selections, t));
        if Found(sites, selections, t).Some? {
          var i: nat :| Strongest(sites[1..], i, selections, t) && Found(sites, selections, t).value == sites[1..][i].Authored()[t];
          assert Strongest(sites, i + 1, selections, t);
        }
      }
    }
  }

  // ------------------------------------------------------ the two loops

  /** Every set a site declares. */
  function AllDeclared(sites: seq<Site>): set<Token> {
    set i, t | 0 <= i < |sites| && t in sites[i].declared :: t
  }

  /** Every set a site authors a selection of. */
  function AllAuthored(sites: seq<Site>): set<Token> {
    set i, t | 0 <= i < |sites| && t in sites[i].Authored() :: t
  }

  /** Evaluating a set leaves fewer to evaluate. */
  lemma {:induction false} Evaluates(sites: seq<Site>, s: State, t: Token)
    requires t !in s.selections && t !in s.unselected && exists i: nat :: Declares(sites, i, s.selections, t)
    ensures AllDeclared(sites) - (s.selections.Keys + {t}) < AllDeclared(sites) - s.selections.Keys
    ensures AllDeclared(sites) - (s.unselected + {t}) < AllDeclared(sites) - s.unselected
  {
    var i: nat :| Declares(sites, i, s.selections, t);
    assert t in AllDeclared(sites) - s.selections.Keys;
    assert t in AllDeclared(sites) - s.unselected;
  }

  function FirstLoop(sites: seq<Site>, s: State): State
    decreases AllDeclared(sites) - s.selections.Keys, AllDeclared(sites) - s.unselected
  {
    NextIs(sites, s);
    match Next(sites, s)
    case None => s
    case Some(t) =>
      Evaluates(sites, s, t);
      match Found(sites, s.selections, t)
      case Some(v) => FirstLoop(sites, State(s.selections[t := v], {}))
      case None => FirstLoop(sites, State(s.selections, s.unselected + {t}))
  }

  /** Adds each selection of `authored` whose set is neither selected nor in
      `unselected`. */
  function Filled(selections: Selections, authored: Selections, unselected: set<Token>): (r: Selections)
    ensures selections.Keys <= r.Keys && forall t :: t in selections ==> r[t] == selections[t]
  {
    map t | t in selections.Keys + (authored.Keys - unselected) :: if t in selections then selections[t] else authored[t]
  }

  /** One pass over the first `n` sites. */
  function Pass(sites: seq<Site>, n: nat, s: State): Selections
    requires n <= |sites|
  {
    if n == 0 then s.selections
    else
      var before := Pass(sites, n - 1, s);
      if sites[n - 1].Composed(before) then Filled(before, sites[n - 1].Authored(), s.unselected) else before
  }

  lemma {:induction false} PassIs(sites: seq<Site>, n: nat, s: State)
    requires n <= |sites|
    ensures Keeps(s.selections, Pass(sites, n, s))
    ensures Pass(sites, n, s).Keys <= s.selections.Keys + (AllAuthored(sites) - s.unselected)
  {
    if n > 0 {
      PassIs(sites, n - 1, s);
      assert forall t :: t in sites[n - 1].Authored() ==> t in AllAuthored(sites);
    }
  }

  function SecondLoop(sites: seq<Site>, s: State): Selections
    decreases AllAuthored(sites) - s.selections.Keys
  {
    var after := Pass(sites, |sites|, s);
    if after == s.selections then after
    else
      PassIs(sites, |sites|, s);
      SelectsMore(s.selections, after);
      SecondLoop(sites, State(after, s.unselected))
  }

  function Start(): State { State(map[], {}) }

  /** The selections of a prim. */
  function Evaluated(sites: seq<Site>): Selections {
    SecondLoop(sites, FirstLoop(sites, Start()))
  }

  // ---------------------------------------------- selections never change

  /** `after` has every selection of `before`, unchanged. */
  ghost predicate Keeps(before: Selections, after: Selections) {
    forall t :: t in before ==> t in after && after[t] == before[t]
  }

  lemma {:induction false} SameSelections(before: Selections, after: Selections)
    requires Keeps(before, after) && forall t :: t in after ==> t in before
    ensures after == before
  {
    forall t ensures t in before.Keys <==> t in after.Keys {
      assert t in before ==> t in after;
      assert t in after ==> t in before;
    }
    assert before.Keys == after.Keys;
    assert forall t :: t in before ==> before[t] == after[t];
    assert before == after;
  }

  lemma {:induction false} SelectsMore(before: Selections, after: Selections)
    requires Keeps(before, after) && after != before
    ensures exists t :: t in after && t !in before
  {
    if forall t :: t in after ==> t in before { SameSelections(before, after); }
  }

  lemma {:induction false} StaysComposed(s: Site, before: Selections, after: Selections)
    requires Keeps(before, after) && s.Composed(before)
    ensures s.Composed(after)
  {
  }

  // ------------------------------------------------------ the first loop

  /** Each set in `unselected` is declared by a composed site, not selected,
      and authored by no composed site. */
  ghost predicate RightlyUnselected(sites: seq<Site>, s: State) {
    forall t :: t in s.unselected ==>
      && t !in s.selections
      && (exists i: nat :: Declares(sites, i, s.selections, t))
      && forall i: nat :: !Authors(sites, i, s.selections, t)
  }

  lemma {:induction false} FirstLoopSettles(sites: seq<Site>, s: State)
    requires RightlyUnselected(sites, s)
    ensures var r := FirstLoop(sites, s);
      Keeps(s.selections, r.selections) && RightlyUnselected(sites, r) && Next(sites, r).None?
    decreases AllDeclared(sites) - s.selections.Keys, AllDeclared(sites) - s.unselected
  {
    NextIs(sites, s);
    match Next(sites, s)
    case None =>
    case Some(t) =>
      Evaluates(sites, s, t);
      FoundIs(sites, s.selections, t);
      match Found(sites, s.selections, t)
      case Some(v) => FirstLoopSettles(sites, State(s.selections[t := v], {}));
      case None => FirstLoopSettles(sites, State(s.selections, s.unselected + {t}));
  }

  /** After the first loop the sets composed sites declare are exactly the
      selected ones among them and `unselected`, and no composed site authors
      a selection of those left unselected. */
  lemma {:induction false} FirstLoopDecides(sites: seq<Site>)
    ensures var s := FirstLoop(sites, Start());
      forall t :: t in s.unselected <==>
        && t !in s.selections
        && (exists i: nat :: Declares(sites, i, s.selections, t))
    ensures var s := FirstLoop(sites, Start());
      forall t, i: nat :: t in s.unselected ==> !Authors(sites, i, s.selections, t)
  {
    FirstLoopSettles(sites, Start());
    NextIs(sites, FirstLoop(sites, Start()));
  }

  // ------------------------------------------------------ the second loop

  /** At return every selection a composed site authors is of a set that is
      selected or was left unselected, and what was selected is kept. */
  lemma {:induction false} SecondLoopSettles(sites: seq<Site>, s: State)
    ensures var r := SecondLoop(sites, s);
      && Keeps(s.selections, r)
      && r.Keys <= s.selections.Keys + (AllAuthored(sites) - s.unselected)
      && forall i: nat, t :: Authors(sites, i, r, t) ==> t in r || t in s.unselected
    decreases AllAuthored(sites) - s.selections.Keys
  {
    PassIs(sites, |sites|, s);
    var after := Pass(sites, |sites|, s);
    if after == s.selections {
      forall i: nat, t | Authors(sites, i, after, t) ensures t in after || t in s.unselected {
        PassBetween(sites, i, s);
        PassBetween(sites, i + 1, s);
      }
    } else {
      SelectsMore(s.selections, after);
      SecondLoopSettles(sites, State(after, s.unselected));
    }
  }

  lemma {:induction false} PassGrows(sites: seq<Site>, n: nat, m: nat, s: State)
    requires n <= m <= |sites|
    ensures Keeps(Pass(sites, n, s), Pass(sites, m, s))
    decreases m
  {
    if n < m { PassGrows(sites, n, m - 1, s); }
  }

  lemma {:induction false} PassAdds(sites: seq<Site>, n: nat, s: State, t: Token)
    requires n < |sites| && t !in s.unselected && Authors(sites, n, Pass(sites, n, s), t)
    ensures t in Pass(sites, n + 1, s)
  {
  }

  /** Site `i` is the first that is composed when its turn in a pass comes and
      authors a selection of `t`. */
  ghost predicate FirstInPass(sites: seq<Site>, i: nat, s: State, t: Token) {
    && i < |sites| && Authors(sites, i, Pass(sites, i, s), t)
    && forall j: nat :: j < i ==> !Authors(sites, j, Pass(sites, j, s), t)
  }

  /** A set a pass selects takes the selection of the first site that is
      composed when its turn comes and authors one. */
  lemma {:induction false} PassTakesFirst(sites: seq<Site>, n: nat, s: State, t: Token)
    requires n <= |sites| && t in Pass(sites, n, s) && t !in s.selections
    ensures t !in s.unselected
    ensures exists i: nat :: i < n && FirstInPass(sites, i, s, t) && Pass(sites, n, s)[t] == sites[i].Authored()[t]
  {
    hide Authors;
    var before := Pass(sites, n - 1, s);
    if t in before {
      PassTakesFirst(sites, n - 1, s, t);
    } else {
      TakenHere(sites, n - 1, s, t);
      forall j: nat | j < n - 1 ensures !Authors(sites, j, Pass(sites, j, s), t) {
        PassGrows(sites, j + 1, n - 1, s);
        if Authors(sites, j, Pass(sites, j, s), t) { PassAdds(sites, j, s, t); }
      }
      assert FirstInPass(sites, n - 1, s, t);
    }
  }

  lemma {:induction false} TakenHere(sites: seq<Site>, i: nat, s: State, t: Token)
    requires i < |sites| && t !in Pass(sites, i, s) && t in Pass(sites, i + 1, s)
    ensures t !in s.unselected && Authors(sites, i, Pass(sites, i, s), t)
    ensures Pass(sites, i + 1, s)[t] == sites[i].Authored()[t]
  {
  }

  /** A pass that changes nothing changes nothing at any site. */
  lemma {:induction false} PassBetween(sites: seq<Site>, n: nat, s: State)
    requires n <= |sites| && Pass(sites, |sites|, s) == s.selections
    ensures Pass(sites, n, s) == s.selections
  {
    PassIs(sites, n, s);
    PassGrows(sites, n, |sites|, s);
    SameSelections(s.selections, Pass(sites, n, s));
  }

  lemma {:induction false} Shrinks(all: set<Token>, before: Selections, after: Selections, unselected: set<Token>)
    requires Keeps(before, after) && (exists t :: t in after && t !in before)
    requires after.Keys <= before.Keys + (all - unselected)
    ensures all - after.Keys < all - before.Keys
  {
    var t :| t in after && t !in before;
    assert t in all - before.Keys && t !in all - after.Keys;
    forall u | u in all - after.Keys ensures u in all - before.Keys {
      assert u in before ==> u in after;
    }
  }

  lemma {:induction false} HasOne(s: set<Token>)
    requires s != {}
    ensures exists t :: t in s
  {
    assert (forall t :: t !in s) ==> s == {};
  }

  // ------------------------------------------------- grounded selections

  /** `log` lists the selected sets in an order in which each selection is
      authored by a site composed under the selections before it, the strongest
      such site for the first `n`. */
  ghost predicate Grounded(sites: seq<Site>, log: seq<Token>, n: nat, selections: Selections)
    decreases |log|
  {
    if log == [] then selections == map[]
    else
      var (front, t) := (log[..|log| - 1], log[|log| - 1]);
      && t in selections
      && Grounded(sites, front, n, selections - {t})
      && exists i: nat ::
        && Authors(sites, i, selections - {t}, t) && sites[i].Authored()[t] == selections[t]
        && (|log| <= n ==> Strongest(sites, i, selections - {t}, t))
  }

  lemma {:induction false} GroundsOne(
      sites: seq<Site>, log: seq<Token>, n: nat, selections: Selections, i: nat, t: Token)
    requires Grounded(sites, log, n, selections) && t !in selections && Authors(sites, i, selections, t)
    requires |log| < n ==> Strongest(sites, i, selections, t)
    ensures Grounded(sites, log + [t], n, selections[t := sites[i].Authored()[t]])
  {
    var after := selections[t := sites[i].Authored()[t]];
    assert after - {t} == selections;
    assert (log + [t])[..|log|] == log;
  }

  ghost predicate GroundedStrongest(sites: seq<Site>, log: seq<Token>, selections: Selections) {
    forall n: nat :: Grounded(sites, log, n, selections)
  }

  lemma {:induction false} GroundsStrongest(sites: seq<Site>, log: seq<Token>, selections: Selections, i: nat, t: Token)
    requires GroundedStrongest(sites, log, selections) && t !in selections && Strongest(sites, i, selections, t)
    ensures GroundedStrongest(sites, log + [t], selections[t := sites[i].Authored()[t]])
  {
    var (longer, after) := (log + [t], selections[t := sites[i].Authored()[t]]);
    forall n: nat ensures Grounded(sites, longer, n, after) {
      GroundsOne(sites, log, n, selections, i, t);
    }
  }

  lemma {:induction false} FirstLoopGrounded(sites: seq<Site>, s: State, log: seq<Token>) returns (all: seq<Token>)
    requires GroundedStrongest(sites, log, s.selections)
    ensures GroundedStrongest(sites, all, FirstLoop(sites, s).selections)
    decreases AllDeclared(sites) - s.selections.Keys, AllDeclared(sites) - s.unselected
  {
    NextIs(sites, s);
    match Next(sites, s)
    case None => all := log;
    case Some(t) =>
      Evaluates(sites, s, t);
      FoundIs(sites, s.selections, t);
      match Found(sites, s.selections, t)
      case Some(v) =>
        var i: nat :| Strongest(sites, i, s.selections, t) && v == sites[i].Authored()[t];
        GroundsStrongest(sites, log, s.selections, i, t);
        all := FirstLoopGrounded(sites, State(s.selections[t := v], {}), log + [t]);
      case None =>
        all := FirstLoopGrounded(sites, State(s.selections, s.unselected + {t}), log);
  }

  lemma {:induction false} FilledGrounded(
      sites: seq<Site>, i: nat, log: seq<Token>, n: nat, selections: Selections, unselected: set<Token>)
    returns (all: seq<Token>)
    requires Grounded(sites, log, n, selections) && n <= |log| && i < |sites| && sites[i].Composed(selections)
    ensures Grounded(sites, all, n, Filled(selections, sites[i].Authored(), unselected)) && log <= all
  {
    hide Grounded;
    var target := Filled(selections, sites[i].Authored(), unselected);
    var now, todo := selections, target.Keys - selections.Keys;
    all := log;
    while todo != {}
      invariant Grounded(sites, all, n, now) && log <= all
      invariant Keeps(selections, now) && Keeps(now, target) && todo == target.Keys - now.Keys
    {
      HasOne(todo);
      var t :| t in todo;
      StaysComposed(sites[i], selections, now);
      GroundsOne(sites, all, n, now, i, t);
      now, all, todo := now[t := sites[i].Authored()[t]], all + [t], todo - {t};
    }
    forall t | t in target ensures t in now {
      assert t !in target.Keys - now.Keys;
    }
    SameSelections(now, target);
  }

  lemma {:induction false} PassGrounded(
      sites: seq<Site>, m: nat, s: State, log: seq<Token>, n: nat) returns (all: seq<Token>)
    requires m <= |sites| && Grounded(sites, log, n, s.selections) && n <= |log|
    ensures Grounded(sites, all, n, Pass(sites, m, s)) && log <= all
  {
    hide Grounded, Filled;
    all := log;
    if m > 0 {
      all := PassGrounded(sites, m - 1, s, log, n);
      var before := Pass(sites, m - 1, s);
      if sites[m - 1].Composed(before) {
        all := FilledGrounded(sites, m - 1, all, n, before, s.unselected);
      }
    }
  }

  lemma {:induction false} SecondLoopGrounded(
      sites: seq<Site>, s: State, log: seq<Token>, n: nat) returns (all: seq<Token>)
    requires Grounded(sites, log, n, s.selections) && n <= |log|
    ensures Grounded(sites, all, n, SecondLoop(sites, s)) && log <= all
    decreases AllAuthored(sites) - s.selections.Keys
  {
    hide Grounded;
    all := PassGrounded(sites, |sites|, s, log, n);
    var after := Pass(sites, |sites|, s);
    if after != s.selections {
      PassIs(sites, |sites|, s);
      SelectsMore(s.selections, after);
      all := SecondLoopGrounded(sites, State(after, s.unselected), all, n);
    }
  }

  /** Each entry of a grounded log is authored by a site all of whose branches
      are selected by the entries before it. */
  lemma {:induction false} GroundedEarlier(sites: seq<Site>, log: seq<Token>, n: nat, selections: Selections, k: nat)
    requires Grounded(sites, log, n, selections) && k < |log|
    ensures log[k] in selections && log[k] !in log[..k] && |log| == |selections|
    ensures exists i: nat ::
      && i < |sites| && log[k] in sites[i].Authored() && sites[i].Authored()[log[k]] == selections[log[k]]
      && forall b :: b in sites[i].branch ==> b.of in log[..k] && b.of in selections && selections[b.of] == b.variant
    decreases |log|
  {
    var (front, t) := (log[..|log| - 1], log[|log| - 1]);
    var before := selections - {t};
    GroundedKeys(sites, front, n, before);
    GroundedKeys(sites, log, n, selections);
    if k == |log| - 1 {
      assert log[..k] == front;
      var i: nat :| Authors(sites, i, before, t) && sites[i].Authored()[t] == selections[t];
      assert forall b :: b in sites[i].branch ==> b.of in before;
    } else {
      GroundedEarlier(sites, front, n, before, k);
      assert log[..k] == front[..k];
    }
  }

  lemma {:induction false} GroundedKeys(sites: seq<Site>, log: seq<Token>, n: nat, selections: Selections)
    requires Grounded(sites, log, n, selections)
    ensures |log| == |selections|
    ensures forall t :: t in log <==> t in selections
    decreases |log|
  {
    if log != [] {
      var (front, t) := (log[..|log| - 1], log[|log| - 1]);
      var before := selections - {t};
      GroundedKeys(sites, front, n, before);
      assert selections.Keys == before.Keys + {t};
      assert log == front + [t];
    }
  }

  /** Every selection has a cause: the sets can be ordered so that each is
      authored by a site whose branches are all selected earlier, and those of
      the first loop by the strongest such site. */
  lemma {:induction false} EvaluatedIsGrounded(sites: seq<Site>)
    ensures exists log: seq<Token>, n: nat ::
      && n <= |log| && Grounded(sites, log, n, Evaluated(sites))
      && Grounded(sites, log[..n], n, FirstLoop(sites, Start()).selections)
  {
    var first := FirstLoopGrounded(sites, Start(), []);
    var log := SecondLoopGrounded(sites, FirstLoop(sites, Start()), first, |first|);
    assert log[..|first|] == first;
  }

  // ------------------------------------------------- sets left unselected

  /** At return every set a composed site authors is selected or was left
      unselected by the first loop. */
  lemma {:induction false} EvaluatedSettles(sites: seq<Site>)
    ensures var (first, r) := (FirstLoop(sites, Start()), Evaluated(sites));
      && Keeps(first.selections, r)
      && (forall t :: t in first.unselected ==> t !in r)
      && forall i: nat, t :: Authors(sites, i, r, t) ==> t in r || t in first.unselected
  {
    FirstLoopDecides(sites);
    SecondLoopSettles(sites, FirstLoop(sites, Start()));
  }

  /** The selections when the second loop evaluates the unselected sets again,
      as the first loop does once a branch composes. */
  function Retried(sites: seq<Site>): Selections {
    SecondLoop(sites, State(FirstLoop(sites, Start()).selections, {}))
  }

  /** A set the first loop left unselected is authored by a site that has come
      to be composed. */
  ghost predicate LeftBehind(sites: seq<Site>) {
    exists i: nat, t :: t in FirstLoop(sites, Start()).unselected && Authors(sites, i, Evaluated(sites), t)
  }

  /** No site composed under `r` authors a set in `unselected`. */
  ghost predicate Unblocked(sites: seq<Site>, r: Selections, unselected: set<Token>) {
    forall i: nat, t :: Authors(sites, i, r, t) ==> t !in unselected
  }

  lemma {:induction false} SamePass(sites: seq<Site>, n: nat, s: State, r: Selections)
    requires n <= |sites| && Keeps(Pass(sites, n, s), r) && Unblocked(sites, r, s.unselected)
    ensures Pass(sites, n, s) == Pass(sites, n, State(s.selections, {}))
  {
    if n > 0 {
      var (before, site) := (Pass(sites, n - 1, s), sites[n - 1]);
      PassGrows(sites, n - 1, n, s);
      SamePass(sites, n - 1, s, r);
      if site.Composed(before) {
        StaysComposed(site, before, r);
        assert forall t :: t in site.Authored() ==> Authors(sites, n - 1, r, t);
        assert site.Authored().Keys - s.unselected == site.Authored().Keys - {};
      }
    }
  }

  lemma {:induction false} SameSecondLoop(sites: seq<Site>, s: State)
    requires Unblocked(sites, SecondLoop(sites, s), s.unselected)
    ensures SecondLoop(sites, s) == SecondLoop(sites, State(s.selections, {}))
    decreases AllAuthored(sites) - s.selections.Keys
  {
    var after := Pass(sites, |sites|, s);
    PassIs(sites, |sites|, s);
    if after == s.selections {
      SamePass(sites, |sites|, s, after);
    } else {
      SelectsMore(s.selections, after);
      SecondLoopSettles(sites, State(after, s.unselected));
      SamePass(sites, |sites|, s, SecondLoop(sites, s));
      SameSecondLoop(sites, State(after, s.unselected));
    }
  }

  /** Never evaluating the unselected sets again matters exactly when one is
      left behind. */
  lemma {:induction false} RetryMatters(sites: seq<Site>)
    ensures Evaluated(sites) == Retried(sites) <==> !LeftBehind(sites)
  {
    var first := FirstLoop(sites, Start());
    if !LeftBehind(sites) {
      assert Unblocked(sites, Evaluated(sites), first.unselected);
      SameSecondLoop(sites, first);
    } else {
      EvaluatedSettles(sites);
      var i: nat, t :| t in first.unselected && Authors(sites, i, Evaluated(sites), t);
      SecondLoopSettles(sites, State(first.selections, {}));
      assert Evaluated(sites) == Retried(sites) ==> t in Evaluated(sites);
    }
  }

  /** Site `j` declares the set of branch `k` of site `i` from inside branches
      that enclose it. */
  ghost predicate DeclaresAround(sites: seq<Site>, j: nat, i: nat, k: nat) {
    && j < |sites| && i < |sites| && k < |sites[i].branch|
    && (forall b :: b in sites[j].branch ==> b in sites[i].branch[..k])
    && sites[i].branch[k].of in sites[j].declared
  }

  /** Branch `k` of site `i` is of a set no site around it declares. */
  ghost predicate Loose(sites: seq<Site>, i: nat, k: nat) {
    i < |sites| && k < |sites[i].branch| && forall j: nat :: !DeclaresAround(sites, j, i, k)
  }

  /** A site that authors a set some site declares. */
  ghost predicate AuthorsDeclared(sites: seq<Site>, i: nat) {
    i < |sites| && exists t :: t in sites[i].Authored() && t in AllDeclared(sites)
  }

  /** Every site that authors a declared set lies in branches of sets declared
      around them, as the branches of nested variant sets are. */
  ghost predicate BranchesNested(sites: seq<Site>) {
    forall i: nat, k: nat :: AuthorsDeclared(sites, i) ==> !Loose(sites, i, k)
  }

  /** Some site authors the selection that a branch names. */
  ghost predicate AuthorsBranch(sites: seq<Site>, j: nat, b: Branch) {
    j < |sites| && b.of in sites[j].Authored() && sites[j].Authored()[b.of] == b.variant
  }

  /** The first branch of a site that the first loop has not selected. */
  lemma {:induction false} FirstUnselected(branches: seq<Branch>, selections: Selections) returns (k: nat)
    requires !Selected(branches, selections)
    ensures k < |branches| && Selected(branches[..k], selections)
    ensures branches[k].of in selections ==> selections[branches[k].of] != branches[k].variant
  {
    var n := |branches| - 1;
    assert branches == branches[..n] + [branches[n]];
    if Selected(branches[..n], selections) {
      k := n;
    } else {
      k := FirstUnselected(branches[..n], selections);
      assert branches[..n][..k] == branches[..k];
    }
  }

  lemma {:induction false} GroundedAuthored(sites: seq<Site>, log: seq<Token>, n: nat, selections: Selections, b: Branch)
    requires Grounded(sites, log, n, selections) && b.of in selections && selections[b.of] == b.variant
    ensures exists j: nat :: AuthorsBranch(sites, j, b)
  {
    GroundedKeys(sites, log, n, selections);
    var k :| 0 <= k < |log| && log[k] == b.of;
    GroundedEarlier(sites, log, n, selections, k);
    var j: nat :| j < |sites| && log[k] in sites[j].Authored() && sites[j].Authored()[log[k]] == selections[log[k]];
    assert AuthorsBranch(sites, j, b);
  }

  /** A branch that comes to be selected only in the second loop is of a set no
      site around it declares, and its selection is authored. */
  lemma {:induction false} SelectedLate(sites: seq<Site>, i: nat, k: nat)
    requires i < |sites| && k < |sites[i].branch| && sites[i].Composed(Evaluated(sites))
    requires Selected(sites[i].branch[..k], FirstLoop(sites, Start()).selections)
    requires sites[i].branch[k].of !in FirstLoop(sites, Start()).selections
    ensures Loose(sites, i, k) && exists j: nat :: AuthorsBranch(sites, j, sites[i].branch[k])
  {
    hide FirstLoop, Grounded, SecondLoop;
    var (first, b) := (FirstLoop(sites, Start()), sites[i].branch[k]);
    FirstLoopDecides(sites);
    EvaluatedSettles(sites);
    assert b in sites[i].branch;
    forall j: nat ensures !DeclaresAround(sites, j, i, k) {
      assert DeclaresAround(sites, j, i, k) ==> Declares(sites, j, first.selections, b.of);
    }
    EvaluatedIsGrounded(sites);
    var log, n: nat :| Grounded(sites, log, n, Evaluated(sites));
    GroundedAuthored(sites, log, n, Evaluated(sites), b);
  }

  /** What it takes of the sites for a set to be left behind: a site authors a
      declared set from a branch whose selection is authored but whose set no
      site around it declares. */
  lemma {:induction false} LeftBehindNeeds(sites: seq<Site>)
    requires LeftBehind(sites)
    ensures exists i: nat, k: nat ::
      AuthorsDeclared(sites, i) && Loose(sites, i, k) && exists j: nat :: AuthorsBranch(sites, j, sites[i].branch[k])
  {
    hide FirstLoop, SecondLoop, Loose;
    var first := FirstLoop(sites, Start());
    FirstLoopDecides(sites);
    EvaluatedSettles(sites);
    var i: nat, t :| t in first.unselected && Authors(sites, i, Evaluated(sites), t);
    var d: nat :| Declares(sites, d, first.selections, t);
    assert t in AllDeclared(sites);
    assert !Authors(sites, i, first.selections, t);
    var k := FirstUnselected(sites[i].branch, first.selections);
    assert sites[i].branch[k] in sites[i].branch;
    SelectedLate(sites, i, k);
  }

  /** Nested branches leave no set behind, and evaluating the unselected sets
      again would change nothing. */
  lemma {:induction false} NestedBranchesSuffice(sites: seq<Site>)
    requires BranchesNested(sites)
    ensures !LeftBehind(sites) && Evaluated(sites) == Retried(sites)
  {
    hide LeftBehind, Evaluated, Retried, Loose, AuthorsDeclared;
    if LeftBehind(sites) { LeftBehindNeeds(sites); }
    RetryMatters(sites);
  }

  // ------------------------------------- why no simpler condition is exact

  /** No site declares, authors or lies in a branch of `f`. */
  ghost predicate Fresh(sites: seq<Site>, f: Token) {
    forall i: nat :: i < |sites| ==>
      f !in sites[i].declared && f !in sites[i].Authored() && forall b :: b in sites[i].branch ==> b.of != f
  }

  /** The prim with one more set, declared by itself and authored in `b`. */
  function Probed(sites: seq<Site>, b: Branch, f: Token): seq<Site> {
    sites + [Site([], None, [f]), Site([b], Some(map[f := 0]), [])]
  }

  lemma {:induction false} NextSum(a: seq<Site>, b: seq<Site>, s: State)
    ensures Next(a + b, s) == if Next(a, s).Some? then Next(a, s) else Next(b, s)
  {
    if a == [] {
      assert a + b == b;
    } else {
      NextSum(a[1..], b, s);
      assert (a + b)[1..] == a[1..] + b;
    }
  }

  lemma {:induction false} FoundSum(a: seq<Site>, b: seq<Site>, selections: Selections, t: Token)
    ensures Found(a + b, selections, t) ==
      if Found(a, selections, t).Some? then Found(a, selections, t) else Found(b, selections, t)
  {
    if a == [] {
      assert a + b == b;
    } else {
      FoundSum(a[1..], b, selections, t);
      assert (a + b)[1..] == a[1..] + b;
    }
  }

  /** What the two added sites say. */
  lemma {:induction false} AddedSites(b: Branch, f: Token, s: State, t: Token)
    ensures var added := Probed([], b, f);
      && Next(added, s) == (if f in s.selections || f in s.unselected then None else Some(f))
      && (t != f ==> Found(added, s.selections, t) == None)
      && (b.of !in s.selections ==> Found(added, s.selections, t) == None)
  {
    var added := Probed([], b, f);
    assert added == [Site([], None, [f]), Site([b], Some(map[f := 0]), [])];
    var last := [added[1]];
    assert added[1..] == last && last[1..] == [];
    assert b in last[0].branch && last[0].Authored() == map[f := 0];
    assert Found(last[1..], s.selections, t) == None;
    assert added[0].Authored() == map[];
    assert Next(last, s) == None && Found(last, s.selections, t) == Found(added, s.selections, t);
    assert [f][1..] == [];
    assert FirstNew([f], s) == if f in s.selections || f in s.unselected then None else Some(f);
    assert b in added[1].branch;
  }

  lemma {:induction false} ProbedIsSum(sites: seq<Site>, b: Branch, f: Token)
    ensures Probed(sites, b, f) == sites + Probed([], b, f)
  {
  }

  /** Until it has nothing else to evaluate, the first loop does not notice the
      added set. */
  lemma {:induction false} ProbedFirstLoop(sites: seq<Site>, b: Branch, f: Token, s: State)
    requires Fresh(sites, f) && f !in s.selections && f !in s.unselected
    ensures var r := FirstLoop(sites, s);
      f !in r.selections && f !in r.unselected && FirstLoop(Probed(sites, b, f), s) == FirstLoop(Probed(sites, b, f), r)
    decreases AllDeclared(sites) - s.selections.Keys, AllDeclared(sites) - s.unselected
  {
    hide Next, Found, AllDeclared;
    ProbedIsSum(sites, b, f);
    NextSum(sites, Probed([], b, f), s);
    NextIs(sites, s);
    match Next(sites, s)
    case None =>
    case Some(t) =>
      Evaluates(sites, s, t);
      assert t != f;
      FoundSum(sites, Probed([], b, f), s.selections, t);
      AddedSites(b, f, s, t);
      match Found(sites, s.selections, t)
      case Some(v) => ProbedFirstLoop(sites, b, f, State(s.selections[t := v], {}));
      case None => ProbedFirstLoop(sites, b, f, State(s.selections, s.unselected + {t}));
  }

  /** Then it leaves the added set unselected. */
  lemma {:induction false} ProbedLeaves(sites: seq<Site>, b: Branch, f: Token)
    requires Fresh(sites, f) && b.of !in FirstLoop(sites, Start()).selections
    ensures var r := FirstLoop(sites, Start());
      f !in r.selections && FirstLoop(Probed(sites, b, f), Start()) == State(r.selections, r.unselected + {f})
  {
    hide Next, Found, AllDeclared;
    var (all, r) := (Probed(sites, b, f), FirstLoop(sites, Start()));
    var done := State(r.selections, r.unselected + {f});
    ProbedFirstLoop(sites, b, f, Start());
    FirstLoopSettles(sites, Start());
    ProbedIsSum(sites, b, f);
    NextSum(sites, Probed([], b, f), r);
    NextSum(sites, Probed([], b, f), done);
    NextIs(sites, r);
    NextIs(sites, done);
    AddedSites(b, f, r, f);
    AddedSites(b, f, done, f);
    FoundSum(sites, Probed([], b, f), r.selections, f);
    FoundIs(sites, r.selections, f);
    assert Next(all, r) == Some(f) && Found(all, r.selections, f) == None && Next(all, done) == None;
    EvaluatesLast(all, r, f);
  }

  lemma {:induction false} EvaluatesLast(sites: seq<Site>, s: State, t: Token)
    requires Next(sites, s) == Some(t) && Found(sites, s.selections, t) == None
    requires Next(sites, State(s.selections, s.unselected + {t})) == None
    ensures FirstLoop(sites, s) == State(s.selections, s.unselected + {t})
  {
    hide Next, Found;
  }

  /** The second loop passes over the added sites. */
  lemma {:induction false} ProbedPass(sites: seq<Site>, b: Branch, f: Token, n: nat, s: State)
    requires Fresh(sites, f) && n <= |sites|
    ensures Pass(Probed(sites, b, f), n, State(s.selections, s.unselected + {f})) == Pass(sites, n, s)
  {
    if n > 0 {
      ProbedPass(sites, b, f, n - 1, s);
      assert Probed(sites, b, f)[n - 1] == sites[n - 1];
      assert sites[n - 1].Authored().Keys - (s.unselected + {f}) == sites[n - 1].Authored().Keys - s.unselected;
    }
  }

  lemma {:induction false} FillsNothing(selections: Selections, authored: Selections, unselected: set<Token>)
    requires authored.Keys <= unselected
    ensures Filled(selections, authored, unselected) == selections
  {
    assert authored.Keys - unselected == {};
    SameSelections(selections, Filled(selections, authored, unselected));
  }

  lemma {:induction false} ProbedWholePass(sites: seq<Site>, b: Branch, f: Token, s: State)
    requires Fresh(sites, f)
    ensures var all := Probed(sites, b, f);
      Pass(all, |all|, State(s.selections, s.unselected + {f})) == Pass(sites, |sites|, s)
  {
    hide Filled;
    var (all, t) := (Probed(sites, b, f), State(s.selections, s.unselected + {f}));
    ProbedPass(sites, b, f, |sites|, s);
    var before := Pass(sites, |sites|, s);
    FillsNothing(before, map[], t.unselected);
    FillsNothing(before, map[f := 0], t.unselected);
    assert all[|sites|] == Site([], None, [f]) && all[|sites| + 1] == Site([b], Some(map[f := 0]), []);
    assert Pass(all, |sites| + 1, t) == before && Pass(all, |sites| + 2, t) == before;
  }

  lemma {:induction false} ProbedSecondLoop(sites: seq<Site>, b: Branch, f: Token, s: State)
    requires Fresh(sites, f)
    ensures SecondLoop(Probed(sites, b, f), State(s.selections, s.unselected + {f})) == SecondLoop(sites, s)
    decreases AllAuthored(sites) - s.selections.Keys
  {
    hide Pass;
    ProbedWholePass(sites, b, f, s);
    var after := Pass(sites, |sites|, s);
    if after != s.selections {
      PassIs(sites, |sites|, s);
      SelectsMore(s.selections, after);
      ProbedSecondLoop(sites, b, f, State(after, s.unselected));
    }
  }

  /** Whether a set is left behind decides whether the second loop selects any
      given variant: an exact condition on the sites can be no simpler than their
      evaluation. */
  lemma {:induction false} LeftBehindDecides(sites: seq<Site>, b: Branch, f: Token)
    requires Fresh(sites, f) && !LeftBehind(sites) && b.of !in FirstLoop(sites, Start()).selections
    ensures LeftBehind(Probed(sites, b, f)) <==> b.of in Evaluated(sites) && Evaluated(sites)[b.of] == b.variant
  {
    hide FirstLoop, SecondLoop;
    var (all, r, first) := (Probed(sites, b, f), Evaluated(sites), FirstLoop(sites, Start()));
    ProbedLeaves(sites, b, f);
    ProbedSecondLoop(sites, b, f, first);
    assert Evaluated(all) == r && FirstLoop(all, Start()).unselected == first.unselected + {f};
    assert all[|sites|] == Site([], None, [f]) && all[|sites| + 1] == Site([b], Some(map[f := 0]), []);
    assert b in all[|sites| + 1].branch;
    if b.of in r && r[b.of] == b.variant { assert Authors(all, |sites| + 1, r, f); }
    forall i: nat, t | t in first.unselected + {f} && Authors(all, i, r, t) ensures i == |sites| + 1 {
      assert i < |sites| ==> all[i] == sites[i];
      assert i < |sites| && t != f ==> Authors(sites, i, r, t);
    }
  }

  /** A set can be left behind: the prim declares set 0 and selects variant 1 of
      set 5, which no site declares; that variant selects 7 of set 0. */
  lemma {:induction false} LeavesBehind()
    ensures var sites := [
        Site([], Some(map[5 := 1]), [0]),
        Site([Branch(5, 1)], Some(map[0 := 7]), [])];
      Evaluated(sites) == map[5 := 1] && LeftBehind(sites)
  {
    var sites := [Site([], Some(map[5 := 1]), [0]), Site([Branch(5, 1)], Some(map[0 := 7]), [])];
    var s := State(map[], {0});
    assert sites[1..] == [sites[1]] && sites[1..][1..] == [];
    assert FirstNew([0], Start()) == Some(0) && FirstNew([0], s) == None && FirstNew([], s) == None;
    assert Branch(5, 1) in sites[1].branch;
    assert Next(sites, Start()) == Some(0) && Found(sites, map[], 0) == None;
    assert Next(sites, s) == None;
    assert FirstLoop(sites, s) == s;
    assert State(Start().selections, Start().unselected + {0}) == s;
    assert FirstLoop(sites, Start()) == s;
    var (done, r) := (State(map[5 := 1], {0}), map[5 := 1]);
    assert Pass(sites, 1, s) == r && Pass(sites, 2, s) == r && Pass(sites, 1, done) == r && Pass(sites, 2, done) == r;
    assert SecondLoop(sites, done) == r && SecondLoop(sites, s) == r;
    assert Authors(sites, 1, r, 0);
  }

  // ------------------------------------------------------- the algorithm

  /** Adds a site's selections, in any order. */
  method Fill(
      selections: Selections, authored: Selections, unselected: set<Token>) returns (r: Selections, changed: bool)
    ensures r == Filled(selections, authored, unselected)
    ensures changed <==> r != selections
  {
    r, changed := selections, false;
    var todo := authored.Keys;
    ghost var target := Filled(selections, authored, unselected);
    while todo != {}
      invariant todo <= authored.Keys && Keeps(selections, r) && Keeps(r, target)
      invariant forall t :: t in target ==> t in r || t in todo
      invariant changed <==> r != selections
    {
      HasOne(todo);
      var t :| t in todo;
      if t !in r && t !in unselected {
        r, changed := r[t := authored[t]], true;
        assert t in r && t !in selections;
      }
      todo := todo - {t};
    }
    SameSelections(r, target);
  }

  /** One pass over the sites, as each newly selected branch composes. */
  method VisitSites(sites: seq<Site>, s: State) returns (selections: Selections, changed: bool)
    ensures selections == Pass(sites, |sites|, s)
    ensures changed <==> selections != s.selections
  {
    selections, changed := s.selections, false;
    for i := 0 to |sites|
      invariant selections == Pass(sites, i, s)
      invariant changed <==> selections != s.selections
    {
      ghost var before := selections;
      PassIs(sites, i, s);
      if sites[i].Composed(selections) {
        var more: bool;
        selections, more := Fill(selections, sites[i].Authored(), s.unselected);
        changed := changed || more;
      }
      PassGrows(sites, i, i + 1, s);
      StaysChanged(s.selections, before, selections);
    }
  }

  lemma {:induction false} StaysChanged(a: Selections, b: Selections, c: Selections)
    requires Keeps(a, b) && Keeps(b, c)
    ensures a != b ==> a != c
  {
    if a != b { SelectsMore(a, b); }
  }

  /** Resolves the authored variant selections of sites, strongest first. */
  method EvaluateVariantSets(sites: seq<Site>) returns (selections: Selections)
    ensures selections == Evaluated(sites)
  {
    hide Pass, Filled, AllDeclared, AllAuthored, Next, Found, Keeps, Declares;
    selections := map[];
    var unselected: set<Token> := {};
    while true
      invariant FirstLoop(sites, State(selections, unselected)) == FirstLoop(sites, Start())
      decreases AllDeclared(sites) - selections.Keys, AllDeclared(sites) - unselected
    {
      NextIs(sites, State(selections, unselected));
      var next := Next(sites, State(selections, unselected));
      if next.None? { break; }
      Evaluates(sites, State(selections, unselected), next.value);
      var found := Found(sites, selections, next.value);
      if found.Some? {
        selections, unselected := selections[next.value := found.value], {};
      } else {
        unselected := unselected + {next.value};
      }
    }
    while true
      invariant SecondLoop(sites, State(selections, unselected)) == Evaluated(sites)
      decreases AllAuthored(sites) - selections.Keys
    {
      var s := State(selections, unselected);
      PassIs(sites, |sites|, s);
      var after, changed := VisitSites(sites, s);
      if !changed { break; }
      SelectsMore(selections, after);
      Shrinks(AllAuthored(sites), selections, after, unselected);
      selections := after;
    }
  }
}
