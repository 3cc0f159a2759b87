/** Which site a set takes its selection from in the second loop of
    `evaluate_variant_sets` in `layerstack/src/compose.rs`, said without the loop:
    by the turns at which sites come to be composed. */
module VariantTurns {
  import opened VariantSets

  /** Turn `(q, j)` is before turn `(p, i)`: rounds first, then strength. */
  predicate Earlier(q: nat, j: nat, p: nat, i: nat) { q < p || (q == p && j < i) }

  /** Site `i` is composed when its turn in round `p` comes: each of its branches
      is a selection of `first`, or one of `r` whose set a site authored that was
      composed at an earlier turn. */
  ghost predicate Turns(sites: seq<Site>, first: Selections, r: Selections, p: nat, i: nat)
    decreases p, i, 1
  {
    i < |sites| && forall b :: b in sites[i].branch ==> BranchTurned(sites, first, r, p, i, b)
  }

  ghost predicate BranchTurned(sites: seq<Site>, first: Selections, r: Selections, p: nat, i: nat, b: Branch)
    decreases p, i, 0
  {
    if b.of in first then first[b.of] == b.variant
    else b.of in r && r[b.of] == b.variant && exists q: nat, j: nat :: Earlier(q, j, p, i) && Takes(sites, first, r, q, j, b.of)
  }

  /** Site `j` authors `t` and is composed at its turn in round `q`. */
  ghost predicate Takes(sites: seq<Site>, first: Selections, r: Selections, q: nat, j: nat, t: Token)
    decreases q, j, 2
  {
    Turns(sites, first, r, q, j) && t in sites[j].Authored()
  }

  /** The first turn of all at which a composed site authors `t`. */
  ghost predicate FirstTurn(sites: seq<Site>, first: Selections, r: Selections, p: nat, i: nat, t: Token) {
    Takes(sites, first, r, p, i, t)
    && forall q: nat, j: nat :: Earlier(q, j, p, i) ==> !Takes(sites, first, r, q, j, t)
  }

  // --------------------------------------------------------- round by round

  /** The selections after `p` rounds. */
  function Rounds(sites: seq<Site>, s: State, p: nat): Selections
    decreases p
  {
    if p == 0 then s.selections else Rounds(sites, State(Pass(sites, |sites|, s), s.unselected), p - 1)
  }

  /** The selections when the turn of site `i` in round `p` comes. */
  function At(sites: seq<Site>, s: State, p: nat, i: nat): Selections
    requires i <= |sites|
  {
    Pass(sites, i, State(Rounds(sites, s, p), s.unselected))
  }

  lemma {:induction false} NextRound(sites: seq<Site>, s: State, p: nat)
    ensures Rounds(sites, s, p + 1) == At(sites, s, p, |sites|)
    ensures At(sites, s, p, 0) == Rounds(sites, s, p)
    decreases p
  {
    if p > 0 { NextRound(sites, State(Pass(sites, |sites|, s), s.unselected), p - 1); }
  }

  lemma {:induction false} OnePass(sites: seq<Site>, s: State)
    ensures var next := State(Pass(sites, |sites|, s), s.unselected);
      SecondLoop(sites, next) == SecondLoop(sites, s) && Keeps(next.selections, SecondLoop(sites, s))
  {
    SecondLoopSettles(sites, State(Pass(sites, |sites|, s), s.unselected));
  }

  /** No selection is changed later. */
  lemma {:induction false} KeptToTheEnd(sites: seq<Site>, s: State, p: nat, i: nat)
    requires i <= |sites|
    ensures Keeps(At(sites, s, p, i), SecondLoop(sites, s))
    decreases p
  {
    hide SecondLoop, Pass;
    OnePass(sites, s);
    if p == 0 {
      PassGrows(sites, i, |sites|, s);
    } else {
      KeptToTheEnd(sites, State(Pass(sites, |sites|, s), s.unselected), p - 1, i);
    }
  }

  /** The loop ends after some number of rounds. */
  lemma {:induction false} LastRound(sites: seq<Site>, s: State) returns (p: nat)
    ensures Rounds(sites, s, p) == SecondLoop(sites, s)
    decreases AllAuthored(sites) - s.selections.Keys
  {
    var after := Pass(sites, |sites|, s);
    if after == s.selections {
      p := 0;
    } else {
      PassIs(sites, |sites|, s);
      SelectsMore(s.selections, after);
      Shrinks(AllAuthored(sites), s.selections, after, s.unselected);
      var rest := LastRound(sites, State(after, s.unselected));
      p := rest + 1;
    }
  }

  // ---------------------------------------------------------------- the turns

  /** `t` was taken before turn `(p, i)`. */
  ghost predicate TakenBefore(sites: seq<Site>, first: Selections, r: Selections, p: nat, i: nat, t: Token) {
    exists q: nat, j: nat :: Earlier(q, j, p, i) && Takes(sites, first, r, q, j, t)
  }

  /** What the loop has selected when a turn comes, in turns. */
  ghost predicate InTurn(sites: seq<Site>, s: State, p: nat, i: nat)
    requires i <= |sites|
  {
    var r := SecondLoop(sites, s);
    forall t :: t in At(sites, s, p, i) <==> t in s.selections || (t !in s.unselected && TakenBefore(sites, s.selections, r, p, i, t))
  }

  lemma {:induction false} TurnIs(sites: seq<Site>, s: State, p: nat, i: nat)
    requires i < |sites| && InTurn(sites, s, p, i) && forall t :: t in s.unselected ==> t !in SecondLoop(sites, s)
    ensures sites[i].Composed(At(sites, s, p, i)) <==> Turns(sites, s.selections, SecondLoop(sites, s), p, i)
  {
    hide Takes, SecondLoop, At, Rounds;
    var (now, r) := (At(sites, s, p, i), SecondLoop(sites, s));
    KeptToTheEnd(sites, s, p, i);
    StartKept(sites, s, p, i);
    forall b | b in sites[i].branch
      ensures (b.of in now && now[b.of] == b.variant) <==> BranchTurned(sites, s.selections, r, p, i, b) {
      assert b.of in now <==> b.of in s.selections || (b.of !in s.unselected && TakenBefore(sites, s.selections, r, p, i, b.of));
    }
  }

  lemma {:induction false} StartKept(sites: seq<Site>, s: State, p: nat, i: nat)
    requires i <= |sites|
    ensures Keeps(s.selections, At(sites, s, p, i))
    decreases p
  {
    hide Pass;
    if p == 0 {
      PassIs(sites, i, s);
    } else {
      PassIs(sites, |sites|, s);
      StartKept(sites, State(Pass(sites, |sites|, s), s.unselected), p - 1, i);
    }
  }

  lemma {:induction false} TakenNext(sites: seq<Site>, first: Selections, r: Selections, p: nat, i: nat, t: Token)
    ensures TakenBefore(sites, first, r, p, i + 1, t) <==> TakenBefore(sites, first, r, p, i, t) || Takes(sites, first, r, p, i, t)
  {
    hide Takes;
    if q: nat, j: nat :| Earlier(q, j, p, i) && Takes(sites, first, r, q, j, t) { assert Earlier(q, j, p, i + 1); }
    if Takes(sites, first, r, p, i, t) { assert Earlier(p, i, p, i + 1); }
  }

  lemma {:induction false} TakenInRound(sites: seq<Site>, first: Selections, r: Selections, p: nat, t: Token)
    ensures TakenBefore(sites, first, r, p + 1, 0, t) <==> TakenBefore(sites, first, r, p, |sites|, t)
  {
    hide Turns;
    forall q: nat, j: nat | Takes(sites, first, r, q, j, t) ensures Earlier(q, j, p + 1, 0) <==> Earlier(q, j, p, |sites|) {
      TakesASite(sites, first, r, q, j, t);
    }
  }

  lemma {:induction false} TakesASite(sites: seq<Site>, first: Selections, r: Selections, q: nat, j: nat, t: Token)
    requires Takes(sites, first, r, q, j, t)
    ensures j < |sites| && t in sites[j].Authored()
  {
  }

  lemma {:induction false} AtNext(sites: seq<Site>, s: State, p: nat, i: nat, t: Token)
    requires i < |sites|
    ensures var now := At(sites, s, p, i);
      t in At(sites, s, p, i + 1) <==>
        t in now || (sites[i].Composed(now) && t in sites[i].Authored() && t !in s.unselected)
    ensures var now := At(sites, s, p, i);
      sites[i].Composed(now) && t in sites[i].Authored() && t !in s.unselected && t !in now ==>
        At(sites, s, p, i + 1)[t] == sites[i].Authored()[t]
  {
    hide Rounds;
  }

  lemma {:induction false} EveryTurn(sites: seq<Site>, s: State, p: nat, i: nat)
    requires i <= |sites| && forall t :: t in s.unselected ==> t !in SecondLoop(sites, s)
    ensures InTurn(sites, s, p, i)
    decreases p, i
  {
    hide SecondLoop, At, Takes, Turns, Rounds;
    var (first, r) := (s.selections, SecondLoop(sites, s));
    if i > 0 {
      EveryTurn(sites, s, p, i - 1);
      TurnIs(sites, s, p, i - 1);
      forall t ensures t in At(sites, s, p, i) <==> t in first || (t !in s.unselected && TakenBefore(sites, first, r, p, i, t)) {
        AtNext(sites, s, p, i - 1, t);
        TakenNext(sites, first, r, p, i - 1, t);
        TakesIs(sites, first, r, p, i - 1, t);
      }
    } else if p > 0 {
      EveryTurn(sites, s, p - 1, |sites|);
      NextRound(sites, s, p - 1);
      NextRound(sites, s, p);
      forall t ensures t in At(sites, s, p, 0) <==> t in first || (t !in s.unselected && TakenBefore(sites, first, r, p, 0, t)) {
        TakenInRound(sites, first, r, p - 1, t);
      }
    } else {
      AtStart(sites, s);
    }
  }

  lemma {:induction false} TakesIs(sites: seq<Site>, first: Selections, r: Selections, q: nat, j: nat, t: Token)
    requires j < |sites|
    ensures Takes(sites, first, r, q, j, t) <==> Turns(sites, first, r, q, j) && t in sites[j].Authored()
  {
  }

  lemma {:induction false} AtStart(sites: seq<Site>, s: State)
    ensures At(sites, s, 0, 0) == s.selections
  {
  }

  /** Of turns at which a set may be taken one is first. */
  lemma {:induction false} SomeTurnIsFirst(sites: seq<Site>, first: Selections, r: Selections, q: nat, j: nat, t: Token)
    returns (p: nat, i: nat)
    requires Takes(sites, first, r, q, j, t)
    ensures FirstTurn(sites, first, r, p, i, t)
    decreases q, j
  {
    hide Takes;
    if k: nat, l: nat :| Earlier(k, l, q, j) && Takes(sites, first, r, k, l, t) {
      p, i := SomeTurnIsFirst(sites, first, r, k, l, t);
    } else {
      p, i := q, j;
    }
  }

  lemma {:induction false} TakenAtTurn(sites: seq<Site>, s: State, p: nat, i: nat, t: Token)
    requires FirstTurn(sites, s.selections, SecondLoop(sites, s), p, i, t) && t !in s.selections && t !in s.unselected
    requires forall u :: u in s.unselected ==> u !in SecondLoop(sites, s)
    ensures i < |sites| && t in sites[i].Authored()
    ensures t in SecondLoop(sites, s) && SecondLoop(sites, s)[t] == sites[i].Authored()[t]
  {
    hide SecondLoop, At, Takes, Turns;
    var r := SecondLoop(sites, s);
    TakesASite(sites, s.selections, r, p, i, t);
    TakesIs(sites, s.selections, r, p, i, t);
    EveryTurn(sites, s, p, i);
    TurnIs(sites, s, p, i);
    AtNext(sites, s, p, i, t);
    KeptToTheEnd(sites, s, p, i + 1);
  }

  /** A set that only the second loop selects takes the selection of the site whose
      turn comes first among those that author it; and what is authored at some
      turn is selected, unless the first loop left it unselected. */
  lemma {:induction false} TakesFirstTurn(sites: seq<Site>, t: Token)
    requires t !in FirstLoop(sites, Start()).selections
    ensures var (first, r) := (FirstLoop(sites, Start()), Evaluated(sites));
      && (t in r ==> exists p: nat, i: nat ::
        i < |sites| && t in sites[i].Authored() && r[t] == sites[i].Authored()[t]
        && FirstTurn(sites, first.selections, r, p, i, t))
      && (forall p: nat, i: nat :: FirstTurn(sites, first.selections, r, p, i, t) && t !in first.unselected ==>
        i < |sites| && t in sites[i].Authored() && t in r && r[t] == sites[i].Authored()[t])
  {
    hide SecondLoop, FirstLoop, Takes, At, Rounds;
    var (s, r) := (FirstLoop(sites, Start()), Evaluated(sites));
    EvaluatedSettles(sites);
    if t in r {
      var p := LastRound(sites, s);
      NextRound(sites, s, p);
      EveryTurn(sites, s, p, 0);
      assert t in At(sites, s, p, 0);
      var q: nat, j: nat :| Earlier(q, j, p, 0) && Takes(sites, s.selections, r, q, j, t);
      var k, i := SomeTurnIsFirst(sites, s.selections, r, q, j, t);
      TakenAtTurn(sites, s, k, i, t);
    }
    forall p: nat, i: nat | FirstTurn(sites, s.selections, r, p, i, t) && t !in s.unselected
      ensures i < |sites| && t in sites[i].Authored() && t in r && r[t] == sites[i].Authored()[t] {
      TakenAtTurn(sites, s, p, i, t);
    }
  }

  /** The strongest site composed in the end need not be the one: here it comes to
      be composed by what a weaker site selects, which selects for its set too. */
  lemma {:induction false} StrongestMayBeLate()
    ensures var sites := [Site([Branch(5, 1)], Some(map[9 := 7]), []), Site([], Some(map[5 := 1, 9 := 8]), [])];
      && Evaluated(sites) == map[5 := 1, 9 := 8]
      && Strongest(sites, 0, Evaluated(sites), 9) && Evaluated(sites)[9] != sites[0].Authored()[9]
  {
    var sites := [Site([Branch(5, 1)], Some(map[9 := 7]), []), Site([], Some(map[5 := 1, 9 := 8]), [])];
    var after: Selections := map[5 := 1, 9 := 8];
    assert sites[1..] == [sites[1]] && sites[1..][1..] == [];
    assert FirstNew([], Start()) == None;
    assert Next(sites, Start()) == None;
    assert FirstLoop(sites, Start()) == Start();
    assert Branch(5, 1) in sites[0].branch;
    assert Pass(sites, 1, Start()) == map[];
    assert Filled(map[], sites[1].Authored(), {}) == after;
    assert Pass(sites, 2, Start()) == after;
    var s := State(after, {});
    assert Filled(after, sites[0].Authored(), {}) == after;
    assert Pass(sites, 1, s) == after;
    assert Filled(after, sites[1].Authored(), {}) == after;
    assert Pass(sites, 2, s) == after;
    assert SecondLoop(sites, s) == after;
    assert 5 in after;
    assert SecondLoop(sites, Start()) == after;
    assert sites[0].Composed(after);
  }
}
