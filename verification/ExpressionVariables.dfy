/** The expression variables a chain of layer stacks composes and the reads that
    composition records: `layerstack/src/expression_variables.rs`. */
module ExpressionVariables {

  datatype Option<+T> = None | Some(value: T)

  datatype Result<+T, +E> = Ok(value: T) | Err(error: E)

  type LayerId = int

  /** A value of a variable. */
  type Value = int

  type Variables = map<string, Value>

  /** The variables each loaded layer authors. */
  type Store = map<LayerId, Variables>

  datatype LayerStack = LayerStack(session: Option<LayerId>, root: LayerId)

  /** The layers of a chain that may author variables, strongest first. */
  function Chain(stacks: seq<LayerStack>): seq<LayerId> {
    if stacks == [] then []
    else
      var s := stacks[|stacks| - 1];
      Chain(stacks[..|stacks| - 1]) + (if s.session.Some? then [s.session.value] else []) + [s.root]
  }

  function Lookup(store: Store, id: LayerId, name: string): Option<Value> {
    if id in store && name in store[id] then Some(store[id][name]) else None
  }

  // ------------------------------------------------------------ composition

  /** The value of the strongest layer that sets a variable. */
  function Composed(store: Store, chain: seq<LayerId>, name: string): Option<Value> {
    if chain == [] then None
    else
      var here := Lookup(store, chain[0], name);
      if here.Some? then here else Composed(store, chain[1..], name)
  }

  function ValueIn(v: Variables, name: string): Option<Value> { if name in v then Some(v[name]) else None }

  /** `v` composed over `weaker`. */
  function Over(v: Variables, weaker: Variables): Variables {
    map n | n in v.Keys + weaker.Keys :: if n in v then v[n] else weaker[n]
  }

  function Authored(store: Store, id: LayerId): Variables { if id in store then store[id] else map[] }

  function ComposedAll(store: Store, chain: seq<LayerId>): Variables {
    if chain == [] then map[] else Over(ComposedAll(store, chain[..|chain| - 1]), Authored(store, chain[|chain| - 1]))
  }

  lemma {:induction false} ComposedOfSum(store: Store, a: seq<LayerId>, b: seq<LayerId>, name: string)
    ensures Composed(store, a + b, name) ==
      if Composed(store, a, name).Some? then Composed(store, a, name) else Composed(store, b, name)
  {
    if a == [] {
      assert a + b == b;
    } else {
      ComposedOfSum(store, a[1..], b, name);
      assert (a + b)[1..] == a[1..] + b;
    }
  }

  /** Composing layer by layer gives each variable its strongest value. */
  lemma {:induction false} ComposedAllIs(store: Store, chain: seq<LayerId>, name: string)
    ensures ValueIn(ComposedAll(store, chain), name) == Composed(store, chain, name)
  {
    if chain != [] {
      var (front, last) := (chain[..|chain| - 1], chain[|chain| - 1]);
      ComposedAllIs(store, front, name);
      ComposedOfSum(store, front, [last], name);
      assert front + [last] == chain;
      assert [last][1..] == [];
    }
  }

  // ------------------------------------------------------------------ reads

  datatype Key = Key(layer: LayerId, name: string)

  type Reads = map<Key, Option<Value>>

  /** No layer of the chain before `i` sets the variable. */
  predicate Reaches(store: Store, chain: seq<LayerId>, i: nat, name: string) {
    i < |chain| && forall j :: 0 <= j < i ==> Lookup(store, chain[j], name).None?
  }

  /** The lookups of a variable are recorded up to the layer that sets it. */
  ghost predicate Covers(seen: Reads, store: Store, chain: seq<LayerId>, name: string) {
    forall i: nat :: Reaches(store, chain, i, name) ==>
      Key(chain[i], name) in seen && seen[Key(chain[i], name)] == Lookup(store, chain[i], name)
  }

  /** Some recorded lookup in `layer` finds another value now. */
  predicate Changed(seen: Reads, store: Store, layer: LayerId) {
    exists k :: k in seen && k.layer == layer && Lookup(store, layer, k.name) != seen[k]
  }

  /** Reads that no layer changed still find the same value. */
  lemma {:induction false} UnchangedComposes(
      seen: Reads, before: Store, after: Store, chain: seq<LayerId>, name: string)
    requires Covers(seen, before, chain, name)
    requires forall layer :: !Changed(seen, after, layer)
    ensures Composed(after, chain, name) == Composed(before, chain, name)
  {
    if chain != [] {
      assert Reaches(before, chain, 0, name);
      assert !Changed(seen, after, chain[0]);
      if Lookup(before, chain[0], name).None? {
        forall i: nat | Reaches(before, chain[1..], i, name)
          ensures Key(chain[1..][i], name) in seen && seen[Key(chain[1..][i], name)] == Lookup(before, chain[1..][i], name) {
          assert forall j :: 1 <= j < i + 1 ==> chain[j] == chain[1..][j - 1];
          assert Reaches(before, chain, i + 1, name);
        }
        UnchangedComposes(seen, before, after, chain[1..], name);
      }
    }
  }

  /** A layer that sets a variable where its lookup is reached decides it. */
  lemma {:induction false} ReachedDecides(store: Store, chain: seq<LayerId>, i: nat, name: string)
    requires Reaches(store, chain, i, name) && Lookup(store, chain[i], name).Some?
    ensures Composed(store, chain, name) == Lookup(store, chain[i], name)
  {
    if i > 0 {
      assert Lookup(store, chain[0], name).None?;
      assert forall j :: 0 <= j < i - 1 ==> chain[1..][j] == chain[j + 1];
      ReachedDecides(store, chain[1..], i - 1, name);
    }
  }

  /** The store with one variable of one layer set. */
  function Edited(store: Store, layer: LayerId, name: string, v: Value): Store {
    store[layer := Authored(store, layer)[name := v]]
  }

  /** No lookup recorded is superfluous: for each there is an edit of that one
      variable of that one layer that composes another value. */
  lemma {:induction false} EveryReadMatters(store: Store, chain: seq<LayerId>, i: nat, name: string)
    requires Reaches(store, chain, i, name)
    ensures exists v: Value ::
      Composed(Edited(store, chain[i], name, v), chain, name) != Composed(store, chain, name)
  {
    var was := Composed(store, chain, name);
    var v := if was.Some? then was.value + 1 else 0;
    var after := Edited(store, chain[i], name, v);
    var first := FirstOf(chain, i);
    assert forall j :: 0 <= j < first ==> Lookup(after, chain[j], name) == Lookup(store, chain[j], name);
    ReachedDecides(after, chain, first, name);
  }

  lemma {:induction false} FirstOf(chain: seq<LayerId>, i: nat) returns (first: nat)
    requires i < |chain|
    ensures first <= i && chain[first] == chain[i] && forall j :: 0 <= j < first ==> chain[j] != chain[i]
  {
    first := 0;
    while chain[first] != chain[i]
      invariant first <= i && forall j :: 0 <= j < first ==> chain[j] != chain[i]
      decreases i - first
    {
      first := first + 1;
    }
  }

  /** Every lookup recorded finds in `store` what it found. */
  ghost predicate Faithful(seen: Reads, store: Store) {
    forall k :: k in seen ==> seen[k] == Lookup(store, k.layer, k.name)
  }

  /** What two logs cover, their merger covers where the later one is faithful. */
  lemma {:induction false} MergeCovers(seen: Reads, later: Reads)
    ensures forall store, chain, n :: Covers(later, store, chain, n) ==> Covers(seen + later, store, chain, n)
    ensures forall store, chain, n :: Faithful(later, store) && Covers(seen, store, chain, n) ==>
      Covers(seen + later, store, chain, n)
    ensures forall store :: Faithful(seen, store) && Faithful(later, store) ==> Faithful(seen + later, store)
  {
    forall store, chain, n | Covers(later, store, chain, n) ensures Covers(seen + later, store, chain, n) {
    }
    forall store, chain, n | Faithful(later, store) && Covers(seen, store, chain, n)
      ensures Covers(seen + later, store, chain, n) {
    }
  }

  /** Recording one lookup keeps those recorded in the same store. */
  lemma {:induction false} CoversStill(
      seen: Reads, store: Store, chain: seq<LayerId>, name: string, k: Key)
    requires Covers(seen, store, chain, name)
    ensures Covers(seen[k := Lookup(store, k.layer, k.name)], store, chain, name)
  {
  }

  // ------------------------------------------------------------- evaluation

  /** What an expression evaluates to, and the variables it read. */
  datatype Evaluation = Evaluation(used: set<string>, value: Result<Option<string>, string>)

  type Expression = Variables -> Evaluation

  /** Evaluation depends only on the variables it reports as used. */
  ghost predicate Framed(e: Expression) {
    forall v: Variables, w: Variables ::
      (forall n :: n in e(v).used ==> ValueIn(v, n) == ValueIn(w, n)) ==> e(w) == e(v)
  }

  /** No value and an empty string count alike. */
  function Outcome(e: Evaluation): Result<Option<string>, string> {
    if e.value.Ok? && e.value.value == Some("") then Ok(None) else e.value
  }

  function Evaluated(store: Store, chain: seq<LayerId>, e: Expression): Evaluation { e(ComposedAll(store, chain)) }

  /** When no layer changed a variable read, evaluating again reads the same
      variables and gives the same result. */
  lemma {:induction false} UnchangedEvaluates(
      seen: Reads, before: Store, after: Store, chain: seq<LayerId>, e: Expression)
    requires Framed(e)
    requires forall n :: n in Evaluated(before, chain, e).used ==> Covers(seen, before, chain, n)
    requires forall layer :: !Changed(seen, after, layer)
    ensures Evaluated(after, chain, e) == Evaluated(before, chain, e)
  {
    var (v, w) := (ComposedAll(before, chain), ComposedAll(after, chain));
    forall n | n in e(v).used ensures ValueIn(v, n) == ValueIn(w, n) {
      UnchangedComposes(seen, before, after, chain, n);
      ComposedAllIs(before, chain, n);
      ComposedAllIs(after, chain, n);
    }
  }

  // -------------------------------------------------------- layer by layer

  /** The layer is loaded and sets the variable. */
  predicate Sets(store: Store, id: LayerId, name: string) { id in store && name in store[id] }

  predicate StackSets(store: Store, s: LayerStack, name: string) {
    (s.session.Some? && Sets(store, s.session.value, name)) || Sets(store, s.root, name)
  }

  /** `v` is what a layer stack sets the variable to: the session layer's value
      if it has one, the root layer's otherwise. */
  predicate StackValue(store: Store, s: LayerStack, name: string, v: Value) {
    if s.session.Some? && Sets(store, s.session.value, name) then v == store[s.session.value][name]
    else Sets(store, s.root, name) && v == store[s.root][name]
  }

  /** No layer stack before `i` sets the variable. */
  predicate Unset(store: Store, stacks: seq<LayerStack>, i: nat, name: string) {
    i <= |stacks| && forall j :: 0 <= j < i ==> !StackSets(store, stacks[j], name)
  }

  /** The variables are those some layer stack sets, each as the first that sets it
      does. */
  ghost predicate Strongest(store: Store, stacks: seq<LayerStack>, variables: Variables) {
    && (forall n, i: nat :: i < |stacks| && Unset(store, stacks, i, n) && StackSets(store, stacks[i], n) ==>
      n in variables && StackValue(store, stacks[i], n, variables[n]))
    && (forall n :: Unset(store, stacks, |stacks|, n) ==> n !in variables)
  }

  /** The layers of one stack. */
  function Layers(s: LayerStack): seq<LayerId> { Chain([s]) }

  lemma {:induction false} ChainSum(a: seq<LayerStack>, b: seq<LayerStack>)
    ensures Chain(a + b) == Chain(a) + Chain(b)
  {
    if b == [] {
      assert a + b == a;
    } else {
      ChainSum(a, b[..|b| - 1]);
      assert (a + b)[..|a + b| - 1] == a + b[..|b| - 1];
    }
  }

  lemma {:induction false} LayersAre(s: LayerStack)
    ensures Layers(s) == if s.session.Some? then [s.session.value, s.root] else [s.root]
  {
    assert [s][..|[s]| - 1] == [];
    assert Chain([]) == [];
  }

  lemma {:induction false} StackComposes(store: Store, s: LayerStack, name: string)
    ensures var c := Composed(store, Layers(s), name);
      (c.Some? <==> StackSets(store, s, name)) && (c.Some? ==> StackValue(store, s, name, c.value))
  {
    hide Chain, Layers, Composed;
    LayersAre(s);
    OneComposed(store, s.root, name);
    if s.session.Some? {
      assert Layers(s) == [s.session.value] + [s.root];
      OneComposed(store, s.session.value, name);
      ComposedOfSum(store, [s.session.value], [s.root], name);
    }
  }

  lemma {:induction false} OneComposed(store: Store, id: LayerId, name: string)
    ensures Composed(store, [id], name) == Lookup(store, id, name)
  {
    assert [id][1..] == [];
  }

  /** The first layer stack that sets a variable decides it. */
  lemma {:induction false} StacksCompose(store: Store, stacks: seq<LayerStack>, i: nat, name: string)
    requires i <= |stacks| && Unset(store, stacks, i, name)
    ensures i == |stacks| ==> Composed(store, Chain(stacks), name) == None
    ensures i < |stacks| && StackSets(store, stacks[i], name) ==>
      var c := Composed(store, Chain(stacks), name); c.Some? && StackValue(store, stacks[i], name, c.value)
    decreases |stacks|
  {
    hide Composed, Layers, StackSets, StackValue;
    if stacks == [] {
      NothingComposed(store, name);
    } else {
      var (front, last) := (stacks[..|stacks| - 1], stacks[|stacks| - 1]);
      assert front + [last] == stacks;
      ChainSum(front, [last]);
      LayersOf(last);
      ComposedOfSum(store, Chain(front), Layers(last), name);
      StackComposes(store, last, name);
      if i < |stacks| - 1 { StacksCompose(store, front, i, name); } else { StacksCompose(store, front, |front|, name); }
    }
  }

  lemma {:induction false} NothingComposed(store: Store, name: string)
    ensures Chain([]) == [] && Composed(store, [], name) == None
  {
  }

  lemma {:induction false} LayersOf(s: LayerStack)
    ensures Layers(s) == Chain([s])
  {
  }

  /** Composing layer by layer along the chain gives every variable the value of
      the first layer stack that sets it, its session layer before its root. */
  lemma {:induction false} ComposesStrongest(store: Store, stacks: seq<LayerStack>)
    ensures Strongest(store, stacks, ComposedAll(store, Chain(stacks)))
  {
    hide Composed, ComposedAll, Chain, StackSets, StackValue, Unset;
    var all := ComposedAll(store, Chain(stacks));
    forall n, i: nat | i < |stacks| && Unset(store, stacks, i, n) && StackSets(store, stacks[i], n)
      ensures n in all && StackValue(store, stacks[i], n, all[n]) {
      StacksCompose(store, stacks, i, n);
      ComposedAllIs(store, Chain(stacks), n);
    }
    forall n | Unset(store, stacks, |stacks|, n) ensures n !in all {
      StacksCompose(store, stacks, |stacks|, n);
      ComposedAllIs(store, Chain(stacks), n);
    }
  }

  /** The lookups of a variable are recorded in each layer stack up to the first
      that sets it: in its session layer, and in its root unless the session layer
      sets it. */
  ghost predicate Recorded(seen: Reads, store: Store, stacks: seq<LayerStack>, name: string) {
    forall i: nat :: i < |stacks| && Unset(store, stacks, i, name) ==>
      && (stacks[i].session.Some? ==> Found(seen, store, stacks[i].session.value, name))
      && (stacks[i].session.None? || !Sets(store, stacks[i].session.value, name) ==> Found(seen, store, stacks[i].root, name))
  }

  ghost predicate Found(seen: Reads, store: Store, id: LayerId, name: string) {
    Key(id, name) in seen && seen[Key(id, name)] == if Sets(store, id, name) then Some(store[id][name]) else None
  }

  lemma {:induction false} LookupIs(store: Store, id: LayerId, name: string)
    ensures Lookup(store, id, name) == if Sets(store, id, name) then Some(store[id][name]) else None
  {
  }

  lemma {:induction false} NoneBefore(store: Store, stacks: seq<LayerStack>, name: string)
    requires Unset(store, stacks, |stacks|, name)
    ensures forall id :: id in Chain(stacks) ==> !Sets(store, id, name)
  {
    if stacks != [] {
      NoneBefore(store, stacks[..|stacks| - 1], name);
      assert StackSets(store, stacks[|stacks| - 1], name) == false;
    }
  }

  lemma {:induction false} CoversRecorded(seen: Reads, store: Store, stacks: seq<LayerStack>, name: string)
    requires Covers(seen, store, Chain(stacks), name)
    ensures Recorded(seen, store, stacks, name)
  {
    hide Chain, Layers, Covers, Found;
    forall i: nat | i < |stacks| && Unset(store, stacks, i, name)
      ensures stacks[i].session.Some? ==> Found(seen, store, stacks[i].session.value, name)
      ensures stacks[i].session.None? || !Sets(store, stacks[i].session.value, name) ==>
        Found(seen, store, stacks[i].root, name) {
      CoversStack(seen, store, stacks, i, name);
    }
  }

  lemma {:induction false} CoversStack(seen: Reads, store: Store, stacks: seq<LayerStack>, i: nat, name: string)
    requires Covers(seen, store, Chain(stacks), name) && i < |stacks| && Unset(store, stacks, i, name)
    ensures stacks[i].session.Some? ==> Found(seen, store, stacks[i].session.value, name)
    ensures stacks[i].session.None? || !Sets(store, stacks[i].session.value, name) ==> Found(seen, store, stacks[i].root, name)
  {
    hide Chain, Layers;
    var (front, s, back) := (stacks[..i], stacks[i], stacks[i + 1..]);
    assert stacks == front + [s] + back;
    ChainSum(front, [s]);
    ChainSum(front + [s], back);
    LayersAre(s);
    LayersOf(s);
    NoneBefore(store, front, name);
    var (chain, k) := (Chain(stacks), |Chain(front)|);
    assert forall j :: 0 <= j < k ==> chain[j] == Chain(front)[j] && chain[j] in Chain(front);
    forall j | 0 <= j < k ensures Lookup(store, chain[j], name).None? { LookupIs(store, chain[j], name); }
    assert chain[k] == Layers(s)[0];
    assert Reaches(store, chain, k, name);
    LookupIs(store, chain[k], name);
    if s.session.Some? && !Sets(store, s.session.value, name) {
      assert chain[k + 1] == Layers(s)[1];
      LookupIs(store, chain[k + 1], name);
      assert Reaches(store, chain, k + 1, name);
    }
  }

  /** What evaluation gives: an error, or a string unless it is empty. */
  predicate Answers(given: Result<Option<string>, string>, r: Result<Option<string>, string>) {
    match given
    case Err(e) => r == Err(e)
    case Ok(None) => r == Ok(None)
    case Ok(Some(text)) => r == if text == "" then Ok(None) else Ok(Some(text))
  }

  lemma {:induction false} OutcomeAnswers(e: Evaluation)
    ensures Answers(e.value, Outcome(e))
  {
  }

  // ---------------------------------------------------------- the operations

  /** The variables of a chain; `known` tells whether any layer may author them. */
  method ComposedVariables(store: Store, stacks: seq<LayerStack>, known: bool) returns (variables: Variables)
    requires !known ==> forall id :: id in store ==> store[id] == map[]
    ensures variables == ComposedAll(store, Chain(stacks))
    ensures Strongest(store, stacks, variables)
  {
    hide Strongest, Chain, ComposedAll, Over;
    ComposesStrongest(store, stacks);
    variables := map[];
    var chain := Chain(stacks);
    if !known {
      ComposedNone(store, chain);
      return;
    }
    NoneComposed(store, chain);
    for i := 0 to |chain|
      invariant variables == ComposedAll(store, chain[..i])
    {
      ComposedNext(store, chain, i);
      if chain[i] in store {
        variables := ComposeOver(variables, store[chain[i]]);
      }
    }
    assert chain[..|chain|] == chain;
  }

  lemma {:induction false} NoneComposed(store: Store, chain: seq<LayerId>)
    ensures ComposedAll(store, chain[..0]) == map[]
  {
  }

  lemma {:induction false} ComposedNext(store: Store, chain: seq<LayerId>, i: nat)
    requires i < |chain|
    ensures var before := ComposedAll(store, chain[..i]);
      ComposedAll(store, chain[..i + 1]) == if chain[i] in store then Over(before, store[chain[i]]) else before
  {
    assert chain[..i + 1][..i] == chain[..i];
    var before := ComposedAll(store, chain[..i]);
    assert Over(before, map[]) == before;
  }

  lemma {:induction false} ComposedNone(store: Store, chain: seq<LayerId>)
    requires forall id :: id in store ==> store[id] == map[]
    ensures ComposedAll(store, chain) == map[]
  {
    if chain != [] { ComposedNone(store, chain[..|chain| - 1]); }
  }

  /** Adds every variable of `weaker` that `v` does not set. */
  method ComposeOver(v: Variables, weaker: Variables) returns (r: Variables)
    ensures r == Over(v, weaker)
  {
    r := v;
    var todo := weaker.Keys;
    while todo != {}
      invariant todo <= weaker.Keys && v.Keys <= r.Keys && r.Keys <= v.Keys + weaker.Keys
      invariant forall n :: n in r ==> r[n] == Over(v, weaker)[n]
      invariant forall n :: n in weaker ==> n in r || n in todo
    {
      var n :| n in todo;
      if n !in r { r := r[n := weaker[n]]; }
      todo := todo - {n};
    }
    assert r.Keys == v.Keys + weaker.Keys;
  }

  class VariableReads {
    var seen: Reads

    constructor ()
      ensures seen == map[]
    {
      seen := map[];
    }

    /** Records the lookups of `used` along the chain; what was recorded in the
        same store is kept. */
    method Record(store: Store, stacks: seq<LayerStack>, used: set<string>)
      modifies this
      ensures forall n :: n in used ==> Covers(seen, store, Chain(stacks), n)
      ensures forall n :: n in used ==> Recorded(seen, store, stacks, n)
      ensures forall chain, n :: old(Covers(seen, store, chain, n)) ==> Covers(seen, store, chain, n)
      ensures forall k :: k in seen ==> seen[k] == Lookup(store, k.layer, k.name) || (k in old(seen) && seen[k] == old(seen)[k])
      ensures old(Faithful(seen, store)) ==> Faithful(seen, store)
      ensures forall k :: k in seen && k !in old(seen) ==>
        k.name in used && exists i: nat :: Reaches(store, Chain(stacks), i, k.name) && Chain(stacks)[i] == k.layer
    {
      var chain := Chain(stacks);
      var todo := used;
      while todo != {}
        invariant todo <= used
        invariant forall n :: n in used ==> n in todo || Covers(seen, store, chain, n)
        invariant Kept(store, old(seen), seen)
        invariant NewReads(store, chain, used, old(seen), seen)
      {
        var name :| name in todo;
        RecordOne(store, chain, name, used, old(seen));
        todo := todo - {name};
      }
      forall n | n in used ensures Recorded(seen, store, stacks, n) { CoversRecorded(seen, store, stacks, n); }
    }

    method RecordOne(store: Store, chain: seq<LayerId>, name: string, ghost used: set<string>, ghost start: Reads)
      requires name in used && NewReads(store, chain, used, start, seen)
      requires Kept(store, start, seen)
      modifies this
      ensures Covers(seen, store, chain, name)
      ensures Kept(store, start, seen) && Kept(store, old(seen), seen)
      ensures NewReads(store, chain, used, start, seen)
    {
      var i := 0;
      while i < |chain|
        invariant i <= |chain| && forall j :: 0 <= j < i ==> Lookup(store, chain[j], name).None?
        invariant forall j: nat :: j < i ==> Key(chain[j], name) in seen && seen[Key(chain[j], name)] == Lookup(store, chain[j], name)
        invariant Kept(store, start, seen) && Kept(store, old(seen), seen)
        invariant NewReads(store, chain, used, start, seen)
      {
        var value := Lookup(store, chain[i], name);
        KeptStill(store, start, seen, Key(chain[i], name));
        KeptStill(store, old(seen), seen, Key(chain[i], name));
        assert Reaches(store, chain, i, name);
        seen := seen[Key(chain[i], name) := value];
        if value.Some? { break; }
        i := i + 1;
      }
    }

    /** Adds the reads of `other`, which replace those of the same lookups: what
        `other` covered is covered, and what this log covered in a store stays so
        when `other` read that store too. */
    method Extend(other: VariableReads)
      modifies this
      ensures forall store, chain, n :: old(Covers(other.seen, store, chain, n)) ==> Covers(seen, store, chain, n)
      ensures forall store, chain, n :: old(Faithful(other.seen, store)) && old(Covers(seen, store, chain, n)) ==>
        Covers(seen, store, chain, n)
      ensures forall store :: old(Faithful(seen, store)) && old(Faithful(other.seen, store)) ==> Faithful(seen, store)
      ensures seen == old(seen) + old(other.seen)
    {
      MergeCovers(seen, other.seen);
      seen := seen + other.seen;
    }

    /** Looks up again each variable recorded for `layer`. */
    method HasChanged(store: Store, layer: LayerId) returns (r: bool)
      ensures r == Changed(seen, store, layer)
    {
      var todo := seen.Keys;
      while todo != {}
        invariant todo <= seen.Keys
        invariant forall k :: k in seen && k.layer == layer && k !in todo ==> Lookup(store, layer, k.name) == seen[k]
      {
        var k :| k in todo;
        if k.layer == layer && Lookup(store, layer, k.name) != seen[k] { return true; }
        todo := todo - {k};
      }
      return false;
    }
  }

  /** Later reads keep what was recorded in the same store. */
  ghost predicate Kept(store: Store, before: Reads, after: Reads) {
    (forall chain, n :: Covers(before, store, chain, n) ==> Covers(after, store, chain, n))
    && forall k :: k in after ==> after[k] == Lookup(store, k.layer, k.name) || (k in before && after[k] == before[k])
  }

  /** Only lookups of used variables that composition reaches are added. */
  ghost predicate NewReads(store: Store, chain: seq<LayerId>, used: set<string>, before: Reads, after: Reads) {
    forall k :: k in after && k !in before ==>
      k.name in used && exists i: nat :: Reaches(store, chain, i, k.name) && chain[i] == k.layer
  }

  lemma {:induction false} KeptStill(store: Store, before: Reads, after: Reads, k: Key)
    requires Kept(store, before, after)
    ensures Kept(store, before, after[k := Lookup(store, k.layer, k.name)])
  {
    forall chain, n | Covers(before, store, chain, n) ensures Covers(after[k := Lookup(store, k.layer, k.name)], store, chain, n) {
      CoversStill(after, store, chain, n, k);
    }
  }

  /** Evaluates an expression, recording the variables it reads. */
  method Evaluate(store: Store, stacks: seq<LayerStack>, known: bool, e: Expression, log: VariableReads?)
    returns (r: Result<Option<string>, string>)
    requires !known ==> forall id :: id in store ==> store[id] == map[]
    modifies log
    ensures r == Outcome(Evaluated(store, Chain(stacks), e))
    ensures exists v ::
      && Strongest(store, stacks, v) && Answers(e(v).value, r)
      && (log != null ==> forall n :: n in e(v).used ==> Recorded(log.seen, store, stacks, n))
    ensures log != null ==>
      forall n :: n in Evaluated(store, Chain(stacks), e).used ==> Covers(log.seen, store, Chain(stacks), n)
    ensures log != null ==> forall chain, n :: old(Covers(log.seen, store, chain, n)) ==> Covers(log.seen, store, chain, n)
    ensures log != null && old(Faithful(log.seen, store)) ==> Faithful(log.seen, store)
  {
    var variables := ComposedVariables(store, stacks, known);
    var evaluation := e(variables);
    if log != null { log.Record(store, stacks, evaluation.used); }
    OutcomeAnswers(evaluation);
    r := Outcome(evaluation);
  }
}
