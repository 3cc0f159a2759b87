/** The layers reachable from a root: `collect_dependencies` in
    `layerstack/src/asset_dependencies.rs`. */
module DependencyCollection {
  import opened AssetUses
  import AssetDependencies
  import AssetOccurrences

  /** What a host resolves a use to. */
  datatype Target = ToLayer(layer: LayerId) | ToAsset(name: string) | Unresolved(reason: string) | Ignored

  datatype Resolved = Resolved(source: Use, targets: seq<Target>)

  datatype Report = Report(layers: seq<LayerId>, dependencies: seq<Resolved>, missing: seq<LayerId>)

  type Store = map<LayerId, Layer>

  type Resolver = Use -> seq<Target>

  function Ids(s: seq<LayerId>): set<LayerId> { set id | id in s }

  predicate Descending(s: seq<LayerId>) { forall i, j :: 0 <= i < j < |s| ==> s[i] > s[j] }

  predicate Ascending(s: seq<LayerId>) { forall i, j :: 0 <= i < j < |s| ==> s[i] < s[j] }

  // -------------------------------------------------------- links of a layer

  /** Every arc of a spec and of the variant specs in it. */
  function AllArcs(s: Spec): seq<Arc>
    decreases s
  {
    Items(s.references) + Items(s.payloads) + VariantArcs(s.variants)
  }

  function VariantArcs(vs: seq<Variant>): seq<Arc>
    decreases vs, |vs|
  {
    if vs == [] then [] else VariantArcs(vs[..|vs| - 1]) + AllArcs(vs[|vs| - 1].spec)
  }

  /** The layers an unnamed sublayer of the layer `id` includes. */
  function SublayerTargets(subs: seq<Sublayer>, id: LayerId): set<LayerId> {
    set i | 0 <= i < |subs| && subs[i].asset.None? && subs[i].layer != id :: subs[i].layer
  }

  function ArcTargets(arcs: seq<Arc>, id: LayerId): set<LayerId> {
    set i | 0 <= i < |arcs| && arcs[i].asset.None? && arcs[i].layer != id :: arcs[i].layer
  }

  function LayersIn(targets: seq<Target>): set<LayerId> {
    set i | 0 <= i < |targets| && targets[i].ToLayer? :: targets[i].layer
  }

  function PrimTargets(prims: seq<Prim>, id: LayerId): set<LayerId> {
    set i, t | 0 <= i < |prims| && t in ArcTargets(AllArcs(prims[i].spec), id) :: t
  }

  function UseTargets(uses: set<Use>, resolve: Resolver): set<LayerId> {
    set u, t | u in uses && t in LayersIn(resolve(u)) :: t
  }

  /** The layers the layer `id` links to: by unnamed arcs, and by what the host
      resolves its uses to. */
  function Links(store: Store, resolve: Resolver, id: LayerId): set<LayerId> {
    if id !in store then {}
    else
      SublayerTargets(store[id].sublayers, id) + PrimTargets(store[id].prims, id)
      + UseTargets(LayerUses(store[id]), resolve)
  }

  /** The item of a list of references or payloads of the spec a branch of
      variants leads to is an unnamed arc to `t`. */
  ghost predicate ArcTo(s: Spec, branch: seq<nat>, payload: bool, list: AssetOccurrences.List, item: nat, t: LayerId) {
    var end := AssetOccurrences.SpecAt(s, branch);
    && end.Some?
    && var arc := AssetOccurrences.ItemAt(if payload then end.value.payloads else end.value.references, list, item);
      arc.Some? && arc.value.asset == None && arc.value.layer == t
  }

  ghost predicate SomeArcTo(s: Spec, t: LayerId) {
    exists branch, payload, list, item :: ArcTo(s, branch, payload, list, item, t)
  }

  /** The host resolves the use that stands at a position to the layer `t`, among
      others. */
  ghost predicate ResolvesTo(l: Layer, resolve: Resolver, pos: AssetOccurrences.Position, u: Use, t: LayerId) {
    AssetOccurrences.Occurs(l, pos, u) && AssetOccurrences.Shown(u) && ToLayer(t) in resolve(u)
  }

  /** What a link of the layer stored as `id` is: an unnamed sublayer or arc that
      leads elsewhere, or a layer the host resolves a use to. */
  ghost predicate LinksTo(store: Store, resolve: Resolver, id: LayerId, t: LayerId) {
    && id in store
    && var l := store[id];
      || (exists i :: 0 <= i < |l.sublayers| && l.sublayers[i].asset == None && l.sublayers[i].layer == t != id)
      || (t != id && exists i :: 0 <= i < |l.prims| && SomeArcTo(l.prims[i].spec, t))
      || (exists pos, u :: ResolvesTo(l, resolve, pos, u, t))
  }

  lemma {:induction false} ArcsTo(s: Spec, t: LayerId)
    ensures (exists a :: a in AllArcs(s) && a.asset.None? && a.layer == t) <==> SomeArcTo(s, t)
    decreases s
  {
    hide AllArcs, VariantArcs, Items, AssetOccurrences.ItemAt;
    AllArcsAre(s);
    VariantArcsTo(s.variants, t);
    if a :| a in Items(s.references) && a.asset.None? && a.layer == t { OwnArcTo(s, false, a, t); }
    if a :| a in Items(s.payloads) && a.asset.None? && a.layer == t { OwnArcTo(s, true, a, t); }
    if i :| 0 <= i < |s.variants| && SomeArcTo(s.variants[i].spec, t) { NestedArcTo(s, i, t); }
    if SomeArcTo(s, t) { ArcToSplits(s, t); }
  }

  lemma {:induction false} AllArcsAre(s: Spec)
    ensures forall a :: a in AllArcs(s) <==> a in Items(s.references) || a in Items(s.payloads) || a in VariantArcs(s.variants)
  {
    hide Items, VariantArcs;
  }

  lemma {:induction false} VariantArcsTo(vs: seq<Variant>, t: LayerId)
    ensures (exists a :: a in VariantArcs(vs) && a.asset.None? && a.layer == t)
      <==> exists i :: 0 <= i < |vs| && SomeArcTo(vs[i].spec, t)
    decreases vs, |vs|
  {
    hide AllArcs, SomeArcTo;
    if vs != [] {
      var (front, last) := (vs[..|vs| - 1], vs[|vs| - 1]);
      VariantArcsTo(front, t);
      ArcsTo(last.spec, t);
      assert forall a :: a in VariantArcs(vs) <==> a in VariantArcs(front) || a in AllArcs(last.spec);
      if i :| 0 <= i < |front| && SomeArcTo(front[i].spec, t) { assert vs[i] == front[i]; }
      if i :| 0 <= i < |vs| && SomeArcTo(vs[i].spec, t) { assert i < |front| ==> front[i] == vs[i]; }
      if SomeArcTo(last.spec, t) { assert vs[|vs| - 1] == last; }
    }
  }

  lemma {:induction false} OwnArcTo(s: Spec, payload: bool, a: Arc, t: LayerId)
    requires a in Items(if payload then s.payloads else s.references) && a.asset.None? && a.layer == t
    ensures SomeArcTo(s, t)
  {
    hide Items, AssetOccurrences.ItemAt;
    var ops := if payload then s.payloads else s.references;
    var i: nat :| i < |Items(ops)| && Items(ops)[i] == a;
    var list, item := AssetOccurrences.ItemFinds(ops, i);
    assert ArcTo(s, [], payload, list, item, t);
  }

  lemma {:induction false} NestedArcTo(s: Spec, i: nat, t: LayerId)
    requires i < |s.variants| && SomeArcTo(s.variants[i].spec, t)
    ensures SomeArcTo(s, t)
  {
    hide AssetOccurrences.ItemAt;
    var rest: seq<nat>, payload, list, item :| ArcTo(s.variants[i].spec, rest, payload, list, item, t);
    var branch := [i] + rest;
    assert branch[0] == i && branch[1..] == rest;
    assert ArcTo(s, branch, payload, list, item, t);
  }

  lemma {:induction false} ArcToSplits(s: Spec, t: LayerId)
    requires SomeArcTo(s, t)
    ensures || (exists a :: (a in Items(s.references) || a in Items(s.payloads)) && a.asset.None? && a.layer == t)
            || (exists i :: 0 <= i < |s.variants| && SomeArcTo(s.variants[i].spec, t))
  {
    hide Items, AssetOccurrences.ItemAt;
    var branch: seq<nat>, payload, list, item :| ArcTo(s, branch, payload, list, item, t);
    if branch == [] {
      AssetOccurrences.ItemFound(if payload then s.payloads else s.references, list, item);
    } else {
      assert ArcTo(s.variants[branch[0]].spec, branch[1..], payload, list, item, t);
    }
  }

  /** The links the walk follows are the links there are. */
  lemma {:induction false} LinksAre(store: Store, resolve: Resolver, id: LayerId, t: LayerId)
    ensures t in Links(store, resolve, id) <==> LinksTo(store, resolve, id, t)
  {
    hide AllArcs, SomeArcTo, LayerUses, AssetOccurrences.Occurs, AssetOccurrences.Shown;
    if id in store {
      var l := store[id];
      forall i | 0 <= i < |l.prims|
        ensures (exists a :: a in AllArcs(l.prims[i].spec) && a.asset.None? && a.layer == t) <==> SomeArcTo(l.prims[i].spec, t) {
        ArcsTo(l.prims[i].spec, t);
      }
      PrimLinks(l.prims, id, t);
      forall u ensures u in LayerUses(l) <==> AssetOccurrences.Shown(u) && exists pos :: AssetOccurrences.Occurs(l, pos, u) {
        AssetOccurrences.UsesAreOccurrences(l, u);
      }
      UseLinks(l, resolve, t);
    }
  }

  lemma {:induction false} PrimLinks(prims: seq<Prim>, id: LayerId, t: LayerId)
    ensures t in PrimTargets(prims, id) <==>
      t != id && exists i :: 0 <= i < |prims| && exists a :: a in AllArcs(prims[i].spec) && a.asset.None? && a.layer == t
  {
    hide AllArcs;
    if i, a :| 0 <= i < |prims| && t != id && a in AllArcs(prims[i].spec) && a.asset.None? && a.layer == t {
      assert t in ArcTargets(AllArcs(prims[i].spec), id);
    }
  }

  lemma {:induction false} UseLinks(l: Layer, resolve: Resolver, t: LayerId)
    requires forall u :: u in LayerUses(l) <==> AssetOccurrences.Shown(u) && exists pos :: AssetOccurrences.Occurs(l, pos, u)
    ensures t in UseTargets(LayerUses(l), resolve) <==> exists pos, u :: ResolvesTo(l, resolve, pos, u, t)
  {
    hide LayerUses, AssetOccurrences.Occurs, AssetOccurrences.Shown;
    if t in UseTargets(LayerUses(l), resolve) {
      var u :| u in LayerUses(l) && t in LayersIn(resolve(u));
      var pos :| AssetOccurrences.Occurs(l, pos, u);
      assert ResolvesTo(l, resolve, pos, u, t);
    }
    if pos, u :| ResolvesTo(l, resolve, pos, u, t) {
      assert u in LayerUses(l);
      var k :| 0 <= k < |resolve(u)| && resolve(u)[k] == ToLayer(t);
      assert t in LayersIn(resolve(u));
    }
  }

  /** `path` leads from `root` to `id` over links. */
  ghost predicate Leads(store: Store, resolve: Resolver, root: LayerId, id: LayerId, path: seq<LayerId>) {
    path != [] && path[0] == root && path[|path| - 1] == id
    && forall i :: 0 <= i < |path| - 1 ==> LinksTo(store, resolve, path[i], path[i + 1])
  }

  ghost predicate Reachable(store: Store, resolve: Resolver, root: LayerId, id: LayerId) {
    exists path :: Leads(store, resolve, root, id, path)
  }

  lemma {:induction false} RootReachable(store: Store, resolve: Resolver, root: LayerId)
    ensures Reachable(store, resolve, root, root)
  {
    assert Leads(store, resolve, root, root, [root]);
  }

  lemma {:induction false} LeadsOn(
      store: Store, resolve: Resolver, root: LayerId, id: LayerId, next: LayerId, path: seq<LayerId>)
    requires Leads(store, resolve, root, id, path) && next in Links(store, resolve, id)
    ensures Leads(store, resolve, root, next, path + [next])
  {
    hide Links, LinksTo;
    var longer := path + [next];
    LinksAre(store, resolve, id, next);
    forall i | 0 <= i < |longer| - 1 ensures LinksTo(store, resolve, longer[i], longer[i + 1]) {
      assert longer[i] == path[i];
      if i < |path| - 1 { assert longer[i + 1] == path[i + 1]; }
    }
  }

  lemma {:induction false} LinkReachable(store: Store, resolve: Resolver, root: LayerId, id: LayerId, next: LayerId)
    requires Reachable(store, resolve, root, id) && next in Links(store, resolve, id)
    ensures Reachable(store, resolve, root, next)
  {
    hide Links, Leads;
    var path :| Leads(store, resolve, root, id, path);
    LeadsOn(store, resolve, root, id, next, path);
  }

  /** What holds the root and every link of its members holds every reachable
      layer. */
  lemma {:induction false} ClosedHolds(
      store: Store, resolve: Resolver, root: LayerId, id: LayerId, all: set<LayerId>, path: seq<LayerId>)
    requires root in all && Leads(store, resolve, root, id, path)
    requires forall x :: x in all ==> Links(store, resolve, x) <= all
    ensures id in all
    decreases |path|
  {
    hide Links, LinksTo;
    if |path| > 1 {
      var front := path[..|path| - 1];
      ClosedHolds(store, resolve, root, front[|front| - 1], all, front);
      LinksAre(store, resolve, path[|front| - 1], path[|front| - 1 + 1]);
    }
  }

  // ---------------------------------------------------------- the worklist

  /** Every layer that can come to be visited. */
  function Universe(store: Store, resolve: Resolver, root: LayerId): set<LayerId> {
    {root} + set id, t | id in store && t in Links(store, resolve, id) :: t
  }

  /** The state of the walk: everything visited or pending is reachable, and
      every link of a visited layer is visited or pending. */
  ghost predicate Walk(store: Store, resolve: Resolver, root: LayerId, pending: seq<LayerId>, visited: set<LayerId>) {
    && Descending(pending)
    && (forall id :: id in visited || id in pending ==> Reachable(store, resolve, root, id))
    && (root in visited || root in pending)
    && (forall id, t :: id in visited && t in Links(store, resolve, id) ==> t in visited || t in pending)
    && visited + Ids(pending) <= Universe(store, resolve, root)
  }

  lemma {:induction false} WalkStarts(store: Store, resolve: Resolver, root: LayerId)
    ensures Walk(store, resolve, root, [root], {})
  {
    RootReachable(store, resolve, root);
  }

  /** The smallest pending layer was visited before. */
  lemma {:induction false} WalkSkips(
      store: Store, resolve: Resolver, root: LayerId, pending: seq<LayerId>, visited: set<LayerId>)
    requires Walk(store, resolve, root, pending, visited) && pending != [] && pending[|pending| - 1] in visited
    ensures Walk(store, resolve, root, pending[..|pending| - 1], visited)
  {
    hide Links, Reachable, Universe;
    var (front, last) := (pending[..|pending| - 1], pending[|pending| - 1]);
    assert forall id :: id in pending ==> id in front || id == last;
    assert forall id :: id in front ==> id in pending;
    assert Ids(front) <= Ids(pending);
  }

  /** The smallest pending layer is visited and its links are put in order. */
  lemma {:induction false} WalkVisits(
      store: Store, resolve: Resolver, root: LayerId, pending: seq<LayerId>, visited: set<LayerId>, next: seq<LayerId>)
    requires Walk(store, resolve, root, pending, visited) && pending != [] && pending[|pending| - 1] !in visited
    requires Descending(next)
    requires Ids(next) == Ids(pending[..|pending| - 1]) + Links(store, resolve, pending[|pending| - 1])
    ensures Walk(store, resolve, root, next, visited + {pending[|pending| - 1]})
    ensures Universe(store, resolve, root) - (visited + {pending[|pending| - 1]}) < Universe(store, resolve, root) - visited
  {
    hide Links, Reachable, Descending;
    var (front, id) := (pending[..|pending| - 1], pending[|pending| - 1]);
    assert id in Ids(pending) && Reachable(store, resolve, root, id);
    assert forall x :: x in pending ==> x in front || x == id;
    forall x | x in Ids(next) ensures Reachable(store, resolve, root, x) && x in Universe(store, resolve, root) {
      if x in front {
        assert x in Ids(pending);
      } else {
        LinkReachable(store, resolve, root, id, x);
        LinksKnown(store, resolve, root, id, x);
      }
    }
    forall x | x in pending || x in Links(store, resolve, id) ensures x == id || x in next {
      assert x in pending ==> x == id || x in Ids(front);
      assert x == id || x in Ids(next);
    }
    var now := visited + {id};
    forall x | x in now || x in next ensures Reachable(store, resolve, root, x) && x in Universe(store, resolve, root) {
      assert x in next ==> x in Ids(next);
      assert x in visited ==> x in visited + Ids(pending);
      assert x == id ==> x in visited + Ids(pending);
    }
    forall y, t | y in now && t in Links(store, resolve, y) ensures t in now || t in next {
      assert y in visited ==> t in visited || t in pending;
    }
    assert root in now || root in next;
    forall x | x in now + Ids(next) ensures x in Universe(store, resolve, root) {
      assert x in now || x in next;
    }
    assert id in Universe(store, resolve, root) - visited;
  }

  lemma {:induction false} LinksKnown(store: Store, resolve: Resolver, root: LayerId, id: LayerId, x: LayerId)
    requires x in Links(store, resolve, id)
    ensures x in Universe(store, resolve, root)
  {
  }

  /** When nothing is pending the visited layers are the reachable ones. */
  lemma {:induction false} WalkEnds(store: Store, resolve: Resolver, root: LayerId, visited: set<LayerId>, id: LayerId)
    requires Walk(store, resolve, root, [], visited)
    ensures id in visited <==> Reachable(store, resolve, root, id)
  {
    if Reachable(store, resolve, root, id) {
      var path :| Leads(store, resolve, root, id, path);
      forall x | x in visited ensures Links(store, resolve, x) <= visited {
        assert forall t :: t in Links(store, resolve, x) ==> t in visited || t in [];
      }
      ClosedHolds(store, resolve, root, id, visited, path);
    }
  }

  // --------------------------------------------------------- the algorithm

  lemma {:induction false} InsertsAt(pending: seq<LayerId>, at: nat, id: LayerId)
    requires at <= |pending| && Descending(pending)
    requires forall i :: 0 <= i < at ==> pending[i] > id
    requires forall i :: at <= i < |pending| ==> id > pending[i]
    ensures var r := pending[..at] + [id] + pending[at..]; Descending(r) && Ids(r) == Ids(pending) + {id}
  {
    var r := pending[..at] + [id] + pending[at..];
    assert pending == pending[..at] + pending[at..];
    forall x ensures x in r <==> x in pending || x == id {
      assert x in pending <==> x in pending[..at] || x in pending[at..];
    }
  }

  lemma {:induction false} AlreadyThere(pending: seq<LayerId>, at: nat, id: LayerId)
    requires at < |pending| && pending[at] == id
    ensures Ids(pending) == Ids(pending) + {id}
  {
    assert id in pending;
  }

  lemma {:induction false} Descends(pending: seq<LayerId>)
    requires Descending(pending)
    ensures forall i, j :: 0 <= i < j < |pending| ==> pending[i] > pending[j]
  {
  }

  /** Puts a layer in its place, unless it is there. */
  method Push(pending: seq<LayerId>, id: LayerId) returns (r: seq<LayerId>)
    requires Descending(pending)
    ensures Descending(r) && Ids(r) == Ids(pending) + {id}
  {
    hide Descending, Ids;
    Descends(pending);
    var low, high := 0, |pending|;
    while low < high
      invariant 0 <= low <= high <= |pending|
      invariant forall i :: 0 <= i < low ==> pending[i] > id
      invariant forall i :: high <= i < |pending| ==> id > pending[i]
    {
      var mid := (low + high) / 2;
      if pending[mid] == id {
        AlreadyThere(pending, mid, id);
        return pending;
      }
      if pending[mid] > id { low := mid + 1; } else { high := mid; }
    }
    InsertsAt(pending, low, id);
    r := pending[..low] + [id] + pending[low..];
  }

  method PushSublayers(pending: seq<LayerId>, subs: seq<Sublayer>, id: LayerId) returns (r: seq<LayerId>)
    requires Descending(pending)
    ensures Descending(r) && Ids(r) == Ids(pending) + SublayerTargets(subs, id)
  {
    hide Descending, Ids;
    r := pending;
    for i := 0 to |subs|
      invariant Descending(r) && Ids(r) == Ids(pending) + SublayerTargets(subs[..i], id)
    {
      if subs[i].asset.None? && subs[i].layer != id { r := Push(r, subs[i].layer); }
      SublayerTargetsTake(subs, i, id);
    }
    assert subs[..|subs|] == subs;
  }

  lemma {:induction false} SublayerTargetsTake(subs: seq<Sublayer>, i: nat, id: LayerId)
    requires i < |subs|
    ensures SublayerTargets(subs[..i + 1], id) ==
      SublayerTargets(subs[..i], id) + (if subs[i].asset.None? && subs[i].layer != id then {subs[i].layer} else {})
  {
    var next := subs[..i + 1];
    assert next == subs[..i] + [subs[i]] && next[i] == subs[i];
    assert forall j :: 0 <= j < i ==> next[j] == subs[..i][j];
  }

  method PushArcs(pending: seq<LayerId>, arcs: seq<Arc>, id: LayerId) returns (r: seq<LayerId>)
    requires Descending(pending)
    ensures Descending(r) && Ids(r) == Ids(pending) + ArcTargets(arcs, id)
  {
    hide Descending, Ids;
    r := pending;
    for i := 0 to |arcs|
      invariant Descending(r) && Ids(r) == Ids(pending) + ArcTargets(arcs[..i], id)
    {
      if arcs[i].asset.None? && arcs[i].layer != id { r := Push(r, arcs[i].layer); }
      ArcTargetsTake(arcs, i, id);
    }
    assert arcs[..|arcs|] == arcs;
  }

  lemma {:induction false} ArcTargetsTake(arcs: seq<Arc>, i: nat, id: LayerId)
    requires i < |arcs|
    ensures ArcTargets(arcs[..i + 1], id) ==
      ArcTargets(arcs[..i], id) + (if arcs[i].asset.None? && arcs[i].layer != id then {arcs[i].layer} else {})
  {
    var next := arcs[..i + 1];
    assert next == arcs[..i] + [arcs[i]] && next[i] == arcs[i];
    assert forall j :: 0 <= j < i ==> next[j] == arcs[..i][j];
  }

  method PushPrims(pending: seq<LayerId>, prims: seq<Prim>, id: LayerId) returns (r: seq<LayerId>)
    requires Descending(pending)
    ensures Descending(r) && Ids(r) == Ids(pending) + PrimTargets(prims, id)
  {
    hide Descending, Ids, AllArcs, ArcTargets;
    r := pending;
    for i := 0 to |prims|
      invariant Descending(r) && Ids(r) == Ids(pending) + PrimTargets(prims[..i], id)
    {
      r := PushArcs(r, AllArcs(prims[i].spec), id);
      PrimTargetsTake(prims, i, id);
    }
    assert prims[..|prims|] == prims;
  }

  lemma {:induction false} PrimTargetsTake(prims: seq<Prim>, i: nat, id: LayerId)
    requires i < |prims|
    ensures PrimTargets(prims[..i + 1], id) == PrimTargets(prims[..i], id) + ArcTargets(AllArcs(prims[i].spec), id)
  {
    hide AllArcs, ArcTargets;
    var (front, next) := (prims[..i], prims[..i + 1]);
    forall t ensures t in PrimTargets(next, id) <==> t in PrimTargets(front, id) || t in ArcTargets(AllArcs(prims[i].spec), id) {
      if j :| 0 <= j < |front| && t in ArcTargets(AllArcs(front[j].spec), id) { assert next[j] == front[j]; }
      if j :| 0 <= j < |next| && t in ArcTargets(AllArcs(next[j].spec), id) { assert j < i ==> next[j] == front[j]; }
      assert next[i] == prims[i];
    }
  }

  method PushTargets(pending: seq<LayerId>, targets: seq<Target>) returns (r: seq<LayerId>)
    requires Descending(pending)
    ensures Descending(r) && Ids(r) == Ids(pending) + LayersIn(targets)
  {
    hide Descending, Ids;
    r := pending;
    for i := 0 to |targets|
      invariant Descending(r) && Ids(r) == Ids(pending) + LayersIn(targets[..i])
    {
      if targets[i].ToLayer? { r := Push(r, targets[i].layer); }
      LayersInTake(targets, i);
    }
    assert targets[..|targets|] == targets;
  }

  lemma {:induction false} LayersInTake(targets: seq<Target>, i: nat)
    requires i < |targets|
    ensures LayersIn(targets[..i + 1]) == LayersIn(targets[..i]) + (if targets[i].ToLayer? then {targets[i].layer} else {})
  {
    var next := targets[..i + 1];
    assert next == targets[..i] + [targets[i]] && next[i] == targets[i];
    assert forall j :: 0 <= j < i ==> next[j] == targets[..i][j];
  }

  /** A use and its targets; no target counts as unresolved. */
  function Resolve(resolve: Resolver, u: Use): Resolved {
    Resolved(u, if resolve(u) == [] then [Unresolved("resolver returned no targets")] else resolve(u))
  }

  method PushUses(pending: seq<LayerId>, dependencies: seq<Resolved>, uses: seq<Use>, resolve: Resolver)
    returns (r: seq<LayerId>, all: seq<Resolved>)
    requires Descending(pending)
    ensures Descending(r) && Ids(r) == Ids(pending) + UseTargets(AssetDependencies.Listed(uses), resolve)
    ensures |all| == |dependencies| + |uses|
    ensures all == dependencies + seq(|uses|, i requires 0 <= i < |uses| => Resolve(resolve, uses[i]))
  {
    hide Descending, Ids, LayersIn;
    r, all := pending, dependencies;
    for i := 0 to |uses|
      invariant Descending(r) && Ids(r) == Ids(pending) + UseTargets(AssetDependencies.Listed(uses[..i]), resolve)
      invariant all == dependencies + seq(i, j requires 0 <= j < i => Resolve(resolve, uses[j]))
    {
      var targets := Resolve(resolve, uses[i]).targets;
      r := PushTargets(r, targets);
      all := all + [Resolved(uses[i], targets)];
      assert uses[..i + 1] == uses[..i] + [uses[i]];
      SameLayers(resolve, uses[i]);
      UseTargetsAdd(AssetDependencies.Listed(uses[..i]), uses[i], resolve);
      assert AssetDependencies.Listed(uses[..i + 1]) == AssetDependencies.Listed(uses[..i]) + {uses[i]};
    }
    assert uses[..|uses|] == uses;
  }

  lemma {:induction false} SameLayers(resolve: Resolver, u: Use)
    ensures LayersIn(Resolve(resolve, u).targets) == LayersIn(resolve(u))
  {
  }

  lemma {:induction false} UseTargetsAdd(uses: set<Use>, u: Use, resolve: Resolver)
    ensures UseTargets(uses + {u}, resolve) == UseTargets(uses, resolve) + LayersIn(resolve(u))
  {
  }

  /** What the report lists after the visited layers. */
  ghost predicate Reports(store: Store, resolve: Resolver, visited: set<LayerId>, report: Report) {
    && DistinctIds(report.layers) && DistinctIds(report.missing)
    && (forall id :: id in report.layers <==> id in visited && id in store)
    && (forall id :: id in report.missing <==> id in visited && id !in store)
    && (forall d :: d in report.dependencies <==>
          exists id, u :: id in visited && id in store && u in LayerUses(store[id]) && d == Resolve(resolve, u))
  }

  predicate DistinctIds(s: seq<LayerId>) { forall i, j :: 0 <= i < j < |s| ==> s[i] != s[j] }

  lemma {:induction false} ReportsMissing(
      store: Store, resolve: Resolver, visited: set<LayerId>, report: Report, id: LayerId)
    requires Reports(store, resolve, visited, report) && id !in visited && id !in store
    ensures Reports(store, resolve, visited + {id}, report.(missing := report.missing + [id]))
  {
    hide LayerUses, Resolve;
  }

  lemma {:induction false} ReportsLayer(
      store: Store, resolve: Resolver, visited: set<LayerId>, report: Report, id: LayerId, uses: seq<Use>, more: seq<Resolved>)
    requires Reports(store, resolve, visited, report) && id !in visited && id in store
    requires AssetDependencies.Listed(uses) == LayerUses(store[id])
    requires more == seq(|uses|, i requires 0 <= i < |uses| => Resolve(resolve, uses[i]))
    ensures Reports(store, resolve, visited + {id},
                    Report(report.layers + [id], report.dependencies + more, report.missing))
  {
    hide LayerUses, Resolve;
    var now := report.dependencies + more;
    forall d ensures d in now <==>
        exists x, u :: x in visited + {id} && x in store && u in LayerUses(store[x]) && d == Resolve(resolve, u) {
      if d in more {
        var i :| 0 <= i < |more| && more[i] == d;
        assert uses[i] in AssetDependencies.Listed(uses);
      }
      if x, u :| x in visited + {id} && x in store && u in LayerUses(store[x]) && d == Resolve(resolve, u) {
        if x == id {
          assert u in AssetDependencies.Listed(uses);
          var i :| 0 <= i < |uses| && uses[i] == u;
          assert more[i] == d;
        }
      }
    }
  }

  // ---------------------------------------------- the order of dependencies

  type Order = AssetDependencies.Order

  predicate Distinct(all: seq<Resolved>) { forall i, j :: 0 <= i < j < |all| ==> all[i].source != all[j].source }

  /** No source comes after one that should follow it. */
  predicate InOrder(all: seq<Resolved>, before: Order) {
    forall i, j :: 0 <= i < j < |all| ==> !before(all[j].source, all[i].source)
  }

  /** Every layer of the store is found under its own id. */
  predicate Named(store: Store) { forall id :: id in store ==> store[id].id == id }

  ghost predicate SourcesWithin(all: seq<Resolved>, visited: set<LayerId>) {
    forall d :: d in all ==> d.source.layer in visited
  }

  /** The uses of a layer not visited before come from it alone. */
  lemma {:induction false} AddsDistinct(
      store: Store, resolve: Resolver, visited: set<LayerId>, all: seq<Resolved>, id: LayerId, uses: seq<Use>, before: Order)
    requires Named(store) && id in store && id !in visited && Distinct(all) && SourcesWithin(all, visited)
    requires AssetDependencies.StrictTotal(before) && AssetDependencies.Sorted(uses, before)
    requires AssetDependencies.Listed(uses) == LayerUses(store[id])
    ensures var now := all + seq(|uses|, i requires 0 <= i < |uses| => Resolve(resolve, uses[i]));
      Distinct(now) && SourcesWithin(now, visited + {id})
  {
    hide LayerUses;
    var more := seq(|uses|, i requires 0 <= i < |uses| => Resolve(resolve, uses[i]));
    forall i | 0 <= i < |uses| ensures uses[i].layer == id {
      assert uses[i] in AssetDependencies.Listed(uses);
      LayerAt(store[id], uses[i]);
    }
    var now := all + more;
    forall i, j | 0 <= i < j < |now| ensures now[i].source != now[j].source {
      assert i < |all| <= j ==> all[i] in all && now[j].source == uses[j - |all|];
      assert |all| <= i ==> before(uses[i - |all|], uses[j - |all|]);
    }
  }

  lemma {:induction false} InsertsInOrder(r: seq<Resolved>, at: nat, d: Resolved, before: Order)
    requires at <= |r| && InOrder(r, before)
    requires forall i :: 0 <= i < at ==> !before(d.source, r[i].source)
    requires forall i :: at <= i < |r| ==> !before(r[i].source, d.source)
    ensures InOrder(r[..at] + [d] + r[at..], before)
  {
  }

  lemma {:induction false} InsertedAt(r: seq<Resolved>, at: nat, d: Resolved)
    requires at <= |r|
    ensures var now := r[..at] + [d] + r[at..];
      |now| == |r| + 1 && forall k :: 0 <= k < |now| ==> now[k] == if k < at then r[k] else if k == at then d else r[k - 1]
  {
  }

  lemma {:induction false} InsertsMember(r: seq<Resolved>, at: nat, d: Resolved)
    requires at <= |r|
    ensures forall x :: x in r[..at] + [d] + r[at..] <==> x in r || x == d
  {
    var now := r[..at] + [d] + r[at..];
    assert r == r[..at] + r[at..];
    forall x ensures x in now <==> x in r || x == d {
      assert x in r <==> x in r[..at] || x in r[at..];
    }
  }

  lemma {:induction false} InsertsDistinct(r: seq<Resolved>, at: nat, d: Resolved)
    requires at <= |r|
    ensures var now := r[..at] + [d] + r[at..];
      && (forall x :: x in now <==> x in r || x == d)
      && (Distinct(r) && (forall x :: x in r ==> x.source != d.source) ==> Distinct(now))
  {
    var now := r[..at] + [d] + r[at..];
    InsertsMember(r, at, d);
    InsertedAt(r, at, d);
    if Distinct(r) && forall x :: x in r ==> x.source != d.source {
      forall i, j | 0 <= i < j < |now| ensures now[i].source != now[j].source {
        assert i < at ==> r[i] in r;
        assert j > at ==> r[j - 1] in r;
      }
    }
  }

  /** Those before a place are not after what belongs there, nor the rest before
      it. */
  lemma {:induction false} Place(r: seq<Resolved>, at: nat, d: Resolved, before: Order)
    requires AssetDependencies.StrictTotal(before) && InOrder(r, before) && at <= |r|
    requires at > 0 ==> !before(d.source, r[at - 1].source)
    ensures forall i :: 0 <= i < at ==> !before(d.source, r[i].source)
  {
    forall i | 0 <= i < at ensures !before(d.source, r[i].source) {
      var (x, y, z) := (d.source, r[i].source, r[at - 1].source);
      assert i < at - 1 ==> !before(z, y);
      assert before(x, y) && (before(y, z) || y == z) ==> before(x, z);
    }
  }

  /** A stable sort by source. */
  method SortBySource(all: seq<Resolved>, before: Order) returns (r: seq<Resolved>)
    requires AssetDependencies.StrictTotal(before)
    ensures InOrder(r, before) && (forall d :: d in r <==> d in all) && (Distinct(all) ==> Distinct(r))
    ensures |r| == |all|
  {
    hide AssetDependencies.StrictTotal, Distinct, InOrder;
    r := [];
    NoneInOrder(before);
    for n := 0 to |all|
      invariant InOrder(r, before) && (forall d :: d in r <==> d in all[..n]) && (Distinct(all) ==> Distinct(r))
      invariant |r| == n
    {
      var d := all[n];
      assert all[..n + 1] == all[..n] + [d];
      var at := |r|;
      while at > 0 && before(d.source, r[at - 1].source)
        invariant 0 <= at <= |r| && forall i :: at <= i < |r| ==> before(d.source, r[i].source)
      {
        at := at - 1;
      }
      Place(r, at, d, before);
      Asymmetric(r, at, d, before);
      InsertsInOrder(r, at, d, before);
      InsertsDistinct(r, at, d);
      if Distinct(all) { NewSource(all, n); }
      r := r[..at] + [d] + r[at..];
    }
    assert all[..|all|] == all;
  }

  lemma {:induction false} NoneInOrder(before: Order)
    ensures InOrder([], before) && Distinct([])
  {
  }

  lemma {:induction false} Asymmetric(r: seq<Resolved>, at: nat, d: Resolved, before: Order)
    requires AssetDependencies.StrictTotal(before) && at <= |r|
    requires forall i :: at <= i < |r| ==> before(d.source, r[i].source)
    ensures forall i :: at <= i < |r| ==> !before(r[i].source, d.source)
  {
    forall i | at <= i < |r| ensures !before(r[i].source, d.source) {
      AssetDependencies.NotBoth(d.source, r[i].source, before);
    }
  }

  lemma {:induction false} NewSource(all: seq<Resolved>, n: nat)
    requires n < |all| && Distinct(all)
    ensures forall x :: x in all[..n] ==> x.source != all[n].source
  {
  }

  /** Distinct sources in order increase. */
  lemma {:induction false} InOrderIncreases(all: seq<Resolved>, before: Order)
    requires AssetDependencies.StrictTotal(before) && InOrder(all, before) && Distinct(all)
    ensures forall i, j :: 0 <= i < j < |all| ==> before(all[i].source, all[j].source)
  {
    forall i, j | 0 <= i < j < |all| ensures before(all[i].source, all[j].source) {
      assert !before(all[j].source, all[i].source) && all[i].source != all[j].source;
    }
  }

  method Sort(s: seq<LayerId>) returns (r: seq<LayerId>)
    requires DistinctIds(s)
    ensures Ascending(r) && forall id :: id in r <==> id in s
  {
    var down: seq<LayerId> := [];
    for i := 0 to |s|
      invariant Descending(down) && Ids(down) == Ids(s[..i])
    {
      down := Push(down, s[i]);
      assert s[..i + 1] == s[..i] + [s[i]];
    }
    assert s[..|s|] == s;
    r := seq(|down|, i requires 0 <= i < |down| => down[|down| - 1 - i]);
    forall id ensures id in r <==> id in s {
      if id in s {
        assert id in Ids(down);
        var i :| 0 <= i < |down| && down[i] == id;
        assert r[|down| - 1 - i] == id;
      }
      assert id in r ==> id in Ids(down);
      assert id in Ids(down) <==> id in Ids(s);
    }
  }

  /** Inventories the layers reachable from `root`, each inspected once. */
  method CollectDependencies(store: Store, root: LayerId, resolve: Resolver, before: Order) returns (report: Report)
    requires AssetDependencies.StrictTotal(before)
    ensures Ascending(report.layers) && Ascending(report.missing)
    ensures forall id :: id in report.layers <==> Reachable(store, resolve, root, id) && id in store
    ensures forall id :: id in report.missing <==> Reachable(store, resolve, root, id) && id !in store
    ensures forall d :: d in report.dependencies <==>
      exists id, u :: Reachable(store, resolve, root, id) && id in store && u in LayerUses(store[id]) && d == Resolve(resolve, u)
    ensures forall d :: d in report.dependencies <==> Resolves(resolve, d) && exists id :: Inventoried(store, resolve, root, id, d.source)
    ensures InOrder(report.dependencies, before)
    ensures Named(store) ==>
      forall i, j :: 0 <= i < j < |report.dependencies| ==> before(report.dependencies[i].source, report.dependencies[j].source)
  {
    hide Walk, Reports, LayerUses, Reachable, Universe, Resolve, PrimTargets, SublayerTargets, UseTargets, Ids, Ascending, DistinctIds,
      AssetDependencies.StrictTotal, AssetDependencies.Sorted, InOrder, Distinct, Named, SourcesWithin;
    report := Report([], [], []);
    var pending := [root];
    var visited: set<LayerId> := {};
    WalkStarts(store, resolve, root);
    ReportsNone(store, resolve);
    NoneInOrder(before);
    NoSources();
    while pending != []
      invariant Walk(store, resolve, root, pending, visited) && Reports(store, resolve, visited, report)
      invariant Named(store) ==> Distinct(report.dependencies) && SourcesWithin(report.dependencies, visited)
      decreases Universe(store, resolve, root) - visited, |pending|
    {
      ghost var waiting := pending;
      var id := pending[|pending| - 1];
      pending := pending[..|pending| - 1];
      if id in visited {
        WalkSkips(store, resolve, root, waiting, visited);
        continue;
      }
      WalkDescends(store, resolve, root, waiting, visited);
      SourcesStay(report.dependencies, visited, id);
      if id !in store {
        ReportsMissing(store, resolve, visited, report, id);
        WalkVisits(store, resolve, root, waiting, visited, pending);
        visited := visited + {id};
        report := report.(missing := report.missing + [id]);
        continue;
      }
      var layer := store[id];
      pending := PushSublayers(pending, layer.sublayers, id);
      pending := PushPrims(pending, layer.prims, id);
      var uses := AssetDependencies.ExtractLayerDependencies(layer, before);
      var dependencies;
      pending, dependencies := PushUses(pending, report.dependencies, uses, resolve);
      ghost var more := seq(|uses|, i requires 0 <= i < |uses| => Resolve(resolve, uses[i]));
      ReportsLayer(store, resolve, visited, report, id, uses, more);
      if Named(store) { AddsDistinct(store, resolve, visited, report.dependencies, id, uses, before); }
      WalkVisits(store, resolve, root, waiting, visited, pending);
      visited := visited + {id};
      report := Report(report.layers + [id], dependencies, report.missing);
    }
    WalkEndsAll(store, resolve, root, visited);
    ReportsParts(store, resolve, visited, report);
    var layers := Sort(report.layers);
    var missing := Sort(report.missing);
    var dependencies := SortBySource(report.dependencies, before);
    if Named(store) { InOrderIncreases(dependencies, before); }
    report := Report(layers, dependencies, missing);
    InventoryIs(store, resolve, root, report);
  }

  /** The targets are the host's answers, or that there were none. */
  predicate Resolves(resolve: Resolver, d: Resolved) {
    if |resolve(d.source)| > 0 then d.targets == resolve(d.source)
    else d.targets == [Unresolved("resolver returned no targets")]
  }

  /** `u` stands somewhere in a reachable layer. */
  ghost predicate Inventoried(store: Store, resolve: Resolver, root: LayerId, id: LayerId, u: Use) {
    && Reachable(store, resolve, root, id) && id in store
    && AssetOccurrences.Shown(u) && exists pos :: AssetOccurrences.Occurs(store[id], pos, u)
  }

  lemma {:induction false} InventoryIs(store: Store, resolve: Resolver, root: LayerId, report: Report)
    requires forall d :: d in report.dependencies <==>
      exists id, u :: Reachable(store, resolve, root, id) && id in store && u in LayerUses(store[id]) && d == Resolve(resolve, u)
    ensures forall d :: d in report.dependencies <==> Resolves(resolve, d) && exists id :: Inventoried(store, resolve, root, id, d.source)
  {
    hide Reachable, LayerUses, AssetOccurrences.Occurs, AssetOccurrences.Shown;
    forall d ensures d in report.dependencies <==>
        Resolves(resolve, d) && exists id :: Inventoried(store, resolve, root, id, d.source) {
      assert d == Resolve(resolve, d.source) <==> Resolves(resolve, d);
      if d in report.dependencies {
        var id, u :| Reachable(store, resolve, root, id) && id in store && u in LayerUses(store[id]) && d == Resolve(resolve, u);
        AssetOccurrences.UsesAreOccurrences(store[id], u);
        assert Inventoried(store, resolve, root, id, d.source);
      }
      if id :| Inventoried(store, resolve, root, id, d.source) {
        AssetOccurrences.UsesAreOccurrences(store[id], d.source);
        assert d.source in LayerUses(store[id]);
      }
    }
  }

  lemma {:induction false} NoSources()
    ensures SourcesWithin([], {})
  {
  }

  lemma {:induction false} SourcesStay(all: seq<Resolved>, visited: set<LayerId>, id: LayerId)
    ensures SourcesWithin(all, visited) ==> SourcesWithin(all, visited + {id})
  {
  }

  lemma {:induction false} WalkDescends(
      store: Store, resolve: Resolver, root: LayerId, pending: seq<LayerId>, visited: set<LayerId>)
    requires Walk(store, resolve, root, pending, visited) && pending != []
    ensures Descending(pending[..|pending| - 1])
  {
  }

  lemma {:induction false} WalkEndsAll(store: Store, resolve: Resolver, root: LayerId, visited: set<LayerId>)
    requires Walk(store, resolve, root, [], visited)
    ensures forall id :: id in visited <==> Reachable(store, resolve, root, id)
  {
    forall id ensures id in visited <==> Reachable(store, resolve, root, id) {
      WalkEnds(store, resolve, root, visited, id);
    }
  }

  lemma {:induction false} ReportsNone(store: Store, resolve: Resolver)
    ensures Reports(store, resolve, {}, Report([], [], []))
  {
  }

  lemma {:induction false} ReportsParts(store: Store, resolve: Resolver, visited: set<LayerId>, report: Report)
    requires Reports(store, resolve, visited, report)
    ensures DistinctIds(report.layers) && DistinctIds(report.missing)
    ensures forall id :: id in report.layers <==> id in visited && id in store
    ensures forall id :: id in report.missing <==> id in visited && id !in store
    ensures forall d :: d in report.dependencies <==>
      exists id, u :: id in visited && id in store && u in LayerUses(store[id]) && d == Resolve(resolve, u)
  {
  }
}
