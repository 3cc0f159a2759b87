/** Extraction of the asset uses of a layer and rewriting of a copy of it, step
    by step: `extract_layer_dependencies` and `rewrite_layer_assets` in
    `layerstack/src/asset_dependencies.rs`. */
module AssetDependencies {
  import AssetOccurrences
  import AssetsInPlace
  import opened AssetUses

  datatype Result<+T, +E> = Ok(value: T) | Err(error: E)

  function Listed(out: seq<Use>): set<Use> { set u | u in out }

  // ---------------------------------------------------------- extraction

  lemma {:induction false} UnionTakes(parts: seq<set<Use>>, i: nat)
    requires i < |parts|
    ensures Union(parts[..i + 1]) == Union(parts[..i]) + parts[i]
  {
    assert parts[..i + 1][..i] == parts[..i];
  }

  lemma {:induction false} EachTakes<T>(xs: seq<T>, uses: T -> set<Use>, i: nat)
    requires i < |xs|
    ensures Each(xs[..i + 1], uses) == Each(xs[..i], uses) + uses(xs[i])
  {
    var parts := seq(|xs|, j requires 0 <= j < |xs| => uses(xs[j]));
    UnionTakes(parts, i);
    assert parts[..i + 1] == seq(|xs[..i + 1]|, j requires 0 <= j < |xs[..i + 1]| => uses(xs[..i + 1][j]));
    assert parts[..i] == seq(|xs[..i]|, j requires 0 <= j < |xs[..i]| => uses(xs[..i][j]));
  }

  lemma {:induction false} EachNone<T>(xs: seq<T>, uses: T -> set<Use>)
    ensures Each(xs[..0], uses) == {}
  {
  }

  lemma {:induction false} EachAll<T>(xs: seq<T>, uses: T -> set<Use>)
    ensures Each(xs[..|xs|], uses) == Each(xs, uses)
  {
    assert xs[..|xs|] == xs;
  }

  /** Appends a use, unless it is empty and links to no other layer. */
  method Push(out: seq<Use>, p: Place, identifier: string, kind: Kind, target: Option<LayerId>) returns (all: seq<Use>)
    ensures Listed(all) == Listed(out) + Pushed(p, identifier, kind, target)
  {
    all := out;
    if identifier != "" || Hints(p.layer, target) {
      all := all + [Dependency(p, identifier, kind, target)];
    }
  }

  method ExtractValue(v: Value, p: Place, clip: bool, out: seq<Use>) returns (all: seq<Use>)
    ensures Listed(all) == Listed(out) + ValueUses(v, p, clip)
    decreases v
  {
    hide Listed, Union, Pushed;
    all := out;
    match v
    case Asset(asset) => all := Push(all, p, asset, AssetValue, None);
    case Array(items) =>
      ghost var parts := ItemsUses(items, p, clip);
      UnionNone(parts);
      for i := 0 to |items|
        invariant Listed(all) == Listed(out) + Union(parts[..i])
      {
        all := ExtractValue(items[i], p, clip, all);
        UnionTakes(parts, i);
      }
    case Dictionary(entries) =>
      ghost var parts := EntriesUses(entries, p, clip);
      UnionNone(parts);
      for i := 0 to |entries|
        invariant Listed(all) == Listed(out) + Union(parts[..i])
      {
        all := ExtractEntry(entries[i], p, clip, all);
        UnionTakes(parts, i);
      }
    case ArrayEdit(ops) => all := ExtractOps(ops, p, clip, all);
    case TypedArrayEdit(ops, _) => all := ExtractOps(ops, p, clip, all);
    case _ =>
  }

  lemma {:induction false} UnionNone(parts: seq<set<Use>>)
    ensures Union(parts[..0]) == {} && parts[..|parts|] == parts
  {
  }

  method ExtractEntry(e: Entry, p: Place, clip: bool, out: seq<Use>) returns (all: seq<Use>)
    ensures Listed(all) == Listed(out) + EntryUses(e, p, clip)
    decreases e
  {
    hide Listed, Pushed;
    all := out;
    if e.value.Plain? {
      var v := e.value.value;
      if clip && e.key == "templateAssetPath" {
        if v.Text? { all := Push(all, p, v.text, ClipTemplate, None); }
      } else {
        all := ExtractValue(v, p, clip, all);
      }
    }
  }

  method ExtractOps(ops: seq<EditOp>, p: Place, clip: bool, out: seq<Use>) returns (all: seq<Use>)
    ensures Listed(all) == Listed(out) + Union(OpsUses(ops, p, clip))
    decreases ops
  {
    hide Listed, Union;
    all := out;
    ghost var parts := OpsUses(ops, p, clip);
    UnionNone(parts);
    for i := 0 to |ops|
      invariant Listed(all) == Listed(out) + Union(parts[..i])
    {
      var v := Literals(ops[i]);
      if v.Some? { all := ExtractValue(v.value, p, clip, all); }
      UnionTakes(parts, i);
    }
  }

  method ExtractFields(fields: seq<Entry>, p: Place, clip: bool, out: seq<Use>) returns (all: seq<Use>)
    ensures Listed(all) == Listed(out) + Each(fields, FieldUses(p, clip))
  {
    hide Listed, Each;
    all := out;
    EachNone(fields, FieldUses(p, clip));
    for i := 0 to |fields|
      invariant Listed(all) == Listed(out) + Each(fields[..i], FieldUses(p, clip))
    {
      if fields[i].value.Plain? {
        all := ExtractValue(fields[i].value.value, p.(field := Some(fields[i].key)), clip, all);
      }
      EachTakes(fields, FieldUses(p, clip), i);
    }
    EachAll(fields, FieldUses(p, clip));
  }

  method ExtractInfo(entries: seq<Entry>, p: Place, out: seq<Use>) returns (all: seq<Use>)
    ensures Listed(all) == Listed(out) + Each(entries, InfoUses(p))
  {
    hide Listed, Each, Pushed;
    all := out;
    EachNone(entries, InfoUses(p));
    for i := 0 to |entries|
      invariant Listed(all) == Listed(out) + Each(entries[..i], InfoUses(p))
    {
      if entries[i].value.Plain? {
        var v := entries[i].value.value;
        if entries[i].key == "identifier" && v.Asset? {
          all := Push(all, p, v.asset, Identity, None);
        } else {
          all := ExtractValue(v, p, false, all);
        }
      }
      EachTakes(entries, InfoUses(p), i);
    }
    EachAll(entries, InfoUses(p));
  }

  method ExtractPrimFields(fields: seq<Entry>, p: Place, out: seq<Use>) returns (all: seq<Use>)
    ensures Listed(all) == Listed(out) + PrimFieldsUses(fields, p)
  {
    hide Listed, Each;
    all := out;
    EachNone(fields, PrimFieldUses(p));
    for i := 0 to |fields|
      invariant Listed(all) == Listed(out) + Each(fields[..i], PrimFieldUses(p))
    {
      var e := fields[i];
      if IsInfo(e) {
        all := ExtractInfo(e.value.value.entries, p.(field := Some(e.key)), all);
      } else {
        all := ExtractFields([e], p, e.key == "clips", all);
        EachOne(e, FieldUses(p, e.key == "clips"));
      }
      EachTakes(fields, PrimFieldUses(p), i);
    }
    EachAll(fields, PrimFieldUses(p));
  }

  lemma {:induction false} EachOne<T>(x: T, uses: T -> set<Use>)
    ensures Each([x], uses) == uses(x)
  {
    EachTakes([x], uses, 0);
    assert [x][..1] == [x];
    EachNone([x], uses);
  }

  method ExtractProperties(xs: seq<Property>, layer: LayerId, spec: SpecPath, out: seq<Use>) returns (all: seq<Use>)
    ensures Listed(all) == Listed(out) + PropertiesUses(xs, layer, spec)
  {
    hide Listed, Each;
    all := out;
    EachNone(xs, PropertyUses(layer, spec));
    for i := 0 to |xs|
      invariant Listed(all) == Listed(out) + Each(xs[..i], PropertyUses(layer, spec))
    {
      var p := PropertyPlace(layer, spec, xs[i].name);
      ghost var before := all;
      all := ExtractFields(xs[i].metadata, p, false, all);
      if xs[i].standard.Some? {
        all := ExtractValue(xs[i].standard.value, p, false, all);
      }
      all := ExtractSamples(Samples(xs[i].samples), p, all);
      assert Listed(all) == Listed(before) + UsesOfProperty(xs[i], p);
      EachTakes(xs, PropertyUses(layer, spec), i);
    }
    EachAll(xs, PropertyUses(layer, spec));
  }

  method ExtractSamples(xs: seq<Sample>, p: Place, out: seq<Use>) returns (all: seq<Use>)
    ensures Listed(all) == Listed(out) + Each(xs, SampleUses(p))
  {
    hide Listed, Each;
    all := out;
    EachNone(xs, SampleUses(p));
    for i := 0 to |xs|
      invariant Listed(all) == Listed(out) + Each(xs[..i], SampleUses(p))
    {
      all := ExtractValue(xs[i].value, p, false, all);
      EachTakes(xs, SampleUses(p), i);
    }
    EachAll(xs, SampleUses(p));
  }

  method ExtractArcs(ops: ArcOps, p: Place, kind: Kind, out: seq<Use>) returns (all: seq<Use>)
    ensures Listed(all) == Listed(out) + ArcOpsUses(ops, p, kind)
  {
    hide Listed, Each, Items, Pushed;
    all := out;
    var arcs := Items(ops);
    EachNone(arcs, ArcUses(p, kind));
    for i := 0 to |arcs|
      invariant Listed(all) == Listed(out) + Each(arcs[..i], ArcUses(p, kind))
    {
      ghost var before := all;
      all := Push(all, p, Path(arcs[i].asset), kind, Some(arcs[i].layer));
      all := ExtractCustom(arcs[i].customData, p, all);
      assert Listed(all) == Listed(before) + ArcUses(p, kind)(arcs[i]);
      EachTakes(arcs, ArcUses(p, kind), i);
    }
    EachAll(arcs, ArcUses(p, kind));
  }

  method ExtractCustom(entries: seq<Entry>, p: Place, out: seq<Use>) returns (all: seq<Use>)
    ensures Listed(all) == Listed(out) + Each(entries, CustomUses(p))
  {
    hide Listed, Each;
    all := out;
    EachNone(entries, CustomUses(p));
    for i := 0 to |entries|
      invariant Listed(all) == Listed(out) + Each(entries[..i], CustomUses(p))
    {
      if entries[i].value.Plain? { all := ExtractValue(entries[i].value.value, p, false, all); }
      EachTakes(entries, CustomUses(p), i);
    }
    EachAll(entries, CustomUses(p));
  }

  method ExtractOwn(s: Spec, layer: LayerId, at: SpecPath, out: seq<Use>) returns (all: seq<Use>)
    ensures Listed(all) == Listed(out) + OwnUses(s, layer, at)
  {
    hide Listed, PrimFieldsUses, PropertiesUses, ArcOpsUses;
    var p := Place(layer, Some(at), None);
    all := ExtractPrimFields(s.fields, p, out);
    all := ExtractProperties(s.properties, layer, at, all);
    all := ExtractArcs(s.references, p, ReferenceArc, all);
    all := ExtractArcs(s.payloads, p, PayloadArc, all);
  }

  // ------------------------------------------------ branches by a stack

  /** A variant spec still to visit, with the branches it lies in. */
  datatype Branch = Branch(sites: seq<Site>, spec: Spec)

  function BranchUses(layer: LayerId, path: int): Branch -> set<Use> {
    (b: Branch) => TreeUses(b.spec, layer, path, b.sites)
  }

  /** The number of specs in a spec. */
  function Size(s: Spec): nat
    decreases s
  {
    1 + Sizes(s.variants)
  }

  function Sizes(vs: seq<Variant>): nat
    decreases vs, |vs|
  {
    if vs == [] then 0 else Sizes(vs[..|vs| - 1]) + Size(vs[|vs| - 1].spec)
  }

  function TotalSize(pending: seq<Branch>): nat {
    if pending == [] then 0 else TotalSize(pending[..|pending| - 1]) + Size(pending[|pending| - 1].spec)
  }

  /** The branches of the variants of one spec. */
  function Branches(vs: seq<Variant>, path: int, sites: seq<Site>): (r: seq<Branch>)
    ensures |r| == |vs| && forall i :: 0 <= i < |vs| ==> r[i] == Branch(Within(path, sites, vs[i]), vs[i].spec)
  {
    seq(|vs|, i requires 0 <= i < |vs| => Branch(Within(path, sites, vs[i]), vs[i].spec))
  }

  lemma {:induction false} TotalSizeSum(a: seq<Branch>, b: seq<Branch>)
    ensures TotalSize(a + b) == TotalSize(a) + TotalSize(b)
  {
    if b == [] {
      assert a + b == a;
    } else {
      TotalSizeSum(a, b[..|b| - 1]);
      assert (a + b)[..|a + b| - 1] == a + b[..|b| - 1];
    }
  }

  lemma {:induction false} BranchesSize(vs: seq<Variant>, path: int, sites: seq<Site>)
    ensures TotalSize(Branches(vs, path, sites)) == Sizes(vs)
  {
    if vs != [] {
      BranchesSize(vs[..|vs| - 1], path, sites);
      var all := Branches(vs, path, sites);
      assert all[..|all| - 1] == Branches(vs[..|vs| - 1], path, sites);
    }
  }

  lemma {:induction false} EachSum<T>(a: seq<T>, b: seq<T>, uses: T -> set<Use>)
    ensures Each(a + b, uses) == Each(a, uses) + Each(b, uses)
  {
    if b == [] {
      assert a + b == a;
      EachNone(b, uses);
      assert b[..0] == b;
    } else {
      var n := |b| - 1;
      EachSum(a, b[..n], uses);
      EachTakes(b, uses, n);
      EachTakes(a + b, uses, |a| + n);
      EachAll(b, uses);
      EachAll(a + b, uses);
      assert (a + b)[..|a| + n] == a + b[..n];
    }
  }

  lemma {:induction false} EachIsUnion<T>(xs: seq<T>, uses: T -> set<Use>, parts: seq<set<Use>>)
    requires |parts| == |xs| && forall i :: 0 <= i < |xs| ==> parts[i] == uses(xs[i])
    ensures Each(xs, uses) == Union(parts)
  {
    assert parts == seq(|xs|, i requires 0 <= i < |xs| => uses(xs[i]));
  }

  lemma {:induction false} BranchesUses(vs: seq<Variant>, layer: LayerId, path: int, sites: seq<Site>)
    ensures Each(Branches(vs, path, sites), BranchUses(layer, path)) == Union(VariantsUses(vs, layer, path, sites))
  {
    hide Each, Union;
    var (bs, parts) := (Branches(vs, path, sites), VariantsUses(vs, layer, path, sites));
    forall i | 0 <= i < |bs| ensures parts[i] == BranchUses(layer, path)(bs[i]) {
      assert BranchUses(layer, path)(bs[i]) == TreeUses(bs[i].spec, layer, path, bs[i].sites);
    }
    EachIsUnion(bs, BranchUses(layer, path), parts);
  }

  /** Replaces the branch on top of the stack by its own branches. */
  lemma {:induction false} Descends(pending: seq<Branch>, layer: LayerId, path: int)
    requires pending != []
    ensures var (front, b) := (pending[..|pending| - 1], pending[|pending| - 1]);
      var next := front + Branches(b.spec.variants, path, b.sites);
      && TotalSize(next) < TotalSize(pending)
      && Each(pending, BranchUses(layer, path))
        == Each(next, BranchUses(layer, path)) + OwnUses(b.spec, layer, SpecPath(path, b.sites, None))
  {
    hide Each, OwnUses, Union;
    var (front, b) := (pending[..|pending| - 1], pending[|pending| - 1]);
    var nested := Branches(b.spec.variants, path, b.sites);
    TotalSizeSum(front, nested);
    BranchesSize(b.spec.variants, path, b.sites);
    EachSum(front, nested, BranchUses(layer, path));
    EachTakes(pending, BranchUses(layer, path), |pending| - 1);
    EachAll(pending, BranchUses(layer, path));
    BranchesUses(b.spec.variants, layer, path, b.sites);
  }

  /** Visits a prim spec and, by a stack, every variant spec in it. */
  method ExtractPrim(prim: Prim, layer: LayerId, out: seq<Use>) returns (all: seq<Use>)
    ensures Listed(all) == Listed(out) + PrimUses(layer)(prim)
  {
    hide Listed, Each, OwnUses, Union, TotalSize, Branches;
    var path := prim.path;
    all := ExtractOwn(prim.spec, layer, SpecPath(path, prim.outerSites, None), out);
    var pending := Branches(prim.spec.variants, path, prim.outerSites);
    BranchesUses(prim.spec.variants, layer, path, prim.outerSites);
    while pending != []
      invariant Listed(all) + Each(pending, BranchUses(layer, path)) == Listed(out) + PrimUses(layer)(prim)
      decreases TotalSize(pending)
    {
      Descends(pending, layer, path);
      var branch := pending[|pending| - 1];
      pending := pending[..|pending| - 1] + Branches(branch.spec.variants, path, branch.sites);
      all := ExtractOwn(branch.spec, layer, SpecPath(path, branch.sites, None), all);
    }
    EachNone(pending, BranchUses(layer, path));
    assert pending[..0] == pending;
  }

  // ------------------------------------------------------------- a layer

  /** The order uses are sorted in: by layer, spec, field, identifier, kind and
      target, whose handles compare as the interners numbered them. Any strict
      total order will do. */
  type Order = (Use, Use) -> bool

  ghost predicate StrictTotal(before: Order) {
    && (forall u :: !before(u, u))
    && (forall u, v, w :: before(u, v) && before(v, w) ==> before(u, w))
    && (forall u, v :: before(u, v) || before(v, u) || u == v)
  }

  predicate Sorted(out: seq<Use>, before: Order) { forall i, j :: 0 <= i < j < |out| ==> before(out[i], out[j]) }

  lemma {:induction false} Inserts(r: seq<Use>, at: nat, u: Use, before: Order)
    requires at <= |r| && Sorted(r, before)
    requires forall i :: 0 <= i < at ==> before(r[i], u)
    requires forall i :: at <= i < |r| ==> before(u, r[i])
    ensures var now := r[..at] + [u] + r[at..]; Sorted(now, before) && Listed(now) == Listed(r) + {u}
  {
    var now := r[..at] + [u] + r[at..];
    assert r == r[..at] + r[at..];
    forall x ensures x in now <==> x in r || x == u {
      assert x in r <==> x in r[..at] || x in r[at..];
    }
  }

  lemma {:induction false} PlaceOf(r: seq<Use>, at: nat, u: Use, before: Order)
    requires StrictTotal(before) && Sorted(r, before) && at <= |r|
    requires at < |r| ==> before(u, r[at])
    ensures forall i :: at <= i < |r| ==> before(u, r[i])
  {
    forall i | at <= i < |r| ensures before(u, r[i]) {
      assert at < i ==> before(r[at], r[i]);
    }
  }

  /** Puts a use in its place, unless it is there. */
  method Insert(r: seq<Use>, u: Use, before: Order) returns (now: seq<Use>)
    requires StrictTotal(before) && Sorted(r, before)
    ensures Sorted(now, before) && Listed(now) == Listed(r) + {u}
  {
    hide StrictTotal, Sorted, Listed;
    var at := 0;
    while at < |r| && before(r[at], u)
      invariant at <= |r| && forall i :: 0 <= i < at ==> before(r[i], u)
    {
      at := at + 1;
    }
    if at < |r| && r[at] == u {
      Present(r, at, u);
      return r;
    }
    if at < |r| { Totally(r[at], u, before); }
    PlaceOf(r, at, u, before);
    Inserts(r, at, u, before);
    now := r[..at] + [u] + r[at..];
  }

  lemma {:induction false} Present(r: seq<Use>, at: nat, u: Use)
    requires at < |r| && r[at] == u
    ensures Listed(r) == Listed(r) + {u}
  {
  }

  lemma {:induction false} Totally(u: Use, v: Use, before: Order)
    requires StrictTotal(before)
    ensures before(u, v) || before(v, u) || u == v
  {
  }

  /** Sorts the uses and drops those repeated. */
  method SortUses(out: seq<Use>, before: Order) returns (r: seq<Use>)
    requires StrictTotal(before)
    ensures Sorted(r, before) && Listed(r) == Listed(out)
  {
    hide StrictTotal;
    r := [];
    for i := 0 to |out|
      invariant Sorted(r, before) && Listed(r) == Listed(out[..i])
    {
      assert out[..i + 1] == out[..i] + [out[i]];
      r := Insert(r, out[i], before);
    }
    assert out[..|out|] == out;
  }

  /** Lists each use of a layer once, in order. */
  method ExtractLayerDependencies(l: Layer, before: Order) returns (uses: seq<Use>)
    requires StrictTotal(before)
    ensures Sorted(uses, before) && Listed(uses) == LayerUses(l)
    ensures forall u :: u in uses <==> AssetOccurrences.Shown(u) && exists pos :: AssetOccurrences.Occurs(l, pos, u)
  {
    hide Listed, Each, Pushed, TreeUses;
    var p := Place(l.id, None, None);
    var out := [];
    assert Listed(out) == {} by { ListedNone(); }
    EachNone(l.sublayers, SublayerUses(p));
    for i := 0 to |l.sublayers|
      invariant Listed(out) == Each(l.sublayers[..i], SublayerUses(p))
    {
      out := Push(out, p, Path(l.sublayers[i].asset), SublayerArc, Some(l.sublayers[i].layer));
      EachTakes(l.sublayers, SublayerUses(p), i);
    }
    EachAll(l.sublayers, SublayerUses(p));
    out := ExtractFields(l.metadata, p, false, out);
    ghost var front := Listed(out);
    EachNone(l.prims, PrimUses(l.id));
    for i := 0 to |l.prims|
      invariant Listed(out) == front + Each(l.prims[..i], PrimUses(l.id))
    {
      out := ExtractPrim(l.prims[i], l.id, out);
      EachTakes(l.prims, PrimUses(l.id), i);
    }
    EachAll(l.prims, PrimUses(l.id));
    uses := SortUses(out, before);
    ListedOccur(l, uses);
  }

  lemma {:induction false} ListedOccur(l: Layer, uses: seq<Use>)
    requires Listed(uses) == LayerUses(l)
    ensures forall u :: u in uses <==> AssetOccurrences.Shown(u) && exists pos :: AssetOccurrences.Occurs(l, pos, u)
  {
    hide LayerUses, AssetOccurrences.Occurs, AssetOccurrences.Shown;
    forall u ensures u in uses <==> AssetOccurrences.Shown(u) && exists pos :: AssetOccurrences.Occurs(l, pos, u) {
      assert u in uses <==> u in Listed(uses);
      AssetOccurrences.UsesAreOccurrences(l, u);
    }
  }

  lemma {:induction false} ListedNone()
    ensures Listed([]) == {}
  {
  }

  // ----------------------------------------------------------- rewriting

  method RewriteValue(v: Value, p: Place, clip: bool, m: Replacements) returns (now: Value)
    ensures now == NewValue(v, p, clip, m)
    decreases v
  {
    now := v;
    match v
    case Asset(asset) =>
      var key := Dependency(p, asset, AssetValue, None);
      if key in m { now := Asset(m[key]); }
    case Array(items) =>
      var next := items;
      for i := 0 to |items|
        invariant |next| == |items|
        invariant forall j :: 0 <= j < i ==> next[j] == NewValue(items[j], p, clip, m)
        invariant forall j :: i <= j < |items| ==> next[j] == items[j]
      {
        var x := RewriteValue(items[i], p, clip, m);
        next := next[i := x];
      }
      assert next == NewItems(items, p, clip, m);
      now := Array(next);
    case Dictionary(entries) =>
      var next := entries;
      for i := 0 to |entries|
        invariant |next| == |entries|
        invariant forall j :: 0 <= j < i ==> next[j] == NewEntry(entries[j], p, clip, m)
        invariant forall j :: i <= j < |entries| ==> next[j] == entries[j]
      {
        var x := RewriteEntry(entries[i], p, clip, m);
        next := next[i := x];
      }
      assert next == NewEntries(entries, p, clip, m);
      now := Dictionary(next);
    case ArrayEdit(ops) =>
      var next := RewriteEdit(ops, p, clip, m);
      now := ArrayEdit(next);
    case TypedArrayEdit(ops, t) =>
      var program := RewriteEdit(ops, p, clip, m);
      if program != ops { now := TypedArrayEdit(program, t); }
    case _ =>
  }

  method RewriteEntry(e: Entry, p: Place, clip: bool, m: Replacements) returns (now: Entry)
    ensures now == NewEntry(e, p, clip, m)
    decreases e
  {
    now := e;
    if e.value.Plain? {
      var v := e.value.value;
      if clip && e.key == "templateAssetPath" {
        if v.Text? {
          var key := Dependency(p, v.text, ClipTemplate, None);
          if key in m { now := Entry(e.key, Plain(Text(m[key]))); }
        }
      } else {
        var x := RewriteValue(v, p, clip, m);
        now := Entry(e.key, Plain(x));
      }
    }
  }

  method RewriteEdit(ops: seq<EditOp>, p: Place, clip: bool, m: Replacements) returns (now: seq<EditOp>)
    ensures now == NewOps(ops, p, clip, m)
    decreases ops
  {
    now := ops;
    for i := 0 to |ops|
      invariant |now| == |ops|
      invariant forall j :: 0 <= j < i ==> now[j] == NewOp(ops[j], p, clip, m)
      invariant forall j :: i <= j < |ops| ==> now[j] == ops[j]
    {
      var v := Literals(ops[i]);
      if v.Some? {
        var x := RewriteValue(v.value, p, clip, m);
        now := now[i := WithLiteral(ops[i], x)];
      }
    }
  }

  /** The first `n` elements are rewritten. */
  ghost predicate Mapped<T(!new)>(now: seq<T>, xs: seq<T>, n: nat, f: T -> T) {
    |now| == |xs| && n <= |xs|
    && (forall j :: 0 <= j < n ==> now[j] == f(xs[j])) && forall j :: n <= j < |xs| ==> now[j] == xs[j]
  }

  lemma {:induction false} MapsOne<T(!new)>(now: seq<T>, xs: seq<T>, n: nat, f: T -> T)
    requires Mapped(now, xs, n, f) && n < |xs|
    ensures Mapped(now[n := f(xs[n])], xs, n + 1, f)
    ensures f(xs[n]) == xs[n] ==> Mapped(now, xs, n + 1, f)
  {
    assert f(xs[n]) == xs[n] ==> now[n := f(xs[n])] == now;
  }

  lemma {:induction false} MapsAll<T(!new)>(now: seq<T>, xs: seq<T>, f: T -> T)
    requires Mapped(now, xs, |xs|, f)
    ensures now == Map(xs, f)
  {
    assert forall j :: 0 <= j < |xs| ==> now[j] == Map(xs, f)[j];
  }

  method RewriteField(e: Entry, p: Place, clip: bool, m: Replacements) returns (now: Entry)
    ensures now == NewField(p, clip, m)(e)
  {
    now := e;
    if e.value.Plain? {
      var x := RewriteValue(e.value.value, p.(field := Some(e.key)), clip, m);
      now := Entry(e.key, Plain(x));
    }
  }

  method RewriteFields(fields: seq<Entry>, p: Place, m: Replacements) returns (now: seq<Entry>)
    ensures now == Map(fields, NewField(p, false, m))
  {
    hide NewField, Map;
    now := fields;
    for i := 0 to |fields|
      invariant Mapped(now, fields, i, NewField(p, false, m))
    {
      var x := RewriteField(fields[i], p, false, m);
      MapsOne(now, fields, i, NewField(p, false, m));
      now := now[i := x];
    }
    MapsAll(now, fields, NewField(p, false, m));
  }

  method RewriteInfo(entries: seq<Entry>, p: Place, m: Replacements) returns (now: seq<Entry>)
    ensures now == Map(entries, NewInfo(p, m))
  {
    hide Map;
    now := entries;
    for i := 0 to |entries|
      invariant Mapped(now, entries, i, NewInfo(p, m))
    {
      MapsOne(now, entries, i, NewInfo(p, m));
      if entries[i].value.Plain? {
        var v := entries[i].value.value;
        if entries[i].key == "identifier" && v.Asset? {
          var key := Dependency(p, v.asset, Identity, None);
          if key in m { now := now[i := Entry(entries[i].key, Plain(Asset(m[key])))]; }
        } else {
          var x := RewriteValue(v, p, false, m);
          now := now[i := Entry(entries[i].key, Plain(x))];
        }
      }
    }
    MapsAll(now, entries, NewInfo(p, m));
  }

  method RewritePrimFields(fields: seq<Entry>, p: Place, m: Replacements) returns (now: seq<Entry>)
    ensures now == Map(fields, NewPrimField(p, m))
  {
    hide Map;
    now := fields;
    for i := 0 to |fields|
      invariant Mapped(now, fields, i, NewPrimField(p, m))
    {
      MapsOne(now, fields, i, NewPrimField(p, m));
      var e := fields[i];
      if IsInfo(e) {
        var x := RewriteInfo(e.value.value.entries, p.(field := Some(e.key)), m);
        now := now[i := Entry(e.key, Plain(Dictionary(x)))];
      } else {
        var x := RewriteField(e, p, e.key == "clips", m);
        now := now[i := x];
      }
    }
    MapsAll(now, fields, NewPrimField(p, m));
  }

  /** A replacement changes an identifier of the spec `at`. */
  predicate Touches(m: Replacements, at: SpecPath) {
    exists u :: u in m && u.spec == Some(at) && m[u] != u.identifier
  }

  /** A property is left alone when no replacement changes one of its uses. */
  lemma {:induction false} Untouched(x: Property, p: Place, m: Replacements)
    requires Sound(m) && UsesOfProperty(x, p) <= m.Keys && p.spec.Some? && !Touches(m, p.spec.value)
    ensures RewrittenProperty(x, p, m) == x
  {
    hide UsesOfProperty, RewrittenProperty;
    PropertyRewrites(x, p, m);
    forall u | u in UsesOfProperty(x, p) && u in m ensures m[u] == u.identifier { PropertyAt(x, p, u); }
  }

  /** Rewrites properties, leaving alone those no replacement touches and
      storing only what changed in the others. */
  method RewriteProperties(
      xs: seq<Property>, layer: LayerId, spec: SpecPath, m: Replacements) returns (now: seq<Property>)
    requires Sound(m) && PropertiesUses(xs, layer, spec) <= m.Keys
    ensures now == Map(xs, NewProperty(layer, spec, m))
  {
    hide Map, UsesOfProperty, Each, Sound, RewrittenProperty;
    now := xs;
    for i := 0 to |xs|
      invariant Mapped(now, xs, i, NewProperty(layer, spec, m))
    {
      var x := xs[i];
      var p := PropertyPlace(layer, spec, x.name);
      MapsOne(now, xs, i, NewProperty(layer, spec, m));
      OneOfEach(xs, PropertyUses(layer, spec), i, m.Keys);
      if !Touches(m, p.spec.value) {
        Untouched(x, p, m);
        continue;
      }
      var y := RewriteProperty(x, p, m);
      if y != x { now := now[i := y]; }
    }
    MapsAll(now, xs, NewProperty(layer, spec, m));
  }

  lemma {:induction false} OneOfEach<T>(xs: seq<T>, uses: T -> set<Use>, i: nat, all: set<Use>)
    requires i < |xs| && Each(xs, uses) <= all
    ensures uses(xs[i]) <= all
  {
    hide Each;
    forall u | u in uses(xs[i]) ensures u in all { EachIs(xs, uses, u); }
  }

  /** What changes in a property, put in place part by part. */
  method RewriteProperty(x: Property, p: Place, m: Replacements) returns (now: Property)
    ensures now == RewrittenProperty(x, p, m)
  {
    var metadata := RewriteFields(x.metadata, p, m);
    var standard := x.standard;
    if x.standard.Some? {
      var v := RewriteValue(x.standard.value, p, false, m);
      standard := Some(v);
    }
    var samples := x.samples;
    if x.samples.Some? {
      var s := RewriteSamples(x.samples.value, p, m);
      samples := Some(s);
    }
    if metadata == x.metadata && samples == x.samples && standard == x.standard {
      return x;
    }
    now := x;
    if standard != x.standard { now := now.(standard := standard); }
    if metadata != x.metadata { now := now.(metadata := metadata); }
    if samples != x.samples { now := now.(samples := samples); }
  }

  method RewriteSamples(xs: seq<Sample>, p: Place, m: Replacements) returns (now: seq<Sample>)
    ensures now == Map(xs, NewSample(p, m))
  {
    hide Map;
    now := xs;
    for i := 0 to |xs|
      invariant Mapped(now, xs, i, NewSample(p, m))
    {
      MapsOne(now, xs, i, NewSample(p, m));
      var v := RewriteValue(xs[i].value, p, false, m);
      if v != xs[i].value { now := now[i := Sample(xs[i].time, v)]; }
    }
    MapsAll(now, xs, NewSample(p, m));
  }

  method RewriteArcList(xs: seq<Arc>, p: Place, kind: Kind, m: Replacements) returns (now: seq<Arc>)
    ensures now == Map(xs, NewArc(p, kind, m))
  {
    hide Map;
    now := xs;
    for i := 0 to |xs|
      invariant Mapped(now, xs, i, NewArc(p, kind, m))
    {
      MapsOne(now, xs, i, NewArc(p, kind, m));
      var arc := xs[i];
      var text := Path(arc.asset);
      var key := Dependency(p, text, kind, Some(arc.layer));
      if key in m && m[key] != text { arc := arc.(asset := Some(m[key])); }
      var custom := RewriteCustom(arc.customData, p, m);
      now := now[i := arc.(customData := custom)];
    }
    MapsAll(now, xs, NewArc(p, kind, m));
  }

  method RewriteCustom(entries: seq<Entry>, p: Place, m: Replacements) returns (now: seq<Entry>)
    ensures now == Map(entries, NewCustom(p, m))
  {
    hide Map;
    now := entries;
    for i := 0 to |entries|
      invariant Mapped(now, entries, i, NewCustom(p, m))
    {
      MapsOne(now, entries, i, NewCustom(p, m));
      if entries[i].value.Plain? {
        var v := RewriteValue(entries[i].value.value, p, false, m);
        now := now[i := Entry(entries[i].key, Plain(v))];
      }
    }
    MapsAll(now, entries, NewCustom(p, m));
  }

  method RewriteArcs(ops: ArcOps, p: Place, kind: Kind, m: Replacements) returns (now: ArcOps)
    ensures now == NewArcOps(ops, p, kind, m)
  {
    hide Map, NewArc;
    now := ops;
    if ops.explicitly.Some? {
      var arcs := RewriteArcList(ops.explicitly.value, p, kind, m);
      now := now.(explicitly := Some(arcs));
    }
    var prepend := RewriteArcList(ops.prepend, p, kind, m);
    var append := RewriteArcList(ops.append, p, kind, m);
    var delete := RewriteArcList(ops.delete, p, kind, m);
    var add := RewriteArcList(ops.add, p, kind, m);
    var reorder := RewriteArcList(ops.reorder, p, kind, m);
    now := now.(prepend := prepend, append := append, delete := delete, add := add, reorder := reorder);
  }

  /** Rewrites a spec and, by recursion, the variant specs in it. */
  method RewriteSpec(s: Spec, layer: LayerId, path: int, sites: seq<Site>, m: Replacements) returns (now: Spec)
    requires Sound(m) && TreeUses(s, layer, path, sites) <= m.Keys
    ensures now == NewSpec(s, layer, path, sites, m)
    decreases s
  {
    hide Map, Sound, Each, PrimFieldsUses, PropertiesUses, ArcOpsUses, Union, NewPrimField, NewProperty, NewArcOps;
    var at := SpecPath(path, sites, None);
    var p := Place(layer, Some(at), None);
    var fields := RewritePrimFields(s.fields, p, m);
    var properties := RewriteProperties(s.properties, layer, at, m);
    var references := RewriteArcs(s.references, p, ReferenceArc, m);
    var payloads := RewriteArcs(s.payloads, p, PayloadArc, m);
    var variants := RewriteVariants(s.variants, layer, path, sites, m);
    now := Spec(fields, properties, references, payloads, variants, s.rest);
  }

  method RewriteVariants(vs: seq<Variant>, layer: LayerId, path: int, sites: seq<Site>, m: Replacements)
    returns (now: seq<Variant>)
    requires Sound(m) && Union(VariantsUses(vs, layer, path, sites)) <= m.Keys
    ensures now == NewVariants(vs, layer, path, sites, m)
    decreases vs
  {
    hide Sound, Union, TreeUses, NewSpec;
    now := vs;
    UnionWithin(VariantsUses(vs, layer, path, sites), m.Keys);
    for i := 0 to |vs|
      invariant |now| == |vs|
      invariant forall j :: 0 <= j < i ==> now[j] == NewVariants(vs, layer, path, sites, m)[j]
      invariant forall j :: i <= j < |vs| ==> now[j] == vs[j]
    {
      var x := RewriteSpec(vs[i].spec, layer, path, Within(path, sites, vs[i]), m);
      now := now[i := Variant(vs[i].within, vs[i].name, x)];
    }
  }

  method RewriteSublayers(xs: seq<Sublayer>, p: Place, m: Replacements) returns (now: seq<Sublayer>)
    ensures now == Map(xs, NewSublayer(p, m))
  {
    hide Map;
    now := xs;
    for i := 0 to |xs|
      invariant Mapped(now, xs, i, NewSublayer(p, m))
    {
      MapsOne(now, xs, i, NewSublayer(p, m));
      var text := Path(xs[i].asset);
      var key := Dependency(p, text, SublayerArc, Some(xs[i].layer));
      if key in m && m[key] != text { now := now[i := xs[i].(asset := Some(m[key]))]; }
    }
    MapsAll(now, xs, NewSublayer(p, m));
  }

  method RewritePrims(xs: seq<Prim>, layer: LayerId, m: Replacements) returns (now: seq<Prim>)
    requires Sound(m) && Each(xs, PrimUses(layer)) <= m.Keys
    ensures now == Map(xs, NewPrim(layer, m))
  {
    hide Map, Sound, Each, TreeUses, NewSpec;
    now := xs;
    for i := 0 to |xs|
      invariant Mapped(now, xs, i, NewPrim(layer, m))
    {
      MapsOne(now, xs, i, NewPrim(layer, m));
      OneOfEach(xs, PrimUses(layer), i, m.Keys);
      var x := RewriteSpec(xs[i].spec, layer, xs[i].path, xs[i].outerSites, m);
      now := now[i := xs[i].(spec := x)];
    }
    MapsAll(now, xs, NewPrim(layer, m));
  }

  /** A copy of a layer, and whether it counts as changed. */
  datatype Rewritten = Rewritten(layer: Layer, touched: bool)

  /** Replaces every use of a layer by one answer asked for each in order, or
      stops at the first answer that fails. */
  method RewriteLayerAssets<E>(l: Layer, rewrite: Use -> Result<string, E>, before: Order) returns (r: Result<Rewritten, E>)
    requires StrictTotal(before)
    ensures r.Err? <==> exists u :: u in LayerUses(l) && rewrite(u).Err?
    ensures r.Err? ==> exists u ::
      && u in LayerUses(l) && rewrite(u) == Err(r.error)
      && (forall w :: w in LayerUses(l) && before(w, u) ==> rewrite(w).Ok?)
    ensures r.Ok? ==>
      && (forall x :: x in LayerUses(r.value.layer) <==>
        exists u :: u in LayerUses(l) && rewrite(u).Ok? && x == u.(identifier := rewrite(u).value) && Visible(x))
      && (r.value.layer == l <==> forall u :: u in LayerUses(l) ==> rewrite(u) == Ok(u.identifier))
      && (r.value.touched <==> r.value.layer != l)
      && forall pos, x :: AssetOccurrences.Occurs(r.value.layer, pos, x) <==>
        exists u :: AssetOccurrences.Occurs(l, pos, u) && AnsweredBy(rewrite, u, x)
  {
    hide LayerUses, NewLayer, StrictTotal, Sorted, AssetOccurrences.Occurs, AnsweredBy;
    var uses := ExtractLayerDependencies(l, before);
    var m: Replacements := map[];
    for i := 0 to |uses|
      invariant m.Keys == Listed(uses[..i])
      invariant forall u :: u in m ==> rewrite(u) == Ok(m[u])
    {
      assert uses[i] in Listed(uses);
      assert Listed(uses[..i + 1]) == Listed(uses[..i]) + {uses[i]};
      var answer := rewrite(uses[i]);
      if answer.Err? {
        BeforeIs(uses, i, before);
        return Err(answer.error);
      }
      m := m[uses[i] := answer.value];
    }
    assert uses[..|uses|] == uses;
    forall u | u in m ensures Visible(u) { LayerAt(l, u); }
    ExtractedAfterRewriting(l, m);
    var copy := RewriteLayer(l, m);
    AnsweredInPlace(l, m, rewrite);
    r := Ok(Rewritten(copy, exists u :: u in m && u.identifier != m[u]));
  }

  /** `x` is `u` with the answer for its identifier; what is not shown is not asked
      for. */
  predicate AnsweredBy<E(==)>(rewrite: Use -> Result<string, E>, u: Use, x: Use) {
    if AssetOccurrences.Shown(u) then x == u.(identifier := x.identifier) && rewrite(u) == Ok(x.identifier) else x == u
  }

  lemma {:induction false} AnsweredInPlace<E>(l: Layer, m: Replacements, rewrite: Use -> Result<string, E>)
    requires m.Keys == LayerUses(l) && forall u :: u in m ==> rewrite(u) == Ok(m[u])
    ensures forall pos, x :: AssetOccurrences.Occurs(NewLayer(l, m), pos, x) <==>
      exists u :: AssetOccurrences.Occurs(l, pos, u) && AnsweredBy(rewrite, u, x)
  {
    hide LayerUses, NewLayer, AssetOccurrences.Occurs, AssetOccurrences.Shown;
    forall pos, u, x | AssetOccurrences.Occurs(l, pos, u) ensures x == AssetsInPlace.Renamed(u, m) <==> AnsweredBy(rewrite, u, x) {
      AssetOccurrences.UsesAreOccurrences(l, u);
    }
    forall pos, x ensures AssetOccurrences.Occurs(NewLayer(l, m), pos, x) <==>
        exists u :: AssetOccurrences.Occurs(l, pos, u) && AnsweredBy(rewrite, u, x) {
      AssetsInPlace.RewrittenInPlace(l, m, pos, x);
    }
  }

  lemma {:induction false} NotBoth(u: Use, v: Use, before: Order)
    requires StrictTotal(before) && before(u, v)
    ensures !before(v, u) && u != v
  {
    assert before(v, u) ==> before(u, u);
  }

  lemma {:induction false} BeforeIs(uses: seq<Use>, i: nat, before: Order)
    requires StrictTotal(before) && Sorted(uses, before) && i < |uses|
    ensures forall w :: w in Listed(uses) && before(w, uses[i]) ==> w in Listed(uses[..i])
  {
    forall w | w in Listed(uses) && before(w, uses[i]) ensures w in Listed(uses[..i]) {
      var j :| 0 <= j < |uses| && uses[j] == w;
      NotBoth(w, uses[i], before);
      assert uses[..i][j] == w;
    }
  }

  method RewriteLayer(l: Layer, m: Replacements) returns (copy: Layer)
    requires Sound(m) && LayerUses(l) <= m.Keys
    ensures copy == NewLayer(l, m)
  {
    hide Map, Sound, Each, NewPrim, NewField, NewSublayer;
    var p := Place(l.id, None, None);
    var sublayers := RewriteSublayers(l.sublayers, p, m);
    var metadata := RewriteFields(l.metadata, p, m);
    var prims := RewritePrims(l.prims, l.id, m);
    copy := Layer(l.id, sublayers, metadata, prims, l.rest);
  }
}
