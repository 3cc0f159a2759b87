/** The asset identifiers a layer authors and the rewriting of them, as
    functions of the layer: `extract_layer_dependencies` and
    `rewrite_layer_assets` in `layerstack/src/asset_dependencies.rs`. */
module AssetUses {

  datatype Option<+T> = None | Some(value: T)

  type LayerId = int

  /** Stands for a layer that is not resolved. */
  const UNRESOLVED: LayerId := 0xffff_ffff_ffff_ffff

  // ------------------------------------------------------------- layers

  datatype Value =
    | Asset(asset: string)
    | Text(text: string)
    | Array(items: seq<Value>)
    | Dictionary(entries: seq<Entry>)
    | ArrayEdit(ops: seq<EditOp>)
    | TypedArrayEdit(program: seq<EditOp>, valueType: int)
    | Other(id: int)

  /** A plain value, or a field that is not one. */
  datatype FieldValue = Plain(value: Value) | Special(id: int)

  datatype Entry = Entry(key: string, value: FieldValue)

  datatype Operand = Literal(value: Value) | Index(at: int)

  datatype EditOp =
    | Write(src: Operand, to: int)
    | Insert(src: Operand, to: int)
    | MinSizeFill(size: int, fill: Value)
    | ResizeFill(size: int, fill: Value)
    | OtherOp(id: int)

  datatype Arc = Arc(asset: Option<string>, layer: LayerId, customData: seq<Entry>, rest: int)

  datatype ArcOps = ArcOps(
    explicitly: Option<seq<Arc>>, prepend: seq<Arc>, append: seq<Arc>, delete: seq<Arc>, add: seq<Arc>, reorder: seq<Arc>)

  datatype Sample = Sample(time: real, value: Value)

  datatype Property = Property(name: string, metadata: seq<Entry>, standard: Option<Value>, samples: Option<seq<Sample>>, rest: int)

  /** The opinions of a prim spec or of a variant spec, with its variants. */
  datatype Spec = Spec(
    fields: seq<Entry>, properties: seq<Property>, references: ArcOps, payloads: ArcOps, variants: seq<Variant>, rest: int)

  datatype Variant = Variant(within: string, name: string, spec: Spec)

  datatype Site = Site(host: int, within: string, variant: string)

  datatype Prim = Prim(path: int, outerSites: seq<Site>, spec: Spec)

  datatype Sublayer = Sublayer(asset: Option<string>, layer: LayerId, rest: int)

  /** `prims` holds the prims of the layer and those of its variants. */
  datatype Layer = Layer(id: LayerId, sublayers: seq<Sublayer>, metadata: seq<Entry>, prims: seq<Prim>, rest: int)

  // --------------------------------------------------------------- uses

  datatype Kind = SublayerArc | ReferenceArc | PayloadArc | AssetValue | Identity | ClipTemplate

  datatype SpecPath = SpecPath(path: int, sites: seq<Site>, property: Option<string>)

  /** One authored use of an identifier. */
  datatype Use = Use(
    layer: LayerId, spec: Option<SpecPath>, field: Option<string>, identifier: string, kind: Kind, hint: Option<LayerId>)

  /** Where a value is authored. */
  datatype Place = Place(layer: LayerId, spec: Option<SpecPath>, field: Option<string>)

  type Replacements = map<Use, string>

  /** A target other than the layer itself that is resolved. */
  predicate Hints(layer: LayerId, target: Option<LayerId>) {
    target.Some? && target.value != layer && target.value != UNRESOLVED
  }

  function Dependency(p: Place, identifier: string, kind: Kind, target: Option<LayerId>): Use {
    Use(p.layer, p.spec, p.field, identifier, kind, if Hints(p.layer, target) then target else None)
  }

  /** Empty identifiers count only as unnamed links to another layer. */
  predicate Visible(u: Use) { u.identifier != "" || u.hint.Some? }

  function Pushed(p: Place, identifier: string, kind: Kind, target: Option<LayerId>): set<Use> {
    if identifier != "" || Hints(p.layer, target) then {Dependency(p, identifier, kind, target)} else {}
  }

  function Union(parts: seq<set<Use>>): set<Use> {
    if parts == [] then {} else Union(parts[..|parts| - 1]) + parts[|parts| - 1]
  }

  function ValueUses(v: Value, p: Place, clip: bool): set<Use>
    decreases v
  {
    match v
    case Asset(asset) => Pushed(p, asset, AssetValue, None)
    case Array(items) => Union(ItemsUses(items, p, clip))
    case Dictionary(entries) => Union(EntriesUses(entries, p, clip))
    case ArrayEdit(ops) => Union(OpsUses(ops, p, clip))
    case TypedArrayEdit(ops, _) => Union(OpsUses(ops, p, clip))
    case _ => {}
  }

  function EntryUses(e: Entry, p: Place, clip: bool): set<Use>
    decreases e
  {
    if e.value.Special? then {}
    else if clip && e.key == "templateAssetPath" then
      if e.value.value.Text? then Pushed(p, e.value.value.text, ClipTemplate, None) else {}
    else ValueUses(e.value.value, p, clip)
  }

  /** The literal of an edit, if it has one. */
  function Literals(op: EditOp): (v: Option<Value>)
    ensures v.Some? ==> v.value < op
  {
    match op
    case Write(Literal(v), _) => Some(v)
    case Insert(Literal(v), _) => Some(v)
    case MinSizeFill(_, v) => Some(v)
    case ResizeFill(_, v) => Some(v)
    case _ => None
  }

  function OpUses(op: EditOp, p: Place, clip: bool): set<Use>
    decreases op
  {
    var v := Literals(op);
    if v.Some? then ValueUses(v.value, p, clip) else {}
  }

  function ItemsUses(items: seq<Value>, p: Place, clip: bool): (r: seq<set<Use>>)
    ensures |r| == |items| && forall i :: 0 <= i < |r| ==> r[i] == ValueUses(items[i], p, clip)
    decreases items
  {
    seq(|items|, i requires 0 <= i < |items| => ValueUses(items[i], p, clip))
  }

  function EntriesUses(entries: seq<Entry>, p: Place, clip: bool): (r: seq<set<Use>>)
    ensures |r| == |entries| && forall i :: 0 <= i < |r| ==> r[i] == EntryUses(entries[i], p, clip)
    decreases entries
  {
    seq(|entries|, i requires 0 <= i < |entries| => EntryUses(entries[i], p, clip))
  }

  function OpsUses(ops: seq<EditOp>, p: Place, clip: bool): (r: seq<set<Use>>)
    ensures |r| == |ops| && forall i :: 0 <= i < |r| ==> r[i] == OpUses(ops[i], p, clip)
    decreases ops
  {
    seq(|ops|, i requires 0 <= i < |ops| => OpUses(ops[i], p, clip))
  }

  // ------------------------------------------------------------ rewriting

  function NewText(p: Place, text: string, kind: Kind, m: Replacements): string {
    var key := Dependency(p, text, kind, None);
    if key in m then m[key] else text
  }

  function NewValue(v: Value, p: Place, clip: bool, m: Replacements): Value
    decreases v
  {
    match v
    case Asset(asset) => Asset(NewText(p, asset, AssetValue, m))
    case Array(items) => Array(NewItems(items, p, clip, m))
    case Dictionary(entries) =>
      Dictionary(NewEntries(entries, p, clip, m))
    case ArrayEdit(ops) => ArrayEdit(NewOps(ops, p, clip, m))
    case TypedArrayEdit(ops, t) => TypedArrayEdit(NewOps(ops, p, clip, m), t)
    case _ => v
  }

  function NewEntry(e: Entry, p: Place, clip: bool, m: Replacements): Entry
    decreases e
  {
    if e.value.Special? then e
    else if clip && e.key == "templateAssetPath" then
      if e.value.value.Text? then Entry(e.key, Plain(Text(NewText(p, e.value.value.text, ClipTemplate, m)))) else e
    else Entry(e.key, Plain(NewValue(e.value.value, p, clip, m)))
  }

  function WithLiteral(op: EditOp, v: Value): EditOp
    requires Literals(op).Some?
  {
    match op
    case Write(_, to) => Write(Literal(v), to)
    case Insert(_, to) => Insert(Literal(v), to)
    case MinSizeFill(size, _) => MinSizeFill(size, v)
    case ResizeFill(size, _) => ResizeFill(size, v)
  }

  function NewOp(op: EditOp, p: Place, clip: bool, m: Replacements): EditOp
    decreases op
  {
    var v := Literals(op);
    if v.Some? then WithLiteral(op, NewValue(v.value, p, clip, m)) else op
  }

  function NewItems(items: seq<Value>, p: Place, clip: bool, m: Replacements): (r: seq<Value>)
    ensures |r| == |items| && forall i :: 0 <= i < |r| ==> r[i] == NewValue(items[i], p, clip, m)
    decreases items
  {
    seq(|items|, i requires 0 <= i < |items| => NewValue(items[i], p, clip, m))
  }

  function NewEntries(entries: seq<Entry>, p: Place, clip: bool, m: Replacements): (r: seq<Entry>)
    ensures |r| == |entries| && forall i :: 0 <= i < |r| ==> r[i] == NewEntry(entries[i], p, clip, m)
    decreases entries
  {
    seq(|entries|, i requires 0 <= i < |entries| => NewEntry(entries[i], p, clip, m))
  }

  function NewOps(ops: seq<EditOp>, p: Place, clip: bool, m: Replacements): (r: seq<EditOp>)
    ensures |r| == |ops| && forall i :: 0 <= i < |r| ==> r[i] == NewOp(ops[i], p, clip, m)
    decreases ops
  {
    seq(|ops|, i requires 0 <= i < |ops| => NewOp(ops[i], p, clip, m))
  }

  // ------------------------------------------------- what rewriting does

  /** Every replaced use is one that extraction lists. */
  ghost predicate Sound(m: Replacements) { forall u :: u in m ==> Visible(u) }

  /** The uses with their identifiers replaced; a replacement by nothing leaves
      a use only where a link to another layer remains. */
  ghost function Image(uses: set<Use>, m: Replacements): set<Use> {
    set u | u in uses && u in m && Visible(u.(identifier := m[u])) :: u.(identifier := m[u])
  }

  /** No replacement changes one of `uses`. */
  ghost predicate Fixed(uses: set<Use>, m: Replacements) {
    forall u :: u in uses && u in m ==> m[u] == u.identifier
  }

  /** Rewriting turns `before` into `after`, and changes nothing (`same`)
      exactly when no replacement changes one of `before`. */
  ghost predicate Rewrites(before: set<Use>, after: set<Use>, same: bool, m: Replacements) {
    after == Image(before, m) && (same <==> Fixed(before, m))
  }

  lemma {:induction false} UnionIs(parts: seq<set<Use>>, u: Use)
    ensures u in Union(parts) <==> exists i :: 0 <= i < |parts| && u in parts[i]
  {
    if parts != [] {
      var (front, last) := (parts[..|parts| - 1], parts[|parts| - 1]);
      UnionIs(front, u);
      if i :| 0 <= i < |front| && u in front[i] { assert u in parts[i]; }
      if u in last { assert u in parts[|parts| - 1]; }
    }
  }

  lemma {:induction false} UnionWithin(parts: seq<set<Use>>, all: set<Use>)
    ensures Union(parts) <= all <==> forall i :: 0 <= i < |parts| ==> parts[i] <= all
  {
    forall i, u | 0 <= i < |parts| && u in parts[i] ensures u in Union(parts) { UnionIs(parts, u); }
    forall u | u in Union(parts) ensures exists i :: 0 <= i < |parts| && u in parts[i] { UnionIs(parts, u); }
  }

  lemma {:induction false} ImageOfSum(a: set<Use>, b: set<Use>, m: Replacements)
    ensures Image(a + b, m) == Image(a, m) + Image(b, m)
    ensures Fixed(a + b, m) <==> Fixed(a, m) && Fixed(b, m)
  {
    forall x ensures x in Image(a + b, m) <==> x in Image(a, m) + Image(b, m) {
      if x in Image(a + b, m) {
        var u :| u in a + b && u in m && Visible(u.(identifier := m[u])) && x == u.(identifier := m[u]);
        assert u in a ==> x in Image(a, m);
        assert u in b ==> x in Image(b, m);
      }
    }
    assert Fixed(a, m) && Fixed(b, m) ==> forall u :: u in a + b && u in m ==> m[u] == u.identifier;
    assert Fixed(a + b, m) ==> forall u :: u in a && u in m ==> u in a + b;
    assert Fixed(a + b, m) ==> forall u :: u in b && u in m ==> u in a + b;
  }

  lemma {:induction false} SumRewrites(
      a: set<Use>, b: set<Use>, c: set<Use>, d: set<Use>, sameA: bool, sameB: bool, m: Replacements)
    requires Rewrites(a, c, sameA, m) && Rewrites(b, d, sameB, m)
    ensures Rewrites(a + b, c + d, sameA && sameB, m)
  {
    ImageOfSum(a, b, m);
  }

  lemma {:induction false} NoneRewrites(m: Replacements)
    ensures Rewrites({}, {}, true, m)
  {
  }

  /** Parts rewritten one by one are rewritten together. */
  lemma {:induction false} UnionRewrites(before: seq<set<Use>>, after: seq<set<Use>>, same: seq<bool>, m: Replacements)
    requires |before| == |after| == |same|
    requires forall i :: 0 <= i < |before| ==> Rewrites(before[i], after[i], same[i], m)
    ensures Rewrites(Union(before), Union(after), forall i :: 0 <= i < |same| ==> same[i], m)
  {
    hide Rewrites;
    if before == [] {
      NoneRewrites(m);
    } else {
      var n := |before| - 1;
      UnionRewrites(before[..n], after[..n], same[..n], m);
      SumRewrites(Union(before[..n]), before[n], Union(after[..n]), after[n],
                  forall i :: 0 <= i < n ==> same[..n][i], same[n], m);
      assert (forall i :: 0 <= i < |same| ==> same[i]) <==> (forall i :: 0 <= i < n ==> same[..n][i]) && same[n];
    }
  }

  /** One identifier. */
  lemma {:induction false} TextRewrites(p: Place, text: string, kind: Kind, m: Replacements)
    requires Sound(m) && Pushed(p, text, kind, None) <= m.Keys
    ensures var now := NewText(p, text, kind, m);
      Rewrites(Pushed(p, text, kind, None), Pushed(p, now, kind, None), now == text, m)
  {
    var key := Dependency(p, text, kind, None);
    if Visible(key) {
      assert Pushed(p, text, kind, None) == {key};
      assert key in m;
    }
    ImageOfPushed(p, text, kind, None, m);
  }

  lemma {:induction false} ImageOfPushed(p: Place, text: string, kind: Kind, target: Option<LayerId>, m: Replacements)
    requires Sound(m) && Pushed(p, text, kind, target) <= m.Keys
    ensures var key := Dependency(p, text, kind, target);
      Rewrites(Pushed(p, text, kind, target), Pushed(p, if key in m then m[key] else text, kind, target),
               key in m ==> m[key] == text, m)
  {
    var key := Dependency(p, text, kind, target);
    if Visible(key) {
      assert Pushed(p, text, kind, target) == {key} && key in {key};
      var moved := key.(identifier := m[key]);
      assert moved == Dependency(p, m[key], kind, target);
      assert Visible(moved) ==> moved in Image({key}, m);
    } else {
      assert key !in m;
    }
  }

  lemma {:induction false} ValueRewrites(v: Value, p: Place, clip: bool, m: Replacements)
    requires Sound(m) && ValueUses(v, p, clip) <= m.Keys
    ensures var now := NewValue(v, p, clip, m); Rewrites(ValueUses(v, p, clip), ValueUses(now, p, clip), now == v, m)
    decreases v
  {
    hide Rewrites, Sound, Union, Pushed, NewText;
    match v
    case Asset(asset) => TextRewrites(p, asset, AssetValue, m);
    case Array(items) => ItemsRewrite(items, p, clip, m);
    case Dictionary(entries) => EntriesRewrite(entries, p, clip, m);
    case ArrayEdit(ops) => OpsRewrite(ops, p, clip, m);
    case TypedArrayEdit(ops, _) => OpsRewrite(ops, p, clip, m);
    case _ => NoneRewrites(m);
  }

  lemma {:induction false} ItemsRewrite(items: seq<Value>, p: Place, clip: bool, m: Replacements)
    requires Sound(m) && Union(ItemsUses(items, p, clip)) <= m.Keys
    ensures var now := NewItems(items, p, clip, m);
      Rewrites(Union(ItemsUses(items, p, clip)), Union(ItemsUses(now, p, clip)), now == items, m)
    decreases items
  {
    hide Rewrites, Sound, Union;
    var (before, now) := (ItemsUses(items, p, clip), NewItems(items, p, clip, m));
    var after := ItemsUses(now, p, clip);
    var same := seq(|items|, i requires 0 <= i < |items| => now[i] == items[i]);
    UnionWithin(before, m.Keys);
    forall i | 0 <= i < |items| ensures Rewrites(before[i], after[i], same[i], m) {
      ValueRewrites(items[i], p, clip, m);
    }
    UnionRewrites(before, after, same, m);
    assert (forall i :: 0 <= i < |same| ==> same[i]) <==> now == items;
  }

  lemma {:induction false} EntriesRewrite(entries: seq<Entry>, p: Place, clip: bool, m: Replacements)
    requires Sound(m) && Union(EntriesUses(entries, p, clip)) <= m.Keys
    ensures var now := NewEntries(entries, p, clip, m);
      Rewrites(Union(EntriesUses(entries, p, clip)), Union(EntriesUses(now, p, clip)), now == entries, m)
    decreases entries
  {
    hide Rewrites, Sound, Union;
    var (before, now) := (EntriesUses(entries, p, clip), NewEntries(entries, p, clip, m));
    var after := EntriesUses(now, p, clip);
    var same := seq(|entries|, i requires 0 <= i < |entries| => now[i] == entries[i]);
    UnionWithin(before, m.Keys);
    forall i | 0 <= i < |entries| ensures Rewrites(before[i], after[i], same[i], m) {
      EntryRewrites(entries[i], p, clip, m);
    }
    UnionRewrites(before, after, same, m);
    assert (forall i :: 0 <= i < |same| ==> same[i]) <==> now == entries;
  }

  lemma {:induction false} OpsRewrite(ops: seq<EditOp>, p: Place, clip: bool, m: Replacements)
    requires Sound(m) && Union(OpsUses(ops, p, clip)) <= m.Keys
    ensures var now := NewOps(ops, p, clip, m);
      Rewrites(Union(OpsUses(ops, p, clip)), Union(OpsUses(now, p, clip)), now == ops, m)
    decreases ops
  {
    hide Rewrites, Sound, Union;
    var (before, now) := (OpsUses(ops, p, clip), NewOps(ops, p, clip, m));
    var after := OpsUses(now, p, clip);
    var same := seq(|ops|, i requires 0 <= i < |ops| => now[i] == ops[i]);
    UnionWithin(before, m.Keys);
    forall i | 0 <= i < |ops| ensures Rewrites(before[i], after[i], same[i], m) {
      OpRewrites(ops[i], p, clip, m);
    }
    UnionRewrites(before, after, same, m);
    assert (forall i :: 0 <= i < |same| ==> same[i]) <==> now == ops;
  }

  lemma {:induction false} OpRewrites(op: EditOp, p: Place, clip: bool, m: Replacements)
    requires Sound(m) && OpUses(op, p, clip) <= m.Keys
    ensures var now := NewOp(op, p, clip, m); Rewrites(OpUses(op, p, clip), OpUses(now, p, clip), now == op, m)
    decreases op
  {
    var v := Literals(op);
    if v.Some? { ValueRewrites(v.value, p, clip, m); } else { NoneRewrites(m); }
  }

  lemma {:induction false} EntryRewrites(e: Entry, p: Place, clip: bool, m: Replacements)
    requires Sound(m) && EntryUses(e, p, clip) <= m.Keys
    ensures var now := NewEntry(e, p, clip, m); Rewrites(EntryUses(e, p, clip), EntryUses(now, p, clip), now == e, m)
    decreases e
  {
    if e.value.Special? {
      NoneRewrites(m);
    } else if clip && e.key == "templateAssetPath" {
      if e.value.value.Text? { TextRewrites(p, e.value.value.text, ClipTemplate, m); } else { NoneRewrites(m); }
    } else {
      ValueRewrites(e.value.value, p, clip, m);
    }
  }

  // ------------------------------------------------- lists of parts

  /** The uses of the elements of a list. */
  function Each<T>(xs: seq<T>, uses: T -> set<Use>): set<Use> {
    Union(seq(|xs|, i requires 0 <= i < |xs| => uses(xs[i])))
  }

  function Map<T>(xs: seq<T>, f: T -> T): (r: seq<T>)
    ensures |r| == |xs| && forall i :: 0 <= i < |xs| ==> r[i] == f(xs[i])
  {
    seq(|xs|, i requires 0 <= i < |xs| => f(xs[i]))
  }

  lemma {:induction false} EachIs<T>(xs: seq<T>, uses: T -> set<Use>, u: Use)
    ensures u in Each(xs, uses) <==> exists i :: 0 <= i < |xs| && u in uses(xs[i])
  {
    var parts := seq(|xs|, i requires 0 <= i < |xs| => uses(xs[i]));
    UnionIs(parts, u);
    if i :| 0 <= i < |xs| && u in uses(xs[i]) { assert u in parts[i]; }
    if i :| 0 <= i < |parts| && u in parts[i] { assert u in uses(xs[i]); }
  }

  /** `Rewrites` for one element, by its own functions. */
  ghost predicate RewritesOne<T>(x: T, uses: T -> set<Use>, rewrite: T -> T, m: Replacements) {
    Rewrites(uses(x), uses(rewrite(x)), rewrite(x) == x, m)
  }

  lemma {:induction false} EachRewrites<T>(xs: seq<T>, uses: T -> set<Use>, rewrite: T -> T, m: Replacements)
    requires forall i :: 0 <= i < |xs| && uses(xs[i]) <= m.Keys ==> RewritesOne(xs[i], uses, rewrite, m)
    requires Each(xs, uses) <= m.Keys
    ensures Rewrites(Each(xs, uses), Each(Map(xs, rewrite), uses), Map(xs, rewrite) == xs, m)
  {
    hide Rewrites, Union;
    var now := Map(xs, rewrite);
    var before := seq(|xs|, i requires 0 <= i < |xs| => uses(xs[i]));
    var after := seq(|now|, i requires 0 <= i < |now| => uses(now[i]));
    var same := seq(|xs|, i requires 0 <= i < |xs| => now[i] == xs[i]);
    UnionWithin(before, m.Keys);
    forall i | 0 <= i < |xs| ensures Rewrites(before[i], after[i], same[i], m) {
      assert before[i] <= m.Keys;
      assert RewritesOne(xs[i], uses, rewrite, m);
    }
    UnionRewrites(before, after, same, m);
    assert forall i :: 0 <= i < |xs| ==> same[i] == (now[i] == xs[i]);
    assert (forall i :: 0 <= i < |same| ==> same[i]) ==> now == xs;
    assert now == xs ==> forall i :: 0 <= i < |same| ==> same[i];
  }

  // --------------------------------------------------- fields of a spec

  function FieldUses(p: Place, clip: bool): Entry -> set<Use> {
    (e: Entry) => if e.value.Special? then {} else ValueUses(e.value.value, p.(field := Some(e.key)), clip)
  }

  function NewField(p: Place, clip: bool, m: Replacements): Entry -> Entry {
    (e: Entry) =>
      if e.value.Special? then e else Entry(e.key, Plain(NewValue(e.value.value, p.(field := Some(e.key)), clip, m)))
  }

  /** An entry of `assetInfo`: its `identifier` names the prim itself. */
  function InfoUses(p: Place): Entry -> set<Use> {
    (e: Entry) =>
      if e.value.Special? then {}
      else if e.key == "identifier" && e.value.value.Asset? then Pushed(p, e.value.value.asset, Identity, None)
      else ValueUses(e.value.value, p, false)
  }

  function NewInfo(p: Place, m: Replacements): Entry -> Entry {
    (e: Entry) =>
      if e.value.Special? then e
      else if e.key == "identifier" && e.value.value.Asset? then
        Entry(e.key, Plain(Asset(NewText(p, e.value.value.asset, Identity, m))))
      else Entry(e.key, Plain(NewValue(e.value.value, p, false, m)))
  }

  predicate IsInfo(e: Entry) { e.key == "assetInfo" && e.value.Plain? && e.value.value.Dictionary? }

  function PrimFieldUses(p: Place): Entry -> set<Use> {
    (e: Entry) =>
      if IsInfo(e) then Each(e.value.value.entries, InfoUses(p.(field := Some(e.key))))
      else FieldUses(p, e.key == "clips")(e)
  }

  function NewPrimField(p: Place, m: Replacements): Entry -> Entry {
    (e: Entry) =>
      if IsInfo(e) then Entry(e.key, Plain(Dictionary(Map(e.value.value.entries, NewInfo(p.(field := Some(e.key)), m)))))
      else NewField(p, e.key == "clips", m)(e)
  }

  lemma {:induction false} FieldRewrites(e: Entry, p: Place, clip: bool, m: Replacements)
    requires Sound(m) && FieldUses(p, clip)(e) <= m.Keys
    ensures RewritesOne(e, FieldUses(p, clip), NewField(p, clip, m), m)
  {
    hide Rewrites, Sound, ValueUses, NewValue;
    if e.value.Special? { NoneRewrites(m); } else { ValueRewrites(e.value.value, p.(field := Some(e.key)), clip, m); }
  }

  lemma {:induction false} InfoRewrites(e: Entry, p: Place, m: Replacements)
    requires Sound(m) && InfoUses(p)(e) <= m.Keys
    ensures RewritesOne(e, InfoUses(p), NewInfo(p, m), m)
  {
    hide Rewrites, Sound, ValueUses, NewText, Pushed;
    if e.value.Special? {
      NoneRewrites(m);
    } else if e.key == "identifier" && e.value.value.Asset? {
      TextRewrites(p, e.value.value.asset, Identity, m);
    } else {
      ValueRewrites(e.value.value, p, false, m);
      KeepsKind(e.value.value, p, false, m);
    }
  }

  /** Rewriting keeps the kind of a value. */
  lemma {:induction false} KeepsKind(v: Value, p: Place, clip: bool, m: Replacements)
    ensures var now := NewValue(v, p, clip, m); (now.Asset? <==> v.Asset?) && (now.Dictionary? <==> v.Dictionary?)
  {
  }

  lemma {:induction false} PrimFieldRewrites(e: Entry, p: Place, m: Replacements)
    requires Sound(m) && PrimFieldUses(p)(e) <= m.Keys
    ensures RewritesOne(e, PrimFieldUses(p), NewPrimField(p, m), m)
  {
    hide Rewrites, Sound, ValueUses, NewValue, Each, Map;
    if IsInfo(e) {
      var (entries, at) := (e.value.value.entries, p.(field := Some(e.key)));
      forall i | 0 <= i < |entries| && InfoUses(at)(entries[i]) <= m.Keys
        ensures RewritesOne(entries[i], InfoUses(at), NewInfo(at, m), m) {
        InfoRewrites(entries[i], at, m);
      }
      EachRewrites(entries, InfoUses(at), NewInfo(at, m), m);
      var now := NewPrimField(p, m)(e);
      assert IsInfo(now) && now.value.value.entries == Map(entries, NewInfo(at, m));
      assert now == e <==> now.value.value.entries == entries;
      assert PrimFieldUses(p)(now) == Each(now.value.value.entries, InfoUses(at));
    } else {
      FieldRewrites(e, p, e.key == "clips", m);
      if e.value.Plain? { KeepsKind(e.value.value, p.(field := Some(e.key)), e.key == "clips", m); }
    }
  }

  // --------------------------------------------------------------- arcs

  function Path(asset: Option<string>): string { if asset.Some? then asset.value else "" }

  /** An authored path to a layer: replaced only by a different text. */
  function NewAsset(p: Place, asset: Option<string>, kind: Kind, target: LayerId, m: Replacements): Option<string> {
    var key := Dependency(p, Path(asset), kind, Some(target));
    if key in m && m[key] != Path(asset) then Some(m[key]) else asset
  }

  function CustomUses(p: Place): Entry -> set<Use> { (e: Entry) => EntryUses(e, p, false) }

  function NewCustom(p: Place, m: Replacements): Entry -> Entry { (e: Entry) => NewEntry(e, p, false, m) }

  function ArcUses(p: Place, kind: Kind): Arc -> set<Use> {
    (a: Arc) => Pushed(p, Path(a.asset), kind, Some(a.layer)) + Each(a.customData, CustomUses(p))
  }

  function NewArc(p: Place, kind: Kind, m: Replacements): Arc -> Arc {
    (a: Arc) => Arc(NewAsset(p, a.asset, kind, a.layer, m), a.layer, Map(a.customData, NewCustom(p, m)), a.rest)
  }

  function Items(ops: ArcOps): seq<Arc> {
    (if ops.explicitly.Some? then ops.explicitly.value else [])
    + ops.delete + ops.add + ops.prepend + ops.append + ops.reorder
  }

  function ArcOpsUses(ops: ArcOps, p: Place, kind: Kind): set<Use> { Each(Items(ops), ArcUses(p, kind)) }

  function NewArcOps(ops: ArcOps, p: Place, kind: Kind, m: Replacements): ArcOps {
    var f := NewArc(p, kind, m);
    ArcOps(if ops.explicitly.Some? then Some(Map(ops.explicitly.value, f)) else None,
      Map(ops.prepend, f), Map(ops.append, f), Map(ops.delete, f), Map(ops.add, f), Map(ops.reorder, f))
  }

  lemma {:induction false} AssetRewrites(p: Place, asset: Option<string>, kind: Kind, target: LayerId, m: Replacements)
    requires Sound(m) && Pushed(p, Path(asset), kind, Some(target)) <= m.Keys
    ensures var now := NewAsset(p, asset, kind, target, m);
      Rewrites(Pushed(p, Path(asset), kind, Some(target)), Pushed(p, Path(now), kind, Some(target)), now == asset, m)
  {
    hide Rewrites;
    ImageOfPushed(p, Path(asset), kind, Some(target), m);
  }

  lemma {:induction false} CustomRewrites(entries: seq<Entry>, p: Place, m: Replacements)
    requires Sound(m) && Each(entries, CustomUses(p)) <= m.Keys
    ensures Rewrites(Each(entries, CustomUses(p)), Each(Map(entries, NewCustom(p, m)), CustomUses(p)),
                     Map(entries, NewCustom(p, m)) == entries, m)
  {
    hide Rewrites, Sound, Each, Map;
    forall i | 0 <= i < |entries| && CustomUses(p)(entries[i]) <= m.Keys
      ensures RewritesOne(entries[i], CustomUses(p), NewCustom(p, m), m) {
      EntryRewrites(entries[i], p, false, m);
    }
    EachRewrites(entries, CustomUses(p), NewCustom(p, m), m);
  }

  lemma {:induction false} ArcRewrites(a: Arc, p: Place, kind: Kind, m: Replacements)
    requires Sound(m) && ArcUses(p, kind)(a) <= m.Keys
    ensures RewritesOne(a, ArcUses(p, kind), NewArc(p, kind, m), m)
  {
    hide Rewrites, Sound, Each, Map, Pushed, NewAsset;
    AssetRewrites(p, a.asset, kind, a.layer, m);
    CustomRewrites(a.customData, p, m);
    var now := NewArc(p, kind, m)(a);
    SumRewrites(Pushed(p, Path(a.asset), kind, Some(a.layer)), Each(a.customData, CustomUses(p)),
                Pushed(p, Path(now.asset), kind, Some(a.layer)), Each(now.customData, CustomUses(p)),
                now.asset == a.asset, now.customData == a.customData, m);
  }

  /** The six lists of a list op are rewritten as the list of all its items. */
  lemma {:induction false} ArcOpsRewrite(ops: ArcOps, p: Place, kind: Kind, m: Replacements)
    requires Sound(m) && ArcOpsUses(ops, p, kind) <= m.Keys
    ensures var now := NewArcOps(ops, p, kind, m);
      Rewrites(ArcOpsUses(ops, p, kind), ArcOpsUses(now, p, kind), now == ops, m)
  {
    hide Rewrites, Sound, Each, Map;
    var (items, now) := (Items(ops), NewArcOps(ops, p, kind, m));
    var f := NewArc(p, kind, m);
    forall i | 0 <= i < |items| && ArcUses(p, kind)(items[i]) <= m.Keys
      ensures RewritesOne(items[i], ArcUses(p, kind), f, m) {
      ArcRewrites(items[i], p, kind, m);
    }
    EachRewrites(items, ArcUses(p, kind), f, m);
    ItemsMap(ops, f);
  }

  lemma {:induction false} MapSum(a: seq<Arc>, b: seq<Arc>, f: Arc -> Arc)
    ensures Map(a + b, f) == Map(a, f) + Map(b, f)
    ensures Map(a + b, f) == a + b <==> Map(a, f) == a && Map(b, f) == b
  {
    var (x, y) := (Map(a, f), Map(b, f));
    assert Map(a + b, f) == x + y;
    assert x + y == a + b ==> x == (x + y)[..|a|] == (a + b)[..|a|] == a;
    assert x + y == a + b ==> y == (x + y)[|a|..] == (a + b)[|a|..] == b;
  }

  lemma {:induction false} ItemsMap(ops: ArcOps, f: Arc -> Arc)
    ensures var now := ArcOps(if ops.explicitly.Some? then Some(Map(ops.explicitly.value, f)) else None,
        Map(ops.prepend, f), Map(ops.append, f), Map(ops.delete, f), Map(ops.add, f), Map(ops.reorder, f));
      Items(now) == Map(Items(ops), f) && (now == ops <==> Map(Items(ops), f) == Items(ops))
  {
    hide Map;
    var e := if ops.explicitly.Some? then ops.explicitly.value else [];
    MapSum(e, ops.delete, f);
    MapSum(e + ops.delete, ops.add, f);
    MapSum(e + ops.delete + ops.add, ops.prepend, f);
    MapSum(e + ops.delete + ops.add + ops.prepend, ops.append, f);
    MapSum(e + ops.delete + ops.add + ops.prepend + ops.append, ops.reorder, f);
    assert ops.explicitly.None? ==> Map(e, f) == [];
  }

  // --------------------------------------------------------- properties

  function DefaultUses(v: Option<Value>, p: Place): set<Use> {
    if v.Some? then ValueUses(v.value, p, false) else {}
  }

  function NewDefault(v: Option<Value>, p: Place, m: Replacements): Option<Value> {
    if v.Some? then Some(NewValue(v.value, p, false, m)) else None
  }

  function SampleUses(p: Place): Sample -> set<Use> { (s: Sample) => ValueUses(s.value, p, false) }

  function NewSample(p: Place, m: Replacements): Sample -> Sample {
    (s: Sample) => Sample(s.time, NewValue(s.value, p, false, m))
  }

  function Samples(samples: Option<seq<Sample>>): seq<Sample> { if samples.Some? then samples.value else [] }

  function NewSamples(samples: Option<seq<Sample>>, p: Place, m: Replacements): Option<seq<Sample>> {
    if samples.Some? then Some(Map(samples.value, NewSample(p, m))) else None
  }

  /** Where the values of a property are authored. */
  function PropertyPlace(layer: LayerId, spec: SpecPath, name: string): Place {
    Place(layer, Some(spec.(property := Some(name))), Some(name))
  }

  function UsesOfProperty(x: Property, p: Place): set<Use> {
    Each(x.metadata, FieldUses(p, false)) + DefaultUses(x.standard, p) + Each(Samples(x.samples), SampleUses(p))
  }

  function RewrittenProperty(x: Property, p: Place, m: Replacements): Property {
    Property(x.name, Map(x.metadata, NewField(p, false, m)), NewDefault(x.standard, p, m), NewSamples(x.samples, p, m), x.rest)
  }

  function PropertyUses(layer: LayerId, spec: SpecPath): Property -> set<Use> {
    (x: Property) => UsesOfProperty(x, PropertyPlace(layer, spec, x.name))
  }

  function NewProperty(layer: LayerId, spec: SpecPath, m: Replacements): Property -> Property {
    (x: Property) => RewrittenProperty(x, PropertyPlace(layer, spec, x.name), m)
  }

  lemma {:induction false} FieldsRewrite(fields: seq<Entry>, p: Place, m: Replacements)
    requires Sound(m) && Each(fields, FieldUses(p, false)) <= m.Keys
    ensures var now := Map(fields, NewField(p, false, m));
      Rewrites(Each(fields, FieldUses(p, false)), Each(now, FieldUses(p, false)), now == fields, m)
  {
    hide Rewrites, Sound, Each, Map;
    forall i | 0 <= i < |fields| && FieldUses(p, false)(fields[i]) <= m.Keys
      ensures RewritesOne(fields[i], FieldUses(p, false), NewField(p, false, m), m) {
      FieldRewrites(fields[i], p, false, m);
    }
    EachRewrites(fields, FieldUses(p, false), NewField(p, false, m), m);
  }

  lemma {:induction false} SamplesRewrite(samples: Option<seq<Sample>>, p: Place, m: Replacements)
    requires Sound(m) && Each(Samples(samples), SampleUses(p)) <= m.Keys
    ensures var now := NewSamples(samples, p, m);
      Rewrites(Each(Samples(samples), SampleUses(p)), Each(Samples(now), SampleUses(p)), now == samples, m)
  {
    hide Rewrites, Sound, Each, Map;
    var xs := Samples(samples);
    forall i | 0 <= i < |xs| && SampleUses(p)(xs[i]) <= m.Keys
      ensures RewritesOne(xs[i], SampleUses(p), NewSample(p, m), m) {
      ValueRewrites(xs[i].value, p, false, m);
    }
    EachRewrites(xs, SampleUses(p), NewSample(p, m), m);
    assert samples.None? ==> Map(xs, NewSample(p, m)) == [];
  }

  lemma {:induction false} DefaultRewrites(v: Option<Value>, p: Place, m: Replacements)
    requires Sound(m) && DefaultUses(v, p) <= m.Keys
    ensures Rewrites(DefaultUses(v, p), DefaultUses(NewDefault(v, p, m), p), NewDefault(v, p, m) == v, m)
  {
    hide Rewrites, Sound, ValueUses, NewValue;
    if v.Some? { ValueRewrites(v.value, p, false, m); } else { NoneRewrites(m); }
  }

  lemma {:induction false} PropertyRewrites(x: Property, p: Place, m: Replacements)
    requires Sound(m) && UsesOfProperty(x, p) <= m.Keys
    ensures var now := RewrittenProperty(x, p, m); Rewrites(UsesOfProperty(x, p), UsesOfProperty(now, p), now == x, m)
  {
    hide Rewrites, Sound, Each, Map, DefaultUses, NewDefault, NewSamples, Samples;
    var now := RewrittenProperty(x, p, m);
    FieldsRewrite(x.metadata, p, m);
    DefaultRewrites(x.standard, p, m);
    SamplesRewrite(x.samples, p, m);
    var (a, b) := (Each(x.metadata, FieldUses(p, false)), Each(now.metadata, FieldUses(p, false)));
    SumRewrites(a, DefaultUses(x.standard, p), b, DefaultUses(now.standard, p),
                now.metadata == x.metadata, now.standard == x.standard, m);
    SumRewrites(a + DefaultUses(x.standard, p), Each(Samples(x.samples), SampleUses(p)),
                b + DefaultUses(now.standard, p), Each(Samples(now.samples), SampleUses(p)),
                now.metadata == x.metadata && now.standard == x.standard, now.samples == x.samples, m);
  }

  // ------------------------------------------------------- specs, layers

  function PrimFieldsUses(fields: seq<Entry>, p: Place): set<Use> { Each(fields, PrimFieldUses(p)) }

  function PropertiesUses(
      xs: seq<Property>, layer: LayerId, at: SpecPath): set<Use> { Each(xs, PropertyUses(layer, at)) }

  /** What a spec itself authors. */
  function OwnUses(s: Spec, layer: LayerId, at: SpecPath): set<Use> {
    var p := Place(layer, Some(at), None);
    PrimFieldsUses(s.fields, p) + PropertiesUses(s.properties, layer, at)
    + ArcOpsUses(s.references, p, ReferenceArc) + ArcOpsUses(s.payloads, p, PayloadArc)
  }

  function Within(path: int, sites: seq<Site>, v: Variant): seq<Site> { sites + [Site(path, v.within, v.name)] }

  /** What a spec and every variant in it author. */
  function TreeUses(s: Spec, layer: LayerId, path: int, sites: seq<Site>): set<Use>
    decreases s
  {
    OwnUses(s, layer, SpecPath(path, sites, None)) + Union(VariantsUses(s.variants, layer, path, sites))
  }

  function VariantsUses(vs: seq<Variant>, layer: LayerId, path: int, sites: seq<Site>): (r: seq<set<Use>>)
    ensures |r| == |vs| && forall i :: 0 <= i < |vs| ==> r[i] == TreeUses(vs[i].spec, layer, path, Within(path, sites, vs[i]))
    decreases vs
  {
    seq(|vs|, i requires 0 <= i < |vs| => TreeUses(vs[i].spec, layer, path, Within(path, sites, vs[i])))
  }

  function NewSpec(s: Spec, layer: LayerId, path: int, sites: seq<Site>, m: Replacements): Spec
    decreases s
  {
    var at := SpecPath(path, sites, None);
    var p := Place(layer, Some(at), None);
    Spec(Map(s.fields, NewPrimField(p, m)), Map(s.properties, NewProperty(layer, at, m)),
         NewArcOps(s.references, p, ReferenceArc, m), NewArcOps(s.payloads, p, PayloadArc, m),
         NewVariants(s.variants, layer, path, sites, m), s.rest)
  }

  function NewVariants(
      vs: seq<Variant>, layer: LayerId, path: int, sites: seq<Site>, m: Replacements): (r: seq<Variant>)
    ensures |r| == |vs|
    ensures forall i :: 0 <= i < |vs| ==>
      r[i] == Variant(vs[i].within, vs[i].name, NewSpec(vs[i].spec, layer, path, Within(path, sites, vs[i]), m))
    decreases vs
  {
    seq(|vs|, i requires 0 <= i < |vs| =>
      Variant(vs[i].within, vs[i].name, NewSpec(vs[i].spec, layer, path, Within(path, sites, vs[i]), m)))
  }

  function PrimUses(layer: LayerId): Prim -> set<Use> { (x: Prim) => TreeUses(x.spec, layer, x.path, x.outerSites) }

  function NewPrim(layer: LayerId, m: Replacements): Prim -> Prim {
    (x: Prim) => Prim(x.path, x.outerSites, NewSpec(x.spec, layer, x.path, x.outerSites, m))
  }

  function SublayerUses(p: Place): Sublayer -> set<Use> {
    (x: Sublayer) => Pushed(p, Path(x.asset), SublayerArc, Some(x.layer))
  }

  function NewSublayer(p: Place, m: Replacements): Sublayer -> Sublayer {
    (x: Sublayer) => Sublayer(NewAsset(p, x.asset, SublayerArc, x.layer, m), x.layer, x.rest)
  }

  /** The uses a layer authors. */
  function LayerUses(l: Layer): set<Use> {
    var p := Place(l.id, None, None);
    Each(l.sublayers, SublayerUses(p)) + Each(l.metadata, FieldUses(p, false)) + Each(l.prims, PrimUses(l.id))
  }

  function NewLayer(l: Layer, m: Replacements): Layer {
    var p := Place(l.id, None, None);
    Layer(l.id, Map(l.sublayers, NewSublayer(p, m)), Map(l.metadata, NewField(p, false, m)), Map(l.prims, NewPrim(l.id, m)), l.rest)
  }

  lemma {:induction false} PrimFieldsRewrite(fields: seq<Entry>, p: Place, m: Replacements)
    requires Sound(m) && PrimFieldsUses(fields, p) <= m.Keys
    ensures var now := Map(fields, NewPrimField(p, m));
      Rewrites(PrimFieldsUses(fields, p), PrimFieldsUses(now, p), now == fields, m)
  {
    hide Rewrites, Sound, Each, Map, PrimFieldUses, NewPrimField;
    forall i | 0 <= i < |fields| && PrimFieldUses(p)(fields[i]) <= m.Keys
      ensures RewritesOne(fields[i], PrimFieldUses(p), NewPrimField(p, m), m) {
      PrimFieldRewrites(fields[i], p, m);
    }
    EachRewrites(fields, PrimFieldUses(p), NewPrimField(p, m), m);
  }

  lemma {:induction false} PropertiesRewrite(xs: seq<Property>, layer: LayerId, at: SpecPath, m: Replacements)
    requires Sound(m) && PropertiesUses(xs, layer, at) <= m.Keys
    ensures var now := Map(xs, NewProperty(layer, at, m));
      Rewrites(PropertiesUses(xs, layer, at), PropertiesUses(now, layer, at), now == xs, m)
  {
    hide Rewrites, Sound, Each, Map, UsesOfProperty;
    forall i | 0 <= i < |xs| && PropertyUses(layer, at)(xs[i]) <= m.Keys
      ensures RewritesOne(xs[i], PropertyUses(layer, at), NewProperty(layer, at, m), m) {
      PropertyRewrites(xs[i], PropertyPlace(layer, at, xs[i].name), m);
    }
    EachRewrites(xs, PropertyUses(layer, at), NewProperty(layer, at, m), m);
  }

  lemma {:induction false} OwnRewrites(s: Spec, layer: LayerId, path: int, sites: seq<Site>, m: Replacements)
    requires Sound(m) && OwnUses(s, layer, SpecPath(path, sites, None)) <= m.Keys
    ensures var (at, now) := (SpecPath(path, sites, None), NewSpec(s, layer, path, sites, m));
      Rewrites(OwnUses(s, layer, at), OwnUses(now, layer, at), now.(variants := s.variants) == s, m)
  {
    hide Rewrites, Sound, Each, Map, PrimFieldsUses, PropertiesUses, ArcOpsUses, NewArcOps, NewVariants;
    var at := SpecPath(path, sites, None);
    var (p, now) := (Place(layer, Some(at), None), NewSpec(s, layer, path, sites, m));
    PrimFieldsRewrite(s.fields, p, m);
    PropertiesRewrite(s.properties, layer, at, m);
    ArcOpsRewrite(s.references, p, ReferenceArc, m);
    ArcOpsRewrite(s.payloads, p, PayloadArc, m);
    var (a, b) := (PrimFieldsUses(s.fields, p), PrimFieldsUses(now.fields, p));
    var (c, d) := (a + PropertiesUses(s.properties, layer, at), b + PropertiesUses(now.properties, layer, at));
    var (e, f) := (c + ArcOpsUses(s.references, p, ReferenceArc), d + ArcOpsUses(now.references, p, ReferenceArc));
    var (same1, same2) := (now.fields == s.fields, now.properties == s.properties);
    SumRewrites(a, PropertiesUses(s.properties, layer, at), b, PropertiesUses(now.properties, layer, at), same1, same2, m);
    SumRewrites(c, ArcOpsUses(s.references, p, ReferenceArc), d, ArcOpsUses(now.references, p, ReferenceArc),
                same1 && same2, now.references == s.references, m);
    SumRewrites(e, ArcOpsUses(s.payloads, p, PayloadArc), f, ArcOpsUses(now.payloads, p, PayloadArc),
                same1 && same2 && now.references == s.references, now.payloads == s.payloads, m);
  }

  lemma {:induction false} TreeRewrites(s: Spec, layer: LayerId, path: int, sites: seq<Site>, m: Replacements)
    requires Sound(m) && TreeUses(s, layer, path, sites) <= m.Keys
    ensures var now := NewSpec(s, layer, path, sites, m);
      Rewrites(TreeUses(s, layer, path, sites), TreeUses(now, layer, path, sites), now == s, m)
    decreases s
  {
    hide Rewrites, Sound, OwnUses, VariantsUses, NewVariants, Union;
    var (at, now) := (SpecPath(path, sites, None), NewSpec(s, layer, path, sites, m));
    OwnRewrites(s, layer, path, sites, m);
    VariantsRewrite(s.variants, layer, path, sites, m);
    SumRewrites(OwnUses(s, layer, at), Union(VariantsUses(s.variants, layer, path, sites)),
                OwnUses(now, layer, at), Union(VariantsUses(now.variants, layer, path, sites)),
                now.(variants := s.variants) == s, now.variants == s.variants, m);
    assert now == s <==> now.(variants := s.variants) == s && now.variants == s.variants;
  }

  lemma {:induction false} VariantsRewrite(
      vs: seq<Variant>, layer: LayerId, path: int, sites: seq<Site>, m: Replacements)
    requires Sound(m) && Union(VariantsUses(vs, layer, path, sites)) <= m.Keys
    ensures var now := NewVariants(vs, layer, path, sites, m);
      Rewrites(Union(VariantsUses(vs, layer, path, sites)), Union(VariantsUses(now, layer, path, sites)), now == vs, m)
    decreases vs
  {
    hide Rewrites, Sound, TreeUses, NewSpec, Union;
    var now := NewVariants(vs, layer, path, sites, m);
    var (before, after) := (VariantsUses(vs, layer, path, sites), VariantsUses(now, layer, path, sites));
    var same := seq(|vs|, i requires 0 <= i < |vs| => now[i] == vs[i]);
    UnionWithin(before, m.Keys);
    forall i | 0 <= i < |vs| ensures Rewrites(before[i], after[i], same[i], m) {
      TreeRewrites(vs[i].spec, layer, path, Within(path, sites, vs[i]), m);
    }
    UnionRewrites(before, after, same, m);
    assert (forall i :: 0 <= i < |same| ==> same[i]) <==> now == vs;
  }

  lemma {:induction false} PrimsRewrite(xs: seq<Prim>, layer: LayerId, m: Replacements)
    requires Sound(m) && Each(xs, PrimUses(layer)) <= m.Keys
    ensures var now := Map(xs, NewPrim(layer, m)); Rewrites(Each(xs, PrimUses(layer)), Each(now, PrimUses(layer)), now == xs, m)
  {
    hide Rewrites, Sound, Each, Map, TreeUses, NewSpec;
    forall i | 0 <= i < |xs| && PrimUses(layer)(xs[i]) <= m.Keys
      ensures RewritesOne(xs[i], PrimUses(layer), NewPrim(layer, m), m) {
      TreeRewrites(xs[i].spec, layer, xs[i].path, xs[i].outerSites, m);
    }
    EachRewrites(xs, PrimUses(layer), NewPrim(layer, m), m);
  }

  lemma {:induction false} SublayersRewrite(xs: seq<Sublayer>, p: Place, m: Replacements)
    requires Sound(m) && Each(xs, SublayerUses(p)) <= m.Keys
    ensures var now := Map(xs, NewSublayer(p, m)); Rewrites(Each(xs, SublayerUses(p)), Each(now, SublayerUses(p)), now == xs, m)
  {
    hide Rewrites, Sound, Each, Map, Pushed, NewAsset;
    forall i | 0 <= i < |xs| && SublayerUses(p)(xs[i]) <= m.Keys
      ensures RewritesOne(xs[i], SublayerUses(p), NewSublayer(p, m), m) {
      AssetRewrites(p, xs[i].asset, SublayerArc, xs[i].layer, m);
    }
    EachRewrites(xs, SublayerUses(p), NewSublayer(p, m), m);
  }

  lemma {:induction false} LayerRewrites(l: Layer, m: Replacements)
    requires Sound(m) && LayerUses(l) <= m.Keys
    ensures var now := NewLayer(l, m); Rewrites(LayerUses(l), LayerUses(now), now == l, m)
  {
    hide Rewrites, Sound, Each, Map;
    var (p, now) := (Place(l.id, None, None), NewLayer(l, m));
    SublayersRewrite(l.sublayers, p, m);
    FieldsRewrite(l.metadata, p, m);
    PrimsRewrite(l.prims, l.id, m);
    var (a, b) := (Each(l.sublayers, SublayerUses(p)), Each(now.sublayers, SublayerUses(p)));
    SumRewrites(a, Each(l.metadata, FieldUses(p, false)), b, Each(now.metadata, FieldUses(p, false)),
                now.sublayers == l.sublayers, now.metadata == l.metadata, m);
    SumRewrites(a + Each(l.metadata, FieldUses(p, false)), Each(l.prims, PrimUses(l.id)),
                b + Each(now.metadata, FieldUses(p, false)), Each(now.prims, PrimUses(l.id)),
                now.sublayers == l.sublayers && now.metadata == l.metadata, now.prims == l.prims, m);
  }

  // ------------------------------------------------- where uses are found

  /** A use that counts, of the layer and spec of a place. */
  predicate At(u: Use, p: Place) { Visible(u) && u.layer == p.layer && u.spec == p.spec }

  lemma {:induction false} ValueAt(v: Value, p: Place, clip: bool, u: Use)
    requires u in ValueUses(v, p, clip)
    ensures At(u, p)
    decreases v
  {
    hide Union;
    match v
    case Array(items) =>
      UnionIs(ItemsUses(items, p, clip), u);
      var i :| 0 <= i < |items| && u in ItemsUses(items, p, clip)[i];
      ValueAt(items[i], p, clip, u);
    case Dictionary(entries) =>
      UnionIs(EntriesUses(entries, p, clip), u);
      var i :| 0 <= i < |entries| && u in EntriesUses(entries, p, clip)[i];
      EntryAt(entries[i], p, clip, u);
    case ArrayEdit(ops) => OpsAt(ops, p, clip, u);
    case TypedArrayEdit(ops, _) => OpsAt(ops, p, clip, u);
    case _ =>
  }

  lemma {:induction false} OpsAt(ops: seq<EditOp>, p: Place, clip: bool, u: Use)
    requires u in Union(OpsUses(ops, p, clip))
    ensures At(u, p)
    decreases ops
  {
    hide Union;
    UnionIs(OpsUses(ops, p, clip), u);
    var i :| 0 <= i < |ops| && u in OpsUses(ops, p, clip)[i];
    ValueAt(Literals(ops[i]).value, p, clip, u);
  }

  lemma {:induction false} EntryAt(e: Entry, p: Place, clip: bool, u: Use)
    requires u in EntryUses(e, p, clip)
    ensures At(u, p)
    decreases e
  {
    if !(clip && e.key == "templateAssetPath") { ValueAt(e.value.value, p, clip, u); }
  }

  lemma {:induction false} FieldsAt(fields: seq<Entry>, p: Place, u: Use)
    requires u in Each(fields, FieldUses(p, false))
    ensures At(u, p)
  {
    hide Each;
    EachIs(fields, FieldUses(p, false), u);
    var i :| 0 <= i < |fields| && u in FieldUses(p, false)(fields[i]);
    ValueAt(fields[i].value.value, p.(field := Some(fields[i].key)), false, u);
  }

  lemma {:induction false} PrimFieldsAt(fields: seq<Entry>, p: Place, u: Use)
    requires u in PrimFieldsUses(fields, p)
    ensures At(u, p)
  {
    hide Each;
    EachIs(fields, PrimFieldUses(p), u);
    var i :| 0 <= i < |fields| && u in PrimFieldUses(p)(fields[i]);
    var e := fields[i];
    var at := p.(field := Some(e.key));
    if IsInfo(e) {
      var entries := e.value.value.entries;
      EachIs(entries, InfoUses(at), u);
      var j :| 0 <= j < |entries| && u in InfoUses(at)(entries[j]);
      var x := entries[j];
      if !(x.key == "identifier" && x.value.value.Asset?) { ValueAt(x.value.value, at, false, u); }
    } else {
      assert u in FieldUses(p, e.key == "clips")(e);
      ValueAt(e.value.value, at, e.key == "clips", u);
    }
  }

  lemma {:induction false} ArcOpsAt(ops: ArcOps, p: Place, kind: Kind, u: Use)
    requires u in ArcOpsUses(ops, p, kind)
    ensures At(u, p)
  {
    hide Each;
    EachIs(Items(ops), ArcUses(p, kind), u);
    var i :| 0 <= i < |Items(ops)| && u in ArcUses(p, kind)(Items(ops)[i]);
    var a := Items(ops)[i];
    if u in Each(a.customData, CustomUses(p)) {
      EachIs(a.customData, CustomUses(p), u);
      var j :| 0 <= j < |a.customData| && u in CustomUses(p)(a.customData[j]);
      EntryAt(a.customData[j], p, false, u);
    }
  }

  lemma {:induction false} PropertyAt(x: Property, p: Place, u: Use)
    requires u in UsesOfProperty(x, p)
    ensures At(u, p)
  {
    hide Each;
    if u in Each(x.metadata, FieldUses(p, false)) {
      FieldsAt(x.metadata, p, u);
    } else if u in DefaultUses(x.standard, p) {
      ValueAt(x.standard.value, p, false, u);
    } else {
      EachIs(Samples(x.samples), SampleUses(p), u);
      var i :| 0 <= i < |Samples(x.samples)| && u in SampleUses(p)(Samples(x.samples)[i]);
      ValueAt(Samples(x.samples)[i].value, p, false, u);
    }
  }

  lemma {:induction false} TreeAt(s: Spec, layer: LayerId, path: int, sites: seq<Site>, u: Use)
    requires u in TreeUses(s, layer, path, sites)
    ensures Visible(u) && u.layer == layer
    decreases s
  {
    hide Each, Union, PrimFieldsUses, ArcOpsUses, UsesOfProperty;
    var at := SpecPath(path, sites, None);
    var p := Place(layer, Some(at), None);
    if u in PrimFieldsUses(s.fields, p) {
      PrimFieldsAt(s.fields, p, u);
    } else if u in PropertiesUses(s.properties, layer, at) {
      EachIs(s.properties, PropertyUses(layer, at), u);
      var i :| 0 <= i < |s.properties| && u in PropertyUses(layer, at)(s.properties[i]);
      PropertyAt(s.properties[i], PropertyPlace(layer, at, s.properties[i].name), u);
    } else if u in ArcOpsUses(s.references, p, ReferenceArc) {
      ArcOpsAt(s.references, p, ReferenceArc, u);
    } else if u in ArcOpsUses(s.payloads, p, PayloadArc) {
      ArcOpsAt(s.payloads, p, PayloadArc, u);
    } else {
      UnionIs(VariantsUses(s.variants, layer, path, sites), u);
      var i :| 0 <= i < |s.variants| && u in VariantsUses(s.variants, layer, path, sites)[i];
      TreeAt(s.variants[i].spec, layer, path, Within(path, sites, s.variants[i]), u);
    }
  }

  /** Extraction lists an identifier that is not empty, or an unnamed link to
      another layer, and the layer that authors it. */
  lemma {:induction false} LayerAt(l: Layer, u: Use)
    requires u in LayerUses(l)
    ensures Visible(u) && u.layer == l.id
  {
    hide Each, TreeUses;
    var p := Place(l.id, None, None);
    if u in Each(l.sublayers, SublayerUses(p)) {
      EachIs(l.sublayers, SublayerUses(p), u);
      var i :| 0 <= i < |l.sublayers| && u in SublayerUses(p)(l.sublayers[i]);
    } else if u in Each(l.metadata, FieldUses(p, false)) {
      FieldsAt(l.metadata, p, u);
    } else {
      EachIs(l.prims, PrimUses(l.id), u);
      var i :| 0 <= i < |l.prims| && u in PrimUses(l.id)(l.prims[i]);
      TreeAt(l.prims[i].spec, l.id, l.prims[i].path, l.prims[i].outerSites, u);
    }
  }

  // ------------------------------------------------------------ theorems

  /** The rewritten layer authors exactly the uses of the layer with their
      identifiers replaced, except those replaced by nothing that link to no
      other layer; and it is the same layer exactly when no identifier is
      replaced by another. */
  lemma {:induction false} ExtractedAfterRewriting(l: Layer, m: Replacements)
    requires m.Keys == LayerUses(l)
    ensures forall x :: x in LayerUses(NewLayer(l, m)) <==>
      exists u :: u in LayerUses(l) && x == u.(identifier := m[u]) && (m[u] != "" || u.hint.Some?)
    ensures NewLayer(l, m) == l <==> forall u :: u in m ==> m[u] == u.identifier
  {
    hide LayerUses, NewLayer;
    forall u | u in m ensures Visible(u) { LayerAt(l, u); }
    LayerRewrites(l, m);
    var after := LayerUses(NewLayer(l, m));
    forall x ensures x in after <==>
        exists u :: u in LayerUses(l) && x == u.(identifier := m[u]) && (m[u] != "" || u.hint.Some?) {
      if x in after {
        var u :| u in LayerUses(l) && u in m && Visible(u.(identifier := m[u])) && x == u.(identifier := m[u]);
      }
      if u :| u in LayerUses(l) && x == u.(identifier := m[u]) && (m[u] != "" || u.hint.Some?) {
        assert u in m && Visible(u.(identifier := m[u]));
      }
    }
  }
}
