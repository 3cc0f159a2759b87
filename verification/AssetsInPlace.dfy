/** Rewriting a layer replaces identifiers where they stand: `rewrite_layer_assets`
    in `layerstack/src/asset_dependencies.rs`, position by position. */
module AssetsInPlace {
  import opened AssetUses
  import opened AssetOccurrences

  /** The use with its identifier replaced, if it is. */
  function Renamed(u: Use, m: Replacements): Use { u.(identifier := if u in m then m[u] else u.identifier) }

  // ------------------------------------------------------------------ values

  datatype Identifier = Identifier(text: string, kind: Kind)

  /** What stands at the end of `steps`, if anything: `InValue` as a function. */
  ghost function Standing(v: Value, steps: seq<Step>, clip: bool): Option<Identifier>
    decreases v
  {
    match v
    case Asset(asset) => if steps == [] then Some(Identifier(asset, AssetValue)) else None
    case Text(_) => None
    case Array(items) =>
      if steps != [] && steps[0].Item? && steps[0].at < |items| then Standing(items[steps[0].at], steps[1..], clip) else None
    case Dictionary(entries) =>
      if steps != [] && steps[0].Key? && steps[0].at < |entries| then StandingIn(entries[steps[0].at], steps[1..], clip) else None
    case ArrayEdit(ops) => StandingOf(ops, steps, clip)
    case TypedArrayEdit(ops, _) => StandingOf(ops, steps, clip)
    case Other(_) => None
  }

  ghost function StandingIn(e: Entry, steps: seq<Step>, clip: bool): Option<Identifier>
    decreases e
  {
    if e.value.Special? then None
    else if clip && e.key == "templateAssetPath" then
      if steps == [] && e.value.value.Text? then Some(Identifier(e.value.value.text, ClipTemplate)) else None
    else Standing(e.value.value, steps, clip)
  }

  ghost function StandingOf(ops: seq<EditOp>, steps: seq<Step>, clip: bool): Option<Identifier>
    decreases ops
  {
    if steps != [] && steps[0].Operation? && steps[0].at < |ops| then StandingAt(ops[steps[0].at], steps[1..], clip) else None
  }

  ghost function StandingAt(op: EditOp, steps: seq<Step>, clip: bool): Option<Identifier>
    decreases op
  {
    match op
    case Write(src, _) => if src.Literal? then Standing(src.value, steps, clip) else None
    case Insert(src, _) => if src.Literal? then Standing(src.value, steps, clip) else None
    case MinSizeFill(_, fill) => Standing(fill, steps, clip)
    case ResizeFill(_, fill) => Standing(fill, steps, clip)
    case OtherOp(_) => None
  }

  lemma {:induction false} StandingIs(v: Value, steps: seq<Step>, clip: bool, text: string, kind: Kind)
    ensures InValue(v, steps, clip, text, kind) <==> Standing(v, steps, clip) == Some(Identifier(text, kind))
    decreases v
  {
    match v
    case Asset(_) =>
    case Text(_) =>
    case Array(items) =>
      if steps != [] && steps[0].Item? && steps[0].at < |items| {
        StandingIs(items[steps[0].at], steps[1..], clip, text, kind);
      }
    case Dictionary(entries) =>
      if steps != [] && steps[0].Key? && steps[0].at < |entries| {
        EntryStandingIs(entries[steps[0].at], steps[1..], clip, text, kind);
      }
    case ArrayEdit(ops) =>
      if steps != [] && steps[0].Operation? && steps[0].at < |ops| {
        OpStandingIs(ops[steps[0].at], steps[1..], clip, text, kind);
      }
    case TypedArrayEdit(ops, _) =>
      if steps != [] && steps[0].Operation? && steps[0].at < |ops| {
        OpStandingIs(ops[steps[0].at], steps[1..], clip, text, kind);
      }
    case Other(_) =>
  }

  lemma {:induction false} EntryStandingIs(e: Entry, steps: seq<Step>, clip: bool, text: string, kind: Kind)
    ensures InEntry(e, steps, clip, text, kind) <==> StandingIn(e, steps, clip) == Some(Identifier(text, kind))
    decreases e
  {
    if e.value.Plain? && !(clip && e.key == "templateAssetPath") { StandingIs(e.value.value, steps, clip, text, kind); }
  }

  lemma {:induction false} OpStandingIs(op: EditOp, steps: seq<Step>, clip: bool, text: string, kind: Kind)
    ensures InOp(op, steps, clip, text, kind) <==> StandingAt(op, steps, clip) == Some(Identifier(text, kind))
    decreases op
  {
    match op
    case Write(src, _) => if src.Literal? { StandingIs(src.value, steps, clip, text, kind); }
    case Insert(src, _) => if src.Literal? { StandingIs(src.value, steps, clip, text, kind); }
    case MinSizeFill(_, fill) => StandingIs(fill, steps, clip, text, kind);
    case ResizeFill(_, fill) => StandingIs(fill, steps, clip, text, kind);
    case OtherOp(_) =>
  }

  ghost function NewIdentifier(x: Option<Identifier>, p: Place, m: Replacements): Option<Identifier> {
    if x.Some? then Some(Identifier(NewText(p, x.value.text, x.value.kind, m), x.value.kind)) else None
  }

  /** A value holds at every position what it held, replaced. */
  lemma {:induction false} ValueInPlace(v: Value, p: Place, clip: bool, m: Replacements, steps: seq<Step>)
    ensures Standing(NewValue(v, p, clip, m), steps, clip) == NewIdentifier(Standing(v, steps, clip), p, m)
    decreases v
  {
    hide NewText;
    match v
    case Asset(_) =>
    case Text(_) =>
    case Array(items) =>
      if steps != [] && steps[0].Item? && steps[0].at < |items| {
        ValueInPlace(items[steps[0].at], p, clip, m, steps[1..]);
      }
    case Dictionary(entries) =>
      if steps != [] && steps[0].Key? && steps[0].at < |entries| {
        EntryInPlace(entries[steps[0].at], p, clip, m, steps[1..]);
      }
    case ArrayEdit(ops) => OpsInPlace(ops, p, clip, m, steps);
    case TypedArrayEdit(ops, _) => OpsInPlace(ops, p, clip, m, steps);
    case Other(_) =>
  }

  lemma {:induction false} OpsInPlace(ops: seq<EditOp>, p: Place, clip: bool, m: Replacements, steps: seq<Step>)
    ensures StandingOf(NewOps(ops, p, clip, m), steps, clip) == NewIdentifier(StandingOf(ops, steps, clip), p, m)
    decreases ops
  {
    hide NewIdentifier, NewOp;
    if steps != [] && steps[0].Operation? && steps[0].at < |ops| {
      OpInPlace(ops[steps[0].at], p, clip, m, steps[1..]);
    } else {
      NothingNew(p, m);
    }
  }

  lemma {:induction false} NothingNew(p: Place, m: Replacements)
    ensures NewIdentifier(None, p, m) == None
  {
  }

  lemma {:induction false} EntryInPlace(e: Entry, p: Place, clip: bool, m: Replacements, steps: seq<Step>)
    ensures StandingIn(NewEntry(e, p, clip, m), steps, clip) == NewIdentifier(StandingIn(e, steps, clip), p, m)
    decreases e
  {
    hide NewText;
    if e.value.Plain? && !(clip && e.key == "templateAssetPath") { ValueInPlace(e.value.value, p, clip, m, steps); }
  }

  lemma {:induction false} OpInPlace(op: EditOp, p: Place, clip: bool, m: Replacements, steps: seq<Step>)
    ensures StandingAt(NewOp(op, p, clip, m), steps, clip) == NewIdentifier(StandingAt(op, steps, clip), p, m)
    decreases op
  {
    hide NewText;
    match op
    case Write(src, _) => if src.Literal? { ValueInPlace(src.value, p, clip, m, steps); }
    case Insert(src, _) => if src.Literal? { ValueInPlace(src.value, p, clip, m, steps); }
    case MinSizeFill(_, fill) => ValueInPlace(fill, p, clip, m, steps);
    case ResizeFill(_, fill) => ValueInPlace(fill, p, clip, m, steps);
    case OtherOp(_) =>
  }

  lemma {:induction false} TextRenamed(p: Place, u: Use, m: Replacements)
    requires Stands(u, p.layer, p.spec, p.field)
    ensures NewText(p, u.identifier, u.kind, m) == Renamed(u, m).identifier
    ensures Stands(Renamed(u, m), p.layer, p.spec, p.field) && Renamed(u, m).kind == u.kind
  {
  }

  lemma {:induction false} ValueForward(v: Value, p: Place, clip: bool, m: Replacements, steps: seq<Step>, u: Use)
    requires InValue(v, steps, clip, u.identifier, u.kind) && Stands(u, p.layer, p.spec, p.field)
    ensures InValue(NewValue(v, p, clip, m), steps, clip, Renamed(u, m).identifier, Renamed(u, m).kind)
    ensures Stands(Renamed(u, m), p.layer, p.spec, p.field)
  {
    hide InValue, Standing, NewText, Renamed, Stands, NewValue;
    ValueInPlace(v, p, clip, m, steps);
    StandingIs(v, steps, clip, u.identifier, u.kind);
    TextRenamed(p, u, m);
    StandingIs(NewValue(v, p, clip, m), steps, clip, Renamed(u, m).identifier, u.kind);
  }

  lemma {:induction false} ValueBackward(v: Value, p: Place, clip: bool, m: Replacements, steps: seq<Step>, x: Use)
    returns (u: Use)
    requires InValue(NewValue(v, p, clip, m), steps, clip, x.identifier, x.kind) && Stands(x, p.layer, p.spec, p.field)
    ensures InValue(v, steps, clip, u.identifier, u.kind) && Stands(u, p.layer, p.spec, p.field) && x == Renamed(u, m)
  {
    hide InValue, Standing, NewText, NewValue;
    ValueInPlace(v, p, clip, m, steps);
    StandingIs(NewValue(v, p, clip, m), steps, clip, x.identifier, x.kind);
    u := x.(identifier := Standing(v, steps, clip).value.text);
    StandingIs(v, steps, clip, u.identifier, u.kind);
    TextRenamed(p, u, m);
  }

  // ----------------------------------------------------- fields and properties

  lemma {:induction false} FieldForward(e: Entry, p: Place, clip: bool, m: Replacements, steps: seq<Step>, u: Use)
    requires InFieldValue(e, steps, clip, u) && Stands(u, p.layer, p.spec, Some(e.key))
    ensures var now := NewField(p, clip, m)(e);
      InFieldValue(now, steps, clip, Renamed(u, m)) && Stands(Renamed(u, m), p.layer, p.spec, Some(now.key))
  {
    hide InValue, NewValue;
    ValueForward(e.value.value, p.(field := Some(e.key)), clip, m, steps, u);
  }

  lemma {:induction false} FieldBackward(e: Entry, p: Place, clip: bool, m: Replacements, steps: seq<Step>, x: Use)
    returns (u: Use)
    requires InFieldValue(NewField(p, clip, m)(e), steps, clip, x) && Stands(x, p.layer, p.spec, Some(e.key))
    ensures InFieldValue(e, steps, clip, u) && Stands(u, p.layer, p.spec, Some(e.key)) && x == Renamed(u, m)
  {
    hide InValue, NewValue;
    u := ValueBackward(e.value.value, p.(field := Some(e.key)), clip, m, steps, x);
  }

  lemma {:induction false} InfoForward(e: Entry, p: Place, m: Replacements, steps: seq<Step>, u: Use)
    requires InInfoEntry(e, steps, u) && Stands(u, p.layer, p.spec, p.field)
    ensures InInfoEntry(NewInfo(p, m)(e), steps, Renamed(u, m)) && Stands(Renamed(u, m), p.layer, p.spec, p.field)
  {
    hide InValue, NewValue, NewText;
    var v := e.value.value;
    if e.key == "identifier" && v.Asset? {
      TextRenamed(p, u, m);
    } else {
      ValueForward(v, p, false, m, steps, u);
      KeepsKind(v, p, false, m);
    }
  }

  lemma {:induction false} InfoBackward(e: Entry, p: Place, m: Replacements, steps: seq<Step>, x: Use) returns (u: Use)
    requires InInfoEntry(NewInfo(p, m)(e), steps, x) && Stands(x, p.layer, p.spec, p.field)
    ensures InInfoEntry(e, steps, u) && Stands(u, p.layer, p.spec, p.field) && x == Renamed(u, m)
  {
    hide InValue, NewValue, NewText;
    var v := e.value.value;
    if e.key == "identifier" && v.Asset? {
      u := x.(identifier := v.asset);
      TextRenamed(p, u, m);
    } else {
      KeepsKind(v, p, false, m);
      u := ValueBackward(v, p, false, m, steps, x);
    }
  }

  lemma {:induction false} PrimFieldIs(e: Entry, p: Place, m: Replacements)
    ensures var now := NewPrimField(p, m)(e);
      && now.key == e.key && (IsAssetInfo(now) <==> IsAssetInfo(e))
      && (IsAssetInfo(e) ==>
        now.value.value.entries == Map(e.value.value.entries, NewInfo(p.(field := Some("assetInfo")), m)))
      && (!IsAssetInfo(e) ==> now == NewField(p, e.key == "clips", m)(e))
  {
    hide NewValue, Map;
    SameInfo(e);
    KeyKept(e, p, e.key == "clips", m);
    if e.value.Plain? { KeepsKind(e.value.value, p.(field := Some(e.key)), e.key == "clips", m); }
  }

  lemma {:induction false} KeyKept(e: Entry, p: Place, clip: bool, m: Replacements)
    ensures NewField(p, clip, m)(e).key == e.key
  {
  }

  // --------------------------------------------------------------------- arcs

  lemma {:induction false} ItemNow(ops: ArcOps, p: Place, kind: Kind, m: Replacements, list: List, i: nat)
    ensures var now := ItemAt(NewArcOps(ops, p, kind, m), list, i);
      now == if ItemAt(ops, list, i).Some? then Some(NewArc(p, kind, m)(ItemAt(ops, list, i).value)) else None
  {
    hide NewArc;
  }

  lemma {:induction false} LinkForward(p: Place, asset: Option<string>, kind: Kind, target: LayerId, m: Replacements, u: Use)
    requires LinksTo(u, asset, target) && u.layer == p.layer && u.spec == p.spec && u.field == p.field && u.kind == kind
    ensures LinksTo(Renamed(u, m), NewAsset(p, asset, kind, target, m), target)
  {
    assert u == Dependency(p, Path(asset), kind, Some(target));
  }

  lemma {:induction false} LinkBackward(p: Place, asset: Option<string>, kind: Kind, target: LayerId, m: Replacements, x: Use)
    returns (u: Use)
    requires LinksTo(x, NewAsset(p, asset, kind, target, m), target)
    requires x.layer == p.layer && x.spec == p.spec && x.field == p.field && x.kind == kind
    ensures LinksTo(u, asset, target) && x == Renamed(u, m)
  {
    u := Dependency(p, Path(asset), kind, Some(target));
  }

  // --------------------------------------------------------------------- specs

  lemma {:induction false} SpecForward(s: Spec, layer: LayerId, path: int, sites: seq<Site>, m: Replacements, w: Spot, u: Use)
    requires InSpec(s, layer, SpecPath(path, sites, None), w, u)
    ensures InSpec(NewSpec(s, layer, path, sites, m), layer, SpecPath(path, sites, None), w, Renamed(u, m))
  {
    hide NewField, NewInfo, NewPrimField, InFieldValue, InInfoEntry, InValue, NewValue, NewArcOps, ItemAt, LinksTo, NewAsset, Renamed,
      NewVariants, NewEntry;
    var at := SpecPath(path, sites, None);
    var p := Place(layer, Some(at), None);
    RenamedKeeps(u, m);
    match w
    case InField(i, steps) =>
      PrimFieldIs(s.fields[i], p, m);
      FieldForward(s.fields[i], p, s.fields[i].key == "clips", m, steps, u);
    case InInfo(i, j, steps) =>
      PrimFieldIs(s.fields[i], p, m);
      InfoForward(s.fields[i].value.value.entries[j], p.(field := Some("assetInfo")), m, steps, u);
    case InMetadata(i, j, steps) =>
      var x := s.properties[i];
      PropertyPlaceIs(layer, at, x);
      FieldForward(x.metadata[j], PropertyPlace(layer, at, x.name), false, m, steps, u);
      assert NewProperty(layer, at, m)(x).name == x.name;
    case InDefault(i, steps) =>
      var x := s.properties[i];
      PropertyPlaceIs(layer, at, x);
      ValueForward(x.standard.value, PropertyPlace(layer, at, x.name), false, m, steps, u);
    case InSample(i, j, steps) =>
      var x := s.properties[i];
      PropertyPlaceIs(layer, at, x);
      ValueForward(x.samples.value[j].value, PropertyPlace(layer, at, x.name), false, m, steps, u);
    case InArc(payload, list, i) =>
      var (ops, kind) := if payload then (s.payloads, PayloadArc) else (s.references, ReferenceArc);
      ItemNow(ops, p, kind, m, list, i);
      var a := ItemAt(ops, list, i).value;
      LinkForward(p, a.asset, kind, a.layer, m, u);
    case InCustomData(payload, list, i, j, steps) =>
      var (ops, kind) := if payload then (s.payloads, PayloadArc) else (s.references, ReferenceArc);
      ItemNow(ops, p, kind, m, list, i);
      CustomForward(ItemAt(ops, list, i).value.customData[j], p, m, steps, u);
  }

  lemma {:induction false} RenamedKeeps(u: Use, m: Replacements)
    ensures var x := Renamed(u, m);
      x.layer == u.layer && x.spec == u.spec && x.field == u.field && x.kind == u.kind && x.hint == u.hint
  {
  }

  lemma {:induction false} CustomForward(e: Entry, p: Place, m: Replacements, steps: seq<Step>, u: Use)
    requires InFieldValue(e, steps, false, u) && Stands(u, p.layer, p.spec, p.field)
    ensures InFieldValue(NewEntry(e, p, false, m), steps, false, Renamed(u, m)) && Stands(Renamed(u, m), p.layer, p.spec, p.field)
  {
    hide InValue, NewValue;
    ValueForward(e.value.value, p, false, m, steps, u);
  }

  lemma {:induction false} CustomBackward(e: Entry, p: Place, m: Replacements, steps: seq<Step>, x: Use) returns (u: Use)
    requires InFieldValue(NewEntry(e, p, false, m), steps, false, x) && Stands(x, p.layer, p.spec, p.field)
    ensures InFieldValue(e, steps, false, u) && Stands(u, p.layer, p.spec, p.field) && x == Renamed(u, m)
  {
    hide InValue, NewValue;
    u := ValueBackward(e.value.value, p, false, m, steps, x);
  }

  lemma {:induction false} SpecBackward(s: Spec, layer: LayerId, path: int, sites: seq<Site>, m: Replacements, w: Spot, x: Use)
    returns (u: Use)
    requires InSpec(NewSpec(s, layer, path, sites, m), layer, SpecPath(path, sites, None), w, x)
    ensures InSpec(s, layer, SpecPath(path, sites, None), w, u) && x == Renamed(u, m)
  {
    hide NewField, NewInfo, NewPrimField, InFieldValue, InInfoEntry, InValue, NewValue, NewArcOps, ItemAt, LinksTo, NewAsset, Renamed,
      NewVariants, NewEntry;
    var at := SpecPath(path, sites, None);
    var p := Place(layer, Some(at), None);
    match w
    case InField(i, steps) =>
      PrimFieldIs(s.fields[i], p, m);
      u := FieldBackward(s.fields[i], p, s.fields[i].key == "clips", m, steps, x);
    case InInfo(i, j, steps) =>
      PrimFieldIs(s.fields[i], p, m);
      u := InfoBackward(s.fields[i].value.value.entries[j], p.(field := Some("assetInfo")), m, steps, x);
    case InMetadata(i, j, steps) =>
      var y := s.properties[i];
      PropertyPlaceIs(layer, at, y);
      KeyKept(y.metadata[j], PropertyPlace(layer, at, y.name), false, m);
      u := FieldBackward(y.metadata[j], PropertyPlace(layer, at, y.name), false, m, steps, x);
    case InDefault(i, steps) =>
      var y := s.properties[i];
      PropertyPlaceIs(layer, at, y);
      u := ValueBackward(y.standard.value, PropertyPlace(layer, at, y.name), false, m, steps, x);
    case InSample(i, j, steps) =>
      var y := s.properties[i];
      PropertyPlaceIs(layer, at, y);
      u := ValueBackward(y.samples.value[j].value, PropertyPlace(layer, at, y.name), false, m, steps, x);
    case InArc(payload, list, i) =>
      var (ops, kind) := if payload then (s.payloads, PayloadArc) else (s.references, ReferenceArc);
      ItemNow(ops, p, kind, m, list, i);
      var a := ItemAt(ops, list, i).value;
      u := LinkBackward(p, a.asset, kind, a.layer, m, x);
      RenamedKeeps(u, m);
    case InCustomData(payload, list, i, j, steps) =>
      var (ops, kind) := if payload then (s.payloads, PayloadArc) else (s.references, ReferenceArc);
      ItemNow(ops, p, kind, m, list, i);
      u := CustomBackward(ItemAt(ops, list, i).value.customData[j], p, m, steps, x);
  }

  // ------------------------------------------------------- branches and layers

  /** The rewritten spec has the branches of the spec, under the same names. */
  lemma {:induction false} BranchInPlace(s: Spec, layer: LayerId, path: int, sites: seq<Site>, m: Replacements, branch: seq<nat>)
    ensures var now := NewSpec(s, layer, path, sites, m);
      && (SpecAt(now, branch).Some? <==> SpecAt(s, branch).Some?)
      && (SpecAt(s, branch).Some? ==>
        && SitesAt(now, path, sites, branch) == SitesAt(s, path, sites, branch)
        && SpecAt(now, branch).value == NewSpec(SpecAt(s, branch).value, layer, path, SitesAt(s, path, sites, branch), m))
    decreases |branch|
  {
    hide NewPrimField, NewProperty, NewArcOps, Map;
    if branch != [] && branch[0] < |s.variants| {
      var v := s.variants[branch[0]];
      BranchInPlace(v.spec, layer, path, Within(path, sites, v), m, branch[1..]);
    }
  }

  lemma {:induction false} PrimForward(
      s: Spec, layer: LayerId, path: int, sites: seq<Site>, m: Replacements, branch: seq<nat>, w: Spot, u: Use)
    requires InPrimSpec(s, layer, path, sites, branch, w, u)
    ensures InPrimSpec(NewSpec(s, layer, path, sites, m), layer, path, sites, branch, w, Renamed(u, m))
  {
    hide InSpec, NewSpec, SpecAt, SitesAt, Renamed;
    BranchInPlace(s, layer, path, sites, m, branch);
    SpecForward(SpecAt(s, branch).value, layer, path, SitesAt(s, path, sites, branch), m, w, u);
  }

  lemma {:induction false} PrimBackward(
      s: Spec, layer: LayerId, path: int, sites: seq<Site>, m: Replacements, branch: seq<nat>, w: Spot, x: Use) returns (u: Use)
    requires InPrimSpec(NewSpec(s, layer, path, sites, m), layer, path, sites, branch, w, x)
    ensures InPrimSpec(s, layer, path, sites, branch, w, u) && x == Renamed(u, m)
  {
    hide InSpec, NewSpec, SpecAt, SitesAt, Renamed;
    BranchInPlace(s, layer, path, sites, m, branch);
    u := SpecBackward(SpecAt(s, branch).value, layer, path, SitesAt(s, path, sites, branch), m, w, x);
  }

  lemma {:induction false} Forward(l: Layer, m: Replacements, pos: Position, u: Use)
    requires Occurs(l, pos, u)
    ensures Occurs(NewLayer(l, m), pos, Renamed(u, m))
  {
    hide NewSpec, NewField, InPrimSpec, InFieldValue, LinksTo, NewAsset, Renamed;
    var p := Place(l.id, None, None);
    RenamedKeeps(u, m);
    match pos
    case InSublayer(i) => LinkForward(p, l.sublayers[i].asset, SublayerArc, l.sublayers[i].layer, m, u);
    case InLayerField(i, steps) => FieldForward(l.metadata[i], p, false, m, steps, u);
    case InPrim(i, branch, w) =>
      PrimForward(l.prims[i].spec, l.id, l.prims[i].path, l.prims[i].outerSites, m, branch, w, u);
  }

  lemma {:induction false} Backward(l: Layer, m: Replacements, pos: Position, x: Use) returns (u: Use)
    requires Occurs(NewLayer(l, m), pos, x)
    ensures Occurs(l, pos, u) && x == Renamed(u, m)
  {
    hide NewSpec, NewField, InPrimSpec, InFieldValue, LinksTo, NewAsset, Renamed;
    var p := Place(l.id, None, None);
    match pos
    case InSublayer(i) =>
      u := LinkBackward(p, l.sublayers[i].asset, SublayerArc, l.sublayers[i].layer, m, x);
      RenamedKeeps(u, m);
    case InLayerField(i, steps) =>
      KeyKept(l.metadata[i], p, false, m);
      u := FieldBackward(l.metadata[i], p, false, m, steps, x);
    case InPrim(i, branch, w) =>
      u := PrimBackward(l.prims[i].spec, l.id, l.prims[i].path, l.prims[i].outerSites, m, branch, w, x);
  }

  /** Whatever the replacements are, the rewritten layer has at each position
      exactly what the layer has there, with its identifier replaced. */
  lemma {:induction false} RewrittenInPlace(l: Layer, m: Replacements, pos: Position, x: Use)
    ensures Occurs(NewLayer(l, m), pos, x) <==> exists u :: Occurs(l, pos, u) && x == Renamed(u, m)
  {
    hide Occurs, NewLayer, Renamed;
    if Occurs(NewLayer(l, m), pos, x) { var u := Backward(l, m, pos, x); }
    if u :| Occurs(l, pos, u) && x == Renamed(u, m) { Forward(l, m, pos, u); }
  }
}
