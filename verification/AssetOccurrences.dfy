/** Where identifiers stand in a layer, as positions in it, and the proof that
    extraction finds exactly them: what
    `layerstack/src/asset_dependencies.rs` calls an authored use. */
module AssetOccurrences {
  import opened AssetUses

  /** A step into a value: to an array's item, a dictionary's entry or an operation
      of an edit. */
  datatype Step = Item(at: nat) | Key(at: nat) | Operation(at: nat)

  /** At the end of `steps` into `v` stands `text`, an identifier of the kind.
      `clip` is set in the clip metadata of a prim. */
  ghost predicate InValue(v: Value, steps: seq<Step>, clip: bool, text: string, kind: Kind)
    decreases v
  {
    match v
    case Asset(asset) => steps == [] && text == asset && kind == AssetValue
    case Text(_) => false
    case Array(items) =>
      steps != [] && steps[0].Item? && steps[0].at < |items| && InValue(items[steps[0].at], steps[1..], clip, text, kind)
    case Dictionary(entries) =>
      steps != [] && steps[0].Key? && steps[0].at < |entries| && InEntry(entries[steps[0].at], steps[1..], clip, text, kind)
    case ArrayEdit(ops) =>
      steps != [] && steps[0].Operation? && steps[0].at < |ops| && InOp(ops[steps[0].at], steps[1..], clip, text, kind)
    case TypedArrayEdit(ops, _) =>
      steps != [] && steps[0].Operation? && steps[0].at < |ops| && InOp(ops[steps[0].at], steps[1..], clip, text, kind)
    case Other(_) => false
  }

  ghost predicate InEntry(e: Entry, steps: seq<Step>, clip: bool, text: string, kind: Kind)
    decreases e
  {
    match e.value
    case Special(_) => false
    case Plain(v) =>
      if clip && e.key == "templateAssetPath" then steps == [] && v == Text(text) && kind == ClipTemplate
      else InValue(v, steps, clip, text, kind)
  }

  ghost predicate InOp(op: EditOp, steps: seq<Step>, clip: bool, text: string, kind: Kind)
    decreases op
  {
    match op
    case Write(src, _) => InOperand(src, steps, clip, text, kind)
    case Insert(src, _) => InOperand(src, steps, clip, text, kind)
    case MinSizeFill(_, fill) => InValue(fill, steps, clip, text, kind)
    case ResizeFill(_, fill) => InValue(fill, steps, clip, text, kind)
    case OtherOp(_) => false
  }

  ghost predicate InOperand(src: Operand, steps: seq<Step>, clip: bool, text: string, kind: Kind)
    decreases src
  {
    match src
    case Literal(v) => InValue(v, steps, clip, text, kind)
    case Index(_) => false
  }

  // ----------------------------------------------------------------- specs

  datatype List = Explicit | Prepended | Appended | Deleted | Added | Reordered

  function Nth<T>(s: seq<T>, i: nat): Option<T> { if i < |s| then Some(s[i]) else None }

  /** The item of one of the six lists of a list edit. */
  function ItemAt(ops: ArcOps, list: List, i: nat): Option<Arc> {
    match list
    case Explicit => if ops.explicitly.Some? then Nth(ops.explicitly.value, i) else None
    case Prepended => Nth(ops.prepend, i)
    case Appended => Nth(ops.append, i)
    case Deleted => Nth(ops.delete, i)
    case Added => Nth(ops.add, i)
    case Reordered => Nth(ops.reorder, i)
  }

  /** Where in a spec: in a metadata field, in an entry of `assetInfo`, in a
      property, or in the item of a list of references or payloads. */
  datatype Spot =
    | InField(field: nat, steps: seq<Step>)
    | InInfo(field: nat, entry: nat, steps: seq<Step>)
    | InMetadata(property: nat, field: nat, steps: seq<Step>)
    | InDefault(property: nat, steps: seq<Step>)
    | InSample(property: nat, sample: nat, steps: seq<Step>)
    | InArc(payload: bool, list: List, item: nat)
    | InCustomData(payload: bool, list: List, item: nat, entry: nat, steps: seq<Step>)

  /** `u` is at the place, with no target. */
  predicate Stands(u: Use, layer: LayerId, spec: Option<SpecPath>, field: Option<string>) {
    u.layer == layer && u.spec == spec && u.field == field && u.hint == None
  }

  ghost predicate InFieldValue(e: Entry, steps: seq<Step>, clip: bool, u: Use) {
    e.value.Plain? && InValue(e.value.value, steps, clip, u.identifier, u.kind)
  }

  predicate IsAssetInfo(e: Entry) { e.key == "assetInfo" && e.value.Plain? && e.value.value.Dictionary? }

  ghost predicate InInfoEntry(x: Entry, steps: seq<Step>, u: Use) {
    && x.value.Plain?
    && if x.key == "identifier" && x.value.value.Asset? then
        steps == [] && u.identifier == x.value.value.asset && u.kind == Identity
      else InValue(x.value.value, steps, false, u.identifier, u.kind)
  }

  /** `u` is the link of an arc or sublayer: its path, or nothing, and the layer it
      leads to unless that is its own or not known. */
  predicate LinksTo(u: Use, asset: Option<string>, target: LayerId) {
    && u.identifier == (match asset case Some(text) => text case None => "")
    && u.hint == if target == u.layer || target == 0xffff_ffff_ffff_ffff then None else Some(target)
  }

  ghost predicate InSpec(s: Spec, layer: LayerId, at: SpecPath, w: Spot, u: Use) {
    match w
    case InField(i, steps) =>
      && i < |s.fields| && !IsAssetInfo(s.fields[i])
      && InFieldValue(s.fields[i], steps, s.fields[i].key == "clips", u)
      && Stands(u, layer, Some(at), Some(s.fields[i].key))
    case InInfo(i, j, steps) =>
      && i < |s.fields| && IsAssetInfo(s.fields[i])
      && j < |s.fields[i].value.value.entries| && InInfoEntry(s.fields[i].value.value.entries[j], steps, u)
      && Stands(u, layer, Some(at), Some("assetInfo"))
    case InMetadata(i, j, steps) =>
      && i < |s.properties| && j < |s.properties[i].metadata|
      && InFieldValue(s.properties[i].metadata[j], steps, false, u)
      && Stands(u, layer, Some(OfProperty(at, s.properties[i])), Some(s.properties[i].metadata[j].key))
    case InDefault(i, steps) =>
      && i < |s.properties| && s.properties[i].standard.Some?
      && InValue(s.properties[i].standard.value, steps, false, u.identifier, u.kind)
      && Stands(u, layer, Some(OfProperty(at, s.properties[i])), Some(s.properties[i].name))
    case InSample(i, j, steps) =>
      && i < |s.properties| && s.properties[i].samples.Some? && j < |s.properties[i].samples.value|
      && InValue(s.properties[i].samples.value[j].value, steps, false, u.identifier, u.kind)
      && Stands(u, layer, Some(OfProperty(at, s.properties[i])), Some(s.properties[i].name))
    case InArc(payload, list, i) =>
      var arc := ItemAt(if payload then s.payloads else s.references, list, i);
      && arc.Some? && LinksTo(u, arc.value.asset, arc.value.layer)
      && u.layer == layer && u.spec == Some(at) && u.field == None
      && u.kind == if payload then PayloadArc else ReferenceArc
    case InCustomData(payload, list, i, j, steps) =>
      var arc := ItemAt(if payload then s.payloads else s.references, list, i);
      && arc.Some? && j < |arc.value.customData|
      && InFieldValue(arc.value.customData[j], steps, false, u)
      && Stands(u, layer, Some(at), None)
  }

  function OfProperty(at: SpecPath, x: Property): SpecPath { SpecPath(at.path, at.sites, Some(x.name)) }

  // ------------------------------------------------------- branches, layers

  /** The variant spec reached by the indices of variants, one within another. */
  function SpecAt(s: Spec, branch: seq<nat>): Option<Spec>
    decreases |branch|
  {
    if branch == [] then Some(s)
    else if branch[0] < |s.variants| then SpecAt(s.variants[branch[0]].spec, branch[1..])
    else None
  }

  /** The set and variant names on the way, outermost first, after `sites`. */
  function SitesAt(s: Spec, path: int, sites: seq<Site>, branch: seq<nat>): seq<Site>
    requires SpecAt(s, branch).Some?
    decreases |branch|
  {
    if branch == [] then sites
    else
      var v := s.variants[branch[0]];
      SitesAt(v.spec, path, sites + [Site(path, v.within, v.name)], branch[1..])
  }

  datatype Position =
    | InSublayer(sublayer: nat)
    | InLayerField(field: nat, steps: seq<Step>)
    | InPrim(prim: nat, branch: seq<nat>, spot: Spot)

  /** `u` stands at a position of the layer. */
  ghost predicate Occurs(l: Layer, pos: Position, u: Use) {
    match pos
    case InSublayer(i) =>
      && i < |l.sublayers| && u.layer == l.id && u.spec == None && u.field == None && u.kind == SublayerArc
      && LinksTo(u, l.sublayers[i].asset, l.sublayers[i].layer)
    case InLayerField(i, steps) =>
      && i < |l.metadata| && InFieldValue(l.metadata[i], steps, false, u)
      && Stands(u, l.id, None, Some(l.metadata[i].key))
    case InPrim(i, branch, w) =>
      && i < |l.prims| && InPrimSpec(l.prims[i].spec, l.id, l.prims[i].path, l.prims[i].outerSites, branch, w, u)
  }

  ghost predicate InPrimSpec(
      s: Spec, layer: LayerId, path: int, sites: seq<Site>, branch: seq<nat>, w: Spot, u: Use) {
    SpecAt(s, branch).Some? && InSpec(SpecAt(s, branch).value, layer, SpecPath(path, SitesAt(s, path, sites, branch), None), w, u)
  }

  /** An identifier, or an unnamed link to another layer. */
  predicate Shown(u: Use) { u.identifier != "" || u.hint != None }

  // ------------------------------------------------------------- the proof

  ghost predicate SomeStep(v: Value, clip: bool, u: Use) {
    exists steps :: InValue(v, steps, clip, u.identifier, u.kind)
  }

  /** `u` is an identifier at a place. */
  predicate Named(u: Use, p: Place) { Stands(u, p.layer, p.spec, p.field) && u.identifier != "" }

  lemma {:induction false} PushedIs(p: Place, text: string, kind: Kind, u: Use)
    ensures u in Pushed(p, text, kind, None) <==> Named(u, p) && u.identifier == text && u.kind == kind
  {
  }

  lemma {:induction false} ValueFinds(v: Value, p: Place, clip: bool, u: Use)
    ensures u in ValueUses(v, p, clip) <==> Named(u, p) && SomeStep(v, clip, u)
    decreases v
  {
    hide Union, Pushed, Named;
    match v
    case Asset(asset) =>
      PushedIs(p, asset, AssetValue, u);
      if u.identifier == asset && u.kind == AssetValue { assert InValue(v, [], clip, u.identifier, u.kind); }
    case Text(_) =>
    case Array(items) =>
      UnionIs(ItemsUses(items, p, clip), u);
      forall i | 0 <= i < |items| ensures u in ItemsUses(items, p, clip)[i] <==> Named(u, p) && SomeStep(items[i], clip, u) {
        ValueFinds(items[i], p, clip, u);
      }
      if i: nat :| i < |items| && SomeStep(items[i], clip, u) {
        var steps: seq<Step> :| InValue(items[i], steps, clip, u.identifier, u.kind);
        Steps(Item(i), steps);
        assert InValue(v, [Item(i)] + steps, clip, u.identifier, u.kind);
      }
      if SomeStep(v, clip, u) {
        var steps: seq<Step> :| InValue(v, steps, clip, u.identifier, u.kind);
        assert InValue(items[steps[0].at], steps[1..], clip, u.identifier, u.kind);
      }
    case Dictionary(entries) =>
      UnionIs(EntriesUses(entries, p, clip), u);
      forall i | 0 <= i < |entries| ensures u in EntriesUses(entries, p, clip)[i] <==> Named(u, p) && SomeEntry(entries[i], clip, u) {
        EntryFinds(entries[i], p, clip, u);
      }
      if i: nat :| i < |entries| && SomeEntry(entries[i], clip, u) {
        var steps: seq<Step> :| InEntry(entries[i], steps, clip, u.identifier, u.kind);
        Steps(Key(i), steps);
        assert InValue(v, [Key(i)] + steps, clip, u.identifier, u.kind);
      }
      if SomeStep(v, clip, u) {
        var steps: seq<Step> :| InValue(v, steps, clip, u.identifier, u.kind);
        assert InEntry(entries[steps[0].at], steps[1..], clip, u.identifier, u.kind);
      }
    case ArrayEdit(ops) => OpsFind(ops, v, p, clip, u);
    case TypedArrayEdit(ops, _) => OpsFind(ops, v, p, clip, u);
    case Other(_) =>
  }

  lemma {:induction false} Steps(first: Step, steps: seq<Step>)
    ensures var all := [first] + steps; all != [] && all[0] == first && all[1..] == steps
  {
  }

  ghost predicate SomeEntry(e: Entry, clip: bool, u: Use) {
    exists steps :: InEntry(e, steps, clip, u.identifier, u.kind)
  }

  ghost predicate SomeOp(op: EditOp, clip: bool, u: Use) {
    exists steps :: InOp(op, steps, clip, u.identifier, u.kind)
  }

  lemma {:induction false} EntryFinds(e: Entry, p: Place, clip: bool, u: Use)
    ensures u in EntryUses(e, p, clip) <==> Named(u, p) && SomeEntry(e, clip, u)
    decreases e
  {
    hide Pushed, Named;
    if e.value.Plain? {
      var v := e.value.value;
      if clip && e.key == "templateAssetPath" {
        if v.Text? { PushedIs(p, v.text, ClipTemplate, u); }
        if v == Text(u.identifier) && u.kind == ClipTemplate { assert InEntry(e, [], clip, u.identifier, u.kind); }
      } else {
        ValueFinds(v, p, clip, u);
        forall steps ensures InEntry(e, steps, clip, u.identifier, u.kind) <==> InValue(v, steps, clip, u.identifier, u.kind) {
        }
      }
    }
  }

  lemma {:induction false} OpFinds(op: EditOp, p: Place, clip: bool, u: Use)
    ensures u in OpUses(op, p, clip) <==> Named(u, p) && SomeOp(op, clip, u)
    decreases op
  {
    hide Named;
    var v: Option<Value> := match op
      case Write(src, _) => if src.Literal? then Some(src.value) else None
      case Insert(src, _) => if src.Literal? then Some(src.value) else None
      case MinSizeFill(_, fill) => Some(fill)
      case ResizeFill(_, fill) => Some(fill)
      case OtherOp(_) => None;
    assert Literals(op) == v;
    if v.Some? {
      ValueFinds(v.value, p, clip, u);
      forall steps ensures InOp(op, steps, clip, u.identifier, u.kind) <==> InValue(v.value, steps, clip, u.identifier, u.kind) {
      }
    } else {
      forall steps ensures !InOp(op, steps, clip, u.identifier, u.kind) {
      }
    }
  }

  lemma {:induction false} OpsFind(ops: seq<EditOp>, v: Value, p: Place, clip: bool, u: Use)
    requires v == ArrayEdit(ops) || (v.TypedArrayEdit? && v.program == ops)
    ensures u in Union(OpsUses(ops, p, clip)) <==> Named(u, p) && SomeStep(v, clip, u)
    decreases ops
  {
    hide Union, Named;
    UnionIs(OpsUses(ops, p, clip), u);
    forall i | 0 <= i < |ops| ensures u in OpsUses(ops, p, clip)[i] <==> Named(u, p) && SomeOp(ops[i], clip, u) {
      OpFinds(ops[i], p, clip, u);
    }
    if i: nat :| i < |ops| && SomeOp(ops[i], clip, u) {
      var steps: seq<Step> :| InOp(ops[i], steps, clip, u.identifier, u.kind);
      Steps(Operation(i), steps);
      assert InValue(v, [Operation(i)] + steps, clip, u.identifier, u.kind);
    }
    if SomeStep(v, clip, u) {
      var steps: seq<Step> :| InValue(v, steps, clip, u.identifier, u.kind);
      assert InOp(ops[steps[0].at], steps[1..], clip, u.identifier, u.kind);
      assert SomeOp(ops[steps[0].at], clip, u);
    }
  }

  // ------------------------------------------------------- fields of a spec

  lemma {:induction false} FieldFinds(e: Entry, p: Place, clip: bool, u: Use)
    ensures u in FieldUses(p, clip)(e) <==>
      Named(u, p.(field := Some(e.key))) && exists steps :: InFieldValue(e, steps, clip, u)
  {
    hide ValueUses, Named;
    if e.value.Plain? {
      ValueFinds(e.value.value, p.(field := Some(e.key)), clip, u);
      forall steps ensures InFieldValue(e, steps, clip, u) <==> InValue(e.value.value, steps, clip, u.identifier, u.kind) {
      }
    }
  }

  lemma {:induction false} InfoFinds(x: Entry, p: Place, u: Use)
    ensures u in InfoUses(p)(x) <==> Named(u, p) && exists steps :: InInfoEntry(x, steps, u)
  {
    hide ValueUses, Named, Pushed, InValue;
    if x.value.Plain? {
      var v := x.value.value;
      if x.key == "identifier" && v.Asset? {
        PushedIs(p, v.asset, Identity, u);
        if u.identifier == v.asset && u.kind == Identity { assert InInfoEntry(x, [], u); }
      } else {
        ValueFinds(v, p, false, u);
        forall steps ensures InInfoEntry(x, steps, u) <==> InValue(v, steps, false, u.identifier, u.kind) {
        }
      }
    }
  }

  lemma {:induction false} SameInfo(e: Entry)
    ensures IsInfo(e) <==> IsAssetInfo(e)
  {
  }

  lemma {:induction false} FieldsFind(s: Spec, layer: LayerId, at: SpecPath, u: Use) returns (w: Spot)
    requires u in PrimFieldsUses(s.fields, Place(layer, Some(at), None))
    ensures u.identifier != "" && InSpec(s, layer, at, w, u)
  {
    hide Each, InfoUses, FieldUses, InFieldValue, InInfoEntry;
    var p := Place(layer, Some(at), None);
    EachIs(s.fields, PrimFieldUses(p), u);
    var i: nat :| i < |s.fields| && u in PrimFieldUses(p)(s.fields[i]);
    var e := s.fields[i];
    SameInfo(e);
    var here := p.(field := Some(e.key));
    if IsInfo(e) {
      var entries := e.value.value.entries;
      EachIs(entries, InfoUses(here), u);
      var j: nat :| j < |entries| && u in InfoUses(here)(entries[j]);
      InfoFinds(entries[j], here, u);
      var steps :| InInfoEntry(entries[j], steps, u);
      w := InInfo(i, j, steps);
    } else {
      FieldFinds(e, p, e.key == "clips", u);
      var steps :| InFieldValue(e, steps, e.key == "clips", u);
      w := InField(i, steps);
    }
  }

  lemma {:induction false} FieldsFound(s: Spec, layer: LayerId, at: SpecPath, w: Spot, u: Use)
    requires (w.InField? || w.InInfo?) && InSpec(s, layer, at, w, u) && u.identifier != ""
    ensures u in PrimFieldsUses(s.fields, Place(layer, Some(at), None))
  {
    hide Each, InfoUses, FieldUses, InFieldValue, InInfoEntry;
    var p := Place(layer, Some(at), None);
    EachIs(s.fields, PrimFieldUses(p), u);
    var e := s.fields[w.field];
    SameInfo(e);
    var here := p.(field := Some(e.key));
    if w.InInfo? {
      var entries := e.value.value.entries;
      InfoFinds(entries[w.entry], here, u);
      EachIs(entries, InfoUses(here), u);
    } else {
      FieldFinds(e, p, e.key == "clips", u);
    }
    assert u in PrimFieldUses(p)(s.fields[w.field]);
  }

  // --------------------------------------------------------------- properties

  lemma {:induction false} SomeValue(v: Value, p: Place, u: Use) returns (steps: seq<Step>)
    requires u in ValueUses(v, p, false)
    ensures Named(u, p) && InValue(v, steps, false, u.identifier, u.kind)
  {
    ValueFinds(v, p, false, u);
    steps :| InValue(v, steps, false, u.identifier, u.kind);
  }

  lemma {:induction false} ValueFound(v: Value, p: Place, steps: seq<Step>, u: Use)
    requires Named(u, p) && InValue(v, steps, false, u.identifier, u.kind)
    ensures u in ValueUses(v, p, false)
  {
    hide InValue;
    ValueFinds(v, p, false, u);
  }

  lemma {:induction false} PropertyPlaceIs(layer: LayerId, at: SpecPath, x: Property)
    ensures PropertyPlace(layer, at, x.name) == Place(layer, Some(OfProperty(at, x)), Some(x.name))
  {
  }

  lemma {:induction false} PropertyFinds(s: Spec, i: nat, layer: LayerId, at: SpecPath, u: Use) returns (w: Spot)
    requires i < |s.properties| && u in UsesOfProperty(s.properties[i], PropertyPlace(layer, at, s.properties[i].name))
    ensures u.identifier != "" && InSpec(s, layer, at, w, u)
  {
    hide Each, ValueUses, InValue, FieldUses, OfProperty, PropertyPlace;
    var x := s.properties[i];
    var p := PropertyPlace(layer, at, x.name);
    PropertyPlaceIs(layer, at, x);
    if u in Each(x.metadata, FieldUses(p, false)) {
      EachIs(x.metadata, FieldUses(p, false), u);
      var j: nat :| j < |x.metadata| && u in FieldUses(p, false)(x.metadata[j]);
      FieldFinds(x.metadata[j], p, false, u);
      var steps :| InFieldValue(x.metadata[j], steps, false, u);
      w := InMetadata(i, j, steps);
    } else if u in DefaultUses(x.standard, p) {
      var steps := SomeValue(x.standard.value, p, u);
      w := InDefault(i, steps);
    } else {
      EachIs(Samples(x.samples), SampleUses(p), u);
      var j: nat :| j < |Samples(x.samples)| && u in SampleUses(p)(Samples(x.samples)[j]);
      var steps := SomeValue(Samples(x.samples)[j].value, p, u);
      w := InSample(i, j, steps);
    }
  }

  lemma {:induction false} PropertyFound(s: Spec, layer: LayerId, at: SpecPath, w: Spot, u: Use)
    requires (w.InMetadata? || w.InDefault? || w.InSample?) && InSpec(s, layer, at, w, u) && u.identifier != ""
    ensures u in UsesOfProperty(s.properties[w.property], PropertyPlace(layer, at, s.properties[w.property].name))
  {
    hide Each, ValueUses, InValue, FieldUses, OfProperty, PropertyPlace;
    var x := s.properties[w.property];
    var p := PropertyPlace(layer, at, x.name);
    PropertyPlaceIs(layer, at, x);
    match w
    case InMetadata(_, j, steps) =>
      FieldFinds(x.metadata[j], p, false, u);
      EachIs(x.metadata, FieldUses(p, false), u);
    case InDefault(_, steps) =>
      ValueFound(x.standard.value, p, steps, u);
    case InSample(_, j, steps) =>
      var samples := Samples(x.samples);
      ValueFound(samples[j].value, p, steps, u);
      EachIs(samples, SampleUses(p), u);
      assert u in SampleUses(p)(samples[j]);
  }

  lemma {:induction false} PropertiesFind(s: Spec, layer: LayerId, at: SpecPath, u: Use) returns (w: Spot)
    requires u in PropertiesUses(s.properties, layer, at)
    ensures u.identifier != "" && InSpec(s, layer, at, w, u)
  {
    hide Each, UsesOfProperty, InSpec;
    EachIs(s.properties, PropertyUses(layer, at), u);
    var i: nat :| i < |s.properties| && u in PropertyUses(layer, at)(s.properties[i]);
    w := PropertyFinds(s, i, layer, at, u);
  }

  lemma {:induction false} PropertiesFound(s: Spec, layer: LayerId, at: SpecPath, w: Spot, u: Use)
    requires (w.InMetadata? || w.InDefault? || w.InSample?) && InSpec(s, layer, at, w, u) && u.identifier != ""
    ensures u in PropertiesUses(s.properties, layer, at)
  {
    hide Each, UsesOfProperty, InFieldValue, InValue;
    PropertyFound(s, layer, at, w, u);
    EachIs(s.properties, PropertyUses(layer, at), u);
    assert u in PropertyUses(layer, at)(s.properties[w.property]);
  }

  // --------------------------------------------------------------------- arcs

  lemma {:induction false} ItemFinds(ops: ArcOps, i: nat) returns (list: List, j: nat)
    requires i < |Items(ops)|
    ensures ItemAt(ops, list, j) == Some(Items(ops)[i])
  {
    var e := if ops.explicitly.Some? then ops.explicitly.value else [];
    var (a, b) := (|e|, |e| + |ops.delete|);
    var c := b + |ops.add|;
    var (d, f) := (c + |ops.prepend|, c + |ops.prepend| + |ops.append|);
    if i < a {
      list, j := Explicit, i;
    } else if i < b {
      list, j := Deleted, i - a;
    } else if i < c {
      list, j := Added, i - b;
    } else if i < d {
      list, j := Prepended, i - c;
    } else if i < f {
      list, j := Appended, i - d;
    } else {
      list, j := Reordered, i - f;
    }
  }

  lemma {:induction false} ItemFound(ops: ArcOps, list: List, j: nat)
    requires ItemAt(ops, list, j).Some?
    ensures exists i: nat :: i < |Items(ops)| && Items(ops)[i] == ItemAt(ops, list, j).value
  {
    var a := ItemAt(ops, list, j).value;
    var e := if ops.explicitly.Some? then ops.explicitly.value else [];
    assert list.Explicit? ==> a in e;
    assert list.Deleted? ==> a in ops.delete;
    assert list.Added? ==> a in ops.add;
    assert list.Prepended? ==> a in ops.prepend;
    assert list.Appended? ==> a in ops.append;
    assert list.Reordered? ==> a in ops.reorder;
    assert a in Items(ops);
  }

  lemma {:induction false} LinkIs(p: Place, asset: Option<string>, kind: Kind, target: LayerId, u: Use)
    ensures u in Pushed(p, Path(asset), kind, Some(target)) <==>
      && Shown(u) && u.layer == p.layer && u.spec == p.spec && u.field == p.field && u.kind == kind
      && LinksTo(u, asset, target)
  {
  }

  lemma {:induction false} CustomFinds(e: Entry, p: Place, u: Use)
    ensures u in CustomUses(p)(e) <==> Named(u, p) && exists steps :: InFieldValue(e, steps, false, u)
  {
    hide EntryUses, Named, InValue;
    EntryFinds(e, p, false, u);
    forall steps ensures InEntry(e, steps, false, u.identifier, u.kind) <==> InFieldValue(e, steps, false, u) {
    }
  }

  lemma {:induction false} ArcsFind(s: Spec, payload: bool, layer: LayerId, at: SpecPath, u: Use) returns (w: Spot)
    requires var (ops, kind) := if payload then (s.payloads, PayloadArc) else (s.references, ReferenceArc);
      u in ArcOpsUses(ops, Place(layer, Some(at), None), kind)
    ensures Shown(u) && InSpec(s, layer, at, w, u)
  {
    hide Each, CustomUses, InFieldValue, Pushed, LinksTo, Items, ItemAt;
    var (ops, kind) := if payload then (s.payloads, PayloadArc) else (s.references, ReferenceArc);
    var p := Place(layer, Some(at), None);
    EachIs(Items(ops), ArcUses(p, kind), u);
    var i: nat :| i < |Items(ops)| && u in ArcUses(p, kind)(Items(ops)[i]);
    var a := Items(ops)[i];
    var list, j := ItemFinds(ops, i);
    LinkIs(p, a.asset, kind, a.layer, u);
    if u in Pushed(p, Path(a.asset), kind, Some(a.layer)) {
      w := InArc(payload, list, j);
    } else {
      EachIs(a.customData, CustomUses(p), u);
      var k: nat :| k < |a.customData| && u in CustomUses(p)(a.customData[k]);
      CustomFinds(a.customData[k], p, u);
      var steps :| InFieldValue(a.customData[k], steps, false, u);
      w := InCustomData(payload, list, j, k, steps);
    }
  }

  lemma {:induction false} ArcsFound(s: Spec, layer: LayerId, at: SpecPath, w: Spot, u: Use)
    requires (w.InArc? || w.InCustomData?) && InSpec(s, layer, at, w, u) && Shown(u)
    ensures var (ops, kind) := if w.payload then (s.payloads, PayloadArc) else (s.references, ReferenceArc);
      u in ArcOpsUses(ops, Place(layer, Some(at), None), kind)
  {
    hide Each, CustomUses, InFieldValue, Pushed, LinksTo, Items, ItemAt;
    var (ops, kind) := if w.payload then (s.payloads, PayloadArc) else (s.references, ReferenceArc);
    var p := Place(layer, Some(at), None);
    ItemFound(ops, w.list, w.item);
    var a := ItemAt(ops, w.list, w.item).value;
    var i: nat :| i < |Items(ops)| && Items(ops)[i] == a;
    LinkIs(p, a.asset, kind, a.layer, u);
    if w.InCustomData? {
      CustomFinds(a.customData[w.entry], p, u);
      EachIs(a.customData, CustomUses(p), u);
    }
    EachIs(Items(ops), ArcUses(p, kind), u);
    assert u in ArcUses(p, kind)(Items(ops)[i]);
  }

  // -------------------------------------------------------- specs and layers

  lemma {:induction false} OwnFinds(s: Spec, layer: LayerId, at: SpecPath, u: Use)
    ensures u in OwnUses(s, layer, at) <==> Shown(u) && exists w :: InSpec(s, layer, at, w, u)
  {
    hide PrimFieldsUses, PropertiesUses, ArcOpsUses, InSpec;
    var p := Place(layer, Some(at), None);
    if u in OwnUses(s, layer, at) {
      var w;
      if u in PrimFieldsUses(s.fields, p) { w := FieldsFind(s, layer, at, u); }
      else if u in PropertiesUses(s.properties, layer, at) { w := PropertiesFind(s, layer, at, u); }
      else if u in ArcOpsUses(s.references, p, ReferenceArc) { w := ArcsFind(s, false, layer, at, u); }
      else { w := ArcsFind(s, true, layer, at, u); }
    }
    if w :| Shown(u) && InSpec(s, layer, at, w, u) {
      if !w.InArc? { NoTarget(s, layer, at, w, u); }
      if w.InField? || w.InInfo? { FieldsFound(s, layer, at, w, u); }
      else if w.InArc? || w.InCustomData? { ArcsFound(s, layer, at, w, u); }
      else { PropertiesFound(s, layer, at, w, u); }
    }
  }

  lemma {:induction false} NoTarget(s: Spec, layer: LayerId, at: SpecPath, w: Spot, u: Use)
    requires InSpec(s, layer, at, w, u) && Shown(u) && !w.InArc?
    ensures u.identifier != ""
  {
  }

  ghost predicate SomeBranch(s: Spec, layer: LayerId, path: int, sites: seq<Site>, u: Use) {
    exists branch, w :: InPrimSpec(s, layer, path, sites, branch, w, u)
  }

  lemma {:induction false} BranchStep(s: Spec, layer: LayerId, path: int, sites: seq<Site>, i: nat, rest: seq<nat>, w: Spot, u: Use)
    requires i < |s.variants|
    ensures InPrimSpec(s, layer, path, sites, [i] + rest, w, u)
      <==> InPrimSpec(s.variants[i].spec, layer, path, Within(path, sites, s.variants[i]), rest, w, u)
  {
    hide InSpec;
    var branch := [i] + rest;
    assert branch[0] == i && branch[1..] == rest;
  }

  lemma {:induction false} RootSpec(s: Spec, layer: LayerId, path: int, sites: seq<Site>, w: Spot, u: Use)
    ensures InPrimSpec(s, layer, path, sites, [], w, u) <==> InSpec(s, layer, SpecPath(path, sites, None), w, u)
  {
    hide InSpec;
  }

  lemma {:induction false} TreeFinds(s: Spec, layer: LayerId, path: int, sites: seq<Site>, u: Use)
    ensures u in TreeUses(s, layer, path, sites) <==> Shown(u) && SomeBranch(s, layer, path, sites, u)
    decreases s
  {
    hide OwnUses, Union, InPrimSpec, InSpec;
    var at := SpecPath(path, sites, None);
    OwnFinds(s, layer, at, u);
    UnionIs(VariantsUses(s.variants, layer, path, sites), u);
    forall i | 0 <= i < |s.variants|
      ensures u in VariantsUses(s.variants, layer, path, sites)[i] <==>
        Shown(u) && SomeBranch(s.variants[i].spec, layer, path, Within(path, sites, s.variants[i]), u) {
      TreeFinds(s.variants[i].spec, layer, path, Within(path, sites, s.variants[i]), u);
    }
    if w :| InSpec(s, layer, at, w, u) { RootSpec(s, layer, path, sites, w, u); }
    if i: nat :| i < |s.variants| && SomeBranch(s.variants[i].spec, layer, path, Within(path, sites, s.variants[i]), u) {
      var rest: seq<nat>, w :| InPrimSpec(s.variants[i].spec, layer, path, Within(path, sites, s.variants[i]), rest, w, u);
      BranchStep(s, layer, path, sites, i, rest, w, u);
    }
    if SomeBranch(s, layer, path, sites, u) {
      var branch: seq<nat>, w :| InPrimSpec(s, layer, path, sites, branch, w, u);
      SplitBranch(s, layer, path, sites, branch, w, u);
    }
  }

  lemma {:induction false} SplitBranch(s: Spec, layer: LayerId, path: int, sites: seq<Site>, branch: seq<nat>, w: Spot, u: Use)
    requires InPrimSpec(s, layer, path, sites, branch, w, u)
    ensures branch == [] ==> InSpec(s, layer, SpecPath(path, sites, None), w, u)
    ensures branch != [] ==>
      && branch[0] < |s.variants|
      && SomeBranch(s.variants[branch[0]].spec, layer, path, Within(path, sites, s.variants[branch[0]]), u)
  {
    hide InSpec;
    if branch != [] {
      assert branch == [branch[0]] + branch[1..];
      BranchStep(s, layer, path, sites, branch[0], branch[1..], w, u);
    }
  }

  /** Extraction finds exactly what stands at the positions of a layer: each
      identifier, and each unnamed link to another layer, with its place, kind and
      target. */
  lemma {:induction false} UsesAreOccurrences(l: Layer, u: Use)
    ensures u in LayerUses(l) <==> Shown(u) && exists pos :: Occurs(l, pos, u)
  {
    hide Each, TreeUses, FieldUses, InFieldValue, InPrimSpec, LinksTo, Pushed;
    var p := Place(l.id, None, None);
    if u in LayerUses(l) {
      if u in Each(l.sublayers, SublayerUses(p)) {
        EachIs(l.sublayers, SublayerUses(p), u);
        var i: nat :| i < |l.sublayers| && u in SublayerUses(p)(l.sublayers[i]);
        LinkIs(p, l.sublayers[i].asset, SublayerArc, l.sublayers[i].layer, u);
        assert Occurs(l, InSublayer(i), u);
      } else if u in Each(l.metadata, FieldUses(p, false)) {
        EachIs(l.metadata, FieldUses(p, false), u);
        var i: nat :| i < |l.metadata| && u in FieldUses(p, false)(l.metadata[i]);
        FieldFinds(l.metadata[i], p, false, u);
        var steps :| InFieldValue(l.metadata[i], steps, false, u);
        assert Occurs(l, InLayerField(i, steps), u);
      } else {
        EachIs(l.prims, PrimUses(l.id), u);
        var i: nat :| i < |l.prims| && u in PrimUses(l.id)(l.prims[i]);
        TreeFinds(l.prims[i].spec, l.id, l.prims[i].path, l.prims[i].outerSites, u);
        var branch: seq<nat>, w :|
          InPrimSpec(l.prims[i].spec, l.id, l.prims[i].path, l.prims[i].outerSites, branch, w, u);
        assert Occurs(l, InPrim(i, branch, w), u);
      }
    }
    if pos :| Shown(u) && Occurs(l, pos, u) { OccurrenceFound(l, pos, u); }
  }

  lemma {:induction false} OccurrenceFound(l: Layer, pos: Position, u: Use)
    requires Shown(u) && Occurs(l, pos, u)
    ensures u in LayerUses(l)
  {
    hide Each, TreeUses, FieldUses, InFieldValue, InPrimSpec, LinksTo, Pushed;
    var p := Place(l.id, None, None);
    match pos
    case InSublayer(i) =>
      LinkIs(p, l.sublayers[i].asset, SublayerArc, l.sublayers[i].layer, u);
      EachIs(l.sublayers, SublayerUses(p), u);
      assert u in SublayerUses(p)(l.sublayers[i]);
    case InLayerField(i, steps) =>
      FieldFinds(l.metadata[i], p, false, u);
      EachIs(l.metadata, FieldUses(p, false), u);
    case InPrim(i, branch, w) =>
      TreeFinds(l.prims[i].spec, l.id, l.prims[i].path, l.prims[i].outerSites, u);
      EachIs(l.prims, PrimUses(l.id), u);
      assert u in PrimUses(l.id)(l.prims[i]);
  }
}
