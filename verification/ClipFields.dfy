/** Stitched clips said in the four fields of each source and its offset: what
    `stitch_clip_sequence` in `layerstack/src/clip_authoring.rs` accepts, what it
    answers otherwise, and the knots and times it gives. */
module ClipFields {
  import opened ClipTimes

  /** A bound is the field of its present name if there is one, then the field of
      its former name, then zero. */
  ghost predicate Reads(present: Bound, former: Bound, t: real) {
    match present
    case At(x) => t == x
    case NotATime => false
    case Missing =>
      match former
      case At(x) => t == x
      case NotATime => false
      case Missing => t == 0.0
  }

  /** The field a bound is read from holds something that is no time. */
  ghost predicate Unreadable(present: Bound, former: Bound) {
    present.NotATime? || (present.Missing? && former.NotATime?)
  }

  lemma {:induction false} BoundsAre(s: ClipSource)
    ensures s.StartBound().NotATime? <==> Unreadable(s.startTimeCode, s.startFrame)
    ensures s.EndBound().NotATime? <==> Unreadable(s.endTimeCode, s.endFrame)
    ensures forall t :: Reads(s.startTimeCode, s.startFrame, t) <==> !s.StartBound().NotATime? && t == Start(s)
    ensures forall t :: Reads(s.endTimeCode, s.endFrame, t) <==> !s.EndBound().NotATime? && t == End(s)
  {
  }

  /** The bounds of every source, as read. */
  ghost predicate ReadAll(sources: seq<ClipSource>, starts: seq<real>, ends: seq<real>) {
    && |starts| == |ends| == |sources|
    && forall i :: 0 <= i < |sources| ==>
      && Reads(sources[i].startTimeCode, sources[i].startFrame, starts[i])
      && Reads(sources[i].endTimeCode, sources[i].endFrame, ends[i])
  }

  /** The stage time of a clip's local time. */
  function Stage(o: LayerOffset, u: real): real { u * o.scale + o.offset }

  /** Stage time `t` is local time `u` of a clip that runs from `a` to `b`. */
  ghost predicate Plays(o: LayerOffset, a: real, b: real, t: real, u: real) {
    a <= u <= b && t == Stage(o, u)
  }

  /** No stage time is two local times of the two clips. */
  ghost predicate OneTime(o: LayerOffset, a: real, b: real, p: LayerOffset, c: real, d: real) {
    forall t, u, v :: Plays(o, a, b, t, u) && Plays(p, c, d, t, v) ==> u == v
  }

  lemma {:induction false} StageOrders(o: LayerOffset, a: real, b: real)
    requires o.scale > 0.0
    ensures a <= b <==> Stage(o, a) <= Stage(o, b)
  {
    var d := b - a;
    assert b * o.scale == a * o.scale + d * o.scale;
    if d < 0.0 { assert (-d) * o.scale > 0.0 && (-d) * o.scale == -(d * o.scale); }
  }

  lemma {:induction false} StageInverts(o: LayerOffset, t: real, u: real)
    requires o.scale > 0.0
    ensures t == Stage(o, u) <==> u == MapTime(o, t)
  {
    var w := MapTime(o, t);
    assert w * o.scale == t - o.offset;
    if t == Stage(o, u) { QuotientIs(u, t - o.offset, o.scale); }
  }

  lemma {:induction false} IntervalIs(s: ClipSource)
    ensures IntervalOf(s) == Interval(Stage(s.offset, Start(s)), Stage(s.offset, End(s)), s.offset)
  {
  }

  lemma {:induction false} PlaysIs(s: ClipSource, t: real, u: real)
    requires s.offset.scale > 0.0
    ensures Plays(s.offset, Start(s), End(s), t, u) <==> Within(IntervalOf(s), t) && u == MapTime(s.offset, t)
  {
    hide MapTime, Stage, IntervalOf, Start, End;
    IntervalIs(s);
    StageInverts(s.offset, t, u);
    StageOrders(s.offset, Start(s), u);
    StageOrders(s.offset, u, End(s));
  }

  lemma {:induction false} OneTimeIs(s: ClipSource, r: ClipSource)
    requires s.offset.scale > 0.0 && r.offset.scale > 0.0
    ensures OneTime(s.offset, Start(s), End(s), r.offset, Start(r), End(r)) <==> Agree(IntervalOf(s), IntervalOf(r))
  {
    hide Plays;
    if Agree(IntervalOf(s), IntervalOf(r)) {
      forall t, u, v | Plays(s.offset, Start(s), End(s), t, u) && Plays(r.offset, Start(r), End(r), t, v) ensures u == v {
        PlaysIs(s, t, u);
        PlaysIs(r, t, v);
      }
    }
    if OneTime(s.offset, Start(s), End(s), r.offset, Start(r), End(r)) {
      forall t | Within(IntervalOf(s), t) && Within(IntervalOf(r), t)
        ensures MapTime(s.offset, t) == MapTime(r.offset, t) {
        PlaysIs(s, t, MapTime(s.offset, t));
        PlaysIs(r, t, MapTime(r.offset, t));
      }
    }
  }

  /** The condition the sources must meet, on the bounds read. */
  ghost predicate Consistent(sources: seq<ClipSource>, starts: seq<real>, ends: seq<real>)
    requires |starts| == |ends| == |sources|
  {
    && (forall i :: 0 <= i < |sources| ==> sources[i].offset.scale > 0.0 && starts[i] <= ends[i])
    && (forall i, j :: 0 <= j < i < |sources| ==>
      && Stage(sources[i].offset, starts[i]) != Stage(sources[j].offset, starts[j])
      && OneTime(sources[i].offset, starts[i], ends[i], sources[j].offset, starts[j], ends[j]))
  }

  lemma {:induction false} BoundsRead(sources: seq<ClipSource>, starts: seq<real>, ends: seq<real>, i: nat)
    requires ReadAll(sources, starts, ends) && i < |sources|
    ensures starts[i] == Start(sources[i]) && ends[i] == End(sources[i])
    ensures !sources[i].StartBound().NotATime? && !sources[i].EndBound().NotATime?
  {
    BoundsAre(sources[i]);
  }

  lemma {:induction false} ConsistentIs(sources: seq<ClipSource>, starts: seq<real>, ends: seq<real>)
    requires ReadAll(sources, starts, ends)
    ensures Coherent(sources) <==> Consistent(sources, starts, ends)
  {
    hide OneTime, Agree, Reads, Stage, IntervalOf, Start, End;
    forall i: nat | i < |sources|
      ensures starts[i] == Start(sources[i]) && ends[i] == End(sources[i])
      ensures !sources[i].StartBound().NotATime? && !sources[i].EndBound().NotATime?
      ensures IntervalOf(sources[i]).start == Stage(sources[i].offset, starts[i])
      ensures IntervalOf(sources[i]).offset == sources[i].offset {
      BoundsRead(sources, starts, ends, i);
      IntervalIs(sources[i]);
    }
    forall i: nat, j: nat | j < i < |sources| && sources[i].offset.scale > 0.0 && sources[j].offset.scale > 0.0
      ensures OneTime(sources[i].offset, starts[i], ends[i], sources[j].offset, starts[j], ends[j])
        <==> Agree(IntervalOf(sources[i]), IntervalOf(sources[j])) {
      OneTimeIs(sources[i], sources[j]);
    }
  }

  /** A sequence with readable bounds is accepted exactly when it is not empty,
      scales are positive, bounds are ordered, no two clips start at one stage time
      and no stage time is two local times. */
  lemma {:induction false} AcceptedExactly(sources: seq<ClipSource>, starts: seq<real>, ends: seq<real>)
    requires ReadAll(sources, starts, ends)
    ensures Stitched(sources).Ok? <==> sources != [] && Consistent(sources, starts, ends)
  {
    hide Consistent, Coherent, ReadAll, Stitched;
    StitchedExactly(sources);
    ConsistentIs(sources, starts, ends);
  }

  /** One with a bound that cannot be read is not. */
  lemma {:induction false} AcceptedIsReadable(sources: seq<ClipSource>) returns (starts: seq<real>, ends: seq<real>)
    requires Stitched(sources).Ok?
    ensures ReadAll(sources, starts, ends)
  {
    hide Stitched, Reads;
    StitchedExactly(sources);
    starts := seq(|sources|, i requires 0 <= i < |sources| => Start(sources[i]));
    ends := seq(|sources|, i requires 0 <= i < |sources| => End(sources[i]));
    forall i | 0 <= i < |sources|
      ensures Reads(sources[i].startTimeCode, sources[i].startFrame, starts[i])
      ensures Reads(sources[i].endTimeCode, sources[i].endFrame, ends[i]) {
      BoundsAre(sources[i]);
    }
  }

  /** The first source that cannot follow those before it on its own account. */
  lemma {:induction false} RejectedFor(sources: seq<ClipSource>, i: nat)
    requires i < |sources| && (i == 0 || Stitched(sources[..i]).Ok?)
    ensures sources[i].offset.scale <= 0.0 ==> Stitched(sources) == Err(InvalidOffset(i))
    ensures var s := sources[i];
      s.offset.scale > 0.0
      && (Unreadable(s.startTimeCode, s.startFrame) || Unreadable(s.endTimeCode, s.endFrame)
          || exists a, b :: Reads(s.startTimeCode, s.startFrame, a) && Reads(s.endTimeCode, s.endFrame, b) && b < a)
      ==> Stitched(sources) == Err(InvalidTimeRange(i))
  {
    hide PairErrors, Reads, Unreadable, Stitched;
    if i > 0 {
      StitchedExactly(sources[..i]);
      CheckedIs(sources, i);
    }
    BoundsAre(sources[i]);
    SourceStep(sources, i);
    if SourceError(sources[i], i).Err? { Rejected(sources, i + 1); }
  }

  // ------------------------------------------------------------- the result

  /** Knot `p` is the start or the end of a clip that runs from `a` to `b`. */
  ghost predicate Bounds(o: LayerOffset, a: real, b: real, p: Knot) {
    p == Knot(Stage(o, a), a) || p == Knot(Stage(o, b), b)
  }

  lemma {:induction false} KnotsAre(s: ClipSource, p: Knot)
    ensures p in KnotsOf(s) <==> Bounds(s.offset, Start(s), End(s), p)
  {
    assert [Knot(IntervalOf(s).start, Start(s))][0] in KnotsOf(s);
    if End(s) != Start(s) { assert KnotsOf(s)[1] == Knot(IntervalOf(s).end, End(s)); }
  }

  /** The knots are exactly the bounds of the clips, each at the stage time its
      offset gives, in strict order of stage time; and so are the activations, one
      for each clip by its index, at its start. */
  lemma {:induction false} KnotsExactly(sources: seq<ClipSource>, starts: seq<real>, ends: seq<real>)
    requires Stitched(sources).Ok? && ReadAll(sources, starts, ends)
    ensures var Clips(active, times) := Stitched(sources).value;
      && (forall p :: p in times <==> exists i :: 0 <= i < |sources| && Bounds(sources[i].offset, starts[i], ends[i], p))
      && (forall i, j :: 0 <= i < j < |times| ==> times[i].at < times[j].at)
      && |active| == |sources|
      && (forall i: nat :: i < |sources| ==> Knot(Stage(sources[i].offset, starts[i]), i as real) in active)
      && (forall i, j :: 0 <= i < j < |active| ==> active[i].at < active[j].at)
  {
    hide Stitched, Reads, Bounds, Stage, IntervalOf, Start, End;
    StitchedIncreases(sources);
    var times := Stitched(sources).value.times;
    forall i: nat | i < |sources|
      ensures starts[i] == Start(sources[i]) && ends[i] == End(sources[i])
      ensures IntervalOf(sources[i]).start == Stage(sources[i].offset, starts[i]) {
      BoundsRead(sources, starts, ends, i);
      IntervalIs(sources[i]);
    }
    forall p ensures p in times <==> exists i :: 0 <= i < |sources| && Bounds(sources[i].offset, starts[i], ends[i], p) {
      KnotsFrom(sources, p);
      forall i: nat | i < |sources| ensures p in KnotsOf(sources[i]) <==> Bounds(sources[i].offset, starts[i], ends[i], p) {
        KnotsAre(sources[i], p);
      }
    }
  }

  /** The map reads every local time of every clip at the stage time the clip's
      offset gives it. */
  lemma {:induction false} ReadsLocalTimes(sources: seq<ClipSource>, starts: seq<real>, ends: seq<real>, i: nat, u: real)
    requires Stitched(sources).Ok? && ReadAll(sources, starts, ends) && i < |sources| && starts[i] <= u <= ends[i]
    ensures var (times, o) := (Stitched(sources).value.times, sources[i].offset);
      times != [] && Increasing(times) && InternalTime(times, Stage(o, u)) == u
  {
    hide Stitched, ReadAll, InternalTime, Increasing, Stage, IntervalOf, Start, End, MapTime;
    StitchedExactly(sources);
    BoundsRead(sources, starts, ends, i);
    var t := Stage(sources[i].offset, u);
    PlaysIs(sources[i], t, u);
    StitchedIsExact(sources, i, t);
  }

  /** Before the first knot and after the last their local times are held. */
  lemma {:induction false} HeldOutside(times: seq<Knot>, t: real)
    requires times != [] && Increasing(times)
    ensures t <= times[0].at ==> InternalTime(times, t) == times[0].value
    ensures t >= times[|times| - 1].at ==> InternalTime(times, t) == times[|times| - 1].value
  {
    var upper := Upper(times, t);
    if t >= times[|times| - 1].at && upper < |times| {
      assert upper == |times| - 1;
      if upper > 0 { LerpAtEnd(times[upper - 1], times[upper]); }
    }
  }
}
