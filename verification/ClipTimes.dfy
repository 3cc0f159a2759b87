/** The time mapping of a value-clip sequence: the part of
    `stitch_clip_sequence` in `layerstack/src/clip_authoring.rs` that maps clip
    times, and how `layerstack/src/value_clips/eval.rs` reads the result. */
module ClipTimes {

  datatype Result<+T> = Ok(value: T) | Err(error: ClipError)

  datatype ClipError =
    | EmptySequence
    | InvalidOffset(source: nat)
    | InvalidTimeRange(source: nat)
    | DuplicateActivation
    | ConflictingTimeMapping

  /** The affine map from a clip's own times to the stage's. */
  datatype LayerOffset = LayerOffset(offset: real, scale: real)

  /** A field of a layer read as a time: absent, a finite double, or a value
      that is no time. */
  datatype Bound = Missing | At(time: real) | NotATime

  datatype ClipSource = ClipSource(
    startTimeCode: Bound, startFrame: Bound, endTimeCode: Bound, endFrame: Bound, offset: LayerOffset)
  {
    function StartBound(): Bound { if startTimeCode.Missing? then startFrame else startTimeCode }
    function EndBound(): Bound { if endTimeCode.Missing? then endFrame else endTimeCode }
  }

  datatype Interval = Interval(start: real, end: real, offset: LayerOffset)

  /** A stage time and the clip-local time it maps to, or the index of the
      clip that becomes active there. */
  datatype Knot = Knot(at: real, value: real)

  datatype Clips = Clips(active: seq<Knot>, times: seq<Knot>)

  function TimeOf(b: Bound): real { if b.At? then b.time else 0.0 }

  function Start(s: ClipSource): real { TimeOf(s.StartBound()) }

  function End(s: ClipSource): real { TimeOf(s.EndBound()) }

  function StageOf(o: LayerOffset, local: real): real { local * o.scale + o.offset }

  function MapTime(o: LayerOffset, stage: real): real
    requires o.scale > 0.0
  {
    (stage - o.offset) / o.scale
  }

  function IntervalOf(s: ClipSource): Interval {
    Interval(StageOf(s.offset, Start(s)), StageOf(s.offset, End(s)), s.offset)
  }

  predicate ValidSource(s: ClipSource) {
    s.offset.scale > 0.0 && !s.StartBound().NotATime? && !s.EndBound().NotATime? && Start(s) <= End(s)
  }

  function RMax(a: real, b: real): real { if a < b then b else a }

  function RMin(a: real, b: real): real { if a < b then a else b }

  // ------------------------------------------------------------ the steps

  /** Why a source is rejected on its own. */
  function SourceError(s: ClipSource, index: nat): Result<()> {
    if s.offset.scale <= 0.0 then Err(InvalidOffset(index))
    else if s.StartBound().NotATime? || s.EndBound().NotATime? then Err(InvalidTimeRange(index))
    else if End(s) < Start(s) then Err(InvalidTimeRange(index))
    else Ok(())
  }

  /** Why an interval is rejected beside one before it. */
  function PairError(cur: Interval, previous: Interval): Result<()>
    requires cur.offset.scale > 0.0 && previous.offset.scale > 0.0
  {
    var (start, end) := (RMax(cur.start, previous.start), RMin(cur.end, previous.end));
    if cur.start == previous.start then Err(DuplicateActivation)
    else if start < end && cur.offset != previous.offset then Err(ConflictingTimeMapping)
    else if start == end && MapTime(cur.offset, start) != MapTime(previous.offset, start) then Err(ConflictingTimeMapping)
    else Ok(())
  }

  /** The first reason among the first `n` intervals, in their order. */
  function PairErrors(cur: Interval, intervals: seq<Interval>, n: nat): Result<()>
    requires n <= |intervals| && cur.offset.scale > 0.0
    requires forall i :: 0 <= i < |intervals| ==> intervals[i].offset.scale > 0.0
  {
    if n == 0 then Ok(())
    else
      var before := PairErrors(cur, intervals, n - 1);
      if before.Err? then before else PairError(cur, intervals[n - 1])
  }

  function Intervals(sources: seq<ClipSource>): (r: seq<Interval>)
    ensures |r| == |sources|
    ensures forall i :: 0 <= i < |r| ==> r[i] == IntervalOf(sources[i])
  {
    seq(|sources|, i requires 0 <= i < |sources| => IntervalOf(sources[i]))
  }

  /** The first reason to reject one of the first `n` sources. */
  function Checked(sources: seq<ClipSource>, n: nat): (r: Result<()>)
    requires n <= |sources|
    ensures r.Ok? ==> forall i :: 0 <= i < n ==> ValidSource(sources[i])
  {
    if n == 0 then Ok(())
    else
      var before := Checked(sources, n - 1);
      if before.Err? then before
      else
        var alone := SourceError(sources[n - 1], n - 1);
        if alone.Err? then alone
        else PairErrors(IntervalOf(sources[n - 1]), Intervals(sources[..n - 1]), n - 1)
  }

  function Actives(sources: seq<ClipSource>): seq<Knot> {
    seq(|sources|, i requires 0 <= i < |sources| => Knot(IntervalOf(sources[i]).start, i as real))
  }

  function KnotsOf(s: ClipSource): seq<Knot> {
    [Knot(IntervalOf(s).start, Start(s))] + if End(s) != Start(s) then [Knot(IntervalOf(s).end, End(s))] else []
  }

  function Knots(sources: seq<ClipSource>): seq<Knot> {
    if sources == [] then [] else Knots(sources[..|sources| - 1]) + KnotsOf(sources[|sources| - 1])
  }

  // ----------------------------------------------------- sort and dedup

  /** Inserts `x` after every element of no later time. */
  function Insert(s: seq<Knot>, x: Knot): seq<Knot> {
    if s == [] || s[|s| - 1].at <= x.at then s + [x]
    else Insert(s[..|s| - 1], x) + [s[|s| - 1]]
  }

  /** A stable sort by time. */
  function Sort(s: seq<Knot>): seq<Knot> {
    if s == [] then [] else Insert(Sort(s[..|s| - 1]), s[|s| - 1])
  }

  /** `s` without repetitions that stand together. */
  function Dedup(s: seq<Knot>): seq<Knot> {
    if |s| <= 1 then s
    else if s[|s| - 2] == s[|s| - 1] then Dedup(s[..|s| - 1])
    else Dedup(s[..|s| - 1]) + [s[|s| - 1]]
  }

  predicate RepeatsTime(s: seq<Knot>) {
    exists i :: 0 <= i < |s| - 1 && s[i].at == s[i + 1].at
  }

  predicate Conflicts(s: seq<Knot>) {
    exists i :: 0 <= i < |s| - 1 && s[i].at == s[i + 1].at && s[i].value != s[i + 1].value
  }

  /** The clips a sequence of sources stitches to, or why it does not. */
  function Stitched(sources: seq<ClipSource>): Result<Clips> {
    if sources == [] then Err(EmptySequence)
    else
      var checked := Checked(sources, |sources|);
      if checked.Err? then Err(checked.error)
      else
        var active := Sort(Actives(sources));
        var times := Sort(Knots(sources));
        if RepeatsTime(active) then Err(DuplicateActivation)
        else if Conflicts(times) then Err(ConflictingTimeMapping)
        else Ok(Clips(active, Dedup(times)))
  }

  // ------------------------------------------------------ reading the map

  /** How many knots come before `t`: `partition_point`. */
  function Upper(times: seq<Knot>, t: real): (n: nat)
    ensures n <= |times|
    ensures forall i :: 0 <= i < n ==> times[i].at < t
    ensures n < |times| ==> t <= times[n].at
  {
    if times == [] then 0
    else
      var n := Upper(times[..|times| - 1], t);
      if n == |times| - 1 && times[n].at < t then n + 1 else n
  }

  /** The clip-local time a stage time reads: the end knots held, the others
      interpolated. */
  function InternalTime(times: seq<Knot>, t: real): real
    requires times != [] && Increasing(times)
  {
    var upper := Upper(times, t);
    if upper == 0 then times[0].value
    else if upper == |times| then times[upper - 1].value
    else Lerp(times[upper - 1], times[upper], t)
  }

  function Lerp(a: Knot, b: Knot, t: real): real
    requires a.at < b.at
  {
    a.value + (t - a.at) / (b.at - a.at) * (b.value - a.value)
  }

  predicate Increasing(s: seq<Knot>) {
    forall i, j :: 0 <= i < j < |s| ==> s[i].at < s[j].at
  }

  // ------------------------------------------------ what is accepted

  predicate Within(i: Interval, t: real) { i.start <= t <= i.end }

  /** Two intervals map every stage time they share to one local time. */
  ghost predicate Agree(a: Interval, b: Interval)
    requires a.offset.scale > 0.0 && b.offset.scale > 0.0
  {
    forall t :: Within(a, t) && Within(b, t) ==> MapTime(a.offset, t) == MapTime(b.offset, t)
  }

  /** Every source has a positive scale and an ordered range, no two start at
      one stage time, and all that share a stage time agree on it. */
  ghost predicate Coherent(sources: seq<ClipSource>) {
    && (forall i :: 0 <= i < |sources| ==> ValidSource(sources[i]))
    && (forall i, j :: 0 <= j < i < |sources| ==>
          var (a, b) := (IntervalOf(sources[i]), IntervalOf(sources[j])); a.start != b.start && Agree(a, b))
  }

  lemma {:induction false} QuotientIs(q: real, a: real, s: real)
    requires s > 0.0 && q * s == a
    ensures q == a / s
  {
    var r := a / s;
    assert r * s == a;
    if q < r { SmallerProduct(q, r, s); } else if r < q { SmallerProduct(r, q, s); }
  }

  lemma {:induction false} SmallerProduct(a: real, b: real, s: real)
    requires s > 0.0 && a < b
    ensures a * s < b * s
  {
  }

  lemma {:induction false} QuotientDifference(a: real, b: real, s: real)
    requires s > 0.0
    ensures a / s - b / s == (a - b) / s
  {
    var (q, r) := (a / s, b / s);
    assert q * s == a && r * s == b;
    assert (q - r) * s == q * s - r * s;
    QuotientIs(q - r, a - b, s);
  }

  lemma {:induction false} SameQuotient(a: real, s: real, u: real)
    requires s > 0.0 && u > 0.0 && a != 0.0 && a / s == a / u
    ensures s == u
  {
    var q := a / s;
    assert q * s == a && q * u == a;
    assert q * (s - u) == q * s - q * u == 0.0;
    assert q != 0.0;
  }

  /** Affine maps that agree at two times are one map. */
  lemma {:induction false} TwoPoints(o: LayerOffset, q: LayerOffset, t: real, u: real)
    requires o.scale > 0.0 && q.scale > 0.0 && t != u
    requires MapTime(o, t) == MapTime(q, t) && MapTime(o, u) == MapTime(q, u)
    ensures o == q
  {
    QuotientDifference(t - o.offset, u - o.offset, o.scale);
    QuotientDifference(t - q.offset, u - q.offset, q.scale);
    SameQuotient(t - u, o.scale, q.scale);
    assert (t - o.offset) / o.scale * o.scale == t - o.offset;
    assert (t - q.offset) / q.scale * q.scale == t - q.offset;
  }

  /** The pairwise check accepts exactly the intervals that agree. */
  lemma {:induction false} PairChecked(cur: Interval, previous: Interval)
    requires cur.offset.scale > 0.0 && previous.offset.scale > 0.0
    requires cur.start <= cur.end && previous.start <= previous.end
    ensures PairError(cur, previous).Ok? <==> cur.start != previous.start && Agree(cur, previous)
  {
    var (start, end) := (RMax(cur.start, previous.start), RMin(cur.end, previous.end));
    if cur.start != previous.start && start < end && Agree(cur, previous) {
      assert Within(cur, start) && Within(previous, start) && Within(cur, end) && Within(previous, end);
      TwoPoints(cur.offset, previous.offset, start, end);
    }
    if start == end { assert Within(cur, start) && Within(previous, start); }
  }

  lemma {:induction false} PairsChecked(cur: Interval, intervals: seq<Interval>, n: nat)
    requires n <= |intervals| && cur.offset.scale > 0.0 && cur.start <= cur.end
    requires forall i :: 0 <= i < |intervals| ==> intervals[i].offset.scale > 0.0 && intervals[i].start <= intervals[i].end
    ensures PairErrors(cur, intervals, n).Ok?
      <==> forall j :: 0 <= j < n ==> cur.start != intervals[j].start && Agree(cur, intervals[j])
  {
    if n > 0 {
      PairsChecked(cur, intervals, n - 1);
      PairChecked(cur, intervals[n - 1]);
    }
  }

  lemma {:induction false} IntervalOrdered(s: ClipSource)
    requires ValidSource(s)
    ensures IntervalOf(s).start <= IntervalOf(s).end
    ensures MapTime(s.offset, IntervalOf(s).start) == Start(s) && MapTime(s.offset, IntervalOf(s).end) == End(s)
  {
    var (a, b, k) := (Start(s), End(s), s.offset.scale);
    if a < b { SmallerProduct(a, b, k); }
    QuotientIs(a, a * k, k);
    QuotientIs(b, b * k, k);
  }

  lemma {:induction false} CheckedIs(sources: seq<ClipSource>, n: nat)
    requires n <= |sources|
    ensures Checked(sources, n).Ok? <==> Coherent(sources[..n])
  {
    if n > 0 {
      CheckedIs(sources, n - 1);
      var (front, last) := (sources[..n - 1], sources[n - 1]);
      assert sources[..n] == front + [last];
      if Coherent(front) && ValidSource(last) {
        forall i | 0 <= i < n - 1 ensures Intervals(front)[i].start <= Intervals(front)[i].end {
          IntervalOrdered(front[i]);
        }
        IntervalOrdered(last);
        PairsChecked(IntervalOf(last), Intervals(front), n - 1);
        assert forall i :: 0 <= i < n - 1 ==> Intervals(front)[i] == IntervalOf(front[i]);
      }
      CoherentPrefix(front, last);
    }
  }

  lemma {:induction false} CoherentPrefix(front: seq<ClipSource>, last: ClipSource)
    ensures Coherent(front + [last]) <==>
      && Coherent(front) && ValidSource(last)
      && forall j :: 0 <= j < |front| ==>
          IntervalOf(last).start != IntervalOf(front[j]).start && Agree(IntervalOf(last), IntervalOf(front[j]))
  {
    var all := front + [last];
    if Coherent(all) {
      assert forall i :: 0 <= i < |front| ==> all[i] == front[i];
      assert all[|front|] == last;
    }
  }

  // ------------------------------------------------ sorted by time

  ghost predicate Ordered(s: seq<Knot>) {
    forall i, j :: 0 <= i < j < |s| ==> s[i].at <= s[j].at
  }

  lemma {:induction false} LastIsLatest(s: seq<Knot>)
    requires s != []
    ensures s == s[..|s| - 1] + [s[|s| - 1]]
    ensures Ordered(s) ==> Ordered(s[..|s| - 1]) && forall y :: y in s[..|s| - 1] ==> y.at <= s[|s| - 1].at
    ensures Increasing(s) ==> Increasing(s[..|s| - 1]) && forall y :: y in s[..|s| - 1] ==> y.at < s[|s| - 1].at
  {
  }

  lemma {:induction false} Inserted(s: seq<Knot>, x: Knot)
    requires Ordered(s)
    ensures Ordered(Insert(s, x)) && |Insert(s, x)| == |s| + 1
    ensures forall y :: y in Insert(s, x) <==> y in s || y == x
  {
    if s != [] && s[|s| - 1].at > x.at {
      var (front, last) := (s[..|s| - 1], s[|s| - 1]);
      LastIsLatest(s);
      Inserted(front, x);
      var below := Insert(front, x);
      forall i | 0 <= i < |s| ensures below[i].at <= last.at {
        var y := below[i];
        assert y in below;
        assert y in front || y == x;
      }
    }
  }

  lemma {:induction false} SortedHolds(s: seq<Knot>)
    ensures Ordered(Sort(s)) && |Sort(s)| == |s|
    ensures forall y :: y in Sort(s) <==> y in s
  {
    if s != [] {
      var (front, last) := (s[..|s| - 1], s[|s| - 1]);
      SortedHolds(front);
      Inserted(Sort(front), last);
      assert s == front + [last];
    }
  }

  lemma {:induction false} InsertedDistinct(s: seq<Knot>, x: Knot)
    requires Increasing(s) && forall y :: y in s ==> y.at != x.at
    ensures Increasing(Insert(s, x))
  {
    if s != [] && s[|s| - 1].at > x.at {
      var (front, last) := (s[..|s| - 1], s[|s| - 1]);
      LastIsLatest(s);
      InsertedDistinct(front, x);
      Inserted(front, x);
      var below := Insert(front, x);
      forall i | 0 <= i < |s| ensures below[i].at < last.at {
        var y := below[i];
        assert y in below;
        assert y in front || y == x;
      }
    }
  }

  /** Sorting distinct times makes them increase. */
  lemma {:induction false} SortedDistinct(s: seq<Knot>)
    requires forall i, j :: 0 <= i < j < |s| ==> s[i].at != s[j].at
    ensures Increasing(Sort(s))
  {
    if s != [] {
      var (front, last) := (s[..|s| - 1], s[|s| - 1]);
      SortedDistinct(front);
      SortedHolds(front);
      forall y | y in Sort(front) ensures y.at != last.at {
        assert y in front;
        var i :| 0 <= i < |front| && front[i] == y;
        assert s[i].at != s[|s| - 1].at;
      }
      InsertedDistinct(Sort(front), last);
    }
  }

  lemma {:induction false} AddLatest(s: seq<Knot>, x: Knot)
    requires Increasing(s) && forall y :: y in s ==> y.at < x.at
    ensures Increasing(s + [x])
  {
  }

  lemma {:induction false} ConflictsFront(s: seq<Knot>)
    requires |s| > 1 && Ordered(s) && !Conflicts(s)
    ensures !Conflicts(s[..|s| - 1])
    ensures s[|s| - 2] != s[|s| - 1] ==> forall y :: y in s[..|s| - 1] ==> y.at < s[|s| - 1].at
  {
    var (front, last) := (s[..|s| - 1], s[|s| - 1]);
    forall i | 0 <= i < |front| - 1 && front[i].at == front[i + 1].at ensures front[i].value == front[i + 1].value {
      assert s[i] == front[i] && s[i + 1] == front[i + 1];
    }
    var i := |s| - 2;
    assert s[i].at == s[i + 1].at ==> s[i] == last;
  }

  /** Sorted knots of one value a time increase once repetitions are gone. */
  lemma {:induction false} DedupIncreases(s: seq<Knot>)
    requires Ordered(s) && !Conflicts(s)
    ensures Increasing(Dedup(s)) && forall y :: y in Dedup(s) <==> y in s
  {
    hide Conflicts, Increasing, Ordered;
    if |s| > 1 {
      var (front, last) := (s[..|s| - 1], s[|s| - 1]);
      LastIsLatest(s);
      ConflictsFront(s);
      DedupIncreases(front);
      if s[|s| - 2] == last {
        assert last == front[|front| - 1];
      } else {
        AddLatest(Dedup(front), last);
      }
    } else {
      ShortIncreases(s);
    }
  }

  lemma {:induction false} ShortIncreases(s: seq<Knot>)
    requires |s| <= 1
    ensures Increasing(s)
  {
  }

  // ------------------------------------------- knots and the lines they mark

  lemma {:induction false} KnotsFrom(sources: seq<ClipSource>, p: Knot)
    ensures p in Knots(sources) <==> exists j :: 0 <= j < |sources| && p in KnotsOf(sources[j])
  {
    if sources != [] {
      var (front, last) := (sources[..|sources| - 1], sources[|sources| - 1]);
      KnotsFrom(front, p);
      if j :| 0 <= j < |front| && p in KnotsOf(front[j]) { assert p in KnotsOf(sources[j]); }
    }
  }

  /** Every knot in a source's interval is on its line: through overlaps,
      touching ends and clips of no length. */
  lemma {:induction false} KnotOnLine(sources: seq<ClipSource>, i: nat, p: Knot)
    requires Coherent(sources) && i < |sources| && p in Knots(sources) && Within(IntervalOf(sources[i]), p.at)
    ensures p.value == MapTime(sources[i].offset, p.at)
  {
    KnotsFrom(sources, p);
    var j :| 0 <= j < |sources| && p in KnotsOf(sources[j]);
    IntervalOrdered(sources[j]);
    assert Within(IntervalOf(sources[j]), p.at);
    if i < j { assert Agree(IntervalOf(sources[j]), IntervalOf(sources[i])); }
    if j < i { assert Agree(IntervalOf(sources[i]), IntervalOf(sources[j])); }
  }

  lemma {:induction false} OneKnotATime(sources: seq<ClipSource>, p: Knot, q: Knot)
    requires Coherent(sources) && p in Knots(sources) && q in Knots(sources) && p.at == q.at
    ensures p == q
  {
    KnotsFrom(sources, p);
    var j :| 0 <= j < |sources| && p in KnotsOf(sources[j]);
    IntervalOrdered(sources[j]);
    KnotOnLine(sources, j, p);
    KnotOnLine(sources, j, q);
  }

  // ---------------------------------------------------------- the results

  /** The checks made after sorting never reject what the pairwise checks
      accepted. */
  lemma {:induction false} LaterChecksPass(sources: seq<ClipSource>)
    requires Coherent(sources)
    ensures Increasing(Sort(Actives(sources))) && !RepeatsTime(Sort(Actives(sources)))
    ensures !Conflicts(Sort(Knots(sources)))
  {
    var (active, times) := (Actives(sources), Sort(Knots(sources)));
    forall i, j | 0 <= i < j < |active| ensures active[i].at != active[j].at {
      assert IntervalOf(sources[j]).start != IntervalOf(sources[i]).start;
    }
    SortedDistinct(active);
    SortedHolds(Knots(sources));
    forall i | 0 <= i < |times| - 1 && times[i].at == times[i + 1].at ensures times[i].value == times[i + 1].value {
      assert times[i] in times && times[i + 1] in times;
      OneKnotATime(sources, times[i], times[i + 1]);
    }
  }

  /** A sequence is accepted exactly when it has sources and they are coherent. */
  lemma {:induction false} StitchedExactly(sources: seq<ClipSource>)
    ensures Stitched(sources).Ok? <==> sources != [] && Coherent(sources)
  {
    CheckedIs(sources, |sources|);
    assert sources[..|sources|] == sources;
    if Coherent(sources) { LaterChecksPass(sources); }
  }

  lemma {:induction false} StitchedParts(sources: seq<ClipSource>)
    requires Stitched(sources).Ok?
    ensures Stitched(sources).value == Clips(Sort(Actives(sources)), Dedup(Sort(Knots(sources))))
  {
  }

  /** The result's activations and knots increase in stage time, one
      activation a source and only the sources' own knots. */
  lemma {:induction false} StitchedIncreases(sources: seq<ClipSource>)
    requires Stitched(sources).Ok?
    ensures var Clips(active, times) := Stitched(sources).value;
      && Increasing(active) && Increasing(times) && times != [] && |active| == |sources|
      && (forall i: nat :: i < |sources| ==> Knot(IntervalOf(sources[i]).start, i as real) in active)
      && (forall p :: p in times <==> p in Knots(sources))
  {
    hide *;
    StitchedParts(sources);
    StitchedExactly(sources);
    LaterChecksPass(sources);
    SortedHolds(Actives(sources));
    SortedHolds(Knots(sources));
    DedupIncreases(Sort(Knots(sources)));
    ActivatesAll(sources);
    HasKnots(sources);
    var p := Knots(sources)[0];
    assert p in Knots(sources);
    forall i: nat | i < |sources| ensures Knot(IntervalOf(sources[i]).start, i as real) in Sort(Actives(sources)) {
      assert Knot(IntervalOf(sources[i]).start, i as real) in Actives(sources);
    }
  }

  lemma {:induction false} ActivatesAll(sources: seq<ClipSource>)
    ensures |Actives(sources)| == |sources|
    ensures forall i: nat :: i < |sources| ==> Knot(IntervalOf(sources[i]).start, i as real) in Actives(sources)
  {
    forall i: nat | i < |sources| ensures Knot(IntervalOf(sources[i]).start, i as real) in Actives(sources) {
      assert Actives(sources)[i] == Knot(IntervalOf(sources[i]).start, i as real);
    }
  }

  lemma {:induction false} HasKnots(sources: seq<ClipSource>)
    requires sources != []
    ensures Knots(sources) != []
  {
  }

  /** Interpolating two points of a line stays on the line. */
  lemma {:induction false} LerpOnLine(o: LayerOffset, a: real, b: real, t: real)
    requires o.scale > 0.0 && a < b
    ensures Lerp(Knot(a, MapTime(o, a)), Knot(b, MapTime(o, b)), t) == MapTime(o, t)
  {
    var (u, v, w) := (a - o.offset, b - o.offset, t - o.offset);
    QuotientDifference(v, u, o.scale);
    QuotientDifference(w, u, o.scale);
    var r := (t - a) / (b - a);
    assert r * (b - a) == t - a;
    assert r * ((b - a) / o.scale) * o.scale == t - a by {
      var q := (b - a) / o.scale;
      assert q * o.scale == b - a;
      assert r * q * o.scale == r * (q * o.scale);
    }
    QuotientIs(r * ((b - a) / o.scale), t - a, o.scale);
  }

  /** The stitched map is exact: at every stage time of a source's interval it
      reads the local time the source's own offset gives. */
  lemma {:induction false} StitchedIsExact(sources: seq<ClipSource>, i: nat, t: real)
    requires Stitched(sources).Ok? && i < |sources| && Within(IntervalOf(sources[i]), t)
    ensures var times := Stitched(sources).value.times;
      times != [] && Increasing(times) && sources[i].offset.scale > 0.0
      && InternalTime(times, t) == MapTime(sources[i].offset, t)
  {
    StitchedExactly(sources);
    StitchedIncreases(sources);
    var (times, o, s) := (Stitched(sources).value.times, sources[i].offset, sources[i]);
    IntervalOrdered(s);
    forall p | p in times && Within(IntervalOf(s), p.at) ensures p.value == MapTime(o, p.at) {
      KnotOnLine(sources, i, p);
    }
    var (first, last) := (Knot(IntervalOf(s).start, Start(s)), Knot(IntervalOf(s).end, End(s)));
    assert first in KnotsOf(s) && last in KnotsOf(s);
    KnotsFrom(sources, first);
    KnotsFrom(sources, last);
    ReadsLine(times, o, IntervalOf(s), t);
  }

  /** A map with knots at both ends of an interval, and in it only knots on one
      line, reads that line throughout. */
  lemma {:induction false} ReadsLine(times: seq<Knot>, o: LayerOffset, within: Interval, t: real)
    requires times != [] && Increasing(times) && o.scale > 0.0 && Within(within, t)
    requires Knot(within.start, MapTime(o, within.start)) in times && Knot(within.end, MapTime(o, within.end)) in times
    requires forall p :: p in times && Within(within, p.at) ==> p.value == MapTime(o, p.at)
    ensures InternalTime(times, t) == MapTime(o, t)
  {
    var upper := Upper(times, t);
    var i :| 0 <= i < |times| && times[i] == Knot(within.start, MapTime(o, within.start));
    var j :| 0 <= j < |times| && times[j] == Knot(within.end, MapTime(o, within.end));
    assert upper <= j;
    if times[upper].at == t {
      assert times[upper] in times;
      if upper > 0 { LerpAtEnd(times[upper - 1], times[upper]); }
    } else {
      assert i < upper;
      var (a, b) := (times[upper - 1], times[upper]);
      assert a in times && b in times;
      LerpOnLine(o, a.at, b.at, t);
    }
  }

  lemma {:induction false} LerpAtEnd(a: Knot, b: Knot)
    requires a.at < b.at
    ensures Lerp(a, b, b.at) == b.value
  {
    QuotientIs(1.0, b.at - a.at, b.at - a.at);
  }

  // ------------------------------------------------------- the algorithm

  lemma {:induction false} PairErrorStays(cur: Interval, intervals: seq<Interval>, n: nat, m: nat)
    requires n <= m <= |intervals| && cur.offset.scale > 0.0
    requires forall i :: 0 <= i < |intervals| ==> intervals[i].offset.scale > 0.0
    requires PairErrors(cur, intervals, n).Err?
    ensures PairErrors(cur, intervals, m) == PairErrors(cur, intervals, n)
    decreases m
  {
    if n < m { PairErrorStays(cur, intervals, n, m - 1); }
  }

  lemma {:induction false} ErrorStays(sources: seq<ClipSource>, n: nat, m: nat)
    requires n <= m <= |sources| && Checked(sources, n).Err?
    ensures Checked(sources, m) == Checked(sources, n)
    decreases m
  {
    if n < m { ErrorStays(sources, n, m - 1); }
  }

  /** What the loop has built from the first `n` sources, all accepted. */
  ghost predicate Built(
      sources: seq<ClipSource>, n: nat, intervals: seq<Interval>, active: seq<Knot>, times: seq<Knot>) {
    && n <= |sources| && Checked(sources, n).Ok?
    && intervals == Intervals(sources[..n])
    && active == Actives(sources[..n])
    && times == Knots(sources[..n])
  }

  lemma {:induction false} BuildsOne(
      sources: seq<ClipSource>, n: nat, intervals: seq<Interval>, active: seq<Knot>, times: seq<Knot>)
    requires n < |sources| && Built(sources, n, intervals, active, times) && Checked(sources, n + 1).Ok?
    ensures Built(sources, n + 1, intervals + [IntervalOf(sources[n])],
                  active + [Knot(IntervalOf(sources[n]).start, n as real)], times + KnotsOf(sources[n]))
  {
    var (front, next) := (sources[..n], sources[..n + 1]);
    assert next[..|next| - 1] == front && next[n] == sources[n];
    assert Intervals(next) == Intervals(front) + [IntervalOf(sources[n])];
    assert Actives(next) == Actives(front) + [Knot(IntervalOf(sources[n]).start, n as real)];
  }

  lemma {:induction false} BuildsAll(
      sources: seq<ClipSource>, intervals: seq<Interval>, active: seq<Knot>, times: seq<Knot>)
    requires Built(sources, |sources|, intervals, active, times)
    ensures Checked(sources, |sources|).Ok? && active == Actives(sources) && times == Knots(sources)
  {
    assert sources[..|sources|] == sources;
  }

  lemma {:induction false} SourceStep(sources: seq<ClipSource>, n: nat)
    requires n < |sources| && Checked(sources, n).Ok?
    ensures SourceError(sources[n], n).Err? ==> Checked(sources, n + 1) == SourceError(sources[n], n)
    ensures SourceError(sources[n], n).Ok? ==>
      IntervalOf(sources[n]).offset.scale > 0.0
      && Checked(sources, n + 1) == PairErrors(IntervalOf(sources[n]), Intervals(sources[..n]), n)
  {
  }

  lemma {:induction false} PushesKnots(times: seq<Knot>, s: ClipSource)
    ensures times + KnotsOf(s) ==
      if End(s) != Start(s) then times + [Knot(IntervalOf(s).start, Start(s))] + [Knot(IntervalOf(s).end, End(s))]
      else times + [Knot(IntervalOf(s).start, Start(s))]
  {
  }

  /** One source against the intervals before it. */
  method CheckPairs(cur: Interval, intervals: seq<Interval>) returns (r: Result<()>)
    requires cur.offset.scale > 0.0
    requires forall i :: 0 <= i < |intervals| ==> intervals[i].offset.scale > 0.0
    ensures r == PairErrors(cur, intervals, |intervals|)
  {
    var j := 0;
    while j < |intervals|
      invariant j <= |intervals| && PairErrors(cur, intervals, j) == Ok(())
    {
      var previous := intervals[j];
      ghost var checked := PairErrors(cur, intervals, j + 1);
      if checked.Err? { PairErrorStays(cur, intervals, j + 1, |intervals|); }
      if cur.start == previous.start { return Err(DuplicateActivation); }
      var overlapStart := RMax(cur.start, previous.start);
      var overlapEnd := RMin(cur.end, previous.end);
      if overlapStart < overlapEnd && cur.offset != previous.offset { return Err(ConflictingTimeMapping); }
      if overlapStart == overlapEnd && MapTime(cur.offset, overlapStart) != MapTime(previous.offset, overlapStart) {
        return Err(ConflictingTimeMapping);
      }
      j := j + 1;
    }
    return Ok(());
  }

  /** One source on its own. */
  method CheckSource(s: ClipSource, index: nat) returns (r: Result<()>)
    ensures r == SourceError(s, index)
  {
    if s.offset.scale <= 0.0 { return Err(InvalidOffset(index)); }
    if s.StartBound().NotATime? || s.EndBound().NotATime? { return Err(InvalidTimeRange(index)); }
    var start, end := Start(s), End(s);
    if end < start { return Err(InvalidTimeRange(index)); }
    return Ok(());
  }

  /** Stitches a sequence of clips into one time map. */
  method StitchClipSequence(sources: seq<ClipSource>) returns (r: Result<Clips>)
    ensures r == Stitched(sources)
  {
    if sources == [] { return Err(EmptySequence); }
    var active: seq<Knot>, times: seq<Knot>, intervals: seq<Interval> := [], [], [];
    var index := 0;
    while index < |sources|
      invariant Built(sources, index, intervals, active, times)
    {
      hide Built, PairErrors, Checked, SourceError, Stitched, IntervalOf;
      BuiltParts(sources, index, intervals, active, times);
      SourceStep(sources, index);
      var source := sources[index];
      var alone := CheckSource(source, index);
      if alone.Err? {
        Rejected(sources, index + 1);
        return Err(alone.error);
      }
      var interval := IntervalOf(source);
      var paired := CheckPairs(interval, intervals);
      if paired.Err? {
        Rejected(sources, index + 1);
        return Err(paired.error);
      }
      BuildsOne(sources, index, intervals, active, times);
      PushesKnots(times, source);
      intervals := intervals + [interval];
      active := active + [Knot(interval.start, index as real)];
      times := times + [Knot(interval.start, Start(source))];
      if End(source) != Start(source) {
        times := times + [Knot(interval.end, End(source))];
      }
      index := index + 1;
    }
    BuildsAll(sources, intervals, active, times);
    active := Sort(active);
    if RepeatsTime(active) { return Err(DuplicateActivation); }
    times := Sort(times);
    if Conflicts(times) { return Err(ConflictingTimeMapping); }
    return Ok(Clips(active, Dedup(times)));
  }

  lemma {:induction false} BuiltParts(
      sources: seq<ClipSource>, n: nat, intervals: seq<Interval>, active: seq<Knot>, times: seq<Knot>)
    requires Built(sources, n, intervals, active, times)
    ensures n <= |sources| && Checked(sources, n).Ok? && intervals == Intervals(sources[..n]) && |intervals| == n
    ensures forall i :: 0 <= i < |intervals| ==> intervals[i].offset.scale > 0.0
  {
  }

  lemma {:induction false} Rejected(sources: seq<ClipSource>, n: nat)
    requires 0 < n <= |sources| && Checked(sources, n).Err?
    ensures Stitched(sources) == Err(Checked(sources, n).error)
  {
    ErrorStays(sources, n, |sources|);
  }
}
