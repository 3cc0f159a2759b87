/** The acyclic dependency graph of a stage's arcs: `arc_graph` of
    `layerstack/src/dependency_map.rs`. */
module DependencyGraph {

  type Prim = int

  /** A prim depends on a prim it reads: `(target, source)`. */
  type Edge = (Prim, Prim)

  /** `Below` for a prim that is on the path, `Done` for one that has left it. */
  datatype Visit = Below | Done

  /** An entry of the explicit stack: arcs before `next` are decided. */
  datatype Step = Step(prim: Prim, arcs: seq<Prim>, next: nat)

  /** The sources each composed prim reads, in the order of its arcs. */
  type Arcs = map<Prim, seq<Prim>>

  function ArcsOf(prims: Arcs, prim: Prim): seq<Prim> {
    if prim in prims then prims[prim] else []
  }

  ghost predicate IsArc(prims: Arcs, e: Edge) { e.0 in prims && e.1 in prims[e.0] }

  // ------------------------------------------------------- what is promised

  ghost predicate IsPath(g: set<Edge>, p: seq<Prim>) {
    p != [] && forall i :: 0 <= i < |p| - 1 ==> (p[i], p[i + 1]) in g
  }

  ghost predicate PathBetween(g: set<Edge>, x: Prim, y: Prim, p: seq<Prim>) {
    IsPath(g, p) && p[0] == x && p[|p| - 1] == y
  }

  ghost predicate Reaches(g: set<Edge>, x: Prim, y: Prim) {
    exists p :: PathBetween(g, x, y, p)
  }

  ghost predicate Acyclic(g: set<Edge>) {
    forall p :: |p| > 1 && IsPath(g, p) ==> p[0] != p[|p| - 1]
  }

  /** Every arc of `prims` between two prims that `g` leaves out closes a
      cycle. */
  ghost predicate Maximal(prims: Arcs, g: set<Edge>) {
    forall e: Edge :: IsArc(prims, e) && e.0 != e.1 && e !in g ==> !Acyclic(g + {e})
  }

  // ------------------------------------------------------------ paths

  lemma {:induction false} ReachesMonotone(g: set<Edge>, h: set<Edge>, x: Prim, y: Prim)
    requires g <= h && Reaches(g, x, y)
    ensures Reaches(h, x, y)
  {
    var p :| PathBetween(g, x, y, p);
    assert PathBetween(h, x, y, p);
  }

  lemma {:induction false} ClosesCycle(g: set<Edge>, t: Prim, s: Prim)
    requires Reaches(g, s, t) && t != s
    ensures !Acyclic(g + {(t, s)})
  {
    var p :| PathBetween(g, s, t, p);
    var c := [t] + p;
    assert IsPath(g + {(t, s)}, c) && c[0] == c[|c| - 1];
  }

  /** A graph whose every edge leads to a smaller rank is acyclic. */
  lemma {:induction false} RankedIsAcyclic(g: set<Edge>, rank: map<Prim, nat>)
    requires forall e :: e in g ==> e.0 in rank && e.1 in rank && rank[e.1] < rank[e.0]
    ensures Acyclic(g)
  {
    forall p | |p| > 1 && IsPath(g, p) ensures p[0] != p[|p| - 1] {
      RankFalls(g, rank, p);
    }
  }

  lemma {:induction false} RankFalls(g: set<Edge>, rank: map<Prim, nat>, p: seq<Prim>)
    requires forall e :: e in g ==> e.0 in rank && e.1 in rank && rank[e.1] < rank[e.0]
    requires |p| > 1 && IsPath(g, p)
    ensures p[0] in rank && p[|p| - 1] in rank && rank[p[|p| - 1]] < rank[p[0]]
  {
    assert (p[0], p[1]) in g;
    if |p| > 2 {
      RankFalls(g, rank, p[1..]);
    }
  }

  // ---------------------------------------------------------- the walk

  ghost predicate OnPath(path: seq<Step>, prim: Prim) {
    exists i :: 0 <= i < |path| && path[i].prim == prim
  }

  /** `(target, source)` leads from one step of the path to the next. */
  ghost predicate Link(path: seq<Step>, e: Edge) {
    exists i :: 0 <= i < |path| - 1 && path[i].prim == e.0 && path[i + 1].prim == e.1
  }

  /** An arc the walk has followed: added, or it closes a cycle. */
  ghost predicate Decided(g: set<Edge>, target: Prim, source: Prim) {
    target == source || (target, source) in g || Reaches(g, source, target)
  }

  /** The path holds the prims the walk is below, linked by added edges. */
  ghost predicate PathShape(prims: Arcs, g: set<Edge>, visits: map<Prim, Visit>, path: seq<Step>) {
    && (forall i :: 0 <= i < |path| ==> path[i].arcs == ArcsOf(prims, path[i].prim) && path[i].next <= |path[i].arcs|)
    && (forall i, j :: 0 <= i < j < |path| ==> path[i].prim != path[j].prim)
    && (forall p :: p in visits && visits[p] == Below <==> OnPath(path, p))
    && (forall i :: 0 <= i < |path| - 1 ==> (path[i].prim, path[i + 1].prim) in g)
  }

  /** Added edges lead to a prim done earlier, or down the path; `done` is the
      order in which the walk left the prims it is done with. */
  ghost predicate Ordered(prims: Arcs, g: set<Edge>, visits: map<Prim, Visit>, path: seq<Step>, done: seq<Prim>) {
    && (forall p :: p in visits && visits[p] == Done <==> p in done)
    && (forall i, j :: 0 <= i < j < |done| ==> done[i] != done[j])
    && (forall e :: e in g ==> IsArc(prims, e) && e.0 in visits && e.1 in visits)
    && (forall e :: e in g ==> Link(path, e) || (e.1 in done && (e.0 in done ==> Before(done, e.1, e.0))))
  }

  ghost predicate Before(done: seq<Prim>, p: Prim, q: Prim) {
    exists i, j :: 0 <= i < j < |done| && done[i] == p && done[j] == q
  }

  /** Every arc followed so far is decided. */
  ghost predicate Followed(prims: Arcs, g: set<Edge>, path: seq<Step>, done: seq<Prim>) {
    && (forall p, s :: p in done && s in ArcsOf(prims, p) ==> Decided(g, p, s))
    && (forall i, k :: 0 <= i < |path| && 0 <= k < path[i].next <= |path[i].arcs| ==>
          Decided(g, path[i].prim, path[i].arcs[k]))
  }

  ghost predicate Walk(prims: Arcs, g: set<Edge>, visits: map<Prim, Visit>, path: seq<Step>, done: seq<Prim>) {
    && PathShape(prims, g, visits, path)
    && Ordered(prims, g, visits, path, done)
    && Followed(prims, g, path, done)
  }

  // ---------------------------------------------- the steps of the walk

  lemma {:induction false} Grows(prims: Arcs, g: set<Edge>, h: set<Edge>, path: seq<Step>, done: seq<Prim>)
    requires g <= h && Followed(prims, g, path, done)
    ensures Followed(prims, h, path, done)
  {
    forall p, s | Decided(g, p, s) ensures Decided(h, p, s) {
      if Reaches(g, s, p) { ReachesMonotone(g, h, s, p); }
    }
  }

  lemma {:induction false} DownThePath(g: set<Edge>, path: seq<Step>, i: nat)
    requires i < |path| && forall k :: 0 <= k < |path| - 1 ==> (path[k].prim, path[k + 1].prim) in g
    ensures Reaches(g, path[i].prim, path[|path| - 1].prim)
  {
    var p := seq(|path| - i, k requires 0 <= k < |path| - i => path[i + k].prim);
    assert PathBetween(g, path[i].prim, path[|path| - 1].prim, p);
  }

  /** The walk is below a prim: down the path it reaches the path's end. */
  lemma {:induction false} PathReaches(prims: Arcs, g: set<Edge>, visits: map<Prim, Visit>, path: seq<Step>,
                                       done: seq<Prim>, source: Prim)
    requires Walk(prims, g, visits, path, done) && path != [] && source in visits && visits[source] == Below
    ensures Reaches(g, source, path[|path| - 1].prim)
  {
    hide Ordered, Followed, Reaches;
    assert OnPath(path, source);
    var i :| 0 <= i < |path| && path[i].prim == source;
    DownThePath(g, path, i);
  }

  lemma {:induction false} Enters(prims: Arcs, g: set<Edge>, visits: map<Prim, Visit>, done: seq<Prim>, root: Prim)
    requires Walk(prims, g, visits, [], done) && root !in visits
    ensures Walk(prims, g, visits[root := Below], [Step(root, ArcsOf(prims, root), 0)], done)
  {
    var path := [Step(root, ArcsOf(prims, root), 0)];
    assert path[0].prim == root;
  }

  ghost function Advanced(path: seq<Step>): (after: seq<Step>)
    requires path != []
    ensures |after| == |path|
    ensures forall i :: 0 <= i < |path| ==> after[i].prim == path[i].prim && after[i].arcs == path[i].arcs
  {
    path[|path| - 1 := path[|path| - 1].(next := path[|path| - 1].next + 1)]
  }

  lemma {:induction false} SamePrims(path: seq<Step>, after: seq<Step>)
    requires |after| == |path| && forall i :: 0 <= i < |path| ==> after[i].prim == path[i].prim
    ensures forall p :: OnPath(after, p) <==> OnPath(path, p)
    ensures forall e :: Link(after, e) <==> Link(path, e)
  {
    forall p ensures OnPath(after, p) <==> OnPath(path, p) {
      if i :| 0 <= i < |path| && path[i].prim == p { assert after[i].prim == p; }
      if i :| 0 <= i < |path| && after[i].prim == p { assert path[i].prim == p; }
    }
    forall e ensures Link(after, e) <==> Link(path, e) {
      if i :| 0 <= i < |path| - 1 && path[i].prim == e.0 && path[i + 1].prim == e.1 {
        assert after[i].prim == e.0 && after[i + 1].prim == e.1;
      }
      if i :| 0 <= i < |path| - 1 && after[i].prim == e.0 && after[i + 1].prim == e.1 {
        assert path[i].prim == e.0 && path[i + 1].prim == e.1;
      }
    }
  }

  lemma {:induction false} Longer(path: seq<Step>, step: Step)
    requires path != []
    ensures forall p :: OnPath(path + [step], p) <==> OnPath(path, p) || p == step.prim
    ensures forall e :: Link(path, e) || e == (path[|path| - 1].prim, step.prim) ==> Link(path + [step], e)
  {
    var after := path + [step];
    forall p ensures OnPath(after, p) <==> OnPath(path, p) || p == step.prim {
      if i :| 0 <= i < |path| && path[i].prim == p { assert after[i].prim == p; }
      assert after[|path|].prim == step.prim;
    }
    forall e | Link(path, e) || e == (path[|path| - 1].prim, step.prim) ensures Link(after, e) {
      if i :| 0 <= i < |path| - 1 && path[i].prim == e.0 && path[i + 1].prim == e.1 {
        assert after[i].prim == e.0 && after[i + 1].prim == e.1;
      } else {
        assert after[|path| - 1].prim == e.0 && after[|path| - 1 + 1].prim == e.1;
      }
    }
  }

  /** `source` is the next arc of the path's last prim, `target`. */
  ghost predicate Next(path: seq<Step>, target: Prim, source: Prim) {
    && path != [] && target == path[|path| - 1].prim
    && path[|path| - 1].next < |path[|path| - 1].arcs| && path[|path| - 1].arcs[path[|path| - 1].next] == source
  }

  lemma {:induction false} NextFollowed(
      prims: Arcs, g: set<Edge>, path: seq<Step>, done: seq<Prim>, target: Prim, source: Prim)
    requires Followed(prims, g, path, done) && Next(path, target, source) && Decided(g, target, source)
    ensures Followed(prims, g, Advanced(path), done)
  {
    hide Decided;
  }

  /** The walk follows an arc that it adds or that closes a cycle, and stays. */
  lemma {:induction false} Stays(prims: Arcs, g: set<Edge>, h: set<Edge>, visits: map<Prim, Visit>, path: seq<Step>,
                                 done: seq<Prim>, target: Prim, source: Prim)
    requires Walk(prims, g, visits, path, done) && Next(path, target, source) && IsArc(prims, (target, source))
    requires || (h == g && Decided(g, target, source))
             || (h == g + {(target, source)} && source in visits && visits[source] == Done)
    ensures Walk(prims, h, visits, Advanced(path), done)
  {
    hide Decided, Before;
    SamePrims(path, Advanced(path));
    assert PathShape(prims, h, visits, Advanced(path));
    assert Ordered(prims, h, visits, Advanced(path), done) by {
      assert path[|path| - 1].prim == target;
      assert OnPath(path, target);
    }
    assert Followed(prims, h, Advanced(path), done) by {
      Grows(prims, g, h, path, done);
      Added(g, h, target, source);
      NextFollowed(prims, h, path, done, target, source);
    }
  }

  lemma {:induction false} Added(g: set<Edge>, h: set<Edge>, target: Prim, source: Prim)
    requires (h == g && Decided(g, target, source)) || h == g + {(target, source)}
    ensures Decided(h, target, source)
  {
  }

  /** The walk follows an arc to a prim it has not visited, and goes below it. */
  lemma {:induction false} GoesBelow(prims: Arcs, g: set<Edge>, visits: map<Prim, Visit>, path: seq<Step>,
                                     done: seq<Prim>, target: Prim, source: Prim)
    requires Walk(prims, g, visits, path, done) && Next(path, target, source) && IsArc(prims, (target, source))
    requires source !in visits
    ensures Walk(prims, g + {(target, source)}, visits[source := Below],
                 Advanced(path) + [Step(source, ArcsOf(prims, source), 0)], done)
  {
    hide Decided, Before;
    var (h, v) := (g + {(target, source)}, visits[source := Below]);
    var after := Advanced(path) + [Step(source, ArcsOf(prims, source), 0)];
    SamePrims(path, Advanced(path));
    Longer(Advanced(path), Step(source, ArcsOf(prims, source), 0));
    assert path[|path| - 1].prim == target;
    assert OnPath(path, target) && !OnPath(path, source);
    assert PathShape(prims, h, v, after) by {
      hide Ordered, Followed, Link;
      forall i | 0 <= i < |path| ensures path[i].prim != source { assert OnPath(path, path[i].prim); }
    }
    assert Ordered(prims, h, v, after, done) by { hide PathShape, Followed, Link, OnPath; }
    assert Followed(prims, h, after, done) by {
      Grows(prims, g, h, path, done);
      Added(g, h, target, source);
      NextFollowed(prims, h, path, done, target, source);
    }
  }

  lemma {:induction false} Shorter(path: seq<Step>)
    requires path != [] && forall i, j :: 0 <= i < j < |path| ==> path[i].prim != path[j].prim
    ensures var (prim, rest) := (path[|path| - 1].prim, path[..|path| - 1]);
      && (forall p :: OnPath(rest, p) <==> OnPath(path, p) && p != prim)
      && (forall e :: Link(path, e) ==> Link(rest, e) || (e.1 == prim && OnPath(path, e.0) && e.0 != prim))
  {
    var (prim, rest) := (path[|path| - 1].prim, path[..|path| - 1]);
    forall p ensures OnPath(rest, p) <==> OnPath(path, p) && p != prim {
      if i :| 0 <= i < |rest| && rest[i].prim == p { assert path[i].prim == p; }
      if i :| 0 <= i < |path| && path[i].prim == p && p != prim { assert rest[i].prim == p; }
    }
    forall e | Link(path, e) ensures Link(rest, e) || (e.1 == prim && OnPath(path, e.0) && e.0 != prim) {
      var i :| 0 <= i < |path| - 1 && path[i].prim == e.0 && path[i + 1].prim == e.1;
      if i + 1 < |rest| { assert rest[i].prim == e.0 && rest[i + 1].prim == e.1; }
    }
  }

  lemma {:induction false} BeforeLast(done: seq<Prim>, prim: Prim)
    ensures forall p :: p in done + [prim] <==> p in done || p == prim
    ensures forall p :: p in done ==> Before(done + [prim], p, prim)
    ensures forall p, q :: Before(done, p, q) ==> Before(done + [prim], p, q)
  {
    var after := done + [prim];
    forall p | p in done ensures Before(after, p, prim) {
      var i :| 0 <= i < |done| && done[i] == p;
      assert after[i] == p && after[|done|] == prim;
    }
    forall p, q | Before(done, p, q) ensures Before(after, p, q) {
      var i, j :| 0 <= i < j < |done| && done[i] == p && done[j] == q;
      assert after[i] == p && after[j] == q;
    }
  }

  /** The walk has followed every arc of the path's last prim, and leaves it. */
  lemma {:induction false} Leaves(prims: Arcs, g: set<Edge>, visits: map<Prim, Visit>, path: seq<Step>, done: seq<Prim>)
    requires Walk(prims, g, visits, path, done) && path != []
    requires path[|path| - 1].next == |path[|path| - 1].arcs|
    ensures var prim := path[|path| - 1].prim;
      Walk(prims, g, visits[prim := Done], path[..|path| - 1], done + [prim])
  {
    hide Decided, Before, Link;
    var n := |path| - 1;
    var (prim, rest) := (path[n].prim, path[..n]);
    var (v, after) := (visits[prim := Done], done + [prim]);
    Shorter(path);
    BeforeLast(done, prim);
    assert OnPath(path, prim);
    hide OnPath;
    assert PathShape(prims, g, v, rest) by { hide Ordered, Followed; }
    assert Ordered(prims, g, v, rest, after) by { hide Followed; }
    forall s | s in ArcsOf(prims, prim) ensures Decided(g, prim, s) {
      var k :| 0 <= k < |path[n].arcs| && path[n].arcs[k] == s;
    }
  }

  // ------------------------------------------------------------ the code

  /** Every prim the walk can meet. */
  ghost function Universe(prims: Arcs): set<Prim> {
    prims.Keys + set p, s | p in prims && s in prims[p] :: s
  }

  /** The arcs left to follow from the path, and the steps left to pop. */
  ghost function Remaining(path: seq<Step>): nat {
    if path == [] then 0
    else
      var last := path[|path| - 1];
      Remaining(path[..|path| - 1]) + 1 + if last.next <= |last.arcs| then |last.arcs| - last.next else 0
  }

  /** How many prims a walk may still enter. */
  ghost function Left(prims: Arcs, visits: map<Prim, Visit>): nat {
    |Universe(prims) - visits.Keys|
  }

  /** The prims visited are ones the walk can meet, `from` among them. */
  ghost predicate Visited(prims: Arcs, from: set<Prim>, visits: map<Prim, Visit>) {
    from <= visits.Keys <= Universe(prims)
  }

  lemma {:induction false} Visits(prims: Arcs, from: set<Prim>, visits: map<Prim, Visit>, p: Prim, how: Visit)
    requires Visited(prims, from, visits) && (p in Universe(prims) || p in visits)
    ensures Visited(prims, from, visits[p := how]) && Visited(prims, from + {p}, visits[p := how])
    ensures p !in visits ==> Left(prims, visits[p := how]) < Left(prims, visits)
    ensures p in visits ==> Left(prims, visits[p := how]) == Left(prims, visits)
  {
    var (all, seen) := (Universe(prims), visits.Keys);
    assert visits[p := how].Keys == seen + {p};
    if p !in seen {
      assert all - seen == (all - (seen + {p})) + {p};
    } else {
      assert seen + {p} == seen;
    }
  }

  /** The walk from one root, until it has left every prim it entered. */
  method WalkFrom(prims: Arcs, root: Prim, graph: set<Edge>, visits: map<Prim, Visit>, ghost order: seq<Prim>)
    returns (g: set<Edge>, v: map<Prim, Visit>, ghost done: seq<Prim>)
    requires Walk(prims, graph, visits, [], order) && root !in visits && root in prims
    requires Visited(prims, visits.Keys, visits)
    ensures Walk(prims, g, v, [], done) && Visited(prims, visits.Keys + {root}, v)
  {
    hide *;
    g, done := graph, order;
    Enters(prims, g, visits, done, root);
    InUniverse(prims, root);
    Visits(prims, visits.Keys, visits, root, Below);
    v := visits[root := Below];
    var path := [Step(root, ArcsOf(prims, root), 0)];
    while path != []
      invariant Walk(prims, g, v, path, done) && Visited(prims, visits.Keys + {root}, v)
      decreases Left(prims, v), Remaining(path)
    {
      LastStep(prims, g, v, path, done);
      var step := path[|path| - 1];
      if step.next == |step.arcs| {
        Leaves(prims, g, v, path, done);
        Visits(prims, visits.Keys + {root}, v, step.prim, Done);
        done := done + [step.prim];
        v := v[step.prim := Done];
        path := path[..|path| - 1];
        continue;
      }
      var source := step.arcs[step.next];
      var target := step.prim;
      ghost var before := path;
      Advances(before, target, source);
      path := path[|path| - 1 := step.(next := step.next + 1)];
      if source == target {
        Closes(prims, g, v, before, done, target, source);
        continue;
      }
      if source in v {
        if v[source] == Below {
          Closes(prims, g, v, before, done, target, source);
          continue;
        }
        Stays(prims, g, g + {(target, source)}, v, before, done, target, source);
      } else {
        GoesBelow(prims, g, v, before, done, target, source);
        Visits(prims, visits.Keys + {root}, v, source, Below);
        v := v[source := Below];
        path := path + [Step(source, ArcsOf(prims, source), 0)];
      }
      g := g + {(target, source)};
    }
  }

  /** For any order of the roots, the edges added are arcs that form no cycle,
      and every other arc would close one. `order` is the order in which the
      walk left the prims: each of them once, after all it depends on. */
  method ArcGraph(prims: Arcs, roots: seq<Prim>) returns (graph: set<Edge>, ghost order: seq<Prim>)
    requires forall p :: p in prims <==> p in roots
    ensures forall e :: e in graph ==> IsArc(prims, e)
    ensures Acyclic(graph)
    ensures Maximal(prims, graph)
    ensures forall i, j :: 0 <= i < j < |order| ==> order[i] != order[j]
    ensures forall e :: e in graph ==> Before(order, e.1, e.0)
    ensures forall p :: p in order <==> p in Universe(prims)
  {
    hide Walk, Universe, Acyclic, Maximal, Before;
    graph, order := {}, [];
    var visits: map<Prim, Visit> := map[];
    WalkBegins(prims);
    for n := 0 to |roots|
      invariant Walk(prims, graph, visits, [], order) && visits.Keys <= Universe(prims)
      invariant forall k :: 0 <= k < n ==> roots[k] in visits
    {
      if roots[n] in visits {
        continue;
      }
      graph, visits, order := WalkFrom(prims, roots[n], graph, visits, order);
    }
    WalkEnds(prims, graph, visits, order);
  }

  lemma {:induction false} WalkBegins(prims: Arcs)
    ensures Walk(prims, {}, map[], [], [])
  {
  }

  lemma {:induction false} InUniverse(prims: Arcs, p: Prim)
    requires p in prims
    ensures p in Universe(prims)
  {
  }

  lemma {:induction false} LastStep(
      prims: Arcs, g: set<Edge>, visits: map<Prim, Visit>, path: seq<Step>, done: seq<Prim>)
    requires Walk(prims, g, visits, path, done) && path != []
    ensures var last := path[|path| - 1];
      && last.next <= |last.arcs| && Remaining(path[..|path| - 1]) < Remaining(path)
      && last.prim in visits
      && (last.next < |last.arcs| ==>
            && Next(path, last.prim, last.arcs[last.next]) && IsArc(prims, (last.prim, last.arcs[last.next]))
            && last.arcs[last.next] in Universe(prims))
  {
    assert OnPath(path, path[|path| - 1].prim);
  }

  lemma {:induction false} Advances(path: seq<Step>, target: Prim, source: Prim)
    requires Next(path, target, source)
    ensures var last := path[|path| - 1];
      Advanced(path) == path[|path| - 1 := last.(next := last.next + 1)]
    ensures Remaining(Advanced(path)) < Remaining(path)
  {
    assert Advanced(path)[..|path| - 1] == path[..|path| - 1];
  }

  /** An arc to the prim itself, or to one on the path above it, closes a
      cycle. */
  lemma {:induction false} Closes(prims: Arcs, g: set<Edge>, visits: map<Prim, Visit>, path: seq<Step>, done: seq<Prim>,
                                  target: Prim, source: Prim)
    requires Walk(prims, g, visits, path, done) && Next(path, target, source) && IsArc(prims, (target, source))
    requires source == target || (source in visits && visits[source] == Below)
    ensures Decided(g, target, source) && Walk(prims, g, visits, Advanced(path), done)
  {
    hide Walk, Reaches;
    if source != target { PathReaches(prims, g, visits, path, done, source); }
    Stays(prims, g, g, visits, path, done, target, source);
  }

  lemma {:induction false} WalkEnds(prims: Arcs, g: set<Edge>, visits: map<Prim, Visit>, done: seq<Prim>)
    requires Walk(prims, g, visits, [], done) && visits.Keys <= Universe(prims)
    requires forall p :: p in prims ==> p in visits
    ensures forall e :: e in g ==> IsArc(prims, e) && Before(done, e.1, e.0)
    ensures forall i, j :: 0 <= i < j < |done| ==> done[i] != done[j]
    ensures forall p :: p in done <==> p in Universe(prims)
    ensures Acyclic(g) && Maximal(prims, g)
  {
    AllDone(prims, g, visits, done);
    hide Walk, Followed, Ordered, PathShape;
    forall p | p in Universe(prims) ensures p in done {
      if p !in prims {
        var t :| t in prims && p in prims[t];
        SourceDone(prims, g, done, t, p);
      }
    }
    AcyclicByOrder(g, done);
    forall e: Edge | IsArc(prims, e) && e.0 != e.1 && e !in g ensures !Acyclic(g + {e}) {
      assert Decided(g, e.0, e.1);
      ClosesCycle(g, e.0, e.1);
    }
  }

  /** The walk is done with every prim it visited. */
  lemma {:induction false} AllDone(prims: Arcs, g: set<Edge>, visits: map<Prim, Visit>, done: seq<Prim>)
    requires Walk(prims, g, visits, [], done)
    ensures forall p :: p in visits <==> p in done
    ensures forall e :: e in g ==> IsArc(prims, e) && e.0 in done && e.1 in done && Before(done, e.1, e.0)
    ensures forall i, j :: 0 <= i < j < |done| ==> done[i] != done[j]
    ensures forall p, s :: p in done && s in ArcsOf(prims, p) ==> Decided(g, p, s)
  {
    hide Decided, Before;
    assert forall p :: p in visits ==> visits[p] == Done || OnPath([], p);
  }

  lemma {:induction false} SourceDone(prims: Arcs, g: set<Edge>, done: seq<Prim>, t: Prim, s: Prim)
    requires t in done && Decided(g, t, s) && forall e :: e in g ==> e.0 in done && e.1 in done
    ensures s in done
  {
    if t != s && (t, s) !in g {
      var p :| PathBetween(g, s, t, p);
      assert (p[0], p[1]) in g;
    }
  }

  lemma {:induction false} AcyclicByOrder(g: set<Edge>, done: seq<Prim>)
    requires forall i, j :: 0 <= i < j < |done| ==> done[i] != done[j]
    requires forall e :: e in g ==> Before(done, e.1, e.0)
    ensures Acyclic(g)
  {
    var rank: map<Prim, nat> := map p | p in done :: Index(done, p);
    forall e | e in g ensures e.0 in rank && e.1 in rank && rank[e.1] < rank[e.0] {
      var i, j :| 0 <= i < j < |done| && done[i] == e.1 && done[j] == e.0;
      assert Index(done, e.1) == i && Index(done, e.0) == j;
    }
    RankedIsAcyclic(g, rank);
  }

  ghost function Index(s: seq<Prim>, p: Prim): (i: nat)
    requires p in s
    ensures i < |s| && s[i] == p
  {
    var i :| 0 <= i < |s| && s[i] == p; i
  }
}
