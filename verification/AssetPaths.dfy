/** Normal forms of asset paths and the anchoring of paths to the layer that
    authors them: `normalize_asset_path` and `anchor_asset_path` in
    `layerstack/src/asset.rs`, for paths outside packages. */
module AssetPaths {

  datatype Option<+T> = None | Some(value: T)

  // -------------------------------------------------------- kinds of paths

  predicate StartsWith(s: string, prefix: string) { prefix <= s }

  predicate IsSchemeChar(c: char) {
    'a' <= c <= 'z' || 'A' <= c <= 'Z' || '0' <= c <= '9' || c == '+' || c == '-' || c == '.'
  }

  predicate IsLetter(c: char) { 'a' <= c <= 'z' || 'A' <= c <= 'Z' }

  /** The index of the first `c`, or the length. */
  function Find(s: string, c: char): (n: nat)
    ensures n <= |s| && (n < |s| ==> s[n] == c) && c !in s[..n]
  {
    if s == "" then 0
    else if s[0] == c then 0
    else
      assert s[..1 + Find(s[1..], c)] == [s[0]] + s[1..][..Find(s[1..], c)];
      1 + Find(s[1..], c)
  }

  /** A URI scheme or a drive stands before the first colon. */
  predicate HasScheme(path: string) {
    var n := Find(path, ':');
    0 < n < |path| && forall c :: c in path[..n] ==> IsSchemeChar(c)
  }

  predicate IsRelative(path: string) { path != "" && path[0] != '/' && !HasScheme(path) }

  predicate IsFileRelative(path: string) { StartsWith(path, "./") || StartsWith(path, "../") }

  predicate IsExpression(path: string) { StartsWith(path, "`") }

  predicate HasDrive(path: string) { |path| >= 3 && IsLetter(path[0]) && path[1] == ':' && path[2] == '/' }

  predicate InPackage(path: string) { '[' in path && !IsExpression(path) }

  // --------------------------------------------------------------- segments

  function Split(s: string): (r: seq<string>)
    ensures r != []
    decreases |s|
  {
    var n := Find(s, '/');
    if n < |s| then [s[..n]] + Split(s[n + 1..]) else [s]
  }

  function Join(segments: seq<string>): string {
    if segments == [] then ""
    else if |segments| == 1 then segments[0]
    else segments[0] + "/" + Join(segments[1..])
  }

  /** What one more segment makes of the segments kept. */
  function Keep(kept: seq<string>, segment: string, absolute: bool): seq<string> {
    if segment == "" || segment == "." then kept
    else if segment == ".." && kept != [] && kept[|kept| - 1] != ".." then kept[..|kept| - 1]
    else if segment == ".." && absolute then kept
    else kept + [segment]
  }

  function KeepAll(kept: seq<string>, segments: seq<string>, absolute: bool): seq<string>
    decreases |segments|
  {
    if segments == [] then kept else KeepAll(Keep(kept, segments[0], absolute), segments[1..], absolute)
  }

  predicate IsAbsolute(path: string) { StartsWith(path, "/") }

  function Segments(path: string): seq<string> { KeepAll([], Split(path), IsAbsolute(path)) }

  // ----------------------------------------------------------- normal form

  function Normalize(path: string): string
    requires !InPackage(path)
    decreases |path|
  {
    if HasDrive(path) then path[..2] + Normalize(path[2..])
    else if !IsAbsolute(path) && (!IsRelative(path) || IsExpression(path)) then path
    else
      var segments := Segments(path);
      if IsAbsolute(path) then "/" + Join(segments)
      else if IsFileRelative(path) && (segments == [] || segments[0] != "..") then "./" + Join(segments)
      else Join(segments)
  }

  // ------------------------------------------------------- what paths denote

  /** The directory or file reached from `base`, the names on the way down from a
      root; nothing is above the root. */
  function Walk(base: seq<string>, segments: seq<string>): seq<string>
    decreases |segments|
  {
    if segments == [] then base else Walk(WalkOne(base, segments[0]), segments[1..])
  }

  function WalkOne(base: seq<string>, segment: string): seq<string> {
    if segment == "" || segment == "." then base
    else if segment == ".." then if base == [] then [] else base[..|base| - 1]
    else base + [segment]
  }

  function From(base: seq<string>, path: string): seq<string> { Walk(base, Split(path)) }

  predicate IsName(s: string) { s != "" && s != "." && s != ".." && '/' !in s }

  predicate Names(segments: seq<string>) { forall s :: s in segments ==> IsName(s) }

  /** Steps up, then names. */
  ghost predicate Normal(segments: seq<string>) {
    && (forall s :: s in segments ==> s == ".." || IsName(s))
    && forall i, j :: 0 <= i < j < |segments| && segments[j] == ".." ==> segments[i] == ".."
  }

  lemma {:induction false} NamesNormal(segments: seq<string>)
    requires Names(segments)
    ensures Normal(segments)
  {
    assert forall j :: 0 <= j < |segments| ==> segments[j] in segments;
  }

  lemma {:induction false} WalkSum(base: seq<string>, a: seq<string>, b: seq<string>)
    ensures Walk(base, a + b) == Walk(Walk(base, a), b)
    decreases |a|
  {
    if a == [] {
      assert a + b == b;
    } else {
      WalkSum(WalkOne(base, a[0]), a[1..], b);
      assert (a + b)[1..] == a[1..] + b;
    }
  }

  lemma {:induction false} WalkLast(base: seq<string>, a: seq<string>, s: string)
    ensures Walk(base, a + [s]) == WalkOne(Walk(base, a), s)
  {
    WalkSum(base, a, [s]);
    assert [s][1..] == [];
  }

  // -------------------------------------------------------------- splitting

  lemma {:induction false} FindFirst(a: string, c: char, b: string)
    requires c !in a
    ensures Find(a + [c] + b, c) == |a|
  {
    var s := a + [c] + b;
    if a != "" {
      assert s[1..] == a[1..] + [c] + b;
      assert a[0] in a;
      FindFirst(a[1..], c, b);
    }
  }

  lemma {:induction false} SplitFirst(head: string, rest: string)
    requires '/' !in head
    ensures Split(head + "/" + rest) == [head] + Split(rest)
  {
    FindFirst(head, '/', rest);
    assert (head + "/" + rest)[..|head|] == head && (head + "/" + rest)[|head| + 1..] == rest;
  }

  lemma {:induction false} SplitSum(a: string, b: string)
    ensures Split(a + "/" + b) == Split(a) + Split(b)
    decreases |a|
  {
    hide Split, Find;
    var n := Find(a, '/');
    if n < |a| {
      var (head, rest) := (a[..n], a[n + 1..]);
      assert a == head + "/" + rest;
      assert a + "/" + b == head + "/" + (rest + "/" + b);
      SplitFirst(head, rest + "/" + b);
      SplitFirst(head, rest);
      SplitSum(rest, b);
    } else {
      assert a[..n] == a;
      SplitFirst(a, b);
      SplitName(a);
    }
  }

  lemma {:induction false} SplitName(s: string)
    requires '/' !in s
    ensures Split(s) == [s]
  {
  }

  lemma {:induction false} SplitSegments(s: string)
    ensures forall x :: x in Split(s) ==> '/' !in x
    decreases |s|
  {
    var n := Find(s, '/');
    if n < |s| { SplitSegments(s[n + 1..]); }
  }

  lemma {:induction false} SplitJoin(segments: seq<string>)
    requires segments != [] && forall s :: s in segments ==> '/' !in s
    ensures Split(Join(segments)) == segments
  {
    hide Split;
    if |segments| == 1 {
      SplitName(segments[0]);
    } else {
      SplitJoin(segments[1..]);
      SplitSum(segments[0], Join(segments[1..]));
      SplitName(segments[0]);
      assert [segments[0]] + segments[1..] == segments;
    }
  }

  // ---------------------------------------------------- what is kept is normal

  lemma {:induction false} KeepNormal(kept: seq<string>, s: string, absolute: bool)
    requires Normal(kept) && '/' !in s && (absolute ==> Names(kept))
    ensures Normal(Keep(kept, s, absolute)) && (absolute ==> Names(Keep(kept, s, absolute)))
  {
    if s == ".." && kept != [] && kept[|kept| - 1] == ".." {
      assert forall i :: 0 <= i < |kept| ==> kept[i] == "..";
    }
  }

  lemma {:induction false} KeepAllNormal(kept: seq<string>, segments: seq<string>, absolute: bool)
    requires Normal(kept) && (absolute ==> Names(kept)) && forall s :: s in segments ==> '/' !in s
    ensures Normal(KeepAll(kept, segments, absolute)) && (absolute ==> Names(KeepAll(kept, segments, absolute)))
    decreases |segments|
  {
    if segments != [] {
      KeepNormal(kept, segments[0], absolute);
      KeepAllNormal(Keep(kept, segments[0], absolute), segments[1..], absolute);
    }
  }

  lemma {:induction false} SegmentsNormal(path: string)
    ensures Normal(Segments(path)) && (IsAbsolute(path) ==> Names(Segments(path)))
  {
    SplitSegments(path);
    KeepAllNormal([], Split(path), IsAbsolute(path));
  }

  lemma {:induction false} KeepAllSum(kept: seq<string>, a: seq<string>, b: seq<string>, absolute: bool)
    ensures KeepAll(kept, a + b, absolute) == KeepAll(KeepAll(kept, a, absolute), b, absolute)
    decreases |a|
  {
    if a == [] {
      assert a + b == b;
    } else {
      KeepAllSum(Keep(kept, a[0], absolute), a[1..], b, absolute);
      assert (a + b)[1..] == a[1..] + b;
    }
  }

  /** Normal segments are all kept. */
  lemma {:induction false} KeepsNormal(segments: seq<string>, absolute: bool)
    requires Normal(segments) && (absolute ==> Names(segments))
    ensures KeepAll([], segments, absolute) == segments
  {
    if segments != [] {
      var (front, last) := (segments[..|segments| - 1], segments[|segments| - 1]);
      KeepsNormal(front, absolute);
      KeepAllSum([], front, [last], absolute);
      assert front + [last] == segments;
      assert last in segments && [last][1..] == [];
      assert last == ".." && front != [] ==> front[|front| - 1] == "..";
    }
  }

  // --------------------------------------------------- denotation is preserved

  lemma {:induction false} KeepWalks(base: seq<string>, kept: seq<string>, s: string)
    requires Normal(kept)
    ensures Walk(base, Keep(kept, s, false)) == WalkOne(Walk(base, kept), s)
  {
    if s == ".." && kept != [] && kept[|kept| - 1] != ".." {
      var (front, last) := (kept[..|kept| - 1], kept[|kept| - 1]);
      assert front + [last] == kept && last in kept;
      WalkLast(base, front, last);
    } else if s != "" && s != "." {
      WalkLast(base, kept, s);
    }
  }

  /** What is kept of a relative path leads where the path leads, from any base. */
  lemma {:induction false} KeepAllWalks(base: seq<string>, kept: seq<string>, segments: seq<string>)
    requires Normal(kept) && forall s :: s in segments ==> '/' !in s
    ensures Walk(base, KeepAll(kept, segments, false)) == Walk(Walk(base, kept), segments)
    decreases |segments|
  {
    if segments != [] {
      KeepNormal(kept, segments[0], false);
      KeepWalks(base, kept, segments[0]);
      KeepAllWalks(base, Keep(kept, segments[0], false), segments[1..]);
    }
  }

  /** What is kept of an absolute path is the place it denotes. */
  lemma {:induction false} KeepAllPlace(kept: seq<string>, segments: seq<string>)
    requires Names(kept) && forall s :: s in segments ==> '/' !in s
    ensures KeepAll(kept, segments, true) == Walk(kept, segments)
    decreases |segments|
  {
    if segments != [] {
      assert kept != [] ==> kept[|kept| - 1] in kept;
      assert Keep(kept, segments[0], true) == WalkOne(kept, segments[0]);
      KeepAllPlace(WalkOne(kept, segments[0]), segments[1..]);
    }
  }

  lemma {:induction false} SegmentsDenote(path: string, base: seq<string>)
    ensures IsAbsolute(path) ==> Segments(path) == From([], path)
    ensures !IsAbsolute(path) ==> Walk(base, Segments(path)) == From(base, path)
  {
    SplitSegments(path);
    if IsAbsolute(path) { KeepAllPlace([], Split(path)); } else { KeepAllWalks(base, [], Split(path)); }
  }

  // -------------------------------------------------------- reading back

  lemma {:induction false} WithPrefix(prefix: string, segments: seq<string>, absolute: bool)
    requires prefix == "" || prefix == "."
    requires Normal(segments) && (absolute ==> Names(segments))
    ensures KeepAll([], Split(prefix + "/" + Join(segments)), absolute) == segments
    ensures segments != [] ==> KeepAll([], Split(Join(segments)), absolute) == segments
  {
    SplitSum(prefix, Join(segments));
    SplitName(prefix);
    KeepAllSum([], [prefix], Split(Join(segments)), absolute);
    assert [prefix][1..] == [];
    assert KeepAll([], [prefix], absolute) == [];
    if segments == [] {
      assert Split("") == [""] && [""][1..] == [];
    } else {
      SplitJoin(segments);
      KeepsNormal(segments, absolute);
    }
  }

  lemma {:induction false} JoinStarts(segments: seq<string>)
    requires segments != [] && Normal(segments)
    ensures segments[0] <= Join(segments)
    ensures Join(segments) != "" && Join(segments)[0] != '/'
    ensures |segments| > 1 ==> segments[0] + "/" <= Join(segments)
    ensures |segments| == 1 ==> Join(segments) == segments[0]
  {
    assert segments[0] in segments;
    assert Join(segments)[0] == segments[0][0];
    assert segments[0][0] in segments[0];
  }

  lemma {:induction false} DotsHaveNoScheme(path: string)
    requires StartsWith(path, "./") || StartsWith(path, "../") || path == ".."
    ensures !HasScheme(path)
  {
    var n := Find(path, ':');
    var head := path[..n];
    assert StartsWith(path, "./") ==> path[0] == '.' && path[1] == '/';
    assert StartsWith(path, "../") ==> path[0] == '.' && path[1] == '.' && path[2] == '/';
    assert StartsWith(path, "./") && 1 < n ==> head[1] == '/' && '/' in head;
    assert StartsWith(path, "../") && 2 < n ==> head[2] == '/' && '/' in head;
    assert path == ".." ==> path[0] == '.' && path[1] == '.';
  }

  /** Normalizing an absolute path gives the place it denotes. */
  lemma {:induction false} NormalAbsolute(path: string)
    requires IsAbsolute(path) && !InPackage(path)
    ensures Normalize(path) == "/" + Join(From([], path)) && Names(From([], path))
  {
    SegmentsDenote(path, []);
    SegmentsNormal(path);
  }

  lemma {:induction false} AbsoluteAgain(names: seq<string>)
    requires Names(names) && !InPackage("/" + Join(names))
    ensures Normalize("/" + Join(names)) == "/" + Join(names) && From([], "/" + Join(names)) == names
  {
    NamesNormal(names);
    WithPrefix("", names, true);
    assert "" + "/" + Join(names) == "/" + Join(names);
    SegmentsDenote("/" + Join(names), []);
  }

  // ------------------------------------------------------------ idempotence

  lemma {:induction false} BracketInJoin(segments: seq<string>)
    ensures '[' in Join(segments) ==> exists s :: s in segments && '[' in s
  {
    if |segments| > 1 { BracketInJoin(segments[1..]); }
  }

  lemma {:induction false} BracketInSplit(path: string, s: string)
    requires s in Split(path) && '[' in s
    ensures '[' in path
    decreases |path|
  {
    var n := Find(path, '/');
    if n < |path| && s != path[..n] { BracketInSplit(path[n + 1..], s); }
  }

  lemma {:induction false} KeptFrom(kept: seq<string>, segments: seq<string>, absolute: bool, s: string)
    requires s in KeepAll(kept, segments, absolute)
    ensures s in kept || s in segments
    decreases |segments|
  {
    if segments != [] { KeptFrom(Keep(kept, segments[0], absolute), segments[1..], absolute, s); }
  }

  /** Normalizing brings in no bracket. */
  lemma {:induction false} NoBracket(path: string)
    requires '[' !in path
    ensures '[' !in Join(Segments(path))
  {
    BracketInJoin(Segments(path));
    if s :| s in Segments(path) && '[' in s {
      KeptFrom([], Split(path), IsAbsolute(path), s);
      BracketInSplit(path, s);
    }
  }

  /** A path from a drive root is the drive and a normal absolute path. */
  lemma {:induction false} NormalDrive(path: string)
    requires HasDrive(path) && '[' !in path
    ensures Normalize(path) == path[..2] + "/" + Join(From([], path[2..])) && Names(From([], path[2..]))
  {
    NormalAbsolute(path[2..]);
    assert path[..2] + ("/" + Join(From([], path[2..]))) == path[..2] + "/" + Join(From([], path[2..]));
  }

  /** What a path whose first segment is a name reads as again. */
  lemma {:induction false} NamedAgain(segments: seq<string>)
    requires segments != [] && Normal(segments) && segments[0] != ".." && '[' !in Join(segments)
    ensures Normalize(Join(segments)) == Join(segments)
  {
    var r := Join(segments);
    assert segments[0] in segments;
    JoinStarts(segments);
    WithPrefix("", segments, false);
    assert forall j :: 0 <= j < |segments| ==> segments[j] in segments && segments[j] != "..";
    if HasDrive(r) {
      DriveSegment(segments);
      AbsoluteAgain(segments[1..]);
      assert r[..2] + r[2..] == r;
    } else {
      NamedNotFileRelative(segments);
    }
  }

  lemma {:induction false} FileRelativeFirst(path: string)
    ensures IsFileRelative(path) ==> Split(path)[0] == "." || Split(path)[0] == ".."
  {
    if StartsWith(path, "./") {
      assert path == "." + "/" + path[2..];
      SplitFirst(".", path[2..]);
    } else if StartsWith(path, "../") {
      assert path == ".." + "/" + path[3..];
      SplitFirst("..", path[3..]);
    }
  }

  lemma {:induction false} NamedNotFileRelative(segments: seq<string>)
    requires segments != [] && Normal(segments) && segments[0] != ".."
    ensures !IsFileRelative(Join(segments))
  {
    assert segments[0] in segments;
    FileRelativeFirst(Join(segments));
    SplitJoin(segments);
  }

  lemma {:induction false} DriveSegment(segments: seq<string>)
    requires segments != [] && Normal(segments) && HasDrive(Join(segments))
    ensures Join(segments)[2..] == "/" + Join(segments[1..])
  {
    var (r, s) := (Join(segments), segments[0]);
    assert s in segments;
    JoinStarts(segments);
    assert forall i :: 0 <= i < |s| ==> r[i] == s[i] && s[i] in s;
    assert |segments| > 1 ==> r[|s|] == '/';
    assert |s| == 2;
    assert |segments| > 1 ==> r == s + ("/" + Join(segments[1..]));
  }

  lemma {:induction false} DotsAgain(segments: seq<string>)
    requires segments != [] && Normal(segments) && segments[0] == ".." && '[' !in Join(segments)
    ensures Normalize(Join(segments)) == Join(segments)
  {
    JoinStarts(segments);
    WithPrefix("", segments, false);
    DotsHaveNoScheme(Join(segments));
    assert Join(segments)[0] == '.';
  }

  lemma {:induction false} MarkedAgain(segments: seq<string>)
    requires Normal(segments) && (segments == [] || segments[0] != "..") && '[' !in Join(segments)
    ensures Normalize("./" + Join(segments)) == "./" + Join(segments)
  {
    hide KeepAll, Split, Join, HasScheme, Find;
    var r := "./" + Join(segments);
    WithPrefix(".", segments, false);
    assert "." + "/" + Join(segments) == r;
    DotsHaveNoScheme(r);
    assert r[0] == '.';
  }

  /** Normalizing a path again changes nothing, whatever the path has become: a
      search path that lost a leading segment may read as a drive, a URI or an
      expression. */
  lemma {:induction false} NormalizeIdempotent(path: string)
    requires !InPackage(path)
    ensures !InPackage(Normalize(path)) && Normalize(Normalize(path)) == Normalize(path)
    decreases |path|
  {
    hide Segments, Join, Split, HasScheme, From;
    if !IsExpression(path) {
      SegmentsNormal(path);
      NoBracket(path);
      var segments := Segments(path);
      if HasDrive(path) {
        DriveAgain(path);
      } else if IsAbsolute(path) {
        NormalAbsolute(path);
        SegmentsDenote(path, []);
        AbsoluteAgain(segments);
      } else if IsRelative(path) {
        if IsFileRelative(path) && (segments == [] || segments[0] != "..") {
          MarkedAgain(segments);
        } else if segments != [] {
          if segments[0] == ".." { DotsAgain(segments); } else { NamedAgain(segments); }
        } else {
          JoinNone();
        }
      }
    }
  }

  lemma {:induction false} JoinNone()
    ensures Join([]) == "" && Normalize("") == ""
  {
  }

  lemma {:induction false} DriveAgain(path: string)
    requires HasDrive(path) && '[' !in path
    ensures '[' !in Normalize(path) && Normalize(Normalize(path)) == Normalize(path)
  {
    hide Segments, Join, Split, HasScheme, From;
    var rest := path[2..];
    SegmentsDenote(rest, []);
    NoBracket(rest);
    NormalDrive(path);
    var tail := "/" + Join(From([], rest));
    AbsoluteAgain(From([], rest));
    var r := Normalize(path);
    assert r == path[..2] + tail && r[..2] == path[..2] && r[2..] == tail;
  }

  // ------------------------------------------------- one form, one place

  lemma {:induction false} FromJoin(base: seq<string>, segments: seq<string>)
    requires Normal(segments)
    ensures From(base, Join(segments)) == Walk(base, segments)
    ensures From(base, "./" + Join(segments)) == Walk(base, segments)
  {
    SplitSum(".", Join(segments));
    assert "." + "/" + Join(segments) == "./" + Join(segments);
    SplitName(".");
    WalkSum(base, ["."], Split(Join(segments)));
    assert ["."][1..] == [];
    if segments == [] {
      assert Split("") == [""] && [""][1..] == [];
    } else {
      SplitJoin(segments);
    }
  }

  /** A relative path and its normal form lead to the same place from every
      base. */
  lemma {:induction false} NormalRelative(path: string, base: seq<string>)
    requires IsRelative(path) && !IsExpression(path) && '[' !in path
    ensures From(base, Normalize(path)) == From(base, path)
  {
    hide Segments, Join, Split, HasScheme, From;
    SegmentsNormal(path);
    SegmentsDenote(path, base);
    FromJoin(base, Segments(path));
    DriveHasScheme(path);
  }

  lemma {:induction false} DriveHasScheme(path: string)
    ensures HasDrive(path) ==> HasScheme(path)
  {
    if HasDrive(path) {
      FindFirst(path[..1], ':', path[2..]);
      assert path[..1] + ":" + path[2..] == path;
    }
  }

  function Repeated(s: string, n: nat): (r: seq<string>)
    ensures |r| == n && forall i :: 0 <= i < n ==> r[i] == s
  {
    seq(n, i requires 0 <= i < n => s)
  }

  /** The number of steps up a normal form starts with. */
  function Ups(segments: seq<string>): nat {
    if segments == [] || segments[0] != ".." then 0 else 1 + Ups(segments[1..])
  }

  lemma {:induction false} NormalRest(segments: seq<string>)
    requires Normal(segments) && segments != []
    ensures Normal(segments[1..]) && (segments[0] != ".." ==> Names(segments))
  {
    var rest := segments[1..];
    assert forall s :: s in rest ==> s in segments;
    assert forall j :: 0 <= j < |rest| ==> rest[j] == segments[j + 1];
    if segments[0] != ".." {
      forall s | s in segments ensures IsName(s) { var j :| 0 <= j < |segments| && segments[j] == s; }
    }
  }

  lemma {:induction false} UpsIs(segments: seq<string>)
    requires Normal(segments)
    ensures var k := Ups(segments);
      k <= |segments| && segments[..k] == Repeated("..", k) && Names(segments[k..])
  {
    hide Normal, Names;
    if segments == [] {
      NoNames();
      assert segments[0..] == [];
    } else {
      NormalRest(segments);
      if segments[0] == ".." {
        UpsIs(segments[1..]);
        var k := Ups(segments);
        assert segments[..k] == [segments[0]] + segments[1..][..k - 1];
        assert segments[k..] == segments[1..][k - 1..];
      } else {
        assert segments[0..] == segments;
      }
    }
  }

  lemma {:induction false} NoNames()
    ensures Names([])
  {
  }

  lemma {:induction false} WalkUps(base: seq<string>, k: nat)
    requires k <= |base|
    ensures Walk(base, Repeated("..", k)) == base[..|base| - k]
    decreases k
  {
    if k > 0 {
      WalkUps(base[..|base| - 1], k - 1);
      assert Repeated("..", k)[1..] == Repeated("..", k - 1);
    }
  }

  lemma {:induction false} WalkNames(base: seq<string>, names: seq<string>)
    requires Names(names)
    ensures Walk(base, names) == base + names
    decreases |names|
  {
    if names != [] {
      assert names[0] in names;
      WalkNames(base + [names[0]], names[1..]);
    }
  }

  /** A normal form from a deep enough base: up from its end, then down. */
  lemma {:induction false} WalkNormal(base: seq<string>, segments: seq<string>)
    requires Normal(segments) && Ups(segments) <= |base|
    ensures var k := Ups(segments); k <= |segments| && Walk(base, segments) == base[..|base| - k] + segments[k..]
  {
    var k := Ups(segments);
    UpsIs(segments);
    assert segments == Repeated("..", k) + segments[k..];
    WalkSum(base, Repeated("..", k), segments[k..]);
    WalkUps(base, k);
    WalkNames(base[..|base| - k], segments[k..]);
  }

  /** The paths lead to one place from every base of names at least `depth`
      deep. */
  ghost predicate SamePlaces(p: string, q: string, depth: nat) {
    forall base :: Names(base) && |base| >= depth ==> From(base, p) == From(base, q)
  }

  lemma {:induction false} FreshName(s: string)
    requires IsName(s)
    ensures IsName(s + "x") && s + "x" != s
  {
    assert (s + "x")[..|s|] == s;
    assert |s + "x"| == |s| + 1;
    assert |s| == 1 ==> s == [s[0]];
    assert (s + "x")[|s|] == 'x';
  }

  lemma {:induction false} DifferentDepth(base: seq<string>, k: nat, l: nat, a: seq<string>, b: seq<string>, f: string)
    requires k <= l < |base| && base == Repeated(f, |base|) && (b != [] ==> b[0] != f)
    ensures k < l ==> base[..|base| - k] + a != base[..|base| - l] + b
  {
    var (n, x, y) := (|base|, base[..|base| - k] + a, base[..|base| - l] + b);
    if k < l && |x| == |y| {
      assert x[n - l] == f;
      assert y[n - l] == b[0];
    }
  }

  /** Normal forms that lead to one place from one deep base of a name none of
      them begins with are equal. */
  lemma {:induction false} SameSegments(a: seq<string>, b: seq<string>, base: seq<string>, f: string)
    requires Normal(a) && Normal(b) && Ups(a) <= Ups(b) < |base| && base == Repeated(f, |base|)
    requires Walk(base, a) == Walk(base, b)
    requires Ups(b) < |b| ==> b[Ups(b)] != f
    ensures a == b
  {
    hide Walk, Ups, Names, Normal;
    var (k, l) := (Ups(a), Ups(b));
    WalkNormal(base, a);
    WalkNormal(base, b);
    UpsIs(a);
    UpsIs(b);
    DifferentDepth(base, k, l, a[k..], b[l..], f);
    SameTails(base[..|base| - k], a[k..], b[l..]);
    assert a == a[..k] + a[k..] && b == b[..k] + b[k..];
  }

  lemma {:induction false} SameTails(front: seq<string>, a: seq<string>, b: seq<string>)
    requires front + a == front + b
    ensures a == b
  {
    assert (front + a)[|front|..] == a && (front + b)[|front|..] == b;
  }

  lemma {:induction false} SamePlacesSegments(p: string, q: string, depth: nat)
    requires !IsAbsolute(p) && !IsAbsolute(q) && SamePlaces(p, q, depth) && Ups(Segments(p)) <= Ups(Segments(q))
    ensures Segments(p) == Segments(q)
  {
    hide Segments, Split, From;
    SegmentsNormal(p);
    SegmentsNormal(q);
    var (a, b) := (Segments(p), Segments(q));
    UpsIs(b);
    var l := Ups(b);
    var f := if l < |b| then b[l] + "x" else "x";
    if l < |b| {
      assert b[l] == b[l..][0] && b[l] in b[l..];
      FreshName(b[l]);
    }
    var base := Repeated(f, depth + l + 1);
    assert Names(base);
    SegmentsDenote(p, base);
    SegmentsDenote(q, base);
    SameSegments(a, b, base, f);
  }

  lemma {:induction false} JoinInjective(a: seq<string>, b: seq<string>)
    requires Normal(a) && Normal(b) && Join(a) == Join(b)
    ensures a == b
  {
    if a == [] {
      if b != [] { JoinStarts(b); }
    } else if b == [] {
      JoinStarts(a);
    } else {
      SplitJoin(a);
      SplitJoin(b);
    }
  }

  lemma {:induction false} MarkShows(a: seq<string>, b: seq<string>)
    requires Normal(b)
    ensures "./" + Join(a) != Join(b)
  {
    if b != [] {
      SplitJoin(b);
      SplitFirst(".", Join(a));
      assert "." + "/" + Join(a) == "./" + Join(a);
      assert b[0] in b;
    }
  }

  /** A path that is relative, to its layer or to a search path. */
  predicate IsPlainRelative(path: string) { IsRelative(path) && !IsExpression(path) && '[' !in path }

  /** The normal form begins with `..`, so that the mark of a path relative to its
      layer does not show. */
  predicate LeadsUp(path: string) { Ups(Segments(path)) > 0 }

  lemma {:induction false} FormOf(path: string)
    requires IsPlainRelative(path)
    ensures Normalize(path) == if IsFileRelative(path) && !LeadsUp(path) then "./" + Join(Segments(path)) else Join(Segments(path))
    ensures Normal(Segments(path)) && !IsAbsolute(path)
  {
    hide Segments, Join, HasScheme;
    DriveHasScheme(path);
    SegmentsNormal(path);
  }

  lemma {:induction false} SameForms(p: string, q: string)
    requires IsPlainRelative(p) && IsPlainRelative(q)
    ensures Normalize(p) == Normalize(q) <==>
      Segments(p) == Segments(q) && (IsFileRelative(p) == IsFileRelative(q) || LeadsUp(p))
  {
    hide Segments, Join, IsPlainRelative, Normalize, Normal, Ups, IsFileRelative;
    FormOf(p);
    FormOf(q);
    var (a, b) := (Segments(p), Segments(q));
    MarkShows(a, b);
    MarkShows(b, a);
    if Join(a) == Join(b) { JoinInjective(a, b); }
    if "./" + Join(a) == "./" + Join(b) { Unmarked(Join(a), Join(b)); }
  }

  lemma {:induction false} Unmarked(a: string, b: string)
    requires "./" + a == "./" + b
    ensures a == b
  {
    assert ("./" + a)[2..] == a && ("./" + b)[2..] == b;
  }

  /** Two relative paths have one normal form exactly when they lead to one place
      from every deep enough base, and are both relative to their layer, or both
      to a search path, or lead up from where they start. */
  lemma {:induction false} SameNormalForm(p: string, q: string, depth: nat)
    requires IsPlainRelative(p) && IsPlainRelative(q)
    ensures Normalize(p) == Normalize(q) <==>
      SamePlaces(p, q, depth) && (IsFileRelative(p) == IsFileRelative(q) || LeadsUp(p))
  {
    hide Segments, Split, From, Join, HasScheme, Normalize, Ups, IsFileRelative;
    SameForms(p, q);
    if Segments(p) == Segments(q) {
      forall base | Names(base) && |base| >= depth ensures From(base, p) == From(base, q) {
        SegmentsDenote(p, base);
        SegmentsDenote(q, base);
      }
    }
    if SamePlaces(p, q, depth) {
      assert SamePlaces(q, p, depth);
      if Ups(Segments(p)) <= Ups(Segments(q)) { SamePlacesSegments(p, q, depth); } else { SamePlacesSegments(q, p, depth); }
    }
  }

  // ------------------------------------------- search paths that stay search paths

  predicate IsSearchPath(path: string) { IsRelative(path) && !IsFileRelative(path) && !IsExpression(path) }

  /** A step goes above the directory `depth` names below which it starts. */
  predicate Climbs(depth: nat, segments: seq<string>)
    decreases |segments|
  {
    if segments == [] then false
    else if segments[0] == "" || segments[0] == "." then Climbs(depth, segments[1..])
    else if segments[0] == ".." then depth == 0 || Climbs(depth - 1, segments[1..])
    else Climbs(depth + 1, segments[1..])
  }

  lemma {:induction false} UpStays(kept: seq<string>, segments: seq<string>)
    requires kept != [] && kept[0] == ".."
    ensures var r := KeepAll(kept, segments, false); r != [] && r[0] == ".."
    decreases |segments|
  {
    if segments != [] { UpStays(Keep(kept, segments[0], false), segments[1..]); }
  }

  lemma {:induction false} ClimbsIs(kept: seq<string>, segments: seq<string>)
    requires Names(kept) && forall s :: s in segments ==> '/' !in s
    ensures Climbs(|kept|, segments) <==> Ups(KeepAll(kept, segments, false)) > 0
    decreases |segments|
  {
    if segments == [] {
      assert kept != [] ==> kept[0] in kept;
    } else {
      var (s, rest) := (segments[0], segments[1..]);
      assert s in segments && forall x :: x in rest ==> x in segments;
      var next := Keep(kept, s, false);
      if s == ".." && kept == [] {
        assert next == [".."];
        UpStays(next, rest);
      } else {
        assert segments == [s] + rest;
        ClimbsOne(kept, s, rest);
        ClimbsIs(next, rest);
      }
    }
  }

  lemma {:induction false} ClimbsOne(kept: seq<string>, s: string, rest: seq<string>)
    requires Names(kept) && '/' !in s && (s == ".." ==> kept != [])
    ensures Names(Keep(kept, s, false)) && Climbs(|kept|, [s] + rest) == Climbs(|Keep(kept, s, false)|, rest)
  {
    assert kept != [] ==> kept[|kept| - 1] in kept;
    assert ([s] + rest)[1..] == rest;
  }

  /** The normal form leads up exactly when the path climbs above where it
      starts, on the way or at its end. */
  lemma {:induction false} LeadsUpIs(path: string)
    requires !IsAbsolute(path)
    ensures LeadsUp(path) <==> Climbs(0, Split(path))
  {
    hide Split;
    SplitSegments(path);
    ClimbsIs([], Split(path));
  }

  lemma {:induction false} FirstScheme(segments: seq<string>)
    requires segments != [] && Normal(segments)
    ensures HasScheme(Join(segments)) <==> HasScheme(segments[0])
  {
    hide Join;
    var (r, s) := (Join(segments), segments[0]);
    JoinStarts(segments);
    assert r[..|s|] == s;
    var n := Find(s, ':');
    if n < |s| {
      assert s == s[..n] + ":" + s[n + 1..];
      assert r == s[..n] + ":" + r[n + 1..];
      FindFirst(s[..n], ':', r[n + 1..]);
    } else if |segments| > 1 {
      SlashBefore(r, s);
    }
  }

  lemma {:induction false} SlashBefore(r: string, s: string)
    requires s + "/" <= r && ':' !in s
    ensures !HasScheme(r)
  {
    var n := Find(r, ':');
    assert r[|s|] == '/' && forall i :: 0 <= i < |s| ==> r[i] == s[i] && s[i] in s;
    assert n < |r| ==> |s| < n && r[..n][|s|] == '/' && '/' in r[..n];
  }

  lemma {:induction false} FirstKind(segments: seq<string>)
    requires segments != [] && Normal(segments)
    ensures IsExpression(Join(segments)) <==> IsExpression(segments[0])
    ensures IsFileRelative(Join(segments)) <==> segments[0] == ".." && |segments| > 1
  {
    hide Join;
    assert segments[0] in segments;
    JoinStarts(segments);
    assert Join(segments)[0] == segments[0][0];
    FileRelativeFirst(Join(segments));
    SplitJoin(segments);
  }

  /** A normalized search path is one again exactly when something is left of it,
      it does not climb out and then go on, and its first name does not read as a
      drive, a scheme or an expression. */
  lemma {:induction false} StaysSearchPath(path: string)
    requires IsSearchPath(path) && '[' !in path
    ensures var segments := Segments(path);
      IsSearchPath(Normalize(path)) <==>
        && segments != []
        && (Climbs(0, Split(path)) ==> |segments| == 1)
        && !HasScheme(segments[0])
        && !IsExpression(segments[0])
  {
    hide Segments, Split, Join, HasScheme, Climbs, Normalize;
    FormOf(path);
    LeadsUpIs(path);
    var segments := Segments(path);
    if segments == [] {
      JoinNone();
    } else {
      FirstKind(segments);
      FirstScheme(segments);
      JoinStarts(segments);
    }
  }

  /** A search path that becomes one relative to its layer. */
  lemma {:induction false} ClimbsOut()
    ensures IsSearchPath("a/../../x") && Normalize("a/../../x") == "../x" && IsFileRelative("../x")
  {
    hide Split, KeepAll, Find, Join, Normalize;
    var path := "a/../../x";
    assert ':' !in path && '[' !in path && path[0] == 'a';
    NoColon(path);
    FormOf(path);
    FourKept();
    JoinTwo("..", "x");
  }

  lemma {:induction false} NoColon(path: string)
    requires ':' !in path
    ensures !HasScheme(path)
  {
  }

  lemma {:induction false} FourKept()
    ensures Segments("a/../../x") == ["..", "x"]
  {
    hide Split, KeepAll;
    FourSegments();
    KeepStep([], "a", ["..", "..", "x"]);
    KeepStep(["a"], "..", ["..", "x"]);
    KeepStep([], "..", ["x"]);
    KeepStep([".."], "x", []);
    KeepNone(["..", "x"]);
    assert ["..", "..", "x"] == [".."] + ["..", "x"] && ["..", "x"] == [".."] + ["x"] && ["x"] == ["x"] + [];
    assert Keep([], "a", false) == ["a"];
    assert Keep(["a"], "..", false) == [];
    assert Keep([], "..", false) == [] + [".."] == [".."];
    assert Keep([".."], "x", false) == ["..", "x"];
    assert !IsAbsolute("a/../../x") by { assert "a/../../x"[0] == 'a'; }
  }

  lemma {:induction false} JoinTwo(a: string, b: string)
    ensures Join([a, b]) == a + "/" + b
  {
    assert [a, b][1..] == [b];
  }

  lemma {:induction false} KeepNone(kept: seq<string>)
    ensures KeepAll(kept, [], false) == kept
  {
  }

  lemma {:induction false} FourSegments()
    ensures Split("a/../../x") == ["a"] + ["..", "..", "x"]
  {
    hide Split;
    SplitFirst("a", "../../x");
    SplitFirst("..", "../x");
    SplitFirst("..", "x");
    SplitName("x");
    assert "a" + "/" + "../../x" == "a/../../x" && ".." + "/" + "../x" == "../../x" && ".." + "/" + "x" == "../x";
  }

  lemma {:induction false} KeepStep(kept: seq<string>, s: string, rest: seq<string>)
    ensures KeepAll(kept, [s] + rest, false) == KeepAll(Keep(kept, s, false), rest, false)
  {
    assert ([s] + rest)[1..] == rest;
  }

  /** Two absolute paths have one normal form exactly when they denote one
      place. */
  lemma {:induction false} SameAbsolute(p: string, q: string)
    requires IsAbsolute(p) && IsAbsolute(q) && '[' !in p && '[' !in q
    ensures Normalize(p) == Normalize(q) <==> From([], p) == From([], q)
  {
    hide Segments, Split, From, Join;
    NormalAbsolute(p);
    NormalAbsolute(q);
    if Normalize(p) == Normalize(q) {
      SegmentsDenote(p, []);
      SegmentsDenote(q, []);
      NoBracket(p);
      NoBracket(q);
      AbsoluteAgain(From([], p));
      AbsoluteAgain(From([], q));
    }
  }

  // --------------------------------------------------------------- anchoring

  const FORMAT_ARGS: string := ":SDF_FORMAT_ARGS:"

  /** The index where `text` first stands in `s`, or the length. */
  function FindText(s: string, text: string): (n: nat)
    requires text != ""
    ensures n <= |s|
  {
    if s == "" || text <= s then 0 else 1 + FindText(s[1..], text)
  }

  function Slashes(s: string): (r: string)
    ensures |r| == |s| && ('[' in r ==> '[' in s)
  {
    var r := seq(|s|, i requires 0 <= i < |s| => if s[i] == '\\' then '/' else s[i]);
    assert forall i :: 0 <= i < |r| && r[i] == '[' ==> s[i] == '[';
    r
  }

  /** The text before the last `/`, if there is one. */
  function Directory(s: string): (r: Option<string>)
    ensures r.Some? ==> r.value + "/" <= s
    ensures r.None? <==> '/' !in s
  {
    if s == "" then None
    else if s[|s| - 1] == '/' then Some(s[..|s| - 1])
    else Directory(s[..|s| - 1])
  }

  function HostRelative(location: string): string {
    if IsRelative(location) && !IsFileRelative(location) then "./" + location else location
  }

  /** The path a layer at `location` joins a path relative to it to. */
  function Joined(path: string, location: string): string {
    var directory := Directory(location);
    if directory.Some? then HostRelative(directory.value) + "/" + path
    else if !IsRelative(location) then "/" + path
    else path
  }

  function Anchor(asset: string, location: string): Option<string>
    requires '[' !in asset && '[' !in location
    decreases |asset|
  {
    if IsExpression(asset) then None
    else
      var at := FindText(asset, FORMAT_ARGS);
      if at < |asset| then
        if at == 0 then None
        else
          var anchored := Anchor(asset[..at], location);
          if anchored.Some? then Some(anchored.value + asset[at..]) else None
      else
        var path := Slashes(asset);
        if !IsFileRelative(path) then Some(Normalize(path))
        else if location == "" then None
        else
          JoinedPlain(path, Slashes(location));
          Some(Normalize(Joined(path, Slashes(location))))
  }

  lemma {:induction false} JoinedPlain(path: string, location: string)
    requires '[' !in path && '[' !in location
    ensures '[' !in Joined(path, location)
  {
    var directory := Directory(location);
    assert directory.Some? ==> directory.value <= location && forall c :: c in directory.value ==> c in location;
  }

  lemma {:induction false} FromSum(base: seq<string>, a: string, b: string)
    ensures From(base, a + "/" + b) == Walk(From(base, a), Split(b))
  {
    SplitSum(a, b);
    WalkSum(base, Split(a), Split(b));
  }

  /** A plain path relative to its layer: no expression, no format arguments. */
  predicate Plain(asset: string) {
    '[' !in asset && !IsExpression(asset) && FindText(asset, FORMAT_ARGS) == |asset| && IsFileRelative(Slashes(asset))
  }

  /** The text of the directory a layer is in. */
  function LayerDirectory(location: string): string {
    var directory := Directory(location);
    if directory.Some? then directory.value else ""
  }

  lemma {:induction false} DirectoryOfAbsolute(location: string)
    requires IsAbsolute(location)
    ensures Directory(location).Some? && (Directory(location).value == "" || IsAbsolute(Directory(location).value))
  {
    assert location[0] == '/' && '/' in location;
    var d := Directory(location).value;
    assert d != "" ==> d[0] == location[0];
  }

  /** Anchored to a layer at an absolute location, a path names the place it
      leads to from the layer's directory. */
  lemma {:induction false} AnchorAbsolute(asset: string, location: string)
    requires Plain(asset) && '[' !in location && IsAbsolute(Slashes(location))
    ensures var (path, directory) := (Slashes(asset), LayerDirectory(Slashes(location)));
      Anchor(asset, location) == Some("/" + Join(Walk(From([], directory), Split(path))))
  {
    hide Split, Walk, Join, From, HasScheme;
    var (path, loc) := (Slashes(asset), Slashes(location));
    DirectoryOfAbsolute(loc);
    var d := Directory(loc).value;
    var joined := d + "/" + path;
    assert d != "" ==> joined[0] == d[0];
    assert IsAbsolute(joined) && joined == Joined(path, loc);
    JoinedPlain(path, loc);
    NormalAbsolute(joined);
    FromSum([], d, path);
  }

  lemma {:induction false} DirectoryOfRelative(location: string)
    requires IsRelative(location) && Directory(location).Some?
    ensures IsRelative(Directory(location).value)
  {
    var d := Directory(location).value;
    assert location[..|d|] == d && location[|d|] == '/';
    assert |d| != 0;
    var (n, m) := (Find(d, ':'), Find(location, ':'));
    if n < |d| {
      FindFirst(d[..n], ':', location[n + 1..]);
      assert d[..n] + ":" + location[n + 1..] == location;
      assert location[..n] == d[..n];
    }
    assert d != "" ==> d[0] == location[0];
  }

  /** The joined path of a relative location stays relative to its layer and
      leads from a base where the path leads from the layer's directory. */
  lemma {:induction false} JoinedRelative(path: string, location: string, base: seq<string>)
    requires IsFileRelative(path) && IsRelative(location)
    ensures IsFileRelative(Joined(path, location))
    ensures From(base, Joined(path, location)) == Walk(From(base, LayerDirectory(location)), Split(path))
  {
    hide Split, Walk, HasScheme;
    if Directory(location).Some? {
      var d := Directory(location).value;
      DirectoryOfRelative(location);
      var h := HostRelative(d);
      assert IsFileRelative(h) && IsFileRelative(h + "/" + path);
      FromSum(base, h, path);
      FromDot(base, d);
    } else {
      FromNothing(base);
    }
  }

  lemma {:induction false} FromDot(base: seq<string>, d: string)
    ensures From(base, "./" + d) == From(base, d)
  {
    SplitFirst(".", d);
    assert "." + "/" + d == "./" + d;
    assert (["."] + Split(d))[1..] == Split(d);
  }

  lemma {:induction false} FromNothing(base: seq<string>)
    ensures From(base, "") == base
  {
    assert Split("") == [""] && [""][1..] == [];
  }

  /** Anchored to a layer whose location is relative to its host, a path stays
      marked as relative and leads, from wherever the host resolves from, to the
      place it leads to from the layer's directory. */
  lemma {:induction false} AnchorRelative(asset: string, location: string, base: seq<string>)
    requires Plain(asset) && '[' !in location && IsRelative(Slashes(location))
    ensures var r := Anchor(asset, location);
      && r.Some? && (IsFileRelative(r.value) || r.value == "..")
      && From(base, r.value) == Walk(From(base, LayerDirectory(Slashes(location))), Split(Slashes(asset)))
  {
    hide Split, Walk, From, HasScheme, Join, Segments;
    var (path, loc) := (Slashes(asset), Slashes(location));
    JoinedRelative(path, loc, base);
    JoinedPlain(path, loc);
    var joined := Joined(path, loc);
    DotsHaveNoScheme(joined);
    assert joined[0] == '.';
    NormalRelative(joined, base);
    SegmentsNormal(joined);
    if Segments(joined) != [] && Segments(joined)[0] == ".." { JoinStarts(Segments(joined)); }
  }

  /** From a drive root a path is anchored as from the root, on that drive. */
  lemma {:induction false} AnchorDrive(asset: string, location: string)
    requires Plain(asset) && '[' !in location && HasDrive(Slashes(location))
    ensures var (path, loc) := (Slashes(asset), Slashes(location));
      |LayerDirectory(loc)| >= 2
      && Anchor(asset, location) == Some(loc[..2] + "/" + Join(Walk(From([], LayerDirectory(loc)[2..]), Split(path))))
  {
    hide Split, Walk, From, Join;
    var (path, loc) := (Slashes(asset), Slashes(location));
    DirectoryOfDrive(loc);
    var d := Directory(loc).value;
    var joined := d + "/" + path;
    assert joined[..2] == d[..2] && joined[2] == '/';
    assert d[0] == d[..2][0] && d[1] == d[..2][1] && joined[0] == d[0] && joined[1] == d[1];
    assert loc[0] == loc[..2][0] && loc[1] == loc[..2][1];
    assert HasDrive(joined) && joined == Joined(path, loc);
    JoinedPlain(path, loc);
    NormalDrive(joined);
    assert joined[2..] == d[2..] + "/" + path;
    FromSum([], d[2..], path);
  }

  lemma {:induction false} DirectoryOfDrive(location: string)
    requires HasDrive(location)
    ensures var d := Directory(location);
      d.Some? && |d.value| >= 2 && d.value[..2] == location[..2] && !IsRelative(d.value)
      && (|d.value| > 2 ==> d.value[2] == '/')
  {
    assert '/' in location;
    LastSlash(location, 2);
    var d := Directory(location).value;
    assert forall i :: 0 <= i < |d| ==> d[i] == location[i];
    FindFirst(d[..1], ':', d[2..]);
    assert d[..1] + ":" + d[2..] == d;
  }

  lemma {:induction false} LastSlash(s: string, i: nat)
    requires i < |s| && s[i] == '/'
    ensures Directory(s).Some? && |Directory(s).value| >= i
  {
    if s[|s| - 1] != '/' { LastSlash(s[..|s| - 1], i); }
  }

  // ------------------------------------------------- URIs, arguments, nothing

  /** The characters of a URI scheme. */
  predicate SchemeCharacters(scheme: string) {
    scheme != "" && forall c :: c in scheme ==>
      'a' <= c <= 'z' || 'A' <= c <= 'Z' || '0' <= c <= '9' || c == '+' || c == '-' || c == '.'
  }

  /** `text` stands somewhere in `s`. */
  ghost predicate Contains(s: string, text: string) { exists i: nat :: i <= |s| && text <= s[i..] }

  lemma {:induction false} FindTextIs(s: string, text: string)
    requires text != ""
    ensures var n := FindText(s, text);
      && (n < |s| ==> text <= s[n..])
      && forall i: nat :: i < n ==> !(text <= s[i..])
  {
    if s != "" && !(text <= s) {
      FindTextIs(s[1..], text);
      var n := FindText(s, text);
      assert n < |s| ==> s[1..][n - 1..] == s[n..];
      forall i: nat | i < n ensures !(text <= s[i..]) {
        if i == 0 { assert s[0..] == s; } else { assert s[1..][i - 1..] == s[i..]; }
      }
    } else {
      assert s[0..] == s;
    }
  }

  lemma {:induction false} SchemeFirst(scheme: string, rest: string)
    requires SchemeCharacters(scheme)
    ensures var path := scheme + ":" + rest;
      HasScheme(path) && !IsExpression(path) && !IsAbsolute(path) && !IsRelative(path) && !IsFileRelative(path)
  {
    hide SchemeCharacters;
    var path := scheme + ":" + rest;
    NotColon(scheme);
    FindFirst(scheme, ':', rest);
    assert path[..|scheme|] == scheme;
    assert path[0] == scheme[0];
    if IsFileRelative(path) { DotsHaveNoScheme(path); }
  }

  lemma {:induction false} NotColon(scheme: string)
    requires SchemeCharacters(scheme)
    ensures ':' !in scheme && scheme != "" && forall c :: c in scheme ==> IsSchemeChar(c)
    ensures scheme[0] != '`' && scheme[0] != '/'
  {
    assert scheme[0] in scheme;
  }

  /** The drive of a path that has one, written out. */
  predicate OnDrive(path: string) {
    |path| >= 3 && ('a' <= path[0] <= 'z' || 'A' <= path[0] <= 'Z') && path[1..3] == ":/"
  }

  lemma {:induction false} DriveIs(path: string)
    ensures HasDrive(path) <==> OnDrive(path)
  {
    assert |path| >= 3 ==> path[1..3] == [path[1], path[2]];
  }

  lemma {:induction false} NoBackslash(s: string)
    requires '\\' !in s
    ensures Slashes(s) == s
  {
    assert forall i :: 0 <= i < |s| ==> s[i] in s;
  }

  /** A URI is its own normal form, and its own anchored form wherever it is
      authored. */
  lemma {:induction false} UriKept(scheme: string, rest: string, location: string)
    requires var path := scheme + ":" + rest;
      SchemeCharacters(scheme) && !OnDrive(path) && '[' !in path && '[' !in location
    ensures var path := scheme + ":" + rest;
      && Normalize(path) == path
      && ('\\' !in path && !Contains(path, ":SDF_FORMAT_ARGS:") ==> Anchor(path, location) == Some(path))
  {
    hide HasScheme, IsRelative, IsFileRelative, IsExpression, IsAbsolute, Slashes;
    var path := scheme + ":" + rest;
    SchemeFirst(scheme, rest);
    DriveIs(path);
    FindTextIs(path, FORMAT_ARGS);
    if '\\' !in path { NoBackslash(path); }
  }

  /** A path on a drive is normalized from the drive's root. */
  lemma {:induction false} DriveKept(path: string)
    requires OnDrive(path) && '[' !in path
    ensures Normalize(path) == path[..2] + Normalize(path[2..]) && Normalize(path[2..])[..1] == "/"
  {
    hide Segments, Join;
    DriveIs(path);
    assert path[1..3][1] == '/';
  }

  /** Format arguments follow what the path before them is anchored to. */
  lemma {:induction false} ArgumentsFollow(path: string, arguments: string, location: string)
    requires path != "" && '[' !in path && '[' !in arguments && '[' !in location && ":SDF_FORMAT_ARGS:" <= arguments
    requires forall i: nat :: i < |path| ==> !(":SDF_FORMAT_ARGS:" <= (path + arguments)[i..])
    ensures IsExpression(path) ==> Anchor(path + arguments, location) == None
    ensures var (whole, alone) := (Anchor(path + arguments, location), Anchor(path, location));
      !IsExpression(path) ==> whole == if alone.Some? then Some(alone.value + arguments) else None
  {
    hide Normalize, Slashes, Joined, IsFileRelative;
    var asset := path + arguments;
    FindTextIs(asset, FORMAT_ARGS);
    assert asset[|path|..] == arguments && asset[..|path|] == path;
    assert IsExpression(asset) <==> IsExpression(path) by { assert asset[0] == path[0]; }
    assert FindText(asset, FORMAT_ARGS) == |path|;
  }

  /** Without arguments the answer is nothing in two cases only: for an expression,
      and for a marked path at a layer of unknown location. A path that is not
      marked goes to its normal form. */
  lemma {:induction false} AnchoredOrNot(asset: string, location: string)
    requires '[' !in asset && '[' !in location && !Contains(asset, ":SDF_FORMAT_ARGS:")
    ensures var path := Slashes(asset);
      var marked := StartsWith(path, "./") || StartsWith(path, "../");
      && (Anchor(asset, location) == None <==> StartsWith(asset, "`") || (marked && location == ""))
      && (!StartsWith(asset, "`") && !marked ==> Anchor(asset, location) == Some(Normalize(path)))
  {
    hide Normalize, Slashes, Joined;
    FindTextIs(asset, FORMAT_ARGS);
  }

  /** Every backslash is written as a slash, and nothing else changes. */
  lemma {:induction false} SlashesAre(s: string, i: nat)
    requires i < |s|
    ensures |Slashes(s)| == |s| && Slashes(s)[i] == if s[i] == '\\' then '/' else s[i]
  {
  }

  lemma {:induction false} DirectoryLast(s: string)
    requires Directory(s).Some?
    ensures var d := Directory(s).value; |d| < |s| && s[..|d|] == d && s[|d|] == '/' && '/' !in s[|d| + 1..]
  {
    if s[|s| - 1] == '/' {
      assert s[|s|..] == [];
    } else {
      DirectoryLast(s[..|s| - 1]);
      var d := Directory(s).value;
      assert s[|d| + 1..] == s[..|s| - 1][|d| + 1..] + [s[|s| - 1]];
      assert s[..|d|] == s[..|s| - 1][..|d|];
    }
  }

  /** The directory of a URI is a URI, on no drive if the URI is on none. */
  lemma {:induction false} DirectoryOfUri(scheme: string, rest: string)
    requires var location := scheme + ":" + rest; SchemeCharacters(scheme) && !OnDrive(location) && '/' in location
    ensures var d := Directory(scheme + ":" + rest);
      && d.Some? && |d.value| > |scheme| && d.value == scheme + ":" + d.value[|scheme| + 1..]
      && forall path :: !OnDrive(d.value + "/" + path)
  {
    hide Directory;
    var location := scheme + ":" + rest;
    var d := Directory(location).value;
    DirectoryLast(location);
    NotColon(scheme);
    NoSlash(scheme);
    assert location[|scheme|] == ':' && forall k :: 0 <= k < |scheme| ==> location[k] == scheme[k] && scheme[k] in scheme;
    assert d[..|scheme|] == location[..|scheme|] == scheme && d[|scheme|] == location[|scheme|] == ':';
    assert d == d[..|scheme|] + ":" + d[|scheme| + 1..];
    forall path ensures !OnDrive(d + "/" + path) {
      var joined := d + "/" + path;
      assert |d| >= 3 ==> joined[..3] == d[..3] == location[..3];
      assert |d| == 2 ==> location[..3] == d + "/" == joined[..3];
      DriveStarts(joined, location);
    }
  }

  lemma {:induction false} DriveStarts(a: string, b: string)
    requires |a| >= 3 && |b| >= 3 && a[..3] == b[..3]
    ensures OnDrive(a) <==> OnDrive(b)
  {
    assert a[1..3] == a[..3][1..] && b[1..3] == b[..3][1..];
    assert a[0] == a[..3][0] && b[0] == b[..3][0];
  }

  lemma {:induction false} NoSlash(scheme: string)
    requires SchemeCharacters(scheme)
    ensures '/' !in scheme
  {
  }

  /** Anchored to a layer at a URI, a path is joined to the directory of the URI and
      kept so, as URIs are; to one without a directory it is a path from the
      root. */
  lemma {:induction false} AnchorUri(asset: string, location: string, scheme: string, rest: string)
    requires Plain(asset) && '[' !in location && Slashes(location) == scheme + ":" + rest
    requires SchemeCharacters(scheme) && !OnDrive(Slashes(location))
    ensures var (path, at) := (Slashes(asset), Slashes(location));
      && ('/' in at ==> Directory(at).Some? && Anchor(asset, location) == Some(Directory(at).value + "/" + path))
      && ('/' !in at ==> Anchor(asset, location) == Some("/" + Join(From([], path))))
  {
    hide Directory, HasScheme, Segments, Join, Split, From, IsRelative;
    var (path, at) := (Slashes(asset), Slashes(location));
    SchemeFirst(scheme, rest);
    JoinedPlain(path, at);
    if '/' in at {
      DirectoryOfUri(scheme, rest);
      var d := Directory(at).value;
      UriRest(d, scheme, path);
      SchemeFirst(scheme, d[|scheme| + 1..]);
      SchemeFirst(scheme, d[|scheme| + 1..] + "/" + path);
      DriveIs(d + "/" + path);
    } else {
      FromRoot(path);
      NormalAbsolute("/" + path);
    }
  }

  lemma {:induction false} UriRest(d: string, scheme: string, path: string)
    requires |d| > |scheme| && d == scheme + ":" + d[|scheme| + 1..]
    ensures d + "/" + path == scheme + ":" + (d[|scheme| + 1..] + "/" + path)
  {
  }

  lemma {:induction false} FromRoot(path: string)
    ensures From([], "/" + path) == From([], path)
  {
    SplitFirst("", path);
    assert "" + "/" + path == "/" + path;
    assert ([""] + Split(path))[1..] == Split(path);
  }

  /** What is relative: some text that does not begin at the root and has no colon
      at the end of a scheme. */
  lemma {:induction false} RelativeIs(path: string)
    ensures IsRelative(path) <==>
      path != "" && path[0] != '/' && forall i :: 0 <= i < |path| && path[i] == ':' ==> !SchemeCharacters(path[..i])
  {
    hide SchemeCharacters;
    var n := Find(path, ':');
    if n < |path| { SchemeIs(path[..n]); }
    forall i | 0 <= i < |path| && path[i] == ':' && SchemeCharacters(path[..i]) ensures i == n {
      NotColon(path[..i]);
      FindFirst(path[..i], ':', path[i + 1..]);
      assert path[..i] + [':'] + path[i + 1..] == path;
    }
  }

  lemma {:induction false} SchemeIs(scheme: string)
    ensures SchemeCharacters(scheme) <==> scheme != "" && forall c :: c in scheme ==> IsSchemeChar(c)
  {
  }

  /** An expression is its own normal form, brackets and all. */
  lemma {:induction false} ExpressionKept(path: string)
    requires StartsWith(path, "`")
    ensures !InPackage(path) && Normalize(path) == path
  {
    assert path[0] == '`';
  }

  // ------------------------------------------------------------ the algorithm

  method NormalizeAssetPath(path: string) returns (r: string)
    requires !InPackage(path)
    ensures r == Normalize(path)
    decreases |path|
  {
    if HasDrive(path) {
      var rest := NormalizeAssetPath(path[2..]);
      return path[..2] + rest;
    }
    var absolute := StartsWith(path, "/");
    if !absolute && (!IsRelative(path) || IsExpression(path)) {
      return path;
    }
    var fileRelative := IsFileRelative(path);
    var parts := Split(path);
    var segments: seq<string> := [];
    for i := 0 to |parts|
      invariant KeepAll(segments, parts[i..], absolute) == KeepAll([], parts, absolute)
    {
      assert parts[i..][1..] == parts[i + 1..];
      var segment := parts[i];
      if segment == "" || segment == "." {
      } else if segment == ".." && segments != [] && segments[|segments| - 1] != ".." {
        segments := segments[..|segments| - 1];
      } else if segment == ".." && absolute {
      } else {
        segments := segments + [segment];
      }
    }
    var joined := Join(segments);
    if absolute {
      r := "/" + joined;
    } else if fileRelative && (segments == [] || segments[0] != "..") {
      r := "./" + joined;
    } else {
      r := joined;
    }
  }
}
