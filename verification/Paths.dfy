/** Lexical path handling on POSIX paths, against a walk through the directory tree in which `..` at
    the top stays at the top. Paths are component lists, as `Path::components` yields them. */
module Paths {
  import opened Wrappers
  import opened Strings

  datatype Component = Root | Cur | Parent | Normal(name: string)
  type Path = seq<Component>

  predicate IsName(s: string) { s != "" && s != "." && s != ".." && '/' !in s }

  /** What `Path::components` can yield: the root and `.` only in front. */
  predicate WellFormed(p: Path) {
    forall i | 0 <= i < |p| ::
      match p[i]
      case Root => i == 0
      case Cur => i == 0
      case Parent => true
      case Normal(name) => IsName(name)
  }

  predicate IsAbsolute(p: Path) { p != [] && p[0] == Root }

  // ---------------------------------------------------------------- what a path means

  function Step(place: seq<string>, c: Component): seq<string> {
    match c
    case Root => []
    case Cur => place
    case Parent => if place == [] then [] else place[..|place| - 1]
    case Normal(name) => place + [name]
  }

  /** Where following `p` from directory `start` leads, in a tree without symlinks. */
  function Walk(start: seq<string>, p: Path): seq<string> {
    if p == [] then start else Step(Walk(start, p[..|p| - 1]), p[|p| - 1])
  }

  /** How often `..` was asked for at the top, since the last restart from the root. */
  function Overshoot(start: seq<string>, p: Path): nat {
    if p == [] then 0
    else
      var init, c := p[..|p| - 1], p[|p| - 1];
      if c.Root? then 0
      else Overshoot(start, init) + if c.Parent? && Walk(start, init) == [] then 1 else 0
  }

  lemma {:induction false} WalkAppend(start: seq<string>, p: Path, q: Path)
    ensures Walk(start, p + q) == Walk(Walk(start, p), q)
  {
    if q == [] {
      assert p + q == p;
    } else {
      assert (p + q)[..|p + q| - 1] == p + q[..|q| - 1];
      WalkAppend(start, p, q[..|q| - 1]);
    }
  }

  // ---------------------------------------------------------------- lexical_normalize

  function NormalizeStep(done: Path, c: Component): Path {
    match c
    case Cur => done
    case Parent =>
      if done != [] && !done[|done| - 1].Parent? && !done[|done| - 1].Root? then done[..|done| - 1] else done + [c]
    case _ => done + [c]
  }

  function Normalize(p: Path): Path {
    if p == [] then [] else NormalizeStep(Normalize(p[..|p| - 1]), p[|p| - 1])
  }

  method LexicalNormalize(path: Path) returns (components: Path)
    ensures components == Normalize(path)
  {
    components := [];
    for i := 0 to |path|
      invariant components == Normalize(path[..i])
    {
      assert path[..i + 1][..i] == path[..i];
      match path[i] {
        case Cur =>
        case Parent =>
          if components != [] && !components[|components| - 1].Parent? && !components[|components| - 1].Root? {
            components := components[..|components| - 1];
          } else {
            components := components + [path[i]];
          }
        case _ => components := components + [path[i]];
      }
    }
    assert path[..|path|] == path;
  }

  /** The path that climbs `climbs` times and then goes down `names`. */
  function Canonical(absolute: bool, climbs: nat, names: seq<string>): Path {
    (if absolute then [Root] else []) + seq(climbs, _ => Parent)
      + seq(|names|, i requires 0 <= i < |names| => Normal(names[i]))
  }

  lemma CanonicalStep(absolute: bool, climbs: nat, names: seq<string>, c: Component)
    requires !c.Root?
    ensures NormalizeStep(Canonical(absolute, climbs, names), c)
         == Canonical(absolute, climbs + (if c.Parent? && names == [] then 1 else 0), Step(names, c))
  {
    var p := Canonical(absolute, climbs, names);
    if c.Parent? && names == [] {
      assert p + [Parent] == Canonical(absolute, climbs + 1, []);
    } else if c.Parent? {
      assert p[|p| - 1] == Normal(names[|names| - 1]);
      assert p[..|p| - 1] == Canonical(absolute, climbs, names[..|names| - 1]);
    } else if c.Normal? {
      assert p + [c] == Canonical(absolute, climbs, names + [c.name]);
    }
  }

  /** The normalised path is what the walk from the top finds: as many `..` as overshoot, then the place reached. */
  lemma {:induction false} NormalizeIsCanonical(p: Path)
    requires WellFormed(p)
    ensures Normalize(p) == Canonical(IsAbsolute(p), Overshoot([], p), Walk([], p))
  {
    if p != [] {
      var init, c := p[..|p| - 1], p[|p| - 1];
      NormalizeIsCanonical(init);
      if c.Root? {
        assert p == [Root];
        assert Normalize(init) == [];
      } else {
        assert |p| == 1 || p[0] == init[0];
        CanonicalStep(IsAbsolute(init), Overshoot([], init), Walk([], init), c);
      }
    }
  }

  lemma {:induction false} NormalizedHasNoCur(p: Path)
    ensures Cur !in Normalize(p)
  {
    if p != [] { NormalizedHasNoCur(p[..|p| - 1]); }
  }

  /** Normalising never changes where a path leads, from any directory, nor how often it overshoots. */
  lemma {:induction false} NormalizeKeepsMeaning(start: seq<string>, p: Path)
    ensures Walk(start, Normalize(p)) == Walk(start, p)
    ensures WellFormed(p) ==> Overshoot(start, Normalize(p)) == Overshoot(start, p)
  {
    if p != [] {
      var init, c := p[..|p| - 1], p[|p| - 1];
      var done := Normalize(init);
      NormalizeKeepsMeaning(start, init);
      NormalizedHasNoCur(init);
      if !c.Cur? {
        if Normalize(p) == done + [c] {
          assert (done + [c])[..|done|] == done;
        } else {
          assert done[|done| - 1].Normal?;
        }
      }
    }
  }

  /** A path in normal form: the root if any, then `..`s, then names. */
  predicate IsNormal(p: Path) {
    && (forall i | 0 < i < |p| && p[i].Parent? :: !p[i - 1].Normal?)
    && (forall i | 0 <= i < |p| :: !p[i].Cur? && (p[i].Root? ==> i == 0))
  }

  lemma {:induction false} NormalIsFixed(p: Path)
    requires IsNormal(p)
    ensures Normalize(p) == p
  {
    if p != [] {
      NormalIsFixed(p[..|p| - 1]);
      assert p == p[..|p| - 1] + [p[|p| - 1]];
    }
  }

  lemma {:induction false} WalkKeepsNames(p: Path)
    requires WellFormed(p)
    ensures forall name | name in Walk([], p) :: IsName(name)
  {
    if p != [] { WalkKeepsNames(p[..|p| - 1]); }
  }

  /** What stands where in a canonical path. */
  lemma CanonicalLayout(a: bool, k: nat, ns: seq<string>)
    ensures var p, front := Canonical(a, k, ns), if a then 1 else 0;
      && |p| == front + k + |ns|
      && (a ==> p[0] == Root)
      && (forall i | front <= i < front + k :: p[i] == Parent)
      && (forall i | front + k <= i < |p| :: p[i] == Normal(ns[i - front - k]))
  {
  }

  lemma CanonicalPrefix(a: bool, j: nat, ms: seq<string>, b: bool, k: nat, ns: seq<string>)
    ensures Canonical(a, j, ms) <= Canonical(b, k, ns) <==>
      || (!a && j == 0 && ms == [])
      || (a == b && if ms == [] then j <= k else j == k && ms <= ns)
  {
    CanonicalLayout(a, j, ms);
    CanonicalLayout(b, k, ns);
    hide Canonical;
    var p, q := Canonical(a, j, ms), Canonical(b, k, ns);
    if p <= q && p != [] {
      assert a == b by { assert p[0] == q[0]; }
      var front := if a then 1 else 0;
      var x := if j > k then front + k else 0;
      assert p[x] == q[x];
      if ms != [] {
        assert p[front + j] == q[front + j];
        forall i | 0 <= i < |ms| ensures i < |ns| && ms[i] == ns[i] {
          assert p[front + j + i] == q[front + j + i];
        }
      }
    }
  }

  lemma CanonicalInjective(a: bool, j: nat, ms: seq<string>, b: bool, k: nat, ns: seq<string>)
    ensures Canonical(a, j, ms) == Canonical(b, k, ns) <==> a == b && j == k && ms == ns
  {
    hide Canonical;
    CanonicalPrefix(a, j, ms, b, k, ns);
    CanonicalPrefix(b, k, ns, a, j, ms);
  }

  lemma CanonicalIsNormal(absolute: bool, climbs: nat, names: seq<string>)
    requires forall name | name in names :: IsName(name)
    ensures var p := Canonical(absolute, climbs, names); IsNormal(p) && WellFormed(p) && IsAbsolute(p) == absolute
  {
    CanonicalLayout(absolute, climbs, names);
    hide Canonical;
    var p := Canonical(absolute, climbs, names);
    var front := if absolute then 1 else 0;
    forall i | front + climbs <= i < |p| ensures p[i].Normal? && IsName(p[i].name) {
      assert names[i - front - climbs] in names;
    }
  }

  /** Exactly the paths in normal form are left alone, and every result is in normal form. */
  lemma NormalizedExactly(p: Path)
    requires WellFormed(p)
    ensures IsNormal(Normalize(p)) && WellFormed(Normalize(p)) && IsAbsolute(Normalize(p)) == IsAbsolute(p)
    ensures Normalize(Normalize(p)) == Normalize(p)
    ensures Normalize(p) == p <==> IsNormal(p)
  {
    hide Walk, Overshoot, Normalize, Canonical, IsNormal, WellFormed;
    NormalizeIsCanonical(p);
    WalkKeepsNames(p);
    CanonicalIsNormal(IsAbsolute(p), Overshoot([], p), Walk([], p));
    NormalIsFixed(Normalize(p));
    if IsNormal(p) { NormalIsFixed(p); }
  }

  /** Two paths get the same normal form exactly when they mean the same. */
  lemma NormalizeFullyAbstract(p: Path, q: Path)
    requires WellFormed(p) && WellFormed(q)
    ensures Normalize(p) == Normalize(q) <==>
      && IsAbsolute(p) == IsAbsolute(q)
      && forall start :: Walk(start, p) == Walk(start, q) && Overshoot(start, p) == Overshoot(start, q)
  {
    hide Walk, Overshoot, Canonical, Normalize;
    NormalizeIsCanonical(p);
    NormalizeIsCanonical(q);
    CanonicalInjective(IsAbsolute(p), Overshoot([], p), Walk([], p), IsAbsolute(q), Overshoot([], q), Walk([], q));
    forall start
      ensures Normalize(p) == Normalize(q) ==>
                Walk(start, p) == Walk(start, q) && Overshoot(start, p) == Overshoot(start, q)
    {
      NormalizeKeepsMeaning(start, p);
      NormalizeKeepsMeaning(start, q);
    }
  }

  /** From `start`, a relative path first climbs, then goes down what it goes down from the top. */
  lemma {:induction false} WalkFrom(start: seq<string>, p: Path)
    requires forall i | 0 <= i < |p| :: !p[i].Root?
    ensures Walk(start, p)
            == start[..if |start| < Overshoot([], p) then 0 else |start| - Overshoot([], p)] + Walk([], p)
  {
    if p != [] {
      var init, c := p[..|p| - 1], p[|p| - 1];
      WalkFrom(start, init);
      OvershootStep([], p);
      assert Walk(start, p) == Step(Walk(start, init), c) && Walk([], p) == Step(Walk([], init), c);
      hide Overshoot, Walk;
    }
  }

  lemma OvershootStep(start: seq<string>, p: Path)
    requires p != [] && !p[|p| - 1].Root?
    ensures Overshoot(start, p) ==
            Overshoot(start, p[..|p| - 1]) + if p[|p| - 1].Parent? && Walk(start, p[..|p| - 1]) == [] then 1 else 0
  {
  }

  /** From every directory both paths lead to the same place. */
  ghost predicate SamePlaces(p: Path, q: Path) {
    forall start :: Walk(start, p) == Walk(start, q)
  }

  /** For relative paths the places they lead to say it all. */
  lemma RelativePathsByWalk(p: Path, q: Path)
    requires WellFormed(p) && WellFormed(q) && !IsAbsolute(p) && !IsAbsolute(q)
    ensures Normalize(p) == Normalize(q) <==> SamePlaces(p, q)
  {
    hide Walk, Overshoot, Canonical, Normalize;
    NormalizeIsCanonical(p);
    NormalizeIsCanonical(q);
    forall start ensures Normalize(p) == Normalize(q) ==> Walk(start, p) == Walk(start, q) {
      NormalizeKeepsMeaning(start, p);
      NormalizeKeepsMeaning(start, q);
    }
    if SamePlaces(p, q) {
      var j, k := Overshoot([], p), Overshoot([], q);
      assert Walk([], p) == Walk([], q);
      var start := seq(j + k, _ => "d");
      WalkFrom(start, p);
      WalkFrom(start, q);
      assert |Walk(start, p)| == k + |Walk([], p)| && |Walk(start, q)| == j + |Walk([], q)|;
    }
  }

  /** For absolute paths they do not: `/..` and `/` lead to the same place, yet stay different. */
  lemma AbsolutePathsNotByWalk()
    ensures var p, q := [Root, Parent], [Root];
      WellFormed(p) && WellFormed(q) && Normalize(p) != Normalize(q) && SamePlaces(p, q)
  {
    var p, q := [Root, Parent], [Root];
    assert p[..1] == q && q[..0] == [];
    assert Normalize(q) == [Root] && Normalize(p) == [Root, Parent];
    forall start ensures Walk(start, p) == Walk(start, q) {
      assert Walk(start, q) == [];
    }
  }

  // ---------------------------------------------------------------- is_within_root

  predicate IsWithinRoot(path: Path, root: Path) { Normalize(root) <= Normalize(path) }

  /** The containment check, exactly: the walk of the root is a prefix of the walk of the path and both
      overshoot equally; a root that leads to the top admits more overshoot; a root that normalises to
      nothing (such as `.`) admits every path. */
  lemma WithinRootExactly(path: Path, root: Path)
    requires WellFormed(path) && WellFormed(root)
    ensures IsWithinRoot(path, root) <==>
      || (!IsAbsolute(root) && Overshoot([], root) == 0 && Walk([], root) == [])
      || (IsAbsolute(path) == IsAbsolute(root) &&
          if Walk([], root) == [] then Overshoot([], root) <= Overshoot([], path)
          else Overshoot([], root) == Overshoot([], path) && Walk([], root) <= Walk([], path))
  {
    hide Walk, Overshoot, Canonical, Normalize;
    NormalizeIsCanonical(path);
    NormalizeIsCanonical(root);
    CanonicalPrefix(IsAbsolute(root), Overshoot([], root), Walk([], root), IsAbsolute(path), Overshoot([], path),
      Walk([], path));
  }

  /** So an absolute path accepted under an absolute root leads below it. */
  lemma WithinAbsoluteRoot(path: Path, root: Path)
    requires WellFormed(path) && WellFormed(root) && IsAbsolute(root) && IsWithinRoot(path, root)
    ensures forall start :: Walk(start, root) <= Walk(start, path)
  {
    WithinRootExactly(path, root);
    forall start ensures Walk(start, root) <= Walk(start, path) {
      AbsoluteWalk(start, path);
      AbsoluteWalk(start, root);
    }
  }

  lemma {:induction false} AbsoluteWalk(start: seq<string>, p: Path)
    requires IsAbsolute(p)
    ensures Walk(start, p) == Walk([], p)
  {
    if |p| > 1 { AbsoluteWalk(start, p[..|p| - 1]); }
  }

  // ---------------------------------------------------------------- manifest paths

  function Segment(c: Component): string {
    match c
    case Root => "/"
    case Cur => "."
    case Parent => ".."
    case Normal(name) => name
  }

  function Segments(p: Path): seq<string> { seq(|p|, i requires 0 <= i < |p| => Segment(p[i])) }

  function ToPosixPath(p: Path): string { Join(Segments(p), '/') }

  /** `PathBuf::push` of a single segment. */
  function Push(p: Path, segment: string): Path
  {
    if segment == "." then (if p == [] then [Cur] else p)
    else if segment == ".." then p + [Parent]
    else p + [Normal(segment)]
  }

  function PushAll(p: Path, segments: seq<string>): Path {
    if segments == [] then p
    else
      var rest, last := PushAll(p, segments[..|segments| - 1]), segments[|segments| - 1];
      if last == "" then rest else Push(rest, last)
  }

  method FromPosixPath(manifestPath: string, destinationRoot: Path) returns (result: Path)
    ensures result == PushAll(destinationRoot, Split(manifestPath, '/'))
  {
    var components := Split(manifestPath, '/');
    result := destinationRoot;
    for i := 0 to |components|
      invariant result == PushAll(destinationRoot, components[..i])
    {
      assert components[..i + 1][..i] == components[..i];
      if components[i] != "" { result := Push(result, components[i]); }
    }
    assert components[..|components|] == components;
  }

  /** A path below a directory that has been walked to: no root, no `.`. */
  predicate IsBelow(p: Path) { WellFormed(p) && Root !in p && Cur !in p }

  lemma {:induction false} PushAllSegments(dest: Path, p: Path)
    requires IsBelow(p)
    ensures PushAll(dest, Segments(p)) == dest + p
  {
    if p == [] {
      assert dest + p == dest;
    } else {
      var n := |p| - 1;
      PushAllSegments(dest, p[..n]);
      assert Segments(p)[..n] == Segments(p[..n]);
      assert p[n] in p;
      assert dest + p == (dest + p[..n]) + [p[n]];
    }
  }

  /** Writing a path below the root as a string and putting it under any destination gives that path there. */
  lemma PosixRoundTrip(dest: Path, p: Path)
    requires IsBelow(p)
    ensures PushAll(dest, Split(ToPosixPath(p), '/')) == dest + p
  {
    if p == [] {
      assert Find("", '/') == 0;
      assert Split("", '/') == [""];
      assert [""][..0] == [];
      assert PushAll(dest, [""]) == PushAll(dest, []);
      assert dest + p == dest;
    } else {
      forall s | s in Segments(p) ensures '/' !in s {
        var i :| 0 <= i < |p| && s == Segment(p[i]);
        assert p[i] in p;
      }
      SplitJoin(Segments(p), '/');
      PushAllSegments(dest, p);
    }
  }

  // ---------------------------------------------------------------- strings as paths

  /** The components of `/`-separated parts: empty parts and `.` vanish. */
  function Components(parts: seq<string>): Path {
    if parts == [] then []
    else
      var rest, last := Components(parts[..|parts| - 1]), parts[|parts| - 1];
      if last == "" || last == "." then rest
      else if last == ".." then rest + [Parent]
      else rest + [Normal(last)]
  }

  /** `Path::components` of a string: a leading `/` is the root, a leading `.` of a relative path is kept. */
  function Parse(s: string): Path {
    var parts := Split(s, '/');
    (if parts[0] == "" && |parts| > 1 then [Root] else if parts[0] == "." then [Cur] else []) + Components(parts)
  }

  lemma {:induction false} ComponentsWellFormed(parts: seq<string>)
    requires forall s | s in parts :: '/' !in s
    ensures IsBelow(Components(parts))
  {
    if parts != [] {
      ComponentsWellFormed(parts[..|parts| - 1]);
      assert parts[|parts| - 1] in parts;
    }
  }

  lemma ParseWellFormed(s: string)
    ensures WellFormed(Parse(s))
  {
    ComponentsWellFormed(Split(s, '/'));
  }

  lemma {:induction false} ComponentsAppend(a: seq<string>, b: seq<string>)
    ensures Components(a + b) == Components(a) + Components(b)
  {
    if b == [] {
      assert a + b == a;
    } else {
      assert (a + b)[..|a + b| - 1] == a + b[..|b| - 1];
      ComponentsAppend(a, b[..|b| - 1]);
    }
  }

  lemma {:induction false} ComponentsOfSegments(p: Path)
    requires IsBelow(p)
    ensures Components(Segments(p)) == p
  {
    if p != [] {
      var n := |p| - 1;
      var init := p[..n];
      assert Segments(p) == Segments(init) + [Segment(p[n])];
      hide Components, Segments, Segment;
      assert p[n] in p;
      ComponentsOfSegments(init);
      ComponentsAppend(Segments(init), [Segment(p[n])]);
      ComponentOfSegment(p[n]);
      assert p == init + [p[n]];
    }
  }

  lemma ComponentOfSegment(c: Component)
    requires c.Parent? || (c.Normal? && IsName(c.name))
    ensures Components([Segment(c)]) == [c]
  {
    assert [Segment(c)][..0] == [];
  }

  /** Pushing the parts of any manifest path onto a destination appends its components to it: nothing, not even
      a leading `/`, replaces the destination. */
  lemma {:induction false} PushAllAppends(dest: Path, parts: seq<string>)
    requires dest != []
    ensures PushAll(dest, parts) == dest + Components(parts)
  {
    if parts == [] {
      assert dest + [] == dest;
    } else {
      PushAllAppends(dest, parts[..|parts| - 1]);
    }
  }

  lemma ParseParts(parts: seq<string>)
    requires |parts| >= 1 && forall s | s in parts :: '/' !in s
    ensures Parse(Join(parts, '/'))
         == (if parts[0] == "" && |parts| > 1 then [Root] else if parts[0] == "." then [Cur] else [])
           + Components(parts)
  {
    SplitJoin(parts, '/');
  }

  lemma ComponentsOfBlanks()
    ensures Components([""]) == [] && Components(["", ""]) == [] && Components(["."]) == []
  {
    assert ["", ""][..1] == [""] && [""][..0] == [] && ["."][..0] == [];
  }

  lemma ParseAbsolute(p: Path)
    requires WellFormed(p) && IsAbsolute(p)
    ensures Parse(ToPosixPath(p)) == p
  {
    hide Parse, Split, Join, Components, Segments, ToPosixPath;
    var below := p[1..];
    assert IsBelow(below);
    JoinRoot(p);
    ComponentsOfBlanks();
    ComponentsAppend(["", ""], Segments(below));
    ComponentsOfSegments(below);
    assert p == [Root] + below;
    SegmentsHaveNoSlash(below);
    ParseParts(if below == [] then ["", ""] else ["", ""] + Segments(below));
  }

  lemma ParseRelative(p: Path)
    requires WellFormed(p) && !IsAbsolute(p) && p != []
    ensures Parse(ToPosixPath(p)) == p
  {
    hide Parse, Split, Join, Components;
    var lead := if p[0] == Cur then 1 else 0;
    var front, below := p[..lead], p[lead..];
    assert p == front + below && IsBelow(below);
    assert Segments(p) == Segments(front) + Segments(below);
    assert Segments(front) == if lead == 1 then ["."] else [];
    assert Segments(p)[0] == Segment(p[0]);
    hide Segments;
    ComponentsAppend(Segments(front), Segments(below));
    ComponentsOfBlanks();
    ComponentsOfNothing();
    ComponentsOfSegments(below);
    SegmentsHaveNoSlash(p);
    ParseParts(Segments(p));
  }

  lemma ComponentsOfNothing()
    ensures Components([]) == []
  {
  }

  /** A path written as a POSIX string reads back as the same path. */
  lemma ParsePosixPath(p: Path)
    requires WellFormed(p)
    ensures Parse(ToPosixPath(p)) == p
  {
    if p == [] {
      hide Parse, Split, Components;
      ComponentsOfBlanks();
      ParseParts([""]);
      JoinFew("");
    } else if p[0] == Root {
      ParseAbsolute(p);
    } else {
      ParseRelative(p);
    }
  }

  lemma SegmentsHaveNoSlash(p: Path)
    requires WellFormed(p) && !IsAbsolute(p)
    ensures forall s | s in Segments(p) :: '/' !in s
  {
    forall s | s in Segments(p) ensures '/' !in s {
      var i :| 0 <= i < |p| && s == Segment(p[i]);
    }
  }

  lemma JoinFew(s: string)
    ensures Join([], '/') == "" && Join([s], '/') == s && Join(["", s], '/') == "/" + s
  {
    assert ["", s][1..] == [s];
  }

  /** The root component is itself written `/`, so an absolute path starts with two. */
  lemma JoinRoot(p: Path)
    requires WellFormed(p) && IsAbsolute(p)
    ensures ToPosixPath(p) == Join(if |p| == 1 then ["", ""] else ["", ""] + Segments(p[1..]), '/')
  {
    var below := Segments(p[1..]);
    assert Segments(p) == ["/"] + below;
    if |p| == 1 {
      JoinFew("");
      assert Segments(p) == ["/"];
    } else {
      assert Segments(p)[1..] == below;
      var parts := ["", ""] + below;
      assert parts[1..] == [""] + below && ([""] + below)[1..] == below;
      assert Join(parts, '/') == "/" + ("/" + Join(below, '/'));
    }
  }

  datatype PathError = IoError | PathOutsideRoot(path: Path, root: Path)

  /** `to_absolute`; the current directory may be unavailable. */
  function ToAbsolute(p: Path, cwd: Option<Path>): Result<Path, PathError> {
    if IsAbsolute(p) then Ok(p)
    else if cwd.None? then Err(IoError)
    else Ok(cwd.value + if p != [] && p[0] == Cur then p[1..] else p)
  }

  /** Made absolute, a path leads where it leads from the current directory, and an absolute path is left alone; only a
      relative path needs the current directory. */
  lemma ToAbsoluteLeads(p: Path, cwd: Option<Path>)
    requires WellFormed(p) && (cwd.Some? ==> IsAbsolute(cwd.value))
    ensures ToAbsolute(p, cwd).Ok? <==> IsAbsolute(p) || cwd.Some?
    ensures IsAbsolute(p) ==> ToAbsolute(p, cwd) == Ok(p)
    ensures !IsAbsolute(p) && cwd.Some? ==>
              var q := ToAbsolute(p, cwd).value;
              IsAbsolute(q) && cwd.value <= q && forall start :: Walk(start, q) == Walk(Walk(start, cwd.value), p)
  {
    if !IsAbsolute(p) && cwd.Some? {
      var q := ToAbsolute(p, cwd).value;
      forall start ensures Walk(start, q) == Walk(Walk(start, cwd.value), p) {
        if p != [] && p[0] == Cur {
          WalkAppend(start, cwd.value, p[1..]);
          WalkAppend(Walk(start, cwd.value), [Cur], p[1..]);
          assert p == [Cur] + p[1..] && [Cur][..0] == [];
          assert Walk(Walk(start, cwd.value), [Cur]) == Walk(start, cwd.value);
        } else {
          WalkAppend(start, cwd.value, p);
        }
      }
    }
  }

  function NormalizeForManifest(path: Path, root: Path, cwd: Option<Path>): Result<string, PathError> {
    var absPath := ToAbsolute(path, cwd);
    if absPath.Err? then Err(absPath.error)
    else
      var absRoot := ToAbsolute(root, cwd);
      if absRoot.Err? then Err(absRoot.error)
      else
        var normalized, normalizedRoot := Normalize(absPath.value), Normalize(absRoot.value);
        if normalizedRoot <= normalized then Ok(ToPosixPath(normalized[|normalizedRoot|..]))
        else Err(PathOutsideRoot(normalized, normalizedRoot))
  }

  predicate IsDirectory(cwd: Option<Path>) { cwd.Some? ==> WellFormed(cwd.value) && IsAbsolute(cwd.value) }

  lemma AbsoluteIsWellFormed(p: Path, cwd: Option<Path>)
    requires WellFormed(p) && IsDirectory(cwd) && ToAbsolute(p, cwd).Ok?
    ensures WellFormed(ToAbsolute(p, cwd).value) && IsAbsolute(ToAbsolute(p, cwd).value)
  {
  }

  /** A manifest path is produced exactly for the paths inside the root; putting it back under the root
      gives the normalised path, so it loses nothing. */
  lemma ManifestPathRoundTrip(path: Path, root: Path, cwd: Option<Path>)
    requires WellFormed(path) && WellFormed(root) && IsDirectory(cwd)
    requires ToAbsolute(path, cwd).Ok? && ToAbsolute(root, cwd).Ok?
    ensures var p, r := ToAbsolute(path, cwd).value, ToAbsolute(root, cwd).value;
      var m := NormalizeForManifest(path, root, cwd);
      && (m.Ok? <==> IsWithinRoot(p, r))
      && (m.Ok? ==> PushAll(Normalize(r), Split(m.value, '/')) == Normalize(p))
  {
    hide Normalize, Walk, ToPosixPath, PushAll, Split;
    var p, r := ToAbsolute(path, cwd).value, ToAbsolute(root, cwd).value;
    AbsoluteIsWellFormed(path, cwd);
    AbsoluteIsWellFormed(root, cwd);
    NormalizedExactly(p);
    NormalizedExactly(r);
    if IsWithinRoot(p, r) {
      var below := Normalize(p)[|Normalize(r)|..];
      assert Normalize(r) + below == Normalize(p);
      PosixRoundTrip(Normalize(r), below);
    }
  }

  /** Two paths inside a root share a manifest path exactly when they mean the same. */
  lemma ManifestPathInjective(a: Path, b: Path, root: Path, cwd: Option<Path>)
    requires WellFormed(a) && WellFormed(b) && WellFormed(root) && IsDirectory(cwd)
    requires NormalizeForManifest(a, root, cwd).Ok? && NormalizeForManifest(b, root, cwd).Ok?
    ensures NormalizeForManifest(a, root, cwd) == NormalizeForManifest(b, root, cwd) <==>
            var p, q := ToAbsolute(a, cwd).value, ToAbsolute(b, cwd).value;
            Walk([], p) == Walk([], q) && Overshoot([], p) == Overshoot([], q)
  {
    hide Normalize, Walk, Overshoot, ToPosixPath, PushAll, Split, Canonical;
    var p, q := ToAbsolute(a, cwd).value, ToAbsolute(b, cwd).value;
    AbsoluteIsWellFormed(a, cwd);
    AbsoluteIsWellFormed(b, cwd);
    ManifestPathRoundTrip(a, root, cwd);
    ManifestPathRoundTrip(b, root, cwd);
    NormalizeIsCanonical(p);
    NormalizeIsCanonical(q);
    CanonicalInjective(true, Overshoot([], p), Walk([], p), true, Overshoot([], q), Walk([], q));
  }

  /** Without more overshoot than the root's, what is left below the root only goes down. */
  lemma BelowIsDown(p: Path, r: Path)
    requires WellFormed(p) && WellFormed(r) && IsAbsolute(p) && IsAbsolute(r)
    requires IsWithinRoot(p, r) && Overshoot([], p) == Overshoot([], r)
    ensures Walk([], r) <= Walk([], p)
    ensures Normalize(p)[|Normalize(r)|..] == Canonical(false, 0, Walk([], p)[|Walk([], r)|..])
    ensures IsBelow(Normalize(p)[|Normalize(r)|..])
  {
    hide Walk, Overshoot, Normalize;
    WithinRootExactly(p, r);
    NormalizeIsCanonical(p);
    NormalizeIsCanonical(r);
    NormalizedExactly(p);
  }

  /** Under another absolute destination, a manifest path leads to the same place below it, when the path
      overshoots as often as the root did. */
  lemma ManifestPathRelocates(path: Path, root: Path, cwd: Option<Path>, dest: Path)
    requires WellFormed(path) && WellFormed(root) && IsDirectory(cwd)
    requires NormalizeForManifest(path, root, cwd).Ok?
    requires Overshoot([], ToAbsolute(path, cwd).value) == Overshoot([], ToAbsolute(root, cwd).value)
    ensures var p, r := Walk([], ToAbsolute(path, cwd).value), Walk([], ToAbsolute(root, cwd).value);
      && r <= p
      && Walk([], PushAll(dest, Split(NormalizeForManifest(path, root, cwd).value, '/'))) == Walk([], dest) + p[|r|..]
  {
    hide Normalize, Walk, Overshoot, ToPosixPath, PushAll, Split, Canonical;
    var p, r := ToAbsolute(path, cwd).value, ToAbsolute(root, cwd).value;
    AbsoluteIsWellFormed(path, cwd);
    AbsoluteIsWellFormed(root, cwd);
    BelowIsDown(p, r);
    var names := Walk([], p)[|Walk([], r)|..];
    var below := Normalize(p)[|Normalize(r)|..];
    PosixRoundTrip(dest, below);
    WalkAppend([], dest, below);
    WalkDown(Walk([], dest), names);
  }

  /** The manifest path leads to the destination or below it. */
  ghost predicate StaysBelow(manifestPath: string, dest: Path) {
    Walk([], dest) <= Walk([], PushAll(dest, Split(manifestPath, '/')))
  }

  /** Put under any destination, a manifest path stays at or below it exactly when the path overshoots as often as the
      root did; it can overshoot more only if the root leads to the top ("/../x" under "/" is written "../x"). */
  lemma StaysBelowExactly(path: Path, root: Path, cwd: Option<Path>)
    requires WellFormed(path) && WellFormed(root) && IsDirectory(cwd)
    requires NormalizeForManifest(path, root, cwd).Ok?
    ensures var m := NormalizeForManifest(path, root, cwd).value;
      (forall dest: Path :: StaysBelow(m, dest)) <==>
      Overshoot([], ToAbsolute(path, cwd).value) == Overshoot([], ToAbsolute(root, cwd).value)
  {
    hide Normalize, Walk, Overshoot, ToPosixPath, PushAll, Split, Canonical;
    var p, r := ToAbsolute(path, cwd).value, ToAbsolute(root, cwd).value;
    var m := NormalizeForManifest(path, root, cwd).value;
    if Overshoot([], p) == Overshoot([], r) {
      forall dest: Path ensures StaysBelow(m, dest) { ManifestPathRelocates(path, root, cwd, dest); }
    } else {
      AbsoluteIsWellFormed(path, cwd);
      AbsoluteIsWellFormed(root, cwd);
      var names := Walk([], p);
      var climbs := ClimbsBelow(p, r);
      PosixRoundTrip(Elsewhere(names), Canonical(false, climbs, names));
      ClimbedOut(climbs, names);
      assert !StaysBelow(m, Elsewhere(names));
    }
  }

  /** A destination that none of these names leads back to. */
  function Elsewhere(names: seq<string>): Path { [Root, Normal(if names != [] && names[0] == "a" then "b" else "a")] }

  /** With more overshoot than the root's, the manifest path climbs first. */
  lemma ClimbsBelow(p: Path, r: Path) returns (climbs: nat)
    requires WellFormed(p) && WellFormed(r) && IsAbsolute(p) && IsAbsolute(r)
    requires IsWithinRoot(p, r) && Overshoot([], p) != Overshoot([], r)
    ensures climbs > 0 && Normalize(p)[|Normalize(r)|..] == Canonical(false, climbs, Walk([], p))
    ensures IsBelow(Canonical(false, climbs, Walk([], p)))
  {
    hide Walk, Overshoot, Normalize;
    WithinRootExactly(p, r);
    NormalizeIsCanonical(p);
    NormalizeIsCanonical(r);
    NormalizedExactly(p);
    climbs := Overshoot([], p) - Overshoot([], r);
  }

  lemma ClimbedOut(climbs: nat, names: seq<string>)
    requires climbs > 0
    ensures var dest := Elsewhere(names); !(Walk([], dest) <= Walk([], dest + Canonical(false, climbs, names)))
  {
    hide Walk;
    var dest := Elsewhere(names);
    var up, down := seq(climbs, _ => Parent), Canonical(false, 0, names);
    assert Canonical(false, climbs, names) == up + down;
    assert dest + (up + down) == (dest + up) + down;
    WalkAppend([], dest + up, down);
    WalkAppend([], dest, up);
    OneName(dest[1].name);
    ClimbTop(dest[1].name, climbs);
    WalkDown([], names);
    assert Walk([], dest) == [dest[1].name] && Walk([], dest + (up + down)) == [] + names == names;
    assert dest[1].name == if names != [] && names[0] == "a" then "b" else "a";
    assert "a" != "b";
  }

  lemma OneName(name: string)
    ensures Walk([], [Root, Normal(name)]) == [name]
  {
    assert [Root, Normal(name)][..1] == [Root];
  }

  lemma {:induction false} ClimbTop(name: string, climbs: nat)
    requires climbs > 0
    ensures Walk([name], seq(climbs, _ => Parent)) == []
  {
    var up := seq(climbs, _ => Parent);
    assert up[..climbs - 1] == seq(climbs - 1, _ => Parent);
    if climbs > 1 { ClimbTop(name, climbs - 1); }
  }

  lemma {:induction false} WalkDown(start: seq<string>, names: seq<string>)
    ensures Walk(start, Canonical(false, 0, names)) == start + names
  {
    if names == [] {
      assert start + names == start;
    } else {
      var p, n := Canonical(false, 0, names), |names| - 1;
      assert p[..n] == Canonical(false, 0, names[..n]);
      WalkDown(start, names[..n]);
    }
  }
}
