/** Checking that a symlink stays under the asset root, by resolving its target lexically. */
module Symlinks {
  import opened Wrappers
  import opened Strings
  import opened Paths

  // ---------------------------------------------------------------- lexical_resolve

  /** `PathBuf::pop`: the last component goes, unless there is none or it is the root. */
  function Pop(p: Path): Path {
    if p == [] || p[|p| - 1].Root? then p else p[..|p| - 1]
  }

  function ResolveStep(result: Path, c: Component): Path {
    match c
    case Parent => Pop(result)
    case Cur => result
    case Normal(_) => result + [c]
    case Root => [Root]
  }

  function Resolve(base: Path, relative: Path): Path {
    if relative == [] then base
    else ResolveStep(Resolve(base, relative[..|relative| - 1]), relative[|relative| - 1])
  }

  method LexicalResolve(base: Path, relative: Path) returns (result: Path)
    ensures result == Resolve(base, relative)
  {
    result := base;
    for i := 0 to |relative|
      invariant result == Resolve(base, relative[..i])
    {
      assert relative[..i + 1][..i] == relative[..i];
      match relative[i] {
        case Parent => result := Pop(result);
        case Cur =>
        case Normal(_) => result := result + [relative[i]];
        case Root => result := [Root];
      }
    }
    assert relative[..|relative|] == relative;
  }

  /** Where the target really leads from the directory `base`. */
  function Target(base: Path, relative: Path): seq<string> { Walk([], base + relative) }

  /** An absolute path in normal form: the walk goes nowhere while it climbs, then only down. */
  predicate IsNormalAbsolute(p: Path) { WellFormed(p) && IsAbsolute(p) && IsNormal(p) }

  lemma PopIsParent(p: Path)
    requires IsNormalAbsolute(p)
    ensures IsNormalAbsolute(Pop(p)) && Walk([], Pop(p)) == Step(Walk([], p), Parent)
  {
    var last := p[|p| - 1];
    if last.Parent? { OnlyClimbs(p); }
    assert last.Normal? ==> p[|p| - 1] == last;
  }

  /** A normal absolute path that ends in `..` has only climbed. */
  lemma {:induction false} OnlyClimbs(p: Path)
    requires IsNormalAbsolute(p) && p[|p| - 1].Parent?
    ensures Walk([], p) == [] && Walk([], p[..|p| - 1]) == []
  {
    var init := p[..|p| - 1];
    if |init| > 1 {
      assert !p[|p| - 2].Normal?;
      OnlyClimbs(init);
    } else {
      assert init == [Root];
    }
  }

  lemma PushStaysNormal(p: Path, c: Component)
    requires IsNormalAbsolute(p) && c.Normal? && IsName(c.name)
    ensures IsNormalAbsolute(p + [c]) && Walk([], p + [c]) == Step(Walk([], p), c)
  {
    WalkLast(p, c);
  }

  lemma {:induction false} ResolveWalks(base: Path, relative: Path)
    requires IsNormalAbsolute(base) && WellFormed(relative) && !IsAbsolute(relative)
    ensures IsNormalAbsolute(Resolve(base, relative)) && Walk([], Resolve(base, relative)) == Target(base, relative)
  {
    if relative == [] {
      assert base + [] == base;
    } else {
      var init, c := relative[..|relative| - 1], relative[|relative| - 1];
      ResolveWalks(base, init);
      TargetStep(base, relative);
      ResolveLast(base, relative);
      assert !c.Root? && (c.Normal? ==> IsName(c.name));
      hide Walk, Target, Resolve, Pop, IsNormalAbsolute;
      if c.Parent? {
        PopIsParent(Resolve(base, init));
      } else if c.Normal? {
        PushStaysNormal(Resolve(base, init), c);
      }
    }
  }

  lemma ResolveLast(base: Path, relative: Path)
    requires relative != []
    ensures Resolve(base, relative) == ResolveStep(Resolve(base, relative[..|relative| - 1]), relative[|relative| - 1])
  {
  }

  lemma WalkLast(p: Path, c: Component)
    ensures Walk([], p + [c]) == Step(Walk([], p), c)
  {
    assert (p + [c])[..|p|] == p;
  }

  lemma TargetStep(base: Path, relative: Path)
    requires relative != []
    ensures Target(base, relative) == Step(Target(base, relative[..|relative| - 1]), relative[|relative| - 1])
  {
    assert (base + relative)[..|base + relative| - 1] == base + relative[..|relative| - 1];
  }

  function Climb(n: nat): Path { seq(n, _ => Parent) }

  /** Climbing up a path drops its last components, whatever they are. */
  lemma {:induction false} ResolveClimb(base: Path, n: nat)
    requires IsAbsolute(base) && WellFormed(base) && n < |base|
    ensures Resolve(base, Climb(n)) == base[..|base| - n]
  {
    if n == 0 {
      assert Climb(0) == [];
    } else {
      assert Climb(n)[..n - 1] == Climb(n - 1);
      ResolveClimb(base, n - 1);
    }
  }

  /** A walk gains at most one level per component; `n` times up loses `n` levels. */
  lemma {:induction false} WalkGains(start: seq<string>, p: Path)
    ensures |Walk(start, p)| <= |start| + |p|
  {
    if p != [] { WalkGains(start, p[..|p| - 1]); }
  }

  lemma {:induction false} ClimbLoses(start: seq<string>, n: nat)
    ensures |Walk(start, Climb(n))| == if n <= |start| then |start| - n else 0
  {
    if n > 0 {
      assert Climb(n)[..n - 1] == Climb(n - 1);
      ClimbLoses(start, n - 1);
    }
  }

  /** If a name of `base` is followed by `..`, climbing up to that name misses where the target leads. */
  lemma ResolveMisses(base: Path, j: nat)
    requires WellFormed(base) && IsAbsolute(base) && 0 < j < |base| && base[j].Parent? && base[j - 1].Normal?
    ensures var relative := Climb(|base| - j);
      WellFormed(relative) && !IsAbsolute(relative) && |Target(base, relative)| < |Walk([], Resolve(base, relative))|
  {
    hide Walk, Resolve;
    var n := |base| - j;
    ResolveClimb(base, n);
    var up, rest := base[..j], base[j + 1..];
    var above := base[..j - 1];
    assert up == above + [base[j - 1]];
    WalkLast(above, base[j - 1]);
    assert base[..j + 1] == up + [Parent];
    WalkLast(up, Parent);
    assert base + Climb(n) == base[..j + 1] + (rest + Climb(n));
    WalkAppend([], base[..j + 1], rest + Climb(n));
    WalkAppend(Walk([], above), rest, Climb(n));
    WalkGains(Walk([], above), rest);
    ClimbLoses(Walk(Walk([], above), rest), n);
  }

  /** Resolving finds where every relative target leads. */
  ghost predicate ResolvesRight(base: Path) {
    forall relative | WellFormed(relative) && !IsAbsolute(relative) ::
      Walk([], Resolve(base, relative)) == Target(base, relative)
  }

  /** Lexical resolution is right for all relative targets exactly from the directories that are already
      lexically normal; from any other, some target is resolved to a place it does not lead to. */
  lemma ResolveRightExactly(base: Path)
    requires WellFormed(base) && IsAbsolute(base)
    ensures ResolvesRight(base) <==> Normalize(base) == base
  {
    NormalizedExactly(base);
    hide Walk, Resolve, Target, Normalize;
    if IsNormal(base) {
      forall relative | WellFormed(relative) && !IsAbsolute(relative)
        ensures Walk([], Resolve(base, relative)) == Target(base, relative)
      {
        ResolveWalks(base, relative);
      }
    } else {
      var j :| 0 < j < |base| && base[j].Parent? && base[j - 1].Normal?;
      ResolveMisses(base, j);
    }
  }

  // ---------------------------------------------------------------- validate_symlink

  datatype SymlinkInfo = SymlinkInfo(path: Path, target: string, resolvedTarget: Path)

  datatype SymlinkError = UnreadableLink | AbsoluteTarget | InvalidPath | EscapesRoot

  /** `\\` and `//` prefixes, and a drive letter's colon. */
  predicate LooksAbsolute(target: string) {
    IsAbsolute(Parse(target)) || (|target| >= 2 && (target[1] == ':' || target[..2] == "\\\\" || target[..2] == "//"))
  }

  /** Exactly the targets that begin with a slash or two backslashes, or have a colon in second place. */
  lemma LooksAbsoluteExactly(target: string)
    ensures LooksAbsolute(target) <==>
      || (target != "" && target[0] == '/')
      || (|target| >= 2 && (target[1] == ':' || (target[0] == '\\' && target[1] == '\\')))
  {
    ParsedRoot(target);
    if |target| >= 2 {
      assert target[..2] == [target[0], target[1]];
      assert "\\\\" == ['\\', '\\'] && "//" == ['/', '/'];
    }
  }

  lemma ParsedRoot(target: string)
    ensures IsAbsolute(Parse(target)) <==> target != "" && target[0] == '/'
  {
    var parts := Split(target, '/');
    ComponentsWellFormed(parts);
    var k := Find(target, '/');
    hide Components;
    if target != "" && target[0] == '/' { assert k == 0; }
    if IsBelow(Components(parts)) && Components(parts) != [] { assert Components(parts)[0] in Components(parts); }
  }

  /** `link` is what reading the link gave, if it could be read. */
  method ValidateSymlink(symlinkPath: Path, link: Option<string>,
                         root: Path) returns (r: Result<SymlinkInfo, SymlinkError>)
    ensures link.None? <==> r == Err(UnreadableLink)
    ensures r == Err(AbsoluteTarget) <==> link.Some? && LooksAbsolute(link.value)
    ensures link.Some? && !LooksAbsolute(link.value) ==>
      && (r == Err(InvalidPath) <==> symlinkPath == [] || symlinkPath[|symlinkPath| - 1].Root?)
      && (r != Err(InvalidPath) ==>
          var resolved := Resolve(symlinkPath[..|symlinkPath| - 1], Parse(link.value));
          if IsWithinRoot(resolved, root)
          then r == Ok(SymlinkInfo(symlinkPath, ToPosixPath(Parse(link.value)), resolved))
          else r == Err(EscapesRoot))
  {
    if link.None? { return Err(UnreadableLink); }
    var targetStr := link.value;
    var target := Parse(targetStr);
    if IsAbsolute(target) { return Err(AbsoluteTarget); }
    if |targetStr| >= 2 && targetStr[1] == ':' { return Err(AbsoluteTarget); }
    if |targetStr| >= 2 && (targetStr[..2] == "\\\\" || targetStr[..2] == "//") { return Err(AbsoluteTarget); }
    if symlinkPath == [] || symlinkPath[|symlinkPath| - 1].Root? { return Err(InvalidPath); }
    var symlinkDir := symlinkPath[..|symlinkPath| - 1];
    var resolved := LexicalResolve(symlinkDir, target);
    var normPath := LexicalNormalize(resolved);
    var normRoot := LexicalNormalize(root);
    if !(normRoot <= normPath) { return Err(EscapesRoot); }
    r := Ok(SymlinkInfo(symlinkPath, ToPosixPath(target), resolved));
  }

  /** A directory reached from the root by names alone, as a directory walk yields. */
  predicate IsPlain(p: Path) { WellFormed(p) && IsAbsolute(p) && Parent !in p }

  lemma {:induction false} PlainNeverOvershoots(p: Path)
    requires IsPlain(p)
    ensures Overshoot([], p) == 0
  {
    if |p| > 1 {
      PlainNeverOvershoots(p[..|p| - 1]);
      assert p[|p| - 1] in p;
    }
  }

  lemma {:induction false} ResolveStaysPlain(base: Path, relative: Path)
    requires IsPlain(base) && WellFormed(relative) && !IsAbsolute(relative)
    ensures IsPlain(Resolve(base, relative))
  {
    if relative != [] { ResolveStaysPlain(base, relative[..|relative| - 1]); }
  }

  /** In a plain directory, a link target passes the containment check under an absolute root exactly when
      the place it leads to is at or below the root's place (and the root path does not overshoot). */
  lemma AcceptedExactly(dir: Path, target: string, root: Path)
    requires IsPlain(dir) && WellFormed(root) && IsAbsolute(root) && !LooksAbsolute(target)
    ensures IsWithinRoot(Resolve(dir, Parse(target)), root) <==>
            Overshoot([], root) == 0 && Walk([], root) <= Target(dir, Parse(target))
  {
    hide Walk, Overshoot, Normalize, Parse, Target, Resolve;
    var t := Parse(target);
    ParseWellFormed(target);
    PlainIsNormal(dir);
    ResolveStaysPlain(dir, t);
    PlainNeverOvershoots(Resolve(dir, t));
    ResolveWalks(dir, t);
    WithinRootExactly(Resolve(dir, t), root);
  }

  lemma PlainIsNormal(dir: Path)
    requires IsPlain(dir)
    ensures IsNormal(dir)
  {
    assert forall i | 0 <= i < |dir| :: dir[i] in dir;
  }

  /** The check admits only targets that lead below the root. */
  ghost predicate ChecksRight(dir: Path) {
    forall relative, root | WellFormed(relative) && !IsAbsolute(relative) && WellFormed(root) && IsAbsolute(root) ::
      IsWithinRoot(Resolve(dir, relative), root) ==> Walk([], root) <= Target(dir, relative)
  }

  lemma NormalChecks(dir: Path, relative: Path, root: Path)
    requires IsNormalAbsolute(dir) && WellFormed(relative) && !IsAbsolute(relative) && WellFormed(root)
             && IsAbsolute(root)
    requires IsWithinRoot(Resolve(dir, relative), root)
    ensures Walk([], root) <= Target(dir, relative)
  {
    hide Walk, Resolve, Target, Normalize, IsWithinRoot;
    ResolveWalks(dir, relative);
    WithinAbsoluteRoot(Resolve(dir, relative), root);
  }

  /** The target may be judged against the very place it was wrongly resolved to. */
  lemma AbnormalMischecks(dir: Path)
    requires WellFormed(dir) && IsAbsolute(dir) && !IsNormal(dir)
    ensures !ChecksRight(dir)
  {
    var j :| 0 < j < |dir| && dir[j].Parent? && dir[j - 1].Normal?;
    var relative, root := Climb(|dir| - j), dir[..j];
    ResolveMisses(dir, j);
    ResolveClimb(dir, |dir| - j);
    hide Walk, Resolve, Target, Normalize, Climb;
    assert IsWithinRoot(Resolve(dir, relative), root);
    assert WellFormed(root) && IsAbsolute(root);
  }

  /** The containment check is sound for all targets and roots exactly from lexically normal directories. */
  lemma ChecksRightExactly(dir: Path)
    requires WellFormed(dir) && IsAbsolute(dir)
    ensures ChecksRight(dir) <==> Normalize(dir) == dir
  {
    NormalizedExactly(dir);
    hide Walk, Resolve, Target, Normalize, IsWithinRoot, WellFormed, IsAbsolute, IsNormal;
    if IsNormal(dir) {
      forall relative, root | WellFormed(relative) && !IsAbsolute(relative) && WellFormed(root) && IsAbsolute(root)
        ensures IsWithinRoot(Resolve(dir, relative), root) ==> Walk([], root) <= Target(dir, relative)
      {
        if IsWithinRoot(Resolve(dir, relative), root) { NormalChecks(dir, relative, root); }
      }
    } else {
      AbnormalMischecks(dir);
    }
  }
}
