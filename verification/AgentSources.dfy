/** Which local file an upload agent serves for a request, and whether that file lies in a LOCAL location of its
    storage profile. The agent compares strings; where a file lies is decided by walking the directory tree. */
module AgentSources {
  import opened Wrappers
  import opened Chunks
  import opened Paths
  import opened Strings

  // ---------------------------------------------------------------- paths and places

  /** A directory or file, by the names that lead to it from the top. */
  type Place = seq<string>

  predicate Rooted(s: string) { "/" <= s }

  /** What `pathlib` reads in the part of a path behind its root: blanks and `.` vanish. */
  function Parts(s: string): Path { Components(Split(s, '/')) }

  function PosixPath(s: string): Path { (if Rooted(s) then [Root] else []) + Parts(s) }

  /** Where a path starts. */
  function Start(cwd: Place, s: string): Place { if Rooted(s) then [] else cwd }

  function PlaceOf(cwd: Place, s: string): Place { Walk(Start(cwd, s), Parts(s)) }

  /** `Path(root) / relative`: a rooted right side replaces the left one. */
  function JoinPath(root: string, relative: string): string {
    if Rooted(relative) then relative
    else if root == "" || root[|root| - 1] == '/' then root + relative
    else root + "/" + relative
  }

  /** The place is the one the whole path leads to. */
  lemma PlaceByWalk(cwd: Place, s: string)
    ensures PlaceOf(cwd, s) == Walk(cwd, PosixPath(s))
  {
    WalkAppend(cwd, [Root], Parts(s));
    assert [Root][..0] == [];
    assert Walk(cwd, [Root]) == [];
    assert [] + Parts(s) == Parts(s);
  }

  lemma PartsBelow(s: string)
    ensures IsBelow(Parts(s))
  {
    ComponentsWellFormed(Split(s, '/'));
  }

  // ---------------------------------------------------------------- strings put together

  function FirstPart(s: string): string { Split(s, '/')[0] }

  function LastPart(s: string): string { Split(s, '/')[|Split(s, '/')| - 1] }

  lemma SplitUnfold(s: string)
    ensures var k := Find(s, '/');
      Split(s, '/') == if k == |s| then [s] else [s[..k]] + Split(s[k + 1..], '/')
  {
    hide Find;
  }

  /** Where two strings meet, the last part of one and the first part of the other become one part. */
  lemma {:induction false} SplitConcat(x: string, y: string)
    ensures Split(x + y, '/') == Met(Split(x, '/'), Split(y, '/'))
    decreases |x|
  {
    hide Find, Split, Met;
    var k, b := Find(x, '/'), Split(y, '/');
    FindConcat(x, y);
    SplitUnfold(x);
    SplitUnfold(x + y);
    if k < |x| {
      assert (x + y)[..k] == x[..k] && (x + y)[k + 1..] == x[k + 1..] + y;
      SplitConcat(x[k + 1..], y);
      MetBehind(x[..k], Split(x[k + 1..], '/'), b);
    } else {
      SplitBehind(x, y);
      MetOne(x, b);
    }
  }

  lemma MetOne(x: string, b: seq<string>)
    requires b != []
    ensures Met([x], b) == [x + b[0]] + b[1..]
  {
  }

  function Met(a: seq<string>, b: seq<string>): seq<string>
    requires a != [] && b != []
  {
    a[..|a| - 1] + [a[|a| - 1] + b[0]] + b[1..]
  }

  lemma MetBehind(s: string, a: seq<string>, b: seq<string>)
    requires a != [] && b != []
    ensures Met([s] + a, b) == [s] + Met(a, b)
  {
    assert ([s] + a)[..|a|] == [s] + a[..|a| - 1];
  }

  lemma SplitBehind(x: string, y: string)
    requires Find(x, '/') == |x|
    ensures Split(x + y, '/') == [x + Split(y, '/')[0]] + Split(y, '/')[1..]
  {
    hide Find, Split;
    FindConcat(x, y);
    SplitUnfold(y);
    SplitUnfold(x + y);
    var j := Find(y, '/');
    if j < |y| {
      assert (x + y)[..|x| + j] == x + y[..j] && (x + y)[|x| + j + 1..] == y[j + 1..];
    }
  }

  lemma FindConcat(x: string, y: string)
    ensures Find(x + y, '/') == if Find(x, '/') < |x| then Find(x, '/') else |x| + Find(y, '/')
  {
    var k, n, s := Find(x, '/'), Find(y, '/'), x + y;
    assert forall i | 0 <= i < |x| :: s[i] == x[i];
    assert forall i | 0 <= i < |y| :: s[|x| + i] == y[i];
    var p := if k < |x| then k else |x| + n;
    assert forall i | 0 <= i < p :: s[i] != '/';
    var f := Find(s, '/');
    assert f < |s| ==> s[f] == '/';
    assert p < |s| ==> s[p] == '/';
  }

  /** The parts before the last one, and after the first. */
  function Before(s: string): Path { Components(Split(s, '/')[..|Split(s, '/')| - 1]) }

  function After(s: string): Path { Components(Split(s, '/')[1..]) }

  lemma PartsSplit(s: string)
    ensures Parts(s) == Before(s) + Components([LastPart(s)]) == Components([FirstPart(s)]) + After(s)
  {
    var a := Split(s, '/');
    ComponentsAppend(a[..|a| - 1], [LastPart(s)]);
    ComponentsAppend([FirstPart(s)], a[1..]);
    assert a == a[..|a| - 1] + [LastPart(s)] && a == [FirstPart(s)] + a[1..];
  }

  lemma PartsConcat(x: string, y: string)
    ensures Parts(x + y) == Before(x) + Components([LastPart(x) + FirstPart(y)]) + After(y)
    ensures LastPart(x) == "" || FirstPart(y) == "" ==> Parts(x + y) == Parts(x) + Parts(y)
  {
    hide Split, Components;
    var a, b, mid := Split(x, '/'), Split(y, '/'), LastPart(x) + FirstPart(y);
    SplitConcat(x, y);
    ComponentsAppend(a[..|a| - 1] + [mid], b[1..]);
    ComponentsAppend(a[..|a| - 1], [mid]);
    PartsSplit(x);
    PartsSplit(y);
    ComponentsOfBlanks();
    if LastPart(x) == "" {
      assert mid == FirstPart(y);
    } else if FirstPart(y) == "" {
      assert mid == LastPart(x);
    }
  }

  // ---------------------------------------------------------------- climbing and coming back

  /** How much of `at` is left after climbing as often as `p` does. */
  function Left(at: Place, p: Path): nat {
    if Overshoot([], p) >= |at| then 0 else |at| - Overshoot([], p)
  }

  /** From a directory, `p` leads into `into`: it does not climb above it, or it comes down again by the same names. */
  predicate LeadsInto(at: Place, into: Place, p: Path) {
    if |into| <= Left(at, p) then into <= at
    else at[..Left(at, p)] <= into && into[Left(at, p)..] <= Walk([], p)
  }

  /** A path that climbs above its start comes down again by the same names. */
  predicate ComesBack(at: Place, p: Path) { at[Left(at, p)..] <= Walk([], p) }

  /** A path leads to `over` or above it: what is left after its climbs, and what it comes down to, are on the way. */
  predicate LeadsAbove(at: Place, over: Place, p: Path) {
    at[..Left(at, p)] <= over && Walk([], p) <= over[Left(at, p)..]
  }

  lemma LeadsIntoExactly(at: Place, into: Place, p: Path)
    requires IsBelow(p)
    ensures into <= Walk(at, p) <==> LeadsInto(at, into, p)
    ensures at <= Walk(at, p) <==> ComesBack(at, p)
    ensures Walk(at, p) <= into <==> LeadsAbove(at, into, p)
  {
    hide Walk, Overshoot;
    assert forall i | 0 <= i < |p| :: !p[i].Root? by { assert forall i | 0 <= i < |p| :: p[i] in p; }
    WalkFrom(at, p);
    PrefixOfSum(at, Left(at, p), Walk([], p), into);
    PrefixOfSum(at, Left(at, p), Walk([], p), at);
  }

  lemma PrefixOfSum(at: Place, left: nat, down: Place, into: Place)
    requires left <= |at|
    ensures into <= at[..left] + down <==>
      if |into| <= left then into <= at else at[..left] <= into && into[left..] <= down
    ensures at[..left] + down <= into <==> at[..left] <= into && down <= into[left..]
  {
    var s := at[..left] + down;
    if |into| <= left {
      assert s[..|into|] == at[..|into|];
    } else {
      assert into == into[..left] + into[left..];
      if into <= s {
        assert into[..left] == s[..left] == at[..left];
        assert into[left..] == s[left..|into|] == down[..|into| - left];
      }
      if at[..left] <= into && into[left..] <= down {
        assert into[..left] == at[..left];
        assert into == s[..|into|];
      }
    }
    if s <= into {
      assert at[..left] == s[..left] == into[..left];
      assert down == s[left..] == into[left..|s|] == into[left..][..|down|];
    }
    if at[..left] <= into && down <= into[left..] {
      assert into == at[..left] + into[left..];
      assert s == into[..|s|];
    }
  }

  // ---------------------------------------------------------------- a source spelled like a location

  predicate AtOrBelow(cwd: Place, path: string, location: string) { PlaceOf(cwd, location) <= PlaceOf(cwd, path) }

  /** The strings meet within a name. */
  predicate Glued(x: string, y: string) { LastPart(x) != "" && FirstPart(y) != "" }

  /** When `location + rest` is in `location`: behind a separator, when `rest` climbs no higher or comes back; within a
      name, only when `rest` climbs and comes back. */
  predicate BelowGuard(cwd: Place, location: string, rest: string) {
    var place := PlaceOf(cwd, location);
    if location == "" && Rooted(rest) then cwd <= Walk([], Parts(rest))
    else if !Glued(location, rest) then ComesBack(place, Parts(rest))
    else if IsName(LastPart(location)) then Overshoot([], After(rest)) > 0 && ComesBack(place, After(rest))
    else LeadsInto(PlaceOf(cwd, location + FirstPart(rest)), place, After(rest))
  }

  /** When `source` is in the location `source + rest`. */
  predicate AboveGuard(cwd: Place, source: string, rest: string) {
    var place := PlaceOf(cwd, source);
    if source == "" && Rooted(rest) then Walk([], Parts(rest)) <= cwd
    else if !Glued(source, rest) then LeadsAbove(place, place, Parts(rest))
    else if IsName(LastPart(source)) then Overshoot([], After(rest)) > 0 && LeadsAbove(place, place, After(rest))
    else LeadsAbove(PlaceOf(cwd, source + FirstPart(rest)), place, After(rest))
  }

  /** A source is in a location exactly when this holds. */
  predicate Guard(cwd: Place, source: string, location: string) {
    if location <= source then BelowGuard(cwd, location, source[|location|..])
    else if source <= location then AboveGuard(cwd, source, location[|source|..])
    else LeadsInto(Start(cwd, source), PlaceOf(cwd, location), Parts(source))
  }

  /** Where `x + y` leads, from where `x` leads. */
  lemma PlaceOfConcat(cwd: Place, x: string, y: string)
    requires x != ""
    ensures !Glued(x, y) ==> PlaceOf(cwd, x + y) == Walk(PlaceOf(cwd, x), Parts(y))
    ensures PlaceOf(cwd, x + y) == Walk(PlaceOf(cwd, x + FirstPart(y)), After(y))
    ensures PlaceOf(cwd, x) == Walk(Walk(Start(cwd, x), Before(x)), Components([LastPart(x)]))
    ensures PlaceOf(cwd, x + FirstPart(y))
         == Walk(Walk(Start(cwd, x), Before(x)), Components([LastPart(x) + FirstPart(y)]))
  {
    hide Split, Components, Walk, Parts, Before, After;
    var start, mid := Start(cwd, x), Components([LastPart(x) + FirstPart(y)]);
    PartsConcat(x, y);
    PartsConcat(x, FirstPart(y));
    PartsSplit(x);
    OnePart(y);
    WalkAppend(start, Parts(x), Parts(y));
    WalkAppend(start, Before(x) + mid, After(y));
    WalkAppend(start, Before(x), mid);
    WalkAppend(start, Before(x), Components([LastPart(x)]));
    assert Before(x) + mid + [] == Before(x) + mid;
  }

  /** The first part has no separator, so it is its own only part. */
  lemma OnePart(s: string)
    ensures FirstPart(FirstPart(s)) == FirstPart(s) && After(FirstPart(s)) == []
  {
    var first := FirstPart(s);
    assert first in Split(s, '/');
    assert Find(first, '/') == |first|;
  }

  /** Names that begin alike and go on are different names. */
  lemma GluedNames(x: string, y: string)
    requires IsName(LastPart(x)) && Glued(x, y)
    ensures Components([LastPart(x)]) == [Normal(LastPart(x))]
    ensures Components([LastPart(x) + FirstPart(y)]) == [Normal(LastPart(x) + FirstPart(y))]
    ensures LastPart(x) + FirstPart(y) != LastPart(x)
  {
    var a, b := LastPart(x), FirstPart(y);
    assert |a + b| > |a|;
    if |a + b| <= 2 { assert a == [(a + b)[0]]; }
    assert [a][..0] == [] && [a + b][..0] == [];
  }

  lemma Siblings(dir: Place, name: string, other: string, p: Path)
    requires name != other
    ensures LeadsInto(dir + [other], dir + [name], p) <==> Overshoot([], p) > 0 && ComesBack(dir + [name], p)
    ensures LeadsAbove(dir + [other], dir + [name], p) <==>
            Overshoot([], p) > 0 && LeadsAbove(dir + [name], dir + [name], p)
  {
    hide Walk, Overshoot;
    var at, into, left := dir + [other], dir + [name], Left(dir + [name], p);
    if Overshoot([], p) > 0 {
      assert at[..left] == dir[..left] == into[..left];
    } else {
      assert at[..left] == at && into[|dir|] != at[|dir|];
    }
  }

  lemma BelowExactly(cwd: Place, location: string, rest: string)
    ensures AtOrBelow(cwd, location + rest, location) <==> BelowGuard(cwd, location, rest)
  {
    hide Split, Components, Walk, Overshoot, Parts, Before, After;
    PartsBelow(rest);
    AfterBelow(rest);
    var place := PlaceOf(cwd, location);
    if location == "" {
      assert location + rest == rest;
      NoParts(cwd, location, rest);
      LeadsIntoExactly(cwd, cwd, Parts(rest));
    } else {
      PlaceOfConcat(cwd, location, rest);
      LeadsIntoExactly(place, place, Parts(rest));
      LeadsIntoExactly(PlaceOf(cwd, location + FirstPart(rest)), place, After(rest));
      if Glued(location, rest) && IsName(LastPart(location)) {
        GluedNames(location, rest);
        GluedPlaces(cwd, location, rest);
        Siblings(Walk(Start(cwd, location), Before(location)), LastPart(location),
                 LastPart(location) + FirstPart(rest), After(rest));
      }
    }
  }

  lemma AboveExactly(cwd: Place, source: string, rest: string)
    ensures AtOrBelow(cwd, source, source + rest) <==> AboveGuard(cwd, source, rest)
  {
    hide Split, Components, Walk, Overshoot, Parts, Before, After;
    PartsBelow(rest);
    AfterBelow(rest);
    var place := PlaceOf(cwd, source);
    if source == "" {
      assert source + rest == rest;
      NoParts(cwd, source, rest);
      LeadsIntoExactly(cwd, cwd, Parts(rest));
    } else {
      PlaceOfConcat(cwd, source, rest);
      LeadsIntoExactly(place, place, Parts(rest));
      LeadsIntoExactly(PlaceOf(cwd, source + FirstPart(rest)), place, After(rest));
      if Glued(source, rest) && IsName(LastPart(source)) {
        GluedNames(source, rest);
        GluedPlaces(cwd, source, rest);
        Siblings(Walk(Start(cwd, source), Before(source)), LastPart(source),
                 LastPart(source) + FirstPart(rest), After(rest));
      }
    }
  }

  lemma AfterBelow(s: string)
    ensures IsBelow(After(s))
  {
    ComponentsWellFormed(Split(s, '/')[1..]);
  }

  /** The empty string is the current directory, and is glued to nothing. */
  lemma NoParts(cwd: Place, s: string, rest: string)
    requires s == ""
    ensures PlaceOf(cwd, s) == cwd && !Glued(s, rest)
    ensures PlaceOf(cwd, rest) == Walk(if Rooted(rest) then [] else cwd, Parts(rest))
  {
    assert Split(s, '/') == [""];
    ComponentsOfBlanks();
  }

  lemma GluedPlaces(cwd: Place, x: string, y: string)
    requires x != "" && Glued(x, y) && IsName(LastPart(x))
    ensures var dir := Walk(Start(cwd, x), Before(x));
      && PlaceOf(cwd, x) == dir + [LastPart(x)]
      && PlaceOf(cwd, x + FirstPart(y)) == dir + [LastPart(x) + FirstPart(y)]
  {
    hide Split, Components, Parts, Before, After;
    PlaceOfConcat(cwd, x, y);
    GluedNames(x, y);
    OneStep(Walk(Start(cwd, x), Before(x)), LastPart(x));
    OneStep(Walk(Start(cwd, x), Before(x)), LastPart(x) + FirstPart(y));
  }

  lemma OneStep(at: Place, name: string)
    ensures Walk(at, [Normal(name)]) == at + [name]
  {
    assert [Normal(name)][..0] == [];
  }

  /** The guard decides, for every source, location and current directory. */
  lemma GuardExactly(cwd: Place, source: string, location: string)
    ensures AtOrBelow(cwd, source, location) <==> Guard(cwd, source, location)
  {
    hide BelowGuard, AboveGuard, Parts, Walk;
    if location <= source {
      BelowExactly(cwd, location, source[|location|..]);
      assert location + source[|location|..] == source;
    } else if source <= location {
      AboveExactly(cwd, source, location[|source|..]);
      assert source + location[|source|..] == location;
    } else {
      PartsBelow(source);
      LeadsIntoExactly(Start(cwd, source), PlaceOf(cwd, location), Parts(source));
    }
  }

  // ---------------------------------------------------------------- normpath

  /** One turn of the loop of `os.path.normpath`. */
  function NormStep(rooted: bool, done: seq<string>, part: string): seq<string> {
    if part == "" || part == "." then done
    else if part != ".." || (!rooted && done == []) || (done != [] && done[|done| - 1] == "..") then done + [part]
    else if done != [] then done[..|done| - 1]
    else done
  }

  function NormFold(rooted: bool, parts: seq<string>): seq<string> {
    if parts == [] then [] else NormStep(rooted, NormFold(rooted, parts[..|parts| - 1]), parts[|parts| - 1])
  }

  /** Two slashes in front are kept, more are one. */
  function Slashes(s: string): nat {
    if !Rooted(s) then 0 else if |s| > 1 && s[1] == '/' && !(|s| > 2 && s[2] == '/') then 2 else 1
  }

  /** What `os.path.normpath` writes out: so many slashes, then these parts. */
  function NormPath(s: string): (nat, seq<string>) { (Slashes(s), NormFold(Rooted(s), Split(s, '/'))) }

  function Ups(n: nat): seq<string> { seq(n, _ => "..") }

  lemma NormStepWalks(rooted: bool, climbs: nat, names: seq<string>, part: string)
    requires (rooted ==> climbs == 0) && (names != [] ==> IsName(names[|names| - 1]))
    requires part != "" && part != "."
    ensures NormStep(rooted, Ups(climbs) + names, part) ==
            if part != ".." then Ups(climbs) + (names + [part])
            else if names != [] then Ups(climbs) + names[..|names| - 1]
            else Ups(if rooted then 0 else climbs + 1)
  {
    var done := Ups(climbs) + names;
    if names != [] {
      assert done[|done| - 1] == names[|names| - 1];
      assert done[..|done| - 1] == Ups(climbs) + names[..|names| - 1];
    } else {
      assert done == Ups(climbs) && Ups(climbs) + [".."] == Ups(climbs + 1);
    }
    assert done + [part] == Ups(climbs) + (names + [part]);
  }

  function Climbs(rooted: bool, p: Path): nat { if rooted then 0 else Overshoot([], p) }

  /** The loop finds what the walk finds; above the top there is nothing to climb. */
  lemma {:induction false} NormFoldWalks(rooted: bool, parts: seq<string>)
    requires forall s | s in parts :: '/' !in s
    ensures NormFold(rooted, parts) == Ups(Climbs(rooted, Components(parts))) + Walk([], Components(parts))
  {
    if parts != [] {
      var init, part := parts[..|parts| - 1], parts[|parts| - 1];
      NormFoldWalks(rooted, init);
      assert part in parts;
      LastIsName(init);
      if part == "" || part == "." {
        assert Components(parts) == Components(init);
      } else {
        NormStepWalks(rooted, Climbs(rooted, Components(init)), Walk([], Components(init)), part);
        PartWalks(rooted, Components(init), part);
        assert Components(parts) == Components(init) + [PartOf(part)];
      }
    }
  }

  function PartOf(part: string): Component { if part == ".." then Parent else Normal(part) }

  lemma PartWalks(rooted: bool, p: Path, part: string)
    ensures var q, names := p + [PartOf(part)], Walk([], p);
      Ups(Climbs(rooted, q)) + Walk([], q) ==
        if part != ".." then Ups(Climbs(rooted, p)) + (names + [part])
        else if names != [] then Ups(Climbs(rooted, p)) + names[..|names| - 1]
        else Ups(if rooted then 0 else Climbs(rooted, p) + 1)
  {
    var q, names := p + [PartOf(part)], Walk([], p);
    assert q[..|p|] == p && q[|p|] == PartOf(part);
    OvershootStep([], q);
    hide Ups, Overshoot;
    assert Walk([], q) == Step(names, PartOf(part));
    if part == ".." && names == [] {
      assert Ups(Climbs(rooted, q)) + [] == Ups(Climbs(rooted, q));
    }
  }

  lemma LastIsName(parts: seq<string>)
    requires forall s | s in parts :: '/' !in s
    ensures var names := Walk([], Components(parts)); names != [] ==> IsName(names[|names| - 1])
  {
    hide Walk;
    ComponentsWellFormed(parts);
    WalkKeepsNames(Components(parts));
  }

  lemma UpsApart(j: nat, ms: seq<string>, k: nat, ns: seq<string>)
    requires forall name | name in ms :: IsName(name)
    requires forall name | name in ns :: IsName(name)
    ensures Ups(j) + ms == Ups(k) + ns <==> j == k && ms == ns
  {
    if j < k { FewerUps(j, ms, k, ns); }
    if k < j { FewerUps(k, ns, j, ms); }
    assert ms == (Ups(j) + ms)[j..] && ns == (Ups(k) + ns)[k..];
  }

  lemma FewerUps(j: nat, ms: seq<string>, k: nat, ns: seq<string>)
    requires j < k && forall name | name in ms :: IsName(name)
    ensures Ups(j) + ms != Ups(k) + ns
  {
    if ms != [] { assert (Ups(j) + ms)[j] == ms[0] && ms[0] in ms && (Ups(k) + ns)[j] == ".."; }
  }

  /** Two strings get the same form exactly when they begin with the same slashes and lead to the same place from every
      directory. */
  lemma NormPathExactly(s: string, t: string)
    ensures NormPath(s) == NormPath(t) <==> Slashes(s) == Slashes(t) && SamePlaces(PosixPath(s), PosixPath(t))
  {
    hide Split, Components, Walk, Overshoot, NormFold, SamePlaces, PosixPath;
    NormFoldWalks(Rooted(s), Split(s, '/'));
    NormFoldWalks(Rooted(t), Split(t, '/'));
    if Slashes(s) == Slashes(t) {
      if Rooted(s) {
        assert Ups(0) + Walk([], Parts(s)) == Walk([], Parts(s)) && Ups(0) + Walk([], Parts(t)) == Walk([], Parts(t));
        RootedPlaces(s, t);
      } else {
        RelativePlaces(s, t);
      }
    }
  }

  lemma RelativePlaces(s: string, t: string)
    requires !Rooted(s) && !Rooted(t)
    ensures SamePlaces(PosixPath(s), PosixPath(t)) <==>
            Ups(Overshoot([], Parts(s))) + Walk([], Parts(s)) == Ups(Overshoot([], Parts(t))) + Walk([], Parts(t))
  {
    hide Split, Components, Walk, Overshoot, Normalize, Canonical, SamePlaces, Parts;
    var p, q := Parts(s), Parts(t);
    assert PosixPath(s) == p && PosixPath(t) == q;
    PartsBelow(s);
    PartsBelow(t);
    WalkKeepsNames(p);
    WalkKeepsNames(q);
    UpsApart(Overshoot([], p), Walk([], p), Overshoot([], q), Walk([], q));
    assert !IsAbsolute(p) && !IsAbsolute(q);
    RelativePathsByWalk(p, q);
    NormalizeIsCanonical(p);
    NormalizeIsCanonical(q);
    CanonicalInjective(false, Overshoot([], p), Walk([], p), false, Overshoot([], q), Walk([], q));
  }

  lemma RootedPlaces(s: string, t: string)
    requires Rooted(s) && Rooted(t)
    ensures SamePlaces(PosixPath(s), PosixPath(t)) <==> Walk([], Parts(s)) == Walk([], Parts(t))
  {
    hide Walk, Parts, PosixPath;
    forall start
      ensures Walk(start, PosixPath(s)) == Walk([], Parts(s)) && Walk(start, PosixPath(t)) == Walk([], Parts(t))
    {
      PlaceByWalk(start, s);
      PlaceByWalk(start, t);
    }
    assert SamePlaces(PosixPath(s), PosixPath(t)) ==> Walk([], PosixPath(s)) == Walk([], PosixPath(t));
  }

  // ---------------------------------------------------------------- which root serves a source

  datatype Node = File(content: Bytes) | Directory | Other

  /** The agent's machine: its LOCAL locations, its file system and its current directory. */
  datatype Machine = Machine(locations: seq<string>, tree: map<Place, Node>, cwd: Place)

  /** Where a path leads, if each step is taken from a directory that is there. */
  function Reach(tree: map<Place, Node>, start: Place, p: Path): Option<Place> {
    if p == [] then Some(start)
    else
      var at := Reach(tree, start, p[..|p| - 1]);
      if at.Some? && at.value in tree && tree[at.value] == Directory then Some(Step(at.value, p[|p| - 1])) else None
  }

  function Lookup(m: Machine, s: string): Option<Node> {
    var at := Reach(m.tree, Start(m.cwd, s), Parts(s));
    if at.Some? && at.value in m.tree then Some(m.tree[at.value]) else None
  }

  /** `os.path.isdir`: nothing has the empty name. */
  predicate IsDir(m: Machine, s: string) { s != "" && Lookup(m, s) == Some(Directory) }

  /** `resolve_source_path`: the first LOCAL location that matches decides. */
  function ResolveSource(m: Machine, source: string): Option<string> { ResolveFrom(m, m.locations, source) }

  function ResolveFrom(m: Machine, locations: seq<string>, source: string): Option<string> {
    if locations == [] then (if IsDir(m, source) then Some(source) else None)
    else if locations[0] <= source || source <= locations[0] then Some(source)
    else if NormPath(source) == NormPath(locations[0]) then Some(locations[0])
    else ResolveFrom(m, locations[1..], source)
  }

  /** `source` and a location are spelled alike at the front, one way or the other. */
  predicate SpelledAlike(source: string, location: string) { location <= source || source <= location }

  predicate Matches(source: string, location: string) {
    SpelledAlike(source, location) || NormPath(source) == NormPath(location)
  }

  function FirstMatch(locations: seq<string>, source: string): (r: Option<nat>)
    ensures r.Some? ==> r.value < |locations| && Matches(source, locations[r.value])
    ensures forall i | 0 <= i < (if r.Some? then r.value else |locations|) :: !Matches(source, locations[i])
  {
    if locations == [] then None
    else if Matches(source, locations[0]) then Some(0)
    else
      var rest := FirstMatch(locations[1..], source);
      assert forall i | 1 <= i < |locations| :: locations[i] == locations[1..][i - 1];
      if rest.Some? then Some(rest.value + 1) else None
  }

  lemma {:induction false} ResolvedByFirstMatch(m: Machine, locations: seq<string>, source: string)
    ensures ResolveFrom(m, locations, source) ==
      match FirstMatch(locations, source)
      case None => if IsDir(m, source) then Some(source) else None
      case Some(i) => Some(if SpelledAlike(source, locations[i]) then source else locations[i])
  {
    hide NormPath, IsDir;
    if locations != [] { ResolvedByFirstMatch(m, locations[1..], source); }
  }

  predicate InLocation(m: Machine, path: string) { exists l :: l in m.locations && AtOrBelow(m.cwd, path, l) }

  /** The root a source is served from, if any, is where the source leads. */
  lemma RootOfSource(m: Machine, source: string)
    ensures ResolveSource(m, source).Some? <==>
            (exists l :: l in m.locations && Matches(source, l)) || IsDir(m, source)
    ensures ResolveSource(m, source).Some? ==>
            PlaceOf(m.cwd, ResolveSource(m, source).value) == PlaceOf(m.cwd, source)
  {
    hide PlaceOf, NormPath, IsDir;
    ResolvedByFirstMatch(m, m.locations, source);
    var first := FirstMatch(m.locations, source);
    if first.Some? {
      var l := m.locations[first.value];
      assert l in m.locations && Matches(source, l);
      if NormPath(source) == NormPath(l) { SameFormSamePlace(m.cwd, source, l); }
    }
  }

  /** The agent serves from a root that is in none of its LOCAL locations exactly when no location's guard lets the
      source through, and yet the source is spelled like one at the front, or is a directory. */
  lemma ServedFromOutsideExactly(m: Machine, source: string)
    ensures (ResolveSource(m, source).Some? && !InLocation(m, ResolveSource(m, source).value)) <==>
            ((forall l | l in m.locations :: !Guard(m.cwd, source, l))
             && ((exists l :: l in m.locations && SpelledAlike(source, l)) || IsDir(m, source)))
  {
    hide Guard, PlaceOf, NormPath, IsDir, ResolveSource, SpelledAlike;
    RootOfSource(m, source);
    forall l ensures AtOrBelow(m.cwd, source, l) <==> Guard(m.cwd, source, l) { GuardExactly(m.cwd, source, l); }
    forall l | NormPath(source) == NormPath(l) ensures AtOrBelow(m.cwd, source, l) {
      SameFormSamePlace(m.cwd, source, l);
    }
  }

  lemma SameFormSamePlace(cwd: Place, s: string, t: string)
    requires NormPath(s) == NormPath(t)
    ensures PlaceOf(cwd, s) == PlaceOf(cwd, t)
  {
    NormPathExactly(s, t);
    PlaceByWalk(cwd, s);
    PlaceByWalk(cwd, t);
  }

  // ---------------------------------------------------------------- every source

  /** Whatever the source, the root it is served from is in a LOCAL location. */
  ghost predicate RootsInside(m: Machine) {
    forall source | ResolveSource(m, source).Some? :: InLocation(m, ResolveSource(m, source).value)
  }

  /** A location from which one climbs to the top. */
  function Climb(location: string, n: nat): string { if n == 0 then location else Climb(location, n - 1) + "/.." }

  lemma {:induction false} ClimbLeads(cwd: Place, location: string, n: nat)
    requires location != ""
    ensures location <= Climb(location, n) && Climb(location, n) != ""
    ensures var at := PlaceOf(cwd, location);
      PlaceOf(cwd, Climb(location, n)) == at[..if n >= |at| then 0 else |at| - n]
  {
    hide PlaceOf;
    var at := PlaceOf(cwd, location);
    if n == 0 {
      assert at[..|at|] == at;
    } else {
      var before := Climb(location, n - 1);
      ClimbLeads(cwd, location, n - 1);
      UpFrom(cwd, before);
      assert Climb(location, n) == before + "/..";
      if n <= |at| { assert at[..|at| - n + 1][..|at| - n] == at[..|at| - n]; }
    }
  }

  lemma UpFrom(cwd: Place, s: string)
    requires s != ""
    ensures s <= s + "/.."
    ensures var at := PlaceOf(cwd, s); PlaceOf(cwd, s + "/..") == if at == [] then [] else at[..|at| - 1]
  {
    hide Split, Components, Parts, Walk;
    OneUp(s);
    PlaceOfConcat(cwd, s, "/..");
    OneUpWalk(PlaceOf(cwd, s));
  }

  lemma OneUp(s: string)
    ensures Parts("/..") == [Parent] && !Glued(s, "/..")
  {
    SplitJoin(["", ".."], '/');
    assert ["", ".."][1..] == [".."] && ["", ".."][..1] == [""] && [""][..0] == [];
    assert Join(["", ".."], '/') == "/..";
  }

  lemma OneUpWalk(at: Place)
    ensures Walk(at, [Parent]) == if at == [] then [] else at[..|at| - 1]
  {
    assert [Parent][..0] == [];
  }

  /** Every accepted root is in a LOCAL location exactly when one of them is the top directory; without any location,
      when nothing is accepted. */
  lemma RootsInsideExactly(m: Machine)
    ensures RootsInside(m) <==>
            if m.locations == [] then forall source :: !IsDir(m, source)
            else exists l :: l in m.locations && PlaceOf(m.cwd, l) == []
  {
    hide PlaceOf, NormPath, IsDir, Climb;
    if m.locations == [] {
      forall source ensures ResolveSource(m, source).Some? <==> IsDir(m, source) { }
      forall path ensures !InLocation(m, path) { }
    } else {
      var l := m.locations[0];
      var n := |PlaceOf(m.cwd, l)|;
      if l == "" { TopPlace(m.cwd); } else { ClimbLeads(m.cwd, l, n); }
      var source := if l == "" then "/" else Climb(l, n);
      assert ResolveSource(m, source) == Some(source) && PlaceOf(m.cwd, source) == [];
      if RootsInside(m) {
        assert InLocation(m, source);
      }
      if top :| top in m.locations && PlaceOf(m.cwd, top) == [] {
        forall path ensures InLocation(m, path) { assert AtOrBelow(m.cwd, path, top); }
      }
    }
  }

  lemma TopPlace(cwd: Place)
    ensures Parts("/") == [] && PlaceOf(cwd, "/") == []
  {
    SplitJoin(["", ""], '/');
    assert ["", ""][1..] == [""] && Join(["", ""], '/') == "/";
    ComponentsOfBlanks();
  }

  // ---------------------------------------------------------------- which file is served

  datatype Failure = NotInProfile | FileNotFound | NotRegular

  /** What serving a request comes to. */
  datatype Outcome = Fails(reason: Failure) | Serves(content: Bytes)

  function Serve(m: Machine, source: string, relative: string): Outcome {
    var root := ResolveSource(m, source);
    if root.None? then Fails(NotInProfile)
    else
      match Lookup(m, JoinPath(root.value, relative))
      case None => Fails(FileNotFound)
      case Some(File(content)) => Serves(content)
      case Some(_) => Fails(NotRegular)
  }

  /** What serving comes to, by what there is: no root, nothing at the path, no regular file there, or its content. */
  lemma ServeExactly(m: Machine, source: string, relative: string)
    ensures var root := ResolveSource(m, source);
      var found := if root.Some? then Lookup(m, JoinPath(root.value, relative)) else None;
      match Serve(m, source, relative)
      case Fails(NotInProfile) => root == None
      case Fails(FileNotFound) => root != None && found == None
      case Fails(NotRegular) => found == Some(Directory) || found == Some(Other)
      case Serves(content) => found == Some(File(content))
  {
  }

  /** What there is at a path: what the tree has where the path leads, if every step to it is taken in a directory. */
  lemma {:induction false} ReachExactly(tree: map<Place, Node>, start: Place, p: Path)
    ensures Reach(tree, start, p).Some? <==>
            forall k | 0 <= k < |p| :: Walk(start, p[..k]) in tree && tree[Walk(start, p[..k])] == Directory
    ensures Reach(tree, start, p).Some? ==> Reach(tree, start, p).value == Walk(start, p)
  {
    ReachIsWalk(tree, start, p);
    if p != [] {
      var n := |p| - 1;
      ReachExactly(tree, start, p[..n]);
      ReachIsWalk(tree, start, p[..n]);
      assert forall k | 0 <= k < n :: p[..n][..k] == p[..k];
      hide Walk;
    }
  }

  lemma JoinedPlace(cwd: Place, root: string, relative: string)
    ensures PlaceOf(cwd, JoinPath(root, relative)) ==
            Walk(if Rooted(relative) then [] else PlaceOf(cwd, root), Parts(relative))
  {
    hide Split, Components, Parts, Walk;
    if !Rooted(relative) {
      if root == "" {
        assert root + relative == relative;
        NoParts(cwd, root, relative);
      } else if root[|root| - 1] == '/' {
        EndsBlank(root);
        PlaceOfConcat(cwd, root, relative);
      } else {
        BehindSlash(relative);
        assert root + "/" + relative == root + ("/" + relative);
        PlaceOfConcat(cwd, root, "/" + relative);
      }
    }
  }

  lemma EndsBlank(s: string)
    requires s != "" && s[|s| - 1] == '/'
    ensures LastPart(s) == ""
  {
    var init := s[..|s| - 1];
    SplitConcat(init, "/");
    assert init + "/" == s;
    SplitJoin(["", ""], '/');
    assert ["", ""][1..] == [""] && Join(["", ""], '/') == "/";
  }

  lemma BehindSlash(s: string)
    ensures FirstPart("/" + s) == "" && Parts("/" + s) == Parts(s)
  {
    assert ("/" + s)[1..] == s;
    assert Split("/" + s, '/') == [""] + Split(s, '/');
    ComponentsAppend([""], Split(s, '/'));
    ComponentsOfBlanks();
  }

  /** The file served for a source and a relative path lies in a LOCAL location exactly when, for some location: the
      relative path is rooted and leads there from the top, or else it does not climb from the source above the
      location, or climbs above it and comes down again by the same names. */
  lemma FileInsideExactly(m: Machine, source: string, relative: string)
    requires ResolveSource(m, source).Some?
    ensures InLocation(m, JoinPath(ResolveSource(m, source).value, relative)) <==>
            exists l :: l in m.locations
              && LeadsInto(if Rooted(relative) then [] else PlaceOf(m.cwd, source), PlaceOf(m.cwd, l), Parts(relative))
  {
    hide PlaceOf, LeadsInto, Parts, Walk, ResolveSource, JoinPath, IsDir, Matches;
    RootOfSource(m, source);
    var root := ResolveSource(m, source).value;
    JoinedPlace(m.cwd, root, relative);
    PartsBelow(relative);
    var at := if Rooted(relative) then [] else PlaceOf(m.cwd, source);
    forall l
      ensures AtOrBelow(m.cwd, JoinPath(root, relative), l) <==> LeadsInto(at, PlaceOf(m.cwd, l), Parts(relative))
    {
      LeadsIntoExactly(at, PlaceOf(m.cwd, l), Parts(relative));
    }
  }

  // ---------------------------------------------------------------- every request

  /** Every name is a name, and every place lies in directories up to the top. */
  ghost predicate IsTree(tree: map<Place, Node>) {
    && [] in tree && tree[[]] == Directory
    && forall at, k | at in tree && 0 <= k < |at| :: IsName(at[k]) && at[..k] in tree && tree[at[..k]] == Directory
  }

  /** Whatever is asked for, what is served is in a LOCAL location. */
  ghost predicate ServesOnlyLocal(m: Machine) {
    forall source, relative | relative != "" && Serve(m, source, relative).Serves? ::
      InLocation(m, JoinPath(ResolveSource(m, source).value, relative))
  }

  ghost predicate FilesInLocations(m: Machine) {
    forall at | at in m.tree && m.tree[at].File? :: exists l :: l in m.locations && PlaceOf(m.cwd, l) <= at
  }

  lemma {:induction false} ReachIsWalk(tree: map<Place, Node>, start: Place, p: Path)
    ensures Reach(tree, start, p).Some? ==> Reach(tree, start, p).value == Walk(start, p)
  {
    if p != [] { ReachIsWalk(tree, start, p[..|p| - 1]); }
  }

  function Down(names: seq<string>): Path { seq(|names|, i requires 0 <= i < |names| => Normal(names[i])) }

  lemma {:induction false} ReachDown(tree: map<Place, Node>, at: Place)
    requires IsTree(tree) && at in tree
    ensures Reach(tree, [], Down(at)) == Some(at)
  {
    if at != [] {
      var n := |at| - 1;
      assert Down(at)[..n] == Down(at[..n]);
      ReachDown(tree, at[..n]);
      assert at == at[..n] + [at[n]];
    }
  }

  /** The name of a place. */
  function Spell(at: Place): string { "/" + ToPosixPath(Down(at)) }

  lemma Spelled(tree: map<Place, Node>, at: Place)
    requires IsTree(tree) && at in tree && at != []
    ensures Parts(Spell(at)) == Down(at)
  {
    hide Components, Split;
    forall i | 0 <= i < |at| ensures IsName(at[i]) { assert at[..i] in tree; }
    var segments := Segments(Down(at));
    assert |segments| == |at|;
    hide Segments;
    ComponentsOfSegments(Down(at));
    SegmentsHaveNoSlash(Down(at));
    SplitJoin(segments, '/');
    BehindSlash(ToPosixPath(Down(at)));
  }

  /** Whatever the checks on the source, every regular file can be asked for: what is served is always in a LOCAL
      location exactly when every regular file of the machine is. */
  lemma ServesOnlyLocalExactly(m: Machine)
    requires IsTree(m.tree)
    ensures ServesOnlyLocal(m) <==> FilesInLocations(m)
  {
    hide PlaceOf, Parts, Walk, ResolveSource, JoinPath, IsTree, Reach;
    if FilesInLocations(m) {
      forall source, relative | relative != "" && Serve(m, source, relative).Serves?
        ensures InLocation(m, JoinPath(ResolveSource(m, source).value, relative))
      {
        ServedPlace(m, JoinPath(ResolveSource(m, source).value, relative));
      }
    }
    if ServesOnlyLocal(m) {
      forall at | at in m.tree && m.tree[at].File? ensures exists l :: l in m.locations && PlaceOf(m.cwd, l) <= at {
        var source := SomeSource(m);
        FileServed(m, source, at);
        assert InLocation(m, JoinPath(ResolveSource(m, source).value, Spell(at)));
      }
    }
  }

  lemma ServedPlace(m: Machine, path: string)
    requires Lookup(m, path).Some?
    ensures PlaceOf(m.cwd, path) in m.tree && Lookup(m, path).value == m.tree[PlaceOf(m.cwd, path)]
  {
    ReachIsWalk(m.tree, Start(m.cwd, path), Parts(path));
  }

  lemma TopReached(m: Machine, s: string)
    requires IsTree(m.tree) && s == "/" && Parts(s) == []
    ensures IsDir(m, s)
  {
    assert Reach(m.tree, [], Parts(s)) == Some([]);
  }

  /** Some source is always accepted. */
  lemma SomeSource(m: Machine) returns (source: string)
    requires IsTree(m.tree)
    ensures ResolveSource(m, source).Some?
  {
    source := if m.locations == [] then "/" else m.locations[0];
    if m.locations == [] {
      TopPlace(m.cwd);
      TopReached(m, source);
    }
  }

  lemma FileServed(m: Machine, source: string, at: Place)
    requires IsTree(m.tree) && at in m.tree && m.tree[at].File? && ResolveSource(m, source).Some?
    ensures Spell(at) != "" && Serve(m, source, Spell(at)) == Serves(m.tree[at].content)
    ensures PlaceOf(m.cwd, JoinPath(ResolveSource(m, source).value, Spell(at))) == at
  {
    hide ResolveSource, Parts, Reach, Walk, ToPosixPath;
    assert at != [];
    Spelled(m.tree, at);
    ReachDown(m.tree, at);
    ReachIsWalk(m.tree, [], Down(at));
    assert Rooted(Spell(at)) && Start(m.cwd, Spell(at)) == [];
    assert Lookup(m, Spell(at)) == Some(m.tree[at]);
  }

  // ---------------------------------------------------------------- inputs

  /** A path below the root, spelled out. */
  lemma PartsOf(p: Path)
    requires IsBelow(p) && p != []
    ensures Parts("/" + ToPosixPath(p)) == p
  {
    hide Components, Split;
    var segments := Segments(p);
    assert |segments| == |p|;
    ComponentsOfSegments(p);
    SegmentsHaveNoSlash(p);
    SplitJoin(segments, '/');
    BehindSlash(ToPosixPath(p));
  }

  lemma TwoParts(a: Component, b: Component)
    requires IsBelow([a, b])
    ensures Parts("/" + Segment(a) + "/" + Segment(b)) == [a, b]
  {
    var p := [a, b];
    assert Segments(p) == [Segment(a), Segment(b)] && Segments(p)[1..] == [Segment(b)];
    assert Join([Segment(b)], '/') == Segment(b);
    assert Join(Segments(p), '/') == Segment(a) + ['/'] + Segment(b);
    assert "/" + Segment(a) + "/" + Segment(b) == "/" + ToPosixPath(p);
    PartsOf(p);
  }

  lemma TwoSteps(at: Place, a: Component, b: Component)
    ensures Walk(at, [a, b]) == Step(Step(at, a), b)
  {
    assert [a, b][..1] == [a] && [a][..0] == [];
    assert Walk(at, [a]) == Step(at, a);
  }

  lemma Pair(cwd: Place, a: string, b: string)
    requires IsName(a) && IsName(b)
    ensures PlaceOf(cwd, "/" + a + "/" + b) == [a, b]
  {
    TwoParts(Normal(a), Normal(b));
    hide Parts;
    TwoSteps([], Normal(a), Normal(b));
    assert Rooted("/" + a + "/" + b);
  }

  lemma PairClimbed(cwd: Place, a: string, b: string, c: string)
    requires IsName(a) && IsName(b) && IsName(c)
    ensures PlaceOf(cwd, "/" + a + "/" + b + ("/../" + c)) == [a, c]
  {
    Pair(cwd, a, b);
    TwoParts(Parent, Normal(c));
    assert "/" + ".." + "/" + c == "/../" + c == "/" + ("../" + c);
    BehindSlash("../" + c);
    hide Parts, Split, Walk, PlaceOf, LastPart, FirstPart, Components;
    assert !Glued("/" + a + "/" + b, "/../" + c);
    PlaceOfConcat(cwd, "/" + a + "/" + b, "/../" + c);
    TwoSteps([a, b], Parent, Normal(c));
    assert [a, b][..1] == [a];
  }

  lemma OneLocation(m: Machine, location: string, source: string)
    requires m.locations == [location]
    ensures InLocation(m, source) <==> PlaceOf(m.cwd, location) <= PlaceOf(m.cwd, source)
    ensures SpelledAlike(source, location) ==> ResolveSource(m, source) == Some(source)
  {
    hide PlaceOf, NormPath, IsDir;
    assert location in m.locations;
  }

  lemma OtherPair(a: string, b: string, c: string, d: string)
    ensures [a, b] <= [c, d] <==> a == c && b == d
  {
    assert [a, b][0] == a && [a, b][1] == b && [c, d][0] == c && [c, d][1] == d;
  }

  /** A sibling whose name only begins like the location's is accepted, and lies outside: "/mnt/assets2" beside
      "/mnt/assets". */
  lemma SiblingServed(m: Machine, a: string, b: string, more: string)
    requires m.locations == ["/" + a + "/" + b] && IsName(a) && IsName(b) && IsName(b + more) && more != ""
    ensures var source := "/" + a + "/" + b + more;
      ResolveSource(m, source) == Some(source) && !InLocation(m, source)
  {
    var location := "/" + a + "/" + b;
    Pair(m.cwd, a, b);
    Pair(m.cwd, a, b + more);
    assert "/" + a + "/" + (b + more) == location + more;
    hide PlaceOf, ResolveSource, InLocation;
    OneLocation(m, location, location + more);
    assert |b + more| > |b|;
    OtherPair(a, b, a, b + more);
  }

  /** A source that begins with the location and climbs out of it is accepted, and lies outside unless it comes back:
      "/mnt/assets/../other" under "/mnt/assets". */
  lemma ClimberServed(m: Machine, a: string, b: string, c: string)
    requires m.locations == ["/" + a + "/" + b] && IsName(a) && IsName(b) && IsName(c)
    ensures var source := "/" + a + "/" + b + ("/../" + c);
      ResolveSource(m, source) == Some(source) && (InLocation(m, source) <==> b == c)
  {
    var location := "/" + a + "/" + b;
    Pair(m.cwd, a, b);
    PairClimbed(m.cwd, a, b, c);
    hide PlaceOf, ResolveSource, InLocation;
    assert location <= location + ("/../" + c);
    OneLocation(m, location, location + ("/../" + c));
    OtherPair(a, b, a, c);
  }

  /** The empty source, which stands for a missing one, is accepted, and lies in the location only if the agent runs
      there. */
  lemma EmptySourceServed(m: Machine, location: string)
    requires m.locations == [location]
    ensures ResolveSource(m, "") == Some("") && (InLocation(m, "") <==> PlaceOf(m.cwd, location) <= m.cwd)
  {
    NoParts(m.cwd, "", "");
    hide PlaceOf, ResolveSource, InLocation;
    OneLocation(m, location, "");
  }

  /** And from the location itself, a rooted relative path replaces it, and one that climbs leaves it. */
  lemma RelativeLeaves(m: Machine, a: string, b: string, c: string, d: string)
    requires m.locations == ["/" + a + "/" + b] && IsName(a) && IsName(b) && IsName(c) && IsName(d)
    ensures var root := "/" + a + "/" + b;
      && (InLocation(m, JoinPath(root, "/" + c + "/" + d)) <==> a == c && b == d)
      && (InLocation(m, JoinPath(root, "../" + c)) <==> b == c)
  {
    var root := "/" + a + "/" + b;
    Pair(m.cwd, a, b);
    Pair(m.cwd, c, d);
    PairClimbed(m.cwd, a, b, c);
    JoinedBehind(root, "/" + c + "/" + d, "../" + c);
    assert root[|root| - 1] == b[|b| - 1];
    assert root + "/" + ("../" + c) == root + ("/../" + c);
    hide PlaceOf, InLocation, JoinPath;
    OneLocation(m, root, "/" + c + "/" + d);
    OneLocation(m, root, root + ("/../" + c));
    OtherPair(a, b, c, d);
    OtherPair(a, b, a, c);
  }

  lemma JoinedBehind(root: string, rooted: string, relative: string)
    requires root != "" && Rooted(rooted) && !Rooted(relative)
    ensures JoinPath(root, rooted) == rooted
    ensures root[|root| - 1] != '/' ==> JoinPath(root, relative) == root + "/" + relative
  {
  }

  /** A source written as a location, a separator and more, and a relative path that is not rooted: as long as neither
      climbs, the file lies in the location. */
  lemma PlainRequestsInside(m: Machine, location: string, rest: string, relative: string)
    requires location in m.locations && location != "" && !Rooted(relative)
    requires Overshoot([], Parts(rest)) == 0 && Overshoot([], Parts(relative)) == 0
    ensures var source := location + "/" + rest;
      ResolveSource(m, source).Some? && InLocation(m, JoinPath(ResolveSource(m, source).value, relative))
  {
    hide PlaceOf, Parts, ResolveSource, JoinPath, IsDir, NormPath, Overshoot, Walk;
    var source := location + "/" + rest;
    assert source == location + ("/" + rest) && location <= source && source[|location|..] == "/" + rest;
    assert Matches(source, location);
    RootOfSource(m, source);
    BehindSlash(rest);
    hide Parts;
    GuardExactly(m.cwd, source, location);
    assert Guard(m.cwd, source, location);
    FileInsideExactly(m, source, relative);
    assert LeadsInto(PlaceOf(m.cwd, source), PlaceOf(m.cwd, location), Parts(relative));
  }
}
