/** Grouping asset paths under common roots, by the most specific LOCAL location that contains them. */
module Grouping {
  import opened Wrappers
  import opened Strings
  import opened Paths
  import opened Ordering
  import opened Locations
  import Codec

  datatype Role = Input | Output | Reference

  datatype AssetRootGroup = AssetRootGroup(
    rootPath: Path, inputs: set<Path>, outputs: set<Path>, references: set<Path>, locationName: Option<string>)

  /** What grouping consults: LOCAL locations with the order their hash map is visited in, SHARED locations,
      and the current directory. */
  datatype Context = Context(order: seq<string>, names: map<string, string>, shared: set<string>, cwd: Option<Path>)

  ghost predicate ContextValid(c: Context) {
    Visits(c.order, c.names.Keys) && IsDirectory(c.cwd)
  }

  /** `normalize_path`: if there is no current directory a relative path stays relative. */
  function NormalizePath(c: Context, path: Path): Path {
    var absPath := ToAbsolute(path, c.cwd);
    Normalize(if absPath.Ok? then absPath.value else path)
  }

  predicate IsUnderShared(c: Context, path: Path) { exists l :: l in c.shared && StartsWith(path, l) }

  /** `find_root_for_path`: the group's key and its location name. */
  function FindRoot(c: Context, path: Path): (string, Option<string>)
    requires ContextValid(c)
  {
    LongestIsMaximal(path, c.order);
    var matched := Longest(path, c.order);
    if matched.Some? then (matched.value, Some(c.names[matched.value]))
    else (if path == [] then "" else Segment(path[0]), None)
  }

  // ---------------------------------------------------------------- the grouping

  function Insert(g: AssetRootGroup, role: Role, path: Path): AssetRootGroup {
    match role
    case Input => g.(inputs := g.inputs + {path})
    case Output => g.(outputs := g.outputs + {path})
    case Reference => g.(references := g.references + {path})
  }

  /** The paths of each role, normalised, without those under a SHARED location. */
  datatype Assets = Assets(inputs: set<Path>, outputs: set<Path>, references: set<Path>)

  function All(a: Assets): set<Path> { a.inputs + a.outputs + a.references }

  function Add(a: Assets, role: Role, path: Path): Assets {
    match role
    case Input => a.(inputs := a.inputs + {path})
    case Output => a.(outputs := a.outputs + {path})
    case Reference => a.(references := a.references + {path})
  }

  function Under(c: Context, key: string, paths: set<Path>): set<Path>
    requires ContextValid(c)
  {
    set p | p in paths && FindRoot(c, p).0 == key
  }

  function LocationName(c: Context, key: string): Option<string> {
    if key in c.names then Some(c.names[key]) else None
  }

  /** What the groups must be: keyed by root, holding exactly the paths with that root. */
  function Grouped(c: Context, a: Assets): map<string, AssetRootGroup>
    requires ContextValid(c)
  {
    map key | key in (set p | p in All(a) :: FindRoot(c, p).0) ::
      GroupAt(c, a, key)
  }

  function GroupAt(c: Context, a: Assets, key: string): AssetRootGroup
    requires ContextValid(c)
  {
    AssetRootGroup([], Under(c, key, a.inputs), Under(c, key, a.outputs), Under(c, key, a.references),
      LocationName(c, key))
  }

  lemma NormalizedIsWellFormed(c: Context, path: Path)
    requires ContextValid(c) && WellFormed(path)
    ensures WellFormed(NormalizePath(c, path)) && IsNormal(NormalizePath(c, path))
    ensures c.cwd.Some? || IsAbsolute(path) ==> IsAbsolute(NormalizePath(c, path))
  {
    hide Normalize, IsNormal;
    NormalizedExactly(if ToAbsolute(path, c.cwd).Ok? then ToAbsolute(path, c.cwd).value else path);
  }

  /** A path names the location of its group exactly when the group's key is a location. */
  lemma RootNamed(c: Context, path: Path)
    requires ContextValid(c) && WellFormed(path)
    ensures FindRoot(c, path).1 == LocationName(c, FindRoot(c, path).0)
  {
    hide Longest, Parse;
    LongestIsMaximal(path, c.order);
    if Longest(path, c.order).None? {
      var top := if path == [] then [] else path[..1];
      ParsePosixPath(top);
      if path == [] { JoinFew(""); } else { JoinFew(Segment(path[0])); assert Segments(top) == [Segment(path[0])]; }
      assert StartsWith(path, FindRoot(c, path).0);
    }
  }

  lemma AddAt(c: Context, a: Assets, role: Role, path: Path, key: string)
    requires ContextValid(c)
    ensures GroupAt(c, Add(a, role, path), key) ==
              if FindRoot(c, path).0 == key then Insert(GroupAt(c, a, key), role, path) else GroupAt(c, a, key)
  {
    hide FindRoot;
    UnderAdd(c, key, a.inputs, path);
    UnderAdd(c, key, a.outputs, path);
    UnderAdd(c, key, a.references, path);
  }

  lemma UnderAdd(c: Context, key: string, paths: set<Path>, path: Path)
    requires ContextValid(c)
    ensures Under(c, key, paths + {path}) == Under(c, key, paths) + if FindRoot(c, path).0 == key then {path} else {}
  {
    hide FindRoot;
  }

  lemma EmptyAt(c: Context, a: Assets, key: string)
    requires ContextValid(c) && key !in Grouped(c, a)
    ensures GroupAt(c, a, key) == AssetRootGroup([], {}, {}, {}, LocationName(c, key))
  {
    hide FindRoot;
    assert forall p | p in All(a) :: FindRoot(c, p).0 != key;
    assert Under(c, key, a.inputs) == Under(c, key, a.outputs) == Under(c, key, a.references) == {};
  }

  lemma AllAdd(a: Assets, role: Role, path: Path)
    ensures All(Add(a, role, path)) == All(a) + {path}
  {
  }

  lemma InsertKeepsGrouped(c: Context, a: Assets, role: Role, path: Path)
    requires ContextValid(c) && WellFormed(path)
    ensures var m, root := Grouped(c, a), FindRoot(c, path);
      var g := if root.0 in m then m[root.0] else AssetRootGroup([], {}, {}, {}, root.1);
      Grouped(c, Add(a, role, path)) == m[root.0 := Insert(g, role, path)]
  {
    hide FindRoot, Add, All, Insert, GroupAt;
    RootNamed(c, path);
    AllAdd(a, role, path);
    var a', key := Add(a, role, path), FindRoot(c, path).0;
    if key !in Grouped(c, a) { EmptyAt(c, a, key); }
    forall k | k in Grouped(c, a')
      ensures Grouped(c, a')[k] == if key == k then Insert(GroupAt(c, a, k), role, path) else GroupAt(c, a, k)
    {
      AddAt(c, a, role, path, k);
    }
    assert path in All(a');
  }

  /** The normalised paths that are not under a SHARED location. */
  function Kept(c: Context, paths: seq<Path>): set<Path> {
    set i | 0 <= i < |paths| && !IsUnderShared(c, NormalizePath(c, paths[i])) :: NormalizePath(c, paths[i])
  }

  function AddKept(c: Context, a: Assets, role: Role, paths: seq<Path>): Assets {
    match role
    case Input => a.(inputs := a.inputs + Kept(c, paths))
    case Output => a.(outputs := a.outputs + Kept(c, paths))
    case Reference => a.(references := a.references + Kept(c, paths))
  }

  lemma KeptExtends(c: Context, a: Assets, role: Role, paths: seq<Path>, i: nat)
    requires i < |paths|
    ensures var p := NormalizePath(c, paths[i]);
      AddKept(c, a, role, paths[..i + 1]) ==
        if IsUnderShared(c, p) then AddKept(c, a, role, paths[..i]) else Add(AddKept(c, a, role, paths[..i]), role, p)
  {
    hide NormalizePath, IsUnderShared;
    var p := NormalizePath(c, paths[i]);
    var before, after := Kept(c, paths[..i]), Kept(c, paths[..i + 1]);
    assert after == if IsUnderShared(c, p) then before else before + {p} by {
      assert forall j | 0 <= j < i :: paths[..i + 1][j] == paths[..i][j] == paths[j];
      assert paths[..i + 1][i] == paths[i];
    }
  }

  /** One of the three loops: normalise, skip what is shared, insert into the group of its root. */
  method InsertPaths(c: Context, ghost a: Assets, groupings: map<string, AssetRootGroup>, role: Role, paths: seq<Path>)
    returns (result: map<string, AssetRootGroup>)
    requires ContextValid(c) && groupings == Grouped(c, a) && forall p | p in paths :: WellFormed(p)
    ensures result == Grouped(c, AddKept(c, a, role, paths))
  {
    hide Grouped, AddKept, Add, Insert, FindRoot, IsUnderShared, NormalizePath;
    result := groupings;
    assert AddKept(c, a, role, paths[..0]) == a by { KeptNothing(c, a, role, paths[..0]); }
    for i := 0 to |paths|
      invariant result == Grouped(c, AddKept(c, a, role, paths[..i]))
    {
      var absPath := NormalizePath(c, paths[i]);
      KeptExtends(c, a, role, paths, i);
      if IsUnderShared(c, absPath) { continue; }
      var root := FindRoot(c, absPath);
      NormalizedIsWellFormed(c, paths[i]);
      InsertKeepsGrouped(c, AddKept(c, a, role, paths[..i]), role, absPath);
      var group := if root.0 in result then result[root.0] else AssetRootGroup([], {}, {}, {}, root.1);
      result := result[root.0 := Insert(group, role, absPath)];
    }
    assert paths[..|paths|] == paths;
  }

  lemma KeptNothing(c: Context, a: Assets, role: Role, paths: seq<Path>)
    requires paths == []
    ensures AddKept(c, a, role, paths) == a
  {
    assert Kept(c, paths) == {};
  }

  // ---------------------------------------------------------------- common_path

  /** How many leading components two paths share. */
  function Matching(a: Path, b: Path): (n: nat)
    ensures n <= |a| && forall m | 0 <= m <= |a| :: a[..m] <= b <==> m <= n
  {
    if a == [] || b == [] || a[0] != b[0] then
      assert forall m | 0 < m <= |a| :: a[..m][0] == a[0];
      0
    else
      var n := Matching(a[1..], b[1..]);
      assert forall m | 0 < m <= |a| :: a[..m] <= b <==> a[1..][..m - 1] <= b[1..] by {
        forall m | 0 < m <= |a| ensures a[..m] <= b <==> a[1..][..m - 1] <= b[1..] {
          assert a[..m] == [a[0]] + a[1..][..m - 1] && b == [b[0]] + b[1..];
        }
      }
      1 + n
  }

  ghost predicate IsCommon(q: Path, paths: set<Path>) { forall p | p in paths :: q <= p }

  ghost predicate LongestCommon(q: Path, paths: set<Path>) {
    IsCommon(q, paths) && forall r | IsCommon(r, paths) :: |r| <= |q|
  }

  lemma LongestCommonUnique(q: Path, r: Path, paths: set<Path>)
    requires paths != {} && LongestCommon(q, paths) && LongestCommon(r, paths)
    ensures q == r
  {
    var p :| p in paths;
    assert q == p[..|q|] && r == p[..|r|];
  }

  function ParentOf(p: Path): Option<Path> {
    if p == [] || p[|p| - 1].Root? then None else Some(p[..|p| - 1])
  }

  /** What `common_path` makes of the longest common prefix of several paths. */
  function CommonResult(q: Path, isFile: Path -> bool): Option<Path> {
    if q == [] then None else if isFile(q) then ParentOf(q) else Some(q)
  }

  function SetOf(paths: seq<Path>): set<Path> { set p | p in paths }

  method CommonPath(paths: seq<Path>, isFile: Path -> bool) returns (r: Option<Path>)
    ensures |paths| == 0 ==> r == None
    ensures |paths| == 1 ==> r == Some(paths[0])
    ensures |paths| > 1 ==> exists q :: LongestCommon(q, SetOf(paths)) && r == CommonResult(q, isFile)
  {
    if |paths| == 0 { return None; }
    if |paths| == 1 { return Some(paths[0]); }
    var first := paths[0];
    var commonCount: nat := |first|;
    for i := 1 to |paths|
      invariant commonCount <= |first|
      invariant forall j | 0 <= j < i :: first[..commonCount] <= paths[j]
      invariant forall m | commonCount < m <= |first| :: exists j | 0 <= j < i :: !(first[..m] <= paths[j])
    {
      var matching := Matching(first, paths[i]);
      forall m | 0 <= m <= |first| ensures first[..m] <= paths[i] <==> m <= matching {
      }
      forall j | 0 <= j < i && matching < commonCount ensures first[..matching] <= paths[j] {
        assert first[..matching] <= first[..commonCount];
      }
      commonCount := if matching < commonCount then matching else commonCount;
    }
    var common := first[..commonCount];
    CommonIsLongest(paths, commonCount);
    if commonCount == 0 { return None; }
    if isFile(common) { return ParentOf(common); }
    r := Some(common);
  }

  lemma CommonIsLongest(paths: seq<Path>, n: nat)
    requires |paths| > 0 && n <= |paths[0]|
    requires forall j | 0 <= j < |paths| :: paths[0][..n] <= paths[j]
    requires forall m | n < m <= |paths[0]| :: exists j | 0 <= j < |paths| :: !(paths[0][..m] <= paths[j])
    ensures LongestCommon(paths[0][..n], SetOf(paths))
  {
    forall r | IsCommon(r, SetOf(paths)) ensures |r| <= n {
      forall j | 0 <= j < |paths| ensures r <= paths[j] {
        assert paths[j] in SetOf(paths);
      }
      assert r == paths[0][..|r|];
    }
  }

  // ---------------------------------------------------------------- group roots

  /** The root of a group whose paths have longest common prefix `q`; `single` if there is one path, in one role. */
  function RootFrom(q: Path, single: bool, isFile: Path -> bool): Path {
    var common := if single then Some(q) else CommonResult(q, isFile);
    if common.None? then []
    else if isFile(common.value) then ParentOf(common.value).GetOr(common.value)
    else common.value
  }

  lemma RootIsPrefix(q: Path, single: bool, isFile: Path -> bool)
    ensures RootFrom(q, single, isFile) <= q
  {
  }

  function Members(g: AssetRootGroup): set<Path> { g.inputs + g.outputs + g.references }

  predicate OnlyPath(g: AssetRootGroup, p: Path) {
    || (g.inputs == {p} && g.outputs == {} && g.references == {})
    || (g.inputs == {} && g.outputs == {p} && g.references == {})
    || (g.inputs == {} && g.outputs == {} && g.references == {p})
  }

  /** The group holds one path, in one role. */
  ghost predicate IsSingle(g: AssetRootGroup) { exists p :: OnlyPath(g, p) }

  lemma OneElement(s: set<Path>) returns (p: Path)
    requires |s| == 1
    ensures s == {p}
  {
    p :| p in s;
    assert |s - {p}| == 0;
    assert s == {p} + (s - {p});
  }

  lemma SingleCounted(g: AssetRootGroup)
    ensures |g.inputs| + |g.outputs| + |g.references| == 1 <==> IsSingle(g)
  {
    if |g.inputs| + |g.outputs| + |g.references| == 1 {
      var all := if |g.inputs| == 1 then g.inputs else if |g.outputs| == 1 then g.outputs else g.references;
      var p := OneElement(all);
      assert OnlyPath(g, p);
    }
  }

  /** `g` with the root its members call for. */
  ghost predicate Rooted(g: AssetRootGroup, rooted: AssetRootGroup, isFile: Path -> bool) {
    exists q :: LongestCommon(q, Members(g)) && rooted == g.(rootPath := RootFrom(q, IsSingle(g), isFile))
  }

  method Listed(paths: set<Path>) returns (list: seq<Path>)
    ensures |list| == |paths| && SetOf(list) == paths
  {
    list := [];
    var rest := paths;
    while rest != {}
      invariant rest <= paths && SetOf(list) == paths - rest && |list| + |rest| == |paths|
      decreases rest
    {
      var p :| p in rest;
      ghost var before := list;
      list := list + [p];
      assert SetOf(list) == SetOf(before) + {p};
      rest := rest - {p};
    }
  }

  method RootGroup(g: AssetRootGroup, isFile: Path -> bool) returns (rooted: AssetRootGroup)
    requires Members(g) != {}
    ensures Rooted(g, rooted, isFile)
  {
    hide LongestCommon, CommonResult, RootFrom, IsSingle;
    SingleCounted(g);
    var inputs := Listed(g.inputs);
    var outputs := Listed(g.outputs);
    var references := Listed(g.references);
    var allPaths := inputs + outputs + references;
    MembersListed(g, inputs, outputs, references);
    var common := CommonPath(allPaths, isFile);
    var root: Path := [];
    if common.Some? {
      root := if isFile(common.value) then ParentOf(common.value).GetOr(common.value) else common.value;
    }
    rooted := g.(rootPath := root);
    if |allPaths| == 1 { OneCommon(allPaths); }
    CommonGivesRoot(Members(g), |allPaths| == 1, common, root, isFile);
  }

  lemma MembersListed(g: AssetRootGroup, inputs: seq<Path>, outputs: seq<Path>, references: seq<Path>)
    requires SetOf(inputs) == g.inputs && SetOf(outputs) == g.outputs && SetOf(references) == g.references
    ensures SetOf(inputs + outputs + references) == Members(g)
    ensures Members(g) != {} ==> |inputs + outputs + references| > 0
  {
    forall p ensures p in SetOf(inputs + outputs + references) <==> p in Members(g) {
      assert p in SetOf(inputs + outputs + references) <==> p in inputs || p in outputs || p in references;
      assert p in inputs <==> p in SetOf(inputs);
      assert p in outputs <==> p in SetOf(outputs);
      assert p in references <==> p in SetOf(references);
    }
  }

  lemma OneCommon(paths: seq<Path>)
    requires |paths| == 1
    ensures LongestCommon(paths[0], SetOf(paths))
  {
    assert paths[0] in SetOf(paths) && SetOf(paths) == {paths[0]};
  }

  lemma CommonGivesRoot(members: set<Path>, single: bool, common: Option<Path>, root: Path, isFile: Path -> bool)
    requires single ==> common.Some? && LongestCommon(common.value, members)
    requires !single ==> exists q :: LongestCommon(q, members) && common == CommonResult(q, isFile)
    requires root == if common.None? then []
                     else if isFile(common.value) then ParentOf(common.value).GetOr(common.value) else common.value
    ensures exists q :: LongestCommon(q, members) && root == RootFrom(q, single, isFile)
  {
    hide LongestCommon;
    if single {
      assert root == RootFrom(common.value, single, isFile);
    } else {
      var q :| LongestCommon(q, members) && common == CommonResult(q, isFile);
      assert root == RootFrom(q, single, isFile);
    }
  }

  // ---------------------------------------------------------------- group_asset_paths

  /** Groups sort by root path, then by location name; a missing name comes first. */
  function GroupKey(g: AssetRootGroup): seq<int> {
    Codec.CodePoints(Display(g.rootPath)) + [-1] +
    (if g.locationName.Some? then [0] + Codec.CodePoints(g.locationName.value) else [])
  }

  ghost predicate AllRooted(groupings: map<string, AssetRootGroup>, rooted: map<string, AssetRootGroup>,
                            isFile: Path -> bool) {
    && rooted.Keys == groupings.Keys
    && forall key {:trigger Rooted(groupings[key], rooted[key], isFile)} | key in groupings ::
        Rooted(groupings[key], rooted[key], isFile)
  }

  function ValuesAt<T>(m: map<string, T>, keys: seq<string>): seq<T>
    requires forall k | k in keys :: k in m
  {
    seq(|keys|, i requires 0 <= i < |keys| => m[keys[i]])
  }

  /** `list` holds the values of `m`, each once, sorted. */
  ghost predicate Lists(list: seq<AssetRootGroup>, m: map<string, AssetRootGroup>) {
    exists keys: seq<string> ::
      && (forall k :: k in keys <==> k in m) && (forall i, j | 0 <= i < j < |keys| :: keys[i] != keys[j])
      && list == Sort(ValuesAt(m, keys), GroupKey)
  }

  /** `groups` is a result of grouping these assets. */
  ghost predicate IsResult(c: Context, a: Assets, groups: seq<AssetRootGroup>, isFile: Path -> bool)
    requires ContextValid(c)
  {
    exists byKey :: AllRooted(Grouped(c, a), byKey, isFile) && Lists(groups, byKey)
  }

  function AssetsOf(c: Context, inputs: seq<Path>, outputs: seq<Path>, references: seq<Path>): Assets {
    Assets(Kept(c, inputs), Kept(c, outputs), Kept(c, references))
  }

  /** `group_asset_paths`. */
  method GroupAssetPaths(c: Context, inputs: seq<Path>, outputs: seq<Path>, references: seq<Path>, isFile: Path -> bool)
    returns (groups: seq<AssetRootGroup>)
    requires ContextValid(c) && forall p | p in inputs + outputs + references :: WellFormed(p)
    ensures IsResult(c, AssetsOf(c, inputs, outputs, references), groups, isFile)
  {
    hide Grouped, AllRooted, Lists, AddKept, ContextValid, WellFormed;
    var none := Assets({}, {}, {});
    NothingGrouped(c);
    AddKeptAll(c, inputs, outputs, references);
    var groupings := InsertPaths(c, none, map[], Input, inputs);
    groupings := InsertPaths(c, AddKept(c, none, Input, inputs), groupings, Output, outputs);
    groupings := InsertPaths(
      c, AddKept(c, AddKept(c, none, Input, inputs), Output, outputs), groupings, Reference, references);
    var rooted: map<string, AssetRootGroup>, keys: seq<string>
      := RootAll(c, AssetsOf(c, inputs, outputs, references), groupings, isFile);
    groups := Sort(ValuesAt(rooted, keys), GroupKey);
    SortedLists(rooted, keys);
  }

  lemma NothingGrouped(c: Context)
    requires ContextValid(c)
    ensures Grouped(c, Assets({}, {}, {})) == map[]
  {
  }

  lemma AddKeptAll(c: Context, inputs: seq<Path>, outputs: seq<Path>, references: seq<Path>)
    ensures AddKept(c, AddKept(c, AddKept(c, Assets({}, {}, {}), Input, inputs), Output, outputs), Reference,
            references)
         == AssetsOf(c, inputs, outputs, references)
  {
  }

  lemma SortedLists(m: map<string, AssetRootGroup>, keys: seq<string>)
    requires (forall k :: k in keys <==> k in m) && (forall i, j | 0 <= i < j < |keys| :: keys[i] != keys[j])
    ensures Lists(Sort(ValuesAt(m, keys), GroupKey), m)
  {
  }

  /** The roots are computed group by group, in whatever order the map yields them. */
  method RootAll(ghost c: Context, ghost a: Assets, groupings: map<string, AssetRootGroup>, isFile: Path -> bool)
    returns (rooted: map<string, AssetRootGroup>, keys: seq<string>)
    requires ContextValid(c) && groupings == Grouped(c, a)
    ensures AllRooted(groupings, rooted, isFile)
    ensures (forall k :: k in keys <==> k in rooted) && (forall i, j | 0 <= i < j < |keys| :: keys[i] != keys[j])
  {
    hide Rooted;
    rooted, keys := map[], [];
    var rest := groupings.Keys;
    while rest != {}
      invariant rest <= groupings.Keys && rooted.Keys == groupings.Keys - rest
      invariant forall key | key in rooted :: Rooted(groupings[key], rooted[key], isFile)
      invariant (forall k :: k in keys <==> k in rooted) && (forall i, j | 0 <= i < j < |keys| :: keys[i] != keys[j])
      decreases rest
    {
      var key :| key in rest;
      GroupNotEmpty(c, a, key);
      var group := RootGroup(groupings[key], isFile);
      rooted := rooted[key := group];
      keys := keys + [key];
      rest := rest - {key};
    }
  }

  lemma GroupNotEmpty(c: Context, a: Assets, key: string)
    requires ContextValid(c) && key in Grouped(c, a)
    ensures Members(Grouped(c, a)[key]) != {}
  {
    var p :| p in All(a) && FindRoot(c, p).0 == key;
    assert p in Members(Grouped(c, a)[key]);
  }
}
