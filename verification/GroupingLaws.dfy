/** What grouping guarantees: every asset in exactly one group and below its root, whatever the order of the input. */
module GroupingLaws {
  import opened Wrappers
  import opened Strings
  import opened Paths
  import opened Ordering
  import opened Locations
  import opened Grouping
  import Codec

  /** The members a group has in a role. */
  function Part(g: AssetRootGroup, role: Role): set<Path> {
    match role
    case Input => g.inputs
    case Output => g.outputs
    case Reference => g.references
  }

  function PathsOf(a: Assets, role: Role): set<Path> {
    match role
    case Input => a.inputs
    case Output => a.outputs
    case Reference => a.references
  }

  /** The result of grouping `a`: the groups by key, with their roots. */
  ghost predicate IsGrouping(c: Context, a: Assets, byKey: map<string, AssetRootGroup>, isFile: Path -> bool) {
    ContextValid(c) && AllRooted(Grouped(c, a), byKey, isFile)
  }

  lemma PartAt(c: Context, a: Assets, byKey: map<string, AssetRootGroup>, isFile: Path -> bool, role: Role, key: string)
    requires IsGrouping(c, a, byKey, isFile) && key in byKey
    ensures Part(byKey[key], role) == Under(c, key, PathsOf(a, role))
    ensures byKey[key].locationName == LocationName(c, key)
  {
    assert Rooted(Grouped(c, a)[key], byKey[key], isFile);
  }

  /** In each role the groups hold exactly the assets, and no asset is in two groups. */
  lemma Partition(c: Context, a: Assets, byKey: map<string, AssetRootGroup>, isFile: Path -> bool, role: Role, p: Path)
    requires IsGrouping(c, a, byKey, isFile)
    ensures p in PathsOf(a, role) <==> exists key | key in byKey :: p in Part(byKey[key], role)
    ensures forall j, k | j in byKey && k in byKey && p in Part(byKey[j], role) && p in Part(byKey[k], role) :: j == k
  {
    forall key | key in byKey
      ensures p in Part(byKey[key], role) <==> p in PathsOf(a, role) && FindRoot(c, p).0 == key
    {
      PartAt(c, a, byKey, isFile, role, key);
    }
    if p in PathsOf(a, role) {
      assert p in All(a);
      assert FindRoot(c, p).0 in Grouped(c, a);
    }
  }

  /** How the root of a group came about. */
  lemma RootOrigin(c: Context, a: Assets, byKey: map<string, AssetRootGroup>, isFile: Path -> bool, key: string)
    returns (q: Path, single: bool)
    requires IsGrouping(c, a, byKey, isFile) && key in byKey
    ensures LongestCommon(q, Members(byKey[key])) && byKey[key].rootPath == RootFrom(q, single, isFile) <= q
    ensures Members(byKey[key]) == Under(c, key, All(a)) != {}
  {
    var g := Grouped(c, a)[key];
    GroupNotEmpty(c, a, key);
    hide FindRoot, LongestCommon, RootFrom;
    assert Rooted(g, byKey[key], isFile);
    q :| LongestCommon(q, Members(g)) && byKey[key] == g.(rootPath := RootFrom(q, IsSingle(g), isFile));
    single := IsSingle(g);
    RootIsPrefix(q, single, isFile);
    MembersAt(c, a, key);
    assert Members(byKey[key]) == Members(g);
  }

  lemma MembersAt(c: Context, a: Assets, key: string)
    requires ContextValid(c)
    ensures Members(GroupAt(c, a, key)) == Under(c, key, All(a))
  {
    hide FindRoot;
  }

  /** Every member of a group lies under the group's root, and under its LOCAL location if it has one. */
  lemma MembersUnderRoot(c: Context, a: Assets, byKey: map<string, AssetRootGroup>, isFile: Path -> bool, key: string,
                         p: Path)
    requires IsGrouping(c, a, byKey, isFile) && key in byKey && p in Members(byKey[key])
    requires WellFormed(p)
    ensures byKey[key].rootPath <= p
    ensures byKey[key].locationName.Some? ==> StartsWith(p, key)
  {
    PartAt(c, a, byKey, isFile, Input, key);
    var q, single := RootOrigin(c, a, byKey, isFile, key);
    hide IsGrouping, Parse, Longest, RootFrom;
    RootNamed(c, p);
    LongestIsMaximal(p, c.order);
  }

  // ---------------------------------------------------------------- scanning a group's inputs

  /** What the file system says of a path. */
  datatype Kind = Missing | Directory | File

  datatype ScannedFile = ScannedFile(path: Path, relativePath: string)

  /** What the scanner demands of a listed file. */
  predicate Acceptable(path: Path, root: Path, cwd: Option<Path>, kindOf: Path -> Kind) {
    root <= path && (kindOf(path).Missing? || NormalizeForManifest(path, root, cwd).Ok?)
  }

  /** The listed files that exist and are no directories, with their manifest paths. */
  function ScannedFiles(files: seq<Path>, root: Path, cwd: Option<Path>, kindOf: Path -> Kind): seq<ScannedFile>
    requires forall i | 0 <= i < |files| :: Acceptable(files[i], root, cwd, kindOf)
  {
    if files == [] then []
    else
      var last := files[|files| - 1];
      assert Acceptable(files[|files| - 1], root, cwd, kindOf);
      ScannedFiles(files[..|files| - 1], root, cwd, kindOf) +
      if kindOf(last).File? then [ScannedFile(last, NormalizeForManifest(last, root, cwd).value)] else []
  }

  /** These are, in listing order, the positions of the listed files that are there and are no directories, with their
      manifest paths. */
  ghost predicate ScannedAt(files: seq<Path>, root: Path, cwd: Option<Path>, kindOf: Path -> Kind,
                            scanned: seq<ScannedFile>, at: seq<nat>) {
    && |at| == |scanned| && (forall j, k | 0 <= j < k < |at| :: at[j] < at[k])
    && (forall k | 0 <= k < |at| ::
          && at[k] < |files| && scanned[k].path == files[at[k]]
          && NormalizeForManifest(files[at[k]], root, cwd) == Ok(scanned[k].relativePath))
    && (forall i: nat :: i in at <==> i < |files| && kindOf(files[i]) == File)
  }

  /** Which files are scanned. */
  lemma {:induction false} ScannedExactly(files: seq<Path>, root: Path, cwd: Option<Path>, kindOf: Path -> Kind)
    returns (at: seq<nat>)
    requires forall i | 0 <= i < |files| :: Acceptable(files[i], root, cwd, kindOf)
    ensures ScannedAt(files, root, cwd, kindOf, ScannedFiles(files, root, cwd, kindOf), at)
  {
    hide NormalizeForManifest, ScannedAt;
    if files == [] {
      at := [];
      NoneScanned(files, root, cwd, kindOf);
    } else {
      var n := |files| - 1;
      assert Acceptable(files[n], root, cwd, kindOf);
      var before := ScannedExactly(files[..n], root, cwd, kindOf);
      var scanned := ScannedFiles(files[..n], root, cwd, kindOf);
      if kindOf(files[n]).File? {
        var relativePath := NormalizeForManifest(files[n], root, cwd).value;
        ScannedMore(files[..n], files[n], root, cwd, kindOf, scanned, before, relativePath);
        at := before + [n];
        assert ScannedFiles(files, root, cwd, kindOf) == scanned + [ScannedFile(files[n], relativePath)];
      } else {
        ScannedSame(files[..n], files[n], root, cwd, kindOf, scanned, before);
        at := before;
        assert ScannedFiles(files, root, cwd, kindOf) == scanned;
      }
      assert files[..n] + [files[n]] == files;
    }
  }

  lemma NoneScanned(files: seq<Path>, root: Path, cwd: Option<Path>, kindOf: Path -> Kind)
    requires files == []
    ensures ScannedAt(files, root, cwd, kindOf, ScannedFiles(files, root, cwd, kindOf), [])
  {
  }

  lemma ScannedSame(files: seq<Path>, last: Path, root: Path, cwd: Option<Path>, kindOf: Path -> Kind,
                    scanned: seq<ScannedFile>, at: seq<nat>)
    requires ScannedAt(files, root, cwd, kindOf, scanned, at) && kindOf(last) != File
    ensures ScannedAt(files + [last], root, cwd, kindOf, scanned, at)
  {
    hide NormalizeForManifest;
  }

  lemma ScannedMore(files: seq<Path>, last: Path, root: Path, cwd: Option<Path>, kindOf: Path -> Kind,
                    scanned: seq<ScannedFile>, at: seq<nat>, relativePath: string)
    requires ScannedAt(files, root, cwd, kindOf, scanned, at) && kindOf(last) == File
    requires NormalizeForManifest(last, root, cwd) == Ok(relativePath)
    ensures ScannedAt(files + [last], root, cwd, kindOf, scanned + [ScannedFile(last, relativePath)], at + [|files|])
  {
    hide NormalizeForManifest;
    var longer := at + [|files|];
    forall j, k | 0 <= j < k < |longer| ensures longer[j] < longer[k] {
      if k == |at| { assert at[j] in at; }
    }
    forall i: nat ensures i in longer <==> i < |files| + 1 && kindOf((files + [last])[i]) == File {
      assert i in longer <==> i in at || i == |files|;
    }
  }

  /** `entries_from_file_list`: fails exactly when a listed file is outside the root or gets no manifest path. */
  method EntriesFromFileList(inputFiles: seq<Path>, root: Path, cwd: Option<Path>, kindOf: Path -> Kind)
    returns (r: Result<seq<ScannedFile>, PathError>)
    ensures r.Ok? <==> forall i | 0 <= i < |inputFiles| :: Acceptable(inputFiles[i], root, cwd, kindOf)
    ensures r.Ok? ==> r.value == ScannedFiles(inputFiles, root, cwd, kindOf)
  {
    hide NormalizeForManifest;
    var files: seq<ScannedFile> := [];
    for i := 0 to |inputFiles|
      invariant forall j | 0 <= j < i :: Acceptable(inputFiles[j], root, cwd, kindOf)
      invariant files == ScannedFiles(inputFiles[..i], root, cwd, kindOf)
    {
      var path := inputFiles[i];
      assert inputFiles[..i + 1][..i] == inputFiles[..i];
      if !(root <= path) { return Err(PathOutsideRoot(path, root)); }
      if kindOf(path).Missing? { continue; }
      var relativePath := NormalizeForManifest(path, root, cwd);
      if relativePath.Err? { return Err(relativePath.error); }
      if kindOf(path).File? { files := files + [ScannedFile(path, relativePath.value)]; }
    }
    assert inputFiles[..|inputFiles|] == inputFiles;
    r := Ok(files);
  }

  /** The root of a group of absolute paths is absolute, as long as the top directory is not a file. */
  lemma RootIsAbsolute(c: Context, a: Assets, byKey: map<string, AssetRootGroup>, isFile: Path -> bool, key: string)
    requires IsGrouping(c, a, byKey, isFile) && key in byKey && !isFile([Root])
    requires forall p | p in All(a) :: WellFormed(p) && IsAbsolute(p)
    ensures IsAbsolute(byKey[key].rootPath)
  {
    var q, single := RootOrigin(c, a, byKey, isFile, key);
    hide IsGrouping, FindRoot, RootFrom, All, Members, WellFormed;
    var members := Members(byKey[key]);
    var p :| p in members;
    assert forall r | r in members :: r in All(a) && [Root] <= r;
    assert IsCommon([Root], members);
    assert q <= p && |q| >= 1 && q[0] == Root;
    PrefixIsWellFormed(p, q);
    AbsoluteRootFrom(q, single, isFile);
  }

  lemma AbsoluteRootFrom(q: Path, single: bool, isFile: Path -> bool)
    requires WellFormed(q) && IsAbsolute(q) && !isFile([Root])
    ensures IsAbsolute(RootFrom(q, single, isFile))
  {
    if |q| == 1 { assert q == [Root]; }
    if |q| == 2 { assert q[..1] == [Root]; }
  }

  lemma PrefixIsWellFormed(p: Path, q: Path)
    requires WellFormed(p) && q <= p
    ensures WellFormed(q)
  {
    assert forall i | 0 <= i < |q| :: q[i] == p[i];
  }

  lemma PrefixIsNormal(p: Path, root: Path)
    requires IsNormal(p) && root <= p
    ensures Normalize(root) == root
  {
    assert forall i | 0 <= i < |root| :: root[i] == p[i];
    NormalIsFixed(root);
  }

  /** So scanning a group's inputs against its root reports none of them outside, and each gets a manifest path
      that leads back to it. */
  lemma GroupInputsScan(c: Context, a: Assets, byKey: map<string, AssetRootGroup>, isFile: Path -> bool, key: string,
                        p: Path)
    requires IsGrouping(c, a, byKey, isFile) && key in byKey && p in byKey[key].inputs && !isFile([Root])
    requires forall r | r in All(a) :: WellFormed(r) && IsAbsolute(r) && IsNormal(r)
    ensures var root := byKey[key].rootPath; var m := NormalizeForManifest(p, root, c.cwd);
      root <= p && m.Ok? && PushAll(root, Split(m.value, '/')) == p
  {
    assert IsDirectory(c.cwd);
    hide Normalize, IsNormal, Split, PushAll, ToPosixPath, IsGrouping;
    PartInAll(c, a, byKey, isFile, key, p);
    MembersUnderRoot(c, a, byKey, isFile, key, p);
    RootIsAbsolute(c, a, byKey, isFile, key);
    var root := byKey[key].rootPath;
    PrefixIsNormal(p, root);
    PrefixIsNormal(p, p);
    PrefixIsWellFormed(p, root);
    ManifestPathRoundTrip(p, root, c.cwd);
  }

  /** In particular the scan of any list of a group's inputs succeeds. */
  lemma GroupScanSucceeds(c: Context, a: Assets, byKey: map<string, AssetRootGroup>, isFile: Path -> bool, key: string,
                          files: seq<Path>, kindOf: Path -> Kind)
    requires IsGrouping(c, a, byKey, isFile) && key in byKey && !isFile([Root])
    requires forall r | r in All(a) :: WellFormed(r) && IsAbsolute(r) && IsNormal(r)
    requires forall i | 0 <= i < |files| :: files[i] in byKey[key].inputs
    ensures forall i | 0 <= i < |files| :: Acceptable(files[i], byKey[key].rootPath, c.cwd, kindOf)
    ensures forall f | f in ScannedFiles(files, byKey[key].rootPath, c.cwd, kindOf) ::
              PushAll(byKey[key].rootPath, Split(f.relativePath, '/')) == f.path
  {
    hide IsGrouping, WellFormed, IsNormal, NormalizeForManifest, Split, PushAll;
    var root := byKey[key].rootPath;
    forall i | 0 <= i < |files|
      ensures Acceptable(files[i], root, c.cwd, kindOf)
      ensures NormalizeForManifest(files[i], root, c.cwd).Ok?
      ensures PushAll(root, Split(NormalizeForManifest(files[i], root, c.cwd).value, '/')) == files[i]
    {
      GroupInputsScan(c, a, byKey, isFile, key, files[i]);
    }
    ScannedFrom(files, root, c.cwd, kindOf);
  }

  lemma {:induction false} ScannedFrom(files: seq<Path>, root: Path, cwd: Option<Path>, kindOf: Path -> Kind)
    requires forall i | 0 <= i < |files| :: Acceptable(files[i], root, cwd, kindOf)
    ensures forall f | f in ScannedFiles(files, root, cwd, kindOf) ::
              exists i :: 0 <= i < |files| && f.path == files[i]
                && NormalizeForManifest(files[i], root, cwd) == Ok(f.relativePath)
  {
    hide NormalizeForManifest;
    if files != [] {
      var init, n := files[..|files| - 1], |files| - 1;
      ScannedFrom(init, root, cwd, kindOf);
      forall f | f in ScannedFiles(files, root, cwd, kindOf)
        ensures exists i :: 0 <= i < |files| && f.path == files[i]
                            && NormalizeForManifest(files[i], root, cwd) == Ok(f.relativePath)
      {
        if f in ScannedFiles(init, root, cwd, kindOf) {
          var i :| 0 <= i < |init| && f.path == init[i]
            && NormalizeForManifest(init[i], root, cwd) == Ok(f.relativePath);
          assert f.path == files[i];
        } else {
          assert f.path == files[n];
        }
      }
    }
  }

  lemma PartInAll(c: Context, a: Assets, byKey: map<string, AssetRootGroup>, isFile: Path -> bool, key: string, p: Path)
    requires IsGrouping(c, a, byKey, isFile) && key in byKey && p in Members(byKey[key])
    ensures p in All(a)
  {
    var q, single := RootOrigin(c, a, byKey, isFile, key);
  }

  /** Every listed path can be made absolute: it is, or the current directory is known. */
  predicate Locatable(c: Context, paths: seq<Path>) {
    forall i | 0 <= i < |paths| :: WellFormed(paths[i]) && (c.cwd.Some? || IsAbsolute(paths[i]))
  }

  /** Grouped assets are then normalised and absolute. */
  lemma KeptAreNormal(c: Context, paths: seq<Path>, p: Path)
    requires ContextValid(c) && Locatable(c, paths) && p in Kept(c, paths)
    ensures WellFormed(p) && IsNormal(p) && IsAbsolute(p)
  {
    var i :| 0 <= i < |paths| && p == NormalizePath(c, paths[i]);
    NormalizedIsWellFormed(c, paths[i]);
  }

  // ---------------------------------------------------------------- outputs of a group

  /** `replace('\\', "/")`. */
  function Slashed(s: string): string { seq(|s|, i requires 0 <= i < |s| => if s[i] == '\\' then '/' else s[i]) }

  /** The output directories of a manifest relative to its root; one outside the root is dropped. */
  function RelativeOutputs(outputs: seq<Path>, root: Path): seq<string> {
    if outputs == [] then []
    else
      var last := outputs[|outputs| - 1];
      RelativeOutputs(outputs[..|outputs| - 1], root)
      + if root <= last then [Slashed(ToPosixPath(last[|root|..]))] else []
  }

  lemma {:induction false} NoOutputDropped(outputs: seq<Path>, root: Path)
    requires forall i | 0 <= i < |outputs| :: root <= outputs[i]
    ensures |RelativeOutputs(outputs, root)| == |outputs|
    ensures forall i | 0 <= i < |outputs| ::
              RelativeOutputs(outputs, root)[i] == Slashed(ToPosixPath(outputs[i][|root|..]))
  {
    if outputs != [] {
      NoOutputDropped(outputs[..|outputs| - 1], root);
    }
  }

  /** Converting a group for submission drops none of its outputs. */
  lemma GroupOutputsKept(c: Context, a: Assets, byKey: map<string, AssetRootGroup>, isFile: Path -> bool, key: string,
                         outputs: seq<Path>)
    requires IsGrouping(c, a, byKey, isFile) && key in byKey
    requires forall i | 0 <= i < |outputs| :: outputs[i] in byKey[key].outputs && WellFormed(outputs[i])
    ensures |RelativeOutputs(outputs, byKey[key].rootPath)| == |outputs|
  {
    hide IsGrouping;
    forall i | 0 <= i < |outputs| ensures byKey[key].rootPath <= outputs[i] {
      MembersUnderRoot(c, a, byKey, isFile, key, outputs[i]);
    }
    NoOutputDropped(outputs, byKey[key].rootPath);
  }

  /** An output directory comes back from its relative path exactly when that path has
      no backslash (which POSIX allows in names, but which is rewritten to a separator). */
  lemma OutputRoundTrip(root: Path, p: Path)
    requires root != [] && root <= p && IsBelow(p[|root|..])
    ensures var rel := ToPosixPath(p[|root|..]);
      PushAll(root, Split(Slashed(rel), '/')) == p <==> '\\' !in rel
  {
    var below := p[|root|..];
    var rel := ToPosixPath(below);
    assert p == root + below;
    if '\\' !in rel {
      assert Slashed(rel) == rel;
      PosixRoundTrip(root, below);
    } else {
      var parts := Split(Slashed(rel), '/');
      NoBackslash(Slashed(rel));
      PushAllAppends(root, parts);
      if root + Components(parts) == root + below {
        assert Components(parts) == (root + Components(parts))[|root|..] == below;
        ComponentNames(parts);
        BackslashInName(below);
        assert false;
      }
    }
  }

  lemma {:induction false} NoBackslash(s: string)
    requires '\\' !in s
    ensures forall part | part in Split(s, '/') :: '\\' !in part
    decreases |s|
  {
    var k := Find(s, '/');
    if k < |s| { NoBackslash(s[k + 1..]); }
  }

  lemma {:induction false} ComponentNames(parts: seq<string>)
    ensures forall c | c in Components(parts) && c.Normal? :: c.name in parts
  {
    if parts != [] {
      ComponentNames(parts[..|parts| - 1]);
      assert parts == parts[..|parts| - 1] + [parts[|parts| - 1]];
    }
  }

  lemma {:induction false} JoinChars(parts: seq<string>, c: char)
    requires c != '/' && c in Join(parts, '/')
    ensures exists part | part in parts :: c in part
  {
    if |parts| > 1 && c !in parts[0] {
      var s := parts[0] + ['/'] + Join(parts[1..], '/');
      var i :| 0 <= i < |s| && s[i] == c;
      assert i > |parts[0]|;
      assert c == Join(parts[1..], '/')[i - |parts[0]| - 1];
      JoinChars(parts[1..], c);
    } else {
      assert parts[0] in parts;
    }
  }

  lemma BackslashInName(p: Path)
    requires '\\' in ToPosixPath(p)
    ensures exists c | c in p :: c.Normal? && '\\' in c.name
  {
    JoinChars(Segments(p), '\\');
    var part :| part in Segments(p) && '\\' in part;
    var i :| 0 <= i < |p| && part == Segment(p[i]);
    assert p[i] in p;
  }

  // ---------------------------------------------------------------- the root is the longest one

  lemma RootFromIsLongest(q: Path, single: bool, isFile: Path -> bool, r: Path)
    requires WellFormed(q) && r <= q && !isFile(r)
    ensures r <= RootFrom(q, single, isFile)
  {
    if isFile(q) && r != [] {
      var n := |q| - 1;
      assert r != q && n > 0 && !q[n].Root?;
      assert ParentOf(q) == Some(q[..n]) && r <= q[..n];
      var parent := q[..n];
      if isFile(parent) {
        assert r != parent && |r| < n;
        assert ParentOf(parent).Some? ==> r <= parent[..n - 1];
      }
    }
  }

  /** No common directory of the members is longer than the root: with `MembersUnderRoot` the root is pinned from both
      sides. */
  lemma RootIsLongest(g: AssetRootGroup, rooted: AssetRootGroup, isFile: Path -> bool, r: Path)
    requires Members(g) != {} && Rooted(g, rooted, isFile) && IsCommon(r, Members(g)) && !isFile(r)
    requires forall p | p in Members(g) :: WellFormed(p)
    ensures r <= rooted.rootPath
  {
    var q :| LongestCommon(q, Members(g)) && rooted == g.(rootPath := RootFrom(q, IsSingle(g), isFile));
    var p :| p in Members(g);
    assert r == p[..|r|] && q == p[..|q|] && |r| <= |q|;
    RootFromIsLongest(q, IsSingle(g), isFile, r);
  }

  lemma RootFromIsNoFile(q: Path, single: bool, isFile: Path -> bool)
    requires WellFormed(q) && !isFile([]) && !isFile([Root])
    requires forall k | 0 <= k < |q| :: !isFile(q[..k])
    ensures !isFile(RootFrom(q, single, isFile))
  {
    if isFile(q) {
      var n := |q| - 1;
      assert n >= 0 && !isFile(q[..n]);
      if n == 0 { assert q == [q[0]]; }
    }
  }

  /** And the root is no file, where no directory of a member is one and the top is not. */
  lemma RootIsNoFile(g: AssetRootGroup, rooted: AssetRootGroup, isFile: Path -> bool)
    requires Members(g) != {} && Rooted(g, rooted, isFile)
    requires !isFile([]) && !isFile([Root]) && forall p | p in Members(g) :: WellFormed(p)
    requires forall p, k | p in Members(g) && 0 <= k < |p| :: !isFile(p[..k])
    ensures !isFile(rooted.rootPath)
  {
    var q :| LongestCommon(q, Members(g)) && rooted == g.(rootPath := RootFrom(q, IsSingle(g), isFile));
    var p :| p in Members(g);
    assert q == p[..|q|];
    forall k | 0 <= k < |q| ensures !isFile(q[..k]) { assert q[..k] == p[..k]; }
    RootFromIsNoFile(q, IsSingle(g), isFile);
  }

  /** So of every group the grouping returned: no directory all its members are in is longer than its root. */
  lemma ResultRootIsLongest(c: Context, a: Assets, groups: seq<AssetRootGroup>, isFile: Path -> bool,
                            g: AssetRootGroup, r: Path)
    requires ContextValid(c) && IsResult(c, a, groups, isFile) && g in groups
    requires IsCommon(r, Members(g)) && !isFile(r) && forall p | p in Members(g) :: WellFormed(p)
    ensures r <= g.rootPath
    ensures Members(g) != {} && IsCommon(g.rootPath, Members(g))
  {
    hide AllRooted, Grouped, Lists, ContextValid, RootFrom;
    var byKey: map<string, AssetRootGroup> :| AllRooted(Grouped(c, a), byKey, isFile) && Lists(groups, byKey);
    ListedGroups(groups, byKey);
    var key :| key in byKey && byKey[key] == g;
    RootedAt(c, a, byKey, isFile, key);
    GroupNotEmpty(c, a, key);
    var before := Grouped(c, a)[key];
    assert Members(before) == Members(g);
    RootIsLongest(before, g, isFile, r);
    RootIsCommon(before, g, isFile);
  }

  lemma RootedAt(c: Context, a: Assets, byKey: map<string, AssetRootGroup>, isFile: Path -> bool, key: string)
    requires ContextValid(c) && AllRooted(Grouped(c, a), byKey, isFile) && key in byKey
    ensures key in Grouped(c, a) && Rooted(Grouped(c, a)[key], byKey[key], isFile)
    ensures Members(Grouped(c, a)[key]) == Members(byKey[key])
  {
    hide Grouped, RootFrom, LongestCommon;
    assert Rooted(Grouped(c, a)[key], byKey[key], isFile);
  }

  lemma RootIsCommon(g: AssetRootGroup, rooted: AssetRootGroup, isFile: Path -> bool)
    requires Rooted(g, rooted, isFile)
    ensures IsCommon(rooted.rootPath, Members(g))
  {
    var q :| LongestCommon(q, Members(g)) && rooted == g.(rootPath := RootFrom(q, IsSingle(g), isFile));
    RootIsPrefix(q, IsSingle(g), isFile);
  }

  // ---------------------------------------------------------------- which paths are grouped, and where

  /** The path is under a SHARED location, component by component. */
  predicate Shared(c: Context, p: Path) { exists l :: l in c.shared && Parse(l) <= p }

  /** Exactly the listed paths that are not under a SHARED location are grouped, in their role, absolute and
      normalised. */
  lemma ResultMembersExactly(c: Context, inputs: seq<Path>, outputs: seq<Path>, references: seq<Path>,
                             groups: seq<AssetRootGroup>, isFile: Path -> bool, role: Role, p: Path)
    requires ContextValid(c) && IsResult(c, AssetsOf(c, inputs, outputs, references), groups, isFile)
    ensures var paths := match role case Input => inputs case Output => outputs case Reference => references;
      (exists g :: g in groups && p in match role case Input => g.inputs case Output => g.outputs
                                                  case Reference => g.references) <==>
      !Shared(c, p) && exists i | 0 <= i < |paths| ::
        p == Normalize(if ToAbsolute(paths[i], c.cwd).Ok? then ToAbsolute(paths[i], c.cwd).value else paths[i])
  {
    hide IsResult, Parse, ToAbsolute, Normalize, ContextValid;
    var a := AssetsOf(c, inputs, outputs, references);
    PartitionListed(c, a, groups, isFile, role, p);
    if i :| 0 <= i < |groups| && p in Part(groups[i], role) { assert groups[i] in groups; }
  }

  /** A normal path is under a location exactly when that is spelled as a normal path and the path is within it. */
  lemma UnderExactly(p: Path, l: string)
    requires WellFormed(p) && IsNormal(p)
    ensures Parse(l) <= p <==> IsNormal(Parse(l)) && IsWithinRoot(p, Parse(l)) && (Parse(l) != [] || [] <= p)
  {
    ParseWellFormed(l);
    hide Parse, Normalize;
    NormalIsFixed(p);
    if Parse(l) <= p {
      assert forall i | 0 <= i < |Parse(l)| :: Parse(l)[i] == p[i];
    }
    if IsNormal(Parse(l)) { NormalIsFixed(Parse(l)); }
  }

  /** So no member of a returned group lies, by its walk, under a SHARED location spelled as a normal path; one that is
      not ("/mnt/../srv") keeps nothing out. */
  lemma NoSharedMembers(c: Context, inputs: seq<Path>, outputs: seq<Path>, references: seq<Path>,
                        groups: seq<AssetRootGroup>, isFile: Path -> bool, g: AssetRootGroup, p: Path, l: string)
    requires ContextValid(c) && IsResult(c, AssetsOf(c, inputs, outputs, references), groups, isFile)
    requires Locatable(c, inputs) && Locatable(c, outputs) && Locatable(c, references)
    requires g in groups && p in Members(g) && l in c.shared && IsAbsolute(Parse(l))
    ensures IsNormal(Parse(l)) && Overshoot([], p) == Overshoot([], Parse(l)) ==> !(Walk([], Parse(l)) <= Walk([], p))
    ensures !IsNormal(Parse(l)) ==> !(Parse(l) <= p)
  {
    hide IsResult, Parse, ToAbsolute, Normalize, ContextValid, IsNormal, Walk, Overshoot, WellFormed, Locatable, Kept;
    var role := if p in g.inputs then Input else if p in g.outputs then Output else Reference;
    ResultMembersExactly(c, inputs, outputs, references, groups, isFile, role, p);
    var a := AssetsOf(c, inputs, outputs, references);
    MemberIsNormal(c, inputs, outputs, references, groups, isFile, role, g, p);
    UnderExactly(p, l);
    ParseWellFormed(l);
    WithinRootExactly(p, Parse(l));
  }

  lemma MemberIsNormal(c: Context, inputs: seq<Path>, outputs: seq<Path>, references: seq<Path>,
                       groups: seq<AssetRootGroup>, isFile: Path -> bool, role: Role, g: AssetRootGroup, p: Path)
    requires ContextValid(c) && IsResult(c, AssetsOf(c, inputs, outputs, references), groups, isFile)
    requires Locatable(c, inputs) && Locatable(c, outputs) && Locatable(c, references)
    requires g in groups && p in Part(g, role)
    ensures WellFormed(p) && IsNormal(p) && IsAbsolute(p) && !Shared(c, p)
  {
    hide IsResult, Parse, Normalize, IsNormal, WellFormed, Locatable, Kept, ContextValid;
    var a := AssetsOf(c, inputs, outputs, references);
    var i :| 0 <= i < |groups| && groups[i] == g;
    PartitionListed(c, a, groups, isFile, role, p);
    ResultMembersExactly(c, inputs, outputs, references, groups, isFile, role, p);
    match role
    case Input => KeptAreNormal(c, inputs, p);
    case Output => KeptAreNormal(c, outputs, p);
    case Reference => KeptAreNormal(c, references, p);
  }

  /** The LOCAL location a path belongs to: one that holds it, and no longer one does. */
  ghost predicate BelongsTo(c: Context, p: Path, l: string) {
    && l in c.names && Parse(l) <= p
    && forall m | m in c.names && Parse(m) <= p :: ByteLength(m) <= ByteLength(l)
  }

  /** The group of a path: named after a longest LOCAL location that holds it; without one, unnamed and shared by all
      absolute paths of that kind. */
  lemma GroupOfPath(c: Context, a: Assets, byKey: map<string, AssetRootGroup>, isFile: Path -> bool,
                    key: string, p: Path)
    requires IsGrouping(c, a, byKey, isFile) && key in byKey && p in Members(byKey[key])
    ensures (exists l :: l in c.names && Parse(l) <= p) ==>
              BelongsTo(c, p, key) && byKey[key].locationName == Some(c.names[key])
    ensures (forall l | l in c.names :: !(Parse(l) <= p)) && IsAbsolute(p) ==>
              key == "/" && byKey[key].locationName == None
  {
    MemberKey(c, a, byKey, isFile, key, p);
    hide Parse, Longest, ByteLength;
    GroupName(c, a, byKey, isFile, key);
    LongestIsMaximal(p, c.order);
    if (forall l | l in c.names :: !(Parse(l) <= p)) && IsAbsolute(p) {
      if "/" in c.names { TopHolds(p); }
    }
  }

  lemma MemberKey(c: Context, a: Assets, byKey: map<string, AssetRootGroup>, isFile: Path -> bool, key: string, p: Path)
    requires IsGrouping(c, a, byKey, isFile) && key in byKey && p in Members(byKey[key])
    ensures FindRoot(c, p).0 == key
  {
    hide FindRoot, RootFrom, LongestCommon;
    assert Rooted(Grouped(c, a)[key], byKey[key], isFile);
  }

  lemma TopHolds(p: Path)
    requires IsAbsolute(p)
    ensures Parse("/") <= p
  {
    SplitJoin(["", ""], '/');
    assert ["", ""][1..] == [""] && Join(["", ""], '/') == "/";
    ComponentsOfBlanks();
    assert p[..1] == [Root];
  }

  // ---------------------------------------------------------------- order of the input

  /** Contexts that differ only in the order their hash map is visited in, when no two locations can tie. */
  ghost predicate SameProfile(c: Context, d: Context) {
    && c.names == d.names && c.shared == d.shared && c.cwd == d.cwd
    && ContextValid(c) && ContextValid(d) && Unambiguous(c.names.Keys)
  }

  lemma SameRoots(c: Context, d: Context, p: Path)
    requires SameProfile(c, d)
    ensures FindRoot(c, p) == FindRoot(d, p)
  {
    SameMatch(p, c.names.Keys, c.order, d.order);
  }

  lemma SameGrouped(c: Context, d: Context, a: Assets)
    requires SameProfile(c, d)
    ensures Grouped(c, a) == Grouped(d, a)
  {
    hide FindRoot, SameProfile, ContextValid;
    SameNames(c, d);
    forall p | p in All(a) ensures FindRoot(c, p) == FindRoot(d, p) {
      SameRoots(c, d, p);
    }
    assert (set p | p in All(a) :: FindRoot(c, p).0) == (set p | p in All(a) :: FindRoot(d, p).0);
    forall key ensures GroupAt(c, a, key) == GroupAt(d, a, key) {
      assert Under(c, key, a.inputs) == Under(d, key, a.inputs);
      assert Under(c, key, a.outputs) == Under(d, key, a.outputs);
      assert Under(c, key, a.references) == Under(d, key, a.references);
    }
  }

  lemma SameNames(c: Context, d: Context)
    requires SameProfile(c, d)
    ensures c.names == d.names && ContextValid(c) && ContextValid(d)
  {
  }

  lemma RootedUnique(g: AssetRootGroup, r: AssetRootGroup, s: AssetRootGroup, isFile: Path -> bool)
    requires Members(g) != {} && Rooted(g, r, isFile) && Rooted(g, s, isFile)
    ensures r == s
  {
    hide RootFrom;
    var q :| LongestCommon(q, Members(g)) && r == g.(rootPath := RootFrom(q, IsSingle(g), isFile));
    var q' :| LongestCommon(q', Members(g)) && s == g.(rootPath := RootFrom(q', IsSingle(g), isFile));
    LongestCommonUnique(q, q', Members(g));
  }

  /** The groups depend on the assets alone: neither the order of the input nor the order in which the locations
      are visited matters. */
  lemma GroupsDependOnAssets(c: Context, d: Context, a: Assets, byKey: map<string, AssetRootGroup>,
                             byKey': map<string, AssetRootGroup>, isFile: Path -> bool)
    requires SameProfile(c, d) && IsGrouping(c, a, byKey, isFile) && IsGrouping(d, a, byKey', isFile)
    ensures byKey == byKey'
  {
    SameGrouped(c, d, a);
    hide Grouped, Rooted, SameProfile;
    forall key | key in byKey ensures byKey[key] == byKey'[key] {
      GroupNotEmpty(c, a, key);
      RootedUnique(Grouped(c, a)[key], byKey[key], byKey'[key], isFile);
    }
  }

  lemma {:induction false} ValuesOrderFree<T>(m: map<string, T>, keys: seq<string>, other: seq<string>)
    requires multiset(keys) == multiset(other) && forall k | k in keys :: k in m
    requires forall k | k in other :: k in m
    ensures multiset(ValuesAt(m, keys)) == multiset(ValuesAt(m, other))
    decreases |keys|
  {
    SameElements(keys, other);
    if keys != [] {
      assert keys[0] in other;
      var i :| 0 <= i < |other| && other[i] == keys[0];
      var rest := other[..i] + other[i + 1..];
      DropHead(keys);
      RemoveAt(other, i);
      assert forall k | k in keys[1..] :: k in keys;
      assert forall k | k in rest :: k in other;
      ValuesOrderFree(m, keys[1..], rest);
      var values, values' := ValuesAt(m, keys), ValuesAt(m, other);
      assert values[1..] == ValuesAt(m, keys[1..]);
      assert values'[..i] + values'[i + 1..] == ValuesAt(m, rest);
      DropHead(values);
      RemoveAt(values', i);
      ValuesSame(values, values', i);
    }
  }

  lemma ValuesSame<T>(s: seq<T>, t: seq<T>, i: nat)
    requires s != [] && i < |t| && s[0] == t[i] && multiset(s) - multiset{s[0]} == multiset(t) - multiset{t[i]}
    ensures multiset(s) == multiset(t)
  {
    assert s[0] in multiset(s) && t[i] in multiset(t);
    assert multiset(s) == multiset(s) - multiset{s[0]} + multiset{s[0]};
    assert multiset(t) == multiset(t) - multiset{t[i]} + multiset{t[i]};
  }

  lemma {:induction false} SameKeys(keys: seq<string>, other: seq<string>)
    requires forall i, j | 0 <= i < j < |keys| :: keys[i] != keys[j]
    requires forall i, j | 0 <= i < j < |other| :: other[i] != other[j]
    requires forall k :: k in keys <==> k in other
    ensures multiset(keys) == multiset(other)
  {
    forall k ensures multiset(keys)[k] == multiset(other)[k] {
      CountsOnce(keys, k);
      CountsOnce(other, k);
    }
  }

  lemma {:induction false} CountsOnce(keys: seq<string>, k: string)
    requires forall i, j | 0 <= i < j < |keys| :: keys[i] != keys[j]
    ensures multiset(keys)[k] == if k in keys then 1 else 0
  {
    if keys != [] {
      CountsOnce(keys[1..], k);
      assert keys == [keys[0]] + keys[1..];
    }
  }

  /** No two groups tie in the final sort. */
  ghost predicate Distinguished(byKey: map<string, AssetRootGroup>) {
    forall j, k | j in byKey && k in byKey && GroupKey(byKey[j]) == GroupKey(byKey[k]) :: byKey[j] == byKey[k]
  }

  lemma DistinguishedValues(byKey: map<string, AssetRootGroup>, keys: seq<string>)
    requires Distinguished(byKey) && forall k | k in keys :: k in byKey
    ensures KeyDetermines(ValuesAt(byKey, keys), GroupKey)
  {
    hide GroupKey;
    var values := ValuesAt(byKey, keys);
    forall x, y | x in values && y in values && GroupKey(x) == GroupKey(y) ensures x == y {
      var i :| 0 <= i < |values| && values[i] == x;
      var j :| 0 <= j < |values| && values[j] == y;
      assert x == byKey[keys[i]] && y == byKey[keys[j]];
    }
  }

  /** So two listings of the same groups are the same list, unless different groups share both root and name. */
  lemma ListingUnique(list: seq<AssetRootGroup>, other: seq<AssetRootGroup>, byKey: map<string, AssetRootGroup>)
    requires Lists(list, byKey) && Lists(other, byKey) && Distinguished(byKey)
    ensures list == other
  {
    hide GroupKey, Sort;
    var keys: seq<string> :| (forall k :: k in keys <==> k in byKey)
      && (forall i, j | 0 <= i < j < |keys| :: keys[i] != keys[j])
      && list == Sort(ValuesAt(byKey, keys), GroupKey);
    var keys': seq<string> :| (forall k :: k in keys' <==> k in byKey)
      && (forall i, j | 0 <= i < j < |keys'| :: keys'[i] != keys'[j])
      && other == Sort(ValuesAt(byKey, keys'), GroupKey);
    SameKeys(keys, keys');
    ValuesOrderFree(byKey, keys, keys');
    DistinguishedValues(byKey, keys);
    SortOrderFree(ValuesAt(byKey, keys), ValuesAt(byKey, keys'), GroupKey);
  }

  /** A listing that begins with two given keys, in this order. */
  lemma ListingFrom(byKey: map<string, AssetRootGroup>, j: string, k: string) returns (list: seq<AssetRootGroup>)
    requires j in byKey && k in byKey && j != k && GroupKey(byKey[j]) == GroupKey(byKey[k])
    ensures Lists(list, byKey)
    ensures WithKey(list, GroupKey, GroupKey(byKey[j])) != []
    ensures WithKey(list, GroupKey, GroupKey(byKey[j]))[0] == byKey[j]
  {
    hide GroupKey, Sort;
    var rest := VisitAll(byKey.Keys - {j, k});
    var keys := [j, k] + rest;
    var values := ValuesAt(byKey, keys);
    list := Sort(values, GroupKey);
    assert values[0] == byKey[j];
    SortStable(values, GroupKey, GroupKey(byKey[j]));
    SortedLists(byKey, keys);
  }

  /** The list depends on the order in which the hash map is visited exactly when two different groups tie. */
  lemma ListingUniqueExactly(byKey: map<string, AssetRootGroup>)
    ensures (forall list, other | Lists(list, byKey) && Lists(other, byKey) :: list == other) <==> Distinguished(byKey)
  {
    hide GroupKey, Lists;
    if Distinguished(byKey) {
      forall list, other | Lists(list, byKey) && Lists(other, byKey) ensures list == other {
        ListingUnique(list, other, byKey);
      }
    } else {
      var j, k :| j in byKey && k in byKey && GroupKey(byKey[j]) == GroupKey(byKey[k]) && byKey[j] != byKey[k];
      var list := ListingFrom(byKey, j, k);
      var other := ListingFrom(byKey, k, j);
      assert list != other;
    }
  }

  // ---------------------------------------------------------------- when groups tie

  ghost predicate NamesDistinct(c: Context) {
    forall l, m | l in c.names && m in c.names && c.names[l] == c.names[m] :: l == m
  }

  predicate AllAbsolute(a: Assets) { forall p | p in All(a) :: IsAbsolute(p) }

  /** Groups of absolute assets without a location share the key of the top directory. */
  lemma UnnamedKey(c: Context, a: Assets, key: string)
    requires ContextValid(c) && AllAbsolute(a) && key in Grouped(c, a)
    ensures key in c.names || key == "/"
  {
    var p :| p in All(a) && FindRoot(c, p).0 == key;
    LongestIsMaximal(p, c.order);
  }

  lemma KeyParts(g: AssetRootGroup, h: AssetRootGroup)
    ensures GroupKey(g) == GroupKey(h) <==>
            Display(g.rootPath) == Display(h.rootPath) && g.locationName == h.locationName
  {
    hide Display, Codec.CodePoints;
    if GroupKey(g) == GroupKey(h) {
      SortedByRootThenName(g, h);
      SortedByRootThenName(h, g);
      LeqReflexive(GroupKey(g));
      var x, y := Codec.CodePoints(Display(g.rootPath)), Codec.CodePoints(Display(h.rootPath));
      if Display(g.rootPath) != Display(h.rootPath) {
        LeqAntisymmetric(x, y);
        Codec.CodePointsInjective(Display(g.rootPath), Display(h.rootPath));
      } else if g.locationName.Some? && h.locationName.Some? {
        var u, v := g.locationName.value, h.locationName.value;
        LeqAntisymmetric(Codec.CodePoints(u), Codec.CodePoints(v));
        Codec.CodePointsInjective(u, v);
      }
    }
  }

  /** Two groups of absolute assets tie exactly when they have the same root and their keys are two LOCAL locations
      with the same name. */
  lemma TiesExactly(c: Context, a: Assets, byKey: map<string, AssetRootGroup>, isFile: Path -> bool,
                    j: string, k: string)
    requires IsGrouping(c, a, byKey, isFile) && AllAbsolute(a) && j in byKey && k in byKey && j != k
    ensures GroupKey(byKey[j]) == GroupKey(byKey[k]) <==>
      && Display(byKey[j].rootPath) == Display(byKey[k].rootPath)
      && j in c.names && k in c.names && c.names[j] == c.names[k]
  {
    KeyParts(byKey[j], byKey[k]);
    hide GroupKey, Display, AllAbsolute, FindRoot;
    UnnamedKey(c, a, j);
    UnnamedKey(c, a, k);
    GroupName(c, a, byKey, isFile, j);
    GroupName(c, a, byKey, isFile, k);
  }

  lemma GroupName(c: Context, a: Assets, byKey: map<string, AssetRootGroup>, isFile: Path -> bool, key: string)
    requires IsGrouping(c, a, byKey, isFile) && key in byKey
    ensures key in Grouped(c, a) && byKey[key].locationName == LocationName(c, key)
  {
    hide LongestCommon, RootFrom;
    assert Rooted(Grouped(c, a)[key], byKey[key], isFile);
  }

  /** So no groups tie when no two LOCAL locations share a name. */
  lemma DistinctNamesSuffice(c: Context, a: Assets, byKey: map<string, AssetRootGroup>, isFile: Path -> bool)
    requires IsGrouping(c, a, byKey, isFile) && AllAbsolute(a) && NamesDistinct(c)
    ensures Distinguished(byKey)
  {
    hide GroupKey, AllAbsolute, IsGrouping, Display;
    forall j, k | j in byKey && k in byKey && GroupKey(byKey[j]) == GroupKey(byKey[k]) ensures byKey[j] == byKey[k] {
      if j != k { TiesExactly(c, a, byKey, isFile, j, k); }
    }
  }

  lemma KeptSame(c: Context, d: Context, paths: seq<Path>, other: seq<Path>)
    requires SameProfile(c, d) && SetOf(paths) == SetOf(other)
    ensures Kept(c, paths) == Kept(d, other)
  {
    SameNames(c, d);
    hide NormalizePath, IsUnderShared, SameProfile, Unambiguous;
    forall p ensures NormalizePath(c, p) == NormalizePath(d, p) && IsUnderShared(c, p) == IsUnderShared(d, p) {
      SameNormal(c, d, p);
    }
    forall i | 0 <= i < |paths| ensures paths[i] in other { assert paths[i] in SetOf(paths); }
    forall i | 0 <= i < |other| ensures other[i] in paths { assert other[i] in SetOf(other); }
  }

  lemma SameNormal(c: Context, d: Context, p: Path)
    requires SameProfile(c, d)
    ensures NormalizePath(c, p) == NormalizePath(d, p) && IsUnderShared(c, p) == IsUnderShared(d, p)
  {
  }

  /** Two results for the same assets are the same list, whatever the order of the input and of the hash maps,
      when no two locations and no two groups tie. */
  lemma ResultUnlessTied(c: Context, d: Context, a: Assets, groups: seq<AssetRootGroup>,
                         other: seq<AssetRootGroup>, isFile: Path -> bool)
    requires SameProfile(c, d) && IsResult(c, a, groups, isFile) && IsResult(d, a, other, isFile)
    requires forall x, y | x in groups && y in groups && GroupKey(x) == GroupKey(y) :: x == y
    ensures groups == other
  {
    hide GroupKey, AllRooted, Grouped;
    assert ContextValid(c) && ContextValid(d);
    var byKey: map<string, AssetRootGroup> :| AllRooted(Grouped(c, a), byKey, isFile) && Lists(groups, byKey);
    var byKey' :| AllRooted(Grouped(d, a), byKey', isFile) && Lists(other, byKey');
    GroupsDependOnAssets(c, d, a, byKey, byKey', isFile);
    hide SameProfile;
    ListedGroups(groups, byKey);
    ListingUnique(groups, other, byKey);
  }

  /** The result depends on which paths are given in which role, and on nothing else: not on their order, nor on the
      order the hash maps are visited in, if no two LOCAL locations tie as longest or share a name. */
  lemma ResultDependsOnAssets(c: Context, inputs: seq<Path>, outputs: seq<Path>, references: seq<Path>,
                              groups: seq<AssetRootGroup>,
                              d: Context, inputs': seq<Path>, outputs': seq<Path>, references': seq<Path>,
                              groups': seq<AssetRootGroup>, isFile: Path -> bool)
    requires SameProfile(c, d) && NamesDistinct(c)
    requires Locatable(c, inputs) && Locatable(c, outputs) && Locatable(c, references)
    requires SetOf(inputs) == SetOf(inputs') && SetOf(outputs) == SetOf(outputs')
    requires SetOf(references) == SetOf(references')
    requires IsResult(c, AssetsOf(c, inputs, outputs, references), groups, isFile)
    requires IsResult(d, AssetsOf(d, inputs', outputs', references'), groups', isFile)
    ensures groups == groups'
  {
    assert ContextValid(c);
    KeptSame(c, d, inputs, inputs');
    KeptSame(c, d, outputs, outputs');
    KeptSame(c, d, references, references');
    hide AllRooted, Grouped, GroupKey, Lists, ContextValid, IsNormal, WellFormed, Locatable, Kept, SameProfile;
    var a := AssetsOf(c, inputs, outputs, references);
    forall p | p in All(a) ensures IsAbsolute(p) {
      if p in a.inputs { KeptAreNormal(c, inputs, p); }
      else if p in a.outputs { KeptAreNormal(c, outputs, p); }
      else { KeptAreNormal(c, references, p); }
    }
    var byKey: map<string, AssetRootGroup> :| AllRooted(Grouped(c, a), byKey, isFile) && Lists(groups, byKey);
    DistinctNamesSuffice(c, a, byKey, isFile);
    ListedGroups(groups, byKey);
    hide IsResult, NamesDistinct, Distinguished;
    assert forall x, y | x in groups && y in groups && GroupKey(x) == GroupKey(y) :: x == y by {
      Untied(groups, byKey);
    }
    ResultUnlessTied(c, d, a, groups, groups', isFile);
  }

  lemma Untied(groups: seq<AssetRootGroup>, byKey: map<string, AssetRootGroup>)
    requires Distinguished(byKey) && Lists(groups, byKey)
    ensures forall x, y | x in groups && y in groups && GroupKey(x) == GroupKey(y) :: x == y
  {
    hide GroupKey, Lists;
    ListedGroups(groups, byKey);
    forall x, y | x in groups && y in groups && GroupKey(x) == GroupKey(y) ensures x == y {
      var j :| j in byKey && byKey[j] == x;
      var k :| k in byKey && byKey[k] == y;
    }
  }

  lemma ParseName(name: string)
    requires IsName(name)
    ensures Parse("/" + name) == [Root, Normal(name)]
  {
    SplitJoin(["", name], '/');
    JoinFew(name);
    assert Components(["", name]) == [Normal(name)] by {
      assert ["", name][..1] == [""];
      ComponentsOfBlanks();
    }
  }

  /** A file alone at the top, in the group of its location. */
  function TopGroup(p: Path, name: string): AssetRootGroup { AssetRootGroup([Root], {p}, {}, {}, Some(name)) }

  lemma TwoGroups(c: Context, l: string, m: string, p: Path, q: Path, name: string)
    requires ContextValid(c) && c.names == map[l := name, m := name] && p != q && l != m
    requires FindRoot(c, p).0 == l && FindRoot(c, q).0 == m
    ensures Grouped(c, Assets({p, q}, {}, {})) ==
            map[l := TopGroup(p, name).(rootPath := []), m := TopGroup(q, name).(rootPath := [])]
  {
    hide FindRoot, ContextValid;
    var assets := Assets({p, q}, {}, {});
    assert Under(c, l, {p, q}) == {p} && Under(c, m, {p, q}) == {q};
    assert Under(c, l, {}) == {} && Under(c, m, {}) == {};
    assert p in All(assets) && q in All(assets);
  }

  /** Two locations with one name can tie: with the locations "/a" and "/b", both named `name`, the files "/a" and "/b"
      make two groups with the root "/" and that name. */
  lemma NamesakesTie(a: string, b: string, name: string)
    requires IsName(a) && IsName(b) && a != b
    ensures var c := Context(["/" + a, "/" + b], map["/" + a := name, "/" + b := name], {}, None);
      var assets := Assets({[Root, Normal(a)], [Root, Normal(b)]}, {}, {});
      exists byKey, isFile :: IsGrouping(c, assets, byKey, isFile) && !Distinguished(byKey)
  {
    var l, m, p, q := "/" + a, "/" + b, [Root, Normal(a)], [Root, Normal(b)];
    var c := Context([l, m], map[l := name, m := name], {}, None);
    assert l[1..] == a && m[1..] == b && [l, m][0] == l && [l, m][1] == m;
    assert ContextValid(c) && c.names.Keys == {l, m} && p[1] != q[1];
    ParseName(a);
    ParseName(b);
    hide Parse, FindRoot;
    OwnLocation(c, p, l, m);
    OwnLocation(c, q, m, l);
    TwoGroups(c, l, m, p, q, name);
    TopTie(c, Assets({p, q}, {}, {}), l, m, p, q, name);
  }

  lemma TopTie(c: Context, assets: Assets, l: string, m: string, p: Path, q: Path, name: string)
    requires ContextValid(c) && p != q && l != m
    requires |p| == |q| == 2 && p[0] == q[0] == Root && p[1].Normal? && q[1].Normal?
    requires Grouped(c, assets) == map[l := TopGroup(p, name).(rootPath := []), m := TopGroup(q, name).(rootPath := [])]
    ensures exists byKey, isFile :: IsGrouping(c, assets, byKey, isFile) && !Distinguished(byKey)
  {
    hide ContextValid, Grouped, Rooted;
    var isFile: Path -> bool := r => |r| == 2;
    var g, h := TopGroup(p, name), TopGroup(q, name);
    assert Members(g) == {p} && Members(h) == {q};
    FileAtTop(g, p, isFile);
    FileAtTop(h, q, isFile);
    var byKey := map[l := g, m := h];
    assert IsGrouping(c, assets, byKey, isFile);
    hide IsGrouping;
    assert g.inputs != h.inputs by { assert p in g.inputs && p !in h.inputs; }
    assert GroupKey(byKey[l]) == GroupKey(byKey[m]);
  }

  lemma OwnLocation(c: Context, p: Path, l: string, m: string)
    requires ContextValid(c) && c.names.Keys == {l, m} && Parse(l) == p && !(Parse(m) <= p)
    ensures FindRoot(c, p).0 == l
  {
    hide Parse;
    LongestIsMaximal(p, c.order);
  }

  lemma FileAtTop(g: AssetRootGroup, p: Path, isFile: Path -> bool)
    requires |p| == 2 && p[0] == Root && p[1].Normal? && isFile(p) && Members(g) == {p} && OnlyPath(g, p)
    requires g.rootPath == [Root]
    ensures Rooted(g.(rootPath := []), g, isFile)
  {
    var before := g.(rootPath := []);
    assert OnlyPath(before, p);
    assert LongestCommon(p, Members(before)) by {
      assert p in Members(before);
      forall r | IsCommon(r, Members(before)) ensures |r| <= |p| { assert r <= p; }
    }
    assert p[..1] == [Root];
    assert RootFrom(p, true, isFile) == [Root];
  }

  lemma ListedKeys(groups: seq<AssetRootGroup>, byKey: map<string, AssetRootGroup>) returns (keys: seq<string>)
    requires Lists(groups, byKey)
    ensures (forall k :: k in keys <==> k in byKey) && (forall i, j | 0 <= i < j < |keys| :: keys[i] != keys[j])
    ensures multiset(groups) == multiset(ValuesAt(byKey, keys))
  {
    hide GroupKey;
    keys :| (forall k :: k in keys <==> k in byKey) && (forall i, j | 0 <= i < j < |keys| :: keys[i] != keys[j])
      && groups == Sort(ValuesAt(byKey, keys), GroupKey);
    SortKeeps(ValuesAt(byKey, keys), GroupKey);
  }

  /** A listing has exactly the groups of the map, and a group that only one key has, once. */
  lemma ListedGroups(groups: seq<AssetRootGroup>, byKey: map<string, AssetRootGroup>)
    requires Lists(groups, byKey)
    ensures forall key | key in byKey :: byKey[key] in groups
    ensures forall g | g in groups :: exists key :: key in byKey && byKey[key] == g
    ensures forall g | OneKey(byKey, g) :: multiset(groups)[g] <= 1
  {
    var keys := ListedKeys(groups, byKey);
    hide Lists;
    var values := ValuesAt(byKey, keys);
    SameElements(groups, values);
    forall key | key in byKey ensures byKey[key] in groups {
      var x :| 0 <= x < |keys| && keys[x] == key;
      assert values[x] in values;
    }
    forall g | g in groups ensures exists key :: key in byKey && byKey[key] == g {
      var x :| 0 <= x < |values| && values[x] == g;
      assert keys[x] in byKey && byKey[keys[x]] == g;
    }
    forall g | OneKey(byKey, g) ensures multiset(groups)[g] <= 1 {
      ListedOnce(byKey, keys, g);
    }
  }

  lemma ListedOnce(byKey: map<string, AssetRootGroup>, keys: seq<string>, g: AssetRootGroup)
    requires OneKey(byKey, g) && forall k | k in keys :: k in byKey
    requires forall i, j | 0 <= i < j < |keys| :: keys[i] != keys[j]
    ensures multiset(ValuesAt(byKey, keys))[g] <= 1
  {
    var values := ValuesAt(byKey, keys);
    forall i, j | 0 <= i < j < |values| ensures !(values[i] == g && values[j] == g) {
      assert keys[i] in byKey && keys[j] in byKey;
      assert values[i] == byKey[keys[i]] && values[j] == byKey[keys[j]];
    }
    OnceCounted(values, g);
  }

  ghost predicate OneKey(byKey: map<string, AssetRootGroup>, g: AssetRootGroup) {
    forall j, k | j in byKey && k in byKey && byKey[j] == g && byKey[k] == g :: j == k
  }

  /** Scanning any of a returned group's inputs against the group's root reports none of them outside, and each
      manifest path leads back to its file. */
  lemma ResultScans(c: Context, inputs: seq<Path>, outputs: seq<Path>, references: seq<Path>,
                    groups: seq<AssetRootGroup>, isFile: Path -> bool, g: AssetRootGroup,
                    files: seq<Path>, kindOf: Path -> Kind)
    requires ContextValid(c) && IsResult(c, AssetsOf(c, inputs, outputs, references), groups, isFile)
    requires Locatable(c, inputs) && Locatable(c, outputs) && Locatable(c, references) && !isFile([Root])
    requires g in groups && forall i | 0 <= i < |files| :: files[i] in g.inputs
    ensures forall i | 0 <= i < |files| :: Acceptable(files[i], g.rootPath, c.cwd, kindOf)
    ensures forall f | f in ScannedFiles(files, g.rootPath, c.cwd, kindOf) ::
              PushAll(g.rootPath, Split(f.relativePath, '/')) == f.path
  {
    hide AllRooted, Grouped, Lists, ContextValid, Acceptable, ScannedFiles, IsNormal, WellFormed, Locatable, Kept;
    var a := AssetsOf(c, inputs, outputs, references);
    var byKey: map<string, AssetRootGroup> :| AllRooted(Grouped(c, a), byKey, isFile) && Lists(groups, byKey);
    ListedGroups(groups, byKey);
    var key :| key in byKey && byKey[key] == g;
    forall r | r in All(a) ensures WellFormed(r) && IsAbsolute(r) && IsNormal(r) {
      if r in a.inputs { KeptAreNormal(c, inputs, r); }
      else if r in a.outputs { KeptAreNormal(c, outputs, r); }
      else { KeptAreNormal(c, references, r); }
    }
    GroupScanSucceeds(c, a, byKey, isFile, key, files, kindOf);
  }

  /** And converting a returned group for submission drops none of its outputs. */
  lemma ResultOutputsKept(c: Context, inputs: seq<Path>, outputs: seq<Path>, references: seq<Path>,
                          groups: seq<AssetRootGroup>, isFile: Path -> bool, g: AssetRootGroup, listed: seq<Path>)
    requires ContextValid(c) && IsResult(c, AssetsOf(c, inputs, outputs, references), groups, isFile)
    requires Locatable(c, inputs) && Locatable(c, outputs) && Locatable(c, references)
    requires g in groups && forall i | 0 <= i < |listed| :: listed[i] in g.outputs
    ensures |RelativeOutputs(listed, g.rootPath)| == |listed|
  {
    hide AllRooted, Grouped, Lists, ContextValid, IsNormal, WellFormed, Locatable, Kept;
    var a := AssetsOf(c, inputs, outputs, references);
    var byKey: map<string, AssetRootGroup> :| AllRooted(Grouped(c, a), byKey, isFile) && Lists(groups, byKey);
    ListedGroups(groups, byKey);
    var key :| key in byKey && byKey[key] == g;
    forall i | 0 <= i < |listed| ensures listed[i] in byKey[key].outputs && WellFormed(listed[i]) {
      Partition(c, a, byKey, isFile, Output, listed[i]);
      assert listed[i] in Part(byKey[key], Output);
      KeptAreNormal(c, outputs, listed[i]);
    }
    GroupOutputsKept(c, a, byKey, isFile, key, listed);
  }

  /** What was listed is grouped: in each role every asset is a member of exactly one position of the list. */
  lemma PartitionListed(c: Context, a: Assets, groups: seq<AssetRootGroup>, isFile: Path -> bool, role: Role, p: Path)
    requires ContextValid(c) && IsResult(c, a, groups, isFile)
    ensures p in PathsOf(a, role) <==> exists i | 0 <= i < |groups| :: p in Part(groups[i], role)
    ensures forall i, j | 0 <= i < j < |groups| && p in Part(groups[i], role) :: p !in Part(groups[j], role)
  {
    hide AllRooted, Grouped, Lists, ContextValid, Part;
    var byKey: map<string, AssetRootGroup> :| AllRooted(Grouped(c, a), byKey, isFile) && Lists(groups, byKey);
    Partition(c, a, byKey, isFile, role, p);
    ListedGroups(groups, byKey);
    hide OneKey;
    if key :| key in byKey && p in Part(byKey[key], role) {
      var i :| 0 <= i < |groups| && groups[i] == byKey[key];
    }
    if i :| 0 <= i < |groups| && p in Part(groups[i], role) {
      assert groups[i] in groups;
      var key :| key in byKey && byKey[key] == groups[i];
    }
    forall i, j | 0 <= i < j < |groups| && p in Part(groups[i], role) ensures p !in Part(groups[j], role) {
      if p in Part(groups[j], role) {
        OwnKey(byKey, groups[i], role, p);
        assert groups[i] in groups && groups[j] in groups;
        TwiceCounted(groups, i, j);
      }
    }
  }

  /** A group that shares no member with another has its own key. */
  lemma OwnKey(byKey: map<string, AssetRootGroup>, g: AssetRootGroup, role: Role, p: Path)
    requires p in Part(g, role)
    requires forall j, k | j in byKey && k in byKey && p in Part(byKey[j], role) && p in Part(byKey[k], role) :: j == k
    ensures OneKey(byKey, g)
  {
    hide Part;
  }

  lemma TwiceCounted<T>(s: seq<T>, i: nat, j: nat)
    requires i < j < |s| && s[i] == s[j]
    ensures multiset(s)[s[i]] >= 2
  {
    assert s == s[..j] + s[j..];
    assert s[..j][i] in multiset(s[..j]) && s[j..][0] in multiset(s[j..]);
  }

  lemma {:induction false} OnceCounted<T>(s: seq<T>, x: T)
    requires forall i, j | 0 <= i < j < |s| :: !(s[i] == x && s[j] == x)
    ensures multiset(s)[x] <= 1
  {
    if s != [] {
      OnceCounted(s[1..], x);
      assert s == [s[0]] + s[1..];
      assert forall j | 0 <= j < |s| - 1 :: s[1..][j] == s[j + 1];
    }
  }

  /** A separator below every element makes the order of pairs: first components decide, then second ones. */
  lemma {:induction false} LeqSeparated(x: seq<int>, y: seq<int>, u: seq<int>, v: seq<int>)
    requires forall i | 0 <= i < |x| :: x[i] >= 0
    requires forall i | 0 <= i < |y| :: y[i] >= 0
    ensures Leq(x + [-1] + u, y + [-1] + v) <==> if x == y then Leq(u, v) else Leq(x, y)
  {
    var s, t := x + [-1] + u, y + [-1] + v;
    if x != [] && y != [] {
      assert s[1..] == x[1..] + [-1] + u && t[1..] == y[1..] + [-1] + v;
      assert x == [x[0]] + x[1..] && y == [y[0]] + y[1..];
      if x[0] == y[0] { LeqSeparated(x[1..], y[1..], u, v); }
    } else {
      assert x == [] ==> s[0] == -1 && s[1..] == u;
      assert y == [] ==> t[0] == -1 && t[1..] == v;
    }
  }

  lemma {:induction false} CodePointsNatural(s: string)
    ensures forall i | 0 <= i < |Codec.CodePoints(s)| :: Codec.CodePoints(s)[i] >= 0
  {
    if s != "" { CodePointsNatural(s[1..]); }
  }

  /** The final sort is by root path, then by location name with a missing one first. */
  lemma SortedByRootThenName(a: AssetRootGroup, b: AssetRootGroup)
    ensures var x, y := Codec.CodePoints(Display(a.rootPath)), Codec.CodePoints(Display(b.rootPath));
      Leq(GroupKey(a), GroupKey(b)) <==>
        if Display(a.rootPath) != Display(b.rootPath) then Leq(x, y)
        else a.locationName.None? ||
             (b.locationName.Some?
               && Leq(Codec.CodePoints(a.locationName.value), Codec.CodePoints(b.locationName.value)))
  {
    hide Codec.CodePoints, Display;
    var x, y := Codec.CodePoints(Display(a.rootPath)), Codec.CodePoints(Display(b.rootPath));
    var u := if a.locationName.Some? then [0] + Codec.CodePoints(a.locationName.value) else [];
    var v := if b.locationName.Some? then [0] + Codec.CodePoints(b.locationName.value) else [];
    CodePointsNatural(Display(a.rootPath));
    CodePointsNatural(Display(b.rootPath));
    LeqSeparated(x, y, u, v);
    if x == y { Codec.CodePointsInjective(Display(a.rootPath), Display(b.rootPath)); }
    assert a.locationName.Some? ==> u[1..] == Codec.CodePoints(a.locationName.value);
    assert b.locationName.Some? ==> v[1..] == Codec.CodePoints(b.locationName.value);
  }

  // ---------------------------------------------------------------- group_asset_paths_validated

  datatype Validation = Validation(
    valid: seq<Path>, missing: seq<Path>, directories: seq<Path>, demoted: seq<Path>, skipped: seq<Path>)

  /** Where validation puts an input. */
  function Classify(c: Context, kindOf: Path -> Kind, strict: bool, path: Path, v: Validation): Validation {
    var p := NormalizePath(c, path);
    if IsUnderShared(c, p) then v.(skipped := v.skipped + [p])
    else match kindOf(p)
      case Missing => if strict then v.(missing := v.missing + [p]) else v.(demoted := v.demoted + [p])
      case Directory => v.(directories := v.directories + [p])
      case File => v.(valid := v.valid + [p])
  }

  function ClassifyAll(c: Context, kindOf: Path -> Kind, strict: bool, paths: seq<Path>): Validation {
    if paths == [] then Validation([], [], [], [], [])
    else Classify(c, kindOf, strict, paths[|paths| - 1], ClassifyAll(c, kindOf, strict, paths[..|paths| - 1]))
  }

  datatype GroupingResult = GroupingResult(groups: seq<AssetRootGroup>, demoted: seq<Path>, skipped: seq<Path>)
  datatype GroupingError = MisconfiguredInputs(missing: seq<Path>, directories: seq<Path>)

  /** `group_asset_paths_validated`: inputs are sorted out first, then what is valid is grouped. */
  method GroupValidated(c: Context, inputs: seq<Path>, outputs: seq<Path>, references: seq<Path>,
                        kindOf: Path -> Kind, strict: bool)
    returns (r: Result<GroupingResult, GroupingError>)
    requires ContextValid(c) && forall p | p in inputs + outputs + references :: WellFormed(p)
    ensures var v := ClassifyAll(c, kindOf, strict, inputs);
      && (r.Err? <==> strict && (v.missing != [] || v.directories != []))
      && (r.Err? ==> r.error == MisconfiguredInputs(v.missing, v.directories))
      && (r.Ok? ==>
            && r.value.demoted == v.demoted && r.value.skipped == v.skipped
            && IsResult(c, AssetsOf(c, v.valid, outputs, references + v.demoted), r.value.groups, p => kindOf(p).File?))
  {
    hide NormalizePath, IsUnderShared, IsResult, WellFormed, ContextValid;
    var valid, missing, directories, demoted, skipped := [], [], [], [], [];
    for i := 0 to |inputs|
      invariant Validation(valid, missing, directories, demoted, skipped) == ClassifyAll(c, kindOf, strict, inputs[..i])
      invariant forall p | p in valid + demoted :: WellFormed(p)
    {
      assert inputs[..i + 1][..i] == inputs[..i];
      var p := NormalizePath(c, inputs[i]);
      assert inputs[i] in inputs + outputs + references;
      NormalizedIsWellFormed(c, inputs[i]);
      if IsUnderShared(c, p) {
        skipped := skipped + [p];
        continue;
      }
      if kindOf(p).Missing? {
        if strict { missing := missing + [p]; } else { demoted := demoted + [p]; }
        continue;
      }
      if kindOf(p).Directory? {
        directories := directories + [p];
        continue;
      }
      valid := valid + [p];
    }
    assert inputs[..|inputs|] == inputs;
    if strict && (missing != [] || directories != []) {
      return Err(MisconfiguredInputs(missing, directories));
    }
    forall p | p in valid + outputs + (references + demoted) ensures WellFormed(p) {
      assert p in valid + demoted || p in inputs + outputs + references;
    }
    var groups := GroupAssetPaths(c, valid, outputs, references + demoted, p => kindOf(p).File?);
    r := Ok(GroupingResult(groups, demoted, skipped));
  }

  /** Some given path normalises to `p`. */
  ghost predicate Given(c: Context, paths: seq<Path>, p: Path) {
    exists i | 0 <= i < |paths| :: NormalizePath(c, paths[i]) == p
  }

  lemma GivenLast(c: Context, paths: seq<Path>, p: Path)
    requires paths != []
    ensures Given(c, paths, p) <==> NormalizePath(c, paths[|paths| - 1]) == p || Given(c, paths[..|paths| - 1], p)
  {
    hide NormalizePath;
    var init := paths[..|paths| - 1];
    if Given(c, init, p) {
      var i :| 0 <= i < |init| && NormalizePath(c, init[i]) == p;
      assert NormalizePath(c, paths[i]) == p;
    }
    if Given(c, paths, p) {
      var i :| 0 <= i < |paths| && NormalizePath(c, paths[i]) == p;
      assert i < |init| ==> NormalizePath(c, init[i]) == p;
    }
  }

  /** Exactly where each input ends up. In particular an existing directory among the inputs is grouped nowhere,
      and in the lenient mode not reported either. */
  lemma {:induction false} ClassifiedExactly(c: Context, kindOf: Path -> Kind, strict: bool, paths: seq<Path>, p: Path)
    ensures var v := ClassifyAll(c, kindOf, strict, paths);
            var given, shared := Given(c, paths, p), IsUnderShared(c, p);
      && (p in v.skipped <==> given && shared)
      && (p in v.valid <==> given && !shared && kindOf(p).File?)
      && (p in v.directories <==> given && !shared && kindOf(p).Directory?)
      && (p in v.missing <==> given && !shared && kindOf(p).Missing? && strict)
      && (p in v.demoted <==> given && !shared && kindOf(p).Missing? && !strict)
  {
    if paths != [] {
      hide NormalizePath, IsUnderShared, Given;
      ClassifiedExactly(c, kindOf, strict, paths[..|paths| - 1], p);
      GivenLast(c, paths, p);
    }
  }
}
