/** Merging manifests: the last writer of a path wins. */
module Merge {
  import opened Wrappers
  import opened Ordering
  import opened Manifest

  datatype V2023Path = V2023Path(path: string, hash: string, size: U64, mtime: I64)

  /** A decoded manifest of either format. Both formats know a single hash algorithm. */
  datatype AnyManifest = V2023(paths: seq<V2023Path>) | V2025(m: AssetManifest)

  datatype MergeError = VersionMismatch

  // ---------------------------------------------------------------- last writer wins

  /** A hash map filled by inserting every entry under its path, in order. */
  function LastWins<T>(entries: seq<T>, path: T -> string): map<string, T> {
    if entries == [] then map[]
    else
      var last := entries[|entries| - 1];
      LastWins(entries[..|entries| - 1], path)[path(last) := last]
  }

  /** Entry `i` is the last one with its path. */
  ghost predicate IsLast<T>(entries: seq<T>, path: T -> string, i: nat) {
    i < |entries| && forall j | i < j < |entries| :: path(entries[j]) != path(entries[i])
  }

  /** Every value of the map is the last entry with its path ... */
  lemma {:induction false} LastWinsSource<T>(entries: seq<T>, path: T -> string, p: string) returns (i: nat)
    requires p in LastWins(entries, path)
    ensures IsLast(entries, path, i) && path(entries[i]) == p && LastWins(entries, path)[p] == entries[i]
  {
    var n := |entries| - 1;
    if p == path(entries[n]) {
      i := n;
    } else {
      i := LastWinsSource(entries[..n], path, p);
    }
  }

  /** ... and the last entry with a path is the value at that path. */
  lemma {:induction false} LastWinsTarget<T>(entries: seq<T>, path: T -> string, i: nat)
    requires IsLast(entries, path, i)
    ensures path(entries[i]) in LastWins(entries, path) && LastWins(entries, path)[path(entries[i])] == entries[i]
  {
    var n := |entries| - 1;
    if i < n {
      assert IsLast(entries[..n], path, i);
      LastWinsTarget(entries[..n], path, i);
    }
  }

  lemma {:induction false} LastWinsSplit<T>(a: seq<T>, b: seq<T>, path: T -> string)
    ensures LastWins(a + b, path) == LastWins(a, path) + LastWins(b, path)
  {
    if b == [] {
      assert a + b == a;
    } else {
      var n := |b| - 1;
      assert (a + b)[..|a + b| - 1] == a + b[..n];
      LastWinsSplit(a, b[..n], path);
    }
  }

  lemma {:induction false} LastWinsKeys<T>(entries: seq<T>, path: T -> string)
    ensures forall p | p in LastWins(entries, path) ::
              path(LastWins(entries, path)[p]) == p && LastWins(entries, path)[p] in entries
  {
    if entries != [] {
      LastWinsKeys(entries[..|entries| - 1], path);
    }
  }

  /** `s` lists the values of `m` once each; a hash map yields them in an arbitrary order. */
  ghost predicate Enumerates<T>(s: seq<T>, m: map<string, T>, path: T -> string) {
    && (forall i, j | 0 <= i < j < |s| :: path(s[i]) != path(s[j]))
    && (forall i | 0 <= i < |s| :: path(s[i]) in m && m[path(s[i])] == s[i])
    && (forall p | p in m :: exists i | 0 <= i < |s| :: path(s[i]) == p)
  }

  /** Rebuilding the map from any enumeration gives it back. */
  lemma LastWinsOfEnumeration<T>(s: seq<T>, m: map<string, T>, path: T -> string)
    requires Enumerates(s, m, path)
    ensures LastWins(s, path) == m
  {
    forall p | p in m ensures p in LastWins(s, path) && LastWins(s, path)[p] == m[p] {
      var i :| 0 <= i < |s| && path(s[i]) == p;
      LastWinsTarget(s, path, i);
    }
    forall p | p in LastWins(s, path) ensures p in m {
      var i := LastWinsSource(s, path, p);
    }
  }

  method IntoValues<T>(m: map<string, T>, path: T -> string) returns (s: seq<T>)
    requires forall p | p in m :: path(m[p]) == p
    ensures Enumerates(s, m, path)
  {
    s := [];
    var rest := m;
    while rest.Keys != {}
      invariant rest.Keys <= m.Keys && forall p | p in rest :: rest[p] == m[p]
      invariant forall i, j | 0 <= i < j < |s| :: path(s[i]) != path(s[j])
      invariant forall i | 0 <= i < |s| :: path(s[i]) in m && m[path(s[i])] == s[i] && path(s[i]) !in rest
      invariant forall p | p in m && p !in rest :: exists i | 0 <= i < |s| :: path(s[i]) == p
      decreases rest.Keys
    {
      var p :| p in rest.Keys;
      ghost var before := s;
      s := s + [rest[p]];
      assert path(s[|before|]) == p;
      forall q | q in m && q !in rest - {p} ensures exists i | 0 <= i < |s| :: path(s[i]) == q {
        if q != p {
          var i :| 0 <= i < |before| && path(before[i]) == q;
          assert path(s[i]) == q;
        }
      }
      rest := rest - {p};
    }
  }

  // ---------------------------------------------------------------- merging

  function DirPath(d: DirEntry): string { d.path }
  function FilePath(f: FileEntry): string { f.path }
  function OldPath(p: V2023Path): string { p.path }

  function DirsOf(m: AnyManifest): seq<DirEntry> { if m.V2025? then m.m.dirs else [] }
  function FilesOf(m: AnyManifest): seq<FileEntry> { if m.V2025? then m.m.files else [] }
  function PathsOf(m: AnyManifest): seq<V2023Path> { if m.V2023? then m.paths else [] }

  /** All entries of a list of manifests, in list order. */
  function Collect<T>(ms: seq<AnyManifest>, part: AnyManifest -> seq<T>): seq<T> {
    if ms == [] then [] else Collect(ms[..|ms| - 1], part) + part(ms[|ms| - 1])
  }

  function AllDirs(ms: seq<AnyManifest>): seq<DirEntry> { Collect(ms, DirsOf) }
  function AllFiles(ms: seq<AnyManifest>): seq<FileEntry> { Collect(ms, FilesOf) }
  function AllPaths(ms: seq<AnyManifest>): seq<V2023Path> { Collect(ms, PathsOf) }

  /** What a reader of a manifest looks up: the directories, files and v2023 paths by path. */
  datatype Lookup = Lookup(dirs: map<string, DirEntry>, files: map<string, FileEntry>, paths: map<string, V2023Path>)

  function LookupAll(ms: seq<AnyManifest>): Lookup {
    Lookup(LastWins(AllDirs(ms), DirPath), LastWins(AllFiles(ms), FilePath), LastWins(AllPaths(ms), OldPath))
  }

  function LookupOf(m: AnyManifest): Lookup { LookupAll([m]) }

  predicate SameVersion(ms: seq<AnyManifest>) {
    forall i | 0 <= i < |ms| :: ms[i].V2025? == ms[0].V2025?
  }

  /** What `merge_manifests` may return: errors exactly on mixed versions, otherwise a manifest whose
      lookup is last-writer-wins over the whole list; the first manifest's specification version is kept
      and a parent hash is dropped, unless there is nothing to merge. */
  ghost predicate IsMerge(ms: seq<AnyManifest>, r: Result<Option<AnyManifest>, MergeError>) {
    if ms == [] then r == Ok(None)
    else if |ms| == 1 then r == Ok(Some(ms[0]))
    else if !SameVersion(ms) then r == Err(VersionMismatch)
    else
      && r.Ok? && r.value.Some?
      && var out := r.value.value;
         && out.V2025? == ms[0].V2025?
         && (out.V2023? ==> Enumerates(out.paths, LastWins(AllPaths(ms), OldPath), OldPath))
         && (out.V2025? ==>
               && Enumerates(out.m.dirs, LastWins(AllDirs(ms), DirPath), DirPath)
               && Enumerates(out.m.files, LastWins(AllFiles(ms), FilePath), FilePath)
               && out.m == WithSpec(out.m.dirs, out.m.files, ms[0].m.spec, None))
  }

  /** `merge_v2025_manifests`: two maps filled by nested loops. */
  method MergeV2025(ms: seq<AnyManifest>) returns (out: AnyManifest)
    requires ms != [] && forall i | 0 <= i < |ms| :: ms[i].V2025?
    ensures out.V2025?
    ensures Enumerates(out.m.dirs, LastWins(AllDirs(ms), DirPath), DirPath)
    ensures Enumerates(out.m.files, LastWins(AllFiles(ms), FilePath), FilePath)
    ensures out.m == WithSpec(out.m.dirs, out.m.files, ms[0].m.spec, None)
  {
    var mergedDirs: map<string, DirEntry> := map[];
    var mergedFiles: map<string, FileEntry> := map[];
    for k := 0 to |ms|
      invariant mergedDirs == LastWins(AllDirs(ms[..k]), DirPath)
      invariant mergedFiles == LastWins(AllFiles(ms[..k]), FilePath)
    {
      var m := ms[k].m;
      mergedDirs := InsertAll(mergedDirs, AllDirs(ms[..k]), m.dirs, DirPath);
      mergedFiles := InsertAll(mergedFiles, AllFiles(ms[..k]), m.files, FilePath);
      assert ms[..k + 1][..k] == ms[..k];
    }
    assert ms[..|ms|] == ms;
    LastWinsKeys(AllDirs(ms), DirPath);
    LastWinsKeys(AllFiles(ms), FilePath);
    var dirs := IntoValues(mergedDirs, DirPath);
    var files := IntoValues(mergedFiles, FilePath);
    out := V2025(WithSpec(dirs, files, ms[0].m.spec, None));
  }

  method MergeV2023(ms: seq<AnyManifest>) returns (out: AnyManifest)
    requires forall i | 0 <= i < |ms| :: ms[i].V2023?
    ensures out.V2023? && Enumerates(out.paths, LastWins(AllPaths(ms), OldPath), OldPath)
  {
    var merged: map<string, V2023Path> := map[];
    for k := 0 to |ms|
      invariant merged == LastWins(AllPaths(ms[..k]), OldPath)
    {
      merged := InsertAll(merged, AllPaths(ms[..k]), ms[k].paths, OldPath);
      assert ms[..k + 1][..k] == ms[..k];
    }
    assert ms[..|ms|] == ms;
    LastWinsKeys(AllPaths(ms), OldPath);
    var paths := IntoValues(merged, OldPath);
    out := V2023(paths);
  }

  /** The inner loop: insert every entry of one manifest. */
  method InsertAll<T>(before: map<string, T>, ghost seen: seq<T>, entries: seq<T>,
                      path: T -> string) returns (merged: map<string, T>)
    requires before == LastWins(seen, path)
    ensures merged == LastWins(seen + entries, path)
  {
    merged := before;
    assert seen + entries[..0] == seen;
    for i := 0 to |entries|
      invariant merged == LastWins(seen + entries[..i], path)
    {
      merged := merged[path(entries[i]) := entries[i]];
      assert (seen + entries[..i + 1])[..|seen| + i] == seen + entries[..i];
    }
    assert entries[..|entries|] == entries;
  }

  /** `merge_manifests`. */
  method MergeManifests(ms: seq<AnyManifest>) returns (r: Result<Option<AnyManifest>, MergeError>)
    ensures IsMerge(ms, r)
  {
    if ms == [] { return Ok(None); }
    if |ms| == 1 { return Ok(Some(ms[0])); }
    for i := 1 to |ms|
      invariant forall j | 0 <= j < i :: ms[j].V2025? == ms[0].V2025?
    {
      if ms[i].V2025? != ms[0].V2025? { return Err(VersionMismatch); }
    }
    var out: AnyManifest;
    if ms[0].V2025? { out := MergeV2025(ms); } else { out := MergeV2023(ms); }
    r := Ok(Some(out));
  }

  // ---------------------------------------------------------------- laws

  lemma {:induction false} CollectSplit<T>(a: seq<AnyManifest>, b: seq<AnyManifest>, part: AnyManifest -> seq<T>)
    ensures Collect(a + b, part) == Collect(a, part) + Collect(b, part)
  {
    if b == [] {
      assert a + b == a;
    } else {
      assert (a + b)[..|a + b| - 1] == a + b[..|b| - 1];
      CollectSplit(a, b[..|b| - 1], part);
    }
  }

  lemma CollectOne<T>(m: AnyManifest, part: AnyManifest -> seq<T>)
    ensures Collect([m], part) == part(m)
  {
    assert [m][..0] == [];
    assert Collect([m], part) == Collect([m][..0], part) + part(m);
  }

  function Over(a: Lookup, b: Lookup): Lookup { Lookup(a.dirs + b.dirs, a.files + b.files, a.paths + b.paths) }

  lemma LookupSplit(a: seq<AnyManifest>, b: seq<AnyManifest>)
    ensures LookupAll(a + b) == Over(LookupAll(a), LookupAll(b))
  {
    CollectSplit(a, b, DirsOf);
    CollectSplit(a, b, FilesOf);
    CollectSplit(a, b, PathsOf);
    LastWinsSplit(AllDirs(a), AllDirs(b), DirPath);
    LastWinsSplit(AllFiles(a), AllFiles(b), FilePath);
    LastWinsSplit(AllPaths(a), AllPaths(b), OldPath);
  }

  lemma {:induction false} AllOfSameVersion(ms: seq<AnyManifest>)
    requires ms != [] && SameVersion(ms)
    ensures ms[0].V2025? ==> AllPaths(ms) == []
    ensures ms[0].V2023? ==> AllDirs(ms) == [] && AllFiles(ms) == []
  {
    var init := ms[..|ms| - 1];
    assert ms[|ms| - 1].V2025? == ms[0].V2025?;
    if init != [] {
      assert forall i | 0 <= i < |init| :: init[i] == ms[i];
      AllOfSameVersion(init);
    }
    assert AllPaths(ms) == AllPaths(init) + PathsOf(ms[|ms| - 1]);
    assert AllDirs(ms) == AllDirs(init) + DirsOf(ms[|ms| - 1]);
    assert AllFiles(ms) == AllFiles(init) + FilesOf(ms[|ms| - 1]);
  }

  /** A merge result looks up what the whole list looks up. */
  lemma MergeLookup(ms: seq<AnyManifest>, r: Result<Option<AnyManifest>, MergeError>)
    requires ms != [] && SameVersion(ms) && IsMerge(ms, r)
    ensures r.Ok? && r.value.Some? && r.value.value.V2025? == ms[0].V2025?
    ensures LookupOf(r.value.value) == LookupAll(ms)
  {
    var out := r.value.value;
    if |ms| == 1 {
      assert ms == [out];
    } else {
      hide LastWins, Collect;
      AllOfSameVersion(ms);
      AllOfSameVersion([out]);
      CollectOne(out, DirsOf);
      CollectOne(out, FilesOf);
      CollectOne(out, PathsOf);
      if out.V2025? {
        LastWinsOfEnumeration(out.m.dirs, LastWins(AllDirs(ms), DirPath), DirPath);
        LastWinsOfEnumeration(out.m.files, LastWins(AllFiles(ms), FilePath), FilePath);
      } else {
        LastWinsOfEnumeration(out.paths, LastWins(AllPaths(ms), OldPath), OldPath);
      }
    }
  }

  lemma SameVersionSplit(a: seq<AnyManifest>, b: seq<AnyManifest>)
    requires a != [] && b != [] && SameVersion(a) && SameVersion(b)
    ensures SameVersion(a + b) <==> a[0].V2025? == b[0].V2025?
  {
    var ms := a + b;
    assert ms[0] == a[0] && ms[|a|] == b[0];
    if a[0].V2025? == b[0].V2025? {
      forall i | 0 <= i < |ms| ensures ms[i].V2025? == ms[0].V2025? {
        if i < |a| { assert ms[i] == a[i]; } else { assert ms[i] == b[i - |a|]; }
      }
    }
  }

  /** Merging in pieces looks up the same as merging at once. */
  lemma MergeInPieces(a: seq<AnyManifest>, b: seq<AnyManifest>, ra: AnyManifest, rb: AnyManifest,
                      pieces: Result<Option<AnyManifest>, MergeError>, whole: Result<Option<AnyManifest>, MergeError>)
    requires a != [] && b != [] && SameVersion(a) && SameVersion(b)
    requires IsMerge(a, Ok(Some(ra))) && IsMerge(b, Ok(Some(rb)))
    requires IsMerge([ra, rb], pieces) && IsMerge(a + b, whole)
    ensures pieces.Ok? == whole.Ok?
    ensures whole.Ok? ==>
              pieces.value.Some? && whole.value.Some? && LookupOf(pieces.value.value) == LookupOf(whole.value.value)
  {
    hide LookupAll, IsMerge, SameVersion;
    MergeLookup(a, Ok(Some(ra)));
    MergeLookup(b, Ok(Some(rb)));
    SameVersionSplit(a, b);
    SingletonVersion(ra);
    SingletonVersion(rb);
    SameVersionSplit([ra], [rb]);
    assert [ra] + [rb] == [ra, rb];
    if SameVersion(a + b) {
      MergeLookup([ra, rb], pieces);
      MergeLookup(a + b, whole);
      LookupSplit(a, b);
      LookupSplit([ra], [rb]);
    } else {
      MixedVersions([ra, rb], pieces);
      MixedVersions(a + b, whole);
    }
  }

  lemma SingletonVersion(m: AnyManifest)
    ensures SameVersion([m])
  {
  }

  lemma MixedVersions(ms: seq<AnyManifest>, r: Result<Option<AnyManifest>, MergeError>)
    requires !SameVersion(ms) && IsMerge(ms, r)
    ensures r == Err(VersionMismatch)
  {
  }

  // ---------------------------------------------------------------- chronological merge

  datatype Stamped = Stamped(manifest: AnyManifest, modified: I64)

  function StampKey(s: Stamped): seq<int> { [s.modified] }

  function Manifests(list: seq<Stamped>): seq<AnyManifest> {
    seq(|list|, i requires 0 <= i < |list| => list[i].manifest)
  }

  /** The order the chronological merge uses: oldest first, ties in input order. */
  function Chronological(list: seq<Stamped>): seq<AnyManifest> { Manifests(Sort(list, StampKey)) }

  /** `merge_manifests_chronologically`. */
  method MergeChronologically(list: seq<Stamped>) returns (r: Result<Option<AnyManifest>, MergeError>)
    ensures IsMerge(Chronological(list), r)
  {
    if list == [] { return Ok(None); }
    var sorted := Sort(list, StampKey);
    r := MergeManifests(Manifests(sorted));
  }

  /** The list position an entry of the whole list comes from. */
  lemma {:induction false} EntrySource<T>(ms: seq<AnyManifest>, part: AnyManifest -> seq<T>, path: T -> string,
                                          p: string)
    returns (k: nat)
    requires p in LastWins(Collect(ms, part), path)
    ensures k < |ms| && p in LastWins(part(ms[k]), path)
    ensures LastWins(part(ms[k]), path)[p] == LastWins(Collect(ms, part), path)[p]
    ensures forall j | k < j < |ms| :: p !in LastWins(part(ms[j]), path)
  {
    var n := |ms| - 1;
    var last := part(ms[n]);
    LastWinsSplit(Collect(ms[..n], part), last, path);
    if p in LastWins(last, path) {
      k := n;
    } else {
      k := EntrySource(ms[..n], part, path, p);
    }
  }

  /** The value a list of stamped manifests has at a path is that of a latest manifest holding the path. */
  ghost predicate FromLatest<T>(list: seq<Stamped>, part: AnyManifest -> seq<T>, path: T -> string, p: string,
                                value: T) {
    exists s | s in list ::
      && p in LastWins(part(s.manifest), path) && LastWins(part(s.manifest), path)[p] == value
      && forall t | t in list && p in LastWins(part(t.manifest), path) :: t.modified <= s.modified
  }

  lemma LatestEntry<T>(list: seq<Stamped>, part: AnyManifest -> seq<T>, path: T -> string, p: string)
    requires p in LastWins(Collect(Chronological(list), part), path)
    ensures FromLatest(list, part, path, p, LastWins(Collect(Chronological(list), part), path)[p])
  {
    hide LastWins, Sort, Collect;
    var sorted := Sort(list, StampKey);
    SortKeeps(list, StampKey);
    SameElements(sorted, list);
    SortSorted(list, StampKey);
    var k := EntrySource(Chronological(list), part, path, p);
    var s := sorted[k];
    assert s in list;
    forall t | t in list && p in LastWins(part(t.manifest), path) ensures t.modified <= s.modified {
      assert t in sorted;
      var j :| 0 <= j < |sorted| && sorted[j] == t;
      assert Chronological(list)[j] == t.manifest;
      if j < k { assert Leq(StampKey(sorted[j]), StampKey(sorted[k])); }
    }
  }

  /** The merged entry of a path, be it a directory, a file or a path of the older format, comes from a manifest with
      the latest timestamp among those that hold the path. */
  lemma LatestWins(list: seq<Stamped>, r: Result<Option<AnyManifest>, MergeError>)
    requires list != [] && SameVersion(Chronological(list)) && IsMerge(Chronological(list), r)
    ensures r.Ok? && r.value.Some?
    ensures var merged := LookupOf(r.value.value);
      && (forall p | p in merged.dirs :: FromLatest(list, DirsOf, DirPath, p, merged.dirs[p]))
      && (forall p | p in merged.files :: FromLatest(list, FilesOf, FilePath, p, merged.files[p]))
      && (forall p | p in merged.paths :: FromLatest(list, PathsOf, OldPath, p, merged.paths[p]))
  {
    hide LastWins, IsMerge, Collect, FromLatest;
    StampedNotEmpty(list);
    MergeLookup(Chronological(list), r);
    var merged := LookupOf(r.value.value);
    forall p | p in merged.dirs ensures FromLatest(list, DirsOf, DirPath, p, merged.dirs[p]) {
      LatestEntry(list, DirsOf, DirPath, p);
    }
    forall p | p in merged.files ensures FromLatest(list, FilesOf, FilePath, p, merged.files[p]) {
      LatestEntry(list, FilesOf, FilePath, p);
    }
    forall p | p in merged.paths ensures FromLatest(list, PathsOf, OldPath, p, merged.paths[p]) {
      LatestEntry(list, PathsOf, OldPath, p);
    }
  }

  lemma StampedNotEmpty(list: seq<Stamped>)
    requires list != []
    ensures Chronological(list) != []
  {
    SortKeeps(list, StampKey);
    SameElements(Sort(list, StampKey), list);
  }

  /** With distinct timestamps the result does not depend on the order of the input. */
  lemma ChronologicalOrderFree(list: seq<Stamped>, other: seq<Stamped>)
    requires multiset(list) == multiset(other)
    requires forall s, t | s in list && t in list && s.modified == t.modified :: s == t
    ensures Chronological(list) == Chronological(other)
  {
    forall s, t | s in list && t in list && StampKey(s) == StampKey(t) ensures s == t {
      assert StampKey(s)[0] == StampKey(t)[0];
    }
    SortOrderFree(list, other, StampKey);
  }
}
