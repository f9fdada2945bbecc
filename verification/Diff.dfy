/** Comparing a directory with a parent manifest, writing the difference as a manifest,
    and what merging that back over the parent reconstructs. */
module Diff {
  import opened Wrappers
  import opened Manifest
  import opened Chunks
  import opened Merge

  type FileBytes = b: Bytes | |b| < U64_LIMIT

  datatype DiskFile = DiskFile(content: FileBytes, mtime: I64, runnable: bool)

  /** What walking the directory collects: regular files by relative path, and directories. */
  datatype Disk = Disk(files: map<string, DiskFile>, dirs: seq<string>)

  /** The glob filter, as the test it applies to a relative path. */
  type Filter = string -> bool

  datatype FileInfo = FileInfo(size: U64, mtime: I64, hash: string)
  datatype DiffMode = Fast | Hash
  datatype Changed = Changed(path: string, size: U64, mtime: I64, runnable: bool)
  /** `untouched` lists the paths reported unchanged. */
  datatype DiffResult = DiffResult(
    added: seq<Changed>, modified: seq<Changed>, deleted: seq<string>, untouched: seq<string>,
    addedDirs: seq<string>, deletedDirs: seq<string>)
  datatype FileSystemError = IoError(path: string)

  // ---------------------------------------------------------------- the parent's view

  /** Entries the comparison sees: not deleted, not a link, with size and time. */
  predicate Comparable(f: FileEntry) { !f.deleted && f.symlinkTarget.None? && f.size.Some? && f.mtime.Some? }

  function InfoOf(f: FileEntry): FileInfo
    requires Comparable(f)
  {
    FileInfo(f.size.value, f.mtime.value, f.hash.GetOr(""))
  }

  function LookupFiles(files: seq<FileEntry>, keep: Filter): map<string, FileInfo> {
    if files == [] then map[]
    else
      var init := LookupFiles(files[..|files| - 1], keep);
      var f := files[|files| - 1];
      if Comparable(f) && keep(f.path) then init[f.path := InfoOf(f)] else init
  }

  function LookupPaths(paths: seq<V2023Path>, keep: Filter): map<string, FileInfo> {
    if paths == [] then map[]
    else
      var init := LookupPaths(paths[..|paths| - 1], keep);
      var p := paths[|paths| - 1];
      if keep(p.path) then init[p.path := FileInfo(p.size, p.mtime, p.hash)] else init
  }

  function ManifestLookup(m: AnyManifest, keep: Filter): map<string, FileInfo> {
    match m
    case V2023(paths) => LookupPaths(paths, keep)
    case V2025(a) => LookupFiles(a.files, keep)
  }

  /** `build_manifest_lookup`. */
  method BuildManifestLookup(m: AnyManifest, keep: Filter) returns (lookup: map<string, FileInfo>)
    ensures lookup == ManifestLookup(m, keep)
  {
    lookup := map[];
    match m {
      case V2023(paths) =>
        for i := 0 to |paths|
          invariant lookup == LookupPaths(paths[..i], keep)
        {
          var p := paths[i];
          if keep(p.path) { lookup := lookup[p.path := FileInfo(p.size, p.mtime, p.hash)]; }
          assert paths[..i + 1][..i] == paths[..i];
        }
        assert paths[..|paths|] == paths;
      case V2025(a) =>
        for i := 0 to |a.files|
          invariant lookup == LookupFiles(a.files[..i], keep)
        {
          var f := a.files[i];
          assert a.files[..i + 1][..i] == a.files[..i];
          if f.deleted || f.symlinkTarget.Some? { continue; }
          if f.size.None? || f.mtime.None? { continue; }
          if keep(f.path) {
            lookup := lookup[f.path := FileInfo(f.size.value, f.mtime.value, f.hash.GetOr(""))];
          }
        }
        assert a.files[..|a.files|] == a.files;
    }
  }

  function LiveDirs(dirs: seq<DirEntry>, keep: Filter): seq<string> {
    if dirs == [] then []
    else LiveDirs(dirs[..|dirs| - 1], keep) +
         (var d := dirs[|dirs| - 1]; if !d.deleted && keep(d.path) then [d.path] else [])
  }

  /** `get_manifest_dirs`. */
  function ManifestDirs(m: AnyManifest, keep: Filter): seq<string> {
    if m.V2023? then [] else LiveDirs(m.m.dirs, keep)
  }

  // ---------------------------------------------------------------- comparison

  function Abs(n: int): nat { if n < 0 then -n else n }

  predicate IsModified(current: DiskFile, info: FileInfo, mode: DiffMode, h: HashFunction) {
    if |current.content| != info.size then true
    else if mode == Fast then Abs(current.mtime - info.mtime) > 1
    else h(current.content) != info.hash
  }

  /** When a difference is noticed: the size differs; or in fast mode the time, by more than a microsecond; or in hash
      mode the hash. */
  lemma NoticedExactly(f: DiskFile, size: U64, mtime: I64, hash: string, h: HashFunction)
    ensures !IsModified(f, FileInfo(size, mtime, hash), Fast, h) <==>
            |f.content| == size && mtime - 1 <= f.mtime <= mtime + 1
    ensures !IsModified(f, FileInfo(size, mtime, hash), Hash, h) <==> |f.content| == size && h(f.content) == hash
  {
  }

  function ChangedOf(p: string, f: DiskFile): Changed { Changed(p, |f.content|, f.mtime, f.runnable) }

  function PathsOf(s: seq<Changed>): seq<string> {
    seq(|s|, i requires 0 <= i < |s| => s[i].path)
  }

  /** Each element once, and no others. */
  predicate ListsOnce(s: seq<string>, want: set<string>) {
    (forall i, j | 0 <= i < j < |s| :: s[i] != s[j]) && (forall p | p in s :: p in want)
      && (forall p | p in want :: p in s)
  }

  predicate ListsChanged(s: seq<Changed>, disk: Disk, want: set<string>) {
    && ListsOnce(PathsOf(s), want)
    && forall i | 0 <= i < |s| :: s[i].path in disk.files && s[i] == ChangedOf(s[i].path, disk.files[s[i].path])
  }

  function Common(disk: Disk, lookup: map<string, FileInfo>): set<string> { disk.files.Keys * lookup.Keys }

  function ModifiedPaths(disk: Disk, lookup: map<string, FileInfo>, mode: DiffMode, h: HashFunction): set<string> {
    set p | p in Common(disk, lookup) && IsModified(disk.files[p], lookup[p], mode, h)
  }

  function Without(s: seq<string>, drop: seq<string>): seq<string> {
    if s == [] then []
    else Without(s[..|s| - 1], drop) + (var d := s[|s| - 1]; if d in drop then [] else [d])
  }

  /** The four file categories partition the paths on either side; directories compare as sets. */
  ghost predicate IsDiff(r: DiffResult, disk: Disk, lookup: map<string, FileInfo>, parentDirs: seq<string>,
                         mode: DiffMode, h: HashFunction) {
    var modified := ModifiedPaths(disk, lookup, mode, h);
    && ListsChanged(r.added, disk, disk.files.Keys - lookup.Keys)
    && ListsChanged(r.modified, disk, modified)
    && ListsOnce(r.untouched, Common(disk, lookup) - modified)
    && ListsOnce(r.deleted, lookup.Keys - disk.files.Keys)
    && r.addedDirs == Without(disk.dirs, parentDirs)
    && r.deletedDirs == Without(parentDirs, disk.dirs)
  }

  lemma ListsPush(s: seq<string>, want: set<string>, p: string)
    requires ListsOnce(s, want) && p !in want
    ensures ListsOnce(s + [p], want + {p})
  {
    forall q | q in want + {p} ensures q in s + [p] {
      if q == p { assert (s + [p])[|s|] == p; }
    }
  }

  lemma ChangedPush(s: seq<Changed>, disk: Disk, want: set<string>, p: string)
    requires ListsChanged(s, disk, want) && p !in want && p in disk.files
    ensures ListsChanged(s + [ChangedOf(p, disk.files[p])], disk, want + {p})
  {
    var t := s + [ChangedOf(p, disk.files[p])];
    assert PathsOf(t) == PathsOf(s) + [p];
    ListsPush(PathsOf(s), want, p);
  }

  /** The categorisation loops of `diff`, in whatever order the hash maps are visited. */
  method Categorise(disk: Disk, lookup: map<string, FileInfo>, parentDirs: seq<string>, mode: DiffMode, h: HashFunction)
    returns (r: DiffResult)
    ensures IsDiff(r, disk, lookup, parentDirs, mode, h)
  {
    hide ListsChanged, ListsOnce, Without, IsModified;
    ghost var modifiedPaths := ModifiedPaths(disk, lookup, mode, h);
    var added: seq<Changed>, modified: seq<Changed> := [], [];
    var untouched: seq<string>, deleted: seq<string> := [], [];
    var rest := disk.files.Keys;
    ghost var done: set<string> := {};
    NothingListed(disk);
    while rest != {}
      invariant rest !! done && rest + done == disk.files.Keys
      invariant ListsChanged(added, disk, done - lookup.Keys)
      invariant ListsChanged(modified, disk, done * modifiedPaths)
      invariant ListsOnce(untouched, done * lookup.Keys - modifiedPaths)
      decreases rest
    {
      var path :| path in rest;
      var current := disk.files[path];
      if path in lookup {
        if IsModified(current, lookup[path], mode, h) {
          ChangedPush(modified, disk, done * modifiedPaths, path);
          modified := modified + [ChangedOf(path, current)];
          assert path in modifiedPaths;
          assert done * modifiedPaths + {path} == (done + {path}) * modifiedPaths;
          assert (done + {path}) * lookup.Keys - modifiedPaths == done * lookup.Keys - modifiedPaths;
        } else {
          ListsPush(untouched, done * lookup.Keys - modifiedPaths, path);
          untouched := untouched + [path];
          assert path !in modifiedPaths;
          assert done * lookup.Keys - modifiedPaths + {path} == (done + {path}) * lookup.Keys - modifiedPaths;
          assert (done + {path}) * modifiedPaths == done * modifiedPaths;
        }
        assert (done + {path}) - lookup.Keys == done - lookup.Keys;
      } else {
        ChangedPush(added, disk, done - lookup.Keys, path);
        added := added + [ChangedOf(path, current)];
        assert done - lookup.Keys + {path} == (done + {path}) - lookup.Keys;
        assert path !in modifiedPaths;
        assert (done + {path}) * modifiedPaths == done * modifiedPaths;
        assert (done + {path}) * lookup.Keys - modifiedPaths == done * lookup.Keys - modifiedPaths;
      }
      rest := rest - {path};
      done := done + {path};
    }
    assert done == disk.files.Keys;
    assert done * modifiedPaths == modifiedPaths;
    assert done * lookup.Keys - modifiedPaths == Common(disk, lookup) - modifiedPaths;
    var keys := lookup.Keys;
    ghost var seen: set<string> := {};
    while keys != {}
      invariant keys !! seen && keys + seen == lookup.Keys
      invariant ListsOnce(deleted, seen - disk.files.Keys)
      decreases keys
    {
      var path :| path in keys;
      if path !in disk.files {
        ListsPush(deleted, seen - disk.files.Keys, path);
        deleted := deleted + [path];
        assert seen - disk.files.Keys + {path} == (seen + {path}) - disk.files.Keys;
      } else {
        assert (seen + {path}) - disk.files.Keys == seen - disk.files.Keys;
      }
      keys := keys - {path};
      seen := seen + {path};
    }
    assert seen == lookup.Keys;
    r := DiffResult(added, modified, deleted, untouched, Without(disk.dirs, parentDirs),
      Without(parentDirs, disk.dirs));
  }

  /** `diff`, on what the walk of the directory collected: look the parent up, then categorise. */
  method DiffDirectory(parent: AnyManifest, keep: Filter, disk: Disk, mode: DiffMode, h: HashFunction)
    returns (r: DiffResult)
    ensures IsDiff(r, disk, ManifestLookup(parent, keep), ManifestDirs(parent, keep), mode, h)
  {
    hide IsDiff;
    var lookup := BuildManifestLookup(parent, keep);
    r := Categorise(disk, lookup, ManifestDirs(parent, keep), mode, h);
  }

  lemma NothingListed(disk: Disk)
    ensures ListsOnce([], {}) && ListsChanged([], disk, {})
    ensures forall s: set<string> :: {} - s == {} && {} * s == {}
  {
    assert PathsOf([]) == [];
  }

  // ---------------------------------------------------------------- the diff manifest

  function EntryFor(p: string, f: DiskFile, h: HashFunction): FileEntry {
    RegularFile(p, h(f.content), |f.content|, f.mtime, f.runnable)
  }

  /** Hash each changed file again and describe it with the compared size and time. */
  function ChangedEntries(s: seq<Changed>, disk: Disk, h: HashFunction): seq<FileEntry>
    requires forall i | 0 <= i < |s| :: s[i].path in disk.files
  {
    if s == [] then []
    else
      var e := s[|s| - 1];
      ChangedEntries(s[..|s| - 1], disk, h)
        + [RegularFile(e.path, h(disk.files[e.path].content), e.size, e.mtime, e.runnable)]
  }

  function DeletedEntries(s: seq<string>): seq<FileEntry> {
    if s == [] then [] else DeletedEntries(s[..|s| - 1]) + [DeletedFile(s[|s| - 1])]
  }

  function DirMarkers(s: seq<string>, deleted: bool): seq<DirEntry> {
    if s == [] then [] else DirMarkers(s[..|s| - 1], deleted) + [DirEntry(s[|s| - 1], deleted)]
  }

  predicate OnDisk(s: seq<Changed>, disk: Disk) { forall i | 0 <= i < |s| :: s[i].path in disk.files }

  function DiffManifest(parentBytes: Bytes, r: DiffResult, disk: Disk, h: HashFunction): AssetManifest
    requires OnDisk(r.added, disk) && OnDisk(r.modified, disk)
  {
    WithSpec(
      DirMarkers(r.addedDirs, false) + DirMarkers(r.deletedDirs, true),
      ChangedEntries(r.added, disk, h) + ChangedEntries(r.modified, disk, h) + DeletedEntries(r.deleted),
      SpecVersion(Relative, ManifestType.Diff), Some(h(parentBytes)))
  }

  method HashChanged(s: seq<Changed>, disk: Disk, h: HashFunction) returns (r: Result<seq<FileEntry>, FileSystemError>)
    ensures r.Ok? <==> OnDisk(s, disk)
    ensures r.Ok? ==> r.value == ChangedEntries(s, disk, h)
    ensures r.Err? ==> exists i | 0 <= i < |s| :: s[i].path !in disk.files && r.error == IoError(s[i].path)
  {
    var entries: seq<FileEntry> := [];
    for i := 0 to |s|
      invariant OnDisk(s[..i], disk) && entries == ChangedEntries(s[..i], disk, h)
    {
      var e := s[i];
      if e.path !in disk.files { return Err(IoError(e.path)); }
      entries := entries + [RegularFile(e.path, h(disk.files[e.path].content), e.size, e.mtime, e.runnable)];
      assert s[..i + 1][..i] == s[..i];
    }
    assert s[..|s|] == s;
    r := Ok(entries);
  }

  method MarkDeleted(s: seq<string>) returns (entries: seq<FileEntry>)
    ensures entries == DeletedEntries(s)
  {
    entries := [];
    for i := 0 to |s|
      invariant entries == DeletedEntries(s[..i])
    {
      entries := entries + [DeletedFile(s[i])];
      assert s[..i + 1][..i] == s[..i];
    }
    assert s[..|s|] == s;
  }

  method MarkDirs(s: seq<string>, deleted: bool) returns (entries: seq<DirEntry>)
    ensures entries == DirMarkers(s, deleted)
  {
    entries := [];
    for i := 0 to |s|
      invariant entries == DirMarkers(s[..i], deleted)
    {
      entries := entries + [DirEntry(s[i], deleted)];
      assert s[..i + 1][..i] == s[..i];
    }
    assert s[..|s|] == s;
  }

  /** `create_diff_manifest`: fails only when a changed file is gone. */
  method CreateDiffManifest(parentBytes: Bytes, d: DiffResult, disk: Disk,
                            h: HashFunction) returns (r: Result<AnyManifest, FileSystemError>)
    ensures r.Ok? <==> OnDisk(d.added, disk) && OnDisk(d.modified, disk)
    ensures r.Ok? ==> r.value == V2025(DiffManifest(parentBytes, d, disk, h))
    ensures r.Ok? ==> r.value.V2025? && r.value.m.parentHash == Some(h(parentBytes))
    ensures r.Ok? ==> r.value.m.spec == SpecVersion(Relative, ManifestType.Diff)
    ensures r.Err? ==> exists i | 0 <= i < |d.added + d.modified| ::
              (d.added + d.modified)[i].path !in disk.files && r.error == IoError((d.added + d.modified)[i].path)
  {
    hide ChangedEntries, DeletedEntries, DirMarkers, TotalSize;
    var parentHash := h(parentBytes);
    var added := HashChanged(d.added, disk, h);
    if added.Err? {
      var i :| 0 <= i < |d.added| && d.added[i].path !in disk.files && added.error == IoError(d.added[i].path);
      assert (d.added + d.modified)[i] == d.added[i];
      return Err(added.error);
    }
    var modified := HashChanged(d.modified, disk, h);
    if modified.Err? {
      var i :| 0 <= i < |d.modified| && d.modified[i].path !in disk.files
        && modified.error == IoError(d.modified[i].path);
      assert (d.added + d.modified)[|d.added| + i] == d.modified[i];
      return Err(modified.error);
    }
    var deleted := MarkDeleted(d.deleted);
    var addedDirs := MarkDirs(d.addedDirs, false);
    var deletedDirs := MarkDirs(d.deletedDirs, true);
    r := Ok(V2025(WithSpec(addedDirs + deletedDirs, added.value + modified.value + deleted,
                           SpecVersion(Relative, ManifestType.Diff), Some(parentHash))));
  }

  // ---------------------------------------------------------------- what the pieces look up

  /** An entry a download would materialise as a regular file. */
  predicate LiveFile(files: map<string, FileEntry>, p: string) {
    p in files && !files[p].deleted && files[p].symlinkTarget.None?
  }

  predicate LiveDir(dirs: map<string, DirEntry>, d: string) { d in dirs && !dirs[d].deleted }

  ghost predicate DistinctFiles(files: seq<FileEntry>) {
    forall i, j | 0 <= i < j < |files| :: files[i].path != files[j].path
  }

  ghost predicate DistinctDirs(dirs: seq<DirEntry>) {
    forall i, j | 0 <= i < j < |dirs| :: dirs[i].path != dirs[j].path
  }

  /** A key of the map is the path of some listed entry. */
  lemma NotYetListed<T>(entries: seq<T>, path: T -> string, p: string)
    requires forall i | 0 <= i < |entries| :: path(entries[i]) != p
    ensures p !in LastWins(entries, path)
  {
    if p in LastWins(entries, path) {
      var i := LastWinsSource(entries, path, p);
    }
  }

  /** For a valid parent with distinct paths the comparison sees exactly the live files that pass the filter. */
  lemma {:induction false} ParentView(files: seq<FileEntry>, keep: Filter, p: string)
    requires DistinctFiles(files) && ValidEntries(files, true)
    ensures p in LookupFiles(files, keep) <==> keep(p) && LiveFile(LastWins(files, FilePath), p)
    ensures p in LookupFiles(files, keep) ==>
              Comparable(LastWins(files, FilePath)[p])
                && LookupFiles(files, keep)[p] == InfoOf(LastWins(files, FilePath)[p])
  {
    if files != [] {
      var n := |files| - 1;
      ParentView(files[..n], keep, p);
      NotYetListed(files[..n], FilePath, files[n].path);
      assert ValidateEntry(files[n], true).Ok?;
    }
  }

  /** A parent of the older format: every path that passes the filter is seen, the last of equals. */
  lemma {:induction false} OldParentView(paths: seq<V2023Path>, keep: Filter, p: string)
    ensures p in LookupPaths(paths, keep) <==> keep(p) && p in LastWins(paths, OldPath)
    ensures p in LookupPaths(paths, keep) ==>
              var e := LastWins(paths, OldPath)[p]; LookupPaths(paths, keep)[p] == FileInfo(e.size, e.mtime, e.hash)
    ensures ManifestDirs(V2023(paths), keep) == [] && ManifestLookup(V2023(paths), keep) == LookupPaths(paths, keep)
  {
    if paths != [] { OldParentView(paths[..|paths| - 1], keep, p); }
  }

  lemma {:induction false} ParentDirView(dirs: seq<DirEntry>, keep: Filter, d: string)
    requires DistinctDirs(dirs)
    ensures d in LiveDirs(dirs, keep) <==> keep(d) && LiveDir(LastWins(dirs, DirPath), d)
  {
    if dirs != [] {
      var n := |dirs| - 1;
      ParentDirView(dirs[..n], keep, d);
      NotYetListed(dirs[..n], DirPath, dirs[n].path);
    }
  }

  lemma {:induction false} ChangedLookup(s: seq<Changed>, disk: Disk, h: HashFunction, p: string)
    requires forall i | 0 <= i < |s| :: s[i].path in disk.files && s[i] == ChangedOf(s[i].path, disk.files[s[i].path])
    ensures p in LastWins(ChangedEntries(s, disk, h), FilePath) <==> p in PathsOf(s)
    ensures p in PathsOf(s) ==>
              p in disk.files && LastWins(ChangedEntries(s, disk, h), FilePath)[p] == EntryFor(p, disk.files[p], h)
  {
    if s != [] {
      var n := |s| - 1;
      ChangedLookup(s[..n], disk, h, p);
      assert PathsOf(s) == PathsOf(s[..n]) + [s[n].path];
      var entries := ChangedEntries(s, disk, h);
      assert entries[..|entries| - 1] == ChangedEntries(s[..n], disk, h);
    }
  }

  lemma {:induction false} DeletedLookup(s: seq<string>, p: string)
    ensures p in LastWins(DeletedEntries(s), FilePath) <==> p in s
    ensures p in s ==> LastWins(DeletedEntries(s), FilePath)[p] == DeletedFile(p)
  {
    if s != [] {
      var n := |s| - 1;
      DeletedLookup(s[..n], p);
      assert s == s[..n] + [s[n]];
      assert DeletedEntries(s)[..|DeletedEntries(s)| - 1] == DeletedEntries(s[..n]);
    }
  }

  lemma {:induction false} DirMarkerLookup(s: seq<string>, deleted: bool, d: string)
    ensures d in LastWins(DirMarkers(s, deleted), DirPath) <==> d in s
    ensures d in s ==> LastWins(DirMarkers(s, deleted), DirPath)[d] == DirEntry(d, deleted)
  {
    if s != [] {
      var n := |s| - 1;
      DirMarkerLookup(s[..n], deleted, d);
      assert s == s[..n] + [s[n]];
      assert DirMarkers(s, deleted)[..|DirMarkers(s, deleted)| - 1] == DirMarkers(s[..n], deleted);
    }
  }

  lemma {:induction false} WithoutMembers(s: seq<string>, drop: seq<string>, d: string)
    ensures d in Without(s, drop) <==> d in s && d !in drop
  {
    if s != [] {
      WithoutMembers(s[..|s| - 1], drop, d);
      assert s == s[..|s| - 1] + [s[|s| - 1]];
    }
  }

  // ---------------------------------------------------------------- reconstruction

  /** An entry states the size and the true content hash, or the true chunk hashes, of some bytes. */
  predicate Describes(e: FileEntry, content: FileBytes, h: HashFunction) {
    && e.size == Some(|content|)
    && (e.hash == Some(h(content)) ||
        (e.hash.None? && content != [] && e.chunkHashes == Some(ChunkHashes(content, CHUNK_SIZE, h))))
  }

  /** The situation of the theorems: a valid parent without repeated paths, a walk limited by the filter,
      a diff of the two, and the diff manifest made from it. */
  ghost predicate Scenario(parent: AssetManifest, keep: Filter, disk: Disk, mode: DiffMode, h: HashFunction,
                           r: DiffResult) {
    && ValidEntries(parent.files, true) && DistinctFiles(parent.files) && DistinctDirs(parent.dirs)
    && (forall p | p in disk.files :: keep(p)) && (forall d | d in disk.dirs :: keep(d))
    && IsDiff(r, disk, ManifestLookup(V2025(parent), keep), ManifestDirs(V2025(parent), keep), mode, h)
  }

  function ParentFiles(parent: AssetManifest): map<string, FileEntry> { LastWins(parent.files, FilePath) }
  function ParentDirs(parent: AssetManifest): map<string, DirEntry> { LastWins(parent.dirs, DirPath) }

  /** What merging the parent with the diff manifest looks up. */
  function Merged(parent: AssetManifest, diff: AssetManifest): Lookup { LookupAll([V2025(parent), V2025(diff)]) }

  /** What each list adds to the diff manifest: one entry per path, in the order of the list, and every one valid. */
  lemma {:induction false} ChangedEntriesValid(s: seq<Changed>, disk: Disk, h: HashFunction)
    requires OnDisk(s, disk)
    ensures |ChangedEntries(s, disk, h)| == |s|
    ensures forall i | 0 <= i < |s| ::
              ChangedEntries(s, disk, h)[i].path == s[i].path && !ChangedEntries(s, disk, h)[i].deleted
              && ValidateEntry(ChangedEntries(s, disk, h)[i], false).Ok?
  {
    if s != [] { ChangedEntriesValid(s[..|s| - 1], disk, h); }
  }

  lemma {:induction false} DeletedEntriesValid(s: seq<string>)
    ensures |DeletedEntries(s)| == |s|
    ensures forall i | 0 <= i < |s| ::
              DeletedEntries(s)[i].path == s[i] && DeletedEntries(s)[i].deleted
              && ValidateEntry(DeletedEntries(s)[i], false).Ok?
  {
    if s != [] { DeletedEntriesValid(s[..|s| - 1]); }
  }

  lemma {:induction false} DirMarkersShape(s: seq<string>, deleted: bool)
    ensures |DirMarkers(s, deleted)| == |s|
    ensures forall i | 0 <= i < |s| :: DirMarkers(s, deleted)[i] == DirEntry(s[i], deleted)
  {
    if s != [] { DirMarkersShape(s[..|s| - 1], deleted); }
  }

  /** The diff manifest is a relative diff that names its parent, and carries one entry per path reported. */
  lemma DiffSays(parentBytes: Bytes, r: DiffResult, disk: Disk, h: HashFunction)
    requires OnDisk(r.added, disk) && OnDisk(r.modified, disk)
    ensures var m := DiffManifest(parentBytes, r, disk, h);
      && m.parentHash == Some(h(parentBytes)) && m.spec == SpecVersion(Relative, ManifestType.Diff)
      && m.totalSize == SumSizes(m.files) % U64_LIMIT
      && |m.files| == |r.added| + |r.modified| + |r.deleted| && |m.dirs| == |r.addedDirs| + |r.deletedDirs|
  {
    hide ChangedEntries, DeletedEntries, DirMarkers, SumSizes;
    ChangedEntriesValid(r.added, disk, h);
    ChangedEntriesValid(r.modified, disk, h);
    DeletedEntriesValid(r.deleted);
    DirMarkersShape(r.addedDirs, false);
    DirMarkersShape(r.deletedDirs, true);
  }

  lemma DiffEntries(parentBytes: Bytes, r: DiffResult, disk: Disk, h: HashFunction)
    requires OnDisk(r.added, disk) && OnDisk(r.modified, disk)
    ensures ValidEntries(DiffManifest(parentBytes, r, disk, h).files, false)
  {
    hide ChangedEntries, DeletedEntries, DirMarkers, SumSizes, ValidateEntry, ValidEntries;
    ChangedEntriesValid(r.added, disk, h);
    ChangedEntriesValid(r.modified, disk, h);
    DeletedEntriesValid(r.deleted);
    AllValid(ChangedEntries(r.added, disk, h), ChangedEntries(r.modified, disk, h), DeletedEntries(r.deleted));
  }

  /** It is valid, whether or not entries without a hash are allowed. */
  lemma DiffIsValid(parentBytes: Bytes, r: DiffResult, disk: Disk, h: HashFunction, allowUnhashed: bool)
    requires OnDisk(r.added, disk) && OnDisk(r.modified, disk)
    ensures IsValid(DiffManifest(parentBytes, r, disk, h), allowUnhashed)
  {
    DiffSays(parentBytes, r, disk, h);
    DiffEntries(parentBytes, r, disk, h);
    hide DiffManifest;
    var files := DiffManifest(parentBytes, r, disk, h).files;
    forall i | 0 <= i < |files| ensures ValidateEntry(files[i], allowUnhashed).Ok? {
      assert ValidateEntry(files[i], false).Ok?;
    }
  }

  /** And it lists no file twice, when it comes from a comparison. */
  lemma DiffIsDistinct(parent: AssetManifest, keep: Filter, disk: Disk, mode: DiffMode, h: HashFunction, r: DiffResult,
                       parentBytes: Bytes)
    requires Scenario(parent, keep, disk, mode, h, r)
    ensures OnDisk(r.added, disk) && OnDisk(r.modified, disk)
    ensures DistinctFiles(DiffManifest(parentBytes, r, disk, h).files)
  {
    Disjoint(r, disk, ManifestLookup(V2025(parent), keep), ManifestDirs(V2025(parent), keep), mode, h);
    assert OnDisk(r.added, disk) && OnDisk(r.modified, disk);
    hide Scenario, IsDiff, SumSizes, ChangedEntries, DeletedEntries, DirMarkers, DistinctFiles, ValidateEntry;
    ChangedEntriesValid(r.added, disk, h);
    ChangedEntriesValid(r.modified, disk, h);
    DeletedEntriesValid(r.deleted);
    AllDistinct(ChangedEntries(r.added, disk, h), PathsOf(r.added), ChangedEntries(r.modified, disk, h),
                PathsOf(r.modified), DeletedEntries(r.deleted), r.deleted);
  }

  /** The paths added, modified and deleted are listed once each, and in one list only. */
  lemma Disjoint(r: DiffResult, disk: Disk, lookup: map<string, FileInfo>, parentDirs: seq<string>,
                 mode: DiffMode, h: HashFunction)
    requires IsDiff(r, disk, lookup, parentDirs, mode, h)
    ensures forall i, j | 0 <= i < j < |PathsOf(r.added)| :: PathsOf(r.added)[i] != PathsOf(r.added)[j]
    ensures forall i, j | 0 <= i < j < |PathsOf(r.modified)| :: PathsOf(r.modified)[i] != PathsOf(r.modified)[j]
    ensures forall i, j | 0 <= i < j < |r.deleted| :: r.deleted[i] != r.deleted[j]
    ensures forall p | p in PathsOf(r.added) :: p !in PathsOf(r.modified)
    ensures forall p | p in PathsOf(r.added) + PathsOf(r.modified) :: p !in r.deleted
  {
    hide IsModified, Without;
    assert forall p | p in PathsOf(r.added) + PathsOf(r.modified) :: p in PathsOf(r.added) || p in PathsOf(r.modified);
    assert forall p | p in PathsOf(r.added) :: p in disk.files.Keys - lookup.Keys;
    assert forall p | p in PathsOf(r.modified) :: p in Common(disk, lookup);
  }

  lemma AllDistinct(a: seq<FileEntry>, x: seq<string>, b: seq<FileEntry>, y: seq<string>,
                    c: seq<FileEntry>, z: seq<string>)
    requires |a| == |x| && |b| == |y| && |c| == |z|
    requires forall i | 0 <= i < |a| :: a[i].path == x[i]
    requires forall i | 0 <= i < |b| :: b[i].path == y[i]
    requires forall i | 0 <= i < |c| :: c[i].path == z[i]
    requires forall i, j | 0 <= i < j < |x| :: x[i] != x[j]
    requires forall i, j | 0 <= i < j < |y| :: y[i] != y[j]
    requires forall i, j | 0 <= i < j < |z| :: z[i] != z[j]
    requires (forall p | p in x :: p !in y) && forall p | p in x + y :: p !in z
    ensures DistinctFiles(a + b + c)
  {
    DistinctJoin(x, y);
    DistinctJoin(x + y, z);
    var files, paths := a + b + c, x + y + z;
    assert |files| == |paths| && forall i | 0 <= i < |files| :: files[i].path == paths[i];
  }

  lemma DistinctJoin(x: seq<string>, y: seq<string>)
    requires forall i, j | 0 <= i < j < |x| :: x[i] != x[j]
    requires forall i, j | 0 <= i < j < |y| :: y[i] != y[j]
    requires forall p | p in x :: p !in y
    ensures forall i, j | 0 <= i < j < |x + y| :: (x + y)[i] != (x + y)[j]
  {
    var s := x + y;
    forall i, j | 0 <= i < j < |s| ensures s[i] != s[j] {
      if i < |x| && |x| <= j { assert s[i] in x && s[j] == y[j - |x|] && s[j] in y; }
    }
  }

  lemma AllValid(a: seq<FileEntry>, b: seq<FileEntry>, c: seq<FileEntry>)
    requires forall i | 0 <= i < |a| :: ValidateEntry(a[i], false).Ok?
    requires forall i | 0 <= i < |b| :: ValidateEntry(b[i], false).Ok?
    requires forall i | 0 <= i < |c| :: ValidateEntry(c[i], false).Ok?
    ensures ValidEntries(a + b + c, false)
  {
    hide ValidateEntry;
  }

  lemma MergedSplits(parent: AssetManifest, diff: AssetManifest)
    ensures Merged(parent, diff).files == LastWins(parent.files, FilePath) + LastWins(diff.files, FilePath)
    ensures Merged(parent, diff).dirs == LastWins(parent.dirs, DirPath) + LastWins(diff.dirs, DirPath)
  {
    assert [V2025(parent), V2025(diff)] == [V2025(parent)] + [V2025(diff)];
    LookupSplit([V2025(parent)], [V2025(diff)]);
    CollectOne(V2025(parent), FilesOf);
    CollectOne(V2025(diff), FilesOf);
    CollectOne(V2025(parent), DirsOf);
    CollectOne(V2025(diff), DirsOf);
  }

  /** What the diff manifest says of a path. */
  lemma DiffFilesAt(r: DiffResult, disk: Disk, h: HashFunction, parentBytes: Bytes, p: string)
    requires forall i | 0 <= i < |r.added| ::
               r.added[i].path in disk.files && r.added[i] == ChangedOf(r.added[i].path, disk.files[r.added[i].path])
    requires forall i | 0 <= i < |r.modified| ::
               r.modified[i].path in disk.files
               && r.modified[i] == ChangedOf(r.modified[i].path, disk.files[r.modified[i].path])
    ensures var files := LastWins(DiffManifest(parentBytes, r, disk, h).files, FilePath);
      && (p in files <==> p in PathsOf(r.added) || p in PathsOf(r.modified) || p in r.deleted)
      && (p in r.deleted ==> files[p] == DeletedFile(p))
      && (p !in r.deleted && p in files ==> p in disk.files && files[p] == EntryFor(p, disk.files[p], h))
  {
    var a, m, d := ChangedEntries(r.added, disk, h), ChangedEntries(r.modified, disk, h), DeletedEntries(r.deleted);
    LastWinsSplit(a + m, d, FilePath);
    LastWinsSplit(a, m, FilePath);
    ChangedLookup(r.added, disk, h, p);
    ChangedLookup(r.modified, disk, h, p);
    DeletedLookup(r.deleted, p);
  }

  /** File by file, what the merge holds: files of the directory and nothing else within the filter;
      added and modified ones described afresh, untouched ones as the parent had them;
      outside the filter the parent shows through. */
  lemma MergedFileAt(parent: AssetManifest, keep: Filter, disk: Disk, mode: DiffMode, h: HashFunction, r: DiffResult,
                     parentBytes: Bytes, p: string)
    requires Scenario(parent, keep, disk, mode, h, r)
    ensures OnDisk(r.added, disk) && OnDisk(r.modified, disk)
    ensures var merged := Merged(parent, DiffManifest(parentBytes, r, disk, h)).files;
      && (keep(p) ==> (LiveFile(merged, p) <==> p in disk.files))
      && (p in disk.files && p !in r.untouched ==> merged[p] == EntryFor(p, disk.files[p], h))
      && (p in r.untouched ==> p in disk.files && p in ParentFiles(parent) && merged[p] == ParentFiles(parent)[p])
      && (!keep(p) ==>
          (p in merged <==> p in ParentFiles(parent)) && (p in merged ==> merged[p] == ParentFiles(parent)[p]))
  {
    hide IsModified, LastWins, LookupFiles, LiveDirs, Without, ChangedEntries, DiffManifest, ValidEntries;
    var lookup := LookupFiles(parent.files, keep);
    ParentView(parent.files, keep, p);
    MergedSplits(parent, DiffManifest(parentBytes, r, disk, h));
    DiffFilesAt(r, disk, h, parentBytes, p);
    assert p in lookup ==> keep(p);
  }

  lemma MergedDirAt(parent: AssetManifest, keep: Filter, disk: Disk, mode: DiffMode, h: HashFunction, r: DiffResult,
                    parentBytes: Bytes, d: string)
    requires Scenario(parent, keep, disk, mode, h, r)
    ensures OnDisk(r.added, disk) && OnDisk(r.modified, disk)
    ensures var merged := Merged(parent, DiffManifest(parentBytes, r, disk, h)).dirs;
      && (keep(d) ==> (LiveDir(merged, d) <==> d in disk.dirs))
      && (!keep(d) ==> (LiveDir(merged, d) <==> LiveDir(ParentDirs(parent), d)))
  {
    hide IsModified, LastWins, LookupFiles, LiveDirs, Without, ChangedEntries, DirMarkers, ValidEntries;
    var parentDirs := LiveDirs(parent.dirs, keep);
    ParentDirView(parent.dirs, keep, d);
    MergedSplits(parent, DiffManifest(parentBytes, r, disk, h));
    LastWinsSplit(DirMarkers(r.addedDirs, false), DirMarkers(r.deletedDirs, true), DirPath);
    DirMarkerLookup(r.addedDirs, false, d);
    DirMarkerLookup(r.deletedDirs, true, d);
    WithoutMembers(disk.dirs, parentDirs, d);
    WithoutMembers(parentDirs, disk.dirs, d);
  }

  predicate LinkAt(files: map<string, FileEntry>, p: string) { p in files && files[p].symlinkTarget.Some? }

  /** Neither the walk nor the lookup sees links: a merge has exactly the parent's links, except where the directory
      now has a regular file. */
  lemma LinksOfMerge(parent: AssetManifest, keep: Filter, disk: Disk, mode: DiffMode, h: HashFunction, r: DiffResult,
                     parentBytes: Bytes, p: string)
    requires Scenario(parent, keep, disk, mode, h, r)
    ensures OnDisk(r.added, disk) && OnDisk(r.modified, disk)
    ensures var merged := Merged(parent, DiffManifest(parentBytes, r, disk, h)).files;
      && (LinkAt(merged, p) <==> LinkAt(ParentFiles(parent), p) && p !in disk.files)
      && (LinkAt(merged, p) ==> merged[p] == ParentFiles(parent)[p])
  {
    hide IsModified, LastWins, LookupFiles, LiveDirs, Without, ChangedEntries, DiffManifest, ValidEntries;
    ParentView(parent.files, keep, p);
    MergedSplits(parent, DiffManifest(parentBytes, r, disk, h));
    DiffFilesAt(r, disk, h, parentBytes, p);
    assert p in LookupFiles(parent.files, keep) ==> keep(p);
  }

  /** The merge has the links the directory has, with their targets; `links` are those the walk passes over. */
  ghost predicate HasLinks(merged: map<string, FileEntry>, keep: Filter, links: map<string, string>) {
    forall p | keep(p) ::
      (LinkAt(merged, p) <==> p in links) && (p in links ==> merged[p].symlinkTarget == Some(links[p]))
  }

  /** Exactly when the directory's links are the parent's links, other than those a regular file has replaced: a link
      that is gone stays, a new or changed one is not recorded. */
  lemma LinksReconstructedExactly(parent: AssetManifest, keep: Filter, disk: Disk, mode: DiffMode, h: HashFunction,
                                  r: DiffResult, parentBytes: Bytes, links: map<string, string>)
    requires Scenario(parent, keep, disk, mode, h, r)
    ensures OnDisk(r.added, disk) && OnDisk(r.modified, disk)
    ensures HasLinks(Merged(parent, DiffManifest(parentBytes, r, disk, h)).files, keep, links) <==>
            forall p | keep(p) ::
              (p in links <==> LinkAt(ParentFiles(parent), p) && p !in disk.files)
              && (p in links ==> ParentFiles(parent)[p].symlinkTarget == Some(links[p]))
  {
    LinksOfMerge(parent, keep, disk, mode, h, r, parentBytes, "");
    hide Scenario, Merged, DiffManifest, OnDisk, ParentFiles;
    var merged := Merged(parent, DiffManifest(parentBytes, r, disk, h)).files;
    forall p
      ensures LinkAt(merged, p) <==> LinkAt(ParentFiles(parent), p) && p !in disk.files
      ensures LinkAt(merged, p) ==> merged[p] == ParentFiles(parent)[p]
    {
      LinksOfMerge(parent, keep, disk, mode, h, r, parentBytes, p);
    }
  }

  /** The merge reconstructs the directory: same live files with true sizes and hashes, same live directories. */
  ghost predicate Reconstructs(merged: Lookup, keep: Filter, disk: Disk, h: HashFunction) {
    && (forall p | keep(p) :: LiveFile(merged.files, p) <==> p in disk.files)
    && (forall p | p in disk.files :: LiveFile(merged.files, p) && Describes(merged.files[p], disk.files[p].content, h))
    && (forall d | keep(d) :: LiveDir(merged.dirs, d) <==> d in disk.dirs)
  }

  /** Both sides have the file and the comparison finds no difference. */
  predicate Unnoticed(parent: AssetManifest, disk: Disk, mode: DiffMode, h: HashFunction, p: string) {
    && p in disk.files && LiveFile(ParentFiles(parent), p) && Comparable(ParentFiles(parent)[p])
    && !IsModified(disk.files[p], InfoOf(ParentFiles(parent)[p]), mode, h)
  }

  /** Both sides have the file, and size and time, or size and hash, agree; a parent without a hash counts as having the
      empty one. */
  lemma UnnoticedExactly(parent: AssetManifest, disk: Disk, mode: DiffMode, h: HashFunction, p: string)
    requires p in disk.files && LiveFile(ParentFiles(parent), p)
    requires ParentFiles(parent)[p].size.Some? && ParentFiles(parent)[p].mtime.Some?
    ensures var e, f := ParentFiles(parent)[p], disk.files[p];
      Unnoticed(parent, disk, mode, h, p) <==>
        && |f.content| == e.size.value
        && (mode == Fast ==> e.mtime.value - 1 <= f.mtime <= e.mtime.value + 1)
        && (mode == Hash ==> h(f.content) == if e.hash.Some? then e.hash.value else "")
  {
    hide LastWins;
  }

  /** These are the files reported unchanged. */
  lemma UntouchedAt(parent: AssetManifest, keep: Filter, disk: Disk, mode: DiffMode, h: HashFunction, r: DiffResult,
                    p: string)
    requires Scenario(parent, keep, disk, mode, h, r)
    ensures p in r.untouched <==> Unnoticed(parent, disk, mode, h, p)
  {
    hide LastWins, LookupFiles, LiveDirs, Without, ListsChanged, IsModified, ValidEntries;
    ParentView(parent.files, keep, p);
  }

  /** A merge holds the directory's files within the filter: as the parent had them where nothing was noticed, else
      described afresh. */
  predicate ByNotice(files: map<string, FileEntry>, parent: AssetManifest, keep: Filter, disk: Disk, mode: DiffMode,
                     h: HashFunction, p: string) {
    && (keep(p) ==> (LiveFile(files, p) <==> p in disk.files))
    && (p in disk.files ==>
          && LiveFile(files, p)
          && files[p] ==
             if Unnoticed(parent, disk, mode, h, p) then ParentFiles(parent)[p] else EntryFor(p, disk.files[p], h))
  }

  /** File by file, by what the comparison noticed. */
  lemma MergedByNotice(parent: AssetManifest, keep: Filter, disk: Disk, mode: DiffMode, h: HashFunction, r: DiffResult,
                       parentBytes: Bytes, p: string)
    requires Scenario(parent, keep, disk, mode, h, r)
    ensures OnDisk(r.added, disk) && OnDisk(r.modified, disk)
    ensures ByNotice(Merged(parent, DiffManifest(parentBytes, r, disk, h)).files, parent, keep, disk, mode, h, p)
  {
    assert p in disk.files ==> keep(p);
    MergedFileAt(parent, keep, disk, mode, h, r, parentBytes, p);
    UntouchedAt(parent, keep, disk, mode, h, r, p);
    hide LookupAll, LastWins, DiffManifest, IsDiff, ValidEntries, LookupFiles, LiveDirs, IsModified, Scenario,
         Unnoticed;
  }

  /** What the proofs below need of a merge. */
  ghost predicate IsMergeOf(merged: Lookup, parent: AssetManifest, keep: Filter, disk: Disk, mode: DiffMode,
                            h: HashFunction) {
    && (forall p | p in disk.files :: keep(p))
    && (forall p :: ByNotice(merged.files, parent, keep, disk, mode, h, p))
    && (forall d | keep(d) :: LiveDir(merged.dirs, d) <==> d in disk.dirs)
  }

  lemma MergedIsMerge(parent: AssetManifest, keep: Filter, disk: Disk, mode: DiffMode, h: HashFunction, r: DiffResult,
                      parentBytes: Bytes)
    requires Scenario(parent, keep, disk, mode, h, r)
    ensures OnDisk(r.added, disk) && OnDisk(r.modified, disk)
    ensures IsMergeOf(Merged(parent, DiffManifest(parentBytes, r, disk, h)), parent, keep, disk, mode, h)
  {
    MergedByNotice(parent, keep, disk, mode, h, r, parentBytes, "");
    assert forall p | p in disk.files :: keep(p);
    hide Scenario, Merged, DiffManifest, ByNotice, LiveDir, OnDisk;
    forall p
      ensures ByNotice(Merged(parent, DiffManifest(parentBytes, r, disk, h)).files, parent, keep, disk, mode, h, p)
    {
      MergedByNotice(parent, keep, disk, mode, h, r, parentBytes, p);
    }
    forall d | keep(d)
      ensures LiveDir(Merged(parent, DiffManifest(parentBytes, r, disk, h)).dirs, d) <==> d in disk.dirs
    {
      MergedDirAt(parent, keep, disk, mode, h, r, parentBytes, d);
    }
  }

  lemma UnnoticedInParent(parent: AssetManifest, disk: Disk, mode: DiffMode, h: HashFunction)
    ensures forall p | Unnoticed(parent, disk, mode, h, p) :: p in disk.files && p in ParentFiles(parent)
  {
  }

  predicate SameTimeAndBit(e: FileEntry, f: DiskFile) { e.mtime == Some(f.mtime) && e.runnable == f.runnable }

  lemma FreshDescribes(disk: Disk, h: HashFunction)
    ensures forall p | p in disk.files :: Describes(EntryFor(p, disk.files[p], h), disk.files[p].content, h)
    ensures forall p | p in disk.files :: SameTimeAndBit(EntryFor(p, disk.files[p], h), disk.files[p])
  {
  }

  lemma ReconstructsWhen(parent: AssetManifest, keep: Filter, disk: Disk, mode: DiffMode, h: HashFunction,
                         merged: Lookup)
    requires IsMergeOf(merged, parent, keep, disk, mode, h)
    ensures forall p | Unnoticed(parent, disk, mode, h, p) :: p in disk.files && p in ParentFiles(parent)
    ensures Reconstructs(merged, keep, disk, h) <==>
            forall p | Unnoticed(parent, disk, mode, h, p) ::
                Describes(ParentFiles(parent)[p], disk.files[p].content, h)
  {
    UnnoticedInParent(parent, disk, mode, h);
    FreshDescribes(disk, h);
    hide Unnoticed, Describes, EntryFor, ParentFiles;
    forall p | p in disk.files
      ensures LiveFile(merged.files, p)
      ensures merged.files[p] ==
              if Unnoticed(parent, disk, mode, h, p) then ParentFiles(parent)[p] else EntryFor(p, disk.files[p], h)
    {
      assert ByNotice(merged.files, parent, keep, disk, mode, h, p);
    }
    forall p | keep(p) ensures LiveFile(merged.files, p) <==> p in disk.files {
      assert ByNotice(merged.files, parent, keep, disk, mode, h, p);
    }
    hide ByNotice, LiveFile, LiveDir;
  }

  /** Diff then merge reconstructs exactly when every file both sides have, and the comparison finds no difference in,
      still has the content the parent recorded; the rest is always right. */
  lemma DiffThenMerge(parent: AssetManifest, keep: Filter, disk: Disk, mode: DiffMode, h: HashFunction, r: DiffResult,
                      parentBytes: Bytes)
    requires Scenario(parent, keep, disk, mode, h, r)
    ensures OnDisk(r.added, disk) && OnDisk(r.modified, disk)
    ensures Reconstructs(Merged(parent, DiffManifest(parentBytes, r, disk, h)), keep, disk, h) <==>
            forall p | Unnoticed(parent, disk, mode, h, p) ::
                Describes(ParentFiles(parent)[p], disk.files[p].content, h)
  {
    MergedIsMerge(parent, keep, disk, mode, h, r, parentBytes);
    hide Scenario, Merged, DiffManifest, OnDisk, IsMergeOf, Reconstructs, Unnoticed, Describes, ParentFiles;
    ReconstructsWhen(parent, keep, disk, mode, h, Merged(parent, DiffManifest(parentBytes, r, disk, h)));
  }

  /** In hash mode the condition always holds, given that no content hashes to the empty string
      that stands for a missing hash. */
  lemma HashModeReconstructs(parent: AssetManifest, keep: Filter, disk: Disk, h: HashFunction, r: DiffResult,
                             parentBytes: Bytes)
    requires Scenario(parent, keep, disk, Hash, h, r)
    requires forall b: Bytes :: h(b) != ""
    ensures OnDisk(r.added, disk) && OnDisk(r.modified, disk)
    ensures Reconstructs(Merged(parent, DiffManifest(parentBytes, r, disk, h)), keep, disk, h)
  {
    DiffThenMerge(parent, keep, disk, Hash, h, r, parentBytes);
    hide Scenario, Merged, DiffManifest, OnDisk, Reconstructs, Unnoticed, Describes, ParentFiles;
    forall p | Unnoticed(parent, disk, Hash, h, p) ensures Describes(ParentFiles(parent)[p], disk.files[p].content, h) {
      UnnoticedHash(parent, disk, h, p);
    }
  }

  lemma UnnoticedHash(parent: AssetManifest, disk: Disk, h: HashFunction, p: string)
    requires Unnoticed(parent, disk, Hash, h, p) && forall b: Bytes :: h(b) != ""
    ensures p in disk.files && p in ParentFiles(parent) && Describes(ParentFiles(parent)[p], disk.files[p].content, h)
  {
    hide LastWins;
    assert h(disk.files[p].content) != "";
  }

  /** A live file of the parent that is on disk with the recorded size and time, give or take a microsecond. */
  predicate SameSizeAndTime(parent: AssetManifest, disk: Disk, p: string) {
    && p in disk.files && LiveFile(ParentFiles(parent), p)
    && var e, f := ParentFiles(parent)[p], disk.files[p];
       e.size == Some(|f.content|) && e.mtime.Some? && Abs(f.mtime - e.mtime.value) <= 1
  }

  /** In fast mode: exactly when every such file still has the content the parent recorded. */
  lemma FastModeExactly(parent: AssetManifest, keep: Filter, disk: Disk, h: HashFunction, r: DiffResult,
                        parentBytes: Bytes)
    requires Scenario(parent, keep, disk, Fast, h, r)
    ensures OnDisk(r.added, disk) && OnDisk(r.modified, disk)
    ensures Reconstructs(Merged(parent, DiffManifest(parentBytes, r, disk, h)), keep, disk, h) <==>
            forall p | SameSizeAndTime(parent, disk, p) :: Describes(ParentFiles(parent)[p], disk.files[p].content, h)
  {
    DiffThenMerge(parent, keep, disk, Fast, h, r, parentBytes);
    FastNotices(parent, disk, h);
    hide Scenario, Merged, DiffManifest, OnDisk, Reconstructs, Unnoticed, Describes, ParentFiles, SameSizeAndTime;
  }

  lemma FastNotices(parent: AssetManifest, disk: Disk, h: HashFunction)
    ensures forall p :: SameSizeAndTime(parent, disk, p) <==> Unnoticed(parent, disk, Fast, h, p)
    ensures forall p | SameSizeAndTime(parent, disk, p) :: p in disk.files && p in ParentFiles(parent)
  {
    hide LastWins;
  }

  /** So a hashed file rewritten with the same size and within a microsecond of the recorded time keeps its old hash
      in the merge. */
  lemma FastModeMisses(parent: AssetManifest, keep: Filter, disk: Disk, h: HashFunction, r: DiffResult,
                       parentBytes: Bytes, p: string)
    requires Scenario(parent, keep, disk, Fast, h, r)
    requires SameSizeAndTime(parent, disk, p)
    requires ParentFiles(parent)[p].hash.Some? && ParentFiles(parent)[p].hash.value != h(disk.files[p].content)
    ensures OnDisk(r.added, disk) && OnDisk(r.modified, disk)
    ensures !Reconstructs(Merged(parent, DiffManifest(parentBytes, r, disk, h)), keep, disk, h)
  {
    FastModeExactly(parent, keep, disk, h, r, parentBytes);
    hide Scenario, Merged, DiffManifest, OnDisk, Reconstructs, ParentFiles, LastWins;
  }

  /** The merge also has the time and the executable bit of every file. */
  ghost predicate ReconstructsFully(merged: Lookup, keep: Filter, disk: Disk, h: HashFunction) {
    && Reconstructs(merged, keep, disk, h)
    && forall p | p in disk.files && p in merged.files :: SameTimeAndBit(merged.files[p], disk.files[p])
  }

  /** In either mode: exactly when every file the comparison finds no difference in also has the time and the
      executable bit the parent recorded. Neither mode looks at the bit. */
  lemma ReconstructsFullyExactly(parent: AssetManifest, keep: Filter, disk: Disk, mode: DiffMode, h: HashFunction,
                                 r: DiffResult, parentBytes: Bytes)
    requires Scenario(parent, keep, disk, mode, h, r)
    ensures OnDisk(r.added, disk) && OnDisk(r.modified, disk)
    ensures ReconstructsFully(Merged(parent, DiffManifest(parentBytes, r, disk, h)), keep, disk, h) <==>
            forall p | Unnoticed(parent, disk, mode, h, p) ::
              Describes(ParentFiles(parent)[p], disk.files[p].content, h)
                && SameTimeAndBit(ParentFiles(parent)[p], disk.files[p])
  {
    MergedIsMerge(parent, keep, disk, mode, h, r, parentBytes);
    hide Scenario, Merged, DiffManifest, OnDisk, IsMergeOf, ReconstructsFully, Unnoticed, Describes, ParentFiles;
    FullyWhen(parent, keep, disk, mode, h, Merged(parent, DiffManifest(parentBytes, r, disk, h)));
  }

  lemma FullyWhen(parent: AssetManifest, keep: Filter, disk: Disk, mode: DiffMode, h: HashFunction, merged: Lookup)
    requires IsMergeOf(merged, parent, keep, disk, mode, h)
    ensures forall p | Unnoticed(parent, disk, mode, h, p) :: p in disk.files && p in ParentFiles(parent)
    ensures ReconstructsFully(merged, keep, disk, h) <==>
            forall p | Unnoticed(parent, disk, mode, h, p) ::
              Describes(ParentFiles(parent)[p], disk.files[p].content, h)
                && SameTimeAndBit(ParentFiles(parent)[p], disk.files[p])
  {
    ReconstructsWhen(parent, keep, disk, mode, h, merged);
    FreshDescribes(disk, h);
    hide Unnoticed, Describes, EntryFor, ParentFiles, Reconstructs, SameTimeAndBit;
    forall p | p in disk.files
      ensures p in merged.files
      ensures merged.files[p] ==
              if Unnoticed(parent, disk, mode, h, p) then ParentFiles(parent)[p] else EntryFor(p, disk.files[p], h)
    {
      assert ByNotice(merged.files, parent, keep, disk, mode, h, p);
    }
    hide ByNotice, LiveFile, LiveDir, IsMergeOf;
  }

  /** Merging over a parent of the older format is refused: a diff manifest is always of the newer one. */
  lemma OldParentRefused(paths: seq<V2023Path>, diff: AssetManifest, r: Result<Option<AnyManifest>, MergeError>)
    requires IsMerge([V2023(paths), V2025(diff)], r)
    ensures r == Err(VersionMismatch)
  {
    assert [V2023(paths), V2025(diff)][1].V2025?;
  }
}
