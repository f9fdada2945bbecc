/** The v2025-12 manifest: entries, specification versions, totals and validation. */
module Manifest {
  import opened Wrappers
  import opened Ordering

  const CHUNK_SIZE: int := 256 * 1024 * 1024
  const U64_LIMIT: int := 0x1_0000_0000_0000_0000

  type U64 = n: int | 0 <= n < U64_LIMIT
  type I64 = n: int | -0x8000_0000_0000_0000 <= n < 0x8000_0000_0000_0000

  datatype DirEntry = DirEntry(path: string, deleted: bool)

  datatype FileEntry = FileEntry(
    path: string,
    hash: Option<string>,
    size: Option<U64>,
    mtime: Option<I64>,
    runnable: bool,
    chunkHashes: Option<seq<string>>,
    symlinkTarget: Option<string>,
    deleted: bool)

  function RegularFile(path: string, hash: string, size: U64, mtime: I64, runnable: bool): FileEntry {
    FileEntry(path, Some(hash), Some(size), Some(mtime), runnable, None, None, false)
  }

  function ChunkedFile(path: string, chunks: seq<string>, size: U64, mtime: I64, runnable: bool): FileEntry {
    FileEntry(path, None, Some(size), Some(mtime), runnable, Some(chunks), None, false)
  }

  function DeletedFile(path: string): FileEntry {
    FileEntry(path, None, None, None, false, None, None, true)
  }

  datatype PathStyle = Absolute | Relative
  datatype ManifestType = Snapshot | Diff
  datatype SpecVersion = SpecVersion(style: PathStyle, kind: ManifestType)

  function SpecString(v: SpecVersion): string {
    match v
    case SpecVersion(Absolute, Snapshot) => "absolute-manifest-snapshot-beta-2025-12"
    case SpecVersion(Absolute, Diff) => "absolute-manifest-diff-beta-2025-12"
    case SpecVersion(Relative, Snapshot) => "relative-manifest-snapshot-beta-2025-12"
    case SpecVersion(Relative, Diff) => "relative-manifest-diff-beta-2025-12"
  }

  function FromSpecString(s: string): Option<SpecVersion> {
    if s == "absolute-manifest-snapshot-beta-2025-12" then Some(SpecVersion(Absolute, Snapshot))
    else if s == "absolute-manifest-diff-beta-2025-12" then Some(SpecVersion(Absolute, Diff))
    else if s == "relative-manifest-snapshot-beta-2025-12" then Some(SpecVersion(Relative, Snapshot))
    else if s == "relative-manifest-diff-beta-2025-12" then Some(SpecVersion(Relative, Diff))
    else None
  }

  lemma SpecStringRoundTrip(v: SpecVersion)
    ensures FromSpecString(SpecString(v)) == Some(v)
  {
    assert "absolute-manifest-snapshot-beta-2025-12"[18] == 's';
    assert "absolute-manifest-diff-beta-2025-12"[18] == 'd';
    assert "relative-manifest-snapshot-beta-2025-12"[18] == 's';
    assert "relative-manifest-diff-beta-2025-12"[18] == 'd';
    assert "relative-manifest-snapshot-beta-2025-12"[0] == 'r';
    assert "relative-manifest-diff-beta-2025-12"[0] == 'r';
  }

  /** `manifest_version` and `hash_alg` each have one value in this format and are not stored. */
  datatype AssetManifest = AssetManifest(
    spec: SpecVersion,
    dirs: seq<DirEntry>,
    files: seq<FileEntry>,
    totalSize: U64,
    parentHash: Option<string>)

  /** Bytes an entry adds to the manifest total. */
  function CountedSize(f: FileEntry): nat {
    if !f.deleted && f.symlinkTarget.None? && f.size.Some? then f.size.value else 0
  }

  function SumSizes(files: seq<FileEntry>): nat {
    if files == [] then 0 else CountedSize(files[0]) + SumSizes(files[1..])
  }

  /** The u64 sum of a release build, which wraps. */
  function TotalSize(files: seq<FileEntry>): U64 {
    SumSizes(files) % U64_LIMIT
  }

  function WithSpec(dirs: seq<DirEntry>, files: seq<FileEntry>, spec: SpecVersion,
                    parentHash: Option<string>): AssetManifest {
    AssetManifest(spec, dirs, files, TotalSize(files), parentHash)
  }

  /** A live file adds its size to the total; a deletion, a link, and a file of unknown size add nothing. */
  lemma SumSizesAdds(files: seq<FileEntry>, f: FileEntry)
    ensures f.deleted || f.symlinkTarget.Some? || f.size.None? ==> SumSizes(files + [f]) == SumSizes(files)
    ensures !f.deleted && f.symlinkTarget.None? && f.size.Some? ==>
              SumSizes(files + [f]) == SumSizes(files) + f.size.value
    ensures SumSizes([]) == 0
    ensures SumSizes(files) < U64_LIMIT ==> TotalSize(files) == SumSizes(files)
  {
    SumSizesSplit(files, [f]);
    assert [f][1..] == [];
    assert SumSizes([f]) == CountedSize(f);
  }

  lemma {:induction false} SumSizesSplit(a: seq<FileEntry>, b: seq<FileEntry>)
    ensures SumSizes(a + b) == SumSizes(a) + SumSizes(b)
  {
    if a == [] {
      assert a + b == b;
    } else {
      SumSizesSplit(a[1..], b);
      assert (a + b)[1..] == a[1..] + b;
    }
  }

  lemma SumSizesRemove(b: seq<FileEntry>, i: nat)
    requires i < |b|
    ensures SumSizes(b) == CountedSize(b[i]) + SumSizes(b[..i] + b[i + 1..])
  {
    hide CountedSize;
    var before, after := b[..i], b[i + 1..];
    assert b == before + ([b[i]] + after);
    SumSizesSplit(before, [b[i]] + after);
    SumSizesSplit(before, after);
    assert ([b[i]] + after)[1..] == after;
  }

  /** The total depends only on which entries there are. */
  lemma {:induction false} SumSizesOrderFree(a: seq<FileEntry>, b: seq<FileEntry>)
    requires multiset(a) == multiset(b)
    ensures SumSizes(a) == SumSizes(b)
  {
    hide CountedSize;
    SameElements(a, b);
    if a != [] {
      assert a[0] in b;
      var i :| 0 <= i < |b| && b[i] == a[0];
      SumSizesRemove(b, i);
      RemoveAt(b, i);
      DropHead(a);
      SumSizesOrderFree(a[1..], b[..i] + b[i + 1..]);
    }
  }

  datatype ValidationError =
    | DeletedEntryHasField(field: string)
    | InvalidContentFields
    | MissingSize
    | MissingMtime
    | ChunkedFileTooSmall(actualSize: U64)
    | ChunkCountMismatch(expected: nat, actual: nat)
    | AbsoluteSymlinkTarget(target: string)
    | EscapingSymlinkTarget(target: string)
    | SnapshotWithDeletion
    | DiffMissingParentHash

  function ValidateDeleted(f: FileEntry): Result<(), ValidationError> {
    if f.hash.Some? then Err(DeletedEntryHasField("hash"))
    else if f.chunkHashes.Some? then Err(DeletedEntryHasField("chunkhashes"))
    else if f.symlinkTarget.Some? then Err(DeletedEntryHasField("symlink_target"))
    else if f.runnable then Err(DeletedEntryHasField("runnable"))
    else if f.size.Some? then Err(DeletedEntryHasField("size"))
    else if f.mtime.Some? then Err(DeletedEntryHasField("mtime"))
    else Ok(())
  }

  function ContentCount(f: FileEntry): nat {
    (if f.hash.Some? then 1 else 0) + (if f.chunkHashes.Some? then 1 else 0) + (if f.symlinkTarget.Some? then 1 else 0)
  }

  function ValidateChunks(chunks: seq<string>, size: Option<U64>): Result<(), ValidationError> {
    if size.None? then Err(MissingSize)
    else if size.value <= CHUNK_SIZE then Err(ChunkedFileTooSmall(size.value))
    else
      var expected := (size.value + CHUNK_SIZE - 1) / CHUNK_SIZE;
      if |chunks| != expected then Err(ChunkCountMismatch(expected, |chunks|)) else Ok(())
  }

  function ValidateTarget(path: string, target: string): Result<(), ValidationError> {
    if "/" <= target || (|target| >= 2 && target[1] == ':') || "\\\\" <= target || "//" <= target
    then Err(AbsoluteSymlinkTarget(target))
    else if '/' !in path && ".." <= target then Err(EscapingSymlinkTarget(target))
    else Ok(())
  }

  function ValidateEntry(f: FileEntry, allowUnhashed: bool): Result<(), ValidationError> {
    if f.deleted then ValidateDeleted(f)
    else if ContentCount(f) == 0 && !allowUnhashed then Err(InvalidContentFields)
    else if ContentCount(f) > 1 then Err(InvalidContentFields)
    else if f.symlinkTarget.None? && f.size.None? then Err(MissingSize)
    else if f.symlinkTarget.None? && f.mtime.None? then Err(MissingMtime)
    else if f.chunkHashes.Some? then ValidateChunks(f.chunkHashes.value, f.size)
    else if f.symlinkTarget.Some? then ValidateTarget(f.path, f.symlinkTarget.value)
    else Ok(())
  }

  /** A link validates exactly when its target is not absolute in any of the known notations, and, from the top level,
      does not begin by climbing. (Deeper links are not resolved.) */
  lemma LinkValidExactly(path: string, target: string, allowUnhashed: bool)
    ensures ValidateEntry(FileEntry(path, None, None, None, false, None, Some(target), false), allowUnhashed).Ok? <==>
      && (target != "" ==> target[0] != '/')
      && (|target| >= 2 ==> target[1] != ':' && !(target[0] == target[1] == '\\'))
      && ('/' in path || |target| < 2 || !(target[0] == target[1] == '.'))
  {
    assert "/" <= target <==> target != "" && target[0] == '/';
    assert "\\\\" <= target <==> |target| >= 2 && target[0] == '\\' && target[1] == '\\';
    assert "//" <= target ==> target[0] == '/';
    assert ".." <= target <==> |target| >= 2 && target[0] == '.' && target[1] == '.';
  }

  /** What makes any other entry valid. */
  lemma EntryValidExactly(f: FileEntry, allowUnhashed: bool)
    ensures f.deleted ==> (ValidateEntry(f, allowUnhashed).Ok? <==> f == DeletedFile(f.path))
    ensures !f.deleted && f.symlinkTarget.None? ==>
              (ValidateEntry(f, allowUnhashed).Ok? <==>
               && f.size.Some? && f.mtime.Some?
               && (f.hash.Some? ==> f.chunkHashes.None?) && (f.hash.None? && f.chunkHashes.None? ==> allowUnhashed)
               && (f.chunkHashes.Some? ==>
                     var n := |f.chunkHashes.value|;
                     f.size.value > CHUNK_SIZE && (n - 1) * CHUNK_SIZE < f.size.value <= n * CHUNK_SIZE))
    ensures !f.deleted && f.symlinkTarget.Some? && (f.hash.Some? || f.chunkHashes.Some?) ==>
              ValidateEntry(f, allowUnhashed).Err?
  {
  }

  /** A manifest is valid exactly when all its entries are, a snapshot marks nothing as deleted, and a diff names its
      parent. */
  lemma ValidExactly(m: AssetManifest, allowUnhashed: bool)
    ensures IsValid(m, allowUnhashed) <==>
      && (forall f | f in m.files :: ValidateEntry(f, allowUnhashed).Ok?)
      && (m.spec.kind == Snapshot ==> !exists d :: d in m.dirs && d.deleted)
      && (m.spec.kind == Snapshot ==> !exists f :: f in m.files && f.deleted)
      && (m.spec.kind == ManifestType.Diff ==> m.parentHash != None)
  {
    hide ValidateEntry;
    assert forall f | f in m.files :: exists i :: 0 <= i < |m.files| && m.files[i] == f;
  }

  predicate ValidEntries(files: seq<FileEntry>, allowUnhashed: bool) {
    forall i | 0 <= i < |files| :: ValidateEntry(files[i], allowUnhashed).Ok?
  }

  predicate IsValid(m: AssetManifest, allowUnhashed: bool) {
    && (m.spec.kind.Snapshot? ==> (forall d | d in m.dirs :: !d.deleted) && (forall f | f in m.files :: !f.deleted))
    && (m.spec.kind.Diff? ==> m.parentHash.Some?)
    && ValidEntries(m.files, allowUnhashed)
  }
}
