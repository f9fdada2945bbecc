/** What decoding an encoding gives back, and when: the exact condition, for every manifest.
    Also the canonical form: encoding ignores input order and is stable under decode-encode. */
module CodecProofs {
  import opened Wrappers
  import opened Strings
  import opened Ordering
  import opened Manifest
  import opened Codec

  // ---------------------------------------------------------------- one entry

  lemma {:induction false} StringsOfStrs(ss: seq<string>)
    ensures StringsOf(Strs(ss)) == ss
  {
    if ss != [] {
      StringsOfStrs(ss[1..]);
      assert Strs(ss)[1..] == Strs(ss[1..]);
    }
  }

  /** Exactly the file entries that survive encoding against `dirs` and decoding. */
  predicate FileSurvives(f: FileEntry, dirs: seq<DirEntry>) {
    && Expressible(f.path, dirs)
    && ContentCount(f) <= 1
    && (f.symlinkTarget.Some? ==> Expressible(f.symlinkTarget.value, dirs))
    && (f.deleted || f.symlinkTarget.Some? ==> f.size.None? && f.mtime.None? && !f.runnable)
  }

  /** What the decoder reads back of the path and content fields. */
  lemma ContentFields(f: FileEntry, index: map<Field, Json>, dirIndex: map<string, nat>)
    requires index == map[Path := Str(EncodePath(f.path, dirIndex))]
    ensures var e := WithContent(index, f, dirIndex);
      && e.Keys <= {Path, Hash, ChunkHashes, Symlink}
      && Get(Obj(e), Path) == Some(Str(EncodePath(f.path, dirIndex)))
      && AsStr(Get(Obj(e), Hash)) == f.hash
      && Get(Obj(e), ChunkHashes)
        == (if f.hash.None? && f.chunkHashes.Some? then Some(Arr(Strs(f.chunkHashes.value))) else None)
      && Get(Obj(e), Symlink) == (if f.hash.None? && f.chunkHashes.None? && f.symlinkTarget.Some?
                                  then Some(Obj(map[Target := Str(EncodePath(f.symlinkTarget.value, dirIndex))]))
                                  else None)
  {
    hide EncodePath, Strs;
  }

  /** What it reads back of the metadata fields; the others pass through. */
  lemma MetadataFields(entry: map<Field, Json>, f: FileEntry)
    requires entry.Keys <= {Path, Hash, ChunkHashes, Symlink}
    ensures var e := Obj(WithMetadata(entry, f)); var described := !f.deleted && f.symlinkTarget.None?;
      && AsU64(Get(e, Size)) == (if described then f.size else None)
      && AsI64(Get(e, Mtime)) == (if described then f.mtime else None)
      && AsFlag(Get(e, Runnable)) == (described && f.runnable)
      && Get(e, Deleted) == None
      && (forall k | k in entry.Keys + {Path, Hash, ChunkHashes, Symlink} :: Get(e, k) == Get(Obj(entry), k))
  {
  }

  /** What the decoder reads from each field of an encoded entry. */
  lemma FieldsLookup(f: FileEntry, index: map<string, nat>)
    ensures var j := Obj(FileFields(f, index)); var described := !f.deleted && f.symlinkTarget.None?;
      && Get(j, Path) == Some(Str(EncodePath(f.path, index)))
      && AsStr(Get(j, Hash)) == f.hash
      && AsU64(Get(j, Size)) == (if described then f.size else None)
      && AsI64(Get(j, Mtime)) == (if described then f.mtime else None)
      && AsFlag(Get(j, Runnable)) == (described && f.runnable)
      && AsFlag(Get(j, Deleted)) == f.deleted
      && Get(j, ChunkHashes)
        == (if f.hash.None? && f.chunkHashes.Some? then Some(Arr(Strs(f.chunkHashes.value))) else None)
      && Get(j, Symlink) == (if f.hash.None? && f.chunkHashes.None? && f.symlinkTarget.Some?
                             then Some(Obj(map[Target := Str(EncodePath(f.symlinkTarget.value, index))])) else None)
  {
    hide WithContent, WithMetadata, EncodePath, Strs, AsU64, AsI64, AsStr;
    var path := map[Path := Str(EncodePath(f.path, index))];
    var content := WithContent(path, f, index);
    var entry := WithMetadata(content, f);
    ContentFields(f, path, index);
    MetadataFields(content, f);
    assert forall k | k != Deleted :: Get(Obj(FileFields(f, index)), k) == Get(Obj(entry), k);
  }

  /** When one file entry survives, for every entry and directory list. */
  lemma FileRoundTrip(f: FileEntry, dirs: seq<DirEntry>)
    requires StrictlySorted(dirs) && |dirs| < USIZE_LIMIT
    ensures DecodeFile(Obj(FileFields(f, DirIndex(dirs))), Paths(dirs)) == Ok(f) <==> FileSurvives(f, dirs)
  {
    hide EncodePath, ExpandPath, Expressible, FileFields, DirIndex, Paths, StringsOf, Strs;
    var index := DirIndex(dirs);
    FieldsLookup(f, index);
    ReferenceRoundTrip(f.path, dirs);
    if f.symlinkTarget.Some? {
      ReferenceRoundTrip(f.symlinkTarget.value, dirs);
    }
    if f.chunkHashes.Some? {
      StringsOfStrs(f.chunkHashes.value);
    }
  }

  lemma {:induction false} FilesRoundTrip(files: seq<FileEntry>, dirs: seq<DirEntry>)
    requires StrictlySorted(dirs) && |dirs| < USIZE_LIMIT
    ensures DecodeFiles(EncodeFiles(files, DirIndex(dirs)), Paths(dirs)) == Ok(files) <==>
            forall i | 0 <= i < |files| :: FileSurvives(files[i], dirs)
  {
    hide FileSurvives, FileFields, DecodeFile, DirIndex, Paths, StrictlySorted;
    if files != [] {
      FileRoundTrip(files[0], dirs);
      FilesRoundTrip(files[1..], dirs);
      assert EncodeFiles(files, DirIndex(dirs))[1..] == EncodeFiles(files[1..], DirIndex(dirs));
      assert files == [files[0]] + files[1..];
      assert forall i | 0 <= i < |files| :: i == 0 || files[i] == files[1..][i - 1];
    }
  }

  lemma {:induction false} DecodeDirsElements(items: seq<Json>, index: seq<string>)
    requires DecodeDirs(items, index).Ok?
    ensures |DecodeDirs(items, index).value| == |items|
    ensures forall i | 0 <= i < |items| :: DecodeDir(items[i], index) == Ok(DecodeDirs(items, index).value[i])
  {
    if items != [] {
      DecodeDirsElements(items[1..], index);
    }
  }

  lemma {:induction false} DecodeDirsOf(items: seq<Json>, index: seq<string>, dirs: seq<DirEntry>)
    requires |items| == |dirs|
    requires forall i | 0 <= i < |items| :: DecodeDir(items[i], index) == Ok(dirs[i])
    ensures DecodeDirs(items, index) == Ok(dirs)
  {
    if items != [] {
      DecodeDirsOf(items[1..], index, dirs[1..]);
      assert dirs == [dirs[0]] + dirs[1..];
    }
  }

  // ---------------------------------------------------------------- the directory index

  /** A listed proper prefix of a listed path comes earlier in the list. */
  lemma ParentEarlier(dirs: seq<DirEntry>, i: nat, j: nat)
    requires StrictlySorted(dirs) && i < |dirs| && j < |dirs|
    requires dirs[j].path < dirs[i].path
    ensures j < i
  {
    CodePointsPrefix(dirs[j].path, dirs[i].path);
    PrefixLeq(DirKey(dirs[j]), DirKey(dirs[i]));
    if i < j {
      LeqAntisymmetric(DirKey(dirs[i]), DirKey(dirs[j]));
      CodePointsInjective(dirs[i].path, dirs[j].path);
    }
  }

  /** Every `$N` reference in the encoded directories points to an earlier entry. */
  lemma ReferencesPointBack(dirs: seq<DirEntry>, i: nat)
    requires StrictlySorted(dirs) && i < |dirs|
    requires ParentListed(dirs[i].path, dirs)
    ensures var parent := dirs[i].path[..RFind(dirs[i].path, '/').value];
            parent in DirIndex(dirs) && DirIndex(dirs)[parent] < i && dirs[DirIndex(dirs)[parent]].path == parent
  {
    DirIndexLookup(dirs);
    LastSlashSplit(dirs[i].path);
    var parent := dirs[i].path[..RFind(dirs[i].path, '/').value];
    ParentEarlier(dirs, i, DirIndex(dirs)[parent]);
  }

  /** So the index built while decoding already holds what entry `i` needs. */
  lemma EarlierEntriesSuffice(dirs: seq<DirEntry>, i: nat)
    requires StrictlySorted(dirs) && |dirs| < USIZE_LIMIT && i < |dirs|
    requires Expressible(dirs[i].path, dirs)
    ensures ExpandPath(EncodePath(dirs[i].path, DirIndex(dirs)), Paths(dirs)[..i]) == Ok(dirs[i].path)
  {
    hide Find, RFind, Decimal, ParseUsize, Reference, DirIndex, StrictlySorted;
    var path := dirs[i].path;
    DirIndexLookup(dirs);
    if ParentListed(path, dirs) {
      ReferencesPointBack(dirs, i);
      LastSlashSplit(path);
      var k := RFind(path, '/').value;
      ExpandReference(DirIndex(dirs)[path[..k]], path[k + 1..], Paths(dirs)[..i]);
    } else if LooksLikeReference(path) {
      var slash := Find(path, '/');
      var idx := ParseUsize(path[1..slash]).value;
      ParentEarlier(dirs, i, idx);
      FirstSlashSplit(path, slash, dirs[idx].path);
    }
  }

  lemma {:induction false} BuildIndexForward(dirs: seq<DirEntry>, i: nat)
    requires StrictlySorted(dirs) && |dirs| < USIZE_LIMIT && i <= |dirs|
    requires forall k | 0 <= k < |dirs| :: Expressible(dirs[k].path, dirs)
    ensures BuildIndexFrom(EncodeDirs(dirs, DirIndex(dirs))[i..], Paths(dirs)[..i]) == Ok(Paths(dirs))
    decreases |dirs| - i
  {
    hide EncodePath, ExpandPath, Expressible, DirIndex, StrictlySorted;
    var items := EncodeDirs(dirs, DirIndex(dirs));
    if i < |dirs| {
      EarlierEntriesSuffice(dirs, i);
      BuildIndexForward(dirs, i + 1);
      assert items[i..][0] == EncodeDir(dirs[i], DirIndex(dirs));
      assert items[i..][1..] == items[i + 1..];
      assert Paths(dirs)[..i] + [dirs[i].path] == Paths(dirs)[..i + 1];
    } else {
      assert Paths(dirs)[..i] == Paths(dirs);
    }
  }

  /** The decoder's incremental index is the encoder's list exactly when every path is expressible. */
  lemma BuildIndexRoundTrip(dirs: seq<DirEntry>)
    requires StrictlySorted(dirs) && |dirs| < USIZE_LIMIT
    ensures BuildIndexFrom(EncodeDirs(dirs, DirIndex(dirs)), []) == Ok(Paths(dirs)) <==>
            forall i | 0 <= i < |dirs| :: Expressible(dirs[i].path, dirs)
  {
    hide EncodePath, ExpandPath, Expressible, DirIndex, BuildIndexFrom, StrictlySorted;
    var items := EncodeDirs(dirs, DirIndex(dirs));
    if BuildIndexFrom(items, []) == Ok(Paths(dirs)) {
      forall i | 0 <= i < |dirs| ensures Expressible(dirs[i].path, dirs) {
        FullIndexAgrees(items, [], i);
        ReferenceRoundTrip(dirs[i].path, dirs);
      }
    }
    if forall i | 0 <= i < |dirs| :: Expressible(dirs[i].path, dirs) {
      BuildIndexForward(dirs, 0);
      assert items[0..] == items && Paths(dirs)[..0] == [];
    }
  }

  /** The decoded directories are the encoded ones exactly when the index is right. */
  lemma DirsRoundTrip(dirs: seq<DirEntry>)
    requires StrictlySorted(dirs) && |dirs| < USIZE_LIMIT
    requires BuildIndexFrom(EncodeDirs(dirs, DirIndex(dirs)), []).Ok?
    ensures var items := EncodeDirs(dirs, DirIndex(dirs)); var index := BuildIndexFrom(items, []).value;
            DecodeDirs(items, index) == Ok(dirs) <==> index == Paths(dirs)
  {
    hide EncodePath, ExpandPath, DirIndex, BuildIndexFrom, DecodeDirs, StrictlySorted;
    var items := EncodeDirs(dirs, DirIndex(dirs));
    var index := BuildIndexFrom(items, []).value;
    BuildIndexGrows(items, []);
    forall i | 0 <= i < |dirs|
      ensures DecodeDir(items[i], index) == Ok(DirEntry(index[i], dirs[i].deleted))
    {
      FullIndexAgrees(items, [], i);
    }
    if index == Paths(dirs) {
      DecodeDirsOf(items, index, dirs);
    }
    if DecodeDirs(items, index) == Ok(dirs) {
      DecodeDirsElements(items, index);
      forall i | 0 <= i < |dirs| ensures index[i] == dirs[i].path {
        assert DecodeDir(items[i], index) == Ok(dirs[i]);
      }
      assert index == Paths(dirs);
    }
  }

  // ---------------------------------------------------------------- whole manifests

  /** The normal form: directories sorted with repeats dropped, files sorted. */
  function Canonical(m: AssetManifest): AssetManifest {
    m.(dirs := UniqueDirs(m.dirs), files := Sort(m.files, FileKey))
  }

  /** Exactly the manifests whose canonical form survives a round trip; each clause can be checked beforehand. */
  predicate Survives(m: AssetManifest) {
    var dirs := UniqueDirs(m.dirs);
    && (forall i | 0 <= i < |dirs| :: Expressible(dirs[i].path, dirs))
    && (forall f | f in m.files :: FileSurvives(f, dirs))
    && m.totalSize == TotalSize(m.files)
    && (m.parentHash.Some? ==> m.spec.kind.Diff?)
  }

  lemma DictLookup(spec: SpecVersion, dirs: seq<Json>, files: seq<Json>, total: U64, parentHash: Option<string>)
    ensures var j := Obj(Dict(spec, dirs, files, total, parentHash));
      && ArrayField(j, Dirs) == Some(dirs)
      && ArrayField(j, Files) == Some(files)
      && AsStr(Get(j, SpecificationVersion)) == Some(SpecString(spec))
      && AsStr(Get(j, ParentManifestHash)) == (if spec.kind.Diff? then parentHash else None)
  {
  }

  /** The header of an encoded manifest: its total, hash algorithm, version, and on a diff its parent's hash; beside the
      two lists there is nothing else. */
  lemma EncodedHeader(m: AssetManifest)
    ensures AsU64(Get(Encode(m), Total)) == Some(m.totalSize)
    ensures AsStr(Get(Encode(m), HashAlg)) == Some("xxh128")
    ensures AsStr(Get(Encode(m), SpecificationVersion)) == Some(SpecString(m.spec))
    ensures AsStr(Get(Encode(m), ParentManifestHash)) == if m.spec.kind.Diff? then m.parentHash else None
    ensures Encode(m).Obj? && Encode(m).fields.Keys ==
            {Dirs, Files, HashAlg, SpecificationVersion, Total}
            + if m.spec.kind.Diff? && m.parentHash.Some? then {ParentManifestHash} else {}
  {
    hide UniqueDirs, EncodeDirs, EncodeFiles, DirIndex, Sort, SpecString;
  }

  /** Which fields an encoded entry has: flags only when they are set, metadata only if it is no deletion or link. */
  lemma EncodedFields(f: FileEntry, index: map<string, nat>)
    ensures var fields, described := FileFields(f, index), !f.deleted && f.symlinkTarget.None?;
      && (Runnable in fields <==> described && f.runnable) && (Deleted in fields <==> f.deleted)
      && (Size in fields <==> described && f.size.Some?) && (Mtime in fields <==> described && f.mtime.Some?)
      && (Hash in fields <==> f.hash.Some?) && (ChunkHashes in fields <==> f.hash.None? && f.chunkHashes.Some?)
      && (Symlink in fields <==> f.hash.None? && f.chunkHashes.None? && f.symlinkTarget.Some?)
      && Path in fields && fields.Keys <= {Path, Hash, ChunkHashes, Symlink, Size, Mtime, Runnable, Deleted}
  {
    hide EncodePath, Strs;
  }

  /** The same of a directory. */
  lemma EncodedDirFields(d: DirEntry, index: map<string, nat>)
    ensures var j := EncodeDir(d, index);
      && j.Obj? && j.fields.Keys == {Path} + (if d.deleted then {Deleted} else {})
      && Get(j, Path) == Some(Str(EncodePath(d.path, index))) && AsFlag(Get(j, Deleted)) == d.deleted
  {
    hide EncodePath;
  }

  /** The encoded files are those of the manifest, in ascending order of the UTF-16 units of their paths, and the
      directories in ascending order of code points. */
  lemma EncodedOrder(m: AssetManifest) returns (files: seq<FileEntry>, dirs: seq<DirEntry>)
    ensures multiset(files) == multiset(m.files)
    ensures ArrayField(Encode(m), Files) == Some(EncodeFiles(files, DirIndex(dirs)))
    ensures ArrayField(Encode(m), Dirs) == Some(EncodeDirs(dirs, DirIndex(dirs)))
    ensures forall i, j | 0 <= i < j < |files| :: Leq(Utf16(files[i].path), Utf16(files[j].path))
    ensures forall i, j | 0 <= i < j < |dirs| ::
              Leq(CodePoints(dirs[i].path), CodePoints(dirs[j].path)) && dirs[i].path != dirs[j].path
    ensures forall d | d in dirs :: d in m.dirs
    ensures forall d | d in m.dirs :: Listed(dirs, d.path)
  {
    files, dirs := Sort(m.files, FileKey), UniqueDirs(m.dirs);
    SortKeeps(m.files, FileKey);
    SortSorted(m.files, FileKey);
    UniqueDirsStrict(m.dirs);
    DictLookup(m.spec, EncodeDirs(dirs, DirIndex(dirs)), EncodeFiles(files, DirIndex(dirs)), m.totalSize, m.parentHash);
  }

  /** Decoding an entry leaves what it adds to the total. */
  lemma DecodedSize(f: FileEntry, index: map<string, nat>, names: seq<string>)
    requires DecodeFile(Obj(FileFields(f, index)), names).Ok?
    ensures CountedSize(DecodeFile(Obj(FileFields(f, index)), names).value) == CountedSize(f)
  {
    hide EncodePath, ExpandPath, FileFields, StringsOf, Strs;
    FieldsLookup(f, index);
  }

  lemma {:induction false} DecodedSizes(files: seq<FileEntry>, index: map<string, nat>, names: seq<string>)
    requires DecodeFiles(EncodeFiles(files, index), names).Ok?
    ensures SumSizes(DecodeFiles(EncodeFiles(files, index), names).value) == SumSizes(files)
  {
    hide FileFields, DecodeFile, CountedSize;
    if files != [] {
      assert EncodeFiles(files, index)[1..] == EncodeFiles(files[1..], index);
      DecodedSize(files[0], index, names);
      DecodedSizes(files[1..], index, names);
      var first := DecodeFile(Obj(FileFields(files[0], index)), names).value;
      var rest := DecodeFiles(EncodeFiles(files[1..], index), names).value;
      assert ([first] + rest)[1..] == rest;
    }
  }

  /** The total in an encoding is that of the manifest decoded from it exactly when it was the total of the files. */
  lemma TotalAgreesExactly(m: AssetManifest)
    requires Decode(Encode(m)).Ok?
    ensures AsU64(Get(Encode(m), Total)) == Some(Decode(Encode(m)).value.totalSize) <==>
            m.totalSize == TotalSize(m.files)
  {
    EncodedHeader(m);
    DecodeOfEncode(m);
    hide Encode, Decode, EncodeDirs, EncodeFiles, DecodeDirs, DecodeFiles, BuildIndexFrom, UniqueDirs, Sort, DirIndex;
    var dirs, files := UniqueDirs(m.dirs), Sort(m.files, FileKey);
    var index := BuildIndexFrom(EncodeDirs(dirs, DirIndex(dirs)), []);
    DecodedSizes(files, DirIndex(dirs), index.value);
    SortKeeps(m.files, FileKey);
    SumSizesOrderFree(files, m.files);
  }

  /** Decoding an encoding, one stage at a time. */
  lemma DecodeOfEncode(m: AssetManifest)
    ensures var dirs := UniqueDirs(m.dirs); var files := Sort(m.files, FileKey);
      var items := EncodeDirs(dirs, DirIndex(dirs)); var index := BuildIndexFrom(items, []);
      var fileItems := EncodeFiles(files, DirIndex(dirs));
      Decode(Encode(m)) ==
        if index.Err? then Err(index.error)
        else if DecodeDirs(items, index.value).Err? then Err(DecodeDirs(items, index.value).error)
        else if DecodeFiles(fileItems, index.value).Err? then Err(DecodeFiles(fileItems, index.value).error)
        else Ok(WithSpec(DecodeDirs(items, index.value).value, DecodeFiles(fileItems, index.value).value, m.spec,
                         if m.spec.kind.Diff? then m.parentHash else None))
  {
    var dirs := UniqueDirs(m.dirs);
    DictLookup(m.spec, EncodeDirs(dirs, DirIndex(dirs)), EncodeFiles(Sort(m.files, FileKey), DirIndex(dirs)),
      m.totalSize, m.parentHash);
    SpecStringRoundTrip(m.spec);
  }

  lemma SortedFilesSurvive(m: AssetManifest, dirs: seq<DirEntry>)
    ensures var files := Sort(m.files, FileKey);
      && ((forall i | 0 <= i < |files| :: FileSurvives(files[i], dirs)) <==>
          forall f | f in m.files :: FileSurvives(f, dirs))
      && TotalSize(files) == TotalSize(m.files)
  {
    var files := Sort(m.files, FileKey);
    SortKeeps(m.files, FileKey);
    SameElements(files, m.files);
    SumSizesOrderFree(files, m.files);
    assert forall f | f in m.files :: f in files;
    assert forall i | 0 <= i < |files| :: files[i] in m.files;
  }

  /** Round trip: decoding the encoding gives the canonical form exactly when the manifest survives. */
  lemma RoundTrip(m: AssetManifest)
    requires |m.dirs| < USIZE_LIMIT
    ensures Decode(Encode(m)) == Ok(Canonical(m)) <==> Survives(m)
  {
    hide Encode, Decode, EncodeDirs, EncodeFiles, DecodeDirs, DecodeFiles, BuildIndexFrom, UniqueDirs, Sort, DirIndex,
         Expressible, FileSurvives, StrictlySorted;
    var dirs := UniqueDirs(m.dirs);
    UniqueDirsStrict(m.dirs);
    UniqueDirsShorter(m.dirs);
    DecodeOfEncode(m);
    BuildIndexRoundTrip(dirs);
    SortedFilesSurvive(m, dirs);
    FilesRoundTrip(Sort(m.files, FileKey), dirs);
    if BuildIndexFrom(EncodeDirs(dirs, DirIndex(dirs)), []).Ok? {
      DirsRoundTrip(dirs);
    }
  }

  lemma {:induction false} FirstOccurrencesShorter(dirs: seq<DirEntry>)
    ensures |FirstOccurrences(dirs)| <= |dirs|
  {
    if dirs != [] { FirstOccurrencesShorter(dirs[..|dirs| - 1]); }
  }

  lemma UniqueDirsShorter(dirs: seq<DirEntry>)
    ensures |UniqueDirs(dirs)| <= |dirs|
  {
    FirstOccurrencesShorter(Sort(dirs, DirKey));
    SortKeeps(dirs, DirKey);
    SameElements(Sort(dirs, DirKey), dirs);
  }

  /** What the format's own validation leaves to be checked: `$` paths, metadata on links,
      a parent hash on a snapshot, and a total that matches the files. */
  lemma ValidManifestRoundTrip(m: AssetManifest)
    requires |m.dirs| < USIZE_LIMIT && IsValid(m, true)
    requires m == WithSpec(m.dirs, m.files, m.spec, m.parentHash)
    requires m.spec.kind.Snapshot? ==> m.parentHash.None?
    requires forall f | f in m.files && f.symlinkTarget.Some? :: f.size.None? && f.mtime.None? && !f.runnable
    requires forall d | d in m.dirs :: LooksLikeReference(d.path) ==> ParentListed(d.path, UniqueDirs(m.dirs))
    requires forall f | f in m.files :: LooksLikeReference(f.path) ==> ParentListed(f.path, UniqueDirs(m.dirs))
    requires forall f | f in m.files && f.symlinkTarget.Some? ::
               LooksLikeReference(f.symlinkTarget.value) ==> ParentListed(f.symlinkTarget.value, UniqueDirs(m.dirs))
    ensures Decode(Encode(m)) == Ok(Canonical(m))
  {
    UniqueDirsStrict(m.dirs);
    assert forall i | 0 <= i < |UniqueDirs(m.dirs)| :: UniqueDirs(m.dirs)[i] in m.dirs;
    forall f | f in m.files ensures FileSurvives(f, UniqueDirs(m.dirs)) {
      assert ValidateEntry(f, true).Ok?;
    }
    RoundTrip(m);
  }

  /** A path whose first component is `$a` cannot be written when no directory is listed. */
  lemma DollarPath()
    ensures !Expressible("$a/b", [])
  {
    var path := "$a/b";
    assert path[0] == '$' && path[2] == '/' && Find(path, '/') < |path|;
  }

  /** So no manifest holding that file and no directories survives, valid or not. */
  lemma DollarPathFails(m: AssetManifest, f: FileEntry)
    requires m.dirs == [] && f in m.files && f.path == "$a/b"
    ensures Decode(Encode(m)) != Ok(Canonical(m))
  {
    DollarPath();
    assert UniqueDirs([]) == [];
    hide Encode, Decode, Expressible, Canonical, UniqueDirs;
    assert !FileSurvives(f, []);
    RoundTrip(m);
  }

  // ---------------------------------------------------------------- canonical form

  /** Encoding does not depend on the order in which directories and files are listed. */
  lemma EncodeOrderFree(m: AssetManifest, n: AssetManifest)
    requires multiset(m.dirs) == multiset(n.dirs) && multiset(m.files) == multiset(n.files)
    requires m.spec == n.spec && m.totalSize == n.totalSize && m.parentHash == n.parentHash
    requires forall a, b | a in m.dirs && b in m.dirs && a.path == b.path :: a == b
    requires forall a, b | a in m.files && b in m.files && a.path == b.path :: a == b
    ensures Encode(m) == Encode(n)
  {
    forall a, b | a in m.dirs && b in m.dirs && DirKey(a) == DirKey(b) ensures a == b {
      CodePointsInjective(a.path, b.path);
    }
    forall a, b | a in m.files && b in m.files && FileKey(a) == FileKey(b) ensures a == b {
      Utf16Injective(a.path, b.path);
    }
    SortOrderFree(m.dirs, n.dirs, DirKey);
    SortOrderFree(m.files, n.files, FileKey);
  }

  /** A manifest and its canonical form encode alike. */
  lemma EncodeCanonical(m: AssetManifest)
    ensures Encode(Canonical(m)) == Encode(m)
  {
    var dirs := UniqueDirs(m.dirs);
    UniqueDirsStrict(m.dirs);
    SortOfSorted(dirs, DirKey);
    FirstOccurrencesOfStrict(dirs);
    SortSorted(m.files, FileKey);
    SortOfSorted(Sort(m.files, FileKey), FileKey);
  }

  /** Re-encoding what was decoded reproduces the encoding. */
  lemma ReencodeStable(m: AssetManifest)
    requires |m.dirs| < USIZE_LIMIT && Survives(m)
    ensures Decode(Encode(m)).Ok? && Encode(Decode(Encode(m)).value) == Encode(m)
  {
    RoundTrip(m);
    EncodeCanonical(m);
  }
}
