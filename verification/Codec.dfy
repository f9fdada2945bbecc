/** Canonical encoding of v2025-12 manifests with `$N/name` directory references, and its decoder. */
module Codec {
  import opened Wrappers
  import opened Strings
  import opened Ordering
  import opened Manifest

  /** Object keys. Only equality of keys matters, so each known key is a constructor. */
  datatype Field =
    | Path | Hash | Size | Mtime | Runnable | ChunkHashes | Symlink | Target | Deleted
    | Dirs | Files | HashAlg | SpecificationVersion | Total | ParentManifestHash
    | Other(name: string)

  /** JSON as a value tree; an object is a map because the serialised keys are sorted. */
  datatype Json =
    | Null
    | Bool(b: bool)
    | Number(n: int)
    | Str(s: string)
    | Arr(items: seq<Json>)
    | Obj(fields: map<Field, Json>)

  datatype DecodeError =
    | UnknownSpecVersion(spec: string)
    | MissingArray(field: Field)
    | MissingPath
    | InvalidDirIndex(path: string)
    | DirIndexOutOfBounds(path: string)

  // ---------------------------------------------------------------- sort keys

  /** Directories sort by their UTF-8 bytes, which is code-point order. */
  function CodePoints(s: string): seq<int> {
    if s == "" then [] else [s[0] as int] + CodePoints(s[1..])
  }

  /** UTF-16 code units of one scalar value (section 2.1 of RFC 2781). */
  function Utf16Char(c: char): (units: seq<int>)
    ensures |units| == 1 || |units| == 2
    ensures |units| == 2 <==> 0xD800 <= units[0] < 0xDC00
  {
    var u := c as int;
    if u < 0x10000 then [u]
    else [0xD800 + (u - 0x10000) / 0x400, 0xDC00 + (u - 0x10000) % 0x400]
  }

  /** Files sort by their UTF-16 code units. */
  function Utf16(s: string): seq<int> {
    if s == "" then [] else Utf16Char(s[0]) + Utf16(s[1..])
  }

  lemma {:induction false} CodePointsInjective(a: string, b: string)
    requires CodePoints(a) == CodePoints(b)
    ensures a == b
  {
    if a == "" || b == "" {
    } else {
      assert CodePoints(a)[0] == CodePoints(b)[0];
      assert CodePoints(a)[1..] == CodePoints(a[1..]) && CodePoints(b)[1..] == CodePoints(b[1..]);
      CodePointsInjective(a[1..], b[1..]);
      assert a == [a[0]] + a[1..] && b == [b[0]] + b[1..];
    }
  }

  /** Read back, the units give the character: one unit below 2^16, a pair of a high and a low surrogate above. */
  lemma Utf16CharReads(c: char)
    ensures var units, u := Utf16Char(c), c as int;
      if u < 0x10000 then units == [u]
      else
        && |units| == 2 && 0xD800 <= units[0] < 0xDC00 && 0xDC00 <= units[1] < 0xE000
        && (units[0] - 0xD800) * 0x400 + (units[1] - 0xDC00) + 0x10000 == u
  {
  }

  /** A string is encoded character by character. */
  lemma {:induction false} Utf16Append(a: string, b: string)
    ensures Utf16(a + b) == Utf16(a) + Utf16(b)
    ensures |a| == 1 ==> Utf16(a) == Utf16Char(a[0])
  {
    hide Utf16Char;
    if a == "" {
      assert a + b == b;
    } else {
      assert (a + b)[1..] == a[1..] + b;
      Utf16Append(a[1..], b);
    }
  }

  lemma Utf16CharInjective(a: char, b: char)
    requires Utf16Char(a) == Utf16Char(b)
    ensures a == b
  {
    assert Utf16Char(a)[0] == Utf16Char(b)[0];
    if |Utf16Char(a)| == 2 {
      var x, y := a as int - 0x10000, b as int - 0x10000;
      assert Utf16Char(a)[1] == Utf16Char(b)[1];
      assert x / 0x400 == y / 0x400 && x % 0x400 == y % 0x400;
      assert x == y;
    }
    assert a as int == b as int;
  }

  /** Distinct strings have distinct UTF-16 forms, so the file order is total. */
  lemma {:induction false} Utf16Injective(a: string, b: string)
    requires Utf16(a) == Utf16(b)
    ensures a == b
  {
    if a == "" || b == "" {
      assert a != "" ==> |Utf16(a)| > 0;
      assert b != "" ==> |Utf16(b)| > 0;
    } else {
      var x, y := Utf16Char(a[0]), Utf16Char(b[0]);
      assert Utf16(a)[0] == x[0] && Utf16(b)[0] == y[0];
      assert |x| == |y|;
      assert Utf16(a)[..|x|] == x && Utf16(b)[..|y|] == y;
      assert Utf16(a)[|x|..] == Utf16(a[1..]) && Utf16(b)[|y|..] == Utf16(b[1..]);
      Utf16CharInjective(a[0], b[0]);
      Utf16Injective(a[1..], b[1..]);
      assert a == [a[0]] + a[1..] && b == [b[0]] + b[1..];
    }
  }

  lemma {:induction false} CodePointsPrefix(a: string, b: string)
    requires a <= b
    ensures CodePoints(a) <= CodePoints(b)
  {
    if a != "" {
      CodePointsPrefix(a[1..], b[1..]);
    }
  }

  function DirKey(d: DirEntry): seq<int> { CodePoints(d.path) }

  function FileKey(f: FileEntry): seq<int> { Utf16(f.path) }

  // ---------------------------------------------------------------- directory list

  predicate Listed(dirs: seq<DirEntry>, path: string) {
    exists i | 0 <= i < |dirs| :: dirs[i].path == path
  }

  /** The directories that come first under their path, in order. */
  function FirstOccurrences(dirs: seq<DirEntry>): seq<DirEntry> {
    if dirs == [] then []
    else
      var init := FirstOccurrences(dirs[..|dirs| - 1]);
      var last := dirs[|dirs| - 1];
      if Listed(init, last.path) then init else init + [last]
  }

  function UniqueDirs(dirs: seq<DirEntry>): seq<DirEntry> {
    FirstOccurrences(Sort(dirs, DirKey))
  }

  /** Strictly increasing paths. */
  ghost predicate StrictlySorted(dirs: seq<DirEntry>) {
    forall i, j | 0 <= i < j < |dirs| :: Leq(DirKey(dirs[i]), DirKey(dirs[j])) && dirs[i].path != dirs[j].path
  }

  lemma ListedAfterPush(dirs: seq<DirEntry>, d: DirEntry)
    ensures forall p :: Listed(dirs + [d], p) <==> Listed(dirs, p) || p == d.path
  {
    forall p ensures Listed(dirs + [d], p) <==> Listed(dirs, p) || p == d.path {
      if Listed(dirs, p) {
        var i :| 0 <= i < |dirs| && dirs[i].path == p;
        assert (dirs + [d])[i].path == p;
      }
      assert (dirs + [d])[|dirs|] == d;
    }
  }

  lemma {:induction false} FirstOccurrencesElements(dirs: seq<DirEntry>)
    ensures forall i | 0 <= i < |FirstOccurrences(dirs)| :: FirstOccurrences(dirs)[i] in dirs
    ensures forall i | 0 <= i < |dirs| :: Listed(FirstOccurrences(dirs), dirs[i].path)
  {
    if dirs != [] {
      var init, last := dirs[..|dirs| - 1], dirs[|dirs| - 1];
      FirstOccurrencesElements(init);
      ListedAfterPush(FirstOccurrences(init), last);
      assert forall i | 0 <= i < |init| :: init[i] == dirs[i];
    }
  }

  lemma {:induction false} FirstOccurrencesStrict(dirs: seq<DirEntry>)
    requires Sorted(dirs, DirKey)
    ensures StrictlySorted(FirstOccurrences(dirs))
  {
    if dirs != [] {
      var init, last := dirs[..|dirs| - 1], dirs[|dirs| - 1];
      FirstOccurrencesStrict(init);
      FirstOccurrencesElements(init);
      var before := FirstOccurrences(init);
      forall i | 0 <= i < |before| ensures Leq(DirKey(before[i]), DirKey(last)) {
        assert before[i] in init;
        var k :| 0 <= k < |init| && init[k] == before[i];
        assert dirs[k] == before[i];
      }
    }
  }

  lemma UniqueDirsStrict(dirs: seq<DirEntry>)
    ensures StrictlySorted(UniqueDirs(dirs))
    ensures forall d | d in UniqueDirs(dirs) :: d in dirs
    ensures forall d | d in dirs :: Listed(UniqueDirs(dirs), d.path)
  {
    var s := Sort(dirs, DirKey);
    SortSorted(dirs, DirKey);
    SortKeeps(dirs, DirKey);
    SameElements(s, dirs);
    FirstOccurrencesStrict(s);
    FirstOccurrencesElements(s);
    forall d | d in dirs ensures Listed(UniqueDirs(dirs), d.path) {
      assert d in s;
    }
  }

  lemma {:induction false} FirstOccurrencesOfStrict(dirs: seq<DirEntry>)
    requires StrictlySorted(dirs)
    ensures FirstOccurrences(dirs) == dirs
  {
    if dirs != [] {
      FirstOccurrencesOfStrict(dirs[..|dirs| - 1]);
      assert dirs == dirs[..|dirs| - 1] + [dirs[|dirs| - 1]];
    }
  }

  /** Path to position, as collected into a hash map. */
  function DirIndex(dirs: seq<DirEntry>): map<string, nat> {
    if dirs == [] then map[]
    else DirIndex(dirs[..|dirs| - 1])[dirs[|dirs| - 1].path := |dirs| - 1]
  }

  lemma {:induction false} DirIndexLookup(dirs: seq<DirEntry>)
    requires StrictlySorted(dirs)
    ensures forall p :: p in DirIndex(dirs) <==> Listed(dirs, p)
    ensures forall i | 0 <= i < |dirs| :: dirs[i].path in DirIndex(dirs) && DirIndex(dirs)[dirs[i].path] == i
    ensures forall p | p in DirIndex(dirs) :: DirIndex(dirs)[p] < |dirs| && dirs[DirIndex(dirs)[p]].path == p
  {
    if dirs != [] {
      var init, last := dirs[..|dirs| - 1], dirs[|dirs| - 1];
      DirIndexLookup(init);
      ListedAfterPush(init, last);
      assert init + [last] == dirs;
      assert forall i | 0 <= i < |init| :: init[i] == dirs[i];
    }
  }

  // ---------------------------------------------------------------- path references

  /** `encode_path_with_dir_index`. */
  function EncodePath(path: string, index: map<string, nat>): string {
    var k := RFind(path, '/');
    if k.Some? && path[..k.value] in index
    then Reference(index[path[..k.value]], path[k.value + 1..])
    else path
  }

  /** `expand_path_reference`. */
  function ExpandPath(path: string, index: seq<string>): Result<string, DecodeError> {
    var slash := Find(path, '/');
    if "$" <= path && slash < |path| then
      var idx := ParseUsize(path[1..slash]);
      if idx.None? then Err(InvalidDirIndex(path))
      else if idx.value >= |index| then Err(DirIndexOutOfBounds(path))
      else Ok(index[idx.value] + "/" + path[slash + 1..])
    else Ok(path)
  }

  function Paths(dirs: seq<DirEntry>): seq<string> {
    seq(|dirs|, i requires 0 <= i < |dirs| => dirs[i].path)
  }

  /** A path the decoder would read as a reference. */
  predicate LooksLikeReference(path: string) {
    "$" <= path && Find(path, '/') < |path|
  }

  predicate ParentListed(path: string, dirs: seq<DirEntry>) {
    RFind(path, '/').Some? && Listed(dirs, path[..RFind(path, '/').value])
  }

  /** The first component is `$k` and the k-th listed directory happens to be called `$k` itself. */
  predicate SelfNamed(path: string, dirs: seq<DirEntry>) {
    var slash := Find(path, '/');
    && LooksLikeReference(path)
    && var idx := ParseUsize(path[1..slash]);
       idx.Some? && idx.value < |dirs| && dirs[idx.value].path == path[..slash]
  }

  /** Exactly the paths that survive encoding against `dirs` and decoding (see ReferenceRoundTrip). */
  predicate Expressible(path: string, dirs: seq<DirEntry>) {
    LooksLikeReference(path) ==> ParentListed(path, dirs) || SelfNamed(path, dirs)
  }

  function Reference(idx: nat, name: string): string {
    "$" + Decimal(idx) + "/" + name
  }

  lemma ReferenceShape(idx: nat, name: string)
    ensures var p := Reference(idx, name); var n := |Decimal(idx)|;
            "$" <= p && Find(p, '/') == n + 1 && n + 1 < |p| && p[1..n + 1] == Decimal(idx) && p[n + 2..] == name
  {
    hide Find, Decimal;
    var d, p := Decimal(idx), Reference(idx, name);
    assert forall i | 0 <= i < |d| :: p[i + 1] == d[i];
    assert p[|d| + 1] == '/';
  }

  lemma ExpandReference(idx: nat, name: string, index: seq<string>)
    requires idx < USIZE_LIMIT
    ensures ExpandPath(Reference(idx, name), index) ==
            if idx < |index| then Ok(index[idx] + "/" + name) else Err(DirIndexOutOfBounds(Reference(idx, name)))
  {
    hide Find, Decimal, ParseUsize, Reference;
    ReferenceShape(idx, name);
    ParseDecimal(idx);
  }

  lemma LastSlashSplit(path: string)
    requires RFind(path, '/').Some?
    ensures path == path[..RFind(path, '/').value] + "/" + path[RFind(path, '/').value + 1..]
    ensures path[..RFind(path, '/').value] < path
  {
  }

  lemma CancelSuffix(a: string, b: string, t: string)
    requires a + t == b + t
    ensures a == b
  {
    assert |a + t| == |b + t|;
    assert a == (a + t)[..|a|] && b == (b + t)[..|b|];
  }

  lemma FirstSlashSplit(path: string, slash: nat, first: string)
    requires slash < |path| && path[slash] == '/'
    ensures first + "/" + path[slash + 1..] == path <==> first == path[..slash]
  {
    var tail := path[slash..];
    assert "/" + path[slash + 1..] == tail;
    assert path == path[..slash] + tail;
    assert first + "/" + path[slash + 1..] == first + tail;
    if first + tail == path {
      CancelSuffix(first, path[..slash], tail);
    }
  }

  /** When encoding and expanding one path gives it back, for every path and directory list. */
  lemma ReferenceRoundTrip(path: string, dirs: seq<DirEntry>)
    requires StrictlySorted(dirs) && |dirs| < USIZE_LIMIT
    ensures ExpandPath(EncodePath(path, DirIndex(dirs)), Paths(dirs)) == Ok(path) <==> Expressible(path, dirs)
  {
    hide Find, RFind, Decimal, ParseUsize, Reference, DirIndex, StrictlySorted;
    DirIndexLookup(dirs);
    var k := RFind(path, '/');
    if ParentListed(path, dirs) {
      LastSlashSplit(path);
      ExpandReference(DirIndex(dirs)[path[..k.value]], path[k.value + 1..], Paths(dirs));
    } else if LooksLikeReference(path) {
      var idx := ParseUsize(path[1..Find(path, '/')]);
      if idx.Some? && idx.value < |dirs| {
        FirstSlashSplit(path, Find(path, '/'), dirs[idx.value].path);
      }
    }
  }

  /** A path is shortened exactly when its parent is listed: to the position of the parent, and its own name. */
  lemma EncodePathShortens(parent: string, name: string, dirs: seq<DirEntry>)
    requires StrictlySorted(dirs) && '/' !in name
    ensures EncodePath(name, DirIndex(dirs)) == name
    ensures !Listed(dirs, parent) ==> EncodePath(parent + "/" + name, DirIndex(dirs)) == parent + "/" + name
    ensures forall i | 0 <= i < |dirs| && dirs[i].path == parent ::
              EncodePath(parent + "/" + name, DirIndex(dirs)) == "$" + Decimal(i) + "/" + name
  {
    hide DirIndex, Decimal, RFind, StrictlySorted;
    DirIndexLookup(dirs);
    var path := parent + "/" + name;
    LastSlashAt(parent, name);
    assert path[..|parent|] == parent && path[|parent| + 1..] == name;
    assert RFind(name, '/').None?;
  }

  lemma LastSlashAt(parent: string, name: string)
    requires '/' !in name
    ensures RFind(parent + "/" + name, '/') == Some(|parent|)
  {
    var path := parent + "/" + name;
    var k := RFind(path, '/');
    assert path[|parent|] == '/';
    assert forall i | |parent| < i < |path| :: path[i] in name;
  }

  /** Growing the index never changes an expansion that already succeeded. */
  lemma ExpandMonotone(path: string, index: seq<string>, longer: seq<string>)
    requires index <= longer && ExpandPath(path, index).Ok?
    ensures ExpandPath(path, longer) == ExpandPath(path, index)
  {
  }

  /** What a path in an encoding stands for: itself, unless it begins with `$` and has a slash; then what is between
      them must be a number, that of a known directory. */
  lemma ExpandExactly(path: string, index: seq<string>)
    ensures !LooksLikeReference(path) ==> ExpandPath(path, index) == Ok(path)
    ensures LooksLikeReference(path) ==>
      var slash := Find(path, '/');
      match ParseUsize(path[1..slash])
      case None => ExpandPath(path, index) == Err(InvalidDirIndex(path))
      case Some(k) =>
        if k < |index| then ExpandPath(path, index) == Ok(index[k] + "/" + path[slash + 1..])
        else ExpandPath(path, index) == Err(DirIndexOutOfBounds(path))
  {
    hide Find, ParseUsize;
  }

  // ---------------------------------------------------------------- encoder

  function EncodeDir(d: DirEntry, index: map<string, nat>): Json {
    var entry := map[Path := Str(EncodePath(d.path, index))];
    Obj(if d.deleted then entry[Deleted := Bool(true)] else entry)
  }

  function EncodeDirs(dirs: seq<DirEntry>, index: map<string, nat>): seq<Json> {
    seq(|dirs|, i requires 0 <= i < |dirs| => EncodeDir(dirs[i], index))
  }

  function Strs(ss: seq<string>): seq<Json> {
    seq(|ss|, i requires 0 <= i < |ss| => Str(ss[i]))
  }

  function WithContent(entry: map<Field, Json>, f: FileEntry, index: map<string, nat>): map<Field, Json> {
    if f.hash.Some? then entry[Hash := Str(f.hash.value)]
    else if f.chunkHashes.Some? then entry[ChunkHashes := Arr(Strs(f.chunkHashes.value))]
    else if f.symlinkTarget.Some? then
      entry[Symlink := Obj(map[Target := Str(EncodePath(f.symlinkTarget.value, index))])]
    else entry
  }

  function WithMetadata(entry: map<Field, Json>, f: FileEntry): map<Field, Json> {
    if f.deleted || f.symlinkTarget.Some? then entry
    else
      var sized := if f.size.Some? then entry[Size := Number(f.size.value)] else entry;
      var timed := if f.mtime.Some? then sized[Mtime := Number(f.mtime.value)] else sized;
      if f.runnable then timed[Runnable := Bool(true)] else timed
  }

  /** The fields of an encoded file entry. */
  function FileFields(f: FileEntry, index: map<string, nat>): map<Field, Json> {
    var path := map[Path := Str(EncodePath(f.path, index))];
    var entry := WithMetadata(WithContent(path, f, index), f);
    if f.deleted then entry[Deleted := Bool(true)] else entry
  }

  function EncodeFiles(files: seq<FileEntry>, index: map<string, nat>): seq<Json> {
    seq(|files|, i requires 0 <= i < |files| => Obj(FileFields(files[i], index)))
  }

  function Dict(spec: SpecVersion, dirs: seq<Json>, files: seq<Json>, total: U64,
                parentHash: Option<string>): map<Field, Json> {
    var base := map[
      Dirs := Arr(dirs),
      Files := Arr(files),
      HashAlg := Str("xxh128"),
      SpecificationVersion := Str(SpecString(spec)),
      Total := Number(total)];
    if spec.kind.Diff? && parentHash.Some? then base[ParentManifestHash := Str(parentHash.value)] else base
  }

  function Encode(m: AssetManifest): Json {
    var dirs := UniqueDirs(m.dirs);
    var index := DirIndex(dirs);
    Obj(Dict(m.spec, EncodeDirs(dirs, index), EncodeFiles(Sort(m.files, FileKey), index), m.totalSize, m.parentHash))
  }

  /** `encode_file_entry`, setting one field at a time. */
  method EncodeFileEntry(f: FileEntry, index: map<string, nat>) returns (entry: map<Field, Json>)
    ensures entry == FileFields(f, index)
  {
    entry := map[Path := Str(EncodePath(f.path, index))];
    if f.hash.Some? {
      entry := entry[Hash := Str(f.hash.value)];
    } else if f.chunkHashes.Some? {
      entry := entry[ChunkHashes := Arr(Strs(f.chunkHashes.value))];
    } else if f.symlinkTarget.Some? {
      var target := EncodePath(f.symlinkTarget.value, index);
      entry := entry[Symlink := Obj(map[Target := Str(target)])];
    }
    if !f.deleted && f.symlinkTarget.None? {
      if f.size.Some? { entry := entry[Size := Number(f.size.value)]; }
      if f.mtime.Some? { entry := entry[Mtime := Number(f.mtime.value)]; }
      if f.runnable { entry := entry[Runnable := Bool(true)]; }
    }
    if f.deleted { entry := entry[Deleted := Bool(true)]; }
  }

  /** Keep the first of each run of equal paths, with a seen-set. */
  method DropRepeats(sortedDirs: seq<DirEntry>) returns (unique: seq<DirEntry>)
    ensures unique == FirstOccurrences(sortedDirs)
  {
    unique := [];
    var seen: set<string> := {};
    for i := 0 to |sortedDirs|
      invariant unique == FirstOccurrences(sortedDirs[..i])
      invariant forall p :: p in seen <==> Listed(unique, p)
    {
      var dir := sortedDirs[i];
      assert sortedDirs[..i + 1][..i] == sortedDirs[..i];
      ListedAfterPush(unique, dir);
      if dir.path !in seen {
        seen := seen + {dir.path};
        unique := unique + [dir];
      }
    }
    assert sortedDirs[..|sortedDirs|] == sortedDirs;
  }

  /** `encode_v2025_12`: sort, drop repeated directories, then encode against the index. */
  method EncodeV2025(m: AssetManifest) returns (json: Json)
    ensures json == Encode(m)
  {
    hide FileFields, EncodeDirs, Dict, FirstOccurrences, Sort, DirIndex;
    var unique := DropRepeats(Sort(m.dirs, DirKey));
    var index := DirIndex(unique);
    var sortedFiles := Sort(m.files, FileKey);
    var filesJson: seq<Json> := [];
    for i := 0 to |sortedFiles|
      invariant filesJson == EncodeFiles(sortedFiles[..i], index)
    {
      var entry := EncodeFileEntry(sortedFiles[i], index);
      filesJson := filesJson + [Obj(entry)];
    }
    assert sortedFiles[..|sortedFiles|] == sortedFiles;
    json := Obj(Dict(m.spec, EncodeDirs(unique, index), filesJson, m.totalSize, m.parentHash));
  }

  // ---------------------------------------------------------------- decoder

  function Get(data: Json, key: Field): Option<Json> {
    if data.Obj? && key in data.fields then Some(data.fields[key]) else None
  }

  function AsStr(v: Option<Json>): Option<string> {
    if v.Some? && v.value.Str? then Some(v.value.s) else None
  }

  function AsU64(v: Option<Json>): Option<U64> {
    if v.Some? && v.value.Number? && 0 <= v.value.n < U64_LIMIT then Some(v.value.n) else None
  }

  function AsI64(v: Option<Json>): Option<I64> {
    if v.Some? && v.value.Number? && -0x8000_0000_0000_0000 <= v.value.n < 0x8000_0000_0000_0000
    then Some(v.value.n) else None
  }

  function AsFlag(v: Option<Json>): bool {
    v.Some? && v.value.Bool? && v.value.b
  }

  /** The strings of an array, other values dropped. */
  function StringsOf(items: seq<Json>): seq<string> {
    if items == [] then []
    else (if items[0].Str? then [items[0].s] else []) + StringsOf(items[1..])
  }

  /** `build_dir_index` on the tail of the array, given the index of what came before. */
  function BuildIndexFrom(dirs: seq<Json>, index: seq<string>): Result<seq<string>, DecodeError> {
    if dirs == [] then Ok(index)
    else
      var path := AsStr(Get(dirs[0], Path));
      if path.None? then Err(MissingPath)
      else
        var expanded := ExpandPath(path.value, index);
        if expanded.Err? then Err(expanded.error)
        else BuildIndexFrom(dirs[1..], index + [expanded.value])
  }

  function DecodeDir(data: Json, index: seq<string>): Result<DirEntry, DecodeError> {
    var path := AsStr(Get(data, Path));
    if path.None? then Err(MissingPath)
    else
      var expanded := ExpandPath(path.value, index);
      if expanded.Err? then Err(expanded.error)
      else Ok(DirEntry(expanded.value, AsFlag(Get(data, Deleted))))
  }

  function DecodeFile(data: Json, index: seq<string>): Result<FileEntry, DecodeError> {
    var path := AsStr(Get(data, Path));
    if path.None? then Err(MissingPath)
    else
      var expanded := ExpandPath(path.value, index);
      if expanded.Err? then Err(expanded.error)
      else
        var chunks := Get(data, ChunkHashes);
        var link := Get(data, Symlink);
        var target := if link.Some? then AsStr(Get(link.value, Target)) else None;
        var expandedTarget := if target.Some? then ExpandPath(target.value, index) else Ok("");
        if expandedTarget.Err? then Err(expandedTarget.error)
        else Ok(FileEntry(
          expanded.value,
          AsStr(Get(data, Hash)),
          AsU64(Get(data, Size)),
          AsI64(Get(data, Mtime)),
          AsFlag(Get(data, Runnable)),
          if chunks.Some? && chunks.value.Arr? then Some(StringsOf(chunks.value.items)) else None,
          if target.Some? then Some(expandedTarget.value) else None,
          AsFlag(Get(data, Deleted))))
  }

  function DecodeDirs(items: seq<Json>, index: seq<string>): Result<seq<DirEntry>, DecodeError> {
    if items == [] then Ok([])
    else
      var first := DecodeDir(items[0], index);
      if first.Err? then Err(first.error)
      else
        var rest := DecodeDirs(items[1..], index);
        if rest.Err? then rest else Ok([first.value] + rest.value)
  }

  function DecodeFiles(items: seq<Json>, index: seq<string>): Result<seq<FileEntry>, DecodeError> {
    if items == [] then Ok([])
    else
      var first := DecodeFile(items[0], index);
      if first.Err? then Err(first.error)
      else
        var rest := DecodeFiles(items[1..], index);
        if rest.Err? then rest else Ok([first.value] + rest.value)
  }

  function ArrayField(data: Json, key: Field): Option<seq<Json>> {
    var v := Get(data, key);
    if v.Some? && v.value.Arr? then Some(v.value.items) else None
  }

  /** `decode_v2025_12`. */
  function DecodeWithSpec(data: Json, specString: string): Result<AssetManifest, DecodeError> {
    var spec := FromSpecString(specString);
    if spec.None? then Err(UnknownSpecVersion(specString))
    else
      var dirsArray := ArrayField(data, Dirs);
      if dirsArray.None? then Err(MissingArray(Dirs))
      else
        var index := BuildIndexFrom(dirsArray.value, []);
        if index.Err? then Err(index.error)
        else
          var dirs := DecodeDirs(dirsArray.value, index.value);
          if dirs.Err? then Err(dirs.error)
          else
            var filesArray := ArrayField(data, Files);
            if filesArray.None? then Err(MissingArray(Files))
            else
              var files := DecodeFiles(filesArray.value, index.value);
              if files.Err? then Err(files.error)
              else Ok(WithSpec(dirs.value, files.value, spec.value, AsStr(Get(data, ParentManifestHash))))
  }

  /** Decoding of a value that carries a specification version. */
  function Decode(data: Json): Result<AssetManifest, DecodeError> {
    var spec := AsStr(Get(data, SpecificationVersion));
    if spec.None? then Err(UnknownSpecVersion("")) else DecodeWithSpec(data, spec.value)
  }

  /** Entry `i` of the array has a path, and from the directories before it that stands for the `i`-th of `full`. */
  predicate Expands(dirs: seq<Json>, full: seq<string>, i: nat)
    requires i < |dirs| <= |full|
  {
    var path, before := AsStr(Get(dirs[i], Path)), full[..|full| - |dirs| + i];
    path.Some? && ExpandPath(path.value, before) == Ok(full[|full| - |dirs| + i])
  }

  /** The directory index: every entry expanded from those before it. */
  lemma {:induction false} BuildIndexExactly(dirs: seq<Json>, index: seq<string>, full: seq<string>)
    requires index <= full && |full| == |index| + |dirs|
    ensures BuildIndexFrom(dirs, index) == Ok(full) <==> forall i | 0 <= i < |dirs| :: Expands(dirs, full, i)
  {
    hide ExpandPath;
    if dirs == [] {
      assert index == full;
    } else {
      var n := |index|;
      assert full[..n] == index;
      if Expands(dirs, full, 0) {
        var longer := index + [full[n]];
        assert longer == full[..n + 1];
        BuildIndexExactly(dirs[1..], longer, full);
        assert forall i | 0 <= i < |dirs| - 1 :: Expands(dirs[1..], full, i) <==> Expands(dirs, full, i + 1);
        assert forall i | 1 <= i < |dirs| :: Expands(dirs, full, i) <==> Expands(dirs[1..], full, i - 1);
      } else if BuildIndexFrom(dirs, index) == Ok(full) {
        BuildIndexGrows(dirs[1..], index + [ExpandPath(AsStr(Get(dirs[0], Path)).value, index).value]);
      }
    }
  }

  lemma {:induction false} DecodeFilesExactly(items: seq<Json>, index: seq<string>)
    ensures DecodeFiles(items, index).Ok? <==> forall i | 0 <= i < |items| :: DecodeFile(items[i], index).Ok?
    ensures DecodeFiles(items, index).Ok? ==>
              && |DecodeFiles(items, index).value| == |items|
              && forall i | 0 <= i < |items| :: DecodeFile(items[i], index) == Ok(DecodeFiles(items, index).value[i])
  {
    hide DecodeFile;
    if items != [] { DecodeFilesExactly(items[1..], index); }
  }

  /** A file entry decodes exactly if it has a path and both that and a link target, if any, expand; whatever else is
      missing or of another type reads as absent. */
  lemma DecodeFileExactly(data: Json, index: seq<string>)
    ensures var path := AsStr(Get(data, Path));
      var link := Get(data, Symlink); var target := if link.Some? then AsStr(Get(link.value, Target)) else None;
      DecodeFile(data, index).Ok? <==>
        && path.Some? && ExpandPath(path.value, index).Ok?
        && (target.Some? ==> ExpandPath(target.value, index).Ok?)
    ensures DecodeFile(data, index).Ok? ==>
      var f := DecodeFile(data, index).value;
      && (f.hash.Some? <==> Get(data, Hash).Some? && Get(data, Hash).value.Str?)
      && (f.size.Some? <==> Get(data, Size).Some? && Get(data, Size).value.Number?
                            && 0 <= Get(data, Size).value.n < 0x1_0000_0000_0000_0000)
      && (f.mtime.Some? <==> Get(data, Mtime).Some? && Get(data, Mtime).value.Number?
                             && -0x8000_0000_0000_0000 <= Get(data, Mtime).value.n < 0x8000_0000_0000_0000)
      && (f.runnable <==> Get(data, Runnable) == Some(Bool(true)))
      && (f.deleted <==> Get(data, Deleted) == Some(Bool(true)))
      && (f.chunkHashes.Some? <==> Get(data, ChunkHashes).Some? && Get(data, ChunkHashes).value.Arr?)
  {
    hide ExpandPath, StringsOf;
  }

  /** A value of a given version decodes exactly if the version is known, it has both arrays, its directories can be
      expanded one from another, and its files from them. */
  lemma DecodeExactly(data: Json, spec: string)
    ensures var dirs, files := ArrayField(data, Dirs), ArrayField(data, Files);
      DecodeWithSpec(data, spec).Ok? <==>
        && FromSpecString(spec).Some? && dirs.Some? && files.Some?
        && BuildIndexFrom(dirs.value, []).Ok?
        && forall i | 0 <= i < |files.value| :: DecodeFile(files.value[i], BuildIndexFrom(dirs.value, []).value).Ok?
    ensures DecodeWithSpec(data, spec).Ok? ==>
      var m := DecodeWithSpec(data, spec).value;
      && Some(m.spec) == FromSpecString(spec) && m.parentHash == AsStr(Get(data, ParentManifestHash))
      && m.totalSize == TotalSize(m.files) && |m.dirs| == |ArrayField(data, Dirs).value|
      && |m.files| == |ArrayField(data, Files).value|
    ensures AsStr(Get(data, SpecificationVersion)) == Some(spec) ==> Decode(data) == DecodeWithSpec(data, spec)
  {
    hide FromSpecString, DecodeFile, ExpandPath, TotalSize, SumSizes;
    var dirs, files := ArrayField(data, Dirs), ArrayField(data, Files);
    if dirs.Some? && BuildIndexFrom(dirs.value, []).Ok? {
      var index := BuildIndexFrom(dirs.value, []).value;
      DirsAlwaysDecode(dirs.value, dirs.value, index);
      if files.Some? { DecodeFilesExactly(files.value, index); }
    }
  }

  /** `build_dir_index`: the index grows while it is being read. */
  method BuildDirIndex(dirs: seq<Json>) returns (r: Result<seq<string>, DecodeError>)
    ensures r == BuildIndexFrom(dirs, [])
  {
    var index: seq<string> := [];
    for i := 0 to |dirs|
      invariant BuildIndexFrom(dirs, []) == BuildIndexFrom(dirs[i..], index)
    {
      var path := AsStr(Get(dirs[i], Path));
      if path.None? { return Err(MissingPath); }
      var expanded := ExpandPath(path.value, index);
      if expanded.Err? { return Err(expanded.error); }
      index := index + [expanded.value];
    }
    r := Ok(index);
  }

  // ---------------------------------------------------------------- incremental against full index

  /** Once the index could be built, every directory decodes against it. */
  lemma {:induction false} DirsAlwaysDecode(items: seq<Json>, dirs: seq<Json>, index: seq<string>)
    requires BuildIndexFrom(dirs, []) == Ok(index) && |items| <= |dirs| && items == dirs[|dirs| - |items|..]
    ensures DecodeDirs(items, index).Ok? && |DecodeDirs(items, index).value| == |items|
  {
    hide DecodeDir, BuildIndexFrom;
    if items != [] {
      FullIndexAgrees(dirs, [], |dirs| - |items|);
      assert items[0] == dirs[|dirs| - |items|];
      DirsAlwaysDecode(items[1..], dirs, index);
    }
  }

  lemma {:induction false} BuildIndexGrows(dirs: seq<Json>, index: seq<string>)
    requires BuildIndexFrom(dirs, index).Ok?
    ensures index <= BuildIndexFrom(dirs, index).value
    ensures |BuildIndexFrom(dirs, index).value| == |index| + |dirs|
  {
    if dirs != [] {
      var expanded := ExpandPath(AsStr(Get(dirs[0], Path)).value, index);
      BuildIndexGrows(dirs[1..], index + [expanded.value]);
    }
  }

  /** Whatever the input, if the index can be built then decoding each directory against the
      finished index gives the path the incremental index has at that position. */
  lemma {:induction false} FullIndexAgrees(dirs: seq<Json>, index: seq<string>, i: nat)
    requires BuildIndexFrom(dirs, index).Ok? && i < |dirs|
    ensures var full := BuildIndexFrom(dirs, index).value;
            |full| == |index| + |dirs| && DecodeDir(dirs[i], full).Ok?
              && DecodeDir(dirs[i], full).value.path == full[|index| + i]
  {
    hide ExpandPath;
    BuildIndexGrows(dirs, index);
    var path := AsStr(Get(dirs[0], Path)).value;
    var expanded := ExpandPath(path, index);
    var longer := index + [expanded.value];
    var full := BuildIndexFrom(dirs, index).value;
    assert full == BuildIndexFrom(dirs[1..], longer).value;
    if i == 0 {
      BuildIndexGrows(dirs[1..], longer);
      ExpandMonotone(path, index, full);
      assert full[|index|] == longer[|index|];
    } else {
      FullIndexAgrees(dirs[1..], longer, i - 1);
      assert dirs[1..][i - 1] == dirs[i];
    }
  }
}
