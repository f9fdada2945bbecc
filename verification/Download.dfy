/** Downloading files from the content store: reassembly by offset writes, conflict handling, size check. */
module Download {
  import opened Wrappers
  import opened Strings
  import opened Manifest
  import opened Chunks
  import opened Scanner
  import opened Transfer

  datatype StorageError =
    | ObjectNotFound(hash: string)
    | NoContent(path: string)
    | SizeMismatch(expected: nat, actual: nat)
    | FileMissing(path: string)
    | TooManyConflicts

  datatype ConflictResolution = Skip | Overwrite | CreateCopy

  datatype DownloadEntry = DownloadEntry(hash: Option<string>, chunkHashes: Option<seq<string>>, size: U64)

  /** The pieces of a local path, as the path library splits them; `extension` carries its dot. */
  datatype LocalPath = LocalPath(parent: string, stem: string, extension: string)

  function Render(p: LocalPath): string { p.parent + "/" + p.stem + p.extension }

  /** How a file name splits: the extension starts at the last dot, unless that is in front. (`..` names no file.) */
  function LocalPathOf(parent: string, name: string): LocalPath {
    var dot := RFind(name, '.');
    if name == ".." || dot.None? || dot.value == 0 then LocalPath(parent, name, "")
    else LocalPath(parent, name[..dot.value], name[dot.value..])
  }

  /** Put together again the parts give the path; the extension is empty, or a dot and what follows the last one. */
  lemma LocalPathSplits(parent: string, name: string)
    ensures var p := LocalPathOf(parent, name);
      && Render(p) == parent + "/" + name && p.stem + p.extension == name
      && (name != "" ==> p.stem != "")
      && (p.extension != "" ==> p.extension[0] == '.' && '.' !in p.extension[1..])
      && (p.extension == "" ==> name == ".." || '.' !in name[Min(1, |name|)..])
  {
    var p, dot := LocalPathOf(parent, name), RFind(name, '.');
    if p.extension != "" {
      assert forall i | 1 <= i < |p.extension| :: p.extension[i] == name[dot.value + i];
    } else if name != ".." && name != "" {
      assert forall i | 1 <= i < |name| :: name[i] == name[1..][i - 1];
    }
  }

  /** The k-th candidate name of a copy. */
  function CopyPath(p: LocalPath, k: nat): string {
    p.parent + "/" + p.stem + " (" + Decimal(k) + ")" + p.extension
  }

  /** A copy stays in the directory, keeps the extension and is named after the file and its number; it is no other
      copy and not the file itself. */
  lemma CopyPathNames(p: LocalPath, k: nat, l: nat)
    ensures CopyPath(p, k) == Render(LocalPath(p.parent, p.stem + " (" + Decimal(k) + ")", p.extension))
    ensures CopyPath(p, k) != Render(p)
    ensures CopyPath(p, k) == CopyPath(p, l) ==> k == l
  {
    hide Decimal;
    var front, tail := p.parent + "/" + p.stem + " (", ")" + p.extension;
    assert CopyPath(p, k) == front + Decimal(k) + tail && CopyPath(p, l) == front + Decimal(l) + tail;
    assert |CopyPath(p, k)| > |Render(p)|;
    if CopyPath(p, k) == CopyPath(p, l) {
      SameMiddle(front, Decimal(k), Decimal(l), tail);
      DecimalValue(k);
      DecimalValue(l);
    }
  }

  lemma SameMiddle(front: string, a: string, b: string, tail: string)
    requires front + a + tail == front + b + tail
    ensures a == b
  {
    var whole := front + a + tail;
    assert |a| == |b|;
    assert a == whole[|front|..|front| + |a|] == (front + b + tail)[|front|..|front| + |b|] == b;
  }

  /** So "a.tar.gz" is copied to "a.tar (1).gz", and "Makefile" to "Makefile (1)". */
  lemma CopyName(parent: string, stem: string, suffix: string, k: nat)
    requires stem != "" && '.' !in suffix
    ensures stem + "." + suffix != ".." ==>
              CopyPath(LocalPathOf(parent, stem + "." + suffix), k)
              == parent + "/" + stem + " (" + Decimal(k) + ")" + "." + suffix
    ensures '.' !in stem ==>
              CopyPath(LocalPathOf(parent, stem), k) == parent + "/" + stem + " (" + Decimal(k) + ")"
  {
    hide Decimal, RFind;
    var name := stem + "." + suffix;
    var dot := RFind(name, '.');
    assert name[|stem|] == '.';
    assert forall i | |stem| < i < |name| :: name[i] in suffix;
    assert dot == Some(|stem|);
    assert name[..|stem|] == stem && name[|stem|..] == "." + suffix;
    if '.' !in stem { assert RFind(stem, '.').None?; }
    assert parent + "/" + stem + " (" + Decimal(k) + ")" + ("." + suffix)
        == parent + "/" + stem + " (" + Decimal(k) + ")" + "." + suffix;
    assert parent + "/" + stem + " (" + Decimal(k) + ")" + "" == parent + "/" + stem + " (" + Decimal(k) + ")";
  }

  // ---------------------------------------------------------------- offset writes

  /** Open without truncation, seek, write: a gap is filled with zeros, a longer file keeps its tail. */
  function WriteAt(file: Bytes, off: nat, data: Bytes): Bytes {
    if data == [] then file
    else if |file| <= off then file + seq(off - |file|, i => 0) + data
    else file[..off] + data + file[Min(off + |data|, |file|)..]
  }

  /** Byte by byte: what was written is there, what was there elsewhere stays, and a gap is zero. */
  lemma WriteAtBytes(file: Bytes, off: nat, data: Bytes)
    requires data != []
    ensures var after := WriteAt(file, off, data);
      && |after| == (if off + |data| >= |file| then off + |data| else |file|)
      && forall k | 0 <= k < |after| ::
           after[k] == if off <= k < off + |data| then data[k - off] else if k < |file| then file[k] else 0
    ensures WriteAt(file, off, []) == file
  {
  }

  /** The file after the first `n` chunk objects were written over it. */
  function WriteChunks(store: map<string, Bytes>, chunks: seq<ChunkInfo>, hashes: seq<string>, n: nat,
                       file: Bytes): Bytes
    requires n <= |chunks| && n <= |hashes|
    requires forall i | 0 <= i < n :: hashes[i] in store
  {
    if n == 0 then file
    else WriteAt(WriteChunks(store, chunks, hashes, n - 1, file), chunks[n - 1].offset, store[hashes[n - 1]])
  }

  /** `front` laid over the start of `old`. */
  function Overlay(front: Bytes, prior: Bytes): Bytes { front + prior[Min(|front|, |prior|)..] }

  lemma OverlayNothing(content: Bytes, prior: Bytes)
    ensures Overlay(content[..0], prior) == prior
  {
  }

  lemma WriteExtendsOverlay(content: Bytes, prior: Bytes, a: nat, b: nat)
    requires a < b <= |content|
    ensures WriteAt(Overlay(content[..a], prior), a, content[a..b]) == Overlay(content[..b], prior)
  {
    var base := Overlay(content[..a], prior);
    assert content[..b] == content[..a] + content[a..b];
    if |base| <= a {
      assert base == content[..a];
    } else {
      assert base[..a] == content[..a];
      assert base[Min(b, |base|)..] == prior[Min(b, |prior|)..];
    }
  }

  /** Writing the first `n` chunks of `content` over any file leaves that much of it, then the old tail. */
  lemma {:induction false} WriteChunksOverlay(store: map<string, Bytes>, hashes: seq<string>, content: Bytes,
                                              prior: Bytes, n: nat)
    requires |content| < U64_LIMIT && HoldsChunks(store, hashes, content) && n <= |hashes|
    requires |hashes| == |ChunkList(|content|, CHUNK_SIZE)|
    ensures forall i | 0 <= i < n :: hashes[i] in store
    ensures WriteChunks(store, ChunkList(|content|, CHUNK_SIZE), hashes, n, prior) ==
            Overlay(content[..Min(n * CHUNK_SIZE, |content|)], prior)
  {
    hide HoldsChunks, WriteAt, Overlay, ChunkList, DivCeil;
    if n == 0 {
      OverlayNothing(content, prior);
    } else {
      WriteChunksOverlay(store, hashes, content, prior, n - 1);
      LastChunk(store, hashes, content, n);
      var k := ChunkList(|content|, CHUNK_SIZE)[n - 1];
      WriteExtendsOverlay(content, prior, k.offset, k.offset + k.length);
    }
  }

  lemma LastChunk(store: map<string, Bytes>, hashes: seq<string>, content: Bytes, n: nat)
    requires HoldsChunks(store, hashes, content) && 0 < n <= |hashes| == |ChunkList(|content|, CHUNK_SIZE)|
    ensures var k := ChunkList(|content|, CHUNK_SIZE)[n - 1];
      && k.offset == Min((n - 1) * CHUNK_SIZE, |content|)
      && k.offset < k.offset + k.length == Min(n * CHUNK_SIZE, |content|)
      && hashes[n - 1] in store && store[hashes[n - 1]] == content[k.offset..k.offset + k.length]
  {
    ChunkHeld(store, hashes, content, n - 1);
    ChunkCountLaw(|content|, n - 1);
  }

  /** Reassembly over any pre-existing file gives the content, then whatever the old file had beyond it. */
  lemma ReassembledExactly(store: map<string, Bytes>, hashes: seq<string>, content: Bytes, prior: Bytes)
    requires HoldsChunks(store, hashes, content)
    ensures |hashes| == |ChunkList(|content|, CHUNK_SIZE)| && forall i | 0 <= i < |hashes| :: hashes[i] in store
    ensures WriteChunks(store, ChunkList(|content|, CHUNK_SIZE), hashes, |hashes|, prior)
            == content + prior[Min(|content|, |prior|)..]
  {
    CountsAgree(|content|);
    WriteChunksOverlay(store, hashes, content, prior, |hashes|);
    ChunkCountLaw(|content|, |hashes|);
    assert content[..|content|] == content;
  }

  /** The size check passes exactly when the result is the content, that is when no stale tail was left. */
  lemma SizeCheckExcludesStaleTail(content: Bytes, prior: Bytes)
    ensures var result := content + prior[Min(|content|, |prior|)..];
            (|result| == |content| <==> result == content) && (result == content <==> |prior| <= |content|)
  {
    var result := content + prior[Min(|content|, |prior|)..];
    if result == content { assert |result| == |content|; }
  }

  // ---------------------------------------------------------------- end to end

  /** The store after every chunk of a file was put under its hash, in order. */
  function PutChunks(store: map<string, Bytes>, content: Bytes, n: nat, h: HashFunction): map<string, Bytes>
    requires 0 < |content| < U64_LIMIT && n <= DivCeil(|content|, CHUNK_SIZE)
  {
    if n == 0 then store
    else
      var piece := Piece(content, CHUNK_SIZE, n - 1);
      PutChunks(store, content, n - 1, h)[h(piece) := piece]
  }

  lemma {:induction false} PutChunksHold(store: map<string, Bytes>, content: Bytes, n: nat, h: HashFunction)
    requires CollisionFree(h) && 0 < |content| < U64_LIMIT && n <= DivCeil(|content|, CHUNK_SIZE)
    ensures forall i | 0 <= i < n ::
              var piece := Piece(content, CHUNK_SIZE, i);
              h(piece) in PutChunks(store, content, n, h) && PutChunks(store, content, n, h)[h(piece)] == piece
  {
    if n > 0 { PutChunksHold(store, content, n - 1, h); }
  }

  /** End-to-end identity: scan, upload chunk by chunk, download over any local file. */
  lemma EndToEnd(store: map<string, Bytes>, content: Bytes, prior: Bytes, h: HashFunction)
    requires CollisionFree(h) && CHUNK_SIZE < |content| < U64_LIMIT
    ensures var hashes := ScanHashes(content, |content|, CHUNK_SIZE, h);
      var uploaded := PutChunks(store, content, DivCeil(|content|, CHUNK_SIZE), h);
      && |hashes| == |ChunkList(|content|, CHUNK_SIZE)|
      && (forall i | 0 <= i < |hashes| :: hashes[i] in uploaded)
      && var result := WriteChunks(uploaded, ChunkList(|content|, CHUNK_SIZE), hashes, |hashes|, prior);
         && result == content + prior[Min(|content|, |prior|)..]
         && (|result| == |content| <==> result == content)
  {
    var n := DivCeil(|content|, CHUNK_SIZE);
    var hashes := ScanHashes(content, |content|, CHUNK_SIZE, h);
    var uploaded := PutChunks(store, content, n, h);
    ScanIsFaithful(content, CHUNK_SIZE, h);
    PutChunksHold(store, content, n, h);
    assert HoldsChunks(uploaded, hashes, content);
    ReassembledExactly(uploaded, hashes, content, prior);
    SizeCheckExcludesStaleTail(content, prior);
  }

  // ---------------------------------------------------------------- the downloader

  predicate AllStored(store: map<string, Bytes>, hashes: seq<string>, n: nat)
    requires n <= |hashes|
  {
    forall i | 0 <= i < n :: hashes[i] in store
  }

  /** The content an existing path starts from. */
  function BytesAt(files: map<string, Bytes>, path: string): Bytes {
    if path in files then files[path] else []
  }

  /** Everything except `path` is as it was. */
  ghost predicate SameElsewhere(before: map<string, Bytes>, after: map<string, Bytes>, path: string) {
    forall p | p != path :: (p in before <==> p in after) && (p in before ==> before[p] == after[p])
  }

  /** The local files after the first `n` chunk downloads to `path`. */
  function FilesAfter(store: map<string, Bytes>, chunks: seq<ChunkInfo>, hashes: seq<string>, n: nat,
                      files: map<string, Bytes>, path: string): map<string, Bytes>
    requires n <= |chunks| && n <= |hashes| && AllStored(store, hashes, n)
  {
    if n == 0 then files
    else
      var before := FilesAfter(store, chunks, hashes, n - 1, files, path);
      before[path := WriteAt(BytesAt(before, path), chunks[n - 1].offset, store[hashes[n - 1]])]
  }

  /** Only `path` changes, and it becomes the reassembled file. */
  lemma {:induction false} FilesAfterWrites(store: map<string, Bytes>, chunks: seq<ChunkInfo>, hashes: seq<string>,
                                            n: nat, files: map<string, Bytes>, path: string)
    requires n <= |chunks| && n <= |hashes| && AllStored(store, hashes, n)
    ensures FilesAfter(store, chunks, hashes, n, files, path) ==
            if n == 0 then files else files[path := WriteChunks(store, chunks, hashes, n, BytesAt(files, path))]
  {
    hide WriteAt;
    if n > 0 {
      FilesAfterWrites(store, chunks, hashes, n - 1, files, path);
      assert BytesAt(FilesAfter(store, chunks, hashes, n - 1, files, path), path) ==
             WriteChunks(store, chunks, hashes, n - 1, BytesAt(files, path));
    }
  }

  function FileAt(files: map<string, Bytes>, path: string): Option<Bytes> {
    if path in files then Some(files[path]) else None
  }

  /** Every object the entry refers to is in the store, and it refers to some. */
  predicate ObjectsStored(store: map<string, Bytes>, entry: DownloadEntry) {
    if entry.hash.Some? then entry.hash.value in store
    else
      && entry.chunkHashes.Some?
      && var hashes := entry.chunkHashes.value;
         AllStored(store, hashes, Min(|ChunkList(entry.size, CHUNK_SIZE)|, |hashes|))
  }

  /** The file after its objects were written over what was there. */
  function FileAfter(store: map<string, Bytes>, entry: DownloadEntry, prior: Option<Bytes>): Option<Bytes>
    requires ObjectsStored(store, entry)
  {
    if entry.hash.Some? then Some(store[entry.hash.value])
    else
      var chunks, hashes := ChunkList(entry.size, CHUNK_SIZE), entry.chunkHashes.value;
      var n := Min(|chunks|, |hashes|);
      if n == 0 then prior else Some(WriteChunks(store, chunks, hashes, n, prior.GetOr([])))
  }

  class Downloader {
    const store: map<string, Bytes>
    const verifySize: bool
    var files: map<string, Bytes>

    constructor (store: map<string, Bytes>, files: map<string, Bytes>, verifySize: bool)
      ensures this.store == store && this.files == files && this.verifySize == verifySize
    {
      this.store, this.files, this.verifySize := store, files, verifySize;
    }

    /** Whole-object download: the file is created or truncated first. */
    method GetObjectToFile(hash: string, path: string) returns (ok: bool)
      modifies this
      ensures ok <==> hash in store
      ensures ok ==> files == old(files)[path := store[hash]]
      ensures SameElsewhere(old(files), files, path)
    {
      files := files[path := []];
      ok := hash in store;
      if ok { files := files[path := store[hash]]; }
    }

    /** Offset download: created if absent, never truncated. */
    method GetObjectToFileOffset(hash: string, path: string, offset: U64) returns (ok: bool)
      modifies this
      ensures ok <==> hash in store
      ensures ok ==> files == old(files)[path := WriteAt(BytesAt(old(files), path), offset, store[hash])]
      ensures SameElsewhere(old(files), files, path)
    {
      files := files[path := BytesAt(files, path)];
      ok := hash in store;
      if ok { files := files[path := WriteAt(files[path], offset, store[hash])]; }
    }

    /** `download_chunked_file`: chunks are zipped with hashes, each object written at its offset. */
    method DownloadChunkedFile(path: string, hashes: seq<string>, size: U64)
      returns (r: Result<TransferStatistics, StorageError>)
      modifies this
      ensures var n := Min(|ChunkList(size, CHUNK_SIZE)|, |hashes|); r.Ok? <==> AllStored(store, hashes, n)
      ensures r.Ok? ==>
        var chunks := ChunkList(size, CHUNK_SIZE); var n := Min(|chunks|, |hashes|);
        && files == (if n == 0 then old(files)
                     else old(files)[path := WriteChunks(store, chunks, hashes, n, BytesAt(old(files), path))])
        && r.value == TransferStatistics(1, 1, 0, SumLengths(chunks[..n]), 0)
      ensures SameElsewhere(old(files), files, path)
    {
      hide ChunkList, WriteAt;
      var chunks := GenerateChunks(size, CHUNK_SIZE);
      var bytesTransferred: nat := 0;
      var n := Min(|chunks|, |hashes|);
      for i := 0 to n
        invariant AllStored(store, hashes, i)
        invariant SameElsewhere(old(files), files, path)
        invariant files == FilesAfter(store, chunks, hashes, i, old(files), path)
        invariant bytesTransferred == SumLengths(chunks[..i])
      {
        var ok := GetObjectToFileOffset(hashes[i], path, chunks[i].offset);
        if !ok { return Err(ObjectNotFound(hashes[i])); }
        assert chunks[..i + 1][..i] == chunks[..i];
        bytesTransferred := bytesTransferred + chunks[i].length;
      }
      FilesAfterWrites(store, chunks, hashes, n, old(files), path);
      r := Ok(TransferStatistics(1, 1, 0, bytesTransferred, 0));
    }

    /** `generate_unique_copy_path`: the first free candidate, if one of the first ten thousand is free. */
    method GenerateUniqueCopyPath(original: LocalPath) returns (r: Result<string, StorageError>)
      ensures r.Ok? ==> r.value !in files && exists k | 1 <= k <= 10000 ::
                r.value == CopyPath(original, k) && forall j | 1 <= j < k :: CopyPath(original, j) in files
      ensures r.Err? <==> forall k | 1 <= k <= 10000 :: CopyPath(original, k) in files
    {
      var counter := 1;
      while true
        invariant 1 <= counter <= 10000
        invariant forall j | 1 <= j < counter :: CopyPath(original, j) in files
        decreases 10000 - counter
      {
        var candidate := CopyPath(original, counter);
        if candidate !in files { return Ok(candidate); }
        counter := counter + 1;
        if counter > 10000 { return Err(TooManyConflicts); }
      }
    }

    /** `download_entry` with its post-download size check; `final` is where the file was put. */
    method DownloadOne(entry: DownloadEntry, target: LocalPath, resolution: ConflictResolution)
      returns (r: Result<TransferStatistics, StorageError>, final: string)
      modifies this
      // an existing file is touched only under Overwrite, and no other file ever is
      ensures SameElsewhere(old(files), files, final)
      ensures Render(target) in old(files) && resolution != Overwrite ==> final != Render(target) || files == old(files)
      ensures Render(target) in old(files) && resolution == CreateCopy && r.Ok? ==> final !in old(files)
      ensures resolution == Overwrite || Render(target) !in old(files) ==> final == Render(target)
      // skipping changes nothing
      ensures Render(target) in old(files) && resolution == Skip ==>
                r == Ok(Skipped(entry.size)) && files == old(files)
      // otherwise the statistics count one file moved, with the bytes of its objects
      ensures r.Ok? && !(Render(target) in old(files) && resolution == Skip) ==>
                r.value == TransferStatistics(1, 1, 0, EntrySize(entry), 0)
      // it succeeds exactly if a copy finds a name, every object is there, and the size check passes if it is on
      ensures var conflict := Render(target) in old(files);
        r.Ok? <==>
          || (conflict && resolution == Skip)
          || (&& (conflict && resolution == CreateCopy ==>
                    exists k | 1 <= k <= 10000 :: CopyPath(target, k) !in old(files))
              && ObjectsStored(store, entry)
              && (verifySize ==> var after := FileAfter(store, entry, FileAt(old(files), final));
                                 after.Some? && |after.value| == entry.size))
      ensures r.Ok? && !(Render(target) in old(files) && resolution == Skip) ==>
                ObjectsStored(store, entry)
                && FileAt(files, final) == FileAfter(store, entry, FileAt(old(files), final))
      // a checked download has the recorded size
      ensures r.Ok? && verifySize && !(Render(target) in old(files) && resolution == Skip) ==>
                final in files && |files[final]| == entry.size
      // and, when the store holds the content, the recorded bytes
      ensures forall content: Bytes | r.Ok? && verifySize && !(Render(target) in old(files) && resolution == Skip) ::
                |content| == entry.size && EntryHeld(store, entry, content) ==>
                    final in files && files[final] == content
    {
      final := Render(target);
      if final in files {
        match resolution {
          case Skip => r := Ok(Skipped(entry.size)); return;
          case Overwrite =>
          case CreateCopy =>
            var unique := GenerateUniqueCopyPath(target);
            if unique.Err? { r := Err(unique.error); return; }
            final := unique.value;
        }
      }
      ghost var before := BytesAt(files, final);
      if entry.hash.Some? {
        var ok := GetObjectToFile(entry.hash.value, final);
        if !ok { r := Err(ObjectNotFound(entry.hash.value)); return; }
        r := Ok(Uploaded(entry.size));
      } else if entry.chunkHashes.Some? {
        r := DownloadChunkedFile(final, entry.chunkHashes.value, entry.size);
        if r.Err? { return; }
        forall content: Bytes | |content| == entry.size && EntryHeld(store, entry, content)
          ensures final in files && files[final] == content + before[Min(|content|, |before|)..]
        {
          ReassembledExactly(store, entry.chunkHashes.value, content, before);
        }
      } else {
        r := Err(NoContent(final));
        return;
      }
      if verifySize {
        if final !in files { r := Err(FileMissing(final)); return; }
        if |files[final]| != entry.size { r := Err(SizeMismatch(entry.size, |files[final]|)); return; }
        forall content: Bytes | |content| == entry.size && EntryHeld(store, entry, content)
          ensures files[final] == content
        {
          SizeCheckExcludesStaleTail(content, before);
        }
      }
    }
  }

  /** The recorded size of a whole object, or of the chunks that have a hash. */
  function EntrySize(entry: DownloadEntry): nat {
    if entry.hash.Some? then entry.size
    else if entry.chunkHashes.Some? then
      var chunks := ChunkList(entry.size, CHUNK_SIZE);
      SumLengths(chunks[..Min(|chunks|, |entry.chunkHashes.value|)])
    else 0
  }

  /** The store holds the content an entry refers to. */
  ghost predicate EntryHeld(store: map<string, Bytes>, entry: DownloadEntry, content: Bytes) {
    if entry.hash.Some? then entry.hash.value in store && store[entry.hash.value] == content
    else entry.chunkHashes.Some? && HoldsChunks(store, entry.chunkHashes.value, content)
  }
}
