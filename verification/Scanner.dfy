/** Hashing a large file chunk by chunk through short reads. */
module Scanner {
  import opened Wrappers
  import opened Manifest
  import opened Chunks

  const READ_BUFFER: int := 64 * 1024

  /** An open file; `Read` may return fewer bytes than asked for, and none only at the end. */
  class FileReader {
    const content: Bytes
    var pos: nat

    ghost predicate Valid() reads this { pos <= |content| }

    constructor (content: Bytes)
      ensures Valid() && this.content == content && pos == 0
    {
      this.content := content;
      pos := 0;
    }

    method Read(max: nat) returns (data: Bytes)
      requires Valid()
      modifies this
      ensures Valid() && pos == old(pos) + |data| && data == content[old(pos)..pos]
      ensures |data| <= max
      ensures data == [] <==> max == 0 || old(pos) == |content|
    {
      var room := Min(max, |content| - pos);
      var n: nat :| n <= room && (n == 0 <==> room == 0);
      data := content[pos..pos + n];
      pos := pos + n;
    }
  }

  /** An incremental hasher: it hashes the concatenation of what it was fed. */
  class Hasher {
    var fed: Bytes

    constructor ()
      ensures fed == []
    {
      fed := [];
    }

    method Update(data: Bytes)
      modifies this
      ensures fed == old(fed) + data
    {
      fed := fed + data;
    }
  }

  /** The part of a file between two positions, cut off at its end. */
  function Clip(content: Bytes, from: nat, to: nat): Bytes
    requires from <= to
  {
    content[Min(from, |content|)..Min(to, |content|)]
  }

  /** Hashes by recorded size, whatever length the file really has. */
  function ScanHashes(content: Bytes, size: U64, c: nat, h: HashFunction): seq<string>
    requires c > 0
  {
    seq(DivCeil(size, c), i requires 0 <= i < DivCeil(size, c) =>
      if size == 0 then "" else
      var k := ChunkAt(size, c, i); h(Clip(content, k.offset, k.offset + k.length)))
  }

  /** Feed one chunk to a hasher; stops early at the end of the file. */
  method HashChunk(file: FileReader, chunkSize: nat, h: HashFunction) returns (hash: string)
    requires file.Valid()
    modifies file
    ensures file.Valid() && file.pos == Min(old(file.pos) + chunkSize, |file.content|)
    ensures hash == h(file.content[old(file.pos)..file.pos])
  {
    ghost var start := file.pos;
    var hasher := new Hasher();
    var chunkRemaining := chunkSize;
    while chunkRemaining > 0
      invariant file.Valid() && 0 <= chunkRemaining <= chunkSize
      invariant file.pos == start + (chunkSize - chunkRemaining)
      invariant hasher.fed == file.content[start..file.pos]
      decreases chunkRemaining
    {
      var toRead := Min(READ_BUFFER, chunkRemaining);
      var data := file.Read(toRead);
      if data == [] { break; }
      hasher.Update(data);
      chunkRemaining := chunkRemaining - |data|;
    }
    hash := h(hasher.fed);
  }

  /** `compute_chunk_hashes`, for every schedule of short reads and every actual file length. */
  method ComputeChunkHashes(file: FileReader, size: U64, h: HashFunction) returns (hashes: seq<string>)
    requires file.Valid() && file.pos == 0
    modifies file
    ensures hashes == ScanHashes(file.content, size, CHUNK_SIZE, h)
  {
    var chunkCount := DivCeil(size, CHUNK_SIZE);
    hide DivCeil, ScanHashes;
    assert chunkCount > 0 ==> size > 0 && |ScanHashes(file.content, size, CHUNK_SIZE, h)| == chunkCount by {
      if chunkCount > 0 { ScanTurn(file.content, size, h, 0); }
    }
    if chunkCount == 0 { NothingToScan(file.content, size, h); }
    hashes := [];
    var remaining: U64 := size;
    for i := 0 to chunkCount
      invariant file.Valid()
      invariant i < chunkCount ==> remaining == size - i * CHUNK_SIZE > 0
      invariant file.pos == Min(Min(i * CHUNK_SIZE, size), |file.content|)
      invariant hashes == ScanHashes(file.content, size, CHUNK_SIZE, h)[..i]
    {
      ScanTurn(file.content, size, h, i);
      var chunkSize := Min(CHUNK_SIZE, remaining);
      var hash := HashChunk(file, chunkSize, h);
      hashes := hashes + [hash];
      remaining := remaining - chunkSize;
    }
  }

  /** Turn `i` starts inside the size, and hashes what is there of its chunk. */
  lemma ScanTurn(content: Bytes, size: U64, h: HashFunction, i: nat)
    requires i < DivCeil(size, CHUNK_SIZE)
    ensures i * CHUNK_SIZE < size && |ScanHashes(content, size, CHUNK_SIZE, h)| == DivCeil(size, CHUNK_SIZE)
    ensures i + 1 < DivCeil(size, CHUNK_SIZE) ==> (i + 1) * CHUNK_SIZE < size
    ensures (i + 1) * CHUNK_SIZE == i * CHUNK_SIZE + CHUNK_SIZE
    ensures var from, to := Min(i * CHUNK_SIZE, |content|), Min(Min((i + 1) * CHUNK_SIZE, size), |content|);
      to == Min(from + Min(CHUNK_SIZE, size - i * CHUNK_SIZE), |content|) && from <= to
      && ScanHashes(content, size, CHUNK_SIZE, h)[i] == h(content[from..to])
  {
    ScanHashesAt(content, size, CHUNK_SIZE, h);
    hide ScanHashes;
  }

  lemma NothingToScan(content: Bytes, size: U64, h: HashFunction)
    requires DivCeil(size, CHUNK_SIZE) == 0
    ensures ScanHashes(content, size, CHUNK_SIZE, h) == []
  {
  }

  /** Each hash is that of its 256 MB range of the file as it is now, cut at its end. */
  lemma ScanHashesAt(content: Bytes, size: U64, c: nat, h: HashFunction)
    requires c > 0
    ensures |ScanHashes(content, size, c, h)| == DivCeil(size, c)
    ensures forall i | 0 <= i < DivCeil(size, c) ::
              ScanHashes(content, size, c, h)[i] ==
              h(content[Min(i * c, |content|)..Min(Min((i + 1) * c, size), |content|)])
  {
    forall i | 0 <= i < DivCeil(size, c)
      ensures i * c <= Min((i + 1) * c, size) && ScanHashes(content, size, c, h)[i] ==
              h(content[Min(i * c, |content|)..Min(Min((i + 1) * c, size), |content|)])
    {
      var k := ChunkAt(size, c, i);
      assert k.offset == i * c && k.offset + k.length == Min((i + 1) * c, size);
    }
  }

  /** When the file has its recorded size, the scan yields the hashes of its chunks. */
  lemma ScanIsFaithful(content: Bytes, c: nat, h: HashFunction)
    requires c > 0 && 0 < |content| < U64_LIMIT
    ensures ScanHashes(content, |content|, c, h) == ChunkHashes(content, c, h)
  {
    forall i | 0 <= i < DivCeil(|content|, c)
      ensures ScanHashes(content, |content|, c, h)[i] == ChunkHashes(content, c, h)[i]
    {
      var k := ChunkAt(|content|, c, i);
      assert Clip(content, k.offset, k.offset + k.length) == Piece(content, c, i);
    }
  }

  /** The entry the scanner builds for a file: chunked above the chunk size, single-hash otherwise. */
  function ScanEntry(path: string, content: Bytes, mtime: I64, runnable: bool, h: HashFunction): FileEntry
    requires |content| < U64_LIMIT
  {
    if |content| > CHUNK_SIZE
    then ChunkedFile(path, ChunkHashes(content, CHUNK_SIZE, h), |content|, mtime, runnable)
    else RegularFile(path, h(content), |content|, mtime, runnable)
  }

  /** What a scanned entry says: path, size, time and executable bit of the file; one hash of the whole up to the chunk
      size, and above it the hash of each 256 MB piece, which is what `ComputeChunkHashes` returns. */
  lemma ScanEntryDescribes(path: string, content: Bytes, mtime: I64, runnable: bool, h: HashFunction)
    requires |content| < U64_LIMIT
    ensures var e := ScanEntry(path, content, mtime, runnable, h);
      && e.path == path && e.size == Some(|content|) && e.mtime == Some(mtime) && e.runnable == runnable
      && !e.deleted && e.symlinkTarget == None
      && (e.chunkHashes.Some? <==> |content| > 0x1000_0000) && (e.hash.Some? <==> |content| <= 0x1000_0000)
      && (e.hash.Some? ==> e.hash.value == h(content))
      && (e.chunkHashes.Some? ==>
            && e.chunkHashes.value == ScanHashes(content, |content|, CHUNK_SIZE, h)
            && forall i | 0 <= i < |e.chunkHashes.value| ::
                 e.chunkHashes.value[i] == h(content[i * 0x1000_0000..Min((i + 1) * 0x1000_0000, |content|)]))
  {
    if |content| > CHUNK_SIZE {
      ScanIsFaithful(content, CHUNK_SIZE, h);
      forall i | 0 <= i < |ChunkHashes(content, CHUNK_SIZE, h)|
        ensures i * CHUNK_SIZE <= Min((i + 1) * CHUNK_SIZE, |content|)
        ensures ChunkHashes(content, CHUNK_SIZE, h)[i]
             == h(content[i * CHUNK_SIZE..Min((i + 1) * CHUNK_SIZE, |content|)])
      {
        var k := ChunkAt(|content|, CHUNK_SIZE, i);
        assert k.offset == i * CHUNK_SIZE && k.offset + k.length == Min((i + 1) * CHUNK_SIZE, |content|);
      }
    }
  }

  /** Every entry the scanner builds passes validation, and identifies its content. */
  lemma ScanEntryIsValid(path: string, content: Bytes, mtime: I64, runnable: bool, h: HashFunction)
    requires |content| < U64_LIMIT
    ensures ValidateEntry(ScanEntry(path, content, mtime, runnable, h), false).Ok?
    ensures CollisionFree(h) ==> forall other: Bytes | |other| < U64_LIMIT ::
              ScanEntry(path, other, mtime, runnable, h) == ScanEntry(path, content, mtime, runnable, h) ==>
                  other == content
  {
    if |content| > CHUNK_SIZE {
      ValidExactlyWhenUploadable(ChunkHashes(content, CHUNK_SIZE, h), |content|);
    }
    if CollisionFree(h) {
      forall other: Bytes | |other| < U64_LIMIT &&
          ScanEntry(path, other, mtime, runnable, h) == ScanEntry(path, content, mtime, runnable, h)
        ensures other == content
      {
        if |content| > CHUNK_SIZE {
          ChunkHashesInjective(other, content, CHUNK_SIZE, h);
        }
      }
    }
  }
}
