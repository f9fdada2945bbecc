/** Reading a byte range of a manifest file through the read-only branch of the mounted file system. */
module RangeRead {
  import opened Wrappers
  import opened Manifest
  import opened Chunks

  datatype Errno = EIO
  datatype FileContent = SingleHash(hash: string) | Chunked(hashes: seq<string>)

  /** Rust's `as u64` on a signed 64-bit value. */
  function CastU64(n: I64): U64 { if n < 0 then n + U64_LIMIT else n }

  /** An offset or length that is not negative is taken as it is; a negative one counts down from 2^64. */
  lemma CastReads(n: I64)
    ensures n >= 0 ==> CastU64(n) == n
    ensures n < 0 ==> CastU64(n) == 0x1_0000_0000_0000_0000 + n
  {
  }

  /** What a caller should see: the bytes from `off`, at most `len` of them, none past the end. */
  function RangeOf(content: Bytes, off: nat, len: nat): Bytes {
    if off >= |content| then [] else content[off..Min(off + len, |content|)]
  }

  ghost predicate Holds(store: map<string, Bytes>, file: FileContent, content: Bytes) {
    match file
    case SingleHash(hash) => hash in store && store[hash] == content
    case Chunked(hashes) => HoldsChunks(store, hashes, content)
  }

  /** `retrieve_range`: as many of the asked bytes as the object has from the offset on, each the object's own. */
  method ReadSingleHash(store: map<string, Bytes>, hash: string, offset: U64, length: U64)
    returns (r: Result<Bytes, Errno>)
    ensures r.Err? <==> hash !in store
    ensures r.Ok? ==> |r.value| == if offset >= |store[hash]| then 0 else Min(length, |store[hash]| - offset)
    ensures r.Ok? ==> forall k | 0 <= k < |r.value| :: r.value[k] == store[hash][offset + k]
  {
    if hash !in store { return Err(EIO); }
    r := Ok(RangeOf(store[hash], offset, length));
  }

  lemma RangeByBytes(content: Bytes, off: nat, len: nat, bytes: Bytes)
    requires |bytes| == if off >= |content| then 0 else Min(len, |content| - off)
    requires forall k | 0 <= k < |bytes| :: bytes[k] == content[off + k]
    ensures bytes == RangeOf(content, off, len)
  {
  }

  /** The last chunk before the end of `u64` has no end in `u64`. */
  predicate EndWraps(endOffset: nat) { endOffset > U64_LIMIT - CHUNK_SIZE }

  /** Where a chunked read that should stop at `endOffset` does stop, in a build in which `u64` wraps. */
  function StopsAt(endOffset: nat, size: nat): nat { if EndWraps(endOffset) then size else endOffset }

  /** One turn of the chunk loop: the bytes of chunk `i` between two absolute positions. Only in the last chunk of all
      can a step wrap; then the rest of the chunk is read. */
  method ReadPiece(store: map<string, Bytes>, hash: string, i: nat, currentOffset: U64, endOffset: U64,
                   ghost content: Bytes)
    returns (r: Result<Bytes, Errno>)
    requires i * CHUNK_SIZE <= currentOffset <= Min(endOffset, (i + 1) * CHUNK_SIZE)
    ensures r.Err? <==> hash !in store
    ensures hash in store && HoldsChunk(store[hash], content, i) && endOffset <= |content| ==>
              var end := if (i + 1) * CHUNK_SIZE < U64_LIMIT then Min(endOffset, (i + 1) * CHUNK_SIZE) else |content|;
              r == Ok(content[currentOffset..end])
  {
    hide DivCeil, Piece, RangeOf;
    assert (i + 1) * CHUNK_SIZE == i * CHUNK_SIZE + CHUNK_SIZE;
    var chunkStart: U64 := i * CHUNK_SIZE;
    var chunkEnd: U64 := (chunkStart + CHUNK_SIZE) % U64_LIMIT;
    WrapAtEnd(i);
    var readStart: U64 := (if currentOffset > chunkStart then currentOffset else chunkStart) - chunkStart;
    var readEnd: U64 := (Min(endOffset, chunkEnd) - chunkStart) % U64_LIMIT;
    var readLen: U64 := readEnd - readStart;
    r := ReadSingleHash(store, hash, readStart, readLen);
    if hash in store && HoldsChunk(store[hash], content, i) && endOffset <= |content| {
      RangeByBytes(store[hash], readStart, readLen, r.value);
      PartOfPiece(content, i, currentOffset, endOffset, readLen);
    }
  }

  /** What the turn reads of its chunk, in terms of the file. */
  lemma PartOfPiece(content: Bytes, i: nat, from: nat, endOffset: nat, len: nat)
    requires 0 < |content| < U64_LIMIT && i < DivCeil(|content|, CHUNK_SIZE)
    requires i * CHUNK_SIZE <= from <= Min(endOffset, (i + 1) * CHUNK_SIZE) && endOffset <= |content|
    requires len + from ==
             if (i + 1) * CHUNK_SIZE < U64_LIMIT then Min(endOffset, (i + 1) * CHUNK_SIZE) else (i + 1) * CHUNK_SIZE
    requires (i + 1) * CHUNK_SIZE <= U64_LIMIT
    ensures RangeOf(Piece(content, CHUNK_SIZE, i), from - i * CHUNK_SIZE, len) ==
            content[from..if (i + 1) * CHUNK_SIZE < U64_LIMIT then Min(endOffset, (i + 1) * CHUNK_SIZE) else |content|]
  {
    hide Piece, DivCeil, RangeOf;
    assert (i + 1) * CHUNK_SIZE == i * CHUNK_SIZE + CHUNK_SIZE;
    if (i + 1) * CHUNK_SIZE < U64_LIMIT {
      PieceRange(content, i, from - i * CHUNK_SIZE, len);
    } else {
      PieceRest(content, i, from - i * CHUNK_SIZE, len);
    }
  }

  /** The end of a chunk that starts within `u64` is within `u64`, or is its limit, and then wraps to 0. */
  lemma WrapAtEnd(i: nat)
    requires i * CHUNK_SIZE < U64_LIMIT
    ensures (i + 1) * CHUNK_SIZE <= U64_LIMIT
  {
    assert U64_LIMIT == 0x10_0000_0000 * CHUNK_SIZE;
    assert i + 1 <= 0x10_0000_0000;
  }

  /** The object of a chunk that the range touches is not there. */
  predicate MissingChunk(store: map<string, Bytes>, hashes: seq<string>, offset: nat, length: nat) {
    exists i | 0 <= i < |hashes| ::
      hashes[i] !in store && i * CHUNK_SIZE < offset + length && (i + 1) * CHUNK_SIZE > offset
  }

  predicate StoredBetween(store: map<string, Bytes>, hashes: seq<string>, from: nat, to: nat) {
    forall i | from <= i < to && i < |hashes| :: hashes[i] in store
  }

  lemma NoneBetween(store: map<string, Bytes>, hashes: seq<string>, offset: nat)
    ensures StoredBetween(store, hashes, offset / CHUNK_SIZE, offset / CHUNK_SIZE)
  {
  }

  lemma OneMoreStored(store: map<string, Bytes>, hashes: seq<string>, from: nat, i: nat)
    requires StoredBetween(store, hashes, from, i) && i < |hashes| && hashes[i] in store
    ensures StoredBetween(store, hashes, from, i + 1)
  {
  }

  lemma ChunkMissing(store: map<string, Bytes>, hashes: seq<string>, offset: nat, length: nat, i: nat)
    requires offset / CHUNK_SIZE <= i < Min(ChunkCount(offset + length), |hashes|) && hashes[i] !in store
    ensures MissingChunk(store, hashes, offset, length)
  {
    ChunkCountLaw(offset + length, i);
    assert (i + 1) * CHUNK_SIZE > offset;
  }

  lemma NothingMissing(store: map<string, Bytes>, hashes: seq<string>, offset: nat, length: nat, i: nat)
    requires StoredBetween(store, hashes, offset / CHUNK_SIZE, i) && i >= Min(ChunkCount(offset + length), |hashes|)
    ensures !MissingChunk(store, hashes, offset, length)
  {
    forall j | 0 <= j < |hashes| && j * CHUNK_SIZE < offset + length && (j + 1) * CHUNK_SIZE > offset
      ensures hashes[j] in store
    {
      ChunkCountLaw(offset + length, j);
      assert j >= offset / CHUNK_SIZE;
    }
  }

  /** Before turn `i` the loop has read up to `reached`; a turn that starts late starts at the offset. */
  predicate Reached(offset: nat, endOffset: nat, i: nat, reached: nat) {
    && i * CHUNK_SIZE <= reached <= (i + 1) * CHUNK_SIZE && offset <= reached <= U64_LIMIT
    && (reached == offset || reached == i * CHUNK_SIZE)
    && i >= offset / CHUNK_SIZE && (i == offset / CHUNK_SIZE || (i - 1) * CHUNK_SIZE < endOffset)
  }

  lemma ReachedTurn(offset: nat, endOffset: nat, i: nat, reached: nat)
    requires Reached(offset, endOffset, i, reached) && i < ChunkCount(endOffset) && offset <= endOffset < U64_LIMIT
    ensures i * CHUNK_SIZE <= reached <= Min(endOffset, (i + 1) * CHUNK_SIZE)
    ensures (i + 1) * CHUNK_SIZE == i * CHUNK_SIZE + CHUNK_SIZE
    ensures Reached(offset, endOffset, i + 1, (i + 1) * CHUNK_SIZE)
  {
    ChunkCountLaw(endOffset, i);
    WrapAtEnd(i);
  }

  lemma ReachedStart(offset: nat, endOffset: nat)
    requires offset <= endOffset < U64_LIMIT
    ensures Reached(offset, endOffset, offset / CHUNK_SIZE, offset)
  {
  }

  /** What has been read when the loop has reached this far. */
  function ReadSoFar(content: Bytes, offset: nat, endOffset: nat, reached: nat): Bytes
    requires offset <= endOffset <= |content| && offset <= reached
  {
    content[offset..if reached >= U64_LIMIT then |content| else Min(reached, endOffset)]
  }

  lemma ReadNothing(content: Bytes, offset: nat, endOffset: nat)
    requires offset <= endOffset <= |content| && endOffset < U64_LIMIT
    ensures ReadSoFar(content, offset, endOffset, offset) == []
  {
  }

  lemma ReadMore(content: Bytes, offset: nat, endOffset: nat, reached: nat, next: nat, data: Bytes)
    requires offset <= reached <= endOffset <= |content| && endOffset < U64_LIMIT && reached <= next
    requires data == content[reached..if next < U64_LIMIT then Min(endOffset, next) else |content|]
    ensures ReadSoFar(content, offset, endOffset, reached) + data == ReadSoFar(content, offset, endOffset, next)
  {
    JoinSlices(content, offset, reached, if next < U64_LIMIT then Min(endOffset, next) else |content|);
  }

  /** `read_chunked`: visits the chunks the range touches, and stops at the end of the range unless that lies in the
      last chunk of all. */
  method ReadChunked(store: map<string, Bytes>, hashes: seq<string>, offset: U64, length: U64, ghost content: Bytes)
    returns (r: Result<Bytes, Errno>)
    requires offset + length < U64_LIMIT
    ensures HoldsChunks(store, hashes, content) && offset + length <= |content| ==>
              r == Ok(content[offset..StopsAt(offset + length, |content|)])
    ensures r.Err? <==> MissingChunk(store, hashes, offset, length)
  {
    hide HoldsChunks, HoldsChunk, ChunkCount, DivCeil, Piece, RangeOf, ChunkAt, MissingChunk, StoredBetween, Reached,
         ReadSoFar;
    var endOffset: U64 := offset + length;
    var last := Min(ChunkCount(endOffset), |hashes|);
    var result: Bytes := [];
    var currentOffset: U64 := offset;
    var i: nat := offset / CHUNK_SIZE;
    ghost var first, reached: nat := i, offset;
    ghost var good := HoldsChunks(store, hashes, content) && endOffset <= |content|;
    ReachedStart(offset, endOffset);
    NoneBetween(store, hashes, offset);
    if good { ReadNothing(content, offset, endOffset); }
    while i < last
      invariant Reached(offset, endOffset, i, reached) && offset <= reached && currentOffset == reached % U64_LIMIT
      invariant StoredBetween(store, hashes, first, i)
      invariant good ==> result == ReadSoFar(content, offset, endOffset, reached)
    {
      ReachedTurn(offset, endOffset, i, reached);
      if good { ChunkHeld(store, hashes, content, i); }
      var data := ReadPiece(store, hashes[i], i, currentOffset, endOffset, content);
      if data.Err? {
        ChunkMissing(store, hashes, offset, length, i);
        return Err(EIO);
      }
      if good { ReadMore(content, offset, endOffset, reached, (i + 1) * CHUNK_SIZE, data.value); }
      OneMoreStored(store, hashes, first, i);
      result := result + data.value;
      reached := (i + 1) * CHUNK_SIZE;
      currentOffset := (i * CHUNK_SIZE + CHUNK_SIZE) % U64_LIMIT;
      i := i + 1;
    }
    NothingMissing(store, hashes, offset, length, i);
    if good { AllRead(store, hashes, content, offset, endOffset, i, reached); }
    r := Ok(result);
  }

  lemma AllRead(store: map<string, Bytes>, hashes: seq<string>, content: Bytes, offset: nat, endOffset: nat, i: nat,
                reached: nat)
    requires HoldsChunks(store, hashes, content) && offset <= endOffset <= |content| && endOffset < U64_LIMIT
    requires Reached(offset, endOffset, i, reached) && i >= Min(ChunkCount(endOffset), |hashes|)
    ensures ReadSoFar(content, offset, endOffset, reached) == content[offset..StopsAt(endOffset, |content|)]
  {
    hide HoldsChunk, Piece, RangeOf, ChunkAt, DivCeil, ChunkCount;
    ChunkHeld(store, hashes, content, i);
    ChunkCountLaw(endOffset, i);
    ChunkCountLaw(|content|, i);
    AllChunksRead(i, endOffset, reached, offset);
  }

  /** The loop ends behind the range, and has passed the last chunk of all exactly when the end wraps. */
  lemma AllChunksRead(i: nat, endOffset: nat, reached: nat, offset: nat)
    requires endOffset <= i * CHUNK_SIZE && i * CHUNK_SIZE <= reached <= U64_LIMIT && offset <= endOffset < U64_LIMIT
    requires reached == offset || reached == i * CHUNK_SIZE
    requires i == offset / CHUNK_SIZE || (i - 1) * CHUNK_SIZE < endOffset
    ensures reached >= endOffset
    ensures EndWraps(endOffset) <==> reached == U64_LIMIT
  {
  }

  lemma JoinSlices(content: Bytes, a: nat, b: nat, c: nat)
    requires a <= b <= c <= |content|
    ensures content[a..b] + content[b..c] == content[a..c]
  {
  }

  lemma SliceOfSlice(s: Bytes, a: nat, b: nat, x: nat, y: nat)
    requires a <= b <= |s| && x <= y <= b - a
    ensures s[a..b][x..y] == s[a + x..a + y]
  {
    assert forall k | 0 <= k < y - x :: s[a..b][x..y][k] == s[a..b][x + k] == s[a + x..a + y][k];
  }

  /** A range inside chunk `i` is the same range of the file, shifted. */
  lemma PieceRange(content: Bytes, i: nat, start: nat, len: nat)
    requires 0 < |content| < U64_LIMIT && i < DivCeil(|content|, CHUNK_SIZE)
    requires start + len <= CHUNK_SIZE && i * CHUNK_SIZE + start + len <= |content|
    ensures RangeOf(Piece(content, CHUNK_SIZE, i), start, len) ==
            content[i * CHUNK_SIZE + start..i * CHUNK_SIZE + start + len]
  {
    var piece := Piece(content, CHUNK_SIZE, i);
    var k := ChunkAt(|content|, CHUNK_SIZE, i);
    assert (i + 1) * CHUNK_SIZE == i * CHUNK_SIZE + CHUNK_SIZE;
    assert k.offset + k.length == Min((i + 1) * CHUNK_SIZE, |content|);
    assert start + len <= k.length;
    SliceOfSlice(content, k.offset, k.offset + k.length, start, start + len);
  }

  /** The chunk ends in the range and with it, so the whole rest of it is asked for. */
  lemma PieceRest(content: Bytes, i: nat, start: nat, len: nat)
    requires 0 < |content| < U64_LIMIT && i < DivCeil(|content|, CHUNK_SIZE)
    requires (i + 1) * CHUNK_SIZE == U64_LIMIT && start + len == CHUNK_SIZE && i * CHUNK_SIZE + start <= |content|
    ensures RangeOf(Piece(content, CHUNK_SIZE, i), start, len) == content[i * CHUNK_SIZE + start..]
  {
    var piece := Piece(content, CHUNK_SIZE, i);
    var k := ChunkAt(|content|, CHUNK_SIZE, i);
    assert (i + 1) * CHUNK_SIZE == i * CHUNK_SIZE + CHUNK_SIZE;
    assert k.offset + k.length == |content|;
    SliceOfSlice(content, k.offset, k.offset + k.length, start, k.length);
  }

  /** What a read returns: the range, except that a chunked file's read that ends in the last chunk of all goes on to
      the end of the file. */
  function ReadResult(file: FileContent, content: Bytes, off: nat, len: nat): Bytes {
    if off >= |content| then []
    else
      var to := Min(off + len, |content|);
      if file.SingleHash? then content[off..to]
      else content[off..StopsAt(to, |content|)]
  }

  /** `read` on a file that is not dirty, for every signed offset and length and every size. */
  method Read(store: map<string, Bytes>, file: FileContent, fileSize: U64, offset: I64, length: I64,
              ghost content: Bytes)
    returns (r: Result<Bytes, Errno>)
    ensures Holds(store, file, content) && fileSize == |content| ==>
              r == Ok(ReadResult(file, content, CastU64(offset), CastU64(length)))
    ensures var off := CastU64(offset);
      r.Err? <==> off < fileSize && match file
                                    case SingleHash(hash) => hash !in store
                                    case Chunked(hashes) =>
                                      MissingChunk(store, hashes, off, Min(CastU64(length), fileSize - off))
  {
    var off := CastU64(offset);
    if off >= fileSize { return Ok([]); }
    var actual: U64 := Min(CastU64(length), fileSize - off);
    match file
    case SingleHash(hash) =>
      r := ReadSingleHash(store, hash, off, actual);
      if hash in store { RangeByBytes(store[hash], off, actual, r.value); }
    case Chunked(hashes) => r := ReadChunked(store, hashes, off, actual, content);
  }

  /** So a read is the slice of the file exactly when it ends before the last chunk of all begins to end past `u64`,
      or at the end of the file, or the file is one object, or nothing is there to read. */
  lemma ReadIsRange(file: FileContent, content: Bytes, off: nat, len: nat)
    ensures ReadResult(file, content, off, len) == RangeOf(content, off, len) <==>
      || off >= |content| || file.SingleHash? || off + len >= |content| || !EndWraps(off + len)
  {
    if off < |content| && file.Chunked? && off + len < |content| && EndWraps(off + len) {
      assert |ReadResult(file, content, off, len)| == |content| - off;
      assert |RangeOf(content, off, len)| == len;
    }
  }

  /** In particular every read of a file of at most 2^64 - 2^28 bytes. */
  lemma SmallFilesReadRight(file: FileContent, content: Bytes, off: nat, len: nat)
    requires |content| <= U64_LIMIT - CHUNK_SIZE
    ensures ReadResult(file, content, off, len) == RangeOf(content, off, len)
  {
    ReadIsRange(file, content, off, len);
  }

  /** A read that starts in the file returns the slice up to here. */
  function ReadEnd(file: FileContent, size: nat, end: nat): nat {
    var to := Min(end, size);
    if file.SingleHash? then to else StopsAt(to, size)
  }

  lemma ReadSlice(file: FileContent, content: Bytes, off: nat, len: nat)
    requires off < |content|
    ensures off <= ReadEnd(file, |content|, off + len) <= |content|
    ensures ReadResult(file, content, off, len) == content[off..ReadEnd(file, |content|, off + len)]
  {
  }

  /** Adjacent reads concatenate to the larger read, exactly when the first one does not run on. */
  lemma AdjacentReads(file: FileContent, content: Bytes, off: nat, first: nat, second: nat)
    ensures (ReadResult(file, content, off, first) + ReadResult(file, content, off + first, second)
             == ReadResult(file, content, off, first + second)) <==>
      || off + first >= |content| || file.SingleHash? || !EndWraps(off + first)
  {
    if off + first < |content| {
      ReadSlice(file, content, off, first);
      ReadSlice(file, content, off + first, second);
      ReadSlice(file, content, off, first + second);
      hide ReadResult;
      var to := ReadEnd(file, |content|, off + first + second);
      if file.SingleHash? || !EndWraps(off + first) {
        JoinSlices(content, off, off + first, to);
      } else {
        assert to == |content| == ReadEnd(file, |content|, off + first);
        assert |content[off..] + content[off + first..]| > |content[off..]|;
      }
    } else if off < |content| {
      assert ReadResult(file, content, off + first, second) == [];
    }
  }

  /** A read is empty exactly at or past the end, or when nothing was asked for and it does not run on. */
  lemma EmptyReads(file: FileContent, content: Bytes, off: nat, len: nat)
    ensures ReadResult(file, content, off, len) == [] <==>
      || off >= |content| || (len == 0 && (file.SingleHash? || !EndWraps(off)))
  {
  }
}
