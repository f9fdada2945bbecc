/** Chunk geometry of large files, and file contents cut along it. */
module Chunks {
  import opened Wrappers
  import opened Manifest

  newtype byte = x: int | 0 <= x < 256
  type Bytes = seq<byte>

  /** The content hash; collision freedom is stated where it is needed. */
  type HashFunction = Bytes -> string

  datatype ChunkInfo = ChunkInfo(index: nat, offset: U64, length: U64)

  function Min(a: int, b: int): int { if a <= b then a else b }

  /** Rust's `u64::div_ceil`. */
  function DivCeil(n: nat, c: nat): (q: nat)
    requires c > 0
    ensures (q - 1) * c < n <= q * c || (n == 0 && q == 0)
  {
    assert n == (n / c) * c + n % c;
    if n % c == 0 then n / c
    else
      assert (n / c + 1) * c == (n / c) * c + c;
      n / c + 1
  }

  predicate NeedsChunking(size: nat, c: nat) { c > 0 && size > c }

  function ExpectedChunkCount(size: nat, c: nat): nat {
    if c == 0 || size == 0 then 1 else DivCeil(size, c)
  }

  lemma {:induction false} MulMonotone(a: nat, b: nat, c: nat)
    requires a <= b
    ensures a * c <= b * c
    decreases b - a
  {
    if a < b {
      MulMonotone(a + 1, b, c);
      assert (a + 1) * c == a * c + c;
    }
  }

  lemma Below(i: nat, q: nat, c: nat)
    requires i < q
    ensures i * c <= (q - 1) * c
  {
    MulMonotone(i, q - 1, c);
  }

  /** Chunk `i` of a non-empty file. */
  function ChunkAt(size: U64, c: nat, i: nat): (info: ChunkInfo)
    requires c > 0 && size > 0 && i < DivCeil(size, c)
    ensures info.length > 0 && info.offset == i * c && info.offset + info.length == Min((i + 1) * c, size)
  {
    Below(i, DivCeil(size, c), c);
    assert (i + 1) * c == i * c + c;
    ChunkInfo(i, i * c, Min(c, size - i * c))
  }

  /** The chunks of a file, by position. */
  function ChunkList(size: U64, c: nat): (chunks: seq<ChunkInfo>)
    ensures |chunks| == ExpectedChunkCount(size, c)
  {
    if c == 0 || size == 0 then [ChunkInfo(0, 0, size)]
    else seq(DivCeil(size, c), i requires 0 <= i < DivCeil(size, c) => ChunkAt(size, c, i))
  }

  /** `generate_chunks`; every offset and sum stays within u64. */
  method GenerateChunks(size: U64, c: U64) returns (chunks: seq<ChunkInfo>)
    ensures chunks == ChunkList(size, c)
  {
    if c == 0 || size == 0 {
      return [ChunkInfo(0, 0, size)];
    }
    chunks := [];
    var offset: U64 := 0;
    var index: nat := 0;
    while offset < size
      invariant index <= DivCeil(size, c)
      invariant offset == Min(index * c, size)
      invariant offset < size ==> index < DivCeil(size, c)
      invariant chunks == ChunkList(size, c)[..index]
      decreases size - offset
    {
      Below(index, DivCeil(size, c), c);
      assert (index + 1) * c == index * c + c;
      var length: U64 := Min(c, size - offset);
      chunks := chunks + [ChunkInfo(index, offset, length)];
      offset := offset + length;
      index := index + 1;
      if index < DivCeil(size, c) { Below(index, DivCeil(size, c), c); }
      if index == DivCeil(size, c) { assert offset == size; }
    }
    if index < DivCeil(size, c) { Below(index, DivCeil(size, c), c); }
    assert ChunkList(size, c)[..index] == ChunkList(size, c);
  }

  // ---------------------------------------------------------------- geometry

  /** Chunks follow each other without gap or overlap and end at the end of the file. */
  lemma ChunksAreContiguous(size: U64, c: nat)
    requires c > 0 && size > 0
    ensures var chunks := ChunkList(size, c);
      && chunks[0].offset == 0
      && (forall i | 0 <= i < |chunks| - 1 :: chunks[i].offset + chunks[i].length == chunks[i + 1].offset)
      && chunks[|chunks| - 1].offset + chunks[|chunks| - 1].length == size
      && (forall i | 0 <= i < |chunks| :: chunks[i].index == i && 0 < chunks[i].length <= c)
  {
    var q := DivCeil(size, c);
    forall i | 0 <= i < q - 1
      ensures ChunkAt(size, c, i).offset + ChunkAt(size, c, i).length == ChunkAt(size, c, i + 1).offset
    {
      Below(i + 1, q, c);
    }
    assert (q - 1 + 1) * c == q * c;
  }

  /** Every byte position lies in exactly one chunk. */
  lemma ChunkOfPosition(size: U64, c: nat, p: nat)
    requires c > 0 && p < size
    ensures p / c < |ChunkList(size, c)|
    ensures forall i | 0 <= i < |ChunkList(size, c)| ::
              var k := ChunkList(size, c)[i]; k.offset <= p < k.offset + k.length <==> i == p / c
  {
    var q := DivCeil(size, c);
    assert p == (p / c) * c + p % c;
    MulMonotone(Min(q, p / c), p / c, c);
    forall i | 0 <= i < q
      ensures var k := ChunkAt(size, c, i); k.offset <= p < k.offset + k.length <==> i == p / c
    {
      assert (i + 1) * c == i * c + c && (p / c + 1) * c == (p / c) * c + c;
      if i < p / c { MulMonotone(i + 1, p / c, c); }
      if p / c < i { MulMonotone(p / c + 1, i, c); }
    }
  }

  lemma ChunkEnds(size: U64, n: nat)
    requires n < |ChunkList(size, CHUNK_SIZE)|
    ensures var k := ChunkList(size, CHUNK_SIZE)[n]; k.offset + k.length <= size
  {
  }

  function SumLengths(chunks: seq<ChunkInfo>): nat {
    if chunks == [] then 0 else SumLengths(chunks[..|chunks| - 1]) + chunks[|chunks| - 1].length
  }

  lemma {:induction false} SumLengthsPrefix(size: U64, c: nat, n: nat)
    requires c > 0 && size > 0 && n <= |ChunkList(size, c)|
    ensures SumLengths(ChunkList(size, c)[..n]) == Min(n * c, size)
  {
    if n > 0 {
      var prefix := ChunkList(size, c)[..n];
      SumLengthsPrefix(size, c, n - 1);
      assert prefix[..n - 1] == ChunkList(size, c)[..n - 1];
      assert prefix[n - 1] == ChunkAt(size, c, n - 1);
      Below(n - 1, DivCeil(size, c), c);
    }
  }

  lemma {:induction false} SumLengthsGrows(chunks: seq<ChunkInfo>, n: nat)
    requires n <= |chunks| && forall i | n <= i < |chunks| :: chunks[i].length > 0
    ensures SumLengths(chunks[..n]) <= SumLengths(chunks)
    ensures n < |chunks| ==> SumLengths(chunks[..n]) < SumLengths(chunks)
    decreases |chunks|
  {
    if n < |chunks| {
      var init := chunks[..|chunks| - 1];
      SumLengthsGrows(init, n);
      assert init[..n] == chunks[..n];
    } else {
      assert chunks[..n] == chunks;
    }
  }

  /** The lengths add up to the file size. */
  lemma SumLengthsTotal(size: U64, c: nat)
    ensures SumLengths(ChunkList(size, c)) == size
  {
    var chunks := ChunkList(size, c);
    if c == 0 || size == 0 {
      assert chunks[..0] == [];
    } else {
      SumLengthsPrefix(size, c, |chunks|);
      assert chunks[..|chunks|] == chunks;
    }
  }

  /** The uploader's, the scanner's and the validator's chunk counts agree on every non-empty file, and only there. */
  lemma CountsAgree(size: U64)
    ensures |ChunkList(size, CHUNK_SIZE)| == DivCeil(size, CHUNK_SIZE) <==> size != 0
    ensures DivCeil(size, CHUNK_SIZE) == (size + CHUNK_SIZE - 1) / CHUNK_SIZE
  {
  }

  /** A chunk list passes entry validation exactly when the file needs chunking and the uploader
      would produce that many chunks. */
  lemma ValidExactlyWhenUploadable(hashes: seq<string>, size: U64)
    ensures ValidateChunks(hashes, Some(size)).Ok? <==>
            NeedsChunking(size, CHUNK_SIZE) && |hashes| == |ChunkList(size, CHUNK_SIZE)|
  {
    CountsAgree(size);
  }

  // ---------------------------------------------------------------- contents

  /** The bytes of chunk `i`. */
  function Piece(content: Bytes, c: nat, i: nat): (piece: Bytes)
    requires c > 0 && 0 < |content| < U64_LIMIT && i < DivCeil(|content|, c)
    ensures |piece| == ChunkAt(|content|, c, i).length
  {
    var k := ChunkAt(|content|, c, i);
    content[k.offset..k.offset + k.length]
  }

  function ChunkHashes(content: Bytes, c: nat, h: HashFunction): seq<string>
    requires c > 0 && 0 < |content| < U64_LIMIT
  {
    seq(DivCeil(|content|, c), i requires 0 <= i < DivCeil(|content|, c) => h(Piece(content, c, i)))
  }

  /** Distinct contents have distinct hashes. */
  ghost predicate CollisionFree(h: HashFunction) {
    forall a, b :: h(a) == h(b) ==> a == b
  }

  /** A file's byte is a byte of its chunk. */
  lemma PieceByte(content: Bytes, c: nat, p: nat)
    requires c > 0 && p < |content| < U64_LIMIT
    ensures p / c < DivCeil(|content|, c)
    ensures var k := ChunkAt(|content|, c, p / c);
            k.offset <= p < k.offset + k.length && Piece(content, c, p / c)[p - k.offset] == content[p]
  {
    ChunkOfPosition(|content|, c, p);
    assert ChunkList(|content|, c)[p / c] == ChunkAt(|content|, c, p / c);
  }

  /** Equal chunk lists of equally long files mean equal contents. */
  lemma ChunkHashesInjective(a: Bytes, b: Bytes, c: nat, h: HashFunction)
    requires CollisionFree(h) && c > 0 && 0 < |a| < U64_LIMIT && |a| == |b|
    requires ChunkHashes(a, c, h) == ChunkHashes(b, c, h)
    ensures a == b
  {
    hide DivCeil, ChunkAt, Piece;
    forall p | 0 <= p < |a| ensures a[p] == b[p] {
      PieceByte(a, c, p);
      PieceByte(b, c, p);
      assert ChunkHashes(a, c, h)[p / c] == h(Piece(a, c, p / c));
      assert ChunkHashes(b, c, h)[p / c] == h(Piece(b, c, p / c));
    }
  }

  // ---------------------------------------------------------------- chunks of the fixed size in a store

  function ChunkCount(n: nat): nat { DivCeil(n, CHUNK_SIZE) }

  lemma ChunkCountLaw(n: nat, i: nat)
    ensures i < ChunkCount(n) <==> i * CHUNK_SIZE < n
  {
  }

  ghost predicate HoldsChunk(stored: Bytes, content: Bytes, i: nat) {
    0 < |content| < U64_LIMIT && i < DivCeil(|content|, CHUNK_SIZE) && stored == Piece(content, CHUNK_SIZE, i)
  }

  /** The store holds every chunk of `content` under its recorded hash. */
  ghost predicate HoldsChunks(store: map<string, Bytes>, hashes: seq<string>, content: Bytes)
  {
    && 0 < |content| < U64_LIMIT
    && |hashes| == DivCeil(|content|, CHUNK_SIZE)
    && forall i | 0 <= i < |hashes| :: hashes[i] in store && HoldsChunk(store[hashes[i]], content, i)
  }

  lemma ChunkHeld(store: map<string, Bytes>, hashes: seq<string>, content: Bytes, i: nat)
    requires HoldsChunks(store, hashes, content)
    ensures |hashes| == ChunkCount(|content|)
    ensures i < |hashes| ==> hashes[i] in store && HoldsChunk(store[hashes[i]], content, i)
  {
  }
}
