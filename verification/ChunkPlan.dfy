/** How a file is cut into chunks, and the validator that infers the stride back from the totals. */
module ChunkPlan {
  import opened Ints
  import opened PartFile
  import opened GoText
  import RemotePath

  const LEGACY_STRIDE: nat := 0x10_0000
  const LARGE_STRIDE: nat := 0x40_0000
  const MAX_TOTAL_SIZE: nat := 0x2_0000_0000
  const MAX_B64_LEN: nat := 5_700_000

  /** Go's integer division truncates toward zero. */
  function GoDiv(a: int, b: int): int
    requires b > 0
  {
    if a >= 0 then a / b else -(-a / b)
  }

  /** TotalChunksForSize */
  function TotalChunks(size: int, stride: int): int {
    var c := if stride <= 0 then LEGACY_STRIDE else stride;
    if size == 0 then 1 else GoDiv(size + c - 1, c)
  }

  /** chunkStrideFor: 0 when the totals fit neither stride. */
  function StrideFor(size: int, totalChunks: int): nat {
    if totalChunks < 1 then 0
    else if totalChunks == TotalChunks(size, LEGACY_STRIDE) then LEGACY_STRIDE
    else if totalChunks == TotalChunks(size, LARGE_STRIDE) then LARGE_STRIDE
    else 0
  }

  /** One file-chunk message; b64Len is the length of its base64 text, which decodes to raw. */
  datatype Chunk = Chunk(
    nonce: string, transferId: string, path: string, offset: int, totalSize: int, index: int, totalChunks: int,
    b64Len: nat, raw: Data, sha: string, policy: string, sourceMtime: int)

  predicate IsHex(c: char) {
    '0' <= c <= '9' || 'a' <= c <= 'f' || 'A' <= c <= 'F'
  }

  predicate AllHex(s: string) {
    forall i :: 0 <= i < |s| ==> IsHex(s[i])
  }

  /** SanitizeTransferID */
  predicate ValidTransferId(s: string) {
    var t := TrimSpace(s);
    16 <= |t| <= 64 && |t| % 2 == 0 && AllHex(t)
  }

  predicate ValidPolicy(p: string) {
    p == "" || p == "overwrite" || p == "if_newer"
  }

  /** sanitizeFileChunkLengths, with len(raw) as the decoded length. */
  predicate Accepts(c: Chunk) {
    && c.nonce != "" && ValidTransferId(c.transferId) && RemotePath.Valid(c.path) && c.path != ""
    && 0 <= c.totalSize <= MAX_TOTAL_SIZE && 0 <= c.offset <= c.totalSize
    && 0 <= c.index < c.totalChunks
    && StrideFor(c.totalSize, c.totalChunks) != 0
    && FitsGrid(c, StrideFor(c.totalSize, c.totalChunks))
    && (c.sha != "" ==> |c.sha| == 64 && AllHex(c.sha) && c.index == c.totalChunks - 1)
    && ValidPolicy(c.policy) && 0 <= c.sourceMtime
  }

  /** The checks against the inferred stride. Empty text decodes to no bytes and is good for nothing but the
      only chunk of an empty file. */
  predicate FitsGrid(c: Chunk, stride: nat) {
    && |c.raw| <= LARGE_STRIDE && c.b64Len <= MAX_B64_LEN
    && c.offset == c.index * stride
    && (if c.b64Len != 0 then |c.raw| == (if c.index < c.totalChunks - 1 then stride else c.totalSize - c.offset)
        else c.raw == [] && c.totalSize == 0 && c.totalChunks == 1 && c.offset == 0)
  }

  // ---------------------------------------------------------------- cutting a file

  /** base64.StdEncoding.EncodedLen */
  function B64Len(n: nat): nat {
    (n + 2) / 3 * 4
  }

  /** The bytes of chunk i. */
  function Piece(file: Data, stride: nat, i: nat): Data
    requires i * stride <= |file|
  {
    file[i * stride..Min(i * stride + stride, |file|)]
  }

  /** What stays the same in all chunks of one transfer. */
  datatype Meta = Meta(nonce: string, transferId: string, path: string, policy: string, sourceMtime: int)

  predicate ValidMeta(m: Meta) {
    && m.nonce != "" && ValidTransferId(m.transferId) && RemotePath.Valid(m.path) && m.path != ""
    && ValidPolicy(m.policy) && 0 <= m.sourceMtime
  }

  /** Chunk i of a file as the senders build it: the digest rides on the last one. */
  function ChunkOf(m: Meta, file: Data, stride: nat, hash: Data -> string, i: nat): Chunk
    requires i * stride <= |file|
  {
    var raw := Piece(file, stride, i);
    var n := TotalChunks(|file|, stride);
    Chunk(m.nonce, m.transferId, m.path, i * stride, |file|, i, n, B64Len(|raw|), raw,
          if i == n - 1 then hash(file) else "", m.policy, m.sourceMtime)
  }

  ghost predicate IsStride(stride: nat) {
    stride == LEGACY_STRIDE || stride == LARGE_STRIDE
  }

  /** The last chunk is where the file ends, and only an empty file has an empty chunk. */
  lemma CountCoversFile(size: nat, stride: nat)
    requires 0 < stride
    ensures var n := TotalChunks(size, stride);
      n >= 1 && (n - 1) * stride <= size <= n * stride && (size > 0 ==> (n - 1) * stride < size)
  {
    if size > 0 {
      var q := (size + stride - 1) / stride;
      var r := (size + stride - 1) % stride;
      assert size + stride - 1 == q * stride + r;
      assert (q - 1) * stride == q * stride - stride;
    }
  }

  lemma EarlierChunkStarts(i: nat, n: nat, stride: nat)
    requires i < n
    ensures i * stride <= (n - 1) * stride
    ensures i < n - 1 ==> i * stride + stride <= (n - 1) * stride
  {
    if i < n - 1 {
      assert (i + 1) * stride == i * stride + stride;
      MulMonotone(i + 1, n - 1, stride);
    }
    MulMonotone(i, n - 1, stride);
  }

  lemma MulMonotone(a: nat, b: nat, c: nat)
    requires a <= b
    ensures a * c <= b * c
  {
    assert b * c - a * c == (b - a) * c;
  }

  /** Chunk i lies inside the file: a full stride unless it is the last. */
  lemma PieceFits(size: nat, stride: nat, i: nat)
    requires 0 < stride && i < TotalChunks(size, stride)
    ensures var n := TotalChunks(size, stride);
      && i * stride <= size
      && (i < n - 1 ==> i * stride + stride <= size && Min(i * stride + stride, size) == i * stride + stride)
      && (i == n - 1 ==> Min(i * stride + stride, size) == size)
  {
    CountCoversFile(size, stride);
    var n := TotalChunks(size, stride);
    EarlierChunkStarts(i, n, stride);
    assert n * stride == (n - 1) * stride + stride;
  }

  // ---------------------------------------------------------------- tiling

  /** The chunks before chunk k, laid end to end. */
  function Laid(file: Data, stride: nat, k: nat): Data
    requires 0 < stride && k <= TotalChunks(|file|, stride)
  {
    if k == 0 then []
    else
      PieceFits(|file|, stride, k - 1);
      Laid(file, stride, k - 1) + Piece(file, stride, k - 1)
  }

  lemma {:induction false} LaidIsPrefix(file: Data, stride: nat, k: nat)
    requires 0 < stride && k <= TotalChunks(|file|, stride)
    ensures var end := Min(k * stride, |file|); 0 <= end <= |file| && Laid(file, stride, k) == file[..end]
  {
    if k != 0 {
      LaidIsPrefix(file, stride, k - 1);
      PieceFits(|file|, stride, k - 1);
      assert k * stride == (k - 1) * stride + stride;
      var a, b := (k - 1) * stride, Min(k * stride, |file|);
      assert file[..a] + file[a..b] == file[..b];
    }
  }

  /** The chunks tile the file: end to end they are exactly its bytes, for any stride. */
  lemma ChunksTileFile(file: Data, stride: nat)
    requires 0 < stride
    ensures Laid(file, stride, TotalChunks(|file|, stride)) == file
  {
    var n := TotalChunks(|file|, stride);
    LaidIsPrefix(file, stride, n);
    CountCoversFile(|file|, stride);
    assert file[..|file|] == file;
  }

  /** ... and no byte belongs to two chunks. */
  lemma ChunksAreDisjoint(size: nat, stride: nat, i: nat, j: nat, b: int)
    requires 0 < stride && i < j < TotalChunks(size, stride)
    ensures !(i * stride <= b < Min(i * stride + stride, size) && j * stride <= b)
  {
    EarlierChunkStarts(i, j + 1, stride);
  }

  // ---------------------------------------------------------------- the validator and the senders agree

  /** The stride is recovered from the totals whenever it matters, that is, with more than one chunk. */
  lemma StrideIsInferred(size: nat, stride: nat)
    requires IsStride(stride)
    ensures var n := TotalChunks(size, stride);
      && StrideFor(size, n) != 0
      && (n > 1 ==> StrideFor(size, n) == stride)
  {
    var n, legacy := TotalChunks(size, stride), TotalChunks(size, LEGACY_STRIDE);
    if stride == LARGE_STRIDE && n > 1 && size > 0 {
      assert n == (size + LARGE_STRIDE - 1) / LARGE_STRIDE;
      assert legacy == (size + LEGACY_STRIDE - 1) / LEGACY_STRIDE;
    }
  }

  /** Every chunk that a sender cuts, at either stride and for every size up to 8 GiB, is accepted. */
  lemma SentChunksAreAccepted(m: Meta, file: Data, stride: nat, hash: Data -> string, i: nat)
    requires ValidMeta(m) && IsStride(stride) && |file| <= MAX_TOTAL_SIZE && i < TotalChunks(|file|, stride)
    requires |hash(file)| == 64 && AllHex(hash(file))
    ensures i * stride <= |file| && Accepts(ChunkOf(m, file, stride, hash, i))
  {
    PieceFits(|file|, stride, i);
    StrideIsInferred(|file|, stride);
    CountCoversFile(|file|, stride);
  }

  /** Whatever the validator accepts lies inside the announced file, at its place in the inferred grid. */
  lemma AcceptedChunkIsInPlace(c: Chunk)
    requires Accepts(c)
    ensures var stride := StrideFor(c.totalSize, c.totalChunks);
      && stride > 0 && c.totalChunks == TotalChunks(c.totalSize, stride)
      && c.offset == c.index * stride && c.offset + |c.raw| <= c.totalSize
      && (c.index < c.totalChunks - 1 ==> |c.raw| == stride)
      && (c.index == c.totalChunks - 1 ==> c.offset + |c.raw| == c.totalSize)
  {
    var stride := StrideFor(c.totalSize, c.totalChunks);
    PieceFits(c.totalSize, stride, c.index);
  }
}
