/** The compressor front end of `lib.rs`: method selection, dispatch to one codec,
    and the output record.

    The entropy estimate (`compute_entropy`, floating point) and the lz4 block codec
    (a foreign deflate library) are fields of the compressor value, left abstract. */
module SigmaCompress {
  import opened Wire
  import opened Errors
  import HuffmanTree
  import HuffmanCodec = Huffman
  import Rle = Entropy
  import Dedupe = Semantic

  datatype CompressionMethod = Huffman | Lz4Semantic | EntropyCoding | SemanticDedupe | Auto

  /** The integer and real fields of `CompressionMetadata`. */
  datatype CompressionMetadata = CompressionMetadata(entropyBits: real, semanticDedupCount: nat, blockCount: nat)

  /** `CompressedOutput` without the floating-point `ratio`. */
  datatype CompressedOutput = CompressedOutput(
    usedMethod: CompressionMethod,
    originalSize: nat,
    compressedSize: nat,
    data: Bytes,
    metadata: CompressionMetadata)

  /** The compressor: the configuration fields the core reads, the entropy estimate,
      and the lz4 block codec as a pair of functions. */
  datatype Compressor = Compressor(
    lz4BlockSize: nat,
    dedupThreshold: real,
    entropy: Bytes -> real,
    lz4Compress: (Bytes, nat) -> Result<Bytes>,
    lz4Decompress: (Bytes, nat) -> Result<Bytes>)

  const DEFAULT_LZ4_BLOCK_SIZE: nat := 65536
  const DEFAULT_DEDUP_THRESHOLD: real := 0.95

  /** `Compressor::default()`: the default configuration's block size and dedup
      threshold, with the given entropy estimate and lz4 codec. Its block size is
      one that compress accepts. */
  function Default(entropy: Bytes -> real, lz4Compress: (Bytes, nat) -> Result<Bytes>,
                   lz4Decompress: (Bytes, nat) -> Result<Bytes>): (c: Compressor)
    ensures c.lz4BlockSize > 0
    ensures c.lz4BlockSize == DEFAULT_LZ4_BLOCK_SIZE && c.dedupThreshold == DEFAULT_DEDUP_THRESHOLD
  {
    Compressor(DEFAULT_LZ4_BLOCK_SIZE, DEFAULT_DEDUP_THRESHOLD, entropy, lz4Compress, lz4Decompress)
  }

  /** Below this many bits per byte, Auto picks Huffman. */
  const LOW_ENTROPY: real := 3.0
  /** Above this many bytes, Auto picks the lz4 codec over run-length coding. */
  const LARGE_INPUT: nat := 4096

  /** The lz4 codec's own contract: what it compresses, it decompresses back. */
  ghost predicate Lz4RoundTrips(c: Compressor)
  {
    forall d: Bytes, bs: nat {:trigger c.lz4Compress(d, bs)} ::
      c.lz4Compress(d, bs).Ok? ==> c.lz4Decompress(c.lz4Compress(d, bs).value, |d|) == Ok(d)
  }

  /** select_method: low entropy goes to Huffman, otherwise large inputs to lz4 and
      the rest to run-length coding. Never Auto, never SemanticDedupe. */
  function SelectMethod(c: Compressor, data: Bytes): (m: CompressionMethod)
    ensures m == Huffman || m == Lz4Semantic || m == EntropyCoding
    ensures m == Huffman <==> c.entropy(data) < LOW_ENTROPY
    ensures m == Lz4Semantic <==> c.entropy(data) >= LOW_ENTROPY && |data| > LARGE_INPUT
    ensures m == EntropyCoding <==> c.entropy(data) >= LOW_ENTROPY && |data| <= LARGE_INPUT
  {
    if c.entropy(data) < LOW_ENTROPY then Huffman
    else if |data| > LARGE_INPUT then Lz4Semantic
    else EntropyCoding
  }

  /** The method compress runs: the requested one, or the selected one for Auto. */
  function Resolve(c: Compressor, data: Bytes, requested: CompressionMethod): (m: CompressionMethod)
    ensures m != Auto
    ensures requested != Auto ==> m == requested
  {
    if requested == Auto then SelectMethod(c, data) else requested
  }

  /** `max(1, len / lz4_block_size)`. */
  function BlockCount(c: Compressor, data: Bytes): (n: nat)
    requires c.lz4BlockSize > 0
    ensures n >= 1 && n * c.lz4BlockSize <= Max(|data|, c.lz4BlockSize)
  {
    Max(1, |data| / c.lz4BlockSize)
  }

  /** decompress: dispatch on the stored method with the stored original size; a
      stored Auto is refused with InvalidMethod. Each concrete codec fails only with
      its own error kind, run-length decoding exactly on odd length, and Huffman never
      yields more than the stored size (at least one symbol). */
  function Decompress(c: Compressor, out: CompressedOutput): (r: Result<Bytes>)
    ensures out.usedMethod == Auto ==> r == Err(InvalidMethod)
    ensures out.usedMethod == Huffman && r.Err? ==> r.error.HuffmanError?
    ensures out.usedMethod == Huffman && r.Ok? ==> |r.value| <= Max(out.originalSize, 1)
    ensures out.usedMethod == EntropyCoding ==> (r.Err? <==> |out.data| % 2 == 1)
    ensures out.usedMethod == EntropyCoding && r.Err? ==> r.error.EntropyError?
    ensures out.usedMethod == SemanticDedupe && r.Err? ==> r.error.SemanticError?
  {
    match out.usedMethod
    case Huffman =>
      HuffmanCodec.DecodeErrors(out.data, out.originalSize);
      HuffmanCodec.DecodeLength(out.data, out.originalSize);
      HuffmanCodec.Decode(out.data, out.originalSize)
    case Lz4Semantic => c.lz4Decompress(out.data, out.originalSize)
    case EntropyCoding =>
      Rle.DecodeSpec(out.data);
      Rle.Decode(out.data)
    case SemanticDedupe =>
      Dedupe.DecodeErrors(out.data);
      Dedupe.Decode(out.data)
    case Auto => Err(InvalidMethod)
  }

  /** The record compress fills in for `data` compressed to `compressed` by `m`. */
  function Record(c: Compressor, data: Bytes, m: CompressionMethod, compressed: Bytes): CompressedOutput
    requires c.lz4BlockSize > 0
  {
    CompressedOutput(m, |data|, |compressed|, compressed,
      CompressionMetadata(c.entropy(data), 0, BlockCount(c, data)))
  }

  /** What compress guarantees when the codecs' own round trips apply: lz4 must be
      an inverse pair, and the dedup codec needs fewer than 2^32 chunks. */
  ghost predicate RoundTripApplies(c: Compressor, data: Bytes, m: CompressionMethod)
  {
    && (m == Lz4Semantic ==> Lz4RoundTrips(c))
    && (m == SemanticDedupe ==> |Dedupe.Chunks(data)| < U32_LIMIT)
  }

  /** compress: refuse empty input, resolve Auto, run exactly one codec, pass its
      error through unchanged, and record the sizes and metadata. */
  method Compress(c: Compressor, data: Bytes, requested: CompressionMethod) returns (r: Result<CompressedOutput>)
    requires c.lz4BlockSize > 0
    ensures |data| == 0 ==> r == Err(EmptyInput)
    ensures r.Err? && |data| > 0 ==>
      && Resolve(c, data, requested) == Lz4Semantic && c.lz4Compress(data, c.lz4BlockSize).Err?
      && r.error == c.lz4Compress(data, c.lz4BlockSize).error
    ensures r.Ok? <==>
      |data| > 0 && (Resolve(c, data, requested) == Lz4Semantic ==> c.lz4Compress(data, c.lz4BlockSize).Ok?)
    ensures r.Ok? ==>
      && r.value.usedMethod == Resolve(c, data, requested) && r.value.usedMethod != Auto
      && r.value.originalSize == |data| && r.value.compressedSize == |r.value.data|
      && r.value.metadata.semanticDedupCount == 0 && r.value.metadata.blockCount >= 1
      && r.value.metadata.blockCount == Max(1, |data| / c.lz4BlockSize)
    ensures r.Ok? ==> match r.value.usedMethod
      case Huffman =>
        exists t, o :: HuffmanTree.IsHuffmanTree(t, data) && HuffmanCodec.IsOrder(o, HuffmanTree.CodeTable(t, []))
                       && r.value.data == HuffmanCodec.Layout(HuffmanTree.CodeTable(t, []), o, data)
      case EntropyCoding => r.value.data == Rle.Rle(data)
      case SemanticDedupe => r.value.data == Dedupe.Layout(data)
      case Lz4Semantic => r.value.data == c.lz4Compress(data, c.lz4BlockSize).value
      case Auto => false
    ensures r.Ok? && RoundTripApplies(c, data, r.value.usedMethod) ==> Decompress(c, r.value) == Ok(data)
  {
    if |data| == 0 {
      return Err(EmptyInput);
    }
    var m := Resolve(c, data, requested);
    var compressed: Result<Bytes>;
    ghost var tree: HuffmanTree.HuffNode, order: seq<byte>;
    match m {
      case Huffman =>
        compressed, tree, order := HuffmanCodec.Compress(data);
      case Lz4Semantic =>
        compressed := c.lz4Compress(data, c.lz4BlockSize);
      case EntropyCoding =>
        compressed := Rle.Compress(data);
        Rle.RoundTrip(data);
      case SemanticDedupe =>
        compressed := Dedupe.Compress(data, c.dedupThreshold);
        if |Dedupe.Chunks(data)| < U32_LIMIT {
          Dedupe.RoundTrip(data);
        }
    }
    if compressed.Err? {
      return Err(compressed.error);
    }
    r := Ok(Record(c, data, m, compressed.value));
  }
}
