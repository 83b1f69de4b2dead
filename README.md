# sigma-compress core, modelled in Dafny

This project models the byte-level core of sigma-compress:

- **Huffman codec** (`src/huffman.rs`):
  - builds a tree from a 256-bin histogram by repeatedly merging two minimum-frequency nodes;
  - gives a lone distinct byte the code `[false]`, using an internal root whose right child is a placeholder;
  - derives codes from tree paths, with left = 0 and right = 1;
  - writes `[u16 LE count][symbol, code length, LSB-first code bytes]* [u32 LE length][LSB-first payload, zero-padded]`;
  - reads the table back and decodes bit by bit until `original_size` symbols are out.
- **Dedup codec** (`src/semantic.rs`):
  - cuts the input into 64-byte chunks;
  - gives each distinct chunk a dense index in first-seen order;
  - writes the unique blocks and the reference list, all framed with u32 LE lengths;
  - the decoder concatenates the referenced blocks in order.
- **Run-length coder** (`src/entropy.rs`):
  - writes `(run, byte)` pairs with runs capped at 255;
  - the decoder refuses input of odd length.
- **Compressor front end** (`src/lib.rs`):
  - refuses empty input;
  - resolves `Auto` by the entropy/size rule;
  - runs exactly one codec and records the result;
  - on the way back, dispatches on the stored method and refuses a stored `Auto`.

Modules:

- `Errors`: the error enum, with `Result` and `Option`.
- `Wire`: bytes, little-endian integers and LSB-first bit packing.
- `HuffmanTree`: `build_tree` and `build_codes`.
- `Huffman`: the Huffman wire format with compress and decompress.
- `Semantic`: the dedup codec.
- `Entropy`: the run-length coder.
- `SigmaCompress`: the front end in `lib.rs`.

Each loop in the source is a Dafny `method` with a loop. Its `ensures` ties the result to a specification function, for example `Huffman.Decompress` returns exactly `Huffman.Decode(data, originalSize)`. The lemmas state what the source promises of those functions:

- the round trips;
- prefix-free codes;
- first-seen dense indices;
- maximal runs;
- the exact error cases.

Integer widths are written out where the source truncates:

- `as u16` and `as u32` become `% 2^16` and `% 2^32` in `Wire.U16Le` and `Wire.U32Le`;
- `code.len() as u8` becomes `% 256` in `Huffman.EntryBytes`.

## Model

| member | source | states |
|---|---|---|
| Wire.ReadU16Le | src/huffman.rs:110-111 | reading back a written u16 gives the count modulo 2^16 |
| Wire.ReadU32Le | src/semantic.rs:25-26 | reading back a written u32 gives the value modulo 2^32 |
| Wire.ReadU32Bytes | src/semantic.rs:52-53 | the u32 read is the little-endian sum of the four bytes |
| Wire.ByteBitsAt | src/huffman.rs:197-202 | bit k of an unpacked byte is `(byte >> k) & 1 == 1` |
| Wire.PackBits | src/huffman.rs:147-163 | the accumulator loop, with `byte \|= 1 << bit_pos` and a flush every 8 bits plus a final partial byte, produces exactly the LSB-first packing of the bit string |
| Wire.PackedLength | src/huffman.rs:147-163 | the packed payload has ceil(bits/8) bytes |
| Wire.UnpackPacked | src/huffman.rs:147-163 | unpacking the packed bits gives the bits followed by zero padding up to a byte boundary (the padding is all `false`) |
| Wire.PackedPrefix | src/huffman.rs:147-163 | the original bits are a prefix of the unpacked payload |
| Wire.UnpackedAppend | src/huffman.rs:218-220 | unpacking distributes over byte concatenation |
| HuffmanTree.Histogram | src/huffman.rs:35-38 | the frequency array holds, for every byte, the number of its occurrences in the input |
| HuffmanTree.CountBelowAll | src/huffman.rs:35-38 | the histogram counts add up to the input length |
| HuffmanTree.PushLeaves | src/huffman.rs:40-50 | the heap gets one leaf per occurring byte, weighted by its count, and none for absent bytes |
| HuffmanTree.LeafHeapDone | src/huffman.rs:40-54 | the leaf heap is empty exactly when the input is empty, and it satisfies the merge invariant (multiset of symbols = occurring bytes, total weight = length) |
| HuffmanTree.MinIndex | src/huffman.rs:28-31 | a pop takes a node of minimum frequency (any one on ties) |
| HuffmanTree.MergeBag | src/huffman.rs:70-79 | merging two popped nodes keeps the multiset of symbols and the total weight |
| HuffmanTree.MergeStep | src/huffman.rs:70-79 | one merge step preserves the merge invariant |
| HuffmanTree.MergeAll | src/huffman.rs:70-79 | the merge loop ends with one node that still satisfies the invariant |
| HuffmanTree.NotAllSame | src/huffman.rs:52-70 | a heap holding two distinct leaves means the input has two distinct bytes |
| HuffmanTree.SingleLeaf | src/huffman.rs:55-68 | one leaf is wrapped in an internal root with that leaf on the left and a zero-weight placeholder on the right, and the result is a sound tree for the input |
| HuffmanTree.MergeDone | src/huffman.rs:70-81 | the last heap node is a sound tree: its leaves are exactly the occurring bytes, each once, and each node's weight is the sum of its children's |
| HuffmanTree.BuildTree | src/huffman.rs:34-82 | returns None exactly for empty input; otherwise an internal root whose leaves are the occurring bytes, each once, whose weights add up (root = input length), of height at most 255, and which has the placeholder shape exactly when one byte value occurs |
| HuffmanTree.BuildCodes | src/huffman.rs:84-100 | inserting the codes of a subtree into the map adds exactly that subtree's path codes, with an empty path at a leaf becoming `[false]` |
| HuffmanTree.CodeTableKeys | src/huffman.rs:84-100 | a byte has a code exactly when it is a leaf of the tree |
| HuffmanTree.CodeTableShape | src/huffman.rs:84-100 | every code extends the path prefix, is non-empty, and is at most the subtree height longer than the prefix (one bit for a leaf reached by the empty path) |
| HuffmanTree.CodeTablePrefixFree | src/huffman.rs:84-100 | with distinct leaf symbols no code is a prefix of another |
| HuffmanTree.HuffmanCodes | src/huffman.rs:84-100 | for a tree built from the input: codes exist exactly for occurring bytes, are 1 to 255 bits long, are prefix-free, at most 256, and a single distinct byte gets `[false]` |
| HuffmanTree.SingleSymbolCode | src/huffman.rs:55-68 | the single-symbol tree gives that byte the code `[false]` and the placeholder no code |
| HuffmanTree.CodesKeys | src/huffman.rs:84-100 | codes exist exactly for the bytes that occur in the input |
| HuffmanTree.CodesLengths | src/huffman.rs:84-100 | every code has between 1 and 255 bits, so its length fits the u8 length byte |
| HuffmanTree.CodesCard | src/huffman.rs:110 | there are at most 256 codes, so the count fits the u16 header |
| Huffman.TableSnoc | src/huffman.rs:113-133 | writing one more symbol appends its entry to the table bytes |
| Huffman.EncodeSnoc | src/huffman.rs:139-145 | encoding one more byte appends its code (nothing for a byte without a code) |
| Huffman.WriteTable | src/huffman.rs:109-133 | the table loop writes every code exactly once, in some iteration order, as symbol, length byte and packed code |
| Huffman.EncodeData | src/huffman.rs:139-145 | the payload bits are the codes of the input bytes, concatenated in order |
| Huffman.Compress | src/huffman.rs:103-166 | fails with `HuffmanError("empty tree")` exactly on empty input; otherwise writes the count, the table, the u32 length and the packed payload, and its output decodes back to the input |
| Huffman.CodeBytes | src/huffman.rs:189 | the code occupies the fewest bytes that hold its bits |
| Huffman.ReadEntry | src/huffman.rs:181-203 | a successful entry read stays inside the input and moves past the symbol and length bytes; a missing length byte gives "truncated table" and missing code bytes give "truncated code" |
| Huffman.ReadCodeByte | src/huffman.rs:197-202 | the inner bit loop appends the byte's low bits, LSB first, stopping at the code length |
| Huffman.ReadTableEntry | src/huffman.rs:180-204 | the entry loop reads the symbol, the length and the code bytes, and fails as the entry reader does |
| Huffman.ReadEntryBytes | src/huffman.rs:184-203 | reading an entry where the writer put one yields that symbol and code |
| Huffman.ReadEntryAsWrittenPanics | src/huffman.rs:181-187 | the reader as written panics exactly when the table stops after a symbol byte, and otherwise agrees with the corrected reader |
| Huffman.TruncatedAfterSymbol | src/huffman.rs:181-187 | on `[1, 0, 65]` the reader as written panics; the corrected reader and the decoder report "truncated table" |
| Huffman.ParseTableStep | src/huffman.rs:180-205 | one table step inserts the entry's code and moves on |
| Huffman.ParseEntries | src/huffman.rs:180-205 | reading the written entries inserts each code into the decode map in table order |
| Huffman.InvertsAdd | src/huffman.rs:204 | inserting a fresh code keeps the decode map the inverse of the code map |
| Huffman.InsertedInverts | src/huffman.rs:179-205 | the decode map built from the entries inverts the code map on the listed symbols |
| Huffman.InsertedAll | src/huffman.rs:179-205 | with injective codes, the decode map from any iteration order inverts the whole code map |
| Huffman.ReadTable | src/huffman.rs:178-205 | the table loop builds the decode map and stops where the specification says, with the same errors |
| Huffman.TableParses | src/huffman.rs:178-205 | the written table parses back into the decode map and ends right after it |
| Huffman.TableErrors | src/huffman.rs:180-205 | the table loop fails only with a `HuffmanError` |
| Huffman.SymbolStep | src/huffman.rs:218-228 | feeding the bits of one prefix-free code emits exactly that symbol and clears the current code |
| Huffman.DecodeEncoded | src/huffman.rs:214-229 | decoding the concatenated codes of a byte string followed by any padding emits that string and stops at `original_size` |
| Huffman.DecodeBitsBound | src/huffman.rs:214-229 | the decoder only extends its output and emits at most `max(original_size, 1)` bytes |
| Huffman.DecodePayload | src/huffman.rs:214-229 | the labelled nested loop decodes the unpacked payload exactly as the bit decoder does |
| Huffman.Decompress | src/huffman.rs:169-232 | the cursor loops compute exactly the decoder's result, errors included |
| Huffman.LayoutParts | src/huffman.rs:108-163 | the output splits into the u16 count, the table, the 4 length bytes and the packed payload |
| Huffman.DecodeLayout | src/huffman.rs:103-232 | for codes of at most 255 bits in any table order, decompressing the layout runs the bit decoder, against the decode map parsed from the table, on the encoded bits followed by the zero padding (`Huffman.RoundTrip` adds the tree's prefix-free codes to get the data back) |
| Huffman.DecodeParts | src/huffman.rs:169-232 | decompressing a layout with those parts reads the table and decodes the unpacked payload |
| Huffman.TableDecodes | src/huffman.rs:84-100 | the decode map of a built tree inverts its codes, and every input byte has a code |
| Huffman.RoundTrip | src/huffman.rs:239-260 | for every input and every iteration order of the code map, decompressing with the input length returns the input, including single-symbol and all-256-bytes inputs |
| Huffman.DecodeLength | src/huffman.rs:215-231 | a successful decompress returns at most `max(original_size, 1)` bytes |
| Huffman.DecodeErrors | src/huffman.rs:170-210 | decompress fails only with `HuffmanError`: input shorter than 2 bytes gives "data too short", a table error is passed on, and a table followed by fewer than 4 length bytes gives "missing data length" |
| Huffman.ZeroSizeYieldsOneSymbol | src/huffman.rs:218-226 | with `original_size` 0 one symbol is still emitted, because the size check comes after the push |
| Entropy.RunFrom | src/entropy.rs:12-15 | the run-extension loop ends with a run between its start and 255 that stays inside the input |
| Entropy.RunAtSpec | src/entropy.rs:11-15 | a run is 1 to 255 copies of its first byte, and it stops early only at the input's end, a different byte, or 255 |
| Entropy.MeasureRun | src/entropy.rs:12-15 | the inner loop measures exactly the specified run |
| Entropy.RleCons | src/entropy.rs:10-19 | each outer step emits one `(run, byte)` pair and skips the run |
| Entropy.Compress | src/entropy.rs:6-21 | the outer loop writes exactly the run-length encoding of the input |
| Entropy.RleShape | src/entropy.rs:8-20 | the output has even length, every run byte is 1 to 255, and it is empty exactly when the rest of the input is |
| Entropy.RleEmpty | src/entropy.rs:8-10 | the encoding is empty exactly for empty input |
| Entropy.RleMaximal | src/entropy.rs:13 | two adjacent pairs carry the same byte only if the first run is 255 |
| Entropy.Repeat | src/entropy.rs:33-35 | `run` copies of the byte |
| Entropy.PushRun | src/entropy.rs:33-35 | the push loop appends `run` copies of the byte |
| Entropy.ExpandAt | src/entropy.rs:30-37 | each pair expands to its run of copies, followed by the rest |
| Entropy.Decompress | src/entropy.rs:24-39 | the decoder loop computes exactly the specified decode, and `original_size` is not used |
| Entropy.DecodeSpec | src/entropy.rs:25-38 | decompress fails exactly on odd-length input; otherwise its length is the sum of the runs |
| Entropy.ExpandLength | src/entropy.rs:28-38 | the expansion has as many bytes as the runs add up to |
| Entropy.ExpandRle | src/entropy.rs:6-38 | expanding the encoding of the input from any position gives the input from that position |
| Entropy.RoundTrip | src/entropy.rs:46-67 | decompress(compress(d)) returns d for every d |
| Semantic.ChunksSpec | src/semantic.rs:10-15 | the chunks concatenate to the input; there are ceil(len/64) of them; all are non-empty, at most 64 bytes, and all but the last exactly 64 |
| Semantic.ChunksAt | src/semantic.rs:15 | the chunk sequence from a position starts with the next 64 bytes (or fewer at the end) |
| Semantic.IndexOf | src/semantic.rs:18-19 | the first position holding a chunk |
| Semantic.DedupOf | src/semantic.rs:15-21 | there is one reference per chunk, and no more unique blocks than chunks |
| Semantic.RefCount | src/semantic.rs:37-38 | the reference count is ceil(len/64) |
| Semantic.DedupSpec | src/semantic.rs:15-21 | each reference names a table block equal to its chunk, the table is duplicate-free, and it is ordered by first occurrence |
| Semantic.DedupPrefix | src/semantic.rs:15-21 | the references of a prefix of the chunks are the prefix of the references |
| Semantic.FirstSeenIndex | src/semantic.rs:18-20 | a chunk seen for the first time gets the number of distinct chunks seen so far; a repeated chunk reuses the index of its first occurrence |
| Semantic.SameRef | src/semantic.rs:18-20 | two chunks share a reference exactly when they are equal |
| Semantic.DedupKeep | src/semantic.rs:19 | a chunk already in the table keeps the table and reuses its index |
| Semantic.DedupAdd | src/semantic.rs:18-19 | a new chunk is appended to the table with the next index |
| Semantic.Entry | src/semantic.rs:17-20 | `entry(key).or_insert(len)` returns the stored index for a known chunk and the table size for a new one, adding it |
| Semantic.ChunkLoop | src/semantic.rs:15-21 | the chunk loop computes the specified references and a map indexing the unique blocks |
| Semantic.SnocStep | src/semantic.rs:15-21 | one chunk-loop step extends the dedup of the chunks so far by that chunk |
| Semantic.SortByIndex | src/semantic.rs:28-30 | sorting the map's entries by index lists the unique blocks in first-seen order |
| Semantic.WriteBlocks | src/semantic.rs:32-35 | the block loop appends each block prefixed by its u32 length |
| Semantic.WriteRefs | src/semantic.rs:37-41 | the reference loop appends each index as a u32 |
| Semantic.Compress | src/semantic.rs:9-44 | writes the count of unique blocks, the blocks in index order, the reference count and the references; the threshold is ignored |
| Semantic.RefsBytesLength | src/semantic.rs:39-41 | each reference takes 4 bytes |
| Semantic.BlocksBytesLength | src/semantic.rs:32-35 | each framed block takes at most 4 + 64 bytes |
| Semantic.UniquesFramable | src/semantic.rs:32-33 | every unique block's length fits its u32 prefix |
| Semantic.ParseOne | src/semantic.rs:58-68 | one block step reads the length and the body and moves on |
| Semantic.BlocksParse | src/semantic.rs:56-69 | the block loop reads back exactly the written blocks and ends right after them |
| Semantic.BlocksRead | src/semantic.rs:56-69 | blocks laid out at a position are read in order up to their end |
| Semantic.BlocksResult | src/semantic.rs:57-69 | the block loop fails only with a `SemanticError`, and on success reads `count` blocks and stays inside the input |
| Semantic.ReadBlocks | src/semantic.rs:56-69 | the cursor loop computes exactly the specified block parse, errors included |
| Semantic.GatherResolves | src/semantic.rs:78-90 | gathering the table by the references gives back the concatenated chunks |
| Semantic.RefsParse | src/semantic.rs:78-90 | the reference loop over written in-range references appends the gathered blocks |
| Semantic.RefsOk | src/semantic.rs:78-90 | the reference loop succeeds exactly when all `count` references are present and each is below the block count |
| Semantic.RefsError | src/semantic.rs:79-88 | the reference loop fails only with a `SemanticError` |
| Semantic.ReadRefs | src/semantic.rs:78-90 | the cursor loop computes exactly the specified reference decode, errors included |
| Semantic.Decompress | src/semantic.rs:47-93 | the cursor loops compute exactly the specified decode; `original_size` is ignored |
| Semantic.DecodeErrors | src/semantic.rs:48-73 | decompress fails only with `SemanticError`; input shorter than 4 bytes gives "data too short", and a cut-off reference count gives "missing refs" |
| Semantic.FramedBlocks | src/semantic.rs:52-69 | the u32 block count and the framed blocks read back |
| Semantic.FramedRefs | src/semantic.rs:74-90 | the u32 reference count and the references read back as the gathered blocks |
| Semantic.FramedDecodes | src/semantic.rs:47-93 | a count-framed table and reference list decode to the gathered blocks |
| Semantic.RoundTrip | src/semantic.rs:100-105 | decompress(compress(d)) returns d, for inputs of fewer than 2^32 chunks |
| Semantic.ConstantChunks | src/semantic.rs:108-115 | every chunk of a constant input is constant |
| Semantic.ConstantChunksEqual | src/semantic.rs:108-115 | all full chunks of a constant input are equal |
| Semantic.ConstantUniques | src/semantic.rs:108-115 | a constant input has at most two unique blocks |
| Semantic.ConstantCompresses | src/semantic.rs:108-115 | any constant input of at least 160 bytes compresses to fewer bytes than it has |
| Semantic.ZerosCompress | src/semantic.rs:108-115 | 1000 zero bytes compress to fewer than 1000 bytes |
| SigmaCompress.SelectMethod | src/lib.rs:128-137 | picks Huffman exactly when the entropy is below 3.0, Lz4 exactly when it is not and the input has more than 4096 bytes, and run-length coding exactly when it is not and the input has at most 4096 bytes; never Auto or SemanticDedupe |
| SigmaCompress.Resolve | src/lib.rs:82-86 | the method run is never Auto, and is the requested one when that is not Auto |
| SigmaCompress.BlockCount | src/lib.rs:111 | `max(1, len / lz4_block_size)` is at least 1 and does not overcount the blocks |
| SigmaCompress.Compress | src/lib.rs:77-114 | empty input fails with `EmptyInput`; only an Lz4 error fails a non-empty input, passed through unchanged; on success the stored method is the resolved one, the sizes and block count are recorded, `semantic_dedup_count` is 0, the data is the codec's output (for Huffman, the exact layout of a sound tree's codes in some table order), and decompressing the record returns the input |
| SigmaCompress.Decompress | src/lib.rs:117-125 | dispatches on the stored method with the stored original size: a stored Auto gives `InvalidMethod`; each codec fails only with its own error kind, run-length decoding exactly on odd length; Huffman returns at most `max(original_size, 1)` bytes; its round trip with compress is the last clause of `SigmaCompress.Compress` |
| SigmaCompress.Default | src/lib.rs:71-74 | the default compressor's block size is positive, so compress accepts it; it takes block size 65536 and threshold 0.95 from the default configuration |

## Left out

- `src/lz4_wrapper.rs` is not part of this model. Its block codec is a foreign deflate library, so the compressor carries it as a pair of functions. Round trips through it hold only under `SigmaCompress.Lz4RoundTrips`, the assumption that the pair is inverse.
- `compute_entropy` uses floating point and `log2`. It is a real-valued function field of the compressor, and only its comparison with 3.0 is modelled.
- The `ratio` field of `CompressedOutput` is a floating-point division and is not modelled. `CompressionStats` holds two usize counters, a floating-point average and a per-method map, and the core never fills any of them in. `Compressor::new` is the record constructor.
- `src/ryzanstein_integration.rs` is not part of this model. It is network stubs and float similarity, and no codec calls it.
- Configuration: only `lz4_block_size` and `dedup_threshold` are modelled, because they are the only fields the core reads. A zero block size divides by zero at src/lib.rs:111 and panics; the model requires it positive (`SigmaCompress.Compress`).
- `IoError` and `SizeMismatch` are declared but never produced by the core.
- Allocation failure and `Vec::with_capacity` hints are not modelled.
- `HuffmanTree.BuildTree`: `BinaryHeap` compares frequencies only, so ties may pop in any order. The model pops any minimum-weight node. Its contract is the tree's soundness for every choice; Huffman optimality (minimal weighted code length) is not stated.
- `HuffmanTree.Histogram`: the u64 frequency counters are unbounded naturals. No input that fits in memory reaches 2^64.
- `Huffman.WriteTable`: the iteration order of the `HashMap` is not fixed. It is an arbitrary choice among the remaining keys, and every lemma holds for every order.
- `Huffman.Compress`: the u32 input length is written modulo 2^32. The decoder requires the four bytes to be present and reads them, but never uses the value.
- `Semantic.RoundTrip`: requires fewer than 2^32 chunks. With more, the u32 counts and indices wrap and the written layout no longer decodes to the input.
- `Semantic.ChunkLoop`: indices are unbounded naturals. The source truncates them to u32 as it stores them in the map; the model truncates only when they are written (`Wire.U32Le`). The two agree only below 2^32 distinct chunks.
- `Semantic.Compress`: with more than 2^32 distinct chunks, the source's wrapped u32 indices collide. `sort_by_key` then keeps the `HashMap` iteration order among colliding blocks, while the model writes the blocks in first-seen order. `Semantic.RoundTrip` makes no promise in that range.
- `Semantic.Compress`: the `blocks` vector the loop fills is never read, so it is not modelled.

## Findings

| source | as written | input that shows it | evidently intended | confidence | as-written member | corrected member |
|---|---|---|---|---|---|---|
| src/huffman.rs:181-187 | the table loop checks that the symbol byte is inside the input, then reads the code-length byte at the next position without a check | `decompress(&[1, 0, 65], 1)`: the count is 1 and the symbol is 65, but the length byte is missing, so the read indexes past the end and panics | report `HuffmanError("truncated table")` when the length byte is missing, as for a missing symbol | not executed | Huffman.ReadEntryAsWritten, Huffman.TruncatedAfterSymbol | Huffman.ReadEntry |
