/** The content-addressable dedup codec of `semantic.rs`: 64-byte chunks, a table of
    distinct chunks in first-seen order, and one u32 reference per chunk. */
module Semantic {
  import opened Wire
  import opened Errors

  const BLOCK_SIZE: nat := 64

  // ---------------------------------------------------------------------------
  // Chunking and first-seen deduplication.
  // ---------------------------------------------------------------------------

  /** `data.chunks(64)`: consecutive 64-byte pieces, the last one possibly shorter. */
  function Chunks(data: Bytes): seq<Bytes>
    decreases |data|
  {
    if data == [] then []
    else if |data| <= BLOCK_SIZE then [data]
    else [data[..BLOCK_SIZE]] + Chunks(data[BLOCK_SIZE..])
  }

  /** The concatenation of a sequence of byte strings. */
  function Concat(parts: seq<Bytes>): Bytes
    decreases |parts|
  {
    if parts == [] then [] else parts[0] + Concat(parts[1..])
  }

  /** The distinct blocks seen so far, in first-seen order, and one index per chunk. */
  datatype Dedup = Dedup(uniques: seq<Bytes>, refs: seq<nat>)

  /** The first position of `x` in `s`. */
  function IndexOf(s: seq<Bytes>, x: Bytes): (k: nat)
    requires x in s
    ensures k < |s| && s[k] == x && forall j :: 0 <= j < k ==> s[j] != x
  {
    if s[0] == x then 0 else 1 + IndexOf(s[1..], x)
  }

  /** One iteration of the chunk loop: a chunk already in the table reuses its index,
      a new chunk gets the next index. */
  function Step(st: Dedup, c: Bytes): Dedup
  {
    if c in st.uniques then Dedup(st.uniques, st.refs + [IndexOf(st.uniques, c)])
    else Dedup(st.uniques + [c], st.refs + [|st.uniques|])
  }

  /** The table and references after all of `chunks`. */
  function DedupOf(chunks: seq<Bytes>): (d: Dedup)
    ensures |d.refs| == |chunks| && |d.uniques| <= |chunks|
    decreases |chunks|
  {
    if chunks == [] then Dedup([], [])
    else Step(DedupOf(chunks[..|chunks| - 1]), chunks[|chunks| - 1])
  }

  /** No block appears twice. */
  ghost predicate Distinct(s: seq<Bytes>)
  {
    forall i, j :: 0 <= i < j < |s| ==> s[i] != s[j]
  }

  // ---------------------------------------------------------------------------
  // Wire format.
  // ---------------------------------------------------------------------------

  /** Each block as a u32 LE length followed by its bytes. */
  function BlocksBytes(blocks: seq<Bytes>): Bytes
    decreases |blocks|
  {
    if blocks == [] then [] else U32Le(|blocks[0]|) + blocks[0] + BlocksBytes(blocks[1..])
  }

  /** Each reference as a u32 LE. */
  function RefsBytes(refs: seq<nat>): Bytes
    decreases |refs|
  {
    if refs == [] then [] else U32Le(refs[0]) + RefsBytes(refs[1..])
  }

  /** compress(data, threshold): `[num_unique][len, block]*[num_refs][ref]*`. */
  function Layout(data: Bytes): Bytes
  {
    var d := DedupOf(Chunks(data));
    U32Le(|d.uniques|) + BlocksBytes(d.uniques) + U32Le(|d.refs|) + RefsBytes(d.refs)
  }

  /** The block-table loop of decompress. */
  function ParseBlocks(data: Bytes, pos: nat, count: nat, blocks: seq<Bytes>): Result<(seq<Bytes>, nat)>
    decreases count
  {
    if count == 0 then Ok((blocks, pos))
    else if pos + 4 > |data| then Err(SemanticError("truncated"))
    else
      var blen := ReadU32(data, pos);
      if pos + 4 + blen > |data| then Err(SemanticError("truncated block"))
      else ParseBlocks(data, pos + 4 + blen, count - 1, blocks + [data[pos + 4..pos + 4 + blen]])
  }

  /** The reference loop of decompress: each index must name a block. */
  function ParseRefs(data: Bytes, pos: nat, count: nat, blocks: seq<Bytes>, out: Bytes): Result<Bytes>
    decreases count
  {
    if count == 0 then Ok(out)
    else if pos + 4 > |data| then Err(SemanticError("truncated ref"))
    else
      var idx := ReadU32(data, pos);
      if idx >= |blocks| then Err(SemanticError("invalid ref"))
      else ParseRefs(data, pos + 4, count - 1, blocks, out + blocks[idx])
  }

  /** decompress(data, original_size); `original_size` is not used. */
  function Decode(data: Bytes): Result<Bytes>
  {
    if |data| < 4 then Err(SemanticError("data too short"))
    else match ParseBlocks(data, 4, ReadU32(data, 0), [])
      case Err(e) => Err(e)
      case Ok((blocks, pos)) =>
        if pos + 4 > |data| then Err(SemanticError("missing refs"))
        else ParseRefs(data, pos + 4, ReadU32(data, pos), blocks, [])
  }

  // ---------------------------------------------------------------------------
  // Chunking.
  // ---------------------------------------------------------------------------

  /** The chunks put back together are the input; there are ceil(len/64) of them,
      all non-empty, and all but the last exactly 64 bytes long. */
  lemma {:induction false} ChunksSpec(data: Bytes)
    ensures Concat(Chunks(data)) == data
    ensures |Chunks(data)| == (|data| + BLOCK_SIZE - 1) / BLOCK_SIZE
    ensures forall k :: 0 <= k < |Chunks(data)| ==> 0 < |Chunks(data)[k]| <= BLOCK_SIZE
    ensures forall k :: 0 <= k < |Chunks(data)| - 1 ==> |Chunks(data)[k]| == BLOCK_SIZE
    decreases |data|
  {
    if |data| > BLOCK_SIZE {
      var rest := data[BLOCK_SIZE..];
      ChunksSpec(rest);
      assert Chunks(data) == [data[..BLOCK_SIZE]] + Chunks(rest);
      assert Chunks(data)[1..] == Chunks(rest);
      assert data == data[..BLOCK_SIZE] + rest;
    }
  }

  /** compress emits one reference per chunk: ceil(len/64) of them. */
  lemma RefCount(data: Bytes)
    ensures |DedupOf(Chunks(data)).refs| == (|data| + BLOCK_SIZE - 1) / BLOCK_SIZE
  {
    ChunksSpec(data);
  }

  /** The chunk loop: the chunks of `data[i..]` start with the one at `i`. */
  lemma ChunksAt(data: Bytes, i: nat)
    requires i < |data|
    ensures Chunks(data[i..]) == [data[i..Min(i + BLOCK_SIZE, |data|)]] + Chunks(data[Min(i + BLOCK_SIZE, |data|)..])
  {
    var t := data[i..];
    if |t| > BLOCK_SIZE {
      assert t[..BLOCK_SIZE] == data[i..i + BLOCK_SIZE];
      assert t[BLOCK_SIZE..] == data[i + BLOCK_SIZE..];
    } else {
      assert data[i..|data|] == t;
      assert data[|data|..] == [];
    }
  }

  // ---------------------------------------------------------------------------
  // Deduplication.
  // ---------------------------------------------------------------------------

  /** Every chunk's reference names a table entry holding exactly that chunk. */
  ghost predicate Resolves(chunks: seq<Bytes>, d: Dedup)
  {
    && |d.refs| == |chunks|
    && forall j :: 0 <= j < |chunks| ==> d.refs[j] < |d.uniques| && d.uniques[d.refs[j]] == chunks[j]
  }

  /** The table holds only chunks of the input, ordered by where each first occurs. */
  ghost predicate FirstSeenOrder(chunks: seq<Bytes>, uniques: seq<Bytes>)
  {
    && (forall k :: 0 <= k < |uniques| ==> uniques[k] in chunks)
    && (forall k1, k2 :: 0 <= k1 < k2 < |uniques| ==>
          IndexOf(chunks, uniques[k1]) < IndexOf(chunks, uniques[k2]))
  }

  lemma IndexOfSnoc(s: seq<Bytes>, c: Bytes, y: Bytes)
    requires y in s
    ensures IndexOf(s + [c], y) == IndexOf(s, y)
  {
    var k := IndexOf(s, y);
    var k' := IndexOf(s + [c], y);
    assert (s + [c])[k] == y;
    assert s[k'] == y;
  }

  lemma IndexOfLast(s: seq<Bytes>, c: Bytes)
    requires c !in s
    ensures IndexOf(s + [c], c) == |s|
  {
    assert (s + [c])[|s|] == c;
  }

  /** The dense, first-seen indexing of compress: references resolve to their chunks,
      the table has no duplicates and follows first occurrence. */
  lemma {:induction false} DedupSpec(chunks: seq<Bytes>)
    ensures Resolves(chunks, DedupOf(chunks))
    ensures Distinct(DedupOf(chunks).uniques)
    ensures FirstSeenOrder(chunks, DedupOf(chunks).uniques)
    decreases |chunks|
  {
    if chunks != [] {
      var p := chunks[..|chunks| - 1];
      var c := chunks[|chunks| - 1];
      assert chunks == p + [c];
      DedupSpec(p);
      var d := DedupOf(p);
      forall y | y in p
        ensures IndexOf(chunks, y) == IndexOf(p, y)
      {
        IndexOfSnoc(p, c, y);
      }
      if c in d.uniques {
        DedupKeep(chunks, p, c, d);
      } else {
        forall j | 0 <= j < |p|
          ensures p[j] != c
        {
          assert d.uniques[d.refs[j]] == p[j];
        }
        IndexOfLast(p, c);
        DedupAdd(chunks, p, c, d);
      }
    }
  }

  /** Two chunks share a reference exactly when they are equal. */
  lemma SameRef(chunks: seq<Bytes>, i: nat, j: nat)
    requires i < |chunks| && j < |chunks|
    ensures DedupOf(chunks).refs[i] == DedupOf(chunks).refs[j] <==> chunks[i] == chunks[j]
  {
    DedupSpec(chunks);
    var d := DedupOf(chunks);
    if chunks[i] == chunks[j] && d.refs[i] != d.refs[j] {
      DistinctAt(d.uniques, d.refs[i], d.refs[j]);
    }
  }

  lemma DistinctAt(s: seq<Bytes>, a: nat, b: nat)
    requires Distinct(s) && a < |s| && b < |s| && a != b
    ensures s[a] != s[b]
  {
    if a > b {
      assert s[b] != s[a];
    }
  }

  /** The fold over a prefix of the chunks is the prefix of the fold. */
  lemma {:induction false} DedupPrefix(chunks: seq<Bytes>, n: nat)
    requires n <= |chunks|
    ensures DedupOf(chunks[..n]).refs == DedupOf(chunks).refs[..n]
    decreases |chunks|
  {
    if chunks != [] {
      var p := chunks[..|chunks| - 1];
      if n == |chunks| {
        assert chunks[..n] == chunks;
        DedupPrefix(p, |p|);
      } else {
        assert chunks[..n] == p[..n];
        DedupPrefix(p, n);
      }
    }
  }

  /** A chunk not seen before gets the number of distinct chunks seen so far as its
      index; a repeated chunk reuses the index of its first occurrence. */
  lemma FirstSeenIndex(chunks: seq<Bytes>, j: nat)
    requires j < |chunks|
    ensures chunks[j] !in chunks[..j] ==> DedupOf(chunks).refs[j] == |DedupOf(chunks[..j]).uniques|
    ensures chunks[j] in chunks[..j] ==>
      DedupOf(chunks).refs[j] == DedupOf(chunks).refs[IndexOf(chunks, chunks[j])]
  {
    var c := chunks[j];
    DedupPrefix(chunks, j + 1);
    var q := chunks[..j + 1];
    assert q[..j] == chunks[..j] && q[j] == c;
    var d := DedupOf(chunks[..j]);
    assert DedupOf(q) == Step(d, c);
    DedupSpec(chunks[..j]);
    if c !in chunks[..j] {
      assert c !in d.uniques;
      assert DedupOf(q).refs[j] == |d.uniques|;
    } else {
      SameRef(chunks, j, IndexOf(chunks, c));
    }
  }

  lemma DedupKeep(chunks: seq<Bytes>, p: seq<Bytes>, c: Bytes, d: Dedup)
    requires chunks == p + [c] && c in d.uniques
    requires Resolves(p, d) && Distinct(d.uniques) && FirstSeenOrder(p, d.uniques)
    requires forall y :: y in p ==> IndexOf(chunks, y) == IndexOf(p, y)
    ensures Resolves(chunks, Step(d, c)) && FirstSeenOrder(chunks, Step(d, c).uniques)
  {
    forall k | 0 <= k < |d.uniques|
      ensures IndexOf(chunks, d.uniques[k]) == IndexOf(p, d.uniques[k])
    {
    }
  }

  lemma DedupAdd(chunks: seq<Bytes>, p: seq<Bytes>, c: Bytes, d: Dedup)
    requires chunks == p + [c] && c !in d.uniques && c !in p
    requires Resolves(p, d) && Distinct(d.uniques) && FirstSeenOrder(p, d.uniques)
    requires forall y :: y in p ==> IndexOf(chunks, y) == IndexOf(p, y)
    requires IndexOf(chunks, c) == |p|
    ensures Resolves(chunks, Step(d, c)) && Distinct(Step(d, c).uniques)
    ensures FirstSeenOrder(chunks, Step(d, c).uniques)
  {
    AddResolves(chunks, p, c, d);
    AddOrder(chunks, p, c, d.uniques);
  }

  lemma AddResolves(chunks: seq<Bytes>, p: seq<Bytes>, c: Bytes, d: Dedup)
    requires chunks == p + [c] && c !in d.uniques
    requires Resolves(p, d) && Distinct(d.uniques)
    ensures Resolves(chunks, Step(d, c)) && Distinct(Step(d, c).uniques)
  {
    var u := d.uniques + [c];
    assert Step(d, c) == Dedup(u, d.refs + [|d.uniques|]);
    forall j | 0 <= j < |chunks|
      ensures (d.refs + [|d.uniques|])[j] < |u| && u[(d.refs + [|d.uniques|])[j]] == chunks[j]
    {
      if j < |p| {
        assert (d.refs + [|d.uniques|])[j] == d.refs[j];
        assert chunks[j] == p[j];
      }
    }
  }

  lemma AddOrder(chunks: seq<Bytes>, p: seq<Bytes>, c: Bytes, uniques: seq<Bytes>)
    requires chunks == p + [c] && c !in p
    requires FirstSeenOrder(p, uniques)
    requires forall y :: y in p ==> IndexOf(chunks, y) == IndexOf(p, y)
    requires IndexOf(chunks, c) == |p|
    ensures FirstSeenOrder(chunks, uniques + [c])
  {
    var u := uniques + [c];
    forall k1, k2 | 0 <= k1 < k2 < |u|
      ensures IndexOf(chunks, u[k1]) < IndexOf(chunks, u[k2])
    {
      assert u[k1] == uniques[k1] && u[k1] in p;
      if k2 < |uniques| {
        assert u[k2] == uniques[k2] && u[k2] in p;
      }
    }
  }

  // ---------------------------------------------------------------------------
  // Parsing what compress wrote.
  // ---------------------------------------------------------------------------

  /** The blocks named by `refs`, concatenated in reference order. */
  function Gather(blocks: seq<Bytes>, refs: seq<nat>): Bytes
    requires forall j :: 0 <= j < |refs| ==> refs[j] < |blocks|
    decreases |refs|
  {
    if refs == [] then [] else blocks[refs[0]] + Gather(blocks, refs[1..])
  }

  /** Every block is short enough for its u32 length prefix. */
  ghost predicate Framable(blocks: seq<Bytes>)
  {
    forall k :: 0 <= k < |blocks| ==> |blocks[k]| < U32_LIMIT
  }

  lemma FramableTail(u: seq<Bytes>)
    requires Framable(u) && u != []
    ensures Framable(u[1..]) && |u[0]| < U32_LIMIT
  {
    forall k | 0 <= k < |u[1..]|
      ensures |u[1..][k]| < U32_LIMIT
    {
      assert u[1..][k] == u[k + 1];
    }
  }

  /** Block by block, `u` sits at `pos` as length-prefixed blocks ending at `end`. */
  ghost predicate BlocksAt(data: Bytes, pos: nat, u: seq<Bytes>, end: nat)
    decreases |u|
  {
    if u == [] then end == pos
    else
      && |u[0]| < U32_LIMIT
      && pos + 4 + |u[0]| <= |data|
      && ReadU32(data, pos) == |u[0]|
      && data[pos + 4..pos + 4 + |u[0]|] == u[0]
      && BlocksAt(data, pos + 4 + |u[0]|, u[1..], end)
  }

  /** The block loop reads back the blocks written at `pos`, and stops right after them. */
  lemma BlocksParse(data: Bytes, pos: nat, u: seq<Bytes>, blocks: seq<Bytes>)
    requires pos + |BlocksBytes(u)| <= |data| && data[pos..pos + |BlocksBytes(u)|] == BlocksBytes(u)
    requires Framable(u)
    ensures ParseBlocks(data, pos, |u|, blocks) == Ok((blocks + u, pos + |BlocksBytes(u)|))
  {
    BlocksBytesAt(data, pos, u);
    BlocksRead(data, pos, u, blocks, pos + |BlocksBytes(u)|);
  }

  /** Reading block by block what sits at `pos`. */
  lemma {:induction false} BlocksRead(data: Bytes, pos: nat, u: seq<Bytes>, blocks: seq<Bytes>, end: nat)
    requires BlocksAt(data, pos, u, end)
    ensures ParseBlocks(data, pos, |u|, blocks) == Ok((blocks + u, end))
    decreases |u|
  {
    if u == [] {
      assert blocks + u == blocks;
    } else {
      BlocksRead(data, pos + 4 + |u[0]|, u[1..], blocks + [u[0]], end);
      BlockStep(data, pos, u, blocks, end);
    }
  }

  /** One round of the block loop over the first block sitting at `pos`, given what
      the loop reads after it. */
  lemma BlockStep(data: Bytes, pos: nat, u: seq<Bytes>, blocks: seq<Bytes>, end: nat)
    requires u != [] && pos + 4 + |u[0]| <= |data| && ReadU32(data, pos) == |u[0]|
    requires data[pos + 4..pos + 4 + |u[0]|] == u[0]
    requires ParseBlocks(data, pos + 4 + |u[0]|, |u| - 1, blocks + [u[0]]) == Ok((blocks + [u[0]] + u[1..], end))
    ensures ParseBlocks(data, pos, |u|, blocks) == Ok((blocks + u, end))
  {
    ParseOne(data, pos, |u|, blocks, u[0]);
    AppendHead(blocks, u);
  }

  /** Unfolding the block loop once, over a block `b` that sits at `pos`. */
  lemma ParseOne(data: Bytes, pos: nat, count: nat, blocks: seq<Bytes>, b: Bytes)
    requires count > 0 && pos + 4 + |b| <= |data| && ReadU32(data, pos) == |b|
    requires data[pos + 4..pos + 4 + |b|] == b
    ensures ParseBlocks(data, pos, count, blocks) == ParseBlocks(data, pos + 4 + |b|, count - 1, blocks + [b])
  {
  }

  /** The serialised table, sliced back into its blocks. */
  lemma {:induction false} BlocksBytesAt(data: Bytes, pos: nat, u: seq<Bytes>)
    requires pos + |BlocksBytes(u)| <= |data| && data[pos..pos + |BlocksBytes(u)|] == BlocksBytes(u)
    requires Framable(u)
    ensures BlocksAt(data, pos, u, pos + |BlocksBytes(u)|)
    decreases |u|
  {
    if u != [] {
      BlockBytesHead(data, pos, u);
      BlocksBytesAt(data, pos + 4 + |u[0]|, u[1..]);
    }
  }

  /** The first serialised block: its length prefix and bytes, then the rest of the
      table right after it. */
  lemma BlockBytesHead(data: Bytes, pos: nat, u: seq<Bytes>)
    requires pos + |BlocksBytes(u)| <= |data| && data[pos..pos + |BlocksBytes(u)|] == BlocksBytes(u)
    requires Framable(u) && u != []
    ensures |u[0]| < U32_LIMIT && Framable(u[1..])
    ensures pos + 4 + |u[0]| <= |data| && ReadU32(data, pos) == |u[0]|
    ensures data[pos + 4..pos + 4 + |u[0]|] == u[0]
    ensures var next := pos + 4 + |u[0]|;
      && next + |BlocksBytes(u[1..])| == pos + |BlocksBytes(u)| <= |data|
      && data[next..next + |BlocksBytes(u[1..])|] == BlocksBytes(u[1..])
  {
    var rest := BlocksBytes(u[1..]);
    assert BlocksBytes(u) == U32Le(|u[0]|) + u[0] + rest;
    SliceSplit(data, pos, U32Le(|u[0]|) + u[0], rest);
    SliceSplit(data, pos, U32Le(|u[0]|), u[0]);
    FramableTail(u);
    ReadCount(data, pos, |u[0]|);
  }

  /** The reference loop reads back the references written at `pos` and appends the
      blocks they name, in order. */
  lemma {:induction false} RefsParse(data: Bytes, pos: nat, refs: seq<nat>, blocks: seq<Bytes>, out: Bytes)
    requires pos + |RefsBytes(refs)| <= |data| && data[pos..pos + |RefsBytes(refs)|] == RefsBytes(refs)
    requires |blocks| <= U32_LIMIT
    requires forall j :: 0 <= j < |refs| ==> refs[j] < |blocks|
    ensures ParseRefs(data, pos, |refs|, blocks, out) == Ok(out + Gather(blocks, refs))
    decreases |refs|
  {
    if refs == [] {
      assert out + [] == out;
    } else {
      var rest := RefsBytes(refs[1..]);
      assert RefsBytes(refs) == U32Le(refs[0]) + rest;
      SliceSplit(data, pos, U32Le(refs[0]), rest);
      ReadU32Le(data, pos, refs[0]);
      SmallMod(refs[0], U32_LIMIT);
      RefsParse(data, pos + 4, refs[1..], blocks, out + blocks[refs[0]]);
      assert out + blocks[refs[0]] + Gather(blocks, refs[1..]) == out + Gather(blocks, refs);
    }
  }

  /** References that resolve to the chunks gather back the chunks' concatenation. */
  lemma {:induction false} GatherResolves(chunks: seq<Bytes>, d: Dedup)
    requires Resolves(chunks, d)
    ensures Gather(d.uniques, d.refs) == Concat(chunks)
    decreases |chunks|
  {
    if chunks != [] {
      var d' := Dedup(d.uniques, d.refs[1..]);
      assert Resolves(chunks[1..], d') by {
        forall j | 0 <= j < |chunks[1..]|
          ensures d'.refs[j] < |d'.uniques| && d'.uniques[d'.refs[j]] == chunks[1..][j]
        {
          assert d'.refs[j] == d.refs[j + 1] && chunks[1..][j] == chunks[j + 1];
        }
      }
      GatherResolves(chunks[1..], d');
    }
  }

  /** Any table and reference list framed as compress frames them decode to the
      gathered blocks. */
  lemma FramedDecodes(layout: Bytes, u: seq<Bytes>, refs: seq<nat>)
    requires Framable(u) && |u| < U32_LIMIT && |refs| < U32_LIMIT
    requires forall j :: 0 <= j < |refs| ==> refs[j] < |u|
    requires layout == U32Le(|u|) + BlocksBytes(u) + U32Le(|refs|) + RefsBytes(refs)
    ensures Decode(layout) == Ok(Gather(u, refs))
  {
    ConcatParts(U32Le(|u|), BlocksBytes(u), U32Le(|refs|), RefsBytes(refs));
    FramedBlocks(layout, u);
    FramedRefs(layout, u, refs, 4 + |BlocksBytes(u)|);
  }

  /** A count below 2^32, written as a u32, reads back unchanged. */
  lemma ReadCount(data: Bytes, pos: nat, n: nat)
    requires pos + 4 <= |data| && data[pos..pos + 4] == U32Le(n) && n < U32_LIMIT
    ensures ReadU32(data, pos) == n
  {
    ReadU32Le(data, pos, n);
    SmallMod(n, U32_LIMIT);
  }

  lemma FramedBlocks(layout: Bytes, u: seq<Bytes>)
    requires Framable(u) && |u| < U32_LIMIT && 4 + |BlocksBytes(u)| <= |layout|
    requires layout[0..4] == U32Le(|u|) && layout[4..4 + |BlocksBytes(u)|] == BlocksBytes(u)
    ensures ReadU32(layout, 0) == |u|
    ensures ParseBlocks(layout, 4, |u|, []) == Ok((u, 4 + |BlocksBytes(u)|))
  {
    ReadCount(layout, 0, |u|);
    BlocksParse(layout, 4, u, []);
    assert [] + u == u;
  }

  lemma FramedRefs(layout: Bytes, u: seq<Bytes>, refs: seq<nat>, pos: nat)
    requires |u| <= U32_LIMIT && |refs| < U32_LIMIT
    requires forall j :: 0 <= j < |refs| ==> refs[j] < |u|
    requires |layout| == pos + 4 + |RefsBytes(refs)|
    requires layout[pos..pos + 4] == U32Le(|refs|) && layout[pos + 4..] == RefsBytes(refs)
    ensures pos + 4 <= |layout| && ReadU32(layout, pos) == |refs|
    ensures ParseRefs(layout, pos + 4, |refs|, u, []) == Ok(Gather(u, refs))
  {
    ReadCount(layout, pos, |refs|);
    assert layout[pos + 4..pos + 4 + |RefsBytes(refs)|] == RefsBytes(refs);
    RefsParse(layout, pos + 4, refs, u, []);
    assert [] + Gather(u, refs) == Gather(u, refs);
  }

  /** The table compress builds holds only chunks, so every block fits its length prefix. */
  lemma UniquesFramable(chunks: seq<Bytes>, u: seq<Bytes>)
    requires forall k :: 0 <= k < |chunks| ==> |chunks[k]| <= BLOCK_SIZE
    requires forall k :: 0 <= k < |u| ==> u[k] in chunks
    ensures Framable(u)
  {
    forall k | 0 <= k < |u|
      ensures |u[k]| < U32_LIMIT
    {
      var j := IndexOf(chunks, u[k]);
    }
  }

  /** decompress(compress(d, t), n) == d, for inputs of fewer than 2^32 chunks (the
      counts and indices are u32). */
  lemma RoundTrip(data: Bytes)
    requires |Chunks(data)| < U32_LIMIT
    ensures Decode(Layout(data)) == Ok(data)
  {
    var chunks := Chunks(data);
    ChunksSpec(data);
    DedupSpec(chunks);
    var d := DedupOf(chunks);
    UniquesFramable(chunks, d.uniques);
    FramedDecodes(Layout(data), d.uniques, d.refs);
    GatherResolves(chunks, d);
  }

  // ---------------------------------------------------------------------------
  // When decompress fails.
  // ---------------------------------------------------------------------------

  /** The `k`-th reference of a list starting at `pos`. */
  function RefAt(data: Bytes, pos: nat, k: nat): nat
    requires pos + 4 * k + 4 <= |data|
  {
    ReadU32(data, pos + 4 * k)
  }

  /** The reference loop succeeds exactly when all `count` references are present and
      each names a block; it then appends the named blocks in order. */
  lemma {:induction false} RefsOk(data: Bytes, pos: nat, count: nat, blocks: seq<Bytes>, out: Bytes)
    ensures ParseRefs(data, pos, count, blocks, out).Ok? <==>
      (count == 0 || pos + 4 * count <= |data|) && forall k :: 0 <= k < count ==> RefAt(data, pos, k) < |blocks|
    ensures ParseRefs(data, pos, count, blocks, out).Ok? ==>
      |ParseRefs(data, pos, count, blocks, out).value| >= |out|
    decreases count
  {
    if count > 0 && pos + 4 <= |data| && ReadU32(data, pos) < |blocks| {
      RefsOk(data, pos + 4, count - 1, blocks, out + blocks[ReadU32(data, pos)]);
      if pos + 4 * count <= |data| {
        assert RefAt(data, pos, 0) == ReadU32(data, pos);
        var next := pos + 4;
        forall k | 1 <= k < count
          ensures RefAt(data, pos, k) == RefAt(data, next, k - 1)
        {
        }
        forall j | 0 <= j < count - 1
          ensures RefAt(data, next, j) == RefAt(data, pos, j + 1)
        {
        }
      }
    } else if count > 0 && pos + 4 * count <= |data| {
      assert RefAt(data, pos, 0) == ReadU32(data, pos);
    }
  }

  /** The reference loop fails only with a `SemanticError`. */
  lemma {:induction false} RefsError(data: Bytes, pos: nat, count: nat, blocks: seq<Bytes>, out: Bytes)
    ensures ParseRefs(data, pos, count, blocks, out).Err? ==>
      ParseRefs(data, pos, count, blocks, out).error.SemanticError?
    decreases count
  {
    if count > 0 && pos + 4 <= |data| && ReadU32(data, pos) < |blocks| {
      RefsError(data, pos + 4, count - 1, blocks, out + blocks[ReadU32(data, pos)]);
    }
  }

  /** The block loop fails only with a `SemanticError`, and on success it has stepped
      forward and stayed inside the input. */
  lemma {:induction false} BlocksResult(data: Bytes, pos: nat, count: nat, blocks: seq<Bytes>)
    ensures ParseBlocks(data, pos, count, blocks).Err? ==>
      ParseBlocks(data, pos, count, blocks).error.SemanticError?
    ensures ParseBlocks(data, pos, count, blocks).Ok? ==>
      var (bs, end) := ParseBlocks(data, pos, count, blocks).value;
      |bs| == |blocks| + count && pos <= end && (count > 0 ==> end <= |data|)
    decreases count
  {
    if count > 0 && pos + 4 <= |data| && pos + 4 + ReadU32(data, pos) <= |data| {
      var blen := ReadU32(data, pos);
      BlocksResult(data, pos + 4 + blen, count - 1, blocks + [data[pos + 4..pos + 4 + blen]]);
    }
  }

  /** decompress fails only with a `SemanticError`; input shorter than 4 bytes, or one
      whose reference count is cut off, is refused outright. */
  lemma DecodeErrors(data: Bytes)
    ensures Decode(data).Err? ==> Decode(data).error.SemanticError?
    ensures |data| < 4 ==> Decode(data) == Err(SemanticError("data too short"))
    ensures |data| >= 4 && ParseBlocks(data, 4, ReadU32(data, 0), []).Ok?
            && ParseBlocks(data, 4, ReadU32(data, 0), []).value.1 + 4 > |data|
            ==> Decode(data) == Err(SemanticError("missing refs"))
  {
    if |data| >= 4 {
      BlocksResult(data, 4, ReadU32(data, 0), []);
      var r := ParseBlocks(data, 4, ReadU32(data, 0), []);
      if r.Ok? && r.value.1 + 4 <= |data| {
        RefsError(data, r.value.1 + 4, ReadU32(data, r.value.1), r.value.0, []);
      }
    }
  }

  // ---------------------------------------------------------------------------
  // Size of the output.
  // ---------------------------------------------------------------------------

  lemma {:induction false} RefsBytesLength(refs: seq<nat>)
    ensures |RefsBytes(refs)| == 4 * |refs|
    decreases |refs|
  {
    if refs != [] {
      RefsBytesLength(refs[1..]);
    }
  }

  lemma {:induction false} BlocksBytesLength(blocks: seq<Bytes>)
    requires forall k :: 0 <= k < |blocks| ==> |blocks[k]| <= BLOCK_SIZE
    ensures |BlocksBytes(blocks)| <= (4 + BLOCK_SIZE) * |blocks|
    decreases |blocks|
  {
    if blocks != [] {
      assert forall k :: 0 <= k < |blocks[1..]| ==> blocks[1..][k] == blocks[k + 1];
      BlocksBytesLength(blocks[1..]);
    }
  }

  /** Every chunk of a run of one byte value holds only that value. */
  lemma {:induction false} ConstantChunks(data: Bytes, b: byte)
    requires forall i :: 0 <= i < |data| ==> data[i] == b
    ensures forall k, i :: 0 <= k < |Chunks(data)| && 0 <= i < |Chunks(data)[k]| ==> Chunks(data)[k][i] == b
    decreases |data|
  {
    if |data| > BLOCK_SIZE {
      var rest := data[BLOCK_SIZE..];
      ConstantChunks(rest, b);
      assert Chunks(data) == [data[..BLOCK_SIZE]] + Chunks(rest);
    }
  }

  /** Distinct values drawn from two candidates are at most two. */
  lemma DistinctOfTwo(u: seq<Bytes>, x: Bytes, y: Bytes)
    requires Distinct(u)
    requires forall k :: 0 <= k < |u| ==> u[k] == x || u[k] == y
    ensures |u| <= 2
  {
    if |u| > 2 {
      ThreeOfTwo(u[0], u[1], u[2], x, y);
      assert false;
    }
  }

  lemma ThreeOfTwo(a: Bytes, b: Bytes, c: Bytes, x: Bytes, y: Bytes)
    requires (a == x || a == y) && (b == x || b == y) && (c == x || c == y)
    ensures a == b || a == c || b == c
  {
  }

  /** Two constant chunks of the same length are the same chunk. */
  lemma SameConstant(c1: Bytes, c2: Bytes, b: byte)
    requires |c1| == |c2|
    requires forall i :: 0 <= i < |c1| ==> c1[i] == b
    requires forall i :: 0 <= i < |c2| ==> c2[i] == b
    ensures c1 == c2
  {
  }

  /** Every chunk of constant input but the last is the first chunk. */
  lemma ConstantChunksEqual(data: Bytes, b: byte)
    requires forall i :: 0 <= i < |data| ==> data[i] == b
    ensures forall j :: 0 <= j < |Chunks(data)| - 1 ==> Chunks(data)[j] == Chunks(data)[0]
  {
    var chunks := Chunks(data);
    ChunksSpec(data);
    ConstantChunks(data, b);
    forall j | 0 <= j < |chunks| - 1
      ensures chunks[j] == chunks[0]
    {
      SameConstant(chunks[j], chunks[0], b);
    }
  }

  /** Input made of one repeated byte value dedups to at most two blocks: the full
      64-byte chunk and the shorter tail. */
  lemma ConstantUniques(data: Bytes, b: byte)
    requires forall i :: 0 <= i < |data| ==> data[i] == b
    ensures |DedupOf(Chunks(data)).uniques| <= 2
  {
    var chunks := Chunks(data);
    if chunks != [] {
      ConstantChunksEqual(data, b);
      DedupSpec(chunks);
      var u := DedupOf(chunks).uniques;
      var last := chunks[|chunks| - 1];
      forall k | 0 <= k < |u|
        ensures u[k] == chunks[0] || u[k] == last
      {
        var j := IndexOf(chunks, u[k]);
      }
      DistinctOfTwo(u, chunks[0], last);
    }
  }

  /** A run of one byte value of at least 160 bytes comes out smaller than it went in
      (the 1000-zero-byte case included). */
  lemma ConstantCompresses(data: Bytes, b: byte)
    requires forall i :: 0 <= i < |data| ==> data[i] == b
    requires |data| >= 160
    ensures |Layout(data)| < |data|
  {
    var chunks := Chunks(data);
    var d := DedupOf(chunks);
    ChunksSpec(data);
    DedupSpec(chunks);
    ConstantUniques(data, b);
    UniquesFramable(chunks, d.uniques);
    assert forall k :: 0 <= k < |d.uniques| ==> |d.uniques[k]| <= BLOCK_SIZE by {
      forall k | 0 <= k < |d.uniques|
        ensures |d.uniques[k]| <= BLOCK_SIZE
      {
        var j := IndexOf(chunks, d.uniques[k]);
      }
    }
    BlocksBytesLength(d.uniques);
    RefsBytesLength(d.refs);
  }

  /** The test case: 1000 zero bytes. */
  lemma ZerosCompress(data: Bytes)
    requires |data| == 1000 && forall i :: 0 <= i < |data| ==> data[i] == 0
    ensures |Layout(data)| < 1000
  {
    ConstantCompresses(data, 0);
  }

  // ---------------------------------------------------------------------------
  // The two directions as the source runs them.
  // ---------------------------------------------------------------------------

  /** `unique_blocks` maps each table block to its index. */
  ghost predicate IndexMap(index: map<Bytes, nat>, uniques: seq<Bytes>)
  {
    && |index| == |uniques|
    && (forall c :: c in index <==> c in uniques)
    && (forall k :: 0 <= k < |uniques| ==> index[uniques[k]] == k)
  }

  /** The chunk loop of compress: look each chunk up in `unique_blocks`, inserting it
      with the next index when new, and push its index onto `block_refs`. */
  method ChunkLoop(data: Bytes) returns (index: map<Bytes, nat>, refs: seq<nat>, ghost uniques: seq<Bytes>)
    ensures DedupOf(Chunks(data)) == Dedup(uniques, refs)
    ensures IndexMap(index, uniques)
  {
    index, refs, uniques := map[], [], [];
    ghost var seen: seq<Bytes> := [];
    var i := 0;
    assert data[0..] == data;
    while i < |data|
      invariant i <= |data|
      invariant Chunks(data) == seen + Chunks(data[i..])
      invariant DedupOf(seen) == Dedup(uniques, refs)
      invariant IndexMap(index, uniques)
      decreases |data| - i
    {
      var end := Min(i + BLOCK_SIZE, |data|);
      var chunk := data[i..end];
      ChunksAdvance(data, i, seen);
      ghost var before := Dedup(uniques, refs);
      var blockIdx;
      index, blockIdx, uniques := Entry(index, uniques, chunk);
      refs := refs + [blockIdx];
      SnocStep(seen, chunk, before, index, Dedup(uniques, refs));
      seen := seen + [chunk];
      i := end;
    }
    assert seen + Chunks(data[i..]) == seen;
  }

  /** `*unique_blocks.entry(chunk).or_insert(unique_blocks.len())`. */
  method Entry(index: map<Bytes, nat>, ghost uniques: seq<Bytes>, chunk: Bytes)
    returns (index': map<Bytes, nat>, idx: nat, ghost uniques': seq<Bytes>)
    requires IndexMap(index, uniques)
    ensures IndexMap(index', uniques')
    ensures uniques' == if chunk in uniques then uniques else uniques + [chunk]
    ensures chunk in index' && idx == index'[chunk]
    ensures idx == if chunk in uniques then IndexOf(uniques, chunk) else |uniques|
  {
    index', uniques' := index, uniques;
    var next := |index|;
    if chunk !in index {
      index' := index[chunk := next];
      uniques' := uniques + [chunk];
      assert uniques'[|uniques|] == chunk;
    }
    idx := index'[chunk];
  }

  lemma ChunksAdvance(data: Bytes, i: nat, seen: seq<Bytes>)
    requires i < |data|
    ensures seen + Chunks(data[i..]) ==
      seen + [data[i..Min(i + BLOCK_SIZE, |data|)]] + Chunks(data[Min(i + BLOCK_SIZE, |data|)..])
  {
    ChunksAt(data, i);
  }

  /** One chunk-loop iteration is one `Step` of the dedup fold. */
  lemma SnocStep(seen: seq<Bytes>, c: Bytes, d: Dedup, index: map<Bytes, nat>, d': Dedup)
    requires DedupOf(seen) == d && IndexMap(index, d'.uniques)
    requires d'.uniques == (if c in d.uniques then d.uniques else d.uniques + [c])
    requires c in index && d'.refs == d.refs + [index[c]]
    ensures DedupOf(seen + [c]) == d'
  {
    assert (seen + [c])[..|seen|] == seen;
    var k := IndexOf(d'.uniques, c);
    if c in d.uniques {
      assert IndexOf(d.uniques, c) == k;
    } else {
      assert d'.uniques[|d.uniques|] == c;
    }
  }

  /** `unique_blocks` sorted by index: since the indices are exactly 0..n-1, the block
      at position `k` is the one whose index is `k`. */
  method SortByIndex(index: map<Bytes, nat>, ghost uniques: seq<Bytes>) returns (sorted: seq<Bytes>)
    requires IndexMap(index, uniques)
    ensures sorted == uniques
  {
    sorted := [];
    var k := 0;
    while k < |index|
      invariant k <= |index| && sorted == uniques[..k]
    {
      assert uniques[k] in index && index[uniques[k]] == k;
      var blk :| blk in index && index[blk] == k;
      assert blk == uniques[k] by {
        var j := IndexOf(uniques, blk);
      }
      assert uniques[..k + 1] == uniques[..k] + [blk];
      sorted := sorted + [blk];
      k := k + 1;
    }
    assert uniques[..k] == uniques;
  }

  /** The table loop of compress: each block's u32 length, then its bytes. */
  method WriteBlocks(output: Bytes, blocks: seq<Bytes>) returns (out: Bytes)
    ensures out == output + BlocksBytes(blocks)
  {
    out := output;
    var k := 0;
    while k < |blocks|
      invariant k <= |blocks|
      invariant out + BlocksBytes(blocks[k..]) == output + BlocksBytes(blocks)
    {
      var block := blocks[k];
      assert blocks[k..][1..] == blocks[k + 1..];
      assert out + BlocksBytes(blocks[k..]) == out + U32Le(|block|) + block + BlocksBytes(blocks[k + 1..]);
      out := out + U32Le(|block|) + block;
      k := k + 1;
    }
    assert out + BlocksBytes([]) == out;
  }

  /** The reference loop of compress: each index as a u32. */
  method WriteRefs(output: Bytes, refs: seq<nat>) returns (out: Bytes)
    ensures out == output + RefsBytes(refs)
  {
    out := output;
    var k := 0;
    while k < |refs|
      invariant k <= |refs|
      invariant out + RefsBytes(refs[k..]) == output + RefsBytes(refs)
    {
      assert refs[k..][1..] == refs[k + 1..];
      assert out + RefsBytes(refs[k..]) == out + U32Le(refs[k]) + RefsBytes(refs[k + 1..]);
      out := out + U32Le(refs[k]);
      k := k + 1;
    }
    assert out + RefsBytes([]) == out;
  }

  /** compress(data, threshold); the threshold is not used. */
  method Compress(data: Bytes, threshold: real) returns (r: Result<Bytes>)
    ensures r == Ok(Layout(data))
  {
    var index, refs, uniques := ChunkLoop(data);
    var output := U32Le(|index|);
    var sorted := SortByIndex(index, uniques);
    output := WriteBlocks(output, sorted);
    output := output + U32Le(|refs|);
    output := WriteRefs(output, refs);
    r := Ok(output);
  }

  /** The block loop of decompress. */
  method ReadBlocks(data: Bytes, numUnique: nat) returns (r: Result<(seq<Bytes>, nat)>)
    ensures r == ParseBlocks(data, 4, numUnique, [])
  {
    var pos: nat := 4;
    var blocks: seq<Bytes> := [];
    var k := 0;
    while k < numUnique
      invariant k <= numUnique
      invariant ParseBlocks(data, pos, numUnique - k, blocks) == ParseBlocks(data, 4, numUnique, [])
    {
      if pos + 4 > |data| {
        return Err(SemanticError("truncated"));
      }
      var blen := ReadU32(data, pos);
      pos := pos + 4;
      if pos + blen > |data| {
        return Err(SemanticError("truncated block"));
      }
      blocks := blocks + [data[pos..pos + blen]];
      pos := pos + blen;
      k := k + 1;
    }
    return Ok((blocks, pos));
  }

  /** The reference loop of decompress. */
  method ReadRefs(data: Bytes, start: nat, numRefs: nat, blocks: seq<Bytes>) returns (r: Result<Bytes>)
    ensures r == ParseRefs(data, start, numRefs, blocks, [])
  {
    var pos: nat := start;
    var output: Bytes := [];
    var k := 0;
    while k < numRefs
      invariant k <= numRefs
      invariant ParseRefs(data, pos, numRefs - k, blocks, output) == ParseRefs(data, start, numRefs, blocks, [])
    {
      if pos + 4 > |data| {
        return Err(SemanticError("truncated ref"));
      }
      var idx := ReadU32(data, pos);
      pos := pos + 4;
      if idx >= |blocks| {
        return Err(SemanticError("invalid ref"));
      }
      output := output + blocks[idx];
      k := k + 1;
    }
    return Ok(output);
  }

  /** decompress(data, original_size): the header, the block table, the reference
      count and the references, each bounds-checked before it is read. */
  method Decompress(data: Bytes, originalSize: nat) returns (r: Result<Bytes>)
    ensures r == Decode(data)
  {
    if |data| < 4 {
      return Err(SemanticError("data too short"));
    }
    var numUnique := ReadU32(data, 0);
    var parsed := ReadBlocks(data, numUnique);
    if parsed.Err? {
      return Err(parsed.error);
    }
    var (blocks, pos) := parsed.value;
    if pos + 4 > |data| {
      return Err(SemanticError("missing refs"));
    }
    var numRefs := ReadU32(data, pos);
    r := ReadRefs(data, pos + 4, numRefs, blocks);
  }
}
