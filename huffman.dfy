/** The Huffman codec's wire format and its two directions (huffman.rs: compress,
    decompress).

    Layout: `[u16 LE symbol count]`, then per symbol `[symbol][code length as u8]`
    followed by the code bits packed LSB-first, then `[u32 LE input length]`, then
    the concatenated codes of the input bytes packed LSB-first and zero-padded. */
module Huffman {
  import opened Wire
  import opened Errors
  import opened HuffmanTree

  /** Byte to code, as build_codes fills it. */
  type CodeMap = map<byte, seq<bool>>

  /** Code to byte, as the decoder's code_to_symbol map. */
  type DecodeTable = map<seq<bool>, byte>

  // ---------------------------------------------------------------------------
  // Encoding.
  // ---------------------------------------------------------------------------

  /** One table entry: symbol, code length truncated to u8, packed code bits. */
  function EntryBytes(sym: byte, code: seq<bool>): Bytes
  {
    [sym, |code| % 256] + Packed(code)
  }

  /** The table entries in the order the code map was iterated. */
  function TableBytes(codes: CodeMap, order: seq<byte>): Bytes
    requires forall s :: s in order ==> s in codes
  {
    if order == [] then [] else EntryBytes(order[0], codes[order[0]]) + TableBytes(codes, order[1..])
  }

  /** The concatenated codes of the input bytes (a byte without a code adds nothing). */
  function EncodeBits(codes: CodeMap, data: Bytes): seq<bool>
  {
    if data == [] then [] else (if data[0] in codes then codes[data[0]] else []) + EncodeBits(codes, data[1..])
  }

  /** `order` lists every key of `codes` exactly once: one HashMap iteration order. */
  ghost predicate IsOrder(order: seq<byte>, codes: CodeMap)
  {
    && |order| == |codes|
    && (forall s :: s in order <==> s in codes)
    && (forall i, j :: 0 <= i < j < |order| ==> order[i] != order[j])
  }

  /** What compress writes for `data` with code map `codes` iterated in `order`. */
  function Layout(codes: CodeMap, order: seq<byte>, data: Bytes): Bytes
    requires forall s :: s in order ==> s in codes
  {
    U16Le(|codes|) + TableBytes(codes, order) + U32Le(|data|) + Packed(EncodeBits(codes, data))
  }

  lemma {:induction false} TableSnoc(codes: CodeMap, order: seq<byte>, s: byte)
    requires forall x :: x in order ==> x in codes
    requires s in codes
    ensures TableBytes(codes, order + [s]) == TableBytes(codes, order) + EntryBytes(s, codes[s])
  {
    if order != [] {
      assert (order + [s])[1..] == order[1..] + [s];
      TableSnoc(codes, order[1..], s);
    } else {
      assert [s][1..] == [];
    }
  }

  lemma {:induction false} EncodeSnoc(codes: CodeMap, d: Bytes, x: byte)
    ensures EncodeBits(codes, d + [x]) == EncodeBits(codes, d) + (if x in codes then codes[x] else [])
  {
    if d != [] {
      assert (d + [x])[1..] == d[1..] + [x];
      EncodeSnoc(codes, d[1..], x);
    } else {
      assert [x][1..] == [];
    }
  }

  // ---------------------------------------------------------------------------
  // Decoding.
  // ---------------------------------------------------------------------------

  /** A table entry as read: its symbol, its code, and where the next entry starts. */
  datatype Entry = Entry(sym: byte, code: seq<bool>, next: nat)

  /** Bytes that hold a code of `len` bits: `(len + 7) / 8`. */
  function CodeBytes(len: nat): (nb: nat)
    ensures len <= 8 * nb < len + 8
  {
    (len + 7) / 8
  }

  /** Reads the table entry at `pos`. Both the symbol and the length byte must be
      present (see ReadEntryAsWritten for the unchecked length read), then every
      code byte. */
  function ReadEntry(data: Bytes, pos: nat): (r: Result<Entry>)
    ensures r.Ok? ==> pos + 2 <= r.value.next <= |data|
    ensures pos + 1 >= |data| ==> r == Err(HuffmanError("truncated table"))
    ensures pos + 1 < |data| && pos + 2 + CodeBytes(data[pos + 1] as nat) > |data| ==>
      r == Err(HuffmanError("truncated code"))
  {
    if pos + 1 >= |data| then Err(HuffmanError("truncated table"))
    else
      var len := data[pos + 1] as nat;
      var nb := CodeBytes(len);
      if pos + 2 + nb > |data| then Err(HuffmanError("truncated code"))
      else Ok(Entry(data[pos], Unpacked(data[pos + 2..pos + 2 + nb])[..len], pos + 2 + nb))
  }

  /** Reads `count` entries from `pos` into `table`; a later entry with the same code
      replaces an earlier one. Yields the table and the position after it. */
  function ParseTable(data: Bytes, pos: nat, count: nat, table: DecodeTable): Result<(DecodeTable, nat)>
    decreases count
  {
    if count == 0 then Ok((table, pos))
    else match ReadEntry(data, pos)
      case Err(e) => Err(e)
      case Ok(entry) => ParseTable(data, entry.next, count - 1, table[entry.code := entry.sym])
  }

  /** The bit decoder: grow the current code one bit at a time; on a table hit emit
      the symbol, restart the code, and stop once `n` symbols are out. */
  function DecodeBits(table: DecodeTable, bits: seq<bool>, current: seq<bool>, n: nat, out: Bytes): Bytes
    decreases |bits|
  {
    if bits == [] then out
    else
      var cur := current + [bits[0]];
      if cur in table then
        var out' := out + [table[cur]];
        if |out'| >= n then out' else DecodeBits(table, bits[1..], [], n, out')
      else DecodeBits(table, bits[1..], cur, n, out)
  }

  /** decompress(data, n). The stored u32 length is skipped, never compared. */
  function Decode(data: Bytes, n: nat): Result<Bytes>
  {
    if |data| < 2 then Err(HuffmanError("data too short"))
    else match ParseTable(data, 2, ReadU16(data, 0), map[])
      case Err(e) => Err(e)
      case Ok((table, pos)) =>
        if pos + 4 > |data| then Err(HuffmanError("missing data length"))
        else Ok(DecodeBits(table, Unpacked(data[pos + 4..]), [], n, []))
  }

  // ---------------------------------------------------------------------------
  // The unchecked length byte.
  // ---------------------------------------------------------------------------

  /** How a call can end when it may also panic. */
  datatype Outcome<T> = Returned(result: Result<T>) | Panicked

  /** The entry reader as written: it checks that the symbol byte is present but
      indexes the length byte unchecked, so a table that ends right after a symbol
      panics instead of returning an error. */
  function ReadEntryAsWritten(data: Bytes, pos: nat): Outcome<Entry>
  {
    if pos >= |data| then Returned(Err(HuffmanError("truncated table")))
    else if pos + 1 >= |data| then Panicked
    else Returned(ReadEntry(data, pos))
  }

  /** The reader as written panics exactly when the input ends after a symbol byte;
      everywhere else it agrees with ReadEntry. */
  lemma ReadEntryAsWrittenPanics(data: Bytes, pos: nat)
    ensures ReadEntryAsWritten(data, pos).Panicked? <==> pos + 1 == |data|
    ensures pos + 1 != |data| ==> ReadEntryAsWritten(data, pos) == Returned(ReadEntry(data, pos))
  {
  }

  /** `[1, 0, 65]`: one symbol announced, symbol byte 65, then nothing. */
  lemma TruncatedAfterSymbol()
    ensures ReadEntryAsWritten([1, 0, 65], 2) == Panicked
    ensures ReadEntry([1, 0, 65], 2) == Err(HuffmanError("truncated table"))
    ensures Decode([1, 0, 65], 1) == Err(HuffmanError("truncated table"))
  {
    var data: Bytes := [1, 0, 65];
    assert ReadU16(data, 0) == 1;
  }

  // ---------------------------------------------------------------------------
  // Round trip.
  // ---------------------------------------------------------------------------

  ghost predicate Injective(codes: CodeMap)
  {
    forall a, b :: a in codes && b in codes && a != b ==> codes[a] != codes[b]
  }

  /** `table` maps the code of every symbol in `done` back to it, and holds nothing else. */
  ghost predicate InvertsOn(table: DecodeTable, codes: CodeMap, done: set<byte>)
  {
    && (forall s :: s in done ==> s in codes && codes[s] in table && table[codes[s]] == s)
    && (forall c :: c in table ==> table[c] in done && table[c] in codes && codes[table[c]] == c)
  }

  /** Adding one more symbol's code keeps the table the inverse of the codes seen. */
  lemma InvertsAdd(table: DecodeTable, codes: CodeMap, done: set<byte>, s: byte)
    requires Injective(codes) && InvertsOn(table, codes, done)
    requires s in codes && s !in done
    ensures InvertsOn(table[codes[s] := s], codes, done + {s})
  {
    assert codes[s] !in table;
  }

  /** An entry written by compress reads back as that symbol and code. */
  lemma ReadEntryBytes(data: Bytes, pos: nat, sym: byte, code: seq<bool>)
    requires |code| <= 255
    requires pos + |EntryBytes(sym, code)| <= |data|
    requires data[pos..pos + |EntryBytes(sym, code)|] == EntryBytes(sym, code)
    ensures ReadEntry(data, pos) == Ok(Entry(sym, code, pos + |EntryBytes(sym, code)|))
  {
    var e := EntryBytes(sym, code);
    PackedPrefix(code);
    assert data[pos] == e[0] == sym;
    assert data[pos + 1] == e[1] == |code|;
    var nb := CodeBytes(|code|);
    assert |e| == 2 + nb;
    assert data[pos + 2..pos + 2 + nb] == e[2..] == Packed(code);
  }

  /** Every symbol of `order` has a code of at most 255 bits, and none repeats or
      is already in `done`. */
  ghost predicate FreshOrder(order: seq<byte>, codes: CodeMap, done: set<byte>)
    decreases |order|
  {
    order != [] ==>
      && order[0] in codes && |codes[order[0]]| <= 255 && order[0] !in done
      && FreshOrder(order[1..], codes, done + {order[0]})
  }

  /** The entries of `order` lie one after another in `data` from `pos` to `end`. */
  ghost predicate EntriesAt(data: Bytes, pos: nat, codes: CodeMap, order: seq<byte>, end: nat)
    decreases |order|
  {
    if order == [] then end == pos
    else
      && order[0] in codes
      && var e := EntryBytes(order[0], codes[order[0]]);
      && pos + |e| <= |data| && data[pos..pos + |e|] == e
      && EntriesAt(data, pos + |e|, codes, order[1..], end)
  }

  /** The table bytes compress writes are entries one after another. */
  lemma {:induction false} TableEntries(data: Bytes, pos: nat, codes: CodeMap, order: seq<byte>)
    requires forall s :: s in order ==> s in codes
    requires pos + |TableBytes(codes, order)| <= |data|
    requires data[pos..pos + |TableBytes(codes, order)|] == TableBytes(codes, order)
    ensures EntriesAt(data, pos, codes, order, pos + |TableBytes(codes, order)|)
    decreases |order|
  {
    if order != [] {
      TableHead(data, pos, codes, order);
      InTail(order, codes);
      TableEntries(data, pos + |EntryBytes(order[0], codes[order[0]])|, codes, order[1..]);
    }
  }

  /** The first entry of the table bytes, and the rest of the table right after it. */
  lemma TableHead(data: Bytes, pos: nat, codes: CodeMap, order: seq<byte>)
    requires order != [] && forall s :: s in order ==> s in codes
    requires pos + |TableBytes(codes, order)| <= |data|
    requires data[pos..pos + |TableBytes(codes, order)|] == TableBytes(codes, order)
    ensures var e := EntryBytes(order[0], codes[order[0]]);
      && pos + |e| <= |data| && data[pos..pos + |e|] == e
      && var tb := TableBytes(codes, order[1..]);
      && pos + |e| + |tb| == pos + |TableBytes(codes, order)|
      && data[pos + |e|..pos + |e| + |tb|] == tb
  {
    var s := order[0];
    var e := EntryBytes(s, codes[s]);
    var rest := order[1..];
    var tb' := TableBytes(codes, rest);
    assert TableBytes(codes, order) == e + tb';
    SliceSplit(data, pos, e, tb');
  }

  /** The symbols after the first are symbols of the order too. */
  lemma InTail(order: seq<byte>, codes: CodeMap)
    requires order != [] && forall s :: s in order ==> s in codes
    ensures forall s :: s in order[1..] ==> s in codes
  {
    assert forall x :: x in order[1..] ==> x in order;
  }

  /** The entries of `order` can be read one after another from `pos`, ending at `end`. */
  ghost predicate ReadsAt(data: Bytes, pos: nat, codes: CodeMap, order: seq<byte>, end: nat)
    decreases |order|
  {
    if order == [] then end == pos
    else
      && order[0] in codes
      && var next := pos + |EntryBytes(order[0], codes[order[0]])|;
      && ReadEntry(data, pos) == Ok(Entry(order[0], codes[order[0]], next))
      && ReadsAt(data, next, codes, order[1..], end)
  }

  /** Entries written with codes of at most 255 bits read back as written. */
  lemma {:induction false} EntriesRead(data: Bytes, pos: nat, codes: CodeMap, order: seq<byte>, end: nat)
    requires forall s :: s in order ==> s in codes && |codes[s]| <= 255
    requires EntriesAt(data, pos, codes, order, end)
    ensures ReadsAt(data, pos, codes, order, end)
    decreases |order|
  {
    if order != [] {
      var s := order[0];
      var next := pos + |EntryBytes(s, codes[s])|;
      ShortTail(order, codes);
      EntryRead(data, pos, codes, order, end);
      EntriesRead(data, next, codes, order[1..], end);
      ReadsCons(data, pos, codes, order, end);
    }
  }

  lemma ShortTail(order: seq<byte>, codes: CodeMap)
    requires order != [] && forall s :: s in order ==> s in codes && |codes[s]| <= 255
    ensures forall s :: s in order[1..] ==> s in codes && |codes[s]| <= 255
  {
    assert forall x :: x in order[1..] ==> x in order;
  }

  lemma EntryRead(data: Bytes, pos: nat, codes: CodeMap, order: seq<byte>, end: nat)
    requires order != [] && EntriesAt(data, pos, codes, order, end)
    requires |codes[order[0]]| <= 255
    ensures ReadEntry(data, pos) == Ok(Entry(order[0], codes[order[0]], pos + |EntryBytes(order[0], codes[order[0]])|))
    ensures EntriesAt(data, pos + |EntryBytes(order[0], codes[order[0]])|, codes, order[1..], end)
  {
    ReadEntryBytes(data, pos, order[0], codes[order[0]]);
  }

  lemma ReadsCons(data: Bytes, pos: nat, codes: CodeMap, order: seq<byte>, end: nat)
    requires order != [] && order[0] in codes
    requires ReadEntry(data, pos) == Ok(Entry(order[0], codes[order[0]], pos + |EntryBytes(order[0], codes[order[0]])|))
    requires ReadsAt(data, pos + |EntryBytes(order[0], codes[order[0]])|, codes, order[1..], end)
    ensures ReadsAt(data, pos, codes, order, end)
  {
  }

  /** The table after inserting the codes of `order`, in order, into `table`
      (a symbol without a code inserts nothing). */
  ghost function Inserted(table: DecodeTable, codes: CodeMap, order: seq<byte>): DecodeTable
    decreases |order|
  {
    if order == [] then table
    else if order[0] in codes then Inserted(table[codes[order[0]] := order[0]], codes, order[1..])
    else Inserted(table, codes, order[1..])
  }

  /** Entries read one after another parse into the table holding their codes. */
  lemma {:induction false} ParseEntries(data: Bytes, pos: nat, codes: CodeMap, order: seq<byte>, end: nat,
                                        table: DecodeTable)
    requires ReadsAt(data, pos, codes, order, end)
    requires forall s :: s in order ==> s in codes
    ensures ParseTable(data, pos, |order|, table) == Ok((Inserted(table, codes, order), end))
    decreases |order|
  {
    if order != [] {
      var s := order[0];
      var next := pos + |EntryBytes(s, codes[s])|;
      InTail(order, codes);
      ParseEntries(data, next, codes, order[1..], end, table[codes[s] := s]);
      ParseTableStep(data, pos, |order|, table, Entry(s, codes[s], next));
    }
  }

  /** Inserting a fresh order of injective codes extends the inverse. */
  lemma {:induction false} InsertedInverts(table: DecodeTable, codes: CodeMap, order: seq<byte>, done: set<byte>)
    requires Injective(codes) && FreshOrder(order, codes, done) && InvertsOn(table, codes, done)
    requires forall s :: s in order ==> s in codes
    ensures InvertsOn(Inserted(table, codes, order), codes, done + (set x | x in order))
    decreases |order|
  {
    if order != [] {
      var s := order[0];
      InvertsAdd(table, codes, done, s);
      InTail(order, codes);
      InsertedInverts(table[codes[s] := s], codes, order[1..], done + {s});
      assert done + {s} + (set x | x in order[1..]) == done + (set x | x in order);
    }
  }

  lemma ParseTableStep(data: Bytes, pos: nat, count: nat, table: DecodeTable, entry: Entry)
    requires count > 0 && ReadEntry(data, pos) == Ok(entry)
    ensures ParseTable(data, pos, count, table) == ParseTable(data, entry.next, count - 1, table[entry.code := entry.sym])
  {
  }

  /** A duplicate-free order of symbols with short codes, none yet seen, is fresh. */
  lemma {:induction false} DistinctIsFresh(order: seq<byte>, codes: CodeMap, done: set<byte>)
    requires forall s :: s in order ==> s in codes && |codes[s]| <= 255 && s !in done
    requires forall i, j :: 0 <= i < j < |order| ==> order[i] != order[j]
    ensures FreshOrder(order, codes, done)
    decreases |order|
  {
    if order != [] {
      var rest := order[1..];
      forall x | x in rest
        ensures x in codes && |codes[x]| <= 255 && x !in done + {order[0]}
      {
        var i :| 0 <= i < |rest| && rest[i] == x;
        assert order[i + 1] == x;
      }
      DistinctIsFresh(rest, codes, done + {order[0]});
    }
  }

  /** The codes the decoder can rely on: non-empty, prefix-free, and inverted by
      the table. */
  ghost predicate Decodes(table: DecodeTable, codes: CodeMap)
  {
    && InvertsOn(table, codes, codes.Keys)
    && PrefixFree(codes)
    && (forall s :: s in codes ==> |codes[s]| > 0)
  }

  /** Feeding the rest of a symbol's code emits exactly that symbol: no proper
      prefix of a code is in the table. */
  lemma {:induction false} SymbolStep(table: DecodeTable, codes: CodeMap, x: byte, j: nat,
                                      more: seq<bool>, n: nat, out: Bytes)
    requires Decodes(table, codes) && x in codes && j < |codes[x]|
    ensures DecodeBits(table, codes[x][j..] + more, codes[x][..j], n, out)
         == if |out| + 1 >= n then out + [x] else DecodeBits(table, more, [], n, out + [x])
    decreases |codes[x]| - j
  {
    var c := codes[x];
    var bits := c[j..] + more;
    assert bits[0] == c[j] && bits[1..] == c[j + 1..] + more;
    var cur := c[..j] + [c[j]];
    assert cur == c[..j + 1];
    if j + 1 == |c| {
      assert cur == c;
    } else {
      SymbolStep(table, codes, x, j + 1, more, n, out);
    }
  }

  /** Decoding the encoding of `d` (followed by anything) yields `d` once the target
      count is reached. */
  lemma {:induction false} DecodeEncoded(table: DecodeTable, codes: CodeMap, d: Bytes,
                                         tail: seq<bool>, n: nat, out: Bytes)
    requires Decodes(table, codes)
    requires |d| > 0 && (forall i :: 0 <= i < |d| ==> d[i] in codes)
    requires |out| + |d| == n
    ensures DecodeBits(table, EncodeBits(codes, d) + tail, [], n, out) == out + d
    decreases |d|
  {
    var x := d[0];
    var c := codes[x];
    var more := EncodeBits(codes, d[1..]) + tail;
    assert EncodeBits(codes, d) + tail == c[0..] + more;
    assert c[..0] == [];
    SymbolStep(table, codes, x, 0, more, n, out);
    if |d| == 1 {
      assert d == [x];
    } else {
      DecodeEncoded(table, codes, d[1..], tail, n, out + [x]);
      AppendHead(out, d);
    }
  }

  /** Where the parts of a compressed layout lie. */
  lemma LayoutParts(layout: Bytes, codes: CodeMap, order: seq<byte>, data: Bytes)
    requires forall s :: s in order ==> s in codes
    requires |codes| < U16_LIMIT && layout == Layout(codes, order, data)
    ensures |layout| >= 2 && ReadU16(layout, 0) == |codes|
    ensures 2 + |TableBytes(codes, order)| + 4 <= |layout|
    ensures layout[2..2 + |TableBytes(codes, order)|] == TableBytes(codes, order)
    ensures layout[2 + |TableBytes(codes, order)| + 4..] == Packed(EncodeBits(codes, data))
  {
    var tb := TableBytes(codes, order);
    ConcatParts(U16Le(|codes|), tb, U32Le(|data|), Packed(EncodeBits(codes, data)));
    ReadU16Le(layout, 0, |codes|);
    SmallMod(|codes|, U16_LIMIT);
  }

  /** A table written with codes of at most 255 bits parses back entry by entry. */
  lemma TableParses(layout: Bytes, codes: CodeMap, order: seq<byte>)
    requires forall s :: s in order ==> s in codes && |codes[s]| <= 255
    requires 2 + |TableBytes(codes, order)| <= |layout|
    requires layout[2..2 + |TableBytes(codes, order)|] == TableBytes(codes, order)
    ensures ParseTable(layout, 2, |order|, map[]) == Ok((Inserted(map[], codes, order), 2 + |TableBytes(codes, order)|))
  {
    var end := 2 + |TableBytes(codes, order)|;
    TableEntries(layout, 2, codes, order);
    EntriesRead(layout, 2, codes, order, end);
    ParseEntries(layout, 2, codes, order, end, map[]);
  }

  /** Inserting every code of injective codes, in a duplicate-free order, yields
      their inverse. */
  lemma InsertedAll(codes: CodeMap, order: seq<byte>)
    requires Injective(codes) && IsOrder(order, codes)
    requires forall s :: s in codes ==> |codes[s]| <= 255
    ensures InvertsOn(Inserted(map[], codes, order), codes, codes.Keys)
  {
    DistinctIsFresh(order, codes, {});
    InsertedInverts(map[], codes, order, {});
    assert (set x | x in order) == codes.Keys;
  }

  lemma OrderShort(order: seq<byte>, codes: CodeMap)
    requires IsOrder(order, codes) && forall s :: s in codes ==> |codes[s]| <= 255
    ensures forall s :: s in order ==> s in codes && |codes[s]| <= 255
  {
  }

  /** Decoding a layout reads the table back and decodes the padded payload. */
  lemma DecodeLayout(codes: CodeMap, order: seq<byte>, data: Bytes, layout: Bytes)
    requires |codes| < U16_LIMIT && IsOrder(order, codes)
    requires forall s :: s in codes ==> |codes[s]| <= 255
    requires layout == Layout(codes, order, data)
    ensures Decode(layout, |data|)
         == Ok(DecodeBits(Inserted(map[], codes, order),
                          EncodeBits(codes, data) + Zeros(PadBits(|EncodeBits(codes, data)|)), [], |data|, []))
  {
    OrderShort(order, codes);
    LayoutParts(layout, codes, order, data);
    DecodeParts(layout, codes, order, data);
    UnpackPacked(EncodeBits(codes, data));
  }

  /** Decoding bytes that hold the symbol count, a table and, after the skipped
      length field, the packed code bits. */
  lemma DecodeParts(layout: Bytes, codes: CodeMap, order: seq<byte>, data: Bytes)
    requires |order| == |codes| && forall s :: s in order ==> s in codes && |codes[s]| <= 255
    requires |layout| >= 2 && ReadU16(layout, 0) == |codes|
    requires 2 + |TableBytes(codes, order)| + 4 <= |layout|
    requires layout[2..2 + |TableBytes(codes, order)|] == TableBytes(codes, order)
    requires layout[2 + |TableBytes(codes, order)| + 4..] == Packed(EncodeBits(codes, data))
    ensures Decode(layout, |data|)
         == Ok(DecodeBits(Inserted(map[], codes, order), Unpacked(Packed(EncodeBits(codes, data))), [], |data|, []))
  {
    TableParses(layout, codes, order);
  }

  /** The table parsed back from a Huffman code map decodes it, and every input
      byte has a code. */
  lemma TableDecodes(data: Bytes, tree: HuffNode, order: seq<byte>)
    requires IsHuffmanTree(tree, data)
    requires IsOrder(order, CodeTable(tree, []))
    ensures Decodes(Inserted(map[], CodeTable(tree, []), order), CodeTable(tree, []))
    ensures forall i :: 0 <= i < |data| ==> data[i] in CodeTable(tree, [])
  {
    var codes := CodeTable(tree, []);
    HuffmanCodes(tree, data);
    assert Injective(codes) by {
      forall a, b | a in codes && b in codes && a != b
        ensures codes[a] != codes[b]
      {
        assert !(codes[a] <= codes[b]);
      }
    }
    InsertedAll(codes, order);
    forall i | 0 <= i < |data|
      ensures data[i] in codes
    {
      assert data[i] in multiset(data);
    }
  }

  /** decompress(compress(data), |data|) == data, for every non-empty input and
      every HashMap iteration order of the code table. */
  lemma RoundTrip(data: Bytes, tree: HuffNode, order: seq<byte>)
    requires IsHuffmanTree(tree, data)
    requires IsOrder(order, CodeTable(tree, []))
    ensures Decode(Layout(CodeTable(tree, []), order, data), |data|) == Ok(data)
  {
    var codes := CodeTable(tree, []);
    var bits := EncodeBits(codes, data);
    HuffmanCodes(tree, data);
    DecodeLayout(codes, order, data, Layout(codes, order, data));
    TableDecodes(data, tree, order);
    DecodeEncoded(Inserted(map[], codes, order), codes, data, Zeros(PadBits(|bits|)), |data|, []);
    assert [] + data == data;
  }

  // ---------------------------------------------------------------------------
  // Output length.
  // ---------------------------------------------------------------------------

  lemma {:induction false} DecodeBitsBound(table: DecodeTable, bits: seq<bool>, current: seq<bool>,
                                           n: nat, out: Bytes)
    ensures out <= DecodeBits(table, bits, current, n, out)
    ensures |DecodeBits(table, bits, current, n, out)| <= Max(n, |out| + 1)
    decreases |bits|
  {
    if bits != [] {
      var cur := current + [bits[0]];
      if cur in table {
        var out' := out + [table[cur]];
        if |out'| < n {
          DecodeBitsBound(table, bits[1..], [], n, out');
        }
      } else {
        DecodeBitsBound(table, bits[1..], cur, n, out);
      }
    }
  }

  /** decompress never yields more than `original_size` bytes, except that a target
      of 0 still lets the first decoded symbol through. */
  lemma DecodeLength(data: Bytes, n: nat)
    ensures Decode(data, n).Ok? ==> |Decode(data, n).value| <= Max(n, 1)
  {
    if |data| >= 2 {
      var p := ParseTable(data, 2, ReadU16(data, 0), map[]);
      if p.Ok? && p.value.1 + 4 <= |data| {
        DecodeBitsBound(p.value.0, Unpacked(data[p.value.1 + 4..]), [], n, []);
      }
    }
  }

  /** The table reader fails only with a `HuffmanError`. */
  lemma {:induction false} TableErrors(data: Bytes, pos: nat, count: nat, table: DecodeTable)
    ensures ParseTable(data, pos, count, table).Err? ==> ParseTable(data, pos, count, table).error.HuffmanError?
    decreases count
  {
    if count > 0 && ReadEntry(data, pos).Ok? {
      var entry := ReadEntry(data, pos).value;
      TableErrors(data, entry.next, count - 1, table[entry.code := entry.sym]);
    }
  }

  /** decompress fails only with a `HuffmanError`, and input shorter than the 2-byte
      symbol count is refused outright. */
  lemma DecodeErrors(data: Bytes, n: nat)
    ensures Decode(data, n).Err? ==> Decode(data, n).error.HuffmanError?
    ensures |data| < 2 ==> Decode(data, n) == Err(HuffmanError("data too short"))
    ensures |data| >= 2 && ParseTable(data, 2, ReadU16(data, 0), map[]).Err? ==>
      Decode(data, n) == Err(ParseTable(data, 2, ReadU16(data, 0), map[]).error)
    ensures |data| >= 2 && ParseTable(data, 2, ReadU16(data, 0), map[]).Ok?
            && ParseTable(data, 2, ReadU16(data, 0), map[]).value.1 + 4 > |data|
            ==> Decode(data, n) == Err(HuffmanError("missing data length"))
  {
    if |data| >= 2 {
      TableErrors(data, 2, ReadU16(data, 0), map[]);
    }
  }

  /** With `original_size` 0, one symbol still comes out: the count is compared only
      after a symbol has been pushed. */
  lemma ZeroSizeYieldsOneSymbol()
    ensures Decode([1, 0, 7, 1, 0, 0, 0, 0, 0, 0], 0) == Ok([7])
  {
    var data: Bytes := [1, 0, 7, 1, 0, 0, 0, 0, 0, 0];
    assert ReadU16(data, 0) == 1;
    var zero: Bytes := [0];
    var bits := Unpacked(zero);
    assert bits == ByteBits(0) + Unpacked([]);
    assert bits[0] == BitsOf(0, 8)[0] == false;
    assert bits[..1] == [false];
    assert data[4..5] == zero && data[9..] == zero;
    assert ReadEntry(data, 2) == Ok(Entry(7, [false], 5));
    var table := map[[false] := 7 as byte];
    assert ParseTable(data, 2, 1, map[]) == ParseTable(data, 5, 0, table) == Ok((table, 5));
    assert [] + [bits[0]] == [false];
    assert DecodeBits(table, bits, [], 0, []) == [7];
  }

  // ---------------------------------------------------------------------------
  // The two directions as the source runs them.
  // ---------------------------------------------------------------------------

  /** The table-writing loop of compress: one entry per symbol, in the code map's
      iteration order (some order, chosen at run time). */
  method WriteTable(codes: CodeMap) returns (output: Bytes, ghost order: seq<byte>)
    ensures IsOrder(order, codes)
    ensures output == TableBytes(codes, order)
  {
    output := [];
    var remaining := codes.Keys;
    order := [];
    while remaining != {}
      invariant Listed(order, remaining, codes)
      invariant output == TableBytes(codes, order)
      decreases |remaining|
    {
      var sym: byte :| sym in remaining;
      var code := codes[sym];
      output := output + [sym, (|code| % 256) as byte];
      var packed := PackBits(code);
      output := output + packed;
      ListedStep(order, remaining, codes, sym);
      TableSnoc(codes, order, sym);
      order := order + [sym];
      remaining := remaining - {sym};
    }
  }

  /** WriteTable's loop state: `order` lists, without repeats, the symbols already
      written, `remaining` those still to write. */
  ghost predicate Listed(order: seq<byte>, remaining: set<byte>, codes: CodeMap)
  {
    && remaining <= codes.Keys
    && (forall s :: s in order ==> s in codes && s !in remaining)
    && (forall s :: s in codes ==> s in order || s in remaining)
    && (forall i, j :: 0 <= i < j < |order| ==> order[i] != order[j])
    && |order| + |remaining| == |codes|
  }

  /** Writing one remaining symbol moves it from `remaining` to the end of `order`. */
  lemma ListedStep(order: seq<byte>, remaining: set<byte>, codes: CodeMap, sym: byte)
    requires Listed(order, remaining, codes) && sym in remaining
    ensures Listed(order + [sym], remaining - {sym}, codes)
    ensures forall s :: s in order ==> s in codes
  {
    var order', remaining' := order + [sym], remaining - {sym};
    assert forall s :: s in order' <==> s in order || s == sym;
    forall i, j | 0 <= i < j < |order'|
      ensures order'[i] != order'[j]
    {
      if j < |order| {
        assert order'[i] == order[i] && order'[j] == order[j];
      } else {
        assert order'[i] in order;
      }
    }
  }

  /** The loop of compress that concatenates the codes of the input bytes. */
  method EncodeData(codes: CodeMap, data: Bytes) returns (bits: seq<bool>)
    ensures bits == EncodeBits(codes, data)
  {
    bits := [];
    var i := 0;
    while i < |data|
      invariant 0 <= i <= |data|
      invariant bits == EncodeBits(codes, data[..i])
    {
      EncodeSnoc(codes, data[..i], data[i]);
      assert data[..i + 1] == data[..i] + [data[i]];
      if data[i] in codes {
        bits := bits + codes[data[i]];
      }
      i := i + 1;
    }
    assert data[..|data|] == data;
  }

  /** compress: tree, codes, symbol count, table, input length, packed code bits. */
  method Compress(data: Bytes) returns (r: Result<Bytes>, ghost tree: HuffNode, ghost order: seq<byte>)
    ensures r.Err? <==> |data| == 0
    ensures r.Err? ==> r.error == HuffmanError("empty tree")
    ensures r.Ok? ==> && IsHuffmanTree(tree, data)
                      && IsOrder(order, CodeTable(tree, []))
                      && r.value == Layout(CodeTable(tree, []), order, data)
    ensures r.Ok? ==> Decode(r.value, |data|) == Ok(data)
  {
    var built := BuildTree(data);
    if built.None? {
      return Err(HuffmanError("empty tree")), Placeholder, [];
    }
    var root := built.value;
    tree := root;
    var codes := BuildCodes(root, [], map[]);
    assert codes == CodeTable(tree, []);
    var table;
    table, order := WriteTable(codes);
    var bits := EncodeData(codes, data);
    var packed := PackBits(bits);
    r := Ok(U16Le(|codes|) + table + U32Le(|data|) + packed);
    RoundTrip(data, tree, order);
  }

  /** The inner loop of decompress's entry reader: the bits of one code byte,
      least significant first, up to the announced code length. */
  method ReadCodeByte(b: byte, code: seq<bool>, byteIdx: nat, codeLen: nat) returns (code': seq<bool>)
    requires |code| == 8 * byteIdx < codeLen
    ensures code' == code + ByteBits(b)[..Min(8, codeLen - 8 * byteIdx)]
  {
    code' := code;
    var bitIdx := 0;
    while bitIdx < 8
      invariant 0 <= bitIdx <= Min(8, codeLen - 8 * byteIdx)
      invariant code' == code + ByteBits(b)[..bitIdx]
    {
      if byteIdx * 8 + bitIdx >= codeLen {
        break;
      }
      ByteBitsAt(b, bitIdx);
      assert ByteBits(b)[..bitIdx + 1] == ByteBits(b)[..bitIdx] + [Bit(b, bitIdx)];
      code' := code' + [Bit(b, bitIdx)];
      bitIdx := bitIdx + 1;
    }
  }

  /** The entry-reading loops of decompress, with the length byte checked. */
  method ReadTableEntry(data: Bytes, pos: nat) returns (r: Result<Entry>)
    ensures r == ReadEntry(data, pos)
  {
    if pos + 1 >= |data| {
      return Err(HuffmanError("truncated table"));
    }
    var sym := data[pos];
    var codeLen := data[pos + 1] as nat;
    var p := pos + 2;
    var numBytes := CodeBytes(codeLen);
    var code: seq<bool> := [];
    var byteIdx := 0;
    while byteIdx < numBytes
      invariant 0 <= byteIdx <= numBytes
      invariant p == pos + 2 + byteIdx <= |data|
      invariant |code| == Min(8 * byteIdx, codeLen)
      invariant code == Unpacked(data[pos + 2..p])[..|code|]
    {
      if p >= |data| {
        return Err(HuffmanError("truncated code"));
      }
      var b := data[p];
      UnpackedSnoc(data, pos + 2, p);
      assert code == Unpacked(data[pos + 2..p]);
      PrefixExtend(code, ByteBits(b), Min(8, codeLen - 8 * byteIdx));
      p := p + 1;
      code := ReadCodeByte(b, code, byteIdx, codeLen);
      byteIdx := byteIdx + 1;
    }
    return Ok(Entry(sym, code, p));
  }

  /** Unpacking one more byte of a slice appends that byte's bits. */
  lemma UnpackedSnoc(data: Bytes, from: nat, p: nat)
    requires from <= p < |data|
    ensures Unpacked(data[from..p + 1]) == Unpacked(data[from..p]) + ByteBits(data[p])
  {
    UnpackedAppend(data[from..p], [data[p]]);
    assert data[from..p + 1] == data[from..p] + [data[p]];
  }

  lemma PrefixExtend<T>(u: seq<T>, v: seq<T>, k: nat)
    requires k <= |v|
    ensures u + v[..k] == (u + v)[..|u| + k]
  {
  }

  /** The table-reading loop of decompress. */
  method ReadTable(data: Bytes, numSymbols: nat) returns (r: Result<(DecodeTable, nat)>)
    ensures r == ParseTable(data, 2, numSymbols, map[])
  {
    var pos: nat := 2;
    var table: DecodeTable := map[];
    var k := 0;
    while k < numSymbols
      invariant 0 <= k <= numSymbols
      invariant ParseTable(data, pos, numSymbols - k, table) == ParseTable(data, 2, numSymbols, map[])
    {
      var entry := ReadTableEntry(data, pos);
      if entry.Err? {
        return Err(entry.error);
      }
      table := table[entry.value.code := entry.value.sym];
      pos := entry.value.next;
      k := k + 1;
    }
    return Ok((table, pos));
  }

  /** The bit-decoding loops of decompress, over the bytes from `pos` on. */
  method DecodePayload(table: DecodeTable, data: Bytes, pos: nat, originalSize: nat) returns (output: Bytes)
    requires pos <= |data|
    ensures output == DecodeBits(table, Unpacked(data[pos..]), [], originalSize, [])
  {
    ghost var final := DecodeBits(table, Unpacked(data[pos..]), [], originalSize, []);
    output := [];
    var current: seq<bool> := [];
    var j := pos;
    label outer: while j < |data|
      invariant pos <= j <= |data|
      invariant DecodeBits(table, Unpacked(data[j..]), current, originalSize, output) == final
    {
      var b := data[j];
      ghost var rest := Unpacked(data[j + 1..]);
      assert Unpacked(data[j..]) == ByteBits(b) + rest by {
        assert data[j..] == [b] + data[j + 1..];
        UnpackedAppend([b], data[j + 1..]);
        assert Unpacked([b]) == ByteBits(b);
      }
      var bitIdx := 0;
      while bitIdx < 8
        invariant 0 <= bitIdx <= 8
        invariant DecodeBits(table, ByteBits(b)[bitIdx..] + rest, current, originalSize, output) == final
      {
        ghost var bits := ByteBits(b)[bitIdx..] + rest;
        assert bits[0] == Bit(b, bitIdx) && bits[1..] == ByteBits(b)[bitIdx + 1..] + rest by {
          ByteBitsAt(b, bitIdx);
        }
        current := current + [Bit(b, bitIdx)];
        if current in table {
          output := output + [table[current]];
          current := [];
          if |output| >= originalSize {
            break outer;
          }
        }
        bitIdx := bitIdx + 1;
      }
      assert ByteBits(b)[8..] + rest == rest;
      j := j + 1;
    }
    assert j == |data| ==> Unpacked(data[j..]) == [];
  }

  /** decompress: table, skipped length, then bit-by-bit decoding. */
  method Decompress(data: Bytes, originalSize: nat) returns (r: Result<Bytes>)
    ensures r == Decode(data, originalSize)
  {
    if |data| < 2 {
      return Err(HuffmanError("data too short"));
    }
    var numSymbols := ReadU16(data, 0);
    var parsed := ReadTable(data, numSymbols);
    if parsed.Err? {
      return Err(parsed.error);
    }
    var (table, pos) := parsed.value;
    if pos + 4 > |data| {
      return Err(HuffmanError("missing data length"));
    }
    var output := DecodePayload(table, data, pos + 4, originalSize);
    return Ok(output);
  }
}
