/** Huffman tree construction and code assignment (huffman.rs: HuffNode,
    build_tree, build_codes). */
module HuffmanTree {
  import opened Wire
  import opened Errors

  /** The three shapes of node the builder creates: a leaf for an occurring byte,
      an internal node owning both children, and the zero-frequency placeholder
      (no symbol, no children) that pads the single-symbol tree. */
  datatype HuffNode =
    | Leaf(freq: nat, symbol: byte)
    | Internal(freq: nat, left: HuffNode, right: HuffNode)
    | Placeholder
  {
    function Weight(): nat { if Placeholder? then 0 else freq }
  }

  /** The leaf symbols, left to right. */
  function Symbols(t: HuffNode): seq<byte>
  {
    match t
    case Leaf(_, s) => [s]
    case Internal(_, l, r) => Symbols(l) + Symbols(r)
    case Placeholder => []
  }

  function Height(t: HuffNode): nat
  {
    match t
    case Internal(_, l, r) => 1 + Max(Height(l), Height(r))
    case _ => 0
  }

  predicate NoPlaceholder(t: HuffNode)
  {
    match t
    case Leaf(_, _) => true
    case Internal(_, l, r) => NoPlaceholder(l) && NoPlaceholder(r)
    case Placeholder => false
  }

  /** Entry `b` of the 256-bin histogram of `data`. */
  function Count(data: Bytes, b: byte): nat
  {
    multiset(data)[b]
  }

  /** Leaves weigh what the histogram says (and occur), internal nodes weigh the sum
      of their children. */
  predicate WeightsSound(t: HuffNode, data: Bytes)
  {
    match t
    case Leaf(f, s) => f == Count(data, s) && f > 0
    case Internal(f, l, r) => f == l.Weight() + r.Weight() && WeightsSound(l, data) && WeightsSound(r, data)
    case Placeholder => true
  }

  /** Exactly one distinct byte occurs. */
  predicate AllSame(data: Bytes)
    requires |data| > 0
  {
    forall i :: 0 <= i < |data| ==> data[i] == data[0]
  }

  /** What `build_tree` guarantees of the tree it returns for non-empty `data`,
      whichever of several equal-weight nodes the heap hands out first. */
  ghost predicate IsHuffmanTree(t: HuffNode, data: Bytes)
  {
    && |data| > 0
    && t.Internal?
    && WeightsSound(t, data)
    && t.Weight() == |data|
    && (forall b: byte :: multiset(Symbols(t))[b] == (if Count(data, b) > 0 then 1 else 0))
    && |Symbols(t)| <= 256
    && Height(t) <= 255
    && (if AllSame(data) then t == Internal(|data|, Leaf(|data|, data[0]), Placeholder)
        else NoPlaceholder(t))
  }

  // ---------------------------------------------------------------------------
  // The heap: a bag of trees, as a sequence.
  // ---------------------------------------------------------------------------

  function Flatten(heap: seq<HuffNode>): seq<byte>
  {
    if heap == [] then [] else Flatten(heap[..|heap| - 1]) + Symbols(heap[|heap| - 1])
  }

  function SumWeights(heap: seq<HuffNode>): nat
  {
    if heap == [] then 0 else SumWeights(heap[..|heap| - 1]) + heap[|heap| - 1].Weight()
  }

  /** Histogram total over byte values below k. */
  function CountBelow(data: Bytes, k: nat): nat
    requires k <= 256
  {
    if k == 0 then 0 else CountBelow(data, k - 1) + Count(data, k - 1)
  }

  ghost predicate NodeOk(n: HuffNode, data: Bytes)
  {
    WeightsSound(n, data) && NoPlaceholder(n) && Height(n) < |Symbols(n)|
  }

  lemma {:induction false} HeapAppend(a: seq<HuffNode>, b: seq<HuffNode>)
    ensures Flatten(a + b) == Flatten(a) + Flatten(b)
    ensures SumWeights(a + b) == SumWeights(a) + SumWeights(b)
    decreases |b|
  {
    if b == [] {
      assert a + b == a;
    } else {
      var b' := b[..|b| - 1];
      assert (a + b)[..|a + b| - 1] == a + b';
      HeapAppend(a, b');
    }
  }

  /** What popping the element at index k takes out of the heap. */
  lemma RemoveAt(heap: seq<HuffNode>, k: nat)
    requires k < |heap|
    ensures var rest := heap[..k] + heap[k + 1..];
      && multiset(Flatten(heap)) == multiset(Flatten(rest)) + multiset(Symbols(heap[k]))
      && |Flatten(heap)| == |Flatten(rest)| + |Symbols(heap[k])|
      && SumWeights(heap) == SumWeights(rest) + heap[k].Weight()
  {
    var pre, post := heap[..k], heap[k + 1..];
    assert heap == pre + [heap[k]] + post;
    HeapAppend(pre + [heap[k]], post);
    HeapAppend(pre, [heap[k]]);
    HeapAppend(pre, post);
    assert Flatten([heap[k]]) == Symbols(heap[k]) by {
      assert [heap[k]][..0] == [];
    }
    assert SumWeights([heap[k]]) == heap[k].Weight() by {
      assert [heap[k]][..0] == [];
    }
  }

  lemma PushLast(heap: seq<HuffNode>, n: HuffNode)
    ensures Flatten(heap + [n]) == Flatten(heap) + Symbols(n)
    ensures SumWeights(heap + [n]) == SumWeights(heap) + n.Weight()
  {
    assert (heap + [n])[..|heap|] == heap;
  }

  lemma {:induction false} CountSnoc(d: Bytes, x: byte, k: nat)
    requires k <= 256
    ensures CountBelow(d + [x], k) == CountBelow(d, k) + (if x < k then 1 else 0)
  {
    if k > 0 {
      CountSnoc(d, x, k - 1);
      assert multiset(d + [x]) == multiset(d) + multiset{x};
    }
  }

  /** The histogram sums to the input length. */
  lemma {:induction false} CountBelowAll(d: Bytes)
    ensures CountBelow(d, 256) == |d|
    decreases |d|
  {
    if d == [] {
      CountBelowEmpty(256);
    } else {
      var d' := d[..|d| - 1];
      assert d == d' + [d[|d| - 1]];
      CountBelowAll(d');
      CountSnoc(d', d[|d| - 1], 256);
    }
  }

  lemma {:induction false} CountBelowEmpty(k: nat)
    requires k <= 256
    ensures CountBelow([], k) == 0
  {
    if k > 0 {
      CountBelowEmpty(k - 1);
    }
  }

  /** If only `s` occurs, every byte of `data` is `s`. */
  lemma OnlyOneSymbol(data: Bytes, s: byte)
    requires |data| > 0
    requires forall b: byte :: Count(data, b) > 0 ==> b == s
    ensures AllSame(data) && data[0] == s
  {
    forall i | 0 <= i < |data|
      ensures data[i] == s
    {
      assert data[i] in multiset(data);
      assert Count(data, data[i]) > 0;
    }
  }

  /** The two first leaves of the initial heap carry different occurring bytes. */
  lemma NotAllSame(heap: seq<HuffNode>, data: Bytes)
    requires |heap| >= 2 && |data| > 0
    requires heap[0].Leaf? && heap[1].Leaf?
    requires forall b: byte :: multiset(Flatten(heap))[b] == (if Count(data, b) > 0 then 1 else 0)
    ensures !AllSame(data)
  {
    var s0, s1 := heap[0].symbol, heap[1].symbol;
    FirstTwoLeaves(heap);
    var bag := multiset(Flatten(heap));
    assert bag[s0] == multiset{s0, s1}[s0] + multiset(Flatten(heap[2..]))[s0];
    assert bag[s1] == multiset{s0, s1}[s1] + multiset(Flatten(heap[2..]))[s1];
    assert bag[s0] <= 1 && multiset{s0, s1}[s0] <= 1;
    assert s0 != s1;
    assert s0 in multiset(data) && s1 in multiset(data);
    if AllSame(data) {
      OnlySame(data, s0);
      OnlySame(data, s1);
    }
  }

  /** The symbols of a heap whose first two nodes are leaves. */
  lemma FirstTwoLeaves(heap: seq<HuffNode>)
    requires |heap| >= 2 && heap[0].Leaf? && heap[1].Leaf?
    ensures multiset(Flatten(heap)) == multiset{heap[0].symbol, heap[1].symbol} + multiset(Flatten(heap[2..]))
  {
    var s0, s1 := heap[0].symbol, heap[1].symbol;
    HeapAppend(heap[..2], heap[2..]);
    assert heap[..2] + heap[2..] == heap;
    assert Flatten(heap[..2]) == [s0, s1] by {
      var h2 := heap[..2];
      assert h2[..1] == [heap[0]];
      assert [heap[0]][..0] == [];
      assert Flatten([heap[0]]) == [s0];
      assert Flatten(h2) == Flatten(h2[..1]) + Symbols(h2[1]);
    }
  }

  lemma OnlySame(data: Bytes, s: byte)
    requires |data| > 0 && AllSame(data) && s in multiset(data)
    ensures s == data[0]
  {
    assert s in data;
    var i :| 0 <= i < |data| && data[i] == s;
  }

  /** BinaryHeap::pop on the min-heap: the index of a node of least weight. Which of
      several equal-weight nodes is chosen is not specified (the source's order
      compares weights only). */
  method MinIndex(heap: seq<HuffNode>) returns (k: nat)
    requires |heap| > 0
    ensures k < |heap|
    ensures forall j :: 0 <= j < |heap| ==> heap[k].Weight() <= heap[j].Weight()
  {
    k := 0;
    var i := 1;
    while i < |heap|
      invariant k < i <= |heap|
      invariant forall j :: 0 <= j < i ==> heap[k].Weight() <= heap[j].Weight()
    {
      if heap[i].Weight() < heap[k].Weight() {
        k := i;
      }
      i := i + 1;
    }
  }

  /** The heap after pushing the leaves of the byte values below `sym`. */
  ghost predicate LeafHeap(heap: seq<HuffNode>, data: Bytes, sym: nat)
  {
    && sym <= 256
    && (forall k :: 0 <= k < |heap| ==> heap[k].Leaf? && NodeOk(heap[k], data))
    && (forall b: byte :: multiset(Flatten(heap))[b] == (if b < sym && Count(data, b) > 0 then 1 else 0))
    && |Flatten(heap)| == |heap| <= sym
    && SumWeights(heap) == CountBelow(data, sym)
  }

  /** The heap during merging: sound trees holding each occurring byte once. */
  ghost predicate MergeHeap(heap: seq<HuffNode>, data: Bytes)
  {
    && (forall k :: 0 <= k < |heap| ==> NodeOk(heap[k], data))
    && (forall b: byte :: multiset(Flatten(heap))[b] == (if Count(data, b) > 0 then 1 else 0))
    && |Flatten(heap)| <= 256
    && SumWeights(heap) == |data|
  }

  /** Pushing the leaf of an occurring byte value `sym`. */
  lemma PushLeaf(heap: seq<HuffNode>, data: Bytes, sym: byte)
    requires LeafHeap(heap, data, sym) && Count(data, sym) > 0
    ensures LeafHeap(heap + [Leaf(Count(data, sym), sym)], data, sym + 1)
  {
    var leaf := Leaf(Count(data, sym), sym);
    var heap' := heap + [leaf];
    assert Flatten(heap') == Flatten(heap) + [sym] && SumWeights(heap') == SumWeights(heap) + leaf.Weight() by {
      PushLast(heap, leaf);
    }
    assert forall k :: 0 <= k < |heap'| ==> heap'[k].Leaf? && NodeOk(heap'[k], data) by {
      assert NodeOk(leaf, data);
    }
    var bag, bag' := multiset(Flatten(heap)), multiset(Flatten(heap'));
    assert bag' == bag + multiset{sym};
    forall b: byte
      ensures bag'[b] == (if b < sym + 1 && Count(data, b) > 0 then 1 else 0)
    {
      assert bag'[b] == bag[b] + (if b == sym then 1 else 0);
    }
  }

  /** Skipping a byte value `sym` that does not occur. */
  lemma SkipLeaf(heap: seq<HuffNode>, data: Bytes, sym: byte)
    requires LeafHeap(heap, data, sym) && Count(data, sym) == 0
    ensures LeafHeap(heap, data, sym + 1)
  {
    assert CountBelow(data, sym + 1) == CountBelow(data, sym);
    var bag := multiset(Flatten(heap));
    forall b: byte
      ensures bag[b] == (if b < sym + 1 && Count(data, b) > 0 then 1 else 0)
    {
      assert bag[b] == (if b < sym && Count(data, b) > 0 then 1 else 0);
    }
  }

  lemma LeafHeapDone(heap: seq<HuffNode>, data: Bytes)
    requires LeafHeap(heap, data, 256)
    ensures MergeHeap(heap, data)
    ensures heap == [] <==> |data| == 0
  {
    CountBelowAll(data);
  }

  /** Removing the element at index k keeps the other elements, in order. */
  lemma RemoveKeeps(heap: seq<HuffNode>, k: nat, data: Bytes)
    requires k < |heap| && forall j :: 0 <= j < |heap| ==> NodeOk(heap[j], data)
    ensures var rest := heap[..k] + heap[k + 1..];
      forall j :: 0 <= j < |rest| ==> NodeOk(rest[j], data)
  {
    var rest := heap[..k] + heap[k + 1..];
    forall j | 0 <= j < |rest|
      ensures NodeOk(rest[j], data)
    {
      assert rest[j] == heap[if j < k then j else j + 1];
    }
  }

  /** One round of the merge loop: pop the node at `a`, then the node at `b` of what
      remains, push their parent. */
  lemma MergeStep(heap: seq<HuffNode>, data: Bytes, a: nat, rest: seq<HuffNode>, b: nat, heap': seq<HuffNode>)
    requires MergeHeap(heap, data)
    requires a < |heap| && rest == heap[..a] + heap[a + 1..]
    requires b < |rest| && heap' == rest[..b] + rest[b + 1..] + [Internal(heap[a].Weight() + rest[b].Weight(), heap[a], rest[b])]
    ensures MergeHeap(heap', data)
  {
    var rest' := rest[..b] + rest[b + 1..];
    var merged := Internal(heap[a].Weight() + rest[b].Weight(), heap[a], rest[b]);
    assert heap' == rest' + [merged];
    RemoveKeeps(heap, a, data);
    RemoveKeeps(rest, b, data);
    assert NodeOk(merged, data);
    MergeBag(heap, a, rest, b, heap');
  }

  lemma MergeBag(heap: seq<HuffNode>, a: nat, rest: seq<HuffNode>, b: nat, heap': seq<HuffNode>)
    requires a < |heap| && rest == heap[..a] + heap[a + 1..]
    requires b < |rest| && heap' == rest[..b] + rest[b + 1..] + [Internal(heap[a].Weight() + rest[b].Weight(), heap[a], rest[b])]
    ensures multiset(Flatten(heap')) == multiset(Flatten(heap))
    ensures |Flatten(heap')| == |Flatten(heap)|
    ensures SumWeights(heap') == SumWeights(heap)
  {
    var rest' := rest[..b] + rest[b + 1..];
    var merged := Internal(heap[a].Weight() + rest[b].Weight(), heap[a], rest[b]);
    RemoveAt(heap, a);
    RemoveAt(rest, b);
    PushLast(rest', merged);
  }

  lemma Singleton(heap: seq<HuffNode>)
    requires |heap| == 1
    ensures Flatten(heap) == Symbols(heap[0]) && SumWeights(heap) == heap[0].Weight()
  {
    assert heap[..0] == [];
  }

  /** One distinct byte: its leaf under a placeholder sibling is the tree. */
  lemma SingleLeaf(heap: seq<HuffNode>, data: Bytes)
    requires LeafHeap(heap, data, 256) && MergeHeap(heap, data) && |heap| == 1
    ensures var node := heap[0]; IsHuffmanTree(Internal(node.freq, node, Placeholder), data)
  {
    Singleton(heap);
    OnlyOneSymbol(data, heap[0].symbol);
  }

  /** The last tree on the heap is the Huffman tree. */
  lemma MergeDone(heap: seq<HuffNode>, data: Bytes)
    requires MergeHeap(heap, data) && |heap| == 1 && |data| > 0 && !AllSame(data)
    ensures IsHuffmanTree(heap[0], data)
  {
    var root := heap[0];
    Singleton(heap);
    if root.Leaf? {
      OnlyOneSymbol(data, root.symbol);
    }
  }

  /** The frequency table: one counter per byte value, bumped once per input byte. */
  method Histogram(data: Bytes) returns (freq: array<nat>)
    ensures fresh(freq) && freq.Length == 256
    ensures forall b: byte :: freq[b] == Count(data, b)
  {
    freq := new nat[256](_ => 0);
    var i := 0;
    while i < |data|
      invariant 0 <= i <= |data|
      invariant forall b: byte :: freq[b] == Count(data[..i], b)
    {
      assert data[..i + 1] == data[..i] + [data[i]];
      freq[data[i]] := freq[data[i]] + 1;
      i := i + 1;
    }
    assert data[..|data|] == data;
  }

  /** One leaf per byte value with a non-zero count, in byte order. */
  method PushLeaves(data: Bytes, freq: array<nat>) returns (heap: seq<HuffNode>)
    requires freq.Length == 256 && forall b: byte :: freq[b] == Count(data, b)
    ensures LeafHeap(heap, data, 256)
  {
    heap := [];
    var sym := 0;
    while sym < 256
      invariant 0 <= sym <= 256
      invariant LeafHeap(heap, data, sym)
    {
      if freq[sym] > 0 {
        PushLeaf(heap, data, sym);
        heap := heap + [Leaf(freq[sym], sym)];
      } else {
        SkipLeaf(heap, data, sym);
      }
      sym := sym + 1;
    }
  }

  /** The merge loop: pop the two lightest nodes, push their parent, until one
      node remains. */
  method MergeAll(heap0: seq<HuffNode>, data: Bytes) returns (heap: seq<HuffNode>)
    requires |heap0| >= 1 && MergeHeap(heap0, data)
    ensures |heap| == 1 && MergeHeap(heap, data)
  {
    heap := heap0;
    while |heap| > 1
      invariant |heap| >= 1
      invariant MergeHeap(heap, data)
      decreases |heap|
    {
      var a := MinIndex(heap);
      var left := heap[a];
      var rest := heap[..a] + heap[a + 1..];
      var b := MinIndex(rest);
      var right := rest[b];
      var heap' := rest[..b] + rest[b + 1..] + [Internal(left.Weight() + right.Weight(), left, right)];
      MergeStep(heap, data, a, rest, b, heap');
      heap := heap';
    }
  }

  /** build_tree: histogram, one leaf per occurring byte, then merge the two lightest
      nodes until one remains; a single distinct byte gets a placeholder sibling. */
  method BuildTree(data: Bytes) returns (r: Option<HuffNode>)
    ensures r.None? <==> |data| == 0
    ensures r.Some? ==> IsHuffmanTree(r.value, data)
  {
    var freq := Histogram(data);
    var heap := PushLeaves(data, freq);
    LeafHeapDone(heap, data);

    if heap == [] {
      return None;
    }
    if |heap| == 1 {
      var node := heap[0];
      SingleLeaf(heap, data);
      return Some(Internal(node.freq, node, Placeholder));
    }

    NotAllSame(heap, data);
    heap := MergeAll(heap, data);
    MergeDone(heap, data);
    return Some(heap[0]);
  }

  // ---------------------------------------------------------------------------
  // Codes.
  // ---------------------------------------------------------------------------

  /** The codes build_codes inserts for the subtree `t` reached by the path `prefix`
      (left = false, right = true); a leaf reached by the empty path gets [false]. */
  function CodeTable(t: HuffNode, prefix: seq<bool>): map<byte, seq<bool>>
  {
    match t
    case Leaf(_, s) => map[s := if prefix == [] then [false] else prefix]
    case Internal(_, l, r) => CodeTable(l, prefix + [false]) + CodeTable(r, prefix + [true])
    case Placeholder => map[]
  }

  /** build_codes: depth-first walk inserting into the shared code map. */
  method BuildCodes(node: HuffNode, prefix: seq<bool>, codes: map<byte, seq<bool>>)
    returns (result: map<byte, seq<bool>>)
    ensures result == codes + CodeTable(node, prefix)
  {
    match node {
      case Leaf(_, sym) =>
        var code := if prefix == [] then [false] else prefix;
        result := codes[sym := code];
      case Internal(_, left, right) =>
        result := BuildCodes(left, prefix + [false], codes);
        result := BuildCodes(right, prefix + [true], result);
      case Placeholder =>
        result := codes;
    }
  }

  /** No code is a prefix of another one. */
  ghost predicate PrefixFree(codes: map<byte, seq<bool>>)
  {
    forall a, b :: a in codes && b in codes && a != b ==> !(codes[a] <= codes[b])
  }

  ghost predicate UniqueSymbols(t: HuffNode)
  {
    forall b: byte :: multiset(Symbols(t))[b] <= 1
  }

  /** A tree whose symbols are distinct has subtrees with distinct symbols that
      share none. */
  lemma ChildrenUnique(t: HuffNode)
    requires t.Internal? && UniqueSymbols(t)
    ensures UniqueSymbols(t.left) && UniqueSymbols(t.right)
    ensures forall b :: b in Symbols(t.left) ==> b !in Symbols(t.right)
  {
    forall b: byte
      ensures multiset(Symbols(t.left))[b] <= 1 && multiset(Symbols(t.right))[b] <= 1
      ensures b in Symbols(t.left) ==> b !in Symbols(t.right)
    {
      assert multiset(Symbols(t))[b] == multiset(Symbols(t.left))[b] + multiset(Symbols(t.right))[b];
    }
  }

  /** Codes exist exactly for the leaf symbols. */
  lemma {:induction false} CodeTableKeys(t: HuffNode, prefix: seq<bool>)
    ensures forall b :: b in CodeTable(t, prefix) <==> b in Symbols(t)
  {
    match t
    case Leaf(_, _) =>
    case Placeholder =>
    case Internal(_, l, r) =>
      CodeTableKeys(l, prefix + [false]);
      CodeTableKeys(r, prefix + [true]);
  }

  /** `code` extends `prefix`, is non-empty, and is at most `height` bits longer
      (a leaf reached by the empty path still gets one bit). */
  predicate CodeShaped(code: seq<bool>, prefix: seq<bool>, height: nat)
  {
    prefix <= code && 0 < |code| <= Max(1, |prefix| + height)
  }

  /** Every code extends the path to its subtree, is non-empty, and is at most one
      longer than the deepest path below. */
  lemma {:induction false} CodeTableShape(t: HuffNode, prefix: seq<bool>)
    ensures forall b :: b in CodeTable(t, prefix) ==> CodeShaped(CodeTable(t, prefix)[b], prefix, Height(t))
  {
    match t
    case Leaf(_, _) =>
    case Placeholder =>
    case Internal(_, l, r) =>
      var pl, pr := prefix + [false], prefix + [true];
      CodeTableShape(l, pl);
      CodeTableShape(r, pr);
      var ml, mr := CodeTable(l, pl), CodeTable(r, pr);
      var m := CodeTable(t, prefix);
      forall b | b in m
        ensures CodeShaped(m[b], prefix, Height(t))
      {
        var p := if b in mr then pr else pl;
        assert m[b] == (if b in mr then mr[b] else ml[b]);
        assert CodeShaped(m[b], p, Height(t) - 1);
        assert m[b][..|prefix|] == m[b][..|p|][..|prefix|] == p[..|prefix|] == prefix;
      }
  }

  /** No code of a tree with distinct symbols is a prefix of another. */
  lemma {:induction false} CodeTablePrefixFree(t: HuffNode, prefix: seq<bool>)
    requires UniqueSymbols(t)
    ensures PrefixFree(CodeTable(t, prefix))
  {
    match t
    case Leaf(_, _) =>
    case Placeholder =>
    case Internal(_, l, r) =>
      var pl, pr := prefix + [false], prefix + [true];
      ChildrenUnique(t);
      CodeTablePrefixFree(l, pl);
      CodeTablePrefixFree(r, pr);
      CodeTableKeys(l, pl);
      CodeTableKeys(r, pr);
      CodeTableShape(l, pl);
      CodeTableShape(r, pr);
      var ml, mr := CodeTable(l, pl), CodeTable(r, pr);
      var m := CodeTable(t, prefix);
      forall a, b | a in m && b in m && a != b
        ensures !(m[a] <= m[b])
      {
        if a in ml && b in ml {
          assert a !in mr && b !in mr;
          assert m[a] == ml[a] && m[b] == ml[b];
        } else if a in mr && b in mr {
          assert m[a] == mr[a] && m[b] == mr[b];
        } else if a in ml {
          assert a !in mr && b in mr;
          assert m[a] == ml[a] && m[b] == mr[b];
          assert CodeShaped(m[a], pl, Height(l)) && CodeShaped(m[b], pr, Height(r));
          assert m[a][|prefix|] == pl[|prefix|] && m[b][|prefix|] == pr[|prefix|];
        } else {
          assert b !in mr && a in mr;
          assert m[a] == mr[a] && m[b] == ml[b];
          assert CodeShaped(m[a], pr, Height(r)) && CodeShaped(m[b], pl, Height(l));
          assert m[a][|prefix|] == pr[|prefix|] && m[b][|prefix|] == pl[|prefix|];
        }
      }
  }

  lemma {:induction false} DistinctCard(s: seq<byte>)
    requires forall b: byte :: multiset(s)[b] <= 1
    ensures |set x: byte | x in s| == |s|
  {
    if s != [] {
      var t: seq<byte> := s[1..];
      var head: seq<byte> := [s[0]];
      assert s == head + t;
      forall b: byte ensures multiset(t)[b] <= 1 {
        assert multiset(s)[b] == multiset(head)[b] + multiset(t)[b];
      }
      DistinctCard(t);
      assert s[0] !in t by {
        assert multiset(s)[s[0]] == 1 + multiset(t)[s[0]];
      }
      assert (set x: byte | x in s) == {s[0]} + (set x: byte | x in t);
    }
  }

  /** The code table of a tree build_tree returns: one non-empty code per occurring
      byte and no other, no code a prefix of another, every length fits the u8
      length field, and at most 256 entries. With one distinct byte, that byte's
      code is the single bit 0 and the placeholder has none. */
  lemma HuffmanCodes(t: HuffNode, data: Bytes)
    requires IsHuffmanTree(t, data)
    ensures forall b: byte :: b in CodeTable(t, []) <==> Count(data, b) > 0
    ensures forall b :: b in CodeTable(t, []) ==> 0 < |CodeTable(t, [])[b]| <= 255
    ensures PrefixFree(CodeTable(t, []))
    ensures |CodeTable(t, [])| <= 256
    ensures AllSame(data) ==> CodeTable(t, []) == map[data[0] := [false]]
  {
    assert UniqueSymbols(t);
    CodesKeys(t, data);
    CodesLengths(t, data);
    CodeTablePrefixFree(t, []);
    CodesCard(t, data);
    if AllSame(data) {
      SingleSymbolCode(|data|, data[0]);
    }
  }

  /** The single-symbol tree codes its byte as the one bit 0. */
  lemma SingleSymbolCode(n: nat, s: byte)
    ensures CodeTable(Internal(n, Leaf(n, s), Placeholder), []) == map[s := [false]]
  {
    var p: seq<bool> := [] + [false];
    assert p == [false];
    assert CodeTable(Leaf(n, s), p) == map[s := [false]];
  }

  lemma CodesKeys(t: HuffNode, data: Bytes)
    requires IsHuffmanTree(t, data)
    ensures forall b: byte :: b in CodeTable(t, []) <==> Count(data, b) > 0
  {
    CodeTableKeys(t, []);
    forall b: byte ensures b in Symbols(t) <==> Count(data, b) > 0 {
      assert b in Symbols(t) <==> b in multiset(Symbols(t));
    }
  }

  lemma CodesLengths(t: HuffNode, data: Bytes)
    requires IsHuffmanTree(t, data)
    ensures forall b :: b in CodeTable(t, []) ==> 0 < |CodeTable(t, [])[b]| <= 255
  {
    CodeTableShape(t, []);
  }

  lemma CodesCard(t: HuffNode, data: Bytes)
    requires IsHuffmanTree(t, data)
    ensures |CodeTable(t, [])| <= 256
  {
    var codes := CodeTable(t, []);
    CodeTableKeys(t, []);
    DistinctCard(Symbols(t));
    assert codes.Keys == set x: byte | x in Symbols(t);
  }
}
