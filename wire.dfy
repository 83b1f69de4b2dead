/** Byte-level building blocks shared by the codecs: little-endian integers and
    LSB-first bit packing. */
module Wire {

  type byte = x: int | 0 <= x < 256
  type Bytes = seq<byte>

  const U16_LIMIT: nat := 0x1_0000
  const U32_LIMIT: nat := 0x1_0000_0000

  function Max(a: int, b: int): int { if a < b then b else a }

  function Min(a: int, b: int): int { if a < b then a else b }

  // ---------------------------------------------------------------------------
  // Little-endian integers. `x as u16` / `x as u32` truncation is written out.
  // ---------------------------------------------------------------------------

  /** `(x as u16).to_le_bytes()` */
  function U16Le(x: nat): (r: Bytes)
    ensures |r| == 2
  {
    var v := x % U16_LIMIT;
    [v % 256, v / 256]
  }

  /** `u16::from_le_bytes([data[pos], data[pos + 1]])` */
  function ReadU16(data: Bytes, pos: nat): nat
    requires pos + 2 <= |data|
  {
    data[pos] as nat + 256 * (data[pos + 1] as nat)
  }

  /** `(x as u32).to_le_bytes()` */
  function U32Le(x: nat): (r: Bytes)
    ensures |r| == 4
  {
    var v := x % U32_LIMIT;
    [v % 256, (v / 256) % 256, (v / 0x1_0000) % 256, v / 0x100_0000]
  }

  /** The little-endian value of the `k` bytes at `pos`. */
  function LeValue(data: Bytes, pos: nat, k: nat): nat
    requires pos + k <= |data|
    decreases k
  {
    if k == 0 then 0 else data[pos] as nat + 256 * LeValue(data, pos + 1, k - 1)
  }

  /** `u32::from_le_bytes(data[pos..pos + 4])` */
  function ReadU32(data: Bytes, pos: nat): nat
    requires pos + 4 <= |data|
  {
    LeValue(data, pos, 4)
  }

  /** The four bytes of a u32 read, with their weights. */
  lemma ReadU32Bytes(data: Bytes, pos: nat)
    requires pos + 4 <= |data|
    ensures ReadU32(data, pos) == data[pos] as nat + 256 * (data[pos + 1] as nat)
      + 0x1_0000 * (data[pos + 2] as nat) + 0x100_0000 * (data[pos + 3] as nat)
  {
    assert LeValue(data, pos + 4, 0) == 0;
    assert LeValue(data, pos + 3, 1) == data[pos + 3] as nat;
    assert LeValue(data, pos + 2, 2) == data[pos + 2] as nat + 256 * (data[pos + 3] as nat);
  }

  /** Reading back a written u16 gives the truncated value. */
  lemma ReadU16Le(data: Bytes, pos: nat, x: nat)
    requires pos + 2 <= |data| && data[pos..pos + 2] == U16Le(x)
    ensures ReadU16(data, pos) == x % U16_LIMIT
  {
    assert data[pos] == data[pos..pos + 2][0];
    assert data[pos + 1] == data[pos..pos + 2][1];
  }

  /** Reading back a written u32 gives the truncated value. */
  lemma ReadU32Le(data: Bytes, pos: nat, x: nat)
    requires pos + 4 <= |data| && data[pos..pos + 4] == U32Le(x)
    ensures ReadU32(data, pos) == x % U32_LIMIT
  {
    ReadU32Bytes(data, pos);
    var v := x % U32_LIMIT;
    var w := data[pos..pos + 4];
    assert data[pos] == w[0] && data[pos + 1] == w[1] && data[pos + 2] == w[2] && data[pos + 3] == w[3];
    var q1 := v / 256;
    var q2 := q1 / 256;
    var q3 := q2 / 256;
    assert v == v % 256 + 256 * q1;
    assert q1 == q1 % 256 + 256 * q2;
    assert q2 == q2 % 256 + 256 * q3;
    assert v / 0x1_0000 == q2;
    assert v / 0x100_0000 == q3;
  }

  // ---------------------------------------------------------------------------
  // Bits, LSB first: bit i of a byte is `(byte >> i) & 1`.
  // ---------------------------------------------------------------------------

  function Pow2(k: nat): (r: nat)
    ensures r >= 1
  {
    if k == 0 then 1 else 2 * Pow2(k - 1)
  }

  lemma Pow2AtMost256(k: nat)
    requires k <= 8
    ensures Pow2(k) <= 256
    decreases 8 - k
  {
    if k < 8 {
      Pow2AtMost256(k + 1);
    }
  }

  function Zeros(n: nat): (r: seq<bool>)
    ensures |r| == n && forall i :: 0 <= i < n ==> !r[i]
  {
    seq(n, _ => false)
  }

  /** The number whose binary digits, least significant first, are `bits`. */
  function BitsValue(bits: seq<bool>): (v: nat)
    ensures v < Pow2(|bits|)
  {
    if bits == [] then 0 else (if bits[0] then 1 else 0) + 2 * BitsValue(bits[1..])
  }

  /** The byte a packer holds after OR-ing in `bits` at positions 0, 1, ... */
  function PackByte(bits: seq<bool>): byte
    requires |bits| <= 8
  {
    Pow2AtMost256(|bits|);
    BitsValue(bits)
  }

  /** The lowest `k` bits of `v`, least significant first. */
  function BitsOf(v: nat, k: nat): (r: seq<bool>)
    ensures |r| == k
  {
    if k == 0 then [] else [v % 2 == 1] + BitsOf(v / 2, k - 1)
  }

  /** `[(b >> 0) & 1 == 1, ..., (b >> 7) & 1 == 1]` */
  function ByteBits(b: byte): (r: seq<bool>)
    ensures |r| == 8
  {
    BitsOf(b, 8)
  }

  /** `v >> k`: `k` halvings. */
  function Shr(v: nat, k: nat): nat
  {
    if k == 0 then v else Shr(v / 2, k - 1)
  }

  /** `(b >> k) & 1 == 1`: bit `k` of `b`, counting from the least significant. */
  function Bit(b: byte, k: nat): bool
  {
    Shr(b, k) % 2 == 1
  }

  lemma {:induction false} BitsOfAt(v: nat, m: nat, k: nat)
    requires k < m
    ensures BitsOf(v, m)[k] == (Shr(v, k) % 2 == 1)
  {
    if k > 0 {
      BitsOfAt(v / 2, m - 1, k - 1);
    }
  }

  /** The unpacked bits of a byte are the bits the decoder extracts by shifting. */
  lemma ByteBitsAt(b: byte, k: nat)
    requires k < 8
    ensures ByteBits(b)[k] == Bit(b, k)
  {
    BitsOfAt(b, 8, k);
  }

  /** Packs bits LSB-first into ceil(len/8) bytes, the last one zero-padded. */
  function Packed(bits: seq<bool>): (r: Bytes)
    decreases |bits|
  {
    if bits == [] then []
    else if |bits| <= 8 then [PackByte(bits)]
    else [PackByte(bits[..8])] + Packed(bits[8..])
  }

  /** Packing n bits takes ceil(n/8) bytes. */
  lemma {:induction false} PackedLength(bits: seq<bool>)
    ensures |Packed(bits)| == (|bits| + 7) / 8
    decreases |bits|
  {
    if |bits| > 8 {
      PackedLength(bits[8..]);
    }
  }

  /** Every bit of `bytes`, byte by byte, LSB first. */
  function Unpacked(bytes: Bytes): (r: seq<bool>)
    ensures |r| == 8 * |bytes|
  {
    if bytes == [] then [] else ByteBits(bytes[0]) + Unpacked(bytes[1..])
  }

  /** Number of zero bits that fill the last packed byte. */
  function PadBits(n: nat): nat
  {
    (8 - n % 8) % 8
  }

  lemma {:induction false} BitsOfZero(k: nat)
    ensures BitsOf(0, k) == Zeros(k)
  {
    if k > 0 {
      BitsOfZero(k - 1);
    }
  }

  /** Reading `k` bits back out of a packed value gives the bits, then zeros. */
  lemma {:induction false} BitsOfValue(bits: seq<bool>, k: nat)
    requires |bits| <= k
    ensures BitsOf(BitsValue(bits), k) == bits + Zeros(k - |bits|)
  {
    if bits == [] {
      BitsOfZero(k);
    } else {
      var v := BitsValue(bits);
      var rest := BitsValue(bits[1..]);
      assert v % 2 == (if bits[0] then 1 else 0);
      assert v / 2 == rest;
      BitsOfValue(bits[1..], k - 1);
      assert bits == [bits[0]] + bits[1..];
    }
  }

  /** Unpacking what was packed gives the bits followed by the zero padding. */
  lemma {:induction false} UnpackPacked(bits: seq<bool>)
    ensures Unpacked(Packed(bits)) == bits + Zeros(PadBits(|bits|))
    decreases |bits|
  {
    if bits == [] {
    } else if |bits| <= 8 {
      UnpackPackedLast(bits);
    } else {
      UnpackPacked(bits[8..]);
      UnpackPackedStep(bits);
    }
  }

  lemma UnpackPackedLast(bits: seq<bool>)
    requires 1 <= |bits| <= 8
    ensures Unpacked(Packed(bits)) == bits + Zeros(PadBits(|bits|))
  {
    BitsOfValue(bits, 8);
    var p := PackByte(bits);
    assert Packed(bits) == [p];
    assert Unpacked([p]) == ByteBits(p) + Unpacked([]);
    PadBitsLast(|bits|);
  }

  lemma PadBitsLast(n: nat)
    requires 1 <= n <= 8
    ensures PadBits(n) == 8 - n
  {
  }

  lemma PadBitsShift(n: nat)
    ensures PadBits(n + 8) == PadBits(n)
  {
  }

  lemma UnpackPackedStep(bits: seq<bool>)
    requires |bits| > 8
    requires Unpacked(Packed(bits[8..])) == bits[8..] + Zeros(PadBits(|bits| - 8))
    ensures Unpacked(Packed(bits)) == bits + Zeros(PadBits(|bits|))
  {
    var head, tail := bits[..8], bits[8..];
    BitsOfValue(head, 8);
    var p := PackByte(head);
    var ps := Packed(bits);
    assert ps == [p] + Packed(tail);
    assert ps[1..] == Packed(tail);
    assert Unpacked(ps) == ByteBits(p) + Unpacked(Packed(tail));
    assert ByteBits(p) == head by {
      assert Zeros(0) == [];
      assert head + Zeros(0) == head;
    }
    var z := Zeros(PadBits(|bits|));
    PadBitsShift(|tail|);
    assert Unpacked(Packed(tail)) == tail + z;
    assert head + (tail + z) == (head + tail) + z;
    assert head + tail == bits;
  }

  lemma {:induction false} UnpackedAppend(a: Bytes, b: Bytes)
    ensures Unpacked(a + b) == Unpacked(a) + Unpacked(b)
  {
    if a == [] {
      assert a + b == b;
    } else {
      assert (a + b)[1..] == a[1..] + b;
      UnpackedAppend(a[1..], b);
    }
  }

  /** Setting bit |bits| of a packed byte adds 2^|bits| (the OR of the packers). */
  lemma {:induction false} BitsValueSnoc(bits: seq<bool>, b: bool)
    ensures BitsValue(bits + [b]) == BitsValue(bits) + (if b then Pow2(|bits|) else 0)
  {
    if bits != [] {
      assert (bits + [b])[1..] == bits[1..] + [b];
      BitsValueSnoc(bits[1..], b);
    }
  }

  /** Packing a whole number of bytes and then a tail of up to 8 bits. */
  lemma {:induction false} PackedAppend(a: seq<bool>, c: seq<bool>)
    requires |a| % 8 == 0 && 1 <= |c| <= 8
    ensures Packed(a + c) == Packed(a) + [PackByte(c)]
    decreases |a|
  {
    if a == [] {
      assert a + c == c;
    } else {
      assert (a + c)[..8] == a[..8];
      assert (a + c)[8..] == a[8..] + c;
      PackedAppend(a[8..], c);
    }
  }

  /** The bit-packing loop of the encoder: an accumulator `byte` and a position
      `bit_pos`, flushed every eight bits and once more at the end when non-empty. */
  method PackBits(bits: seq<bool>) returns (out: Bytes)
    ensures out == Packed(bits)
  {
    out := [];
    var acc: byte := 0;
    var bitPos := 0;
    var i := 0;
    ghost var k := 0;   // bytes already written out
    while i < |bits|
      invariant 0 <= bitPos < 8 && i == 8 * k + bitPos <= |bits|
      invariant out == Packed(bits[..8 * k])
      invariant acc == PackByte(bits[8 * k..i])
    {
      PackStep(bits, 8 * k, i, acc, bitPos);
      if bits[i] {
        // `byte |= 1 << bit_pos`; bit `bit_pos` is still clear, so OR adds 2^bit_pos.
        acc := acc + Pow2(bitPos);
      }
      bitPos := bitPos + 1;
      if bitPos == 8 {
        FlushStep(bits, k, i + 1, out, acc);
        out := out + [acc];
        acc := 0;
        bitPos := 0;
        k := k + 1;
        assert bits[8 * k..i + 1] == [];
      }
      i := i + 1;
    }
    if bitPos > 0 {
      FlushStep(bits, k, |bits|, out, acc);
      assert bits[..|bits|] == bits;
      out := out + [acc];
    } else {
      assert bits[..8 * k] == bits;
    }
  }

  lemma PackStep(bits: seq<bool>, flushed: nat, i: nat, acc: byte, bitPos: nat)
    requires flushed <= i < |bits| && bitPos == i - flushed < 8
    requires acc == PackByte(bits[flushed..i])
    ensures PackByte(bits[flushed..i + 1]) == acc + (if bits[i] then Pow2(bitPos) else 0)
  {
    BitsValueSnoc(bits[flushed..i], bits[i]);
    assert bits[flushed..i + 1] == bits[flushed..i] + [bits[i]];
  }

  /** Flushing the accumulator after bit `end - 1` appends the byte it holds. */
  lemma FlushStep(bits: seq<bool>, k: nat, end: nat, out: Bytes, acc: byte)
    requires 8 * k < end <= 8 * k + 8 && end <= |bits|
    requires out == Packed(bits[..8 * k]) && acc == PackByte(bits[8 * k..end])
    ensures out + [acc] == Packed(bits[..end])
  {
    PackedAppend(bits[..8 * k], bits[8 * k..end]);
    assert bits[..8 * k] + bits[8 * k..end] == bits[..end];
  }

  /** A bit string packed on its own reads back as its first `|bits|` unpacked bits. */
  lemma PackedPrefix(bits: seq<bool>)
    ensures |Packed(bits)| == (|bits| + 7) / 8
    ensures |bits| <= |Unpacked(Packed(bits))|
    ensures Unpacked(Packed(bits))[..|bits|] == bits
  {
    PackedLength(bits);
    UnpackPacked(bits);
  }

  /** A value below the modulus is its own remainder. */
  lemma SmallMod(x: nat, m: nat)
    requires x < m
    ensures x % m == x
  {
  }

  /** Equal parts make equal wholes. */
  lemma Rejoin<T>(x: seq<T>, a: seq<T>, b: seq<T>, y: seq<T>, c: seq<T>, d: seq<T>)
    requires x == a + b && y == c + d && a == c && b == d
    ensures x == y
  {
  }

  /** Moving the head of what is left onto what is done keeps the total. */
  lemma MoveHead<T>(done: seq<T>, head: seq<T>, rest: seq<T>, left: seq<T>, total: seq<T>)
    requires left == head + rest && done + left == total
    ensures done + head + rest == total
  {
    assert done + (head + rest) == done + head + rest;
  }

  /** Moving the head of `d` onto `out` leaves the concatenation unchanged. */
  lemma AppendHead<T>(out: seq<T>, d: seq<T>)
    requires |d| > 0
    ensures out + [d[0]] + d[1..] == out + d
  {
    assert d == [d[0]] + d[1..];
  }

  /** The four parts of a concatenation, sliced back out. */
  lemma ConcatParts<T>(a: seq<T>, b: seq<T>, c: seq<T>, d: seq<T>)
    ensures (a + b + c + d)[0..|a|] == a
    ensures (a + b + c + d)[|a|..|a| + |b|] == b
    ensures (a + b + c + d)[|a| + |b|..|a| + |b| + |c|] == c
    ensures (a + b + c + d)[|a| + |b| + |c|..] == d
  {
    var s := a + b + c + d;
    assert s == a + (b + (c + d));
    assert s[|a|..] == b + (c + d);
    assert s[|a| + |b|..] == c + d;
  }

  /** Where `a + b` sits in `data`, `a` and then `b` sit. */
  lemma SliceSplit<T>(data: seq<T>, pos: nat, a: seq<T>, b: seq<T>)
    requires pos + |a + b| <= |data| && data[pos..pos + |a + b|] == a + b
    ensures data[pos..pos + |a|] == a
    ensures data[pos + |a|..pos + |a| + |b|] == b
  {
    assert data[pos..pos + |a|] == (a + b)[..|a|];
    assert data[pos + |a|..pos + |a| + |b|] == (a + b)[|a|..];
  }
}
