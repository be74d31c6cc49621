/** The K-quant bit layouts (include/qtx/quantize/quantizer.hpp): what the encoders' loops pack into bytes, the
    decoders' index and mask expressions read back, element by element, for any number of blocks.  The
    quantised integers are inputs here; how the encoders choose them is not part of this model. */
module BlockStreams {
  import opened Common

  /** The decoder's walk over whole blocks of `size` bytes. */
  ghost function UnpackAll<T>(unpack: Bytes -> T, size: nat, bytes: Bytes): seq<T>
    requires size > 0
  {
    if |bytes| < size then [] else [unpack(bytes[..size])] + UnpackAll(unpack, size, bytes[size..])
  }

  lemma {:induction false} UnpackAppend<T>(unpack: Bytes -> T, size: nat, n: nat, bytes: Bytes, block: Bytes)
    requires size > 0 && |bytes| == n * size && |block| == size
    ensures UnpackAll(unpack, size, bytes + block) == UnpackAll(unpack, size, bytes) + [unpack(block)]
  {
    if n == 0 {
      assert bytes + block == block && block[size..] == [] && block[..size] == block;
    } else {
      assert n * size == (n - 1) * size + size;
      UnpackAppend(unpack, size, n - 1, bytes[size..], block);
      assert (bytes + block)[..size] == bytes[..size] && (bytes + block)[size..] == bytes[size..] + block;
    }
  }
}

/** Eight 6-bit scales and eight 6-bit minimums in twelve bytes. */
module ScalesK4 {
  import opened Common

  /** unpackScaleMinK4: the scale. */
  function Scale(q: Bytes, j: nat): bv8
    requires |q| == 12 && j < 8
  {
    if j < 4 then q[j] & 0x3F else (q[j + 4] & 0x0F) | ((q[j - 4] >> 6) << 4)
  }

  /** unpackScaleMinK4: the minimum. */
  function Min(q: Bytes, j: nat): bv8
    requires |q| == 12 && j < 8
  {
    if j < 4 then q[j + 4] & 0x3F else (q[j + 4] >> 4) | ((q[j] >> 6) << 4)
  }

  function LowByte(scale: bv8, min: bv8): bv8 { (scale & 0x0F) | ((min & 0x0F) << 4) }

  function TopBits(x: bv8): bv8 { ((x >> 4) & 3) << 6 }

  function LowSix(x: bv8): bv8 { x & 0x3F }

  function WithTop(low: bv8, x: bv8): bv8 { low | TopBits(x) }

  /** What the three loops leave in the twelve bytes. */
  ghost predicate Packed(q: Bytes, scale: seq<bv8>, min: seq<bv8>)
    requires |q| == 12 && |scale| == |min| == 8
  {
    && (forall i {:trigger q[i]} :: 0 <= i < 4 ==> q[i] == WithTop(LowSix(scale[i]), scale[i + 4]))
    && (forall i {:trigger q[i]} :: 4 <= i < 8 ==> q[i] == WithTop(LowSix(min[i - 4]), min[i]))
    && (forall i {:trigger q[i]} :: 8 <= i < 12 ==> q[i] == LowByte(scale[i - 4], min[i - 4]))
  }

  /** The twelve bytes of the format: bytes 0 to 3 hold scales 0 to 3 and the top pairs of scales 4 to 7, bytes 4 to 7
      the same of the minimums, bytes 8 to 11 the low nibbles of scales and minimums 4 to 7. */
  ghost predicate Layout(q: Bytes, scale: seq<bv8>, min: seq<bv8>)
    requires |q| == 12 && |scale| == |min| == 8
  {
    forall j {:trigger scale[j]} :: 0 <= j < 4 ==>
      && q[j] == (scale[j] & 0x3F) | (((scale[j + 4] >> 4) & 3) << 6)
      && q[4 + j] == (min[j] & 0x3F) | (((min[j + 4] >> 4) & 3) << 6)
      && q[8 + j] == (scale[j + 4] & 0x0F) | ((min[j + 4] & 0x0F) << 4)
  }

  lemma LaidOut(q: Bytes, scale: seq<bv8>, min: seq<bv8>)
    requires |q| == 12 && |scale| == |min| == 8 && Packed(q, scale, min)
    ensures Layout(q, scale, min)
  {
    forall j {:trigger scale[j]} | 0 <= j < 4
      ensures q[j] == WithTop(LowSix(scale[j]), scale[j + 4]) && q[4 + j] == WithTop(LowSix(min[j]), min[j + 4])
              && q[8 + j] == LowByte(scale[j + 4], min[j + 4])
    {
      LaidOutAt(q, scale, min, j);
    }
  }

  lemma LaidOutAt(q: Bytes, scale: seq<bv8>, min: seq<bv8>, j: nat)
    requires |q| == 12 && |scale| == |min| == 8 && Packed(q, scale, min) && j < 4
    ensures q[j] == WithTop(LowSix(scale[j]), scale[j + 4]) && q[4 + j] == WithTop(LowSix(min[j]), min[j + 4])
    ensures q[8 + j] == LowByte(scale[j + 4], min[j + 4])
  {
    hide WithTop, LowSix, LowByte;
    assert q[4 + j] == WithTop(LowSix(min[4 + j - 4]), min[4 + j]);
    assert q[8 + j] == LowByte(scale[8 + j - 4], min[8 + j - 4]);
  }

  /** packScalesMinsK4: every scale and every minimum is read back, whatever the other fifteen are. */
  method PackScalesMins(scale: seq<bv8>, min: seq<bv8>) returns (out: Bytes)
    requires |scale| == |min| == 8
    ensures |out| == 12 && Layout(out, scale, min)
    ensures forall j :: 0 <= j < 8 ==> Scale(out, j) == scale[j] & 0x3F && Min(out, j) == min[j] & 0x3F
  {
    hide LowByte, WithTop, LowSix, Scale, Min, Layout;
    var a := new bv8[12](_ => 0);
    PackLow(a, scale, min);
    PackTop(a, scale, min);
    out := a[..];
    LaidOut(out, scale, min);
    ReadAll(out, scale, min);
  }

  /** Bytes 0 to 7: six low bits; bytes 8 to 11: two low nibbles. */
  method PackLow(a: array<bv8>, scale: seq<bv8>, min: seq<bv8>)
    requires a.Length == 12 && |scale| == |min| == 8
    modifies a
    ensures forall i :: 0 <= i < 4 ==> a[i] == LowSix(scale[i])
    ensures forall i :: 4 <= i < 8 ==> a[i] == LowSix(min[i - 4])
    ensures forall i :: 8 <= i < 12 ==> a[i] == LowByte(scale[i - 4], min[i - 4])
  {
    hide LowByte, LowSix;
    for j := 0 to 4
      invariant forall i :: 0 <= i < j ==> a[i] == LowSix(scale[i])
      invariant forall i :: 4 <= i < j + 4 ==> a[i] == LowSix(min[i - 4])
    {
      a[j] := LowSix(scale[j]);
      a[j + 4] := LowSix(min[j]);
    }
    for j := 4 to 8
      invariant forall i :: 0 <= i < 4 ==> a[i] == LowSix(scale[i])
      invariant forall i :: 4 <= i < 8 ==> a[i] == LowSix(min[i - 4])
      invariant forall i :: 8 <= i < j + 4 ==> a[i] == LowByte(scale[i - 4], min[i - 4])
    {
      a[j + 4] := LowByte(scale[j], min[j]);
    }
  }

  /** The bytes once the top bits of sub-blocks 4 up to j are in. */
  ghost predicate TopsUpTo(q: Bytes, scale: seq<bv8>, min: seq<bv8>, j: nat)
    requires |q| == 12 && |scale| == |min| == 8
  {
    && (forall i {:trigger q[i]} :: 0 <= i < 4 ==> q[i] == if i + 4 < j then WithTop(LowSix(scale[i]), scale[i + 4]) else LowSix(scale[i]))
    && (forall i {:trigger q[i]} :: 4 <= i < 8 ==> q[i] == if i < j then WithTop(LowSix(min[i - 4]), min[i]) else LowSix(min[i - 4]))
    && (forall i {:trigger q[i]} :: 8 <= i < 12 ==> q[i] == LowByte(scale[i - 4], min[i - 4]))
  }

  lemma TopsNext(q: Bytes, scale: seq<bv8>, min: seq<bv8>, j: nat)
    requires |q| == 12 && |scale| == |min| == 8 && 4 <= j < 8 && TopsUpTo(q, scale, min, j)
    ensures TopsUpTo(q[j - 4 := WithTop(q[j - 4], scale[j])][j := WithTop(q[j], min[j])], scale, min, j + 1)
  {
    hide WithTop, LowSix, LowByte;
    var now := q[j - 4 := WithTop(q[j - 4], scale[j])][j := WithTop(q[j], min[j])];
    forall i | 0 <= i < 4
      ensures now[i] == if i + 4 < j + 1 then WithTop(LowSix(scale[i]), scale[i + 4]) else LowSix(scale[i])
    {
      assert q[i] == if i + 4 < j then WithTop(LowSix(scale[i]), scale[i + 4]) else LowSix(scale[i]);
      if i == j - 4 { assert now[i] == WithTop(q[i], scale[i + 4]); } else { assert now[i] == q[i]; }
    }
    forall i | 4 <= i < 8
      ensures now[i] == if i < j + 1 then WithTop(LowSix(min[i - 4]), min[i]) else LowSix(min[i - 4])
    {
      assert q[i] == if i < j then WithTop(LowSix(min[i - 4]), min[i]) else LowSix(min[i - 4]);
      if i == j { assert now[i] == WithTop(q[i], min[i]); } else { assert now[i] == q[i]; }
    }
  }

  /** The top two bits of bytes 0 to 7. */
  method PackTop(a: array<bv8>, scale: seq<bv8>, min: seq<bv8>)
    requires a.Length == 12 && |scale| == |min| == 8 && TopsUpTo(a[..], scale, min, 4)
    modifies a
    ensures Packed(a[..], scale, min)
  {
    hide WithTop, LowSix, LowByte, TopsUpTo;
    for j := 4 to 8
      invariant TopsUpTo(a[..], scale, min, j)
    {
      ghost var was := a[..];
      var s, m := WithTop(a[j - 4], scale[j]), WithTop(a[j], min[j]);
      a[j - 4] := s;
      a[j] := m;
      assert a[..] == was[j - 4 := s][j := m];
      TopsNext(was, scale, min, j);
    }
    AllTops(a[..], scale, min);
  }

  lemma AllTops(q: Bytes, scale: seq<bv8>, min: seq<bv8>)
    requires |q| == 12 && |scale| == |min| == 8 && TopsUpTo(q, scale, min, 8)
    ensures Packed(q, scale, min)
  {
    hide WithTop, LowSix, LowByte;
  }

  lemma ReadAll(q: Bytes, scale: seq<bv8>, min: seq<bv8>)
    requires |q| == 12 && |scale| == |min| == 8 && Packed(q, scale, min)
    ensures forall j :: 0 <= j < 8 ==> Scale(q, j) == scale[j] & 0x3F && Min(q, j) == min[j] & 0x3F
  {
    hide LowByte, WithTop, LowSix, Scale, Min;
    forall j | 0 <= j < 8 ensures Scale(q, j) == scale[j] & 0x3F && Min(q, j) == min[j] & 0x3F {
      if j < 4 {
        ReadLow(q, j, scale[j], scale[j + 4], min[j], min[j + 4]);
      } else {
        ReadHigh(q, j, scale[j - 4], scale[j], min[j - 4], min[j]);
      }
    }
  }

  lemma ReadLow(q: Bytes, j: nat, s: bv8, s4: bv8, m: bv8, m4: bv8)
    requires |q| == 12 && j < 4 && q[j] == WithTop(LowSix(s), s4) && q[j + 4] == WithTop(LowSix(m), m4)
    ensures Scale(q, j) == s & 0x3F && Min(q, j) == m & 0x3F
  {
    SixBits(s, s4);
    SixBits(m, m4);
  }

  lemma ReadHigh(q: Bytes, j: nat, s0: bv8, s: bv8, m0: bv8, m: bv8)
    requires |q| == 12 && 4 <= j < 8 && q[j + 4] == LowByte(s, m)
    requires q[j - 4] == WithTop(LowSix(s0), s) && q[j] == WithTop(LowSix(m0), m)
    ensures Scale(q, j) == s & 0x3F && Min(q, j) == m & 0x3F
  {
    HighSix(s0, s, m);
    HighSix(m0, m, s);
  }

  lemma SixBits(x: bv8, y: bv8)
    ensures ((x & 0x3F) | (((y >> 4) & 3) << 6)) & 0x3F == x & 0x3F
  {
  }

  /** The two high bits beside x, the four low bits in either nibble beside z. */
  lemma HighSix(x: bv8, y: bv8, z: bv8)
    ensures var top := (x & 0x3F) | (((y >> 4) & 3) << 6);
            && (((y & 0x0F) | ((z & 0x0F) << 4)) & 0x0F) | ((top >> 6) << 4) == y & 0x3F
            && (((z & 0x0F) | ((y & 0x0F) << 4)) >> 4) | ((top >> 6) << 4) == y & 0x3F
  {
  }
}

/** 256 six-bit quants in 128 low-nibble bytes and 64 two-bit bytes, then sixteen scale bytes and an FP16 factor. */
module Q6K {
  import opened Common
  import opened BlockStreams

  const BLOCK_BYTES: nat := 210

  datatype Block = Block(quants: seq<bv8>, scales: Bytes, d: Bytes)

  predicate Valid(b: Block) {
    |b.quants| == 256 && |b.scales| == 16 && |b.d| == 2 && forall e :: 0 <= e < 256 ==> b.quants[e] < 64
  }

  /** Two low nibbles in a byte. */
  function Nibbles(a: bv8, c: bv8): bv8 { (a & 0x0F) | ((c & 0x0F) << 4) }

  /** Four high pairs in a byte. */
  function Pairs(a: bv8, b: bv8, c: bv8, d: bv8): bv8 { (a >> 4) | ((b >> 4) << 2) | ((c >> 4) << 4) | ((d >> 4) << 6) }

  /** The quant of stripe s from its low byte and its high byte. */
  function Join(ql: bv8, qh: bv8, s: nat): bv8 {
    match s
    case 0 => (ql & 0x0F) | (((qh >> 0) & 3) << 4)
    case 1 => (ql & 0x0F) | (((qh >> 2) & 3) << 4)
    case 2 => (ql >> 4) | (((qh >> 4) & 3) << 4)
    case _ => (ql >> 4) | (((qh >> 6) & 3) << 4)
  }

  /** The decoder's value (before it subtracts 32) of column l, stripe s, half h. */
  function Quant(bytes: Bytes, h: nat, s: nat, l: nat): bv8
    requires |bytes| == BLOCK_BYTES && h < 2 && s < 4 && l < 32
  {
    Join(bytes[64 * h + (if s == 0 || s == 2 then l else l + 32)], bytes[128 + 32 * h + l], s)
  }

  function Unpack(bytes: Bytes): Block {
    if |bytes| != BLOCK_BYTES then Block([], [], [])
    else Block(seq(256, e requires 0 <= e < 256 => Quant(bytes, e / 128, e % 128 / 32, e % 32)), bytes[192..208], bytes[208..])
  }

  /** The three bytes that hold the four quants of a column. */
  ghost predicate Column(bytes: Bytes, L: seq<bv8>, h: nat, l: nat)
    requires |bytes| == BLOCK_BYTES && |L| == 256 && h < 2 && l < 32
  {
    var j := 128 * h + l;
    && bytes[64 * h + l] == Nibbles(L[j], L[j + 64])
    && bytes[64 * h + l + 32] == Nibbles(L[j + 32], L[j + 96])
    && bytes[128 + 32 * h + l] == Pairs(L[j], L[j + 32], L[j + 64], L[j + 96])
  }

  /** Storing one column leaves the others alone. */
  lemma OtherColumn(bytes: Bytes, L: seq<bv8>, h: nat, l: nat, x: bv8, y: bv8, z: bv8, g: nat, k: nat)
    requires |bytes| == BLOCK_BYTES && |L| == 256 && h < 2 && l < 32 && g < 2 && k < 32 && (g != h || k != l)
    requires Column(bytes, L, g, k)
    ensures Column(bytes[64 * h + l := x][64 * h + l + 32 := y][128 + 32 * h + l := z], L, g, k)
  {
  }

  /** The three bytes of column l in half h of the format. */
  predicate ColumnBytes(q: Bytes, L: seq<bv8>, h: nat, l: nat)
    requires |q| == BLOCK_BYTES && |L| == 256 && h < 2 && l < 32
  {
    var j := 128 * h + l;
    && q[64 * h + l] == (L[j] & 0x0F) | ((L[j + 64] & 0x0F) << 4)
    && q[64 * h + 32 + l] == (L[j + 32] & 0x0F) | ((L[j + 96] & 0x0F) << 4)
    && q[128 + 32 * h + l] == (L[j] >> 4) | ((L[j + 32] >> 4) << 2) | ((L[j + 64] >> 4) << 4) | ((L[j + 96] >> 4) << 6)
  }

  /** The 210 bytes of the format: low nibbles, high pairs, scales, factor. */
  ghost predicate Layout(q: Bytes, b: Block) {
    && |q| == BLOCK_BYTES && |b.quants| == 256
    && (forall h, l :: 0 <= h < 2 && 0 <= l < 32 ==> ColumnBytes(q, b.quants, h, l))
    && q[192..208] == b.scales && q[208..210] == b.d
  }

  lemma LaidOut(q: Bytes, L: seq<bv8>, h: nat, l: nat)
    requires |q| == BLOCK_BYTES && |L| == 256 && h < 2 && l < 32 && Column(q, L, h, l)
    ensures ColumnBytes(q, L, h, l)
  {
  }

  method PackBlock(b: Block) returns (out: Bytes)
    requires Valid(b)
    ensures Layout(out, b) && Unpack(out) == b
  {
    hide Nibbles, Pairs, Quant, Column, ColumnBytes;
    var L := b.quants;
    var a := new bv8[BLOCK_BYTES](_ => 0);
    for h := 0 to 2
      invariant forall g, k :: 0 <= g < h && 0 <= k < 32 ==> Column(a[..], L, g, k)
    {
      for l := 0 to 32
        invariant forall g, k :: 0 <= g < 2 && 0 <= k < 32 && (g < h || (g == h && k < l)) ==> Column(a[..], L, g, k)
      {
        StoreColumn(a, L, h, l);
      }
    }
    ghost var packed := a[..];
    for i := 0 to 16
      invariant a[..192] == packed[..192]
      invariant a[192..192 + i] == b.scales[..i]
    {
      a[192 + i] := b.scales[i];
    }
    a[208], a[209] := b.d[0], b.d[1];
    out := a[..];
    assert out[192..208] == b.scales && out[208..] == b.d;
    assert out[..192] == packed[..192];
    forall h, l | 0 <= h < 2 && 0 <= l < 32 ensures Column(out, L, h, l) {
      SameColumn(packed, out, L, h, l);
    }
    forall h, l | 0 <= h < 2 && 0 <= l < 32 ensures ColumnBytes(out, L, h, l) { LaidOut(out, L, h, l); }
    assert out[208..210] == out[208..];
    QuantsRead(out, L);
    assert Unpack(out).quants == L;
  }

  lemma SameColumn(bytes: Bytes, other: Bytes, L: seq<bv8>, h: nat, l: nat)
    requires |bytes| == |other| == BLOCK_BYTES && |L| == 256 && h < 2 && l < 32 && Column(bytes, L, h, l)
    requires bytes[..192] == other[..192]
    ensures Column(other, L, h, l)
  {
    var p, q, r := 64 * h + l, 64 * h + l + 32, 128 + 32 * h + l;
    assert bytes[..192][p] == other[..192][p] && bytes[..192][q] == other[..192][q] && bytes[..192][r] == other[..192][r];
  }

  /** The body of the packing loop. */
  method StoreColumn(a: array<bv8>, L: seq<bv8>, h: nat, l: nat)
    requires a.Length == BLOCK_BYTES && |L| == 256 && h < 2 && l < 32
    modifies a
    ensures Column(a[..], L, h, l)
    ensures forall g, k :: 0 <= g < 2 && 0 <= k < 32 && (g != h || k != l) && old(Column(a[..], L, g, k)) ==> Column(a[..], L, g, k)
  {
    hide Nibbles, Pairs;
    var j := 128 * h;
    var x, y := Nibbles(L[j + l], L[j + l + 64]), Nibbles(L[j + l + 32], L[j + l + 96]);
    var z := Pairs(L[j + l], L[j + l + 32], L[j + l + 64], L[j + l + 96]);
    a[64 * h + l] := x;
    a[64 * h + l + 32] := y;
    a[128 + 32 * h + l] := z;
    assert a[..] == old(a[..])[64 * h + l := x][64 * h + l + 32 := y][128 + 32 * h + l := z];
    forall g, k | 0 <= g < 2 && 0 <= k < 32 && (g != h || k != l) && old(Column(a[..], L, g, k))
      ensures Column(a[..], L, g, k)
    {
      OtherColumn(old(a[..]), L, h, l, x, y, z, g, k);
    }
  }

  lemma QuantsRead(bytes: Bytes, L: seq<bv8>)
    requires |bytes| == BLOCK_BYTES && |L| == 256
    requires forall e :: 0 <= e < 256 ==> L[e] < 64
    requires forall h, l :: 0 <= h < 2 && 0 <= l < 32 ==> Column(bytes, L, h, l)
    ensures forall e :: 0 <= e < 256 ==> Quant(bytes, e / 128, e % 128 / 32, e % 32) == L[e]
  {
    hide Column, Quant;
    forall e | 0 <= e < 256 ensures Quant(bytes, e / 128, e % 128 / 32, e % 32) == L[e] {
      var h, s, l := e / 128, e % 128 / 32, e % 32;
      assert e == 128 * h + 32 * s + l;
      ColumnRead(bytes, L, h, s, l);
    }
  }

  lemma ColumnRead(bytes: Bytes, L: seq<bv8>, h: nat, s: nat, l: nat)
    requires |bytes| == BLOCK_BYTES && |L| == 256 && h < 2 && s < 4 && l < 32 && Column(bytes, L, h, l)
    requires forall e :: 0 <= e < 256 ==> L[e] < 64
    ensures Quant(bytes, h, s, l) == L[128 * h + 32 * s + l]
  {
    hide Nibbles, Pairs, Join;
    var j := 128 * h + l;
    Fields(L[j], L[j + 32], L[j + 64], L[j + 96]);
  }

  lemma Fields(a: bv8, b: bv8, c: bv8, d: bv8)
    requires a < 64 && b < 64 && c < 64 && d < 64
    ensures Join(Nibbles(a, c), Pairs(a, b, c, d), 0) == a && Join(Nibbles(b, d), Pairs(a, b, c, d), 1) == b
    ensures Join(Nibbles(a, c), Pairs(a, b, c, d), 2) == c && Join(Nibbles(b, d), Pairs(a, b, c, d), 3) == d
  {
  }

  /** The four elements of a decoded column. */
  ghost predicate Decoded(y: seq<bv8>, bytes: Bytes, h: nat, l: nat)
    requires |bytes| == BLOCK_BYTES && |y| == 256 && h < 2 && l < 32
  {
    var j := 128 * h + l;
    && y[j] == Quant(bytes, h, 0, l) && y[j + 32] == Quant(bytes, h, 1, l)
    && y[j + 64] == Quant(bytes, h, 2, l) && y[j + 96] == Quant(bytes, h, 3, l)
  }

  /** The decoder's loops over one block. */
  method UnpackQuants(bytes: Bytes) returns (q: seq<bv8>)
    requires |bytes| == BLOCK_BYTES
    ensures q == Unpack(bytes).quants
  {
    hide Join, Quant, Decoded;
    var y := new bv8[256](_ => 0);
    for h := 0 to 2
      invariant forall g, k :: 0 <= g < h && 0 <= k < 32 ==> Decoded(y[..], bytes, g, k)
    {
      for l := 0 to 32
        invariant forall g, k :: 0 <= g < 2 && 0 <= k < 32 && (g < h || (g == h && k < l)) ==> Decoded(y[..], bytes, g, k)
      {
        ReadColumn(y, bytes, h, l);
      }
    }
    q := y[..];
    forall e | 0 <= e < 256 ensures q[e] == Quant(bytes, e / 128, e % 128 / 32, e % 32) {
      ElementRead(q, bytes, e / 128, e % 128 / 32, e % 32);
      assert e == 128 * (e / 128) + 32 * (e % 128 / 32) + e % 32;
    }
  }

  lemma ElementRead(y: seq<bv8>, bytes: Bytes, h: nat, s: nat, l: nat)
    requires |bytes| == BLOCK_BYTES && |y| == 256 && h < 2 && s < 4 && l < 32 && Decoded(y, bytes, h, l)
    ensures y[128 * h + 32 * s + l] == Quant(bytes, h, s, l)
  {
    hide Quant;
  }

  /** The body of the decoding loop. */
  method ReadColumn(y: array<bv8>, bytes: Bytes, h: nat, l: nat)
    requires |bytes| == BLOCK_BYTES && y.Length == 256 && h < 2 && l < 32
    modifies y
    ensures Decoded(y[..], bytes, h, l)
    ensures forall g, k :: 0 <= g < 2 && 0 <= k < 32 && (g != h || k != l) && old(Decoded(y[..], bytes, g, k)) ==>
              Decoded(y[..], bytes, g, k)
  {
    hide Join;
    ghost var was := y[..];
    var qh := bytes[128 + 32 * h + l];
    var q1, q2 := Join(bytes[64 * h + l], qh, 0), Join(bytes[64 * h + l + 32], qh, 1);
    var q3, q4 := Join(bytes[64 * h + l], qh, 2), Join(bytes[64 * h + l + 32], qh, 3);
    y[128 * h + l] := q1;
    y[128 * h + l + 32] := q2;
    y[128 * h + l + 64] := q3;
    y[128 * h + l + 96] := q4;
    assert y[..] == was[128 * h + l := q1][128 * h + l + 32 := q2][128 * h + l + 64 := q3][128 * h + l + 96 := q4];
    forall g, k | 0 <= g < 2 && 0 <= k < 32 && (g != h || k != l) && old(Decoded(y[..], bytes, g, k))
      ensures Decoded(y[..], bytes, g, k)
    {
      OtherDecoded(was, bytes, h, l, q1, q2, q3, q4, g, k);
    }
  }

  lemma OtherDecoded(y: seq<bv8>, bytes: Bytes, h: nat, l: nat, q1: bv8, q2: bv8, q3: bv8, q4: bv8, g: nat, k: nat)
    requires |bytes| == BLOCK_BYTES && |y| == 256 && h < 2 && l < 32 && g < 2 && k < 32 && (g != h || k != l)
    requires Decoded(y, bytes, g, k)
    ensures Decoded(y[128 * h + l := q1][128 * h + l + 32 := q2][128 * h + l + 64 := q3][128 * h + l + 96 := q4], bytes, g, k)
  {
    hide Quant;
  }

  /** Block n of a stream. */
  function BlockAt(bytes: Bytes, n: nat): Bytes
    requires BLOCK_BYTES * n + BLOCK_BYTES <= |bytes|
  {
    bytes[BLOCK_BYTES * n..BLOCK_BYTES * n + BLOCK_BYTES]
  }

  /** Any number of blocks, one after the other. */
  method PackStream(blocks: seq<Block>) returns (out: Bytes)
    requires forall i :: 0 <= i < |blocks| ==> Valid(blocks[i])
    ensures |out| == |blocks| * BLOCK_BYTES && UnpackAll(Unpack, BLOCK_BYTES, out) == blocks
    ensures forall n {:trigger blocks[n]} :: 0 <= n < |blocks| ==> Layout(BlockAt(out, n), blocks[n])
  {
    hide Unpack, Valid, Layout;
    out := [];
    for b := 0 to |blocks|
      invariant |out| == b * BLOCK_BYTES && UnpackAll(Unpack, BLOCK_BYTES, out) == blocks[..b]
      invariant forall n {:trigger blocks[n]} :: 0 <= n < b ==> Layout(BlockAt(out, n), blocks[n])
    {
      var bytes := PackBlock(blocks[b]);
      LaidOutSize(bytes, blocks[b]);
      UnpackAppend(Unpack, BLOCK_BYTES, b, out, bytes);
      forall n | 0 <= n < b ensures BlockAt(out + bytes, n) == BlockAt(out, n) { }
      assert BlockAt(out + bytes, b) == bytes;
      out := out + bytes;
      assert blocks[..b + 1] == blocks[..b] + [blocks[b]];
    }
    assert blocks[..|blocks|] == blocks;
  }

  lemma LaidOutSize(q: Bytes, b: Block)
    requires Layout(q, b)
    ensures |q| == BLOCK_BYTES
  {
  }
}
