/** The K-quants that keep one bit of every quant in a mask byte shared by eight elements
    (include/qtx/quantize/quantizer.hpp): Q5_K and Q3_K. */
module MaskBits {
  import opened Common

  /** 1 << k in a byte; zero once the bit has left it. */
  function Mask(k: nat): bv8 {
    match k
    case 0 => 0x01 case 1 => 0x02 case 2 => 0x04 case 3 => 0x08
    case 4 => 0x10 case 5 => 0x20 case 6 => 0x40 case 7 => 0x80
    case _ => 0
  }

  function Set(x: bv8, k: nat): bv8 { x | Mask(k) }

  predicate Has(x: bv8, k: nat) { x & Mask(k) != 0 }

  lemma MaskNext(k: nat)
    ensures Mask(k) << 1 == Mask(k + 1) && Mask(k) << 2 == Mask(k + 2)
  {
  }

  lemma SetHas(x: bv8, n: nat, k: nat)
    requires n < 8 && k < 8
    ensures Has(Set(x, n), k) <==> k == n || Has(x, k)
  {
  }

  lemma ZeroHas(k: nat)
    ensures !Has(0, k)
  {
  }

  /** Bit k of x tells whether element 32 * k + l exceeds the limit, for the first n elements of the block. */
  ghost predicate Marks(x: bv8, L: seq<bv8>, limit: bv8, l: nat, n: nat)
    requires |L| == 256 && l < 32
  {
    forall k :: 0 <= k < 8 ==> (Has(x, k) <==> 32 * k + l < n && L[32 * k + l] > limit)
  }

  lemma MarksStart(L: seq<bv8>, limit: bv8, l: nat)
    requires |L| == 256 && l < 32
    ensures Marks(0, L, limit, l, 0)
  {
    forall k: nat ensures !Has(0, k) { ZeroHas(k); }
  }

  /** An element of another column. */
  lemma MarksSkip(x: bv8, L: seq<bv8>, limit: bv8, l: nat, n: nat)
    requires |L| == 256 && l < 32 && n % 32 != l && Marks(x, L, limit, l, n)
    ensures Marks(x, L, limit, l, n + 1)
  {
    hide Has;
  }

  /** One more element of column l. */
  lemma MarksNext(x: bv8, L: seq<bv8>, limit: bv8, l: nat, n: nat, n': nat, k: nat)
    requires |L| == 256 && l < 32 && k < 8 && Marks(x, L, limit, l, n)
    requires 32 * k + l - 32 < n <= 32 * k + l < n' <= 32 * k + l + 32
    ensures Marks(if L[32 * k + l] > limit then Set(x, k) else x, L, limit, l, n')
  {
    hide Has, Set;
    forall i | 0 <= i < 8 ensures Has(Set(x, k), i) <==> i == k || Has(x, i) { SetHas(x, k, i); }
  }

  /** A byte is its eight bits. */
  lemma EightBits(x: bv8, a: bv8, b: bv8, c: bv8, d: bv8, e: bv8, f: bv8, g: bv8, h: bv8)
    requires a < 2 && b < 2 && c < 2 && d < 2 && e < 2 && f < 2 && g < 2 && h < 2
    requires (Has(x, 0) <==> a == 1) && (Has(x, 1) <==> b == 1) && (Has(x, 2) <==> c == 1) && (Has(x, 3) <==> d == 1)
    requires (Has(x, 4) <==> e == 1) && (Has(x, 5) <==> f == 1) && (Has(x, 6) <==> g == 1) && (Has(x, 7) <==> h == 1)
    ensures x == a | (b << 1) | (c << 2) | (d << 3) | (e << 4) | (f << 5) | (g << 6) | (h << 7)
  {
  }
}

/** Four low bits of each quant in a nibble, the fifth in a mask. */
module Q5K {
  import opened Common
  import opened BlockStreams
  import opened MaskBits
  import K4 = ScalesK4

  const BLOCK_BYTES: nat := 176

  datatype Block = Block(quants: seq<bv8>, scales: seq<bv8>, mins: seq<bv8>, factors: Bytes)

  predicate Valid(b: Block) {
    |b.quants| == 256 && |b.scales| == |b.mins| == 8 && |b.factors| == 4
    && (forall e :: 0 <= e < 256 ==> b.quants[e] < 32)
    && forall j :: 0 <= j < 8 ==> b.scales[j] < 64 && b.mins[j] < 64
  }

  function Nibbles(a: bv8, b: bv8): bv8 { (a & 0x0F) | ((b & 0x0F) << 4) }

  /** The decoder's value from its low byte: even stripes in the low nibble. */
  function Join(ql: bv8, high: bool, even: bool): bv8 {
    (if even then ql & 0x0F else ql >> 4) + if high then 16 else 0
  }

  /** Element l of stripe k. */
  function Quant(bytes: Bytes, k: nat, l: nat): bv8
    requires |bytes| == BLOCK_BYTES && k < 8 && l < 32
  {
    Join(bytes[48 + 32 * (k / 2) + l], Has(bytes[16 + l], k), k % 2 == 0)
  }

  function Unpack(bytes: Bytes): Block {
    if |bytes| != BLOCK_BYTES then Block([], [], [], [])
    else
      Block(seq(256, e requires 0 <= e < 256 => Quant(bytes, e / 32, e % 32)),
            seq(8, j requires 0 <= j < 8 => K4.Scale(bytes[4..16], j)),
            seq(8, j requires 0 <= j < 8 => K4.Min(bytes[4..16], j)), bytes[..4])
  }

  /** Group g of 64 elements: the low nibbles of its two stripes share a byte. */
  ghost predicate Low(bytes: Bytes, L: seq<bv8>, g: nat, l: nat)
    requires |bytes| == BLOCK_BYTES && |L| == 256 && g < 4 && l < 32
  {
    bytes[48 + 32 * g + l] == Nibbles(L[64 * g + l], L[64 * g + 32 + l])
  }

  /** The mask byte of column l after n elements of the block. */
  ghost predicate High(bytes: Bytes, L: seq<bv8>, l: nat, n: nat)
    requires |bytes| == BLOCK_BYTES && |L| == 256 && l < 32
  {
    Marks(bytes[16 + l], L, 15, l, n)
  }

  /** The mask byte of column l in the format: the fifth bit of element 32 * k + l at bit k. */
  predicate MaskByte(q: Bytes, L: seq<bv8>, l: nat)
    requires |q| == BLOCK_BYTES && |L| == 256 && l < 32
  {
    q[16 + l] == (L[l] >> 4) | ((L[l + 32] >> 4) << 1) | ((L[l + 64] >> 4) << 2) | ((L[l + 96] >> 4) << 3)
               | ((L[l + 128] >> 4) << 4) | ((L[l + 160] >> 4) << 5) | ((L[l + 192] >> 4) << 6) | ((L[l + 224] >> 4) << 7)
  }

  /** The low nibbles of column l in group g of 64 elements. */
  predicate NibbleByte(q: Bytes, L: seq<bv8>, g: nat, l: nat)
    requires |q| == BLOCK_BYTES && |L| == 256 && g < 4 && l < 32
  {
    q[48 + 32 * g + l] == (L[64 * g + l] & 0x0F) | ((L[64 * g + 32 + l] & 0x0F) << 4)
  }

  /** The 176 bytes of the format: two factors, scales and minimums, mask, low nibbles. */
  ghost predicate Layout(q: Bytes, b: Block) {
    && |q| == BLOCK_BYTES && |b.quants| == 256 && |b.scales| == |b.mins| == 8
    && q[..4] == b.factors && K4.Layout(q[4..16], b.scales, b.mins)
    && (forall l :: 0 <= l < 32 ==> MaskByte(q, b.quants, l))
    && (forall g, l :: 0 <= g < 4 && 0 <= l < 32 ==> NibbleByte(q, b.quants, g, l))
  }

  lemma MaskLaidOut(q: Bytes, L: seq<bv8>, l: nat)
    requires |q| == BLOCK_BYTES && |L| == 256 && l < 32 && High(q, L, l, 256) && forall e :: 0 <= e < 256 ==> L[e] < 32
    ensures MaskByte(q, L, l)
  {
    hide Has;
    forall k | 0 <= k < 8 ensures L[l + 32 * k] >> 4 == if Has(q[16 + l], k) then 1 else 0 { FifthBit(L[32 * k + l]); }
    assert l + 32 * 0 == l && l + 32 * 1 == l + 32 && l + 32 * 2 == l + 64 && l + 32 * 3 == l + 96;
    assert l + 32 * 4 == l + 128 && l + 32 * 5 == l + 160 && l + 32 * 6 == l + 192 && l + 32 * 7 == l + 224;
    EightBits(q[16 + l], L[l] >> 4, L[l + 32] >> 4, L[l + 64] >> 4, L[l + 96] >> 4,
              L[l + 128] >> 4, L[l + 160] >> 4, L[l + 192] >> 4, L[l + 224] >> 4);
  }

  lemma FifthBit(x: bv8)
    requires x < 32
    ensures x >> 4 == if x > 15 then 1 else 0
  {
  }

  lemma NibblesLaidOut(q: Bytes, L: seq<bv8>, g: nat, l: nat)
    requires |q| == BLOCK_BYTES && |L| == 256 && g < 4 && l < 32 && Low(q, L, g, l)
    ensures NibbleByte(q, L, g, l)
  {
  }

  method PackBlock(b: Block) returns (out: Bytes)
    requires Valid(b)
    ensures Layout(out, b) && Unpack(out) == b
  {
    hide Low, High, Quant, K4.Scale, K4.Min, K4.Layout, MaskByte, NibbleByte;
    var L := b.quants;
    var packed := K4.PackScalesMins(b.scales, b.mins);
    var a := new bv8[BLOCK_BYTES](i requires 0 <= i < BLOCK_BYTES =>
      if i < 4 then b.factors[i] else if i < 16 then packed[i - 4] else 0);
    forall l | 0 <= l < 32 ensures High(a[..], L, l, 0) { StartColumn(a[..], L, l); }
    var m1, m2 := Mask(0), Mask(1);
    for g := 0 to 4
      invariant m1 == Mask(2 * g) && m2 == Mask(2 * g + 1)
      invariant a[..16] == b.factors + packed
      invariant forall h, l :: 0 <= h < g && 0 <= l < 32 ==> Low(a[..], L, h, l)
      invariant forall l :: 0 <= l < 32 ==> High(a[..], L, l, 64 * g)
    {
      ghost var next := 64 * g + 64;
      for j := 0 to 32
        invariant a[..16] == b.factors + packed
        invariant forall h, l :: 0 <= h < 4 && 0 <= l < 32 && (h < g || (h == g && l < j)) ==> Low(a[..], L, h, l)
        invariant forall l :: 0 <= l < j ==> High(a[..], L, l, next)
        invariant forall l :: j <= l < 32 ==> High(a[..], L, l, 64 * g)
      {
        StoreColumn(a, L, g, j, m1, m2);
      }
      MaskNext(2 * g);
      MaskNext(2 * g + 1);
      m1, m2 := m1 << 2, m2 << 2;
    }
    out := a[..];
    assert out[4..16] == packed && out[..4] == b.factors;
    forall l | 0 <= l < 32 ensures MaskByte(out, L, l) { MaskLaidOut(out, L, l); }
    forall g, l | 0 <= g < 4 && 0 <= l < 32 ensures NibbleByte(out, L, g, l) { NibblesLaidOut(out, L, g, l); }
    QuantsRead(out, L);
    assert Unpack(out).quants == L;
    assert forall j :: 0 <= j < 8 ==> b.scales[j] & 0x3F == b.scales[j] && b.mins[j] & 0x3F == b.mins[j] by {
      forall j | 0 <= j < 8 ensures b.scales[j] & 0x3F == b.scales[j] && b.mins[j] & 0x3F == b.mins[j] {
        SixBits(b.scales[j]);
        SixBits(b.mins[j]);
      }
    }
    assert Unpack(out).scales == b.scales && Unpack(out).mins == b.mins;
  }

  lemma SixBits(x: bv8)
    requires x < 64
    ensures x & 0x3F == x
  {
  }

  lemma StartColumn(bytes: Bytes, L: seq<bv8>, l: nat)
    requires |bytes| == BLOCK_BYTES && |L| == 256 && l < 32 && bytes[16 + l] == 0
    ensures High(bytes, L, l, 0)
  {
    MarksStart(L, 15, l);
  }

  lemma LowNibbles(x: bv8, y: bv8)
    requires x < 32 && y < 32
    ensures (if x > 15 then x - 16 else x) | ((if y > 15 then y - 16 else y) << 4) == Nibbles(x, y)
  {
  }

  /** The body of the packing loop. */
  method StoreColumn(a: array<bv8>, L: seq<bv8>, g: nat, j: nat, m1: bv8, m2: bv8)
    requires a.Length == BLOCK_BYTES && |L| == 256 && g < 4 && j < 32 && m1 == Mask(2 * g) && m2 == Mask(2 * g + 1)
    requires forall e :: 0 <= e < 256 ==> L[e] < 32
    requires High(a[..], L, j, 64 * g)
    modifies a
    ensures a[..16] == old(a[..16]) && Low(a[..], L, g, j) && High(a[..], L, j, 64 * g + 64)
    ensures forall h, l :: 0 <= h < 4 && 0 <= l < 32 && (h != g || l != j) && old(Low(a[..], L, h, l)) ==> Low(a[..], L, h, l)
    ensures forall l, n: nat :: 0 <= l < 32 && l != j && old(High(a[..], L, l, n)) ==> High(a[..], L, l, n)
  {
    hide Nibbles, Mask, Set, Low, High;
    ghost var was := a[..];
    var x, y := L[64 * g + j], L[64 * g + j + 32];
    var l1 := MoveHighBit(a, 16 + j, x, m1, 2 * g);
    var l2 := MoveHighBit(a, 16 + j, y, m2, 2 * g + 1);
    a[48 + 32 * g + j] := JoinNibbles(l1, l2, x, y);
    ghost var mask := a[16 + j];
    assert a[..] == was[16 + j := mask][48 + 32 * g + j := Nibbles(x, y)];
    StoredColumn(was, L, g, j, mask);
  }

  /** If the quant exceeds 15, move its fifth bit to the mask byte. */
  method MoveHighBit(a: array<bv8>, i: nat, x: bv8, m: bv8, ghost k: nat) returns (low: bv8)
    requires i < a.Length && m == Mask(k)
    modifies a
    ensures low == if x > 15 then x - 16 else x
    ensures a[..] == old(a[..])[i := if x > 15 then Set(old(a[i]), k) else old(a[i])]
  {
    low := x;
    if x > 15 {
      low := x - 16;
      a[i] := a[i] | m;
    }
  }

  function JoinNibbles(l1: bv8, l2: bv8, ghost x: bv8, ghost y: bv8): (r: bv8)
    requires x < 32 && y < 32 && l1 == (if x > 15 then x - 16 else x) && l2 == (if y > 15 then y - 16 else y)
    ensures r == Nibbles(x, y)
  {
    LowNibbles(x, y);
    l1 | (l2 << 4)
  }

  lemma StoredColumn(was: Bytes, L: seq<bv8>, g: nat, j: nat, x: bv8)
    requires |was| == BLOCK_BYTES && |L| == 256 && g < 4 && j < 32 && High(was, L, j, 64 * g)
    requires var y := if L[64 * g + j] > 15 then Set(was[16 + j], 2 * g) else was[16 + j];
             x == if L[64 * g + j + 32] > 15 then Set(y, 2 * g + 1) else y
    ensures var now := was[16 + j := x][48 + 32 * g + j := Nibbles(L[64 * g + j], L[64 * g + j + 32])];
            && now[..16] == was[..16] && Low(now, L, g, j) && High(now, L, j, 64 * g + 64)
            && (forall h, l :: 0 <= h < 4 && 0 <= l < 32 && (h != g || l != j) && Low(was, L, h, l) ==> Low(now, L, h, l))
            && (forall l, n: nat :: 0 <= l < 32 && l != j && High(was, L, l, n) ==> High(now, L, l, n))
  {
    hide Nibbles, Marks, Set;
    MarksNext(was[16 + j], L, 15, j, 64 * g, 64 * g + 32, 2 * g);
    var y := if L[64 * g + j] > 15 then Set(was[16 + j], 2 * g) else was[16 + j];
    MarksNext(y, L, 15, j, 64 * g + 32, 64 * g + 64, 2 * g + 1);
  }

  lemma QuantsRead(bytes: Bytes, L: seq<bv8>)
    requires |bytes| == BLOCK_BYTES && |L| == 256 && forall e :: 0 <= e < 256 ==> L[e] < 32
    requires forall g, l :: 0 <= g < 4 && 0 <= l < 32 ==> Low(bytes, L, g, l)
    requires forall l :: 0 <= l < 32 ==> High(bytes, L, l, 256)
    ensures forall e :: 0 <= e < 256 ==> Quant(bytes, e / 32, e % 32) == L[e]
  {
    hide Low, High, Quant;
    forall e | 0 <= e < 256 ensures Quant(bytes, e / 32, e % 32) == L[e] {
      ElementRead(bytes, L, e / 32, e % 32);
      assert e == 32 * (e / 32) + e % 32;
    }
  }

  lemma ElementRead(bytes: Bytes, L: seq<bv8>, k: nat, l: nat)
    requires |bytes| == BLOCK_BYTES && |L| == 256 && forall e :: 0 <= e < 256 ==> L[e] < 32
    requires k < 8 && l < 32 && Low(bytes, L, k / 2, l) && High(bytes, L, l, 256)
    ensures Quant(bytes, k, l) == L[32 * k + l]
  {
    hide Nibbles, Join, Has;
    var g := k / 2;
    Fields(L[64 * g + l], L[64 * g + 32 + l]);
  }

  lemma Fields(a: bv8, b: bv8)
    requires a < 32 && b < 32
    ensures Join(Nibbles(a, b), a > 15, true) == a && Join(Nibbles(a, b), b > 15, false) == b
  {
  }

  /** Stripe k of the decoded elements. */
  ghost predicate Stripe(y: seq<bv8>, bytes: Bytes, k: nat)
    requires |bytes| == BLOCK_BYTES && |y| == 256 && k < 8
  {
    forall i :: 32 * k <= i < 32 * k + 32 ==> y[i] == Quant(bytes, k, i - 32 * k)
  }

  /** The decoder's loops over one block. */
  method UnpackQuants(bytes: Bytes) returns (q: seq<bv8>)
    requires |bytes| == BLOCK_BYTES
    ensures q == Unpack(bytes).quants
  {
    hide Mask, Quant, Stripe;
    var y := new bv8[256](_ => 0);
    var u1, u2 := Mask(0), Mask(1);
    for g := 0 to 4
      invariant u1 == Mask(2 * g) && u2 == Mask(2 * g + 1)
      invariant forall k :: 0 <= k < 2 * g ==> Stripe(y[..], bytes, k)
    {
      ReadStripe(y, bytes, 2 * g, u1);
      ReadStripe(y, bytes, 2 * g + 1, u2);
      MaskNext(2 * g);
      MaskNext(2 * g + 1);
      u1, u2 := u1 << 2, u2 << 2;
    }
    q := y[..];
    forall e | 0 <= e < 256 ensures q[e] == Quant(bytes, e / 32, e % 32) {
      StripeRead(q, bytes, e / 32, e % 32);
      assert e == 32 * (e / 32) + e % 32;
    }
  }

  lemma StripeRead(y: seq<bv8>, bytes: Bytes, k: nat, l: nat)
    requires |bytes| == BLOCK_BYTES && |y| == 256 && k < 8 && l < 32 && Stripe(y, bytes, k)
    ensures y[32 * k + l] == Quant(bytes, k, l)
  {
    hide Quant;
  }

  lemma OtherStripe(y: seq<bv8>, y': seq<bv8>, bytes: Bytes, k: nat, n: nat)
    requires |bytes| == BLOCK_BYTES && |y| == |y'| == 256 && k < 8 && n < 8 && k != n && Stripe(y, bytes, k)
    requires forall i :: 0 <= i < 256 && !(32 * n <= i < 32 * n + 32) ==> y'[i] == y[i]
    ensures Stripe(y', bytes, k)
  {
    hide Quant;
  }

  /** The decoder's value of a low byte and a mask byte. */
  function ReadElement(q: bv8, qh: bv8, u: bv8, even: bool): bv8 {
    (if even then q & 0x0F else q >> 4) + if qh & u != 0 then 16 else 0
  }

  lemma ReadsQuant(bytes: Bytes, k: nat, l: nat)
    requires |bytes| == BLOCK_BYTES && k < 8 && l < 32
    ensures ReadElement(bytes[48 + 32 * (k / 2) + l], bytes[16 + l], Mask(k), k % 2 == 0) == Quant(bytes, k, l)
  {
    hide Mask;
  }

  /** One stripe of 32 elements. */
  method ReadStripe(y: array<bv8>, bytes: Bytes, k: nat, u: bv8)
    requires |bytes| == BLOCK_BYTES && y.Length == 256 && k < 8 && u == Mask(k)
    modifies y
    ensures Stripe(y[..], bytes, k)
    ensures forall n :: 0 <= n < 8 && n != k && old(Stripe(y[..], bytes, n)) ==> Stripe(y[..], bytes, n)
  {
    hide Mask, Quant, ReadElement;
    for l := 0 to 32
      invariant forall i :: 32 * k <= i < 32 * k + l ==> y[i] == Quant(bytes, k, i - 32 * k)
      invariant forall i :: 0 <= i < 256 && !(32 * k <= i < 32 * k + 32) ==> y[i] == old(y[i])
    {
      ReadsQuant(bytes, k, l);
      y[32 * k + l] := ReadElement(bytes[48 + 32 * (k / 2) + l], bytes[16 + l], u, k % 2 == 0);
    }
    hide Stripe;
    assert Stripe(y[..], bytes, k) by { StripeDone(y[..], bytes, k); }
    forall n | 0 <= n < 8 && n != k && old(Stripe(y[..], bytes, n)) ensures Stripe(y[..], bytes, n) {
      OtherStripe(old(y[..]), y[..], bytes, n, k);
    }
  }

  lemma StripeDone(y: seq<bv8>, bytes: Bytes, k: nat)
    requires |bytes| == BLOCK_BYTES && |y| == 256 && k < 8
    requires forall i :: 32 * k <= i < 32 * k + 32 ==> y[i] == Quant(bytes, k, i - 32 * k)
    ensures Stripe(y, bytes, k)
  {
  }

  /** Block n of a stream. */
  function BlockAt(bytes: Bytes, n: nat): Bytes
    requires BLOCK_BYTES * n + BLOCK_BYTES <= |bytes|
  {
    bytes[BLOCK_BYTES * n..BLOCK_BYTES * n + BLOCK_BYTES]
  }

  /** Any number of blocks, one after the other. */
  method PackStream(blocks: seq<Block>) returns (out: Bytes)
    requires forall i :: 0 <= i < |blocks| ==> Valid(blocks[i])
    ensures |out| == |blocks| * BLOCK_BYTES && UnpackAll(Unpack, BLOCK_BYTES, out) == blocks
    ensures forall n {:trigger blocks[n]} :: 0 <= n < |blocks| ==> Layout(BlockAt(out, n), blocks[n])
  {
    hide Unpack, Valid, Layout;
    out := [];
    for b := 0 to |blocks|
      invariant |out| == b * BLOCK_BYTES && UnpackAll(Unpack, BLOCK_BYTES, out) == blocks[..b]
      invariant forall n {:trigger blocks[n]} :: 0 <= n < b ==> Layout(BlockAt(out, n), blocks[n])
    {
      var bytes := PackBlock(blocks[b]);
      LaidOutSize(bytes, blocks[b]);
      UnpackAppend(Unpack, BLOCK_BYTES, b, out, bytes);
      forall n | 0 <= n < b ensures BlockAt(out + bytes, n) == BlockAt(out, n) { }
      assert BlockAt(out + bytes, b) == bytes;
      out := out + bytes;
      assert blocks[..b + 1] == blocks[..b] + [blocks[b]];
    }
    assert blocks[..|blocks|] == blocks;
  }

  lemma LaidOutSize(q: Bytes, b: Block)
    requires Layout(q, b)
    ensures |q| == BLOCK_BYTES
  {
  }
}

/** Two low bits of each quant in a byte of four, the third in a mask; sixteen 6-bit scales in twelve bytes. */
module Q3K {
  import opened Common
  import opened BlockStreams
  import opened MaskBits

  const BLOCK_BYTES: nat := 110

  datatype Block = Block(quants: seq<bv8>, scales: seq<bv8>, factor: Bytes)

  predicate Valid(b: Block) {
    |b.quants| == 256 && |b.scales| == 16 && |b.factor| == 2
    && (forall e :: 0 <= e < 256 ==> b.quants[e] < 8)
    && forall j :: 0 <= j < 16 ==> b.scales[j] < 64
  }

  /* ---- scales ---- */

  /** The decoder's expression for scale j, before it subtracts 32. */
  function Scale(sc: Bytes, j: nat): bv8
    requires |sc| == 12 && j < 16
  {
    var lo := if j < 8 then sc[j] & 0x0F else sc[j - 8] >> 4;
    lo | (Pair(sc[8 + j % 4], j / 4) << 4)
  }

  /** (x >> 2 * i) & 3 */
  function Pair(x: bv8, i: nat): bv8 {
    match i case 0 => x & 3 case 1 => (x >> 2) & 3 case 2 => (x >> 4) & 3 case _ => (x >> 6) & 3
  }

  /** hi << 2 * i */
  function Shifted(hi: bv8, i: nat): bv8 {
    match i case 0 => hi case 1 => hi << 2 case 2 => hi << 4 case _ => hi << 6
  }

  function LowNibbles(lo: bv8, hi: bv8): bv8 { (lo & 0x0F) | ((hi & 0x0F) << 4) }
  function FourPairs(a: bv8, b: bv8, c: bv8, d: bv8): bv8 { a | (b << 2) | (c << 4) | (d << 6) }

  /** Scale j while only the first n have been packed: later ones still count as zero. */
  function Before(s: seq<bv8>, j: nat, n: nat): bv8
    requires j < |s|
  {
    if j < n then s[j] else 0
  }

  ghost predicate Scales(sc: Bytes, s: seq<bv8>, n: nat)
    requires |sc| == 12 && |s| == 16
  {
    && (forall b {:trigger sc[b]} :: 0 <= b < 8 ==> sc[b] == LowNibbles(Before(s, b, n), Before(s, b + 8, n)))
    && (forall c {:trigger sc[8 + c]} :: 0 <= c < 4 ==> sc[8 + c] == FourPairs(Top(s, c, n), Top(s, c + 4, n), Top(s, c + 8, n), Top(s, c + 12, n)))
  }

  function Or(x: bv8, y: bv8): bv8 { x | y }
  function High(x: bv8): bv8 { x >> 4 }

  /** The packing of one more scale, as the loop writes it. */
  function Nibble(v: bv8, high: bool): bv8 { if high then (v & 0x0F) << 4 else v & 0x0F }

  /** The twelve bytes of the format: the low nibbles of scales j and j + 8 in byte j, the top pairs of scales
      c, c + 4, c + 8 and c + 12 in byte 8 + c. */
  ghost predicate ScaleLayout(q: Bytes, s: seq<bv8>)
    requires |q| == 12 && |s| == 16
  {
    && (forall j {:trigger q[j]} :: 0 <= j < 8 ==> q[j] == (s[j] & 0x0F) | ((s[j + 8] & 0x0F) << 4))
    && (forall c {:trigger q[8 + c]} :: 0 <= c < 4 ==>
          q[8 + c] == (s[c] >> 4) | ((s[c + 4] >> 4) << 2) | ((s[c + 8] >> 4) << 4) | ((s[c + 12] >> 4) << 6))
  }

  lemma ScalesLaidOut(q: Bytes, s: seq<bv8>)
    requires |q| == 12 && |s| == 16 && Scales(q, s, 16)
    ensures ScaleLayout(q, s)
  {
    forall j | 0 <= j < 8 ensures q[j] == LowNibbles(s[j], s[j + 8]) { }
    forall c {:trigger q[8 + c]} | 0 <= c < 4
      ensures q[8 + c] == FourPairs(High(s[c]), High(s[c + 4]), High(s[c + 8]), High(s[c + 12]))
    {
      PairsLaidOut(q, s, c);
    }
  }

  lemma PairsLaidOut(q: Bytes, s: seq<bv8>, c: nat)
    requires |q| == 12 && |s| == 16 && Scales(q, s, 16) && c < 4
    ensures q[8 + c] == FourPairs(High(s[c]), High(s[c + 4]), High(s[c + 8]), High(s[c + 12]))
  {
    hide FourPairs, High, LowNibbles, Top;
    TopIs(s, c, 16); TopIs(s, c + 4, 16); TopIs(s, c + 8, 16); TopIs(s, c + 12, 16);
  }

  method PackScales(s: seq<bv8>) returns (out: Bytes)
    requires |s| == 16 && forall j :: 0 <= j < 16 ==> s[j] < 64
    ensures |out| == 12 && ScaleLayout(out, s) && forall j :: 0 <= j < 16 ==> Scale(out, j) == s[j]
  {
    hide Scale, Scales, ScaleLayout;
    var sc := new bv8[12](_ => 0);
    ScalesStart(sc[..], s);
    for j := 0 to 16
      invariant Scales(sc[..], s, j)
    {
      StoreScale(sc, s, j);
    }
    out := sc[..];
    ScalesLaidOut(out, s);
    forall j | 0 <= j < 16 ensures Scale(out, j) == s[j] { ScaleRead(out, s, j, j % 4, j / 4); }
  }

  method StoreScale(sc: array<bv8>, s: seq<bv8>, j: nat)
    requires sc.Length == 12 && |s| == 16 && j < 16 && Scales(sc[..], s, j)
    modifies sc
    ensures Scales(sc[..], s, j + 1)
  {
    hide LowNibbles, FourPairs, Shifted, Nibble, Scales, Or, High;
    ghost var was := sc[..];
    var b, c, t := if j < 8 then j else j - 8, j % 4, j / 4;
    var lo, hi := Nibble(s[j], j >= 8), Shifted(High(s[j]), t);
    sc[b] := Or(sc[b], lo);
    sc[8 + c] := Or(sc[8 + c], hi);
    assert sc[..] == was[b := Or(was[b], lo)][8 + c := Or(was[8 + c], hi)];
    assert j == c + 4 * t;
    ScalesNext(was, s, j, b, c, t);
  }

  lemma ScalesStart(sc: Bytes, s: seq<bv8>)
    requires |sc| == 12 && |s| == 16 && forall i :: 0 <= i < 12 ==> sc[i] == 0
    ensures Scales(sc, s, 0)
  {
  }

  lemma NibbleNext(x: bv8, y: bv8)
    ensures Or(LowNibbles(0, 0), Nibble(x, false)) == LowNibbles(x, 0)
    ensures Or(LowNibbles(y, 0), Nibble(x, true)) == LowNibbles(y, x)
  {
  }

  lemma FirstPair(a: bv8)
    ensures Or(FourPairs(0, 0, 0, 0), Shifted(a, 0)) == FourPairs(a, 0, 0, 0)
  {
  }

  lemma SecondPair(a: bv8, b: bv8)
    ensures Or(FourPairs(a, 0, 0, 0), Shifted(b, 1)) == FourPairs(a, b, 0, 0)
  {
  }

  lemma ThirdPair(a: bv8, b: bv8, c: bv8)
    ensures Or(FourPairs(a, b, 0, 0), Shifted(c, 2)) == FourPairs(a, b, c, 0)
  {
  }

  lemma FourthPair(a: bv8, b: bv8, c: bv8, d: bv8)
    ensures Or(FourPairs(a, b, c, 0), Shifted(d, 3)) == FourPairs(a, b, c, d)
  {
  }

  /** The two high bits of scale j while only the first n have been packed. */
  function Top(s: seq<bv8>, j: nat, n: nat): bv8
    requires j < |s|
  {
    High(Before(s, j, n))
  }

  lemma TopIs(s: seq<bv8>, j: nat, n: nat)
    requires j < |s|
    ensures Top(s, j, n) == if j < n then High(s[j]) else 0
  {
  }

  lemma ScalesNext(was: Bytes, s: seq<bv8>, j: nat, b: nat, c: nat, t: nat)
    requires |was| == 12 && |s| == 16 && j < 16 && Scales(was, s, j)
    requires b == (if j < 8 then j else j - 8) && c < 4 && t < 4 && j == c + 4 * t
    ensures Scales(was[b := Or(was[b], Nibble(s[j], j >= 8))][8 + c := Or(was[8 + c], Shifted(High(s[j]), t))], s, j + 1)
  {
    hide LowNibbles, FourPairs, Shifted, Nibble, Top, Before, Or, High;
    forall i | 0 <= i < 8
      ensures (if i == b then Or(was[i], Nibble(s[j], j >= 8)) else was[i]) == LowNibbles(Before(s, i, j + 1), Before(s, i + 8, j + 1))
    {
      NibbleByte(was[i], s, i, j);
    }
    forall i {:trigger was[8 + i]} | 0 <= i < 4
      ensures (if i == c then Or(was[8 + i], Shifted(High(s[j]), t)) else was[8 + i])
           == FourPairs(Top(s, i, j + 1), Top(s, i + 4, j + 1), Top(s, i + 8, j + 1), Top(s, i + 12, j + 1))
    {
      PairByte(was[8 + i], s, i, j, c, t);
    }
  }

  lemma NibbleByte(x: bv8, s: seq<bv8>, i: nat, j: nat)
    requires |s| == 16 && i < 8 && j < 16 && x == LowNibbles(Before(s, i, j), Before(s, i + 8, j))
    ensures (if i == (if j < 8 then j else j - 8) then Or(x, Nibble(s[j], j >= 8)) else x)
         == LowNibbles(Before(s, i, j + 1), Before(s, i + 8, j + 1))
  {
    hide LowNibbles, Nibble, Or;
    NibbleNext(s[j], s[i]);
  }

  lemma PairByte(x: bv8, s: seq<bv8>, i: nat, j: nat, c: nat, t: nat)
    requires |s| == 16 && i < 4 && c < 4 && t < 4 && j == c + 4 * t
    requires x == FourPairs(Top(s, i, j), Top(s, i + 4, j), Top(s, i + 8, j), Top(s, i + 12, j))
    ensures (if i == c then Or(x, Shifted(High(s[j]), t)) else x)
         == FourPairs(Top(s, i, j + 1), Top(s, i + 4, j + 1), Top(s, i + 8, j + 1), Top(s, i + 12, j + 1))
  {
    hide FourPairs, Shifted, Top, Or, High;
    TopIs(s, i, j); TopIs(s, i + 4, j); TopIs(s, i + 8, j); TopIs(s, i + 12, j);
    TopIs(s, i, j + 1); TopIs(s, i + 4, j + 1); TopIs(s, i + 8, j + 1); TopIs(s, i + 12, j + 1);
    FirstPair(High(s[i]));
    SecondPair(High(s[i]), High(s[i + 4]));
    ThirdPair(High(s[i]), High(s[i + 4]), High(s[i + 8]));
    FourthPair(High(s[i]), High(s[i + 4]), High(s[i + 8]), High(s[i + 12]));
  }

  lemma ScaleRead(sc: Bytes, s: seq<bv8>, j: nat, c: nat, t: nat)
    requires |sc| == 12 && |s| == 16 && j < 16 && Scales(sc, s, 16) && forall i :: 0 <= i < 16 ==> s[i] < 64
    requires c == j % 4 && t == j / 4
    ensures Scale(sc, j) == s[j]
  {
    hide LowNibbles, FourPairs, Pair, High, Top;
    assert j == c + 4 * t;
    forall i: nat | i < 16 ensures Top(s, i, 16) == High(s[i]) < 4 { TopIs(s, i, 16); SplitSix(s[i]); }
    LowRead(sc, s, j);
    PairRead(Top(s, c, 16), Top(s, c + 4, 16), Top(s, c + 8, 16), Top(s, c + 12, 16), t);
    assert Pair(sc[8 + c], t) == High(s[j]);
    SplitSix(s[j]);
  }

  lemma LowRead(sc: Bytes, s: seq<bv8>, j: nat)
    requires |sc| == 12 && |s| == 16 && j < 16 && Scales(sc, s, 16)
    ensures (if j < 8 then sc[j] & 0x0F else sc[j - 8] >> 4) == s[j] & 0x0F
  {
    if j < 8 {
      assert sc[j] == LowNibbles(s[j], s[j + 8]);
      NibbleRead(s[j], s[j + 8]);
    } else {
      assert sc[j - 8] == LowNibbles(s[j - 8], s[j]);
      NibbleRead(s[j - 8], s[j]);
    }
  }

  lemma NibbleRead(x: bv8, y: bv8)
    ensures LowNibbles(x, y) & 0x0F == x & 0x0F && LowNibbles(x, y) >> 4 == y & 0x0F
  {
  }

  lemma PairRead(a: bv8, b: bv8, c: bv8, d: bv8, t: nat)
    requires a < 4 && b < 4 && c < 4 && d < 4 && t < 4
    ensures Pair(FourPairs(a, b, c, d), t) == if t == 0 then a else if t == 1 then b else if t == 2 then c else d
  {
  }

  lemma SplitSix(x: bv8)
    requires x < 64
    ensures High(x) < 4 && (x & 0x0F) | (High(x) << 4) == x
  {
  }

  /* ---- quants ---- */

  /** The low pair of a quant plus four if its mask bit is set (the decoder then subtracts four). */
  function Join(pair: bv8, high: bool): bv8 { pair + if high then 4 else 0 }

  /** Element l of stripe k. */
  function Quant(bytes: Bytes, k: nat, l: nat): bv8
    requires |bytes| == BLOCK_BYTES && k < 8 && l < 32
  {
    Join(Pair(bytes[32 + 32 * (k / 4) + l], k % 4), Has(bytes[l], k))
  }

  function Unpack(bytes: Bytes): Block {
    if |bytes| != BLOCK_BYTES then Block([], [], [])
    else
      Block(seq(256, e requires 0 <= e < 256 => Quant(bytes, e / 32, e % 32)),
            seq(16, j requires 0 <= j < 16 => Scale(bytes[96..108], j)), bytes[108..])
  }

  /** What the mask loop leaves of a quant. */
  function Rest(x: bv8): bv8 { if x > 3 then x - 4 else x }

  /** Half h of the block: four remainders share a byte. */
  ghost predicate Low(bytes: Bytes, L: seq<bv8>, h: nat, l: nat)
    requires |bytes| == BLOCK_BYTES && |L| == 256 && h < 2 && l < 32
  {
    var j := 128 * h + l;
    bytes[32 + 32 * h + l] == FourPairs(Rest(L[j]), Rest(L[j + 32]), Rest(L[j + 64]), Rest(L[j + 96]))
  }

  /** The mask byte of column l in the format: the third bit of element 32 * k + l at bit k. */
  predicate MaskByte(q: Bytes, L: seq<bv8>, l: nat)
    requires |q| == BLOCK_BYTES && |L| == 256 && l < 32
  {
    q[l] == (L[l] >> 2) | ((L[l + 32] >> 2) << 1) | ((L[l + 64] >> 2) << 2) | ((L[l + 96] >> 2) << 3)
          | ((L[l + 128] >> 2) << 4) | ((L[l + 160] >> 2) << 5) | ((L[l + 192] >> 2) << 6) | ((L[l + 224] >> 2) << 7)
  }

  /** The four low pairs of column l in half h. */
  predicate PairByte4(q: Bytes, L: seq<bv8>, h: nat, l: nat)
    requires |q| == BLOCK_BYTES && |L| == 256 && h < 2 && l < 32
  {
    var j := 128 * h + l;
    q[32 + 32 * h + l] == (L[j] & 3) | ((L[j + 32] & 3) << 2) | ((L[j + 64] & 3) << 4) | ((L[j + 96] & 3) << 6)
  }

  /** The 110 bytes of the format: mask, low pairs, scales, factor. */
  ghost predicate Layout(q: Bytes, b: Block) {
    && |q| == BLOCK_BYTES && |b.quants| == 256 && |b.scales| == 16
    && (forall l :: 0 <= l < 32 ==> MaskByte(q, b.quants, l))
    && (forall h, l :: 0 <= h < 2 && 0 <= l < 32 ==> PairByte4(q, b.quants, h, l))
    && ScaleLayout(q[96..108], b.scales) && q[108..110] == b.factor
  }

  lemma MaskLaidOut(q: Bytes, L: seq<bv8>, l: nat)
    requires |q| == BLOCK_BYTES && |L| == 256 && l < 32 && Marks(q[l], L, 3, l, 256) && forall e :: 0 <= e < 256 ==> L[e] < 8
    ensures MaskByte(q, L, l)
  {
    hide Has;
    forall k | 0 <= k < 8 ensures L[l + 32 * k] >> 2 == if Has(q[l], k) then 1 else 0 { ThirdBit(L[32 * k + l]); }
    assert l + 32 * 0 == l && l + 32 * 1 == l + 32 && l + 32 * 2 == l + 64 && l + 32 * 3 == l + 96;
    assert l + 32 * 4 == l + 128 && l + 32 * 5 == l + 160 && l + 32 * 6 == l + 192 && l + 32 * 7 == l + 224;
    EightBits(q[l], L[l] >> 2, L[l + 32] >> 2, L[l + 64] >> 2, L[l + 96] >> 2,
              L[l + 128] >> 2, L[l + 160] >> 2, L[l + 192] >> 2, L[l + 224] >> 2);
  }

  lemma ThirdBit(x: bv8)
    requires x < 8
    ensures (x >> 2 == if x > 3 then 1 else 0) && Rest(x) == x & 3
  {
  }

  lemma PairsLaid(q: Bytes, L: seq<bv8>, h: nat, l: nat)
    requires |q| == BLOCK_BYTES && |L| == 256 && h < 2 && l < 32 && Low(q, L, h, l) && forall e :: 0 <= e < 256 ==> L[e] < 8
    ensures PairByte4(q, L, h, l)
  {
    hide Rest;
    var j := 128 * h + l;
    ThirdBit(L[j]); ThirdBit(L[j + 32]); ThirdBit(L[j + 64]); ThirdBit(L[j + 96]);
  }

  method PackBlock(b: Block) returns (out: Bytes)
    requires Valid(b)
    ensures Layout(out, b) && Unpack(out) == b
  {
    hide Low, Quant, Scale, Rest, Marks, MaskByte, PairByte4, ScaleLayout;
    var scales := PackScales(b.scales);
    var L := b.quants;
    var a := new bv8[BLOCK_BYTES](i requires 0 <= i < BLOCK_BYTES =>
      if i < 96 then 0 else if i < 108 then scales[i - 96] else b.factor[i - 108]);
    var rest := new bv8[256](i requires 0 <= i < 256 => L[i]);
    assert a[96..] == scales + b.factor;
    MarkHigh(a, rest, L);
    ghost var masks := a[..32];
    ghost var rests := rest[..];
    for h := 0 to 2
      invariant a[..32] == masks && a[96..] == scales + b.factor && rest[..] == rests
      invariant forall g, k :: 0 <= g < h && 0 <= k < 32 ==> Low(a[..], L, g, k)
    {
      for l := 0 to 32
        invariant a[..32] == masks && a[96..] == scales + b.factor && rest[..] == rests
        invariant forall g, k :: 0 <= g < 2 && 0 <= k < 32 && (g < h || (g == h && k < l)) ==> Low(a[..], L, g, k)
      {
        forall e | 0 <= e < 256 ensures rest[e] == Rest(L[e]) { assert rest[e] == rests[e]; }
        StoreLow(a, rest, L, h, l);
      }
    }
    out := a[..];
    assert out[..32] == masks && out[96..108] == out[96..][..12] == scales && out[108..] == out[96..][12..] == b.factor;
    forall l | 0 <= l < 32 ensures Marks(out[l], L, 3, l, 256) { assert out[l] == masks[l]; }
    forall l | 0 <= l < 32 ensures MaskByte(out, L, l) { MaskLaidOut(out, L, l); }
    forall h, l | 0 <= h < 2 && 0 <= l < 32 ensures PairByte4(out, L, h, l) { PairsLaid(out, L, h, l); }
    assert out[108..110] == out[108..];
    QuantsRead(out, L);
    assert Unpack(out).quants == L;
    assert Unpack(out).scales == b.scales;
  }

  /** The mask loop: bit k of byte l marks element 32 * k + l, whose excess over three is taken off. */
  method MarkHigh(a: array<bv8>, rest: array<bv8>, L: seq<bv8>)
    requires a.Length == BLOCK_BYTES && rest.Length == 256 && rest[..] == L && a != rest
    requires forall l :: 0 <= l < 32 ==> a[l] == 0
    modifies a, rest
    ensures forall l :: 0 <= l < 32 ==> Marks(a[..32][l], L, 3, l, 256)
    ensures forall e :: 0 <= e < 256 ==> rest[e] == Rest(L[e])
    ensures a[96..] == old(a[96..])
  {
    hide Marks, Rest, Mask;
    forall l | 0 <= l < 32 ensures Marks(a[l], L, 3, l, 0) { MarksStart(L, 3, l); }
    var m, hm := 0, Mask(0);
    for j := 0 to 256
      invariant m == j % 32 && hm == Mask(j / 32)
      invariant forall l :: 0 <= l < 32 ==> Marks(a[l], L, 3, l, j)
      invariant forall e :: 0 <= e < j ==> rest[e] == Rest(L[e])
      invariant forall e :: j <= e < 256 ==> rest[e] == L[e]
      invariant a[96..] == old(a[96..])
    {
      forall l | 0 <= l < 32 && l != m ensures Marks(a[l], L, 3, l, j + 1) { MarksSkip(a[l], L, 3, l, j); }
      MarkElement(a, rest, L, j, m, hm, j / 32);
      m := m + 1;
      if m == 32 {
        m := 0;
        MaskNext(j / 32);
        hm := hm << 1;
      }
    }
  }

  method MarkElement(a: array<bv8>, rest: array<bv8>, L: seq<bv8>, j: nat, m: nat, hm: bv8, ghost k: nat)
    requires a.Length == BLOCK_BYTES && rest.Length == 256 && |L| == 256 && a != rest
    requires j == 32 * k + m && m < 32 && k < 8 && hm == Mask(k) && rest[j] == L[j] && Marks(a[m], L, 3, m, j)
    modifies a, rest
    ensures Marks(a[m], L, 3, m, j + 1) && rest[j] == Rest(L[j])
    ensures forall i :: 0 <= i < BLOCK_BYTES && i != m ==> a[i] == old(a[i])
    ensures forall i :: 0 <= i < 256 && i != j ==> rest[i] == old(rest[i])
  {
    hide Marks, Mask, Set, Rest, Has;
    ghost var x := a[m];
    var q := rest[j];
    MarksNext(x, L, 3, m, j, j + 1, k);
    var low := TakeHighBit(a, m, q, hm, k);
    rest[j] := low;
  }

  /** If the quant exceeds three, move its third bit to the mask byte. */
  method TakeHighBit(a: array<bv8>, i: nat, x: bv8, hm: bv8, ghost k: nat) returns (low: bv8)
    requires i < a.Length && hm == Mask(k)
    modifies a
    ensures low == Rest(x)
    ensures a[i] == if x > 3 then Set(old(a[i]), k) else old(a[i])
    ensures forall j :: 0 <= j < a.Length && j != i ==> a[j] == old(a[j])
  {
    hide Mask;
    low := x;
    if x > 3 {
      a[i] := a[i] | hm;
      low := x - 4;
    }
  }

  /** The body of the packing loop. */
  method StoreLow(a: array<bv8>, rest: array<bv8>, L: seq<bv8>, h: nat, l: nat)
    requires a.Length == BLOCK_BYTES && rest.Length == |L| == 256 && a != rest && h < 2 && l < 32
    requires forall e :: 0 <= e < 256 ==> rest[e] == Rest(L[e])
    modifies a
    ensures a[..32] == old(a[..32]) && a[96..] == old(a[96..]) && Low(a[..], L, h, l)
    ensures forall g, k :: 0 <= g < 2 && 0 <= k < 32 && (g != h || k != l) && old(Low(a[..], L, g, k)) ==> Low(a[..], L, g, k)
  {
    hide FourPairs, Rest;
    var j := 128 * h + l;
    a[32 + 32 * h + l] := FourPairs(rest[j], rest[j + 32], rest[j + 64], rest[j + 96]);
  }

  lemma QuantsRead(bytes: Bytes, L: seq<bv8>)
    requires |bytes| == BLOCK_BYTES && |L| == 256 && forall e :: 0 <= e < 256 ==> L[e] < 8
    requires forall h, l :: 0 <= h < 2 && 0 <= l < 32 ==> Low(bytes, L, h, l)
    requires forall l :: 0 <= l < 32 ==> Marks(bytes[l], L, 3, l, 256)
    ensures forall e :: 0 <= e < 256 ==> Quant(bytes, e / 32, e % 32) == L[e]
  {
    hide Low, Marks, Quant;
    forall e | 0 <= e < 256 ensures Quant(bytes, e / 32, e % 32) == L[e] {
      ElementRead(bytes, L, e / 32, e % 32);
      assert e == 32 * (e / 32) + e % 32;
    }
  }

  lemma ElementRead(bytes: Bytes, L: seq<bv8>, k: nat, l: nat)
    requires |bytes| == BLOCK_BYTES && |L| == 256 && forall e :: 0 <= e < 256 ==> L[e] < 8
    requires k < 8 && l < 32 && Low(bytes, L, k / 4, l) && Marks(bytes[l], L, 3, l, 256)
    ensures Quant(bytes, k, l) == L[32 * k + l]
  {
    hide FourPairs, Pair, Join, Has, Rest, Low;
    var h, t := k / 4, k % 4;
    assert k == 4 * h + t;
    PairOfElement(bytes, L, h, t, l);
    assert 128 * h + l + 32 * t == 32 * k + l;
    RestFits(L[32 * k + l]);
  }

  lemma PairOfElement(bytes: Bytes, L: seq<bv8>, h: nat, t: nat, l: nat)
    requires |bytes| == BLOCK_BYTES && |L| == 256 && forall e :: 0 <= e < 256 ==> L[e] < 8
    requires h < 2 && t < 4 && l < 32 && Low(bytes, L, h, l)
    ensures Pair(bytes[32 + 32 * h + l], t) == Rest(L[128 * h + l + 32 * t])
  {
    hide FourPairs, Pair, Rest, Join;
    var j := 128 * h + l;
    RestFits(L[j]); RestFits(L[j + 32]); RestFits(L[j + 64]); RestFits(L[j + 96]);
    PairRead(Rest(L[j]), Rest(L[j + 32]), Rest(L[j + 64]), Rest(L[j + 96]), t);
  }

  lemma RestFits(x: bv8)
    requires x < 8
    ensures Rest(x) < 4 && Join(Rest(x), x > 3) == x
  {
  }

  /** Stripe k of the decoded elements. */
  ghost predicate Stripe(y: seq<bv8>, bytes: Bytes, k: nat)
    requires |bytes| == BLOCK_BYTES && |y| == 256 && k < 8
  {
    forall i :: 32 * k <= i < 32 * k + 32 ==> y[i] == Quant(bytes, k, i - 32 * k)
  }

  /** The decoder's loops over one block: the mask bit moves up one stripe at a time. */
  method UnpackQuants(bytes: Bytes) returns (q: seq<bv8>)
    requires |bytes| == BLOCK_BYTES
    ensures q == Unpack(bytes).quants
  {
    hide Mask, Quant, Stripe;
    var y := new bv8[256](_ => 0);
    var mBit := Mask(0);
    for k := 0 to 8
      invariant mBit == Mask(k)
      invariant forall i :: 0 <= i < k ==> Stripe(y[..], bytes, i)
    {
      ReadStripe(y, bytes, k, mBit);
      MaskNext(k);
      mBit := mBit << 1;
    }
    q := y[..];
    forall e | 0 <= e < 256 ensures q[e] == Quant(bytes, e / 32, e % 32) {
      StripeRead(q, bytes, e / 32, e % 32);
      assert e == 32 * (e / 32) + e % 32;
    }
  }

  lemma StripeRead(y: seq<bv8>, bytes: Bytes, k: nat, l: nat)
    requires |bytes| == BLOCK_BYTES && |y| == 256 && k < 8 && l < 32 && Stripe(y, bytes, k)
    ensures y[32 * k + l] == Quant(bytes, k, l)
  {
    hide Quant;
  }

  lemma OtherStripe(y: seq<bv8>, y': seq<bv8>, bytes: Bytes, k: nat, n: nat)
    requires |bytes| == BLOCK_BYTES && |y| == |y'| == 256 && k < 8 && n < 8 && k != n && Stripe(y, bytes, k)
    requires forall i :: 0 <= i < 256 && !(32 * n <= i < 32 * n + 32) ==> y'[i] == y[i]
    ensures Stripe(y', bytes, k)
  {
    hide Quant;
  }

  /** The decoder's value of a low byte (the pair at `i`) and a mask byte. */
  function ReadElement(q: bv8, hm: bv8, i: nat, mBit: bv8): bv8 { Pair(q, i) + if hm & mBit != 0 then 4 else 0 }

  lemma ReadsQuant(bytes: Bytes, k: nat, l: nat)
    requires |bytes| == BLOCK_BYTES && k < 8 && l < 32
    ensures ReadElement(bytes[32 + 32 * (k / 4) + l], bytes[l], k % 4, Mask(k)) == Quant(bytes, k, l)
  {
    hide Mask, Pair;
  }

  method ReadStripe(y: array<bv8>, bytes: Bytes, k: nat, mBit: bv8)
    requires |bytes| == BLOCK_BYTES && y.Length == 256 && k < 8 && mBit == Mask(k)
    modifies y
    ensures Stripe(y[..], bytes, k)
    ensures forall n :: 0 <= n < 8 && n != k && old(Stripe(y[..], bytes, n)) ==> Stripe(y[..], bytes, n)
  {
    hide Mask, Quant, ReadElement;
    for l := 0 to 32
      invariant forall i :: 32 * k <= i < 32 * k + l ==> y[i] == Quant(bytes, k, i - 32 * k)
      invariant forall i :: 0 <= i < 256 && !(32 * k <= i < 32 * k + 32) ==> y[i] == old(y[i])
    {
      ReadsQuant(bytes, k, l);
      y[32 * k + l] := ReadElement(bytes[32 + 32 * (k / 4) + l], bytes[l], k % 4, mBit);
    }
    forall n | 0 <= n < 8 && n != k && old(Stripe(y[..], bytes, n)) ensures Stripe(y[..], bytes, n) {
      OtherStripe(old(y[..]), y[..], bytes, n, k);
    }
  }

  /** Block n of a stream. */
  function BlockAt(bytes: Bytes, n: nat): Bytes
    requires BLOCK_BYTES * n + BLOCK_BYTES <= |bytes|
  {
    bytes[BLOCK_BYTES * n..BLOCK_BYTES * n + BLOCK_BYTES]
  }

  /** Any number of blocks, one after the other. */
  method PackStream(blocks: seq<Block>) returns (out: Bytes)
    requires forall i :: 0 <= i < |blocks| ==> Valid(blocks[i])
    ensures |out| == |blocks| * BLOCK_BYTES && UnpackAll(Unpack, BLOCK_BYTES, out) == blocks
    ensures forall n {:trigger blocks[n]} :: 0 <= n < |blocks| ==> Layout(BlockAt(out, n), blocks[n])
  {
    hide Unpack, Valid, Layout;
    out := [];
    for b := 0 to |blocks|
      invariant |out| == b * BLOCK_BYTES && UnpackAll(Unpack, BLOCK_BYTES, out) == blocks[..b]
      invariant forall n {:trigger blocks[n]} :: 0 <= n < b ==> Layout(BlockAt(out, n), blocks[n])
    {
      var bytes := PackBlock(blocks[b]);
      LaidOutSize(bytes, blocks[b]);
      UnpackAppend(Unpack, BLOCK_BYTES, b, out, bytes);
      forall n | 0 <= n < b ensures BlockAt(out + bytes, n) == BlockAt(out, n) { }
      assert BlockAt(out + bytes, b) == bytes;
      out := out + bytes;
      assert blocks[..b + 1] == blocks[..b] + [blocks[b]];
    }
    assert blocks[..|blocks|] == blocks;
  }

  lemma LaidOutSize(q: Bytes, b: Block)
    requires Layout(q, b)
    ensures |q| == BLOCK_BYTES
  {
  }
}
