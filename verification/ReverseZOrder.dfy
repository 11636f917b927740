/** The 32-bit Morton codes of the reverse mode. */
module ReverseZOrder {

  function Part1By1(v: bv32): bv32 {
    var x0 := v & 0x0000ffff;
    var x1 := (x0 ^ (x0 << 8)) & 0x00ff00ff;
    var x2 := (x1 ^ (x1 << 4)) & 0x0f0f0f0f;
    var x3 := (x2 ^ (x2 << 2)) & 0x33333333;
    (x3 ^ (x3 << 1)) & 0x55555555
  }

  function Merge(odd: bv32, even: bv32): bv32 {
    (odd << 1) + even
  }

  function EncodeMorton(x: bv32, y: bv32): bv32 {
    Merge(Part1By1(y), Part1By1(x))
  }

  function ReverseMorton(index: bv32): bv32 {
    var i1 := ((index >> 1) & 0x55555555) | ((index & 0x55555555) << 1);
    var i2 := ((i1 >> 2) & 0x33333333) | ((i1 & 0x33333333) << 2);
    var i3 := ((i2 >> 4) & 0x0f0f0f0f) | ((i2 & 0x0f0f0f0f) << 4);
    var i4 := ((i3 >> 8) & 0x00ff00ff) | ((i3 & 0x00ff00ff) << 8);
    ((i4 >> 16) & 0xffff) | ((i4 & 0xffff) << 16)
  }

  predicate Bit(x: bv32, i: bv32)
    requires i < 32
  {
    (x >> i) & 1 == 1
  }

  /** Divisible by 2^l. */
  predicate Coarse(x: bv32, l: bv32)
    requires l <= 16
  {
    x & ((1 << l) - 1) == 0
  }

  lemma ReverseInvolution(x: bv32)
    ensures ReverseMorton(ReverseMorton(x)) == x
  {
  }

  lemma ReverseReverses(x: bv32, i: bv32)
    requires i < 32
    ensures Bit(ReverseMorton(x), i) <==> Bit(x, 31 - i)
  {
  }

  predicate EvenBitsOnly(x: bv32) {
    x & 0xaaaaaaaa == 0
  }

  /** Bits 2i and 2i + 1. */
  predicate EvenBit(x: bv32, i: bv32)
    requires i < 16
  {
    Bit(x, 2 * i)
  }

  predicate OddBit(x: bv32, i: bv32)
    requires i < 16
  {
    Bit(x, 2 * i + 1)
  }

  /** Even bits of the code come from x, odd bits from y. */
  lemma EncodeInterleaves(x: bv32, y: bv32, i: bv32)
    requires i < 16
    ensures EvenBit(EncodeMorton(x, y), i) <==> Bit(x, i)
    ensures OddBit(EncodeMorton(x, y), i) <==> Bit(y, i)
  {
    hide Part1By1, Bit, EvenBit, OddBit, Merge, EvenBitsOnly;
    SpreadBits(x, i);
    SpreadBits(y, i);
    MergeBits(Part1By1(y), Part1By1(x), i);
  }

  lemma SpreadBits(x: bv32, i: bv32)
    requires i < 16
    ensures EvenBitsOnly(Part1By1(x)) && (EvenBit(Part1By1(x), i) <==> Bit(x, i))
  {
  }

  lemma MergeBits(p: bv32, q: bv32, i: bv32)
    requires i < 16 && EvenBitsOnly(p) && EvenBitsOnly(q)
    ensures EvenBit(Merge(p, q), i) <==> EvenBit(q, i)
    ensures OddBit(Merge(p, q), i) <==> EvenBit(p, i)
  {
  }

  /** Take the even bits together again. */
  function Compact1By1(v: bv32): bv32 {
    var x0 := v & 0x55555555;
    var x1 := (x0 ^ (x0 >> 1)) & 0x33333333;
    var x2 := (x1 ^ (x1 >> 2)) & 0x0f0f0f0f;
    var x3 := (x2 ^ (x2 >> 4)) & 0x00ff00ff;
    (x3 ^ (x3 >> 8)) & 0x0000ffff
  }

  lemma EncodeRoundTrip(x: bv32, y: bv32)
    ensures Compact1By1(EncodeMorton(x, y)) == x & 0xffff
    ensures Compact1By1(EncodeMorton(x, y) >> 1) == y & 0xffff
  {
  }

  /** Cells with 16-bit coordinates have distinct reversed codes. */
  lemma CodesDistinct(x: bv32, y: bv32, u: bv32, v: bv32)
    requires x & 0xffff == x && y & 0xffff == y && u & 0xffff == u && v & 0xffff == v
    requires ReverseMorton(EncodeMorton(x, y)) == ReverseMorton(EncodeMorton(u, v))
    ensures x == u && y == v
  {
    hide *;
    ReverseInvolution(EncodeMorton(x, y));
    ReverseInvolution(EncodeMorton(u, v));
    EncodeRoundTrip(x, y);
    EncodeRoundTrip(u, v);
  }

  /** A reversed code is small exactly when both coordinates are divisible by a large power of two. */
  lemma CoarseCells(x: bv32, y: bv32, l: bv32)
    requires l <= 16
    ensures Coarse(x, l) && Coarse(y, l) <==>
            l == 0 || ReverseMorton(EncodeMorton(x, y)) < (1 << (32 - 2 * l))
  {
  }
}
