/** Derivation of the subkey K1: the encrypted zero block, doubled in
    GF(2^128) as in the subkey generation of section 6.1 of NIST SP 800-38B. */
module Doubling {
  import opened Bytes

  /** The reduction constant for GF(2^128): x^7 + x^2 + x + 1. */
  const Reduction: bv8 := 0x87

  /** Byte j of `l` shifted left one bit, taking in the top bit of the next byte. */
  function ShiftedByte(l: Bytes, j: nat): bv8
    requires j < |l|
  {
    (l[j] << 1) | (if j + 1 < |l| then l[j + 1] >> 7 else 0)
  }

  /** The block shifted left one bit as a whole, the top bit of the first
      byte falling out. */
  function Shift(l: Bytes): (r: Bytes)
    ensures |r| == |l|
  {
    seq(|l|, j requires 0 <= j < |l| => ShiftedByte(l, j))
  }

  /** What is XORed into the last byte: 0x87 times the bit that fell out of
      the first byte, so 0x87 when it was set and 0 when it was clear. */
  function Carry(l: Bytes): bv8
    requires |l| >= 1
  {
    (l[0] >> 7) * Reduction
  }

  /** The doubled block: the shifted block with the carry folded into its last byte. */
  function Double(l: Bytes): (r: Bytes)
    requires |l| >= 1
    ensures |r| == |l|
  {
    var s := Shift(l);
    s[|l| - 1 := s[|l| - 1] ^ Carry(l)]
  }

  /** The doubling loop of the constructor: walks the bytes from last to
      first, carrying the top bit of each byte into the byte before it, then
      folds the bit shifted out of the first byte back into the last. */
  method DoubleInPlace(k1: array<bv8>)
    requires k1.Length >= 1
    modifies k1
    ensures k1[..] == Double(old(k1[..]))
  {
    ghost var l := k1[..];
    var msb: bv8 := 0;
    var i := k1.Length;
    while i > 0
      invariant 0 <= i <= k1.Length
      invariant forall j :: 0 <= j < i ==> k1[j] == l[j]
      invariant forall j :: i <= j < k1.Length ==> k1[j] == ShiftedByte(l, j)
      invariant msb == if i < k1.Length then l[i] >> 7 else 0
    {
      i := i - 1;
      var msbC := msb;
      msb := k1[i] >> 7;
      k1[i] := (k1[i] << 1) | msbC;
    }
    k1[k1.Length - 1] := k1[k1.Length - 1] ^ (msb * Reduction);
  }

  /** A block read as a big-endian 128-bit integer. */
  function BlockValue(b: Block): bv128 {
    (b[0] as bv128 << 120) | (b[1] as bv128 << 112) | (b[2] as bv128 << 104) | (b[3] as bv128 << 96) |
    (b[4] as bv128 << 88) | (b[5] as bv128 << 80) | (b[6] as bv128 << 72) | (b[7] as bv128 << 64) |
    (b[8] as bv128 << 56) | (b[9] as bv128 << 48) | (b[10] as bv128 << 40) | (b[11] as bv128 << 32) |
    (b[12] as bv128 << 24) | (b[13] as bv128 << 16) | (b[14] as bv128 << 8) | (b[15] as bv128)
  }

  /** Multiplication by x in GF(2^128) on a 128-bit integer: shift left one bit
      (2x mod 2^128) and XOR 0x87 when the top bit fell out. */
  function Gf128Double(x: bv128): bv128 {
    (x << 1) ^ (if x >> 127 == 1 then 0x87 else 0)
  }

  /** The inverse of Gf128Double: division by x. */
  function Gf128Halve(y: bv128): bv128 {
    if y & 1 == 1 then ((y ^ 0x87) >> 1) | (1 << 127) else y >> 1
  }

  // The bit-vector facts below are kept in separate small lemmas: the solver
  // handles each on its own quickly, but not all of them in one query.

  lemma ShiftValue(l: Block)
    ensures BlockValue(Shift(l)) == BlockValue(l) << 1
  {
  }

  lemma DoubleValue(l: Block)
    ensures BlockValue(Double(l)) == BlockValue(Shift(l)) ^ (Carry(l) as bv128)
  {
  }

  lemma CarryIsTopBit(l: Block)
    ensures Carry(l) as bv128 == -(BlockValue(l) >> 127) & 0x87
  {
    assert BlockValue(l) >> 127 == (l[0] >> 7) as bv128;
  }

  /** The byte-wise doubling is multiplication by x in GF(2^128) on the block
      read as a big-endian 128-bit integer. */
  lemma DoubleIsGf128Double(l: Block)
    ensures |Double(l)| == BlockSize
    ensures BlockValue(Double(l)) == Gf128Double(BlockValue(l))
  {
    ShiftValue(l);
    DoubleValue(l);
    CarryIsTopBit(l);
    DoubleAsMask(BlockValue(l));
  }

  lemma DoubleAsMask(x: bv128)
    ensures Gf128Double(x) == (x << 1) ^ (-(x >> 127) & 0x87)
  {
    if x >> 127 == 1 {
      assert -(x >> 127) & 0x87 == 0x87;
    } else {
      assert x >> 127 == 0;
    }
  }

  lemma HalveAsMask(y: bv128)
    ensures Gf128Halve(y) == ((y ^ (-(y & 1) & 0x87)) >> 1) | ((y & 1) << 127)
  {
    if y & 1 == 1 {
      assert -(y & 1) & 0x87 == 0x87;
    } else {
      assert y & 1 == 0;
    }
  }

  lemma MaskHalveUndoesMaskDouble(x: bv128, y: bv128)
    requires y == (x << 1) ^ (-(x >> 127) & 0x87)
    ensures ((y ^ (-(y & 1) & 0x87)) >> 1) | ((y & 1) << 127) == x
  {
  }

  /** Doubling loses nothing: halving undoes it, so distinct encrypted zero
      blocks give distinct subkeys. */
  lemma Gf128HalveDouble(x: bv128)
    ensures Gf128Halve(Gf128Double(x)) == x
  {
    DoubleAsMask(x);
    HalveAsMask(Gf128Double(x));
    MaskHalveUndoesMaskDouble(x, Gf128Double(x));
  }
}
