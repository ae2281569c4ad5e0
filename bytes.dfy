/** Byte strings, fixed-size blocks and keys, and the byte-wise exclusive-or
    that key derivation applies to its two input blocks. */
module Bytes {

  type Bytes = seq<bv8>

  const BlockSize := 16

  /** One AES block: 16 bytes. */
  type Block = b: Bytes | |b| == BlockSize witness [0, 0, 0, 0, 0, 0, 0, 0, 0, 0, 0, 0, 0, 0, 0, 0]

  /** An AES-256 key: 32 bytes. */
  type Key = k: Bytes | |k| == 32 witness [0, 0, 0, 0, 0, 0, 0, 0, 0, 0, 0, 0, 0, 0, 0, 0, 0, 0, 0, 0, 0, 0, 0, 0, 0, 0, 0, 0, 0, 0, 0, 0]

  const ZeroBlock: Block := [0, 0, 0, 0, 0, 0, 0, 0, 0, 0, 0, 0, 0, 0, 0, 0]

  /** `a` with each byte XORed with the byte of `b` at the same index; only the
      first |a| bytes of `b` are used. */
  function Xor(a: Bytes, b: Bytes): (r: Bytes)
    requires |a| <= |b|
    ensures |r| == |a|
  {
    seq(|a|, i requires 0 <= i < |a| => a[i] ^ b[i])
  }

  /** XORing with the same bytes twice gives back the original. */
  lemma XorTwice(a: Bytes, b: Bytes)
    requires |a| <= |b|
    ensures Xor(Xor(a, b), b) == a
  {
    var x := Xor(a, b);
    forall i | 0 <= i < |a|
      ensures Xor(x, b)[i] == a[i]
    {
      assert x[i] == a[i] ^ b[i];
    }
  }

  /** XOR with a fixed byte is injective. */
  lemma ByteXorCancels(x: bv8, y: bv8, c: bv8)
    ensures (x ^ c == y ^ c) <==> x == y
  {
    assert (x ^ c) ^ c == x && (y ^ c) ^ c == y;
  }

  /** Two inputs XORed with the same bytes differ exactly where the inputs differ. */
  lemma XorKeepsDifferences(a: Bytes, a': Bytes, b: Bytes, i: nat)
    requires |a| == |a'| <= |b| && i < |a|
    ensures Xor(a, b)[i] == Xor(a', b)[i] <==> a[i] == a'[i]
  {
    ByteXorCancels(a[i], a'[i], b[i]);
  }

  /** XOR `other` into `destination` in place, byte by byte over the length of
      `destination`. `other` is a value and cannot change. */
  method XorInto(destination: array<bv8>, other: Bytes)
    requires destination.Length <= |other|
    modifies destination
    ensures destination[..] == Xor(old(destination[..]), other)
  {
    for i := 0 to destination.Length
      invariant forall j :: 0 <= j < i ==> destination[j] == old(destination[j]) ^ other[j]
      invariant forall j :: i <= j < destination.Length ==> destination[j] == old(destination[j])
    {
      destination[i] := destination[i] ^ other[i];
    }
  }
}
