/** The two primitives XAES-256-GCM borrows from the underlying cryptographic
    library: the AES-256 block cipher (used without chaining or padding) and
    AES-256-GCM as defined in NIST SP 800-38D. Neither is implemented here:
    they are values of function type that a cipher instance is given, and the
    properties the construction relies on are stated as predicates over them. */
module Primitives {
  import opened Bytes
  import opened Errors

  /** Size of the GCM authentication tag in bytes. */
  const TagSize := 16

  /** What a GCM encryption produces: the encrypted body and the tag. */
  datatype Sealed = Sealed(body: Bytes, tag: Bytes)

  datatype Primitives = Primitives(
    /** AES-256 encryption of one block under a key. */
    aes: (Key, Block) -> Block,
    /** AES-256-GCM encryption: key, IV, associated data, plaintext. */
    gcmSeal: (Key, Bytes, Bytes, Bytes) -> Sealed,
    /** AES-256-GCM decryption: key, IV, associated data, body, tag; None when
        the tag does not verify. */
    gcmOpen: (Key, Bytes, Bytes, Bytes, Bytes) -> Option<Bytes>)

  /** Electronic-codebook encryption without padding: every 16-byte block of
      `data` is encrypted on its own, in order. This is what `update` on the
      keyed ECB context returns for whole blocks. */
  function Ecb(aes: (Key, Block) -> Block, key: Key, data: Bytes): (r: Bytes)
    requires |data| % BlockSize == 0
    ensures |r| == |data|
    decreases |data|
  {
    if |data| == 0 then [] else aes(key, data[..BlockSize]) + Ecb(aes, key, data[BlockSize..])
  }

  /** ECB output block j is the block cipher applied to input block j. */
  lemma {:induction false} EcbBlockwise(aes: (Key, Block) -> Block, key: Key, data: Bytes, j: nat)
    requires |data| % BlockSize == 0 && j < |data| / BlockSize
    ensures Ecb(aes, key, data)[j * BlockSize..(j + 1) * BlockSize]
         == aes(key, data[j * BlockSize..(j + 1) * BlockSize])
    decreases j
  {
    var rest := data[BlockSize..];
    if j > 0 {
      EcbBlockwise(aes, key, rest, j - 1);
      var r := Ecb(aes, key, rest);
      assert Ecb(aes, key, data) == aes(key, data[..BlockSize]) + r;
      assert Ecb(aes, key, data)[j * BlockSize..(j + 1) * BlockSize]
          == r[(j - 1) * BlockSize..j * BlockSize];
      assert data[j * BlockSize..(j + 1) * BlockSize] == rest[(j - 1) * BlockSize..j * BlockSize];
    }
  }

  /** ECB of two concatenated blocks is the two block encryptions concatenated. */
  lemma EcbTwoBlocks(aes: (Key, Block) -> Block, key: Key, m1: Block, m2: Block)
    ensures Ecb(aes, key, m1 + m2) == aes(key, m1) + aes(key, m2)
  {
    var data := m1 + m2;
    EcbBlockwise(aes, key, data, 0);
    EcbBlockwise(aes, key, data, 1);
    assert data[..16] == m1 && data[16..32] == m2;
    var r := Ecb(aes, key, data);
    assert r == r[..16] + r[16..32];
  }

  /** ECB of a single block is one block-cipher call. */
  lemma EcbOneBlock(aes: (Key, Block) -> Block, key: Key, m: Block)
    ensures Ecb(aes, key, m) == aes(key, m)
  {
    EcbBlockwise(aes, key, m, 0);
    assert m[0..16] == m;
  }

  /** AES is a permutation for every key. */
  ghost predicate BlockCipherInjective(p: Primitives) {
    forall k: Key, b1: Block, b2: Block :: p.aes(k, b1) == p.aes(k, b2) ==> b1 == b2
  }

  /** GCM decryption with the key, IV and associated data used for encryption
      returns the plaintext; the body is as long as the plaintext and the tag is
      16 bytes. */
  ghost predicate OpenInvertsSeal(p: Primitives) {
    forall k: Key, iv: Bytes, aad: Bytes, pt: Bytes ::
      var s := p.gcmSeal(k, iv, aad, pt);
      |s.body| == |pt| && |s.tag| == TagSize && p.gcmOpen(k, iv, aad, s.body, s.tag) == Some(pt)
  }

  /** GCM decryption recomputes the tag and checks it, so it succeeds only on
      a body and tag that GCM encryption produces for the returned plaintext. */
  ghost predicate OnlyGenuineOpens(p: Primitives) {
    forall k: Key, iv: Bytes, aad: Bytes, body: Bytes, tag: Bytes ::
      p.gcmOpen(k, iv, aad, body, tag).Some? ==>
        p.gcmSeal(k, iv, aad, p.gcmOpen(k, iv, aad, body, tag).value) == Sealed(body, tag)
  }

  /** Under one key and IV the body is the plaintext XORed with a fixed key
      stream, so equal bodies come from equal plaintexts whatever the
      associated data. */
  ghost predicate BodyDeterminesPlaintext(p: Primitives) {
    forall k: Key, iv: Bytes, a1: Bytes, a2: Bytes, p1: Bytes, p2: Bytes ::
      p.gcmSeal(k, iv, a1, p1).body == p.gcmSeal(k, iv, a2, p2).body ==> p1 == p2
  }
}
