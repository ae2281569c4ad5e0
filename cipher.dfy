/** XAES-256-GCM: AES-256-GCM with a 24-byte nonce. The first 12 nonce bytes
    select a per-message AES-256 key, derived from the master key through the
    subkey K1; the last 12 bytes are the GCM IV. */
module Xaes256Gcm {
  import opened Errors
  import opened Bytes
  import opened Primitives
  import opened Doubling

  /** Nonce size in bytes. */
  const NonceSize := 24

  /** Master key size in bytes. */
  const KeySize := 32

  /** How much longer a ciphertext is than its plaintext: the GCM tag. */
  const Overhead := 16

  /** Length of the nonce prefix that feeds key derivation; the rest is the IV. */
  const PrefixSize := 12

  /** The value a caller passes as the key. Ruby is dynamically typed, so the
      argument may be nil, a (byte) string, or something else altogether. */
  datatype KeyArgument = NilKey | StringKey(bytes: Bytes) | OtherKey

  /** The key argument is a byte string of exactly KeySize bytes. */
  predicate ValidKeyArgument(key: KeyArgument)
    ensures key.NilKey? || key.OtherKey? ==> !ValidKeyArgument(key)
    ensures ValidKeyArgument(key) ==> |key.bytes| == KeySize
  {
    key.StringKey? && |key.bytes| == KeySize
  }

  /** The associated data GCM authenticates: no data at all when the caller
      passes none, which for GCM is the same as empty data. */
  function AuthData(aad: Option<Bytes>): (data: Bytes)
    ensures data == [] <==> aad == None || aad == Some([])
    ensures aad.Some? ==> data == aad.value
  {
    if aad.Some? then aad.value else []
  }

  /** Derivation input block `index` (1 or 2) before K1 is XORed in: the
      counter, the separation byte 'X' (0x58), a zero, then the nonce prefix. */
  function DerivationBlock(index: bv8, prefix: Bytes): (m: Block)
    requires |prefix| == PrefixSize
    ensures m[0] == 0 && m[1] == index && m[2] == 0x58 && m[3] == 0
    ensures m[4..] == prefix
  {
    [0, index, 0x58, 0] + prefix
  }

  /** The ciphertext split into body and the 16-byte tag at its end. */
  function SplitTag(ciphertext: Bytes): (parts: (Bytes, Bytes))
    requires |ciphertext| >= Overhead
    ensures |parts.1| == Overhead && |parts.0| == |ciphertext| - Overhead
    ensures parts.0 + parts.1 == ciphertext
  {
    (ciphertext[..|ciphertext| - Overhead], ciphertext[|ciphertext| - Overhead..])
  }

  /** One XAES-256-GCM instance: a master key, the block cipher keyed with it,
      and the subkey K1, all fixed at construction. */
  class Cipher {
    const key: Key
    const k1: Block
    const prims: Primitives

    /** K1 is the encryption of the zero block under the master key, doubled. */
    ghost predicate Valid() {
      k1 == Double(Ecb(prims.aes, key, ZeroBlock))
    }

    /** Builds an instance from a key already known to be 32 bytes. */
    constructor (key: Key, prims: Primitives)
      ensures this.key == key && this.prims == prims
      ensures Valid()
    {
      this.key := key;
      this.prims := prims;
      var l := Ecb(prims.aes, key, ZeroBlock);
      var buffer := new bv8[BlockSize](i requires 0 <= i < BlockSize => l[i]);
      assert buffer[..] == l;
      DoubleInPlace(buffer);
      this.k1 := buffer[..];
    }

    /** Creation with the key check: InvalidKey unless the key is a byte
        string of exactly 32 bytes, in which case no instance is made. */
    static method New(key: KeyArgument, prims: Primitives) returns (r: Result<Cipher>)
      ensures r.Ok? <==> ValidKeyArgument(key)
      ensures r.Err? ==> r.error == InvalidKey
      ensures r.Ok? ==> r.value.key == key.bytes && r.value.prims == prims && r.value.Valid()
    {
      if key.NilKey? || !key.StringKey? || |key.bytes| != KeySize {
        return Err(InvalidKey);
      }
      var c := new Cipher(key.bytes, prims);
      return Ok(c);
    }

    /** The derivation block `index` with K1 XORed in. */
    function MaskedBlock(index: bv8, prefix: Bytes): (m: Block)
      requires |prefix| == PrefixSize
      ensures Xor(m, k1) == DerivationBlock(index, prefix)
    {
      XorTwice(DerivationBlock(index, prefix), k1);
      Xor(DerivationBlock(index, prefix), k1)
    }

    /** The per-message key for a nonce prefix: both masked derivation blocks
        encrypted under the master key, one after the other. */
    function DerivedKey(prefix: Bytes): (dk: Key)
      requires |prefix| == PrefixSize
      ensures dk == prims.aes(key, MaskedBlock(1, prefix)) + prims.aes(key, MaskedBlock(2, prefix))
    {
      EcbTwoBlocks(prims.aes, key, MaskedBlock(1, prefix), MaskedBlock(2, prefix));
      Ecb(prims.aes, key, MaskedBlock(1, prefix) + MaskedBlock(2, prefix))
    }

    /** Key derivation as the instance runs it: build both blocks, XOR K1 into
        each in place, encrypt the 32 bytes in one ECB pass. Recomputed on
        every call; nothing is cached. */
    method DeriveKey(prefix: Bytes) returns (dk: Key)
      requires |prefix| == PrefixSize
      ensures dk == DerivedKey(prefix)
    {
      var b1 := DerivationBlock(1, prefix);
      var b2 := DerivationBlock(2, prefix);
      var m1 := new bv8[BlockSize](i requires 0 <= i < BlockSize => b1[i]);
      var m2 := new bv8[BlockSize](i requires 0 <= i < BlockSize => b2[i]);
      assert m1[..] == b1 && m2[..] == b2;
      XorInto(m1, k1);
      XorInto(m2, k1);
      dk := Ecb(prims.aes, key, m1[..] + m2[..]);
    }

    /** The GCM encryption a seal performs: under the key derived from nonce
        bytes [0, 12), with nonce bytes [12, 24) as the IV. */
    function GcmOutput(plaintext: Bytes, nonce: Bytes, aad: Option<Bytes>): (s: Sealed)
      requires |nonce| == NonceSize
      ensures OpenInvertsSeal(prims) ==>
        && |s.body| == |plaintext| && |s.tag| == TagSize
        && prims.gcmOpen(DerivedKey(nonce[..PrefixSize]), nonce[PrefixSize..], AuthData(aad), s.body, s.tag)
           == Some(plaintext)
    {
      prims.gcmSeal(DerivedKey(nonce[..PrefixSize]), nonce[PrefixSize..], AuthData(aad), plaintext)
    }

    /** What sealing returns: InvalidNonce unless the nonce is 24 bytes;
        otherwise the GCM body followed by the GCM tag. */
    function SealSpec(plaintext: Bytes, nonce: Bytes, aad: Option<Bytes>): (r: Result<Bytes>)
      ensures r.Err? <==> |nonce| != NonceSize
      ensures r.Err? ==> r.error == InvalidNonce
    {
      if |nonce| != NonceSize then Err(InvalidNonce)
      else Ok(GcmOutput(plaintext, nonce, aad).body + GcmOutput(plaintext, nonce, aad).tag)
    }

    /** What opening returns: InvalidNonce unless the nonce is 24 bytes, then
        InvalidCiphertext if the ciphertext is shorter than the tag; otherwise
        the last 16 bytes are the tag, and every GCM verification failure is
        InvalidCiphertext. */
    function OpenSpec(ciphertext: Bytes, nonce: Bytes, aad: Option<Bytes>): (r: Result<Bytes>)
      ensures |nonce| != NonceSize ==> r == Err(InvalidNonce)
      ensures |nonce| == NonceSize && |ciphertext| < Overhead ==> r == Err(InvalidCiphertext)
      ensures r.Err? ==> r.error != InvalidKey
    {
      if |nonce| != NonceSize then Err(InvalidNonce)
      else if |ciphertext| < Overhead then Err(InvalidCiphertext)
      else
        var (body, tag) := SplitTag(ciphertext);
        match prims.gcmOpen(DerivedKey(nonce[..PrefixSize]), nonce[PrefixSize..], AuthData(aad), body, tag)
        case None => Err(InvalidCiphertext)
        case Some(plaintext) => Ok(plaintext)
    }

    /** Seals a plaintext under a 24-byte nonce with optional associated data. */
    method Seal(plaintext: Bytes, nonce: Bytes, aad: Option<Bytes>) returns (r: Result<Bytes>)
      ensures r == SealSpec(plaintext, nonce, aad)
    {
      if |nonce| != NonceSize {
        return Err(InvalidNonce);
      }
      var derived := DeriveKey(nonce[..PrefixSize]);
      var sealed := prims.gcmSeal(derived, nonce[PrefixSize..], AuthData(aad), plaintext);
      r := Ok(sealed.body + sealed.tag);
    }

    /** Opens a ciphertext sealed under a 24-byte nonce with optional associated data. */
    method Open(ciphertext: Bytes, nonce: Bytes, aad: Option<Bytes>) returns (r: Result<Bytes>)
      ensures r == OpenSpec(ciphertext, nonce, aad)
    {
      var ctBytes := |ciphertext|;
      if |nonce| != NonceSize {
        return Err(InvalidNonce);
      }
      if ctBytes < Overhead {
        return Err(InvalidCiphertext);
      }
      var body := ciphertext[..ctBytes - Overhead];
      var tag := ciphertext[ctBytes - Overhead..];
      var derived := DeriveKey(nonce[..PrefixSize]);
      var result := prims.gcmOpen(derived, nonce[PrefixSize..], AuthData(aad), body, tag);
      if result.None? {
        return Err(InvalidCiphertext);
      }
      r := Ok(result.value);
    }
  }
}
