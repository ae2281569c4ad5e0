/** What XAES-256-GCM guarantees its callers, proved about the model: the
    shape of sealed output, the split and validation order of opening, the
    round trip, and the uniform rejection of everything GCM does not
    authenticate. Properties of GCM itself enter only as the predicates of the
    Primitives module, named in each lemma's requires. */
module Xaes256GcmProperties {
  import opened Errors
  import opened Bytes
  import opened Primitives
  import opened Doubling
  import opened Xaes256Gcm

  /** K1 is the encrypted zero block multiplied by x in GF(2^128). */
  lemma SubkeyIsGf128Double(c: Cipher)
    requires c.Valid()
    ensures BlockValue(c.k1) == Gf128Double(BlockValue(c.prims.aes(c.key, ZeroBlock)))
  {
    EcbOneBlock(c.prims.aes, c.key, ZeroBlock);
    DoubleIsGf128Double(c.prims.aes(c.key, ZeroBlock));
  }

  /** The two derivation blocks are laid out as [0, 1, 'X', 0] and
      [0, 2, 'X', 0] followed by the nonce prefix; after K1 is XORed into both
      they still agree everywhere except at byte 1, where they differ. */
  lemma MaskedBlocksDifferOnlyAtCounter(c: Cipher, prefix: Bytes)
    requires |prefix| == PrefixSize
    ensures DerivationBlock(1, prefix)[..4] == [0, 1, 0x58, 0]
    ensures DerivationBlock(2, prefix)[..4] == [0, 2, 0x58, 0]
    ensures DerivationBlock(1, prefix)[4..] == prefix == DerivationBlock(2, prefix)[4..]
    ensures forall i :: 0 <= i < BlockSize && i != 1 ==> c.MaskedBlock(1, prefix)[i] == c.MaskedBlock(2, prefix)[i]
    ensures c.MaskedBlock(1, prefix)[1] != c.MaskedBlock(2, prefix)[1]
  {
    var m1, m2 := DerivationBlock(1, prefix), DerivationBlock(2, prefix);
    forall i | 0 <= i < BlockSize
      ensures c.MaskedBlock(1, prefix)[i] == c.MaskedBlock(2, prefix)[i] <==> i != 1
    {
      XorKeepsDifferences(m1, m2, c.k1, i);
    }
  }

  /** With AES a permutation, the two halves of a derived key always differ. */
  lemma DerivedKeyHalvesDiffer(c: Cipher, prefix: Bytes)
    requires BlockCipherInjective(c.prims)
    requires |prefix| == PrefixSize
    ensures c.DerivedKey(prefix)[..BlockSize] != c.DerivedKey(prefix)[BlockSize..]
  {
    MaskedBlocksDifferOnlyAtCounter(c, prefix);
    var dk := c.DerivedKey(prefix);
    var e1 := c.prims.aes(c.key, c.MaskedBlock(1, prefix));
    var e2 := c.prims.aes(c.key, c.MaskedBlock(2, prefix));
    assert dk[..BlockSize] == e1 && dk[BlockSize..] == e2;
    if e1 == e2 {
      assert false;
    }
  }

  /** A sealed message is the GCM body for the derived key and the nonce
      suffix as IV, followed by the 16-byte tag: 16 bytes longer than the
      plaintext, and only the tag when the plaintext is empty. */
  lemma SealOutput(c: Cipher, plaintext: Bytes, nonce: Bytes, aad: Option<Bytes>)
    requires OpenInvertsSeal(c.prims)
    requires |nonce| == NonceSize
    ensures c.SealSpec(plaintext, nonce, aad).Ok?
    ensures
      var out := c.SealSpec(plaintext, nonce, aad).value;
      var s := c.GcmOutput(plaintext, nonce, aad);
      && |out| == |plaintext| + Overhead
      && out[..|plaintext|] == s.body
      && out[|plaintext|..] == s.tag
      && (plaintext == [] ==> out == s.tag)
  {
    var s := c.GcmOutput(plaintext, nonce, aad);
    assert |s.body| == |plaintext| && |s.tag| == TagSize;
    assert (s.body + s.tag)[..|plaintext|] == s.body;
  }

  /** Opening what was sealed with the same nonce and associated data gives
      back the plaintext, the empty plaintext included. */
  lemma OpenSealRoundTrip(c: Cipher, plaintext: Bytes, nonce: Bytes, aad: Option<Bytes>)
    requires OpenInvertsSeal(c.prims)
    requires |nonce| == NonceSize
    ensures c.SealSpec(plaintext, nonce, aad).Ok?
    ensures c.OpenSpec(c.SealSpec(plaintext, nonce, aad).value, nonce, aad) == Ok(plaintext)
  {
    var s := c.GcmOutput(plaintext, nonce, aad);
    assert |s.body| == |plaintext| && |s.tag| == TagSize;
    var out := s.body + s.tag;
    assert SplitTag(out) == (s.body, s.tag);
  }

  /** Opening returns a plaintext only for a ciphertext that sealing that
      plaintext under the same nonce and associated data produces: no
      unauthenticated bytes are ever returned. */
  lemma OpenReturnsOnlySealedPlaintext(c: Cipher, ciphertext: Bytes, nonce: Bytes, aad: Option<Bytes>)
    requires OnlyGenuineOpens(c.prims)
    ensures c.OpenSpec(ciphertext, nonce, aad).Ok? ==>
      c.SealSpec(c.OpenSpec(ciphertext, nonce, aad).value, nonce, aad) == Ok(ciphertext)
  {
    if c.OpenSpec(ciphertext, nonce, aad).Ok? {
      var (body, tag) := SplitTag(ciphertext);
      var dk, iv := c.DerivedKey(nonce[..PrefixSize]), nonce[PrefixSize..];
      var result := c.prims.gcmOpen(dk, iv, AuthData(aad), body, tag);
      assert result.Some?;
      assert c.prims.gcmSeal(dk, iv, AuthData(aad), result.value) == Sealed(body, tag);
    }
  }

  /** Opening fails with InvalidCiphertext, and with nothing else, exactly
      when the nonce is 24 bytes but the ciphertext is shorter than the tag or
      GCM rejects it. */
  lemma OpenFailuresAreUniform(c: Cipher, ciphertext: Bytes, nonce: Bytes, aad: Option<Bytes>)
    requires |nonce| == NonceSize
    ensures c.OpenSpec(ciphertext, nonce, aad).Err? ==> c.OpenSpec(ciphertext, nonce, aad).error == InvalidCiphertext
    ensures c.OpenSpec(ciphertext, nonce, aad).Err? <==>
      (|ciphertext| < Overhead ||
       c.prims.gcmOpen(c.DerivedKey(nonce[..PrefixSize]), nonce[PrefixSize..], AuthData(aad),
                       SplitTag(ciphertext).0, SplitTag(ciphertext).1).None?)
  {
  }

  /** Opening with associated data other than that used for sealing fails
      with InvalidCiphertext (data added, removed or changed) whenever GCM
      computes a different tag for the other data. */
  lemma WrongAadRejected(c: Cipher, plaintext: Bytes, nonce: Bytes, sealAad: Option<Bytes>, openAad: Option<Bytes>)
    requires OpenInvertsSeal(c.prims) && OnlyGenuineOpens(c.prims) && BodyDeterminesPlaintext(c.prims)
    requires |nonce| == NonceSize
    requires c.GcmOutput(plaintext, nonce, sealAad).tag != c.GcmOutput(plaintext, nonce, openAad).tag
    ensures c.SealSpec(plaintext, nonce, sealAad).Ok?
    ensures c.OpenSpec(c.SealSpec(plaintext, nonce, sealAad).value, nonce, openAad) == Err(InvalidCiphertext)
  {
    var ciphertext := c.SealSpec(plaintext, nonce, sealAad).value;
    var result := c.OpenSpec(ciphertext, nonce, openAad);
    SealOutput(c, plaintext, nonce, sealAad);
    if result.Ok? {
      OpenReturnsOnlySealedPlaintext(c, ciphertext, nonce, openAad);
      SealOutput(c, result.value, nonce, openAad);
      assert false;
    }
  }

  /** A sealed message whose tag is altered while its body is kept fails to
      open with InvalidCiphertext. */
  lemma AlteredTagRejected(c: Cipher, plaintext: Bytes, nonce: Bytes, aad: Option<Bytes>, altered: Bytes)
    requires OpenInvertsSeal(c.prims) && OnlyGenuineOpens(c.prims) && BodyDeterminesPlaintext(c.prims)
    requires |nonce| == NonceSize
    requires c.SealSpec(plaintext, nonce, aad).Ok?
    requires |altered| == |plaintext| + Overhead
    requires altered[..|plaintext|] == c.SealSpec(plaintext, nonce, aad).value[..|plaintext|]
    requires altered != c.SealSpec(plaintext, nonce, aad).value
    ensures c.OpenSpec(altered, nonce, aad) == Err(InvalidCiphertext)
  {
    var ciphertext := c.SealSpec(plaintext, nonce, aad).value;
    SealOutput(c, plaintext, nonce, aad);
    var result := c.OpenSpec(altered, nonce, aad);
    if result.Ok? {
      OpenReturnsOnlySealedPlaintext(c, altered, nonce, aad);
      SealOutput(c, result.value, nonce, aad);
      assert false;
    }
  }

  /** No associated data and empty associated data authenticate the same
      way: GCM does not tell them apart. */
  lemma AbsentAadIsEmptyAad(c: Cipher, text: Bytes, nonce: Bytes)
    ensures c.SealSpec(text, nonce, None) == c.SealSpec(text, nonce, Some([]))
    ensures c.OpenSpec(text, nonce, None) == c.OpenSpec(text, nonce, Some([]))
  {
  }
}
