# XAES-256-GCM in Dafny

A model of the Ruby gem `xaes_256_gcm` (class `Xaes256Gcm::Xaes256GcmCipher`).
XAES-256-GCM is AES-256-GCM extended to a 24-byte nonce:

- The cipher keeps the 32-byte master key and a subkey K1. K1 is the AES
  encryption of the zero block, doubled in GF(2^128).
- On every seal and open, the first 12 nonce bytes derive a fresh AES-256
  key. Two blocks, `[0, 1, 'X', 0] ‖ prefix` and `[0, 2, 'X', 0] ‖ prefix`,
  are each XORed with K1 and then encrypted under the master key.
- The last 12 nonce bytes are the GCM IV.
- The sealed output is the GCM body followed by the 16-byte tag.
- Failures are reported as one of three errors: `InvalidKey`,
  `InvalidNonce` and `InvalidCiphertext`.

Files:

- `errors.dfy`: the three errors, plus `Result` and `Option`.
- `bytes.dfy`: bytes (`bv8`), blocks and keys, and the byte-wise XOR. The
  XOR is given as a function and also as the in-place method the instance
  runs.
- `primitives.dfy`: AES-256 and AES-256-GCM as parameters of the model,
  with ECB built from the single-block cipher. Also holds the properties of
  GCM and AES that the lemmas rely on, each stated as a predicate.
- `doubling.dfy`: the in-place doubling loop that produces K1, its
  specification, and a proof that it is multiplication by x in GF(2^128).
- `cipher.dfy`: the constants, the key check, the `Cipher` class,
  `DeriveKey`, `Seal` and `Open`. Each of `DeriveKey`, `Seal` and `Open` is
  a method proved equal to a specification function.
- `properties.dfy`: what callers can rely on: the output layout, the round
  trip, authenticity, the rejection of altered tags and of wrong associated
  data, and uniform failure reporting.

The AES block cipher and GCM are not implemented. Each `Cipher` holds them as
function values (`Primitives`). A lemma that needs a property of GCM or AES
names it in its `requires`:

- `OpenInvertsSeal`: GCM decryption undoes GCM encryption.
- `OnlyGenuineOpens`: GCM decryption succeeds only on a body and tag that
  encryption produces.
- `BodyDeterminesPlaintext`: under one key and IV, the body fixes the
  plaintext.
- `BlockCipherInjective`: AES is a permutation.

Each holds for real AES-256 and AES-256-GCM on the inputs the model actually
passes, which are 12-byte IVs and 16-byte tags:

- `OpenInvertsSeal` and `OnlyGenuineOpens` hold because GCM verification
  recomputes the tag from the body and compares the two.
- `BodyDeterminesPlaintext` holds because the GCM body is the plaintext XORed
  with a keystream fixed by the key and IV.
- `BlockCipherInjective` holds because AES under a fixed key is a permutation.

The predicates are stated over every IV and every tag length. Real GCM meets
them only on the inputs named above.

Absent and empty associated data are the same. The code sets `auth_data`
only when the data is not nil (lines 59 and 80), and GCM authenticates no
data exactly as it does empty data. The model follows this with
`AuthData(None) == []`, and `AbsentAadIsEmptyAad` states the consequence.

## Model

| member | source | states |
|---|---|---|
| Bytes.Xor | lib/xaes_256_gcm/xaes_256_gcm_cipher.rb:110-114 | the XOR of `a` with `b` has exactly the length of `a` (only that many bytes of `b` are read) |
| Bytes.XorInto | lib/xaes_256_gcm/xaes_256_gcm_cipher.rb:110-114 | the in-place loop leaves `destination` equal to its old contents XORed byte-wise with `other`, over the length of `destination` |
| Bytes.XorTwice | lib/xaes_256_gcm/xaes_256_gcm_cipher.rb:110-114 | XORing the same bytes in twice restores the original, so the masking by K1 is invertible |
| Bytes.XorKeepsDifferences | lib/xaes_256_gcm/xaes_256_gcm_cipher.rb:103-104 | two inputs XORed with the same mask are equal at an index exactly when the inputs are equal there |
| Primitives.Ecb | lib/xaes_256_gcm/xaes_256_gcm_cipher.rb:29-31 | unpadded ECB encryption of whole blocks returns exactly as many bytes as it is given |
| Primitives.EcbBlockwise | lib/xaes_256_gcm/xaes_256_gcm_cipher.rb:106-107 | output block j of ECB is the block cipher applied to input block j alone (no chaining) |
| Primitives.EcbTwoBlocks | lib/xaes_256_gcm/xaes_256_gcm_cipher.rb:106-107 | one ECB pass over the 32 bytes `m1 ‖ m2` is the encryption of `m1` followed by that of `m2` |
| Primitives.EcbOneBlock | lib/xaes_256_gcm/xaes_256_gcm_cipher.rb:34-35 | the ECB update on the zero block is one block-cipher call |
| Doubling.Shift | lib/xaes_256_gcm/xaes_256_gcm_cipher.rb:40-44 | the one-bit left shift of the byte string preserves its length |
| Doubling.Double | lib/xaes_256_gcm/xaes_256_gcm_cipher.rb:37-46 | doubling preserves the length of the block |
| Doubling.DoubleInPlace | lib/xaes_256_gcm/xaes_256_gcm_cipher.rb:37-46 | the backwards loop carrying each byte's top bit, followed by the conditional XOR of 0x87 into the last byte, leaves the array equal to the doubled old block |
| Doubling.ShiftValue | lib/xaes_256_gcm/xaes_256_gcm_cipher.rb:40-44 | the byte-wise shift is the left shift of the block read as a big-endian 128-bit integer |
| Doubling.DoubleValue | lib/xaes_256_gcm/xaes_256_gcm_cipher.rb:46 | the final step XORs the carry into the least significant byte of the 128-bit value |
| Doubling.CarryIsTopBit | lib/xaes_256_gcm/xaes_256_gcm_cipher.rb:46 | `msb * 0x87` is 0x87 exactly when the top bit of the 128-bit value is set, and 0 otherwise |
| Doubling.DoubleAsMask | lib/xaes_256_gcm/xaes_256_gcm_cipher.rb:46 | multiplication by x equals its branch-free mask form |
| Doubling.MaskHalveUndoesMaskDouble | lib/xaes_256_gcm/xaes_256_gcm_cipher.rb:46 | the mask form of halving undoes the mask form of doubling |
| Doubling.DoubleIsGf128Double | lib/xaes_256_gcm/xaes_256_gcm_cipher.rb:37-46 | byte-wise doubling of a 16-byte block is multiplication by x in GF(2^128) with reduction polynomial x^128 + x^7 + x^2 + x + 1 |
| Doubling.Gf128HalveDouble | lib/xaes_256_gcm/xaes_256_gcm_cipher.rb:37-46 | doubling is injective: halving gives back every doubled value, so K1 loses nothing of the encrypted zero block |
| Xaes256Gcm.ValidKeyArgument | lib/xaes_256_gcm/xaes_256_gcm_cipher.rb:27 | nil and non-string keys are never valid, and a valid key is exactly 32 bytes long |
| Xaes256Gcm.AuthData | lib/xaes_256_gcm/xaes_256_gcm_cipher.rb:59 | the data GCM authenticates (here and at line 80) is the caller's data when given; it is empty exactly when the data is absent or empty |
| Xaes256Gcm.DerivationBlock | lib/xaes_256_gcm/xaes_256_gcm_cipher.rb:101-102 | the derivation block is laid out as 0, the counter, 'X' (0x58), 0, then the 12-byte nonce prefix |
| Xaes256Gcm.Cipher.MaskedBlock | lib/xaes_256_gcm/xaes_256_gcm_cipher.rb:103-104 | XORing K1 into the block is undone by XORing it in again, so the masked block determines the derivation block |
| Xaes256Gcm.Cipher.GcmOutput | lib/xaes_256_gcm/xaes_256_gcm_cipher.rb:55-64 | when GCM decryption inverts encryption, the body GCM produces under the derived key and the nonce suffix as IV is as long as the plaintext, the tag is 16 bytes, and opening the pair with the same key, IV and data returns the plaintext |
| Xaes256Gcm.SplitTag | lib/xaes_256_gcm/xaes_256_gcm_cipher.rb:72-73 | the ciphertext splits into a body of length `len - 16` and a 16-byte tag, and the two concatenated give back the ciphertext |
| Xaes256Gcm.Cipher.constructor | lib/xaes_256_gcm/xaes_256_gcm_cipher.rb:29-47 | the instance keeps the key and the primitives, and K1 is the encrypted zero block doubled |
| Xaes256Gcm.Cipher.New | lib/xaes_256_gcm/xaes_256_gcm_cipher.rb:26-27 | creation succeeds exactly when the key is a string of exactly 32 bytes; nil, a non-string or another length gives `InvalidKey`; on success the instance is valid |
| Xaes256Gcm.Cipher.DerivedKey | lib/xaes_256_gcm/xaes_256_gcm_cipher.rb:97-108 | the derived key is AES(K, M1 ⊕ K1) ‖ AES(K, M2 ⊕ K1), a function of the master key and the 12-byte nonce prefix only |
| Xaes256Gcm.Cipher.DeriveKey | lib/xaes_256_gcm/xaes_256_gcm_cipher.rb:97-108 | building both blocks, XORing K1 into each in place and encrypting them in one ECB pass gives `DerivedKey` of the prefix, without changing the instance |
| Xaes256Gcm.Cipher.SealSpec | lib/xaes_256_gcm/xaes_256_gcm_cipher.rb:51-65 | sealing fails exactly when the nonce is not 24 bytes, and the error is then `InvalidNonce` |
| Xaes256Gcm.Cipher.Seal | lib/xaes_256_gcm/xaes_256_gcm_cipher.rb:51-65 | the method rejects a bad nonce before deriving any key, and otherwise returns the GCM body followed by the tag, under the derived key and the nonce suffix as IV |
| Xaes256Gcm.Cipher.OpenSpec | lib/xaes_256_gcm/xaes_256_gcm_cipher.rb:67-93 | a nonce that is not 24 bytes gives `InvalidNonce`, checked before the ciphertext; a ciphertext shorter than 16 bytes gives `InvalidCiphertext`; opening never reports `InvalidKey` |
| Xaes256Gcm.Cipher.Open | lib/xaes_256_gcm/xaes_256_gcm_cipher.rb:67-93 | the method checks the nonce, then the length, splits off the last 16 bytes as the tag, derives the key and returns the GCM plaintext, mapping a GCM failure to `InvalidCiphertext` |
| Xaes256GcmProperties.SubkeyIsGf128Double | lib/xaes_256_gcm/xaes_256_gcm_cipher.rb:34-46 | in a valid instance, K1 is the encryption of the zero block under the master key, multiplied by x in GF(2^128) |
| Xaes256GcmProperties.MaskedBlocksDifferOnlyAtCounter | lib/xaes_256_gcm/xaes_256_gcm_cipher.rb:101-104 | the blocks start `[0, 1, 0x58, 0]` and `[0, 2, 0x58, 0]` and end with the nonce prefix; after masking with K1 they agree at every byte except byte 1 |
| Xaes256GcmProperties.DerivedKeyHalvesDiffer | lib/xaes_256_gcm/xaes_256_gcm_cipher.rb:106-107 | with AES a permutation, the two 16-byte halves of every derived key differ |
| Xaes256GcmProperties.SealOutput | lib/xaes_256_gcm/xaes_256_gcm_cipher.rb:61-64 | with a 24-byte nonce, the sealed output is the GCM body followed by the tag, exactly 16 bytes longer than the plaintext, and only the tag when the plaintext is empty |
| Xaes256GcmProperties.OpenSealRoundTrip | spec/xaes_256_gcm_spec.rb:89-95 | opening what was sealed, with the same nonce and associated data, returns the plaintext, for every plaintext including the empty one |
| Xaes256GcmProperties.OpenReturnsOnlySealedPlaintext | lib/xaes_256_gcm/xaes_256_gcm_cipher.rb:83-92 | when opening succeeds, sealing the returned plaintext with the same nonce and associated data produces exactly the opened ciphertext, so no unauthenticated plaintext is ever released |
| Xaes256GcmProperties.OpenFailuresAreUniform | lib/xaes_256_gcm/xaes_256_gcm_cipher.rb:86-90 | with a valid nonce, every failure is `InvalidCiphertext`, and failure happens exactly when the ciphertext is too short or GCM rejects it |
| Xaes256GcmProperties.WrongAadRejected | spec/xaes_256_gcm_spec.rb:58-77 | opening with associated data that was added, removed or changed relative to sealing fails with `InvalidCiphertext` whenever GCM tags the two differently |
| Xaes256GcmProperties.AlteredTagRejected | spec/xaes_256_gcm_spec.rb:38-46 | a sealed message whose body is kept but whose tag bytes are changed fails to open with `InvalidCiphertext` |
| Xaes256GcmProperties.AbsentAadIsEmptyAad | lib/xaes_256_gcm/xaes_256_gcm_cipher.rb:59 | sealing and opening with no associated data behave exactly as with empty associated data |

## Left out

- AES-256 and AES-256-GCM (OpenSSL's `AES256` in ECB and GCM modes) are not
  implemented. They are function parameters of the model, and the properties
  of them that the lemmas rely on are explicit `requires`.
- Known-answer vectors (`spec/xaes_256_gcm_spec.rb:84-111`): these need real
  AES. Only their round-trip half is modelled (`OpenSealRoundTrip`).
- The sliced-off-tag test (`spec/xaes_256_gcm_spec.rb:48-56`) and tampering
  with the body are rejected by GCM only with overwhelming probability, not
  for every input. The model proves what holds for every input instead:
  `OpenReturnsOnlySealedPlaintext` (any successful open is of a genuine
  sealing) and `AlteredTagRejected`.
- Xaes256GcmProperties.WrongAadRejected: assumes that the two tags differ,
  rather than deriving it. A 16-byte tag cannot separate every pair of
  associated data values, so GCM gives this only with overwhelming
  probability.
- `NoInspectBox` (lines 117-134) only hides K1 from `inspect` and `to_s`. In
  the model, K1 is a plain constant field.
- Calling the constructor with no argument raises Ruby's `ArgumentError`.
  This is an arity error of the language, not a path of the code.
- A nil or non-string nonce, plaintext or ciphertext makes Ruby raise
  `NoMethodError`, for example on `bytesize`. Associated data that is
  neither nil nor a string reaches `gcm.auth_data =`, which raises
  `TypeError`. The model types all of these as byte strings.
- The test file calls `encrypt` and `decrypt`. The class defines only `seal`
  and `open`, which are what is modelled.
- The GCM context is driven by `update` followed by `final`. The call to
  `update` is skipped for empty input. This is internal to GCM and is
  subsumed by the `gcmSeal`/`gcmOpen` parameters.
- Sharing the keyed ECB context `@aes` between concurrent calls on one
  instance: the model has no concurrency.
- Ruby's string encodings: all strings are byte strings (`seq<bv8>`), with
  `bytesize` as their length.
