# bucky-crypto: the byte-level core, modelled in Dafny

This project models the parts of the `bucky-crypto` Rust crate whose behaviour is
fixed by byte layouts and length checks, and proves what the crate promises about
them. The cryptography itself is left abstract.

- **Signatures** (`signature.dfy`, module `Signatures`). `SignData` is a tagged
  payload of 128, 256, 384 or 64 bytes (RSA-1024, RSA-2048, RSA-3072, secp256k1
  ECDSA). A `Signature` is that payload plus its `u64` signing time. The wire form
  is `sign_time (8) | tag (1: 0, 1, 2 or 5) | payload`. Decoding returns the
  unconsumed remainder.
- **HashValue** (`hash.dfy`, module `Hash`). A value that is always 32 bytes. It
  has a fixed-width codec, length-checked constructors, and a Protobuf transform.
  Its text forms are lowercase Base16 (section 8 of RFC 4648) and base58. Parsing
  chooses between them by the text's length in bytes. Values are ordered
  lexicographically over the bytes.
- **Private keys** (`private_key.dfy`, module `PrivateKeys`). This covers the key
  type and its names, the RSA size check and the default size, and the key codec:
  `0 | u16 length | DER` for RSA, `5 | 32-byte scalar` for secp256k1. It also
  covers what is signed (the message followed by the encoded time), the choice of
  signature variant, and decryption into a caller's buffer. Finally, it covers
  the unwrap of a session key from the front of an input. That unwrap consumes
  the RSA modulus size, or a 33-byte compressed point for secp256k1. It returns
  the rest of the input, so wrapped keys can be chained.
- **Shared plumbing** (`raw_codec.dfy`, module `RawCodec`). Byte types, error
  codes, and the algorithm tags. It also holds the `u16`/`u64` encoders of the
  `bucky_raw_codec` library and the copy of bytes into a caller's buffer.
- **Collaborators** (`crypto.dfy`, module `Crypto`). These are the RSA, secp256k1,
  ECIES, DER and SHA-256 primitives, as a record of functions. `R` and `S` are
  uninterpreted key types, used as type parameters. `Primitives.Valid()` lists
  everything assumed of them:
  - DER import inverts export;
  - an RSA signature has the key's size in bytes (the source asserts this);
  - a secp256k1 secret key serialises to 32 bytes, and those bytes parse back to it;
  - an ECDSA signature is 64 bytes;
  - a decapsulated shared secret is 32 bytes.

Abstract collaborators are passed as parameters:
- `RawCodec.IntCodec` is the integer codec. It fixes the widths, and says that
  decoding inverts encoding both ways. It does not fix the byte order.
- `Hash.Base58` is the base58 conversion. Decoding inverts encoding, and 32 bytes
  never encode to a 64-byte text.
- The clock reading is the `now` argument of `Sign`.
- Key generation is a generator function `rsaNew` for RSA, and a random scalar
  `secpRandom` for secp256k1.

Operations that write into a caller's buffer are methods over an `array<uint8>`.
The Rust slice `buf[at..]` is modelled as the array plus a start position. Each
postcondition gives the whole new array contents. For the signature and key
encoders that is `Overwrite(old(buf[..]), at, Encoding(...))`, and `Encoding` is
what the round-trip lemmas are about. The hash encoder writes the value's bytes
with `Overwrite`. Decryption and the session-key unwrap write the result in front
of the output's old tail.

The model follows the code exactly at these points, where a reader might expect
something else:
- A secp256k1 scalar that the curve library rejects fails with InvalidFormat, not
  CryptoError. RSA DER that will not import fails with CryptoError.
- The key codec writes tag 0 for RSA keys of every size.
- In the signature codec, input cut short before the `u64` time or the `u8` tag
  fails with whatever error the raw codec library reports
  (`IntCodec.underflow`). Only shortness after the tag is OutOfLimit.
- In the key codec, empty input fails with an explicit OutOfLimit before the tag
  is read. Input cut short before the `u16` length fails with the raw codec
  library's error. Shortness after the length, or in the 32 scalar bytes, is
  OutOfLimit.
- A direct `from_hex_string` call on valid hexadecimal of the wrong length fails
  with InvalidData (from `TryFrom`), not InvalidFormat. Parsing through
  `from_str` never meets that case: a 64-byte text that is hexadecimal is ASCII,
  so it decodes to exactly 32 bytes, and every `from_str` failure is
  InvalidFormat.

## Model

| member | source | states |
|---|---|---|
| `Signatures.SignData.SignType` | src/signature.rs:26-33 | the RSA variants have 7-character names beginning with "rsa", and the name is "ecc" exactly for the ECDSA variant |
| `Signatures.SignData.AsSlice` | src/signature.rs:35-63 | the payload bytes of the variant, exactly 128/256/384/64 of them |
| `Signatures.SignTypeIdentifiesVariant` | src/signature.rs:26-33 | two payloads have the same type name exactly when they carry the same wire tag |
| `Signatures.Signature.AsSlice` | src/signature.rs:87-89 | a signature's bytes are its payload's bytes |
| `Signatures.RawMeasure` | src/signature.rs:97-113 | the encoded size is 9 plus the payload: 137, 265, 393 or 73 for Rsa1024, Rsa2048, Rsa3072, Ecc |
| `Signatures.Encoding` | src/signature.rs:132-187 | the encoded bytes are exactly `RawMeasure` long |
| `Signatures.Encode` | src/signature.rs:115-188 | a slice shorter than `RawMeasure` fails with OutOfLimit and nothing is written; otherwise time, tag, payload are written and the position after exactly `RawMeasure` bytes is returned, the rest of the buffer unchanged |
| `Signatures.Decode` | src/signature.rs:191-293 | under 9 bytes fails with the codec's error; a tag outside {0,1,2,5} fails with NotMatch; too few payload bytes for the tag fails with OutOfLimit; on success the remainder is the input after `RawMeasure` bytes |
| `Signatures.DecodeEncoding` | src/signature.rs:301-306 | decoding an encoding followed by any bytes gives the same signature and exactly those bytes back |
| `Signatures.DecodeIsEncoding` | src/signature.rs:286-292 | whatever decodes is exactly the encoding of the decoded signature followed by the remainder |
| `Signatures.EncodingRoundTrip` | src/private_key.rs:587-589 | an encoded signature decodes to an equal signature with nothing left over |
| `Hash.RawMeasure` | src/hash.rs:52-54 | the encoded size is always the value's 32 bytes |
| `Hash.Encode` | src/hash.rs:55-76 | under 32 bytes of room fails with OutOfLimit, writing nothing; otherwise writes the 32 bytes and returns the position after them |
| `Hash.Decode` | src/hash.rs:80-97 | fails with OutOfLimit exactly on input under 32 bytes; on success the value and the remainder together are the whole input |
| `Hash.DecodeEncoding` | src/hash.rs:80-97 | decoding the 32 bytes followed by any bytes gives the value and those bytes back |
| `Hash.TryFrom` | src/hash.rs:106-140 | succeeds exactly on 32 bytes, yielding those bytes; otherwise InvalidData |
| `Hash.ToProtobuf` | src/hash.rs:221-231 | the transform to a vector yields the value's 32 bytes, which convert back to the same value |
| `Hash.FromProtobuf` | src/hash.rs:233-251 | fails with InvalidParam unless the vector is 32 bytes; otherwise yields the value whose reverse transform is that vector |
| `Hash.Utf8Length` | src/hash.rs:205 | the byte length that `str::len` measures is at least the number of characters |
| `Hash.HexEncode` | src/hash.rs:155-157 | `hex::encode` gives two lowercase digits per byte |
| `Hash.HexDecode` | src/hash.rs:159-167 | `hex::decode` succeeds only on text of twice the decoded length |
| `Hash.HexDecodeIsAscii` | src/hash.rs:205-206 | only ASCII text decodes as hexadecimal, so its `str::len` is its character count |
| `Hash.ToHexString` | src/hash.rs:155-157 | 64 lowercase hexadecimal digits |
| `Hash.HexDecodeEncode` | src/hash.rs:155-167 | hex decoding inverts hex encoding, for byte strings of any length |
| `Hash.FromHexString` | src/hash.rs:159-167 | non-hexadecimal text fails with InvalidFormat; otherwise the decoded bytes go through `TryFrom` |
| `Hash.FromHexStringOfHex` | src/hash.rs:155-167 | `from_hex_string(to_hex_string(h)) == h` |
| `Hash.FromHexString64` | src/hash.rs:159-167 | valid hexadecimal of 64 digits always yields a value |
| `Hash.ToBase58` | src/hash.rs:169-171 | the base58 text decodes back to the value's bytes |
| `Hash.FromBase58` | src/hash.rs:173-189 | succeeds exactly when the text decodes to 32 bytes, yielding them; otherwise InvalidFormat |
| `Hash.FromStr` | src/hash.rs:202-211 | a text of 64 bytes succeeds exactly when it is hexadecimal, giving its decoded bytes; every other length is parsed as base58; every failure is InvalidFormat |
| `Hash.FromStrRoundTrip` | src/hash.rs:259-271 | `from_str(to_hex_string(h)) == from_str(to_base58(h)) == h` |
| `Hash.LexCompare` | src/hash.rs:11-12 | byte strings compare Equal exactly when they are the same |
| `Hash.Compare` | src/hash.rs:11-12 | the derived `Ord` of two values is Equal exactly when the values are equal |
| `Hash.CompareIsTotalOrder` | src/hash.rs:11-12 | the derived ordering is total: equal exactly on equal values, antisymmetric, transitive |
| `PrivateKeys.PrivateKeyType.AsStr` | src/private_key.rs:58-63 | the name is "rsa" or "secp256k1" |
| `PrivateKeys.PrivateKeyType.FromStr` | src/private_key.rs:78-91 | accepts exactly "rsa" and "secp256k1", yielding the type of that name; anything else fails with InvalidData |
| `PrivateKeys.KeyTypeNameRoundTrip` | src/private_key.rs:58-91 | `from_str(as_str(t)) == t` |
| `PrivateKeys.PrivateKey.KeyType` | src/private_key.rs:114-119 | the type is Rsa exactly for RSA keys |
| `PrivateKeys.CheckBits` | src/private_key.rs:121-132 | accepts exactly 1024, 2048 and 3072; anything else fails with UnSupport |
| `PrivateKeys.GenerateRsaByRng` | src/private_key.rs:141-148 | an unsupported size fails with UnSupport before the generator runs; otherwise succeeds exactly when the generator does, with its key |
| `PrivateKeys.GenerateByRng` | src/private_key.rs:161-166 | a generated key has the requested type; RSA uses 1024 bits when no size is given |
| `PrivateKeys.DefaultBitsSupported` | src/private_key.rs:161-166 | without a size, RSA generation fails only when the generator itself fails |
| `PrivateKeys.RawMeasure` | src/private_key.rs:456-467 | DER length + 3 for RSA, 33 for secp256k1 |
| `PrivateKeys.Encoding` | src/private_key.rs:482-500 | the encoding is `RawMeasure` bytes long and starts with tag 0 for every RSA key, 5 for secp256k1 |
| `PrivateKeys.Encode` | src/private_key.rs:469-501 | a slice shorter than `RawMeasure` fails with OutOfLimit, writing nothing; otherwise writes tag, length and DER (RSA) or tag and 32 bytes (secp256k1) and returns the position after exactly `RawMeasure` bytes |
| `PrivateKeys.DecodeRsa` | src/private_key.rs:514-527 | under 2 bytes fails with the codec's error; fewer than `len` bytes after the length fails with OutOfLimit; DER that does not import fails with CryptoError; otherwise the key is the one imported from the `len` DER bytes, and the remainder follows them |
| `PrivateKeys.DecodeSecp256k1` | src/private_key.rs:528-550 | fewer than 32 bytes fails with OutOfLimit; a scalar the curve library rejects fails with InvalidFormat; otherwise the key is the one parsed from the 32 bytes, and the remainder follows them |
| `PrivateKeys.Decode` | src/private_key.rs:505-556 | empty input fails with OutOfLimit, tags other than 0 and 5 (1 and 2 included) fail with InvalidData; tag 0 and tag 5 hand the rest of the input to the RSA and secp256k1 decoders; on success the key type matches the tag and the remainder is the input after the consumed key |
| `PrivateKeys.DecodeAsWritten` | src/private_key.rs:551-554 | the decoder as written indexes the byte after the tag in its unknown-tag branch; wherever that byte exists it agrees with `Decode` |
| `PrivateKeys.LoneUnknownTag` | src/private_key.rs:553 | a single unknown-tag byte violates the as-written decoder's index bound, and `Decode` reports InvalidData for it |
| `PrivateKeys.DecodeEncoding` | src/private_key.rs:505-556 | decoding an encoding followed by any bytes gives the key and exactly those bytes back |
| `PrivateKeys.EncodingRoundTrip` | src/private_key.rs:581-583 | an encoded key decodes with an empty remainder |
| `PrivateKeys.LongDerTruncated` | src/private_key.rs:488 | a DER of 65536 bytes or more gets a length field that does not match it |
| `PrivateKeys.SignInput` | src/private_key.rs:180-183 | what is signed is the message followed by 8 bytes that decode to the signing time |
| `PrivateKeys.RsaSignData` | src/private_key.rs:196-236 | key size 128/256/384 selects Rsa1024/Rsa2048/Rsa3072 carrying the raw signature; any other size fails with UnSupport |
| `PrivateKeys.Sign` | src/private_key.rs:177-263 | the digest signed is that of the message followed by the time's encoding; the signature carries that time; RSA picks its variant by key size and passes signing errors through; secp256k1 yields Ecc |
| `PrivateKeys.DecryptData` | src/private_key.rs:282-298 | RSA decrypts with the primitive; secp256k1 fails with NotSupport |
| `PrivateKeys.Decrypt` | src/private_key.rs:265-280 | decryption errors pass through; an output shorter than the plaintext fails with InvalidFormat; otherwise only `output[..n]` is overwritten and `n` returned |
| `PrivateKeys.Secp256k1AesKey` | src/private_key.rs:364-366 | the session key is 48 bytes: the shared secret, then the first 16 bytes of its digest |
| `PrivateKeys.AesKeyUnwrap` | src/private_key.rs:318-369 | the unwrap consumes exactly the modulus size (RSA) or 33 bytes (secp256k1); shorter input fails with InvalidFormat; the remainder is the input after them; RSA decryption errors pass through, otherwise the key is the decrypted block; for secp256k1 an ephemeral point that does not parse fails with InvalidFormat, a failed decapsulation with CryptoError, and otherwise the key is the shared secret followed by the first 16 bytes of its digest |
| `PrivateKeys.AesKeyUnwrapChains` | src/private_key.rs:622-627 | bytes appended after a wrapped key leave the session key unchanged and are returned after the old remainder |
| `PrivateKeys.DecryptAeskeyData` | src/private_key.rs:318-370 | the imperative unwrap, including the 48-byte array it fills, computes `AesKeyUnwrap` |
| `PrivateKeys.DecryptAeskey` | src/private_key.rs:300-316 | unwrap errors pass through; an output shorter than the session key fails with InvalidParam; otherwise only `output[..n]` is overwritten and the remainder and `n` returned |
| `RawCodec.WriteU64` | src/signature.rs:133 | `u64::raw_encode` writes the 8 bytes of the codec's encoding at the position and returns the position after them |
| `RawCodec.WriteU16` | src/private_key.rs:488 | `u16::raw_encode` writes the 2 bytes of the codec's encoding at the position and returns the position after them |
| `RawCodec.Write` | src/hash.rs:71-73 | a copy into `buf[at..]` changes exactly those `|src|` bytes, to `src` |

## Left out

- Cryptographic primitives. These are RSA PKCS#1 v1.5 signing and decryption (sections 8.2 and 7.2 of RFC 8017), DER RSAPrivateKey import and export (appendix A.1.2 of RFC 8017), secp256k1 ECDSA, ECIES decapsulation, and public-key point parsing. They are foreign calls, so they are uninterpreted `Crypto.Primitives` fields with only the facts listed above.
- `hash_data` (SHA-256): `hash_util.rs` is not part of this model. It is a function returning a `HashValue`, so always 32 bytes.
- Base58 conversion: another crate. It is abstract, with the round trip and the 64-byte fact.
- `bucky_raw_codec`: that library is not part of this model. Its `u16`/`u64` encoders are abstract fixed-width encoders with both round trips, and no byte order is assumed. A `u8` is written as the byte itself. Its error on a short buffer is `IntCodec.underflow`.
- Randomness and the clock: `thread_rng`, `bucky_time_now`, `generate_rsa` and `generate_secp256k1` draw from the environment. The model takes the generator's results and the time as parameters.
- `public`, `PublicKey`, `verify`, `gen_aeskey_and_encrypt`, `key_size`: `public_key.rs` is not part of this model. The RSA `key_size` is the `rsaPublicKeySize` primitive.
- X.509 issuance: `gen_ca_certificate` and `gen_leaf_certificate` are thin wrappers over an external certificate builder.
- `Signature::default`: it reads the clock.
- Redacted `Debug`/`Display`, the `Hash` trait impl, logging and error messages: these are not byte-level behaviour.
- The `u32`-word representation of payloads and the unsafe copies: they preserve bytes, so payloads are byte sequences.
- `PrivateKeys.RawMeasure`: a DER export failure, which would be CryptoError in `raw_measure` and a panic through `unwrap` in `raw_encode`, is not modelled. DER export is a total primitive.
- `PrivateKeys.DecodeEncoding`: the round trip is stated only for RSA keys whose DER is under 65536 bytes. This is because the length is cast to `u16`, which truncates (see `LongDerTruncated`). Keys at the supported sizes are far below that.
- `PrivateKeys.Sign`: it assumes the RSA primitive returns a signature of the key's size. The source asserts this and panics otherwise.
- `Hash.FromStr`: hexadecimal is decoded character by character, whereas the `hex` crate works on bytes. Either way, a text with a non-ASCII character fails with InvalidFormat.

## Findings

| source | as written | input that shows it | evidently intended | confidence | as-written member | corrected member |
|---|---|---|---|---|---|---|
| src/private_key.rs:551-554 | The unknown-tag error message formats `buf[0]` after `buf` has been rebound to the bytes following the tag. | The one-byte input `[1]` makes it index an empty slice, which panics. On longer input it reports the byte after the tag instead of the tag. | Fail with InvalidData for every unknown tag, without reading past it, as every other malformed input does. | not executed; high | `PrivateKeys.DecodeAsWritten` | `PrivateKeys.Decode` |
