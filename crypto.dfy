/** The cryptographic collaborators of the key abstraction, left uninterpreted:
    the RSA and secp256k1 primitives, DER import and export, ECIES decapsulation
    and the 32-byte digest. `R` stands for an RSA private key and `S` for a
    secp256k1 secret key. Only the length facts the crate relies on, and the
    round trips of the two key serialisations, are assumed of them. */
module Crypto {
  import opened RawCodec
  import opened Hash

  datatype Primitives<!R(!new), !S(!new)> = Primitives(
    /** `hash_data`: SHA-256, a `HashValue` and so always 32 bytes. */
    hashData: seq<uint8> -> HashValue,
    /** `to_pkcs1_der` and `from_pkcs1_der` (RSAPrivateKey, appendix A.1.2 of RFC 8017). */
    rsaToDer: R -> seq<uint8>,
    rsaFromDer: seq<uint8> -> Option<R>,
    /** `RsaPrivateKey::size`: the modulus size in bytes. */
    rsaSize: R -> nat,
    /** `key_size` of the key's public half. */
    rsaPublicKeySize: R -> nat,
    /** PKCS#1 v1.5 signature over a digest (section 8.2 of RFC 8017); its error
        is the one the crate's error conversion produces. */
    rsaSign: (R, seq<uint8>) -> Result<seq<uint8>>,
    /** PKCS#1 v1.5 decryption (section 7.2 of RFC 8017). */
    rsaDecrypt: (R, seq<uint8>) -> Result<seq<uint8>>,
    /** `SecretKey::serialize` and `SecretKey::parse_slice`. */
    secpSerialize: S -> seq<uint8>,
    secpParse: seq<uint8> -> Option<S>,
    /** ECDSA over a 32-byte digest, serialised as compact r||s. */
    secpSign: (S, seq<uint8>) -> seq<uint8>,
    /** Whether `PublicKey::parse_slice` accepts the bytes as a compressed point. */
    secpParsesPublicKey: seq<uint8> -> bool,
    /** `ecies::utils::decapsulate` of a compressed ephemeral point: the shared secret. */
    secpDecapsulate: (seq<uint8>, S) -> Option<seq<uint8>>)
  {
    ghost predicate Valid() {
      && (forall k: R :: rsaFromDer(rsaToDer(k)) == Some(k))
      && (forall k: R, h: seq<uint8> :: rsaSign(k, h).Ok? ==> |rsaSign(k, h).value| == rsaSize(k))
      && (forall s: S :: |secpSerialize(s)| == 32 && secpParse(secpSerialize(s)) == Some(s))
      && (forall s: S, h: seq<uint8> :: |secpSign(s, h)| == 64)
      && (forall e: seq<uint8>, s: S :: secpDecapsulate(e, s).Some? ==> |secpDecapsulate(e, s).value| == 32)
    }
  }
}
