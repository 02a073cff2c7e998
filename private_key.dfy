/** The private key: its algorithm type and text names, the RSA size check, the
    wire codec (`tag | u16 length | DER` for RSA, `tag | 32-byte scalar` for
    secp256k1), the construction of what is signed, and the unwrapping of a
    session key from a chain of wrapped-key blocks. The arithmetic is left to
    `Crypto.Primitives`. */
module PrivateKeys {
  import opened RawCodec
  import opened Hash
  import opened Signatures
  import opened Crypto

  const RSA_KEY_BITS: nat := 1024
  const RSA2048_KEY_BITS: nat := 2048
  const RSA3072_KEY_BITS: nat := 3072

  const RSA_KEY_BYTES: nat := 128
  const RSA2048_KEY_BYTES: nat := 256
  const RSA3072_KEY_BYTES: nat := 384

  const DEFAULT_RSA_BITS: nat := 1024

  /** secp256k1 sizes: a serialised secret key and a compressed public key. */
  const SECRET_KEY_SIZE: nat := 32
  const COMPRESSED_PUBLIC_KEY_SIZE: nat := 33

  // ---------------------------------------------------------------------------
  // Key types and their names

  datatype PrivateKeyType = Rsa | Secp256k1
  {
    /** `as_str`. */
    function AsStr(): (s: string)
      ensures s == "rsa" || s == "secp256k1"
    {
      match this
      case Rsa => "rsa"
      case Secp256k1 => "secp256k1"
    }

    /** `FromStr`: exactly the two names, anything else fails with InvalidData. */
    static function FromStr(s: string): (r: Result<PrivateKeyType>)
      ensures r.Ok? <==> s == "rsa" || s == "secp256k1"
      ensures r.Err? ==> r.error == InvalidData
      ensures r.Ok? ==> r.value.AsStr() == s
    {
      if s == "rsa" then Ok(PrivateKeyType.Rsa)
      else if s == "secp256k1" then Ok(PrivateKeyType.Secp256k1)
      else Err(InvalidData)
    }
  }

  /** Reading back the name of a type gives that type. */
  lemma KeyTypeNameRoundTrip(t: PrivateKeyType)
    ensures PrivateKeyType.FromStr(t.AsStr()) == Ok(t)
  {
  }

  // ---------------------------------------------------------------------------
  // Keys, generation

  datatype PrivateKey<R, S> = Rsa(rsa: R) | Secp256k1(secp: S)
  {
    /** `key_type`. */
    function KeyType(): (t: PrivateKeyType)
      ensures t == PrivateKeyType.Rsa <==> Rsa?
    {
      match this
      case Rsa(_) => PrivateKeyType.Rsa
      case Secp256k1(_) => PrivateKeyType.Secp256k1
    }
  }

  /** `check_bits`: exactly 1024, 2048 and 3072 are accepted, any other size fails
      with UnSupport. */
  function CheckBits(bits: nat): (r: Result<()>)
    ensures r.Ok? <==> bits == 1024 || bits == 2048 || bits == 3072
    ensures r.Err? ==> r.error == UnSupport
  {
    if bits == RSA_KEY_BITS || bits == RSA2048_KEY_BITS || bits == RSA3072_KEY_BITS then Ok(())
    else Err(UnSupport)
  }

  /** `generate_rsa_by_rng`. `rsaNew` is the RSA key generator fed by the caller's
      random source. */
  function GenerateRsaByRng<R(!new), S(!new)>(rsaNew: nat -> Result<R>, bits: nat): (r: Result<PrivateKey<R, S>>)
    ensures CheckBits(bits).Err? ==> r == Err(UnSupport)
    ensures r.Ok? <==> CheckBits(bits).Ok? && rsaNew(bits).Ok?
    ensures r.Ok? ==> r.value == PrivateKey.Rsa(rsaNew(bits).value)
  {
    match CheckBits(bits)
    case Err(e) => Err(e)
    case Ok(_) =>
      match rsaNew(bits)
      case Ok(k) => Ok(PrivateKey.Rsa(k))
      case Err(e) => Err(e)
  }

  /** `generate_by_rng`: RSA at the requested size, 1024 bits when none is given;
      secp256k1 from the random source (`secpRandom`). */
  function GenerateByRng<R(!new), S(!new)>(rsaNew: nat -> Result<R>, secpRandom: S, bits: Option<nat>, pt: PrivateKeyType)
    : (r: Result<PrivateKey<R, S>>)
    ensures r.Ok? ==> r.value.KeyType() == pt
    ensures pt == PrivateKeyType.Rsa && bits.None? ==> r == GenerateRsaByRng(rsaNew, 1024)
    ensures pt == PrivateKeyType.Rsa && bits.Some? ==> r == GenerateRsaByRng(rsaNew, bits.value)
    ensures pt == PrivateKeyType.Secp256k1 ==> r == Ok(PrivateKey.Secp256k1(secpRandom))
  {
    match pt
    case Rsa => GenerateRsaByRng(rsaNew, if bits.Some? then bits.value else DEFAULT_RSA_BITS)
    case Secp256k1 => Ok(PrivateKey.Secp256k1(secpRandom))
  }

  /** The default size is a supported one: without a size, RSA generation fails
      only when the generator itself does. */
  lemma DefaultBitsSupported<R(!new), S(!new)>(rsaNew: nat -> Result<R>, secpRandom: S)
    ensures GenerateByRng(rsaNew, secpRandom, None, PrivateKeyType.Rsa).Ok? <==> rsaNew(1024).Ok?
  {
  }

  // ---------------------------------------------------------------------------
  // Wire codec

  /** `raw_measure`. */
  function RawMeasure<R(!new), S(!new)>(p: Primitives<R, S>, key: PrivateKey<R, S>): (n: nat)
    ensures key.Rsa? ==> n == |p.rsaToDer(key.rsa)| + 3
    ensures key.Secp256k1? ==> n == SECRET_KEY_SIZE + 1
  {
    match key
    case Rsa(k) => |p.rsaToDer(k)| + 3
    case Secp256k1(_) => SECRET_KEY_SIZE + 1
  }

  /** The bytes `raw_encode` writes. Every RSA key is written with tag 0, whatever
      its size. The DER length is cast to `u16`, which truncates. */
  function Encoding<R(!new), S(!new)>(p: Primitives<R, S>, c: IntCodec, key: PrivateKey<R, S>): (e: seq<uint8>)
    requires p.Valid() && c.Valid()
    ensures |e| == RawMeasure(p, key)
    ensures e[0] == if key.Rsa? then KEY_TYPE_RSA else KEY_TYPE_SECP256K1
  {
    match key
    case Rsa(k) =>
      var der := p.rsaToDer(k);
      [KEY_TYPE_RSA] + c.encode16(|der| % 0x1_0000) + der
    case Secp256k1(s) =>
      [KEY_TYPE_SECP256K1] + p.secpSerialize(s)
  }

  /** `raw_encode` into the caller's slice `buf[at..]`: OutOfLimit, writing nothing,
      when the slice is shorter than `RawMeasure`; otherwise the tag, (for RSA) the
      length and the key bytes, returning the position just after them. */
  method Encode<R(!new), S(!new)>(p: Primitives<R, S>, c: IntCodec, key: PrivateKey<R, S>, buf: array<uint8>, at: nat)
    returns (r: Result<nat>)
    requires p.Valid() && c.Valid() && at <= buf.Length
    modifies buf
    ensures r.Err? <==> buf.Length - at < RawMeasure(p, key)
    ensures r.Err? ==> r.error == OutOfLimit && buf[..] == old(buf[..])
    ensures r.Ok? ==> r.value == at + RawMeasure(p, key)
    ensures r.Ok? ==> buf[..] == Overwrite(old(buf[..]), at, Encoding(p, c, key))
  {
    var size := RawMeasure(p, key);
    if buf.Length - at < size {
      return Err(OutOfLimit);
    }
    ghost var before := buf[..];
    match key
    case Rsa(k) =>
      var der := p.rsaToDer(k);
      Write([KEY_TYPE_RSA], buf, at);
      var cur := WriteU16(c, |der| % 0x1_0000, buf, at + 1);
      Write(der, buf, cur);
      OverwriteTwice(before, at, [KEY_TYPE_RSA], c.encode16(|der| % 0x1_0000));
      OverwriteTwice(before, at, [KEY_TYPE_RSA] + c.encode16(|der| % 0x1_0000), der);
      r := Ok(cur + |der|);
    case Secp256k1(s) =>
      Write([KEY_TYPE_SECP256K1], buf, at);
      var keyBuf := p.secpSerialize(s);
      Write(keyBuf, buf, at + 1);
      OverwriteTwice(before, at, [KEY_TYPE_SECP256K1], keyBuf);
      r := Ok(at + 1 + SECRET_KEY_SIZE);
  }

  /** The RSA branch of `raw_decode`, on the bytes after the tag: a `u16` length,
      then that many bytes of DER. */
  function DecodeRsa<R(!new), S(!new)>(p: Primitives<R, S>, c: IntCodec, buf: seq<uint8>): (r: Result<(PrivateKey<R, S>, seq<uint8>)>)
    ensures |buf| < 2 ==> r == Err(c.underflow)
    ensures |buf| >= 2 && |buf| - 2 < c.decode16(buf[..2]) ==> r == Err(OutOfLimit)
    ensures r.Ok? ==> |buf| >= 2 && 2 + c.decode16(buf[..2]) <= |buf|
    ensures r.Ok? ==> r.value.0.Rsa? && r.value.1 == buf[2 + c.decode16(buf[..2])..]
    ensures |buf| >= 2 && 2 + c.decode16(buf[..2]) <= |buf| ==>
      var der := buf[2..2 + c.decode16(buf[..2])];
      && (p.rsaFromDer(der).None? ==> r == Err(CryptoError))
      && (p.rsaFromDer(der).Some? ==> r.Ok? && r.value.0 == PrivateKey.Rsa(p.rsaFromDer(der).value))
  {
    if |buf| < 2 then Err(c.underflow)
    else
      var len := c.decode16(buf[..2]);
      var afterLen := buf[2..];
      if |afterLen| < len then Err(OutOfLimit)
      else
        assert afterLen[..len] == buf[2..2 + len];
        match p.rsaFromDer(afterLen[..len])
        case None => Err(CryptoError)
        case Some(k) => Ok((PrivateKey.Rsa(k), afterLen[len..]))
  }

  /** The secp256k1 branch of `raw_decode`, on the bytes after the tag: 32 bytes
      of scalar; one the curve library rejects fails with InvalidFormat. */
  function DecodeSecp256k1<R(!new), S(!new)>(p: Primitives<R, S>, buf: seq<uint8>): (r: Result<(PrivateKey<R, S>, seq<uint8>)>)
    ensures |buf| < SECRET_KEY_SIZE ==> r == Err(OutOfLimit)
    ensures r.Ok? ==> |buf| >= SECRET_KEY_SIZE && r.value.0.Secp256k1? && r.value.1 == buf[SECRET_KEY_SIZE..]
    ensures |buf| >= SECRET_KEY_SIZE && p.secpParse(buf[..SECRET_KEY_SIZE]).None? ==> r == Err(InvalidFormat)
    ensures |buf| >= SECRET_KEY_SIZE && p.secpParse(buf[..SECRET_KEY_SIZE]).Some? ==>
      r == Ok((PrivateKey.Secp256k1(p.secpParse(buf[..SECRET_KEY_SIZE]).value), buf[SECRET_KEY_SIZE..]))
  {
    if |buf| < SECRET_KEY_SIZE then Err(OutOfLimit)
    else
      match p.secpParse(buf[..SECRET_KEY_SIZE])
      case None => Err(InvalidFormat)
      case Some(s) => Ok((PrivateKey.Secp256k1(s), buf[SECRET_KEY_SIZE..]))
  }

  /** `raw_decode`, with the unknown-tag error reported without reading past the
      tag. Empty input fails with OutOfLimit; tags other than 0 and 5 (1 and 2
      included) fail with InvalidData. */
  function Decode<R(!new), S(!new)>(p: Primitives<R, S>, c: IntCodec, buf: seq<uint8>): (r: Result<(PrivateKey<R, S>, seq<uint8>)>)
    ensures |buf| == 0 ==> r == Err(OutOfLimit)
    ensures |buf| > 0 && buf[0] != KEY_TYPE_RSA && buf[0] != KEY_TYPE_SECP256K1 ==> r == Err(InvalidData)
    ensures |buf| > 0 && buf[0] == KEY_TYPE_RSA ==> r == DecodeRsa(p, c, buf[1..])
    ensures |buf| > 0 && buf[0] == KEY_TYPE_SECP256K1 ==> r == DecodeSecp256k1(p, buf[1..])
    ensures r.Ok? ==> (r.value.0.Rsa? <==> buf[0] == KEY_TYPE_RSA)
    ensures r.Ok? && buf[0] == KEY_TYPE_SECP256K1 ==>
      |buf| >= 1 + SECRET_KEY_SIZE && r.value.1 == buf[1 + SECRET_KEY_SIZE..]
    ensures r.Ok? && buf[0] == KEY_TYPE_RSA ==>
      |buf| >= 3 && 3 + c.decode16(buf[1..3]) <= |buf| && r.value.1 == buf[3 + c.decode16(buf[1..3])..]
  {
    if |buf| < 1 then Err(OutOfLimit)
    else
      var typeCode, afterTag := buf[0], buf[1..];
      if typeCode == KEY_TYPE_RSA then
        assert |afterTag| >= 2 ==> afterTag[..2] == buf[1..3];
        DecodeRsa(p, c, afterTag)
      else if typeCode == KEY_TYPE_SECP256K1 then DecodeSecp256k1(p, afterTag)
      else Err(InvalidData)
  }

  /** Whether the unknown-tag branch of `raw_decode` as written can read the byte
      it puts in its error message: the first byte after the tag. */
  predicate ReportedByteExists(buf: seq<uint8>) {
    |buf| > 0 && buf[0] != KEY_TYPE_RSA && buf[0] != KEY_TYPE_SECP256K1 ==> |buf| >= 2
  }

  /** `raw_decode` as written: its unknown-tag branch formats `buf[0]` after `buf`
      has been rebound to the bytes following the tag, so it reads one byte past
      the tag, and indexes an empty slice when the tag is the last byte. Wherever
      that index is in bounds it agrees with `Decode`. */
  function DecodeAsWritten<R(!new), S(!new)>(p: Primitives<R, S>, c: IntCodec, buf: seq<uint8>)
    : (r: Result<(PrivateKey<R, S>, seq<uint8>)>)
    requires ReportedByteExists(buf)
    ensures r == Decode(p, c, buf)
  {
    if |buf| < 1 then Err(OutOfLimit)
    else
      var typeCode, afterTag := buf[0], buf[1..];
      if typeCode == KEY_TYPE_RSA then DecodeRsa(p, c, afterTag)
      else if typeCode == KEY_TYPE_SECP256K1 then DecodeSecp256k1(p, afterTag)
      else
        var reported := afterTag[0];
        Err(InvalidData)
  }

  /** A single byte holding an unknown tag is an input `DecodeAsWritten` cannot
      take (the source panics on it), while `Decode` reports InvalidData. */
  lemma LoneUnknownTag<R(!new), S(!new)>(p: Primitives<R, S>, c: IntCodec, tag: uint8)
    requires tag != KEY_TYPE_RSA && tag != KEY_TYPE_SECP256K1
    ensures !ReportedByteExists([tag])
    ensures Decode(p, c, [tag]) == Err(InvalidData)
  {
  }

  /** The keys whose DER fits the `u16` length field. */
  predicate LengthFits<R(!new), S(!new)>(p: Primitives<R, S>, key: PrivateKey<R, S>) {
    key.Rsa? ==> |p.rsaToDer(key.rsa)| < 0x1_0000
  }

  /** The RSA branch of the round trip. */
  lemma DecodeRsaEncoding<R(!new), S(!new)>(p: Primitives<R, S>, c: IntCodec, k: R, rest: seq<uint8>)
    requires p.Valid() && c.Valid() && |p.rsaToDer(k)| < 0x1_0000
    ensures Decode(p, c, [KEY_TYPE_RSA] + c.encode16(|p.rsaToDer(k)|) + p.rsaToDer(k) + rest)
         == Ok((PrivateKey.Rsa(k), rest))
  {
    var der := p.rsaToDer(k);
    var len := c.encode16(|der|);
    var buf := [KEY_TYPE_RSA] + len + der + rest;
    var afterTag := len + der + rest;
    assert buf[1..] == afterTag;
    assert afterTag[..2] == len;
    assert afterTag[2..] == der + rest;
    assert (der + rest)[..|der|] == der;
    assert (der + rest)[|der|..] == rest;
  }

  /** The secp256k1 branch of the round trip. */
  lemma DecodeSecp256k1Encoding<R(!new), S(!new)>(p: Primitives<R, S>, c: IntCodec, s: S, rest: seq<uint8>)
    requires p.Valid()
    ensures Decode(p, c, [KEY_TYPE_SECP256K1] + p.secpSerialize(s) + rest) == Ok((PrivateKey.Secp256k1(s), rest))
  {
    var scalar := p.secpSerialize(s);
    var buf := [KEY_TYPE_SECP256K1] + scalar + rest;
    assert buf[1..] == scalar + rest;
    assert (scalar + rest)[..SECRET_KEY_SIZE] == scalar;
    assert (scalar + rest)[SECRET_KEY_SIZE..] == rest;
  }

  /** Round trip: decoding an encoding followed by any bytes gives the key back
      and hands back exactly those bytes. */
  lemma DecodeEncoding<R(!new), S(!new)>(p: Primitives<R, S>, c: IntCodec, key: PrivateKey<R, S>, rest: seq<uint8>)
    requires p.Valid() && c.Valid() && LengthFits(p, key)
    ensures Decode(p, c, Encoding(p, c, key) + rest) == Ok((key, rest))
  {
    match key
    case Rsa(k) =>
      var der := p.rsaToDer(k);
      assert |der| % 0x1_0000 == |der|;
      assert Encoding(p, c, key) == [KEY_TYPE_RSA] + c.encode16(|der|) + der;
      DecodeRsaEncoding(p, c, k, rest);
    case Secp256k1(s) =>
      assert Encoding(p, c, key) == [KEY_TYPE_SECP256K1] + p.secpSerialize(s);
      DecodeSecp256k1Encoding(p, c, s, rest);
  }

  /** What the crate's tests check: a key encoded on its own decodes with nothing
      left over. */
  lemma EncodingRoundTrip<R(!new), S(!new)>(p: Primitives<R, S>, c: IntCodec, key: PrivateKey<R, S>)
    requires p.Valid() && c.Valid() && LengthFits(p, key)
    ensures Decode(p, c, Encoding(p, c, key)) == Ok((key, []))
  {
    DecodeEncoding(p, c, key, []);
    assert Encoding(p, c, key) + [] == Encoding(p, c, key);
  }

  /** Why `LengthFits` is needed: a longer DER gets a truncated length field. */
  lemma LongDerTruncated<R(!new), S(!new)>(p: Primitives<R, S>, c: IntCodec, key: PrivateKey<R, S>)
    requires p.Valid() && c.Valid() && !LengthFits(p, key)
    ensures c.decode16(Encoding(p, c, key)[1..3]) != |p.rsaToDer(key.rsa)|
  {
    var der := p.rsaToDer(key.rsa);
    assert Encoding(p, c, key)[1..3] == c.encode16(|der| % 0x1_0000);
  }

  // ---------------------------------------------------------------------------
  // Signing

  /** What is hashed and signed: the message followed by the encoded time. */
  function SignInput(c: IntCodec, data: seq<uint8>, signTime: uint64): (m: seq<uint8>)
    requires c.Valid()
    ensures |m| == |data| + 8 && m[..|data|] == data && c.decode64(m[|data|..]) == signTime
  {
    data + c.encode64(signTime)
  }

  /** The `SignData` variant for an RSA signature, chosen by the key size in bytes. */
  function RsaSignData(size: nat, sign: seq<uint8>): (r: Result<SignData>)
    requires |sign| == size
    ensures r.Ok? <==> size == 128 || size == 256 || size == 384
    ensures r.Err? ==> r.error == UnSupport
    ensures r.Ok? ==> r.value.AsSlice() == sign
    ensures r.Ok? ==> (r.value.Rsa1024? <==> size == 128)
    ensures r.Ok? ==> (r.value.Rsa2048? <==> size == 256)
    ensures r.Ok? ==> (r.value.Rsa3072? <==> size == 384)
  {
    if size == RSA_KEY_BYTES then Ok(Rsa1024(sign))
    else if size == RSA2048_KEY_BYTES then Ok(Rsa2048(sign))
    else if size == RSA3072_KEY_BYTES then Ok(Rsa3072(sign))
    else Err(UnSupport)
  }

  /** `sign`, with the clock reading passed in as `now`: the message is copied into
      a buffer eight bytes longer, the time is encoded into its tail, and the
      digest of the whole is signed. The signature carries that same time. */
  method Sign<R(!new), S(!new)>(p: Primitives<R, S>, c: IntCodec, key: PrivateKey<R, S>, data: seq<uint8>, now: uint64)
    returns (r: Result<Signature>)
    requires p.Valid() && c.Valid()
    ensures r.Ok? ==> r.value.signTime == now
    ensures key.Rsa? ==>
      var signed := p.rsaSign(key.rsa, p.hashData(SignInput(c, data, now)).bytes);
      && (signed.Err? ==> r == Err(signed.error))
      && (signed.Ok? ==> var variant := RsaSignData(p.rsaSize(key.rsa), signed.value);
                         r == if variant.Ok? then Ok(Signature(now, variant.value)) else Err(variant.error))
    ensures key.Secp256k1? ==>
      r == Ok(Signature(now, Ecc(p.secpSign(key.secp, p.hashData(SignInput(c, data, now)).bytes))))
  {
    var dataNew := new uint8[|data| + 8];
    Write(data, dataNew, 0);
    var end := WriteU64(c, now, dataNew, |data|);
    assert dataNew[..] == SignInput(c, data, now);
    var hash := p.hashData(dataNew[..]);
    match key
    case Rsa(k) =>
      var signed := p.rsaSign(k, hash.bytes);
      if signed.Err? {
        return Err(signed.error);
      }
      var signData := RsaSignData(p.rsaSize(k), signed.value);
      if signData.Err? {
        return Err(signData.error);
      }
      r := Ok(Signature(now, signData.value));
    case Secp256k1(s) =>
      var sign := p.secpSign(s, hash.bytes);
      r := Ok(Signature(now, Ecc(sign)));
  }

  // ---------------------------------------------------------------------------
  // Decryption and session-key unwrap

  /** `decrypt_data`: RSA decryption; a secp256k1 key fails with NotSupport. */
  function DecryptData<R(!new), S(!new)>(p: Primitives<R, S>, key: PrivateKey<R, S>, input: seq<uint8>): (r: Result<seq<uint8>>)
    ensures key.Secp256k1? ==> r == Err(NotSupport)
    ensures key.Rsa? ==> r == p.rsaDecrypt(key.rsa, input)
  {
    match key
    case Rsa(k) => p.rsaDecrypt(k, input)
    case Secp256k1(_) => Err(NotSupport)
  }

  /** `decrypt`: the plaintext is copied into `output[..n]` and `n` returned; an
      output shorter than the plaintext fails with InvalidFormat. On failure, and
      beyond `n`, the output is untouched. */
  method Decrypt<R(!new), S(!new)>(p: Primitives<R, S>, key: PrivateKey<R, S>, input: seq<uint8>, output: array<uint8>)
    returns (r: Result<nat>)
    modifies output
    ensures var plain := DecryptData(p, key, input);
      && (plain.Err? ==> r == Err(plain.error))
      && (plain.Ok? && output.Length < |plain.value| ==> r == Err(InvalidFormat))
      && (plain.Ok? && |plain.value| <= output.Length ==>
            r == Ok(|plain.value|) && output[..] == plain.value + old(output[|plain.value|..]))
    ensures r.Err? ==> output[..] == old(output[..])
  {
    var plain := DecryptData(p, key, input);
    if plain.Err? {
      return Err(plain.error);
    }
    var buf := plain.value;
    if output.Length < |buf| {
      return Err(InvalidFormat);
    }
    Write(buf, output, 0);
    r := Ok(|buf|);
  }

  /** How many bytes of the input a key's wrapped session key occupies: the
      modulus size for RSA, a compressed point for secp256k1. */
  function WrappedKeySize<R(!new), S(!new)>(p: Primitives<R, S>, key: PrivateKey<R, S>): nat {
    match key
    case Rsa(k) => p.rsaPublicKeySize(k)
    case Secp256k1(_) => COMPRESSED_PUBLIC_KEY_SIZE
  }

  /** The 48-byte secp256k1 session key: the shared secret, then the first 16
      bytes of its digest. */
  function Secp256k1AesKey<R(!new), S(!new)>(p: Primitives<R, S>, secret: seq<uint8>): (key: seq<uint8>)
    requires |secret| == 32
    ensures |key| == 48
    ensures key[..32] == secret && key[32..] == p.hashData(secret).bytes[..16]
  {
    secret + p.hashData(secret).bytes[..16]
  }

  /** What `decrypt_aeskey_data` computes: the remainder of the input after the
      wrapped key, and the session key. It consumes exactly `WrappedKeySize` bytes:
      a shorter input fails with InvalidFormat, and on success the remainder is the
      input after them. A secp256k1 session key is always 48 bytes, and an RSA one
      is the decryption of the consumed block. */
  function AesKeyUnwrap<R(!new), S(!new)>(p: Primitives<R, S>, key: PrivateKey<R, S>, input: seq<uint8>)
    : (r: Result<(seq<uint8>, seq<uint8>)>)
    requires p.Valid()
    ensures |input| < WrappedKeySize(p, key) ==> r == Err(InvalidFormat)
    ensures r.Ok? ==> WrappedKeySize(p, key) <= |input| && r.value.0 == input[WrappedKeySize(p, key)..]
    ensures r.Ok? && key.Secp256k1? ==> |r.value.1| == 48
    ensures r.Ok? && key.Rsa? ==> DecryptData(p, key, input[..WrappedKeySize(p, key)]) == Ok(r.value.1)
    ensures key.Rsa? && WrappedKeySize(p, key) <= |input| ==>
      var d := DecryptData(p, key, input[..WrappedKeySize(p, key)]);
      (d.Err? ==> r == Err(d.error)) && (d.Ok? ==> r.Ok?)
    ensures key.Secp256k1? && COMPRESSED_PUBLIC_KEY_SIZE <= |input| ==>
      var e := input[..COMPRESSED_PUBLIC_KEY_SIZE];
      && (!p.secpParsesPublicKey(e) ==> r == Err(InvalidFormat))
      && (p.secpParsesPublicKey(e) && p.secpDecapsulate(e, key.secp).None? ==> r == Err(CryptoError))
      && (p.secpParsesPublicKey(e) && p.secpDecapsulate(e, key.secp).Some? ==>
            r == Ok((input[COMPRESSED_PUBLIC_KEY_SIZE..], Secp256k1AesKey(p, p.secpDecapsulate(e, key.secp).value))))
  {
    match key
    case Rsa(k) =>
      var keySize := p.rsaPublicKeySize(k);
      if |input| < keySize then Err(InvalidFormat)
      else
        (match DecryptData(p, key, input[..keySize])
         case Err(e) => Err(e)
         case Ok(buf) => Ok((input[keySize..], buf)))
    case Secp256k1(s) =>
      if |input| < COMPRESSED_PUBLIC_KEY_SIZE then Err(InvalidFormat)
      else
        var ephemeral := input[..COMPRESSED_PUBLIC_KEY_SIZE];
        if !p.secpParsesPublicKey(ephemeral) then Err(InvalidFormat)
        else
          match p.secpDecapsulate(ephemeral, s)
          case None => Err(CryptoError)
          case Some(secret) => Ok((input[COMPRESSED_PUBLIC_KEY_SIZE..], Secp256k1AesKey(p, secret)))
  }

  /** Wrapped keys can be chained: bytes appended after a wrapped key leave the
      session key unchanged and come back, after the old remainder, as the new one. */
  lemma AesKeyUnwrapChains<R(!new), S(!new)>(p: Primitives<R, S>, key: PrivateKey<R, S>, input: seq<uint8>, extra: seq<uint8>)
    requires p.Valid() && WrappedKeySize(p, key) <= |input|
    ensures var before, after := AesKeyUnwrap(p, key, input), AesKeyUnwrap(p, key, input + extra);
      && (before.Err? ==> after == before)
      && (before.Ok? ==> after == Ok((before.value.0 + extra, before.value.1)))
  {
    var n := WrappedKeySize(p, key);
    assert (input + extra)[..n] == input[..n];
    assert (input + extra)[n..] == input[n..] + extra;
  }

  /** `decrypt_aeskey_data`; for secp256k1 the session key is assembled in a local
      48-byte array. */
  method DecryptAeskeyData<R(!new), S(!new)>(p: Primitives<R, S>, key: PrivateKey<R, S>, input: seq<uint8>)
    returns (r: Result<(seq<uint8>, seq<uint8>)>)
    requires p.Valid()
    ensures r == AesKeyUnwrap(p, key, input)
  {
    match key
    case Rsa(k) =>
      var keySize := p.rsaPublicKeySize(k);
      if |input| < keySize {
        return Err(InvalidFormat);
      }
      var buf := DecryptData(p, key, input[..keySize]);
      if buf.Err? {
        return Err(buf.error);
      }
      r := Ok((input[keySize..], buf.value));
    case Secp256k1(s) =>
      if |input| < COMPRESSED_PUBLIC_KEY_SIZE {
        return Err(InvalidFormat);
      }
      var ephemeral := input[..COMPRESSED_PUBLIC_KEY_SIZE];
      if !p.secpParsesPublicKey(ephemeral) {
        return Err(InvalidFormat);
      }
      var aesKey := p.secpDecapsulate(ephemeral, s);
      if aesKey.None? {
        return Err(CryptoError);
      }
      var secret := aesKey.value;
      var k := new uint8[48];
      Write(secret, k, 0);
      Write(p.hashData(secret).bytes[..16], k, |secret|);
      assert k[..] == Secp256k1AesKey(p, secret);
      r := Ok((input[COMPRESSED_PUBLIC_KEY_SIZE..], k[..]));
  }

  /** `decrypt_aeskey`: the session key is copied into `output[..n]`, and the
      remainder and `n` are returned; an output shorter than the key fails with
      InvalidParam. On failure, and beyond `n`, the output is untouched. */
  method DecryptAeskey<R(!new), S(!new)>(p: Primitives<R, S>, key: PrivateKey<R, S>, input: seq<uint8>, output: array<uint8>)
    returns (r: Result<(seq<uint8>, nat)>)
    requires p.Valid()
    modifies output
    ensures var unwrapped := AesKeyUnwrap(p, key, input);
      && (unwrapped.Err? ==> r == Err(unwrapped.error))
      && (unwrapped.Ok? && output.Length < |unwrapped.value.1| ==> r == Err(InvalidParam))
      && (unwrapped.Ok? && |unwrapped.value.1| <= output.Length ==>
            && r == Ok((unwrapped.value.0, |unwrapped.value.1|))
            && output[..] == unwrapped.value.1 + old(output[|unwrapped.value.1|..]))
    ensures r.Err? ==> output[..] == old(output[..])
  {
    var unwrapped := DecryptAeskeyData(p, key, input);
    if unwrapped.Err? {
      return Err(unwrapped.error);
    }
    var (rest, data) := unwrapped.value;
    if output.Length < |data| {
      return Err(InvalidParam);
    }
    Write(data, output, 0);
    r := Ok((rest, |data|));
  }
}
