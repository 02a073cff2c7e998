/** Signatures: an algorithm-tagged raw signature payload of fixed width per
    algorithm, the signing time beside it, and the wire layout
    `sign_time (8 bytes) | tag (1 byte) | payload`. */
module Signatures {
  import opened RawCodec

  type Bytes128 = s: seq<uint8> | |s| == 128 witness seq(128, _ => 0)
  type Bytes256 = s: seq<uint8> | |s| == 256 witness seq(256, _ => 0)
  type Bytes384 = s: seq<uint8> | |s| == 384 witness seq(384, _ => 0)
  type Bytes64 = s: seq<uint8> | |s| == 64 witness seq(64, _ => 0)

  /** `SignData`. The source keeps each payload as an array of `u32` words
      (32, 64, 96 and 16 of them); only its bytes matter, so they are kept here. */
  datatype SignData =
    | Rsa1024(rsa1024: Bytes128)
    | Rsa2048(rsa2048: Bytes256)
    | Rsa3072(rsa3072: Bytes384)
    | Ecc(ecc: Bytes64)
  {
    /** `sign_type`: the three RSA names begin with "rsa", the ECDSA one is "ecc". */
    function SignType(): (s: string)
      ensures !Ecc? ==> |s| == 7 && s[..3] == "rsa"
      ensures s == "ecc" <==> Ecc?
    {
      match this
      case Rsa1024(_) => "rsa1024"
      case Rsa2048(_) => "rsa2048"
      case Rsa3072(_) => "rsa3072"
      case Ecc(_) => "ecc"
    }

    /** The payload width: four bytes per `u32` word. */
    function Width(): nat {
      match this
      case Rsa1024(_) => 4 * 32
      case Rsa2048(_) => 4 * 64
      case Rsa3072(_) => 4 * 96
      case Ecc(_) => 4 * 16
    }

    /** The algorithm tag written before the payload. */
    function Tag(): uint8 {
      match this
      case Rsa1024(_) => KEY_TYPE_RSA
      case Rsa2048(_) => KEY_TYPE_RSA2048
      case Rsa3072(_) => KEY_TYPE_RSA3072
      case Ecc(_) => KEY_TYPE_SECP256K1
    }

    /** `as_slice`: the payload bytes of the variant, all of them. */
    function AsSlice(): (r: seq<uint8>)
      ensures |r| == Width()
      ensures Rsa1024? ==> |r| == 128 && r == rsa1024
      ensures Rsa2048? ==> |r| == 256 && r == rsa2048
      ensures Rsa3072? ==> |r| == 384 && r == rsa3072
      ensures Ecc? ==> |r| == 64 && r == ecc
    {
      match this
      case Rsa1024(sign) => sign
      case Rsa2048(sign) => sign
      case Rsa3072(sign) => sign
      case Ecc(sign) => sign
    }
  }

  /** `Signature`, built by `Signature::new`; its accessors are the fields and `AsSlice`. */
  datatype Signature = Signature(signTime: uint64, sign: SignData)
  {
    function AsSlice(): (r: seq<uint8>)
      ensures r == sign.AsSlice()
    {
      sign.AsSlice()
    }
  }

  /** The name of a payload's type identifies its variant just as its wire tag does. */
  lemma SignTypeIdentifiesVariant(a: SignData, b: SignData)
    ensures a.SignType() == b.SignType() <==> a.Tag() == b.Tag()
  {
  }

  /** The tags a signature may carry, and the payload width each announces. */
  predicate IsSignTag(tag: uint8) {
    tag == KEY_TYPE_RSA || tag == KEY_TYPE_RSA2048 || tag == KEY_TYPE_RSA3072 || tag == KEY_TYPE_SECP256K1
  }

  function TagWidth(tag: uint8): nat
    requires IsSignTag(tag)
  {
    if tag == KEY_TYPE_RSA then 128
    else if tag == KEY_TYPE_RSA2048 then 256
    else if tag == KEY_TYPE_RSA3072 then 384
    else 64
  }

  /** `raw_measure`: the `u64` time, the `u8` tag and the payload. */
  function RawMeasure(s: Signature): (n: nat)
    ensures n == 9 + |s.AsSlice()|
    ensures s.sign.Rsa1024? ==> n == 137
    ensures s.sign.Rsa2048? ==> n == 265
    ensures s.sign.Rsa3072? ==> n == 393
    ensures s.sign.Ecc? ==> n == 73
  {
    8 + 1 + s.sign.Width()
  }

  /** The bytes `raw_encode` writes for `s`. */
  function Encoding(c: IntCodec, s: Signature): (e: seq<uint8>)
    requires c.Valid()
    ensures |e| == RawMeasure(s)
  {
    c.encode64(s.signTime) + [s.sign.Tag()] + s.sign.AsSlice()
  }

  /** `raw_encode` into the caller's slice `buf[at..]`: OutOfLimit, writing nothing,
      when the slice is shorter than `RawMeasure(s)`; otherwise the time, the tag
      and the payload are written in that order, and the position just after them
      is returned. */
  method Encode(c: IntCodec, s: Signature, buf: array<uint8>, at: nat) returns (r: Result<nat>)
    requires c.Valid() && at <= buf.Length
    modifies buf
    ensures r.Err? <==> buf.Length - at < RawMeasure(s)
    ensures r.Err? ==> r.error == OutOfLimit && buf[..] == old(buf[..])
    ensures r.Ok? ==> r.value == at + RawMeasure(s)
    ensures r.Ok? ==> buf[..] == Overwrite(old(buf[..]), at, Encoding(c, s))
  {
    var bytes := RawMeasure(s);
    if buf.Length - at < bytes {
      return Err(OutOfLimit);
    }
    ghost var before := buf[..];
    var cur := WriteU64(c, s.signTime, buf, at);
    Write([s.sign.Tag()], buf, cur);
    cur := cur + 1;
    var payload := s.sign.AsSlice();
    Write(payload, buf, cur);
    cur := cur + |payload|;
    OverwriteTwice(before, at, c.encode64(s.signTime), [s.sign.Tag()]);
    OverwriteTwice(before, at, c.encode64(s.signTime) + [s.sign.Tag()], payload);
    r := Ok(cur);
  }

  /** `raw_decode`: the time, the tag, then as many payload bytes as the tag
      announces; returns the signature and the bytes after it. */
  function Decode(c: IntCodec, buf: seq<uint8>): (r: Result<(Signature, seq<uint8>)>)
    ensures |buf| < 9 ==> r == Err(c.underflow)
    ensures |buf| >= 9 && !IsSignTag(buf[8]) ==> r == Err(NotMatch)
    ensures |buf| >= 9 && IsSignTag(buf[8]) && |buf| - 9 < TagWidth(buf[8]) ==> r == Err(OutOfLimit)
    ensures r.Ok? ==> var (sig, rest) := r.value;
                      sig.sign.Tag() == buf[8] && |buf| >= RawMeasure(sig) && rest == buf[RawMeasure(sig)..]
  {
    if |buf| < 8 then Err(c.underflow)
    else
      var signTime := c.decode64(buf[..8]);
      var afterTime := buf[8..];
      if |afterTime| < 1 then Err(c.underflow)
      else
        var keyType, payload := afterTime[0], afterTime[1..];
        if keyType == KEY_TYPE_RSA then
          if |payload| < 128 then Err(OutOfLimit)
          else Ok((Signature(signTime, Rsa1024(payload[..128])), payload[128..]))
        else if keyType == KEY_TYPE_RSA2048 then
          if |payload| < 256 then Err(OutOfLimit)
          else Ok((Signature(signTime, Rsa2048(payload[..256])), payload[256..]))
        else if keyType == KEY_TYPE_RSA3072 then
          if |payload| < 384 then Err(OutOfLimit)
          else Ok((Signature(signTime, Rsa3072(payload[..384])), payload[384..]))
        else if keyType == KEY_TYPE_SECP256K1 then
          if |payload| < 64 then Err(OutOfLimit)
          else Ok((Signature(signTime, Ecc(payload[..64])), payload[64..]))
        else Err(NotMatch)
  }

  /** Round trip: decoding an encoding followed by any bytes gives the signature
      back and hands back exactly those bytes. */
  lemma DecodeEncoding(c: IntCodec, s: Signature, rest: seq<uint8>)
    requires c.Valid()
    ensures Decode(c, Encoding(c, s) + rest) == Ok((s, rest))
  {
    var buf := Encoding(c, s) + rest;
    var time := c.encode64(s.signTime);
    assert buf[..8] == time;
    assert buf[8] == s.sign.Tag();
    assert buf[9..] == s.sign.AsSlice() + rest;
    var w := s.sign.Width();
    assert buf[9..][..w] == s.sign.AsSlice();
    assert buf[9..][w..] == rest;
  }

  /** Decoding is canonical: whatever decodes was exactly the encoding of what it
      decoded to, followed by the remainder. */
  lemma DecodeIsEncoding(c: IntCodec, buf: seq<uint8>)
    requires c.Valid() && Decode(c, buf).Ok?
    ensures var (sig, rest) := Decode(c, buf).value; buf == Encoding(c, sig) + rest
  {
    var (sig, rest) := Decode(c, buf).value;
    assert c.encode64(c.decode64(buf[..8])) == buf[..8];
    assert buf == buf[..8] + [buf[8]] + buf[9..RawMeasure(sig)] + rest;
  }

  /** The encoding/decoding round trip the crate's tests check, byte for byte. */
  lemma EncodingRoundTrip(c: IntCodec, s: Signature)
    requires c.Valid()
    ensures Decode(c, Encoding(c, s)) == Ok((s, []))
  {
    DecodeEncoding(c, s, []);
    assert Encoding(c, s) + [] == Encoding(c, s);
  }
}
