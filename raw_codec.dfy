/** Byte-level plumbing shared by every codec of the crate: integer widths, the
    error codes an operation can report, the fixed-width integer encoders of the
    raw codec library, and the copy of a byte string into a caller's buffer. */
module RawCodec {

  type uint8 = x: int | 0 <= x < 0x100
  type uint16 = x: int | 0 <= x < 0x1_0000
  type uint64 = x: int | 0 <= x < 0x1_0000_0000_0000_0000

  /** The error codes the modelled operations report. */
  datatype ErrorCode =
    | InvalidData
    | InvalidFormat
    | InvalidParam
    | OutOfLimit
    | NotMatch
    | UnSupport
    | NotSupport
    | CryptoError

  datatype Option<+T> = None | Some(value: T)

  datatype Result<+T> = Ok(value: T) | Err(error: ErrorCode)

  /** Algorithm tags written on the wire, shared by the signature and key codecs. */
  const KEY_TYPE_RSA: uint8 := 0
  const KEY_TYPE_RSA2048: uint8 := 1
  const KEY_TYPE_RSA3072: uint8 := 2
  const KEY_TYPE_SECP256K1: uint8 := 5

  /** The `u16` and `u64` encoders of the raw codec library. Their byte order is not
      fixed here: any fixed-width encoder whose decoder inverts it will do. A `u8`
      is written as the byte itself. `underflow` is the error the library's decoders
      report on a buffer shorter than the width. */
  datatype IntCodec = IntCodec(
    encode16: uint16 -> seq<uint8>,
    decode16: seq<uint8> -> uint16,
    encode64: uint64 -> seq<uint8>,
    decode64: seq<uint8> -> uint64,
    underflow: ErrorCode)
  {
    /** Fixed width, and the decoder inverts the encoder in both directions. */
    ghost predicate Valid() {
      && (forall x: uint16 :: |encode16(x)| == 2 && decode16(encode16(x)) == x)
      && (forall b: seq<uint8> :: |b| == 2 ==> encode16(decode16(b)) == b)
      && (forall x: uint64 :: |encode64(x)| == 8 && decode64(encode64(x)) == x)
      && (forall b: seq<uint8> :: |b| == 8 ==> encode64(decode64(b)) == b)
    }
  }

  /** `s` with `src` written over it from position `at` on. */
  function Overwrite(s: seq<uint8>, at: nat, src: seq<uint8>): (r: seq<uint8>)
    requires at + |src| <= |s|
    ensures |r| == |s|
  {
    s[..at] + src + s[at + |src|..]
  }

  /** Two writes back to back are one write of their concatenation. */
  lemma OverwriteTwice(s: seq<uint8>, at: nat, a: seq<uint8>, b: seq<uint8>)
    requires at + |a| + |b| <= |s|
    ensures Overwrite(Overwrite(s, at, a), at + |a|, b) == Overwrite(s, at, a + b)
  {
    var t := Overwrite(s, at, a);
    assert t[..at + |a|] == s[..at] + a;
    assert t[at + |a| + |b|..] == s[at + |a| + |b|..];
  }

  /** The byte-preserving copy (`copy_from_slice`, `ptr::copy`) of `src` into
      `buf[at..at + |src|]`; nothing else in `buf` changes. */
  method Write(src: seq<uint8>, buf: array<uint8>, at: nat)
    requires at + |src| <= buf.Length
    modifies buf
    ensures buf[..] == Overwrite(old(buf[..]), at, src)
  {
    var i := 0;
    while i < |src|
      invariant 0 <= i <= |src|
      invariant forall k :: 0 <= k < buf.Length ==>
        buf[k] == if at <= k < at + i then src[k - at] else old(buf[k])
    {
      buf[at + i] := src[i];
      i := i + 1;
    }
    assert buf[..] == Overwrite(old(buf[..]), at, src);
  }

  /** `u64::raw_encode`: the 8-byte encoding of `x` written at `at`; returns the
      position after it. Every caller has checked the room first. */
  method WriteU64(c: IntCodec, x: uint64, buf: array<uint8>, at: nat) returns (next: nat)
    requires c.Valid() && at + 8 <= buf.Length
    modifies buf
    ensures next == at + 8
    ensures buf[..] == Overwrite(old(buf[..]), at, c.encode64(x))
  {
    Write(c.encode64(x), buf, at);
    next := at + 8;
  }

  /** `u16::raw_encode`, as `WriteU64` for two bytes. */
  method WriteU16(c: IntCodec, x: uint16, buf: array<uint8>, at: nat) returns (next: nat)
    requires c.Valid() && at + 2 <= buf.Length
    modifies buf
    ensures next == at + 2
    ensures buf[..] == Overwrite(old(buf[..]), at, c.encode16(x))
  {
    Write(c.encode16(x), buf, at);
    next := at + 2;
  }
}
