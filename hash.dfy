/** `HashValue`: a value that is always exactly 32 bytes, its fixed-width binary
    codec, its length-checked constructors, its two text forms (lowercase Base16
    as in section 8 of RFC 4648, and base58) and its ordering. */
module Hash {
  import opened RawCodec

  const HASH_VALUE_LEN: nat := 32

  type Bytes32 = s: seq<uint8> | |s| == HASH_VALUE_LEN witness seq(32, _ => 0)

  datatype HashValue = HashValue(bytes: Bytes32)

  // ---------------------------------------------------------------------------
  // Binary codec

  /** The encoded size of a hash value: its whole 32 bytes. */
  function RawMeasure(h: HashValue): (n: nat)
    ensures n == |h.bytes| == HASH_VALUE_LEN
  {
    HASH_VALUE_LEN
  }

  /** `raw_encode` into the caller's slice `buf[at..]`: fails with OutOfLimit and
      writes nothing when fewer than 32 bytes are left; otherwise copies the 32
      bytes and returns the start of the rest of the slice. */
  method Encode(h: HashValue, buf: array<uint8>, at: nat) returns (r: Result<nat>)
    requires at <= buf.Length
    modifies buf
    ensures r.Err? <==> buf.Length - at < RawMeasure(h)
    ensures r.Err? ==> r.error == OutOfLimit && buf[..] == old(buf[..])
    ensures r.Ok? ==> r.value == at + RawMeasure(h)
    ensures r.Ok? ==> buf[..] == Overwrite(old(buf[..]), at, h.bytes)
  {
    var bytes := RawMeasure(h);
    if buf.Length - at < bytes {
      return Err(OutOfLimit);
    }
    Write(h.bytes, buf, at);
    r := Ok(at + bytes);
  }

  /** `raw_decode`: the first 32 bytes are the value, the rest is handed back. */
  function Decode(buf: seq<uint8>): (r: Result<(HashValue, seq<uint8>)>)
    ensures r.Err? <==> |buf| < HASH_VALUE_LEN
    ensures r.Err? ==> r.error == OutOfLimit
    ensures r.Ok? ==> buf == r.value.0.bytes + r.value.1
  {
    if |buf| < HASH_VALUE_LEN then Err(OutOfLimit)
    else Ok((HashValue(buf[..HASH_VALUE_LEN]), buf[HASH_VALUE_LEN..]))
  }

  /** Decoding what `Encode` wrote gives the value back, and leaves exactly the
      bytes that followed it. */
  lemma DecodeEncoding(h: HashValue, rest: seq<uint8>)
    ensures Decode(h.bytes + rest) == Ok((h, rest))
  {
    assert (h.bytes + rest)[..HASH_VALUE_LEN] == h.bytes;
    assert (h.bytes + rest)[HASH_VALUE_LEN..] == rest;
  }

  // ---------------------------------------------------------------------------
  // Length-checked constructors

  /** `TryFrom<&[u8]>` and `TryFrom<Vec<u8>>` (identical), and `clone_from_slice`. */
  function TryFrom(v: seq<uint8>): (r: Result<HashValue>)
    ensures r.Ok? <==> |v| == HASH_VALUE_LEN
    ensures r.Err? ==> r.error == InvalidData
    ensures r.Ok? ==> r.value.bytes == v
  {
    if |v| != HASH_VALUE_LEN then Err(InvalidData) else Ok(HashValue(v))
  }

  /** `ProtobufTransform<HashValue>` (and `<&HashValue>`) for `Vec<u8>`. */
  function ToProtobuf(h: HashValue): (v: seq<uint8>)
    ensures |v| == HASH_VALUE_LEN
    ensures TryFrom(v) == Ok(h)
  {
    h.bytes
  }

  /** `ProtobufTransform<Vec<u8>>` for `HashValue`: InvalidParam unless the vector
      holds exactly 32 bytes; otherwise a default value is filled with them. */
  method FromProtobuf(value: seq<uint8>) returns (r: Result<HashValue>)
    ensures r.Ok? <==> |value| == HASH_VALUE_LEN
    ensures r.Err? ==> r.error == InvalidParam
    ensures r.Ok? ==> ToProtobuf(r.value) == value
  {
    if |value| != HASH_VALUE_LEN {
      return Err(InvalidParam);
    }
    var id := new uint8[HASH_VALUE_LEN];
    Write(value, id, 0);
    assert id[..] == value;
    r := Ok(HashValue(id[..]));
  }

  // ---------------------------------------------------------------------------
  // Text: lengths in UTF-8 bytes, as `str::len` counts them

  function Utf8Width(ch: char): nat {
    if ch as int < 0x80 then 1
    else if ch as int < 0x800 then 2
    else if ch as int < 0x1_0000 then 3
    else 4
  }

  /** The number of bytes of the UTF-8 encoding of `s`. */
  function Utf8Length(s: string): (n: nat)
    ensures |s| <= n
  {
    if s == [] then 0 else Utf8Width(s[0]) + Utf8Length(s[1..])
  }

  predicate IsAscii(s: string) {
    forall i :: 0 <= i < |s| ==> s[i] as int < 0x80
  }

  lemma {:induction false} AsciiUtf8Length(s: string)
    requires IsAscii(s)
    ensures Utf8Length(s) == |s|
  {
    if s != [] {
      assert IsAscii(s[1..]) by {
        forall i | 0 <= i < |s[1..]| ensures s[1..][i] as int < 0x80 {
          assert s[1..][i] == s[i + 1];
        }
      }
      AsciiUtf8Length(s[1..]);
    }
  }

  // ---------------------------------------------------------------------------
  // Base16 (the `hex` crate): lowercase on output, either case on input

  const HEX_DIGITS: string := "0123456789abcdef"

  predicate IsLowerHex(s: string) {
    forall i :: 0 <= i < |s| ==> s[i] in HEX_DIGITS
  }

  /** The value of one hexadecimal digit, of either case. */
  function HexDigitValue(ch: char): (r: Option<nat>)
    ensures r.Some? ==> r.value < 16 && ch as int < 0x80
  {
    if '0' <= ch <= '9' then Some(ch as int - '0' as int)
    else if 'a' <= ch <= 'f' then Some(ch as int - 'a' as int + 10)
    else if 'A' <= ch <= 'F' then Some(ch as int - 'A' as int + 10)
    else None
  }

  lemma HexDigitValueOfDigit(n: nat)
    requires n < 16
    ensures HexDigitValue(HEX_DIGITS[n]) == Some(n)
  {
  }

  /** `hex::encode`: two lowercase digits per byte, high nibble first. */
  function HexEncode(b: seq<uint8>): (s: string)
    ensures |s| == 2 * |b|
    ensures IsLowerHex(s)
  {
    if b == [] then ""
    else [HEX_DIGITS[b[0] / 16], HEX_DIGITS[b[0] % 16]] + HexEncode(b[1..])
  }

  /** The byte whose high and low nibbles are `hi` and `lo`. */
  function HexByte(hi: nat, lo: nat): (b: uint8)
    requires hi < 16 && lo < 16
    ensures b as nat / 16 == hi && b as nat % 16 == lo
  {
    (hi * 16 + lo) as uint8
  }

  /** `hex::decode`: fails on an odd length or on any character that is not a
      hexadecimal digit. */
  function HexDecode(s: string): (r: Option<seq<uint8>>)
    ensures r.Some? ==> |s| == 2 * |r.value|
    decreases |s|
  {
    if s == [] then Some([])
    else if |s| == 1 then None
    else
      var hi, lo, rest := HexDigitValue(s[0]), HexDigitValue(s[1]), HexDecode(s[2..]);
      if hi.Some? && lo.Some? && rest.Some? then Some([HexByte(hi.value, lo.value)] + rest.value)
      else None
  }

  /** Two valid digits in front of a decodable text contribute one byte. */
  lemma HexDecodeCons(hi: nat, lo: nat, tail: string)
    requires hi < 16 && lo < 16 && HexDecode(tail).Some?
    ensures HexDecode([HEX_DIGITS[hi], HEX_DIGITS[lo]] + tail) == Some([HexByte(hi, lo)] + HexDecode(tail).value)
  {
    var s := [HEX_DIGITS[hi], HEX_DIGITS[lo]] + tail;
    HexDigitValueOfDigit(hi);
    HexDigitValueOfDigit(lo);
    assert s[0] == HEX_DIGITS[hi] && s[1] == HEX_DIGITS[lo];
    assert s[2..] == tail;
  }

  lemma {:induction false} HexDecodeEncode(b: seq<uint8>)
    ensures HexDecode(HexEncode(b)) == Some(b)
  {
    if b != [] {
      HexDecodeEncode(b[1..]);
      var hi, lo := b[0] as nat / 16, b[0] as nat % 16;
      HexDecodeCons(hi, lo, HexEncode(b[1..]));
      assert HexByte(hi, lo) == b[0];
      assert b == [b[0]] + b[1..];
    }
  }

  lemma {:induction false} LowerHexIsAscii(s: string)
    requires IsLowerHex(s)
    ensures IsAscii(s)
  {
    forall i | 0 <= i < |s| ensures s[i] as int < 0x80 {
      assert s[i] in HEX_DIGITS;
    }
  }

  /** Only ASCII text decodes as hexadecimal. */
  lemma {:induction false} HexDecodeIsAscii(s: string)
    requires HexDecode(s).Some?
    ensures IsAscii(s)
  {
    if s != [] {
      HexDecodeIsAscii(s[2..]);
      forall i | 2 <= i < |s| ensures s[i] as int < 0x80 {
        assert s[i] == s[2..][i - 2];
      }
    }
  }

  /** `to_hex_string`. */
  function ToHexString(h: HashValue): (s: string)
    ensures |s| == 64 && IsLowerHex(s)
  {
    HexEncode(h.bytes)
  }

  /** `from_hex_string`: InvalidFormat for text that is not hexadecimal; text that
      is hexadecimal but not 32 bytes long fails in `TryFrom` with InvalidData. */
  function FromHexString(s: string): (r: Result<HashValue>)
    ensures HexDecode(s).None? ==> r == Err(InvalidFormat)
    ensures HexDecode(s).Some? ==> r == TryFrom(HexDecode(s).value)
  {
    match HexDecode(s)
    case None => Err(InvalidFormat)
    case Some(b) => TryFrom(b)
  }

  lemma FromHexStringOfHex(h: HashValue)
    ensures FromHexString(ToHexString(h)) == Ok(h)
  {
    HexDecodeEncode(h.bytes);
  }

  /** A 64-digit hexadecimal text decodes to a value, whatever the case of its digits. */
  lemma FromHexString64(s: string)
    requires |s| == 64 && HexDecode(s).Some?
    ensures FromHexString(s).Ok?
  {
  }

  // ---------------------------------------------------------------------------
  // Base58 (the `base58` crate, not part of this model)

  /** The base58 conversion, left abstract: decoding inverts encoding, and 32 bytes
      never encode to a text of 64 UTF-8 bytes. */
  datatype Base58 = Base58(encode: seq<uint8> -> string, decode: string -> Option<seq<uint8>>)
  {
    ghost predicate Valid() {
      forall b: seq<uint8> ::
        decode(encode(b)) == Some(b) && (|b| == HASH_VALUE_LEN ==> Utf8Length(encode(b)) != 64)
    }
  }

  /** `to_base58`. */
  function ToBase58(b58: Base58, h: HashValue): (s: string)
    requires b58.Valid()
    ensures b58.decode(s) == Some(h.bytes)
  {
    b58.encode(h.bytes)
  }

  /** `from_base58`: InvalidFormat when the text is not base58, and when it does
      not decode to exactly 32 bytes. */
  function FromBase58(b58: Base58, s: string): (r: Result<HashValue>)
    ensures r.Ok? <==> b58.decode(s).Some? && |b58.decode(s).value| == HASH_VALUE_LEN
    ensures r.Err? ==> r.error == InvalidFormat
    ensures r.Ok? ==> r.value.bytes == b58.decode(s).value
  {
    match b58.decode(s)
    case None => Err(InvalidFormat)
    case Some(b) => if |b| != HASH_VALUE_LEN then Err(InvalidFormat) else Ok(HashValue(b))
  }

  /** Hexadecimal text of 64 UTF-8 bytes is 64 digits, so it decodes to 32 bytes. */
  lemma HexOf64Bytes(s: string)
    requires Utf8Length(s) == 64
    ensures HexDecode(s).Some? ==> |HexDecode(s).value| == HASH_VALUE_LEN
  {
    if HexDecode(s).Some? {
      HexDecodeIsAscii(s);
      AsciiUtf8Length(s);
    }
  }

  /** `FromStr`: a text of 64 bytes is read as hexadecimal, any other as base58.
      Every failure is InvalidFormat: a 64-byte text that is hexadecimal at all is
      ASCII, so it always decodes to exactly 32 bytes. */
  function FromStr(b58: Base58, s: string): (r: Result<HashValue>)
    ensures Utf8Length(s) == 64 ==> (r.Ok? <==> HexDecode(s).Some?)
    ensures Utf8Length(s) == 64 && r.Ok? ==> r.value.bytes == HexDecode(s).value
    ensures Utf8Length(s) != 64 ==> r == FromBase58(b58, s)
    ensures r.Err? ==> r.error == InvalidFormat
  {
    if Utf8Length(s) == 64 then
      HexOf64Bytes(s);
      FromHexString(s)
    else FromBase58(b58, s)
  }

  /** Both text forms parse back to the value they were made from. */
  lemma FromStrRoundTrip(b58: Base58, h: HashValue)
    requires b58.Valid()
    ensures FromStr(b58, ToHexString(h)) == Ok(h)
    ensures FromStr(b58, ToBase58(b58, h)) == Ok(h)
  {
    var hex := ToHexString(h);
    LowerHexIsAscii(hex);
    AsciiUtf8Length(hex);
    FromHexStringOfHex(h);
  }

  // ---------------------------------------------------------------------------
  // Ordering: the derived `Ord`, lexicographic over the bytes

  datatype Ordering = Less | Equal | Greater
  {
    function Reverse(): Ordering {
      match this
      case Less => Greater
      case Equal => Equal
      case Greater => Less
    }
  }

  /** Lexicographic comparison of byte strings, as slices of `u8` compare: two
      strings compare Equal exactly when they are the same. */
  function LexCompare(a: seq<uint8>, b: seq<uint8>): (r: Ordering)
    ensures r == Equal <==> a == b
  {
    if a == [] then (if b == [] then Equal else Less)
    else if b == [] then Greater
    else if a[0] < b[0] then Less
    else if a[0] > b[0] then Greater
    else
      assert a == [a[0]] + a[1..] && b == [b[0]] + b[1..];
      LexCompare(a[1..], b[1..])
  }

  /** The derived `Ord` of `HashValue`: the order of its bytes. */
  function Compare(x: HashValue, y: HashValue): (r: Ordering)
    ensures r == Equal <==> x == y
  {
    LexCompare(x.bytes, y.bytes)
  }

  lemma {:induction false} LexCompareReverse(a: seq<uint8>, b: seq<uint8>)
    ensures LexCompare(b, a) == LexCompare(a, b).Reverse()
  {
    if a != [] && b != [] && a[0] == b[0] {
      LexCompareReverse(a[1..], b[1..]);
    }
  }

  lemma {:induction false} LexCompareTransitive(a: seq<uint8>, b: seq<uint8>, c: seq<uint8>)
    requires LexCompare(a, b) == Less && LexCompare(b, c) == Less
    ensures LexCompare(a, c) == Less
  {
    if a != [] && a[0] == b[0] && b[0] == c[0] {
      LexCompareTransitive(a[1..], b[1..], c[1..]);
    }
  }

  /** `Compare` is a total order: equal exactly on equal values, antisymmetric,
      transitive. */
  lemma CompareIsTotalOrder(x: HashValue, y: HashValue, z: HashValue)
    ensures Compare(x, y) == Equal <==> x == y
    ensures Compare(y, x) == Compare(x, y).Reverse()
    ensures Compare(x, y) == Less && Compare(y, z) == Less ==> Compare(x, z) == Less
  {
    LexCompareReverse(x.bytes, y.bytes);
    if Compare(x, y) == Less && Compare(y, z) == Less {
      LexCompareTransitive(x.bytes, y.bytes, z.bytes);
    }
  }
}
