/**
 The wire primitives the protocol layer is built from: bytes and unsigned
 big-endian integers of 8, 16 and 32 bits, the 2-byte-length-prefixed blob
 (`U16Bytes`), and the sequential unpacking of these from a byte buffer the
 way `tpmutil.Unpack` walks a `bytes.Buffer`.
 */
module Wire {

  type byte = x: int | 0 <= x < 0x100
  type u16 = x: int | 0 <= x < 0x1_0000
  type u32 = x: int | 0 <= x < 0x1_0000_0000
  type bytes = seq<byte>

  /** Everything that can go wrong in the protocol layer. */
  datatype Error =
    | ShortRead                        // the stream ended before a fixed-size read was filled
    | HeaderSizeTooSmall(size: u32)    // a command header declaring fewer than 10 bytes
    | UnpackShort                      // an argument unpack ran out of payload
    | BlobTooLong(length: nat)         // a blob too long for its 2-byte length prefix
    | UnsupportedCommand(cmd: u32)
    | UnsupportedCapability(capability: u32)
    | HandlerFailed                    // an error reported by the command engine
    | WriteFailed                      // the connection refused a write

  datatype Result<+T> = Ok(value: T) | Err(error: Error) {
    predicate IsFailure() { Err? }
    function PropagateFailure<U>(): Result<U> requires Err? { Err(error) }
    function Extract(): T requires Ok? { value }
  }

  /** What reading a value off the front of a stream gave, and how many
      bytes of the stream it used up doing so. */
  datatype Parsed<+T> = Parsed(result: Result<T>, consumed: nat)

  // ---------------------------------------------------------------------
  // Big-endian fixed-width encoding

  function U16BE(x: u16): (r: bytes)
    ensures |r| == 2
  {
    [x / 0x100, x % 0x100]
  }

  function U32BE(x: u32): (r: bytes)
    ensures |r| == 4
  {
    [x / 0x100_0000, x / 0x1_0000 % 0x100, x / 0x100 % 0x100, x % 0x100]
  }

  /** The 16-bit value of the first two bytes of `s`. */
  function BE16(s: bytes): u16
    requires |s| >= 2
  {
    s[0] as int * 0x100 + s[1]
  }

  /** The 32-bit value of the first four bytes of `s`. */
  function BE32(s: bytes): u32
    requires |s| >= 4
  {
    s[0] as int * 0x100_0000 + s[1] as int * 0x1_0000 + s[2] as int * 0x100 + s[3]
  }

  /** Decoding two bytes gives the only value that encodes back to them. */
  lemma BE16Encodes(s: bytes)
    requires |s| >= 2
    ensures U16BE(BE16(s)) == s[..2]
  {
  }

  /** Decoding four bytes gives the only value that encodes back to them. */
  lemma BE32Encodes(s: bytes)
    requires |s| >= 4
    ensures U32BE(BE32(s)) == s[..4]
  {
    Digits32(s[0], s[1], s[2], s[3]);
  }

  /** Splitting a 32-bit value into base-256 digits recovers the digits. */
  lemma Digits32(a: byte, b: byte, c: byte, d: byte)
    ensures var x := a as int * 0x100_0000 + b as int * 0x1_0000 + c as int * 0x100 + d;
      0 <= x < 0x1_0000_0000 &&
      x / 0x100_0000 == a && x / 0x1_0000 % 0x100 == b && x / 0x100 % 0x100 == c && x % 0x100 == d
  {
    var x := a as int * 0x100_0000 + b as int * 0x1_0000 + c as int * 0x100 + d;
    var hi := a as int * 0x100 + b;
    var mid := hi * 0x100 + c;
    assert x == mid * 0x100 + d;
    assert x / 0x100 == mid && x % 0x100 == d;
    assert mid % 0x100 == c && mid / 0x100 == hi;
    assert x / 0x1_0000 == hi;
    assert hi % 0x100 == b && hi / 0x100 == a;
    assert x / 0x100_0000 == a;
  }

  /** Encoding is injective: decoding what was encoded gives the value back. */
  lemma U16RoundTrip(x: u16, rest: bytes)
    ensures BE16(U16BE(x) + rest) == x
  {
    assert (U16BE(x) + rest)[..2] == U16BE(x);
  }

  lemma U32RoundTrip(x: u32, rest: bytes)
    ensures BE32(U32BE(x) + rest) == x
  {
    assert (U32BE(x) + rest)[..4] == U32BE(x);
    BE32Encodes(U32BE(x) + rest);
    U32Injective(x, BE32(U32BE(x) + rest));
  }

  lemma U32Injective(x: u32, y: u32)
    requires U32BE(x) == U32BE(y)
    ensures x == y
  {
    var ex, ey := U32BE(x), U32BE(y);
    Recompose32(x);
    Recompose32(y);
    assert x == ex[0] as int * 0x100_0000 + ex[1] as int * 0x1_0000 + ex[2] as int * 0x100 + ex[3];
  }

  lemma Recompose32(x: u32)
    ensures var e := U32BE(x);
      x == e[0] as int * 0x100_0000 + e[1] as int * 0x1_0000 + e[2] as int * 0x100 + e[3]
  {
    var m1 := x / 0x100;
    assert x == m1 * 0x100 + x % 0x100;
    var m2 := m1 / 0x100;
    assert m1 == m2 * 0x100 + m1 % 0x100;
    assert x / 0x1_0000 == m2;
    assert x / 0x100_0000 == m2 / 0x100;
    assert m2 == m2 / 0x100 * 0x100 + m2 % 0x100;
  }

  // ---------------------------------------------------------------------
  // Sequential unpacking: each step returns the value and the unread rest

  function UnpackU8(b: bytes): (r: Result<(byte, bytes)>)
    ensures r.Ok? <==> |b| >= 1
    ensures r.Ok? ==> [r.value.0] + r.value.1 == b
    ensures r.Err? ==> r.error == UnpackShort
  {
    if |b| < 1 then Err(UnpackShort) else Ok((b[0], b[1..]))
  }

  function UnpackU16(b: bytes): (r: Result<(u16, bytes)>)
    ensures r.Ok? <==> |b| >= 2
    ensures r.Ok? ==> r.value.1 == b[2..]
    ensures r.Err? ==> r.error == UnpackShort
  {
    if |b| < 2 then Err(UnpackShort) else Ok((BE16(b), b[2..]))
  }

  function UnpackU32(b: bytes): (r: Result<(u32, bytes)>)
    ensures r.Ok? <==> |b| >= 4
    ensures r.Ok? ==> r.value.1 == b[4..]
    ensures r.Err? ==> r.error == UnpackShort
  {
    if |b| < 4 then Err(UnpackShort) else Ok((BE32(b), b[4..]))
  }

  /** What UnpackU32 reads is the only value whose encoding leads the input. */
  lemma UnpackU32Encodes(b: bytes)
    requires |b| >= 4
    ensures U32BE(UnpackU32(b).value.0) + UnpackU32(b).value.1 == b
  {
    BE32Encodes(b);
    assert b == b[..4] + b[4..];
  }

  /** A 2-byte big-endian length followed by that many bytes. */
  function UnpackU16Bytes(b: bytes): (r: Result<(bytes, bytes)>)
    ensures r.Ok? <==> |b| >= 2 && |b| - 2 >= BE16(b)
    ensures r.Ok? ==> r.value.0 == b[2..2 + BE16(b)] && r.value.1 == b[2 + BE16(b)..]
    ensures r.Err? ==> r.error == UnpackShort
  {
    if |b| < 2 then Err(UnpackShort)
    else
      var n := BE16(b);
      if |b| - 2 < n then Err(UnpackShort)
      else Ok((b[2..2 + n], b[2 + n..]))
  }

  /** The blob read, behind its length, followed by the rest, is the input. */
  lemma UnpackU16BytesEncodes(b: bytes)
    requires UnpackU16Bytes(b).Ok?
    ensures var (blob, rest) := UnpackU16Bytes(b).value;
      |blob| < 0x1_0000 && U16BE(|blob|) + blob + rest == b
  {
    var n := BE16(b);
    BE16Encodes(b);
    assert b == b[..2] + b[2..2 + n] + b[2 + n..];
  }

  // ---------------------------------------------------------------------
  // Packing of a length-prefixed blob

  /** Packs `blob` behind its 2-byte length; a blob that the prefix cannot
      describe is refused. */
  function PackU16Bytes(blob: bytes): (r: Result<bytes>)
    ensures r.Ok? <==> |blob| < 0x1_0000
    ensures r.Err? ==> r.error == BlobTooLong(|blob|)
    ensures r.Ok? ==> |r.value| == 2 + |blob|
  {
    if |blob| < 0x1_0000 then Ok(U16BE(|blob|) + blob) else Err(BlobTooLong(|blob|))
  }

  /** Unpacking a packed blob gives the blob back and leaves the rest untouched. */
  lemma U16BytesRoundTrip(blob: bytes, rest: bytes)
    requires |blob| < 0x1_0000
    ensures PackU16Bytes(blob).Ok?
    ensures UnpackU16Bytes(PackU16Bytes(blob).value + rest) == Ok((blob, rest))
  {
    var p := PackU16Bytes(blob).value;
    U16RoundTrip(|blob|, blob + rest);
    assert p + rest == U16BE(|blob|) + (blob + rest);
    var r := UnpackU16Bytes(p + rest);
    assert (p + rest)[2..2 + |blob|] == blob;
    assert (p + rest)[2 + |blob|..] == rest;
  }

  lemma U32UnpackRoundTrip(x: u32, rest: bytes)
    ensures UnpackU32(U32BE(x) + rest) == Ok((x, rest))
  {
    U32RoundTrip(x, rest);
    assert (U32BE(x) + rest)[4..] == rest;
  }

  lemma U16UnpackRoundTrip(x: u16, rest: bytes)
    ensures UnpackU16(U16BE(x) + rest) == Ok((x, rest))
  {
    U16RoundTrip(x, rest);
    assert (U16BE(x) + rest)[2..] == rest;
  }

  lemma U8UnpackRoundTrip(x: byte, rest: bytes)
    ensures UnpackU8([x] + rest) == Ok((x, rest))
  {
    assert ([x] + rest)[1..] == rest;
  }
}
