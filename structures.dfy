/**
 The fixed TPM 2.0 command and response headers (TPM 2.0 Library
 Specification Part 1, clause 18: tag, size, command or response code, all
 big-endian), the response packer that recomputes the size field, and the
 wire form of a ReadPublic result.
 */
module Structures {
  import opened Wire

  /** Both headers are 2 + 4 + 4 bytes. */
  const HeaderSize: nat := 10

  datatype CommandHeader = CommandHeader(tag: u16, size: u32, cmd: u32)

  datatype ResponseHeader = ResponseHeader(tag: u16, size: u32, res: u32)

  function PackCommandHeader(h: CommandHeader): (r: bytes)
    ensures |r| == HeaderSize
  {
    U16BE(h.tag) + U32BE(h.size) + U32BE(h.cmd)
  }

  /** The header at the front of `b`. */
  function UnpackCommandHeader(b: bytes): CommandHeader
    requires |b| >= HeaderSize
  {
    CommandHeader(BE16(b), BE32(b[2..]), BE32(b[6..]))
  }

  /** The header read off ten bytes is the only one that packs back to them. */
  lemma CommandHeaderEncodes(b: bytes)
    requires |b| >= HeaderSize
    ensures PackCommandHeader(UnpackCommandHeader(b)) == b[..HeaderSize]
  {
    BE16Encodes(b);
    BE32Encodes(b[2..]);
    BE32Encodes(b[6..]);
    assert b[..HeaderSize] == b[..2] + b[2..][..4] + b[6..][..4];
  }

  function PackResponseHeader(h: ResponseHeader): (r: bytes)
    ensures |r| == HeaderSize
  {
    U16BE(h.tag) + U32BE(h.size) + U32BE(h.res)
  }

  function UnpackResponseHeader(b: bytes): ResponseHeader
    requires |b| >= HeaderSize
  {
    ResponseHeader(BE16(b), BE32(b[2..]), BE32(b[6..]))
  }

  lemma ResponseHeaderEncodes(b: bytes)
    requires |b| >= HeaderSize
    ensures PackResponseHeader(UnpackResponseHeader(b)) == b[..HeaderSize]
  {
    BE16Encodes(b);
    BE32Encodes(b[2..]);
    BE32Encodes(b[6..]);
    assert b[..HeaderSize] == b[..2] + b[2..][..4] + b[6..][..4];
  }

  lemma {:induction false} CommandHeaderRoundTrip(h: CommandHeader, rest: bytes)
    ensures UnpackCommandHeader(PackCommandHeader(h) + rest) == h
  {
    var b := PackCommandHeader(h) + rest;
    assert b == U16BE(h.tag) + (U32BE(h.size) + (U32BE(h.cmd) + rest));
    assert BE16(b) == h.tag by {
      U16RoundTrip(h.tag, b[2..]);
    }
    assert BE32(b[2..]) == h.size by {
      assert b[2..] == U32BE(h.size) + b[6..];
      U32RoundTrip(h.size, b[6..]);
    }
    assert BE32(b[6..]) == h.cmd by {
      assert b[6..] == U32BE(h.cmd) + rest;
      U32RoundTrip(h.cmd, rest);
    }
  }

  lemma {:induction false} ResponseHeaderRoundTrip(h: ResponseHeader, rest: bytes)
    ensures UnpackResponseHeader(PackResponseHeader(h) + rest) == h
  {
    var b := PackResponseHeader(h) + rest;
    assert b == U16BE(h.tag) + (U32BE(h.size) + (U32BE(h.res) + rest));
    assert BE16(b) == h.tag by {
      U16RoundTrip(h.tag, b[2..]);
    }
    assert BE32(b[2..]) == h.size by {
      assert b[2..] == U32BE(h.size) + b[6..];
      U32RoundTrip(h.size, b[6..]);
    }
    assert BE32(b[6..]) == h.res by {
      assert b[6..] == U32BE(h.res) + rest;
      U32RoundTrip(h.res, rest);
    }
  }

  /** The size field the packer writes: `uint32(10 + len(body))`, which
      wraps for a body of 2^32 - 10 bytes or more. */
  function ResponseSize(body: bytes): (r: u32)
    ensures HeaderSize + |body| < 0x1_0000_0000 ==> r == HeaderSize + |body|
    ensures (HeaderSize + |body| - r) % 0x1_0000_0000 == 0
  {
    (HeaderSize + |body|) % 0x1_0000_0000
  }

  /** Response header then body. Tag and code are written as given; only the
      size is computed. */
  function PackWithResponseHeader(tag: u16, res: u32, body: bytes): (r: bytes)
    ensures |r| == HeaderSize + |body|
    ensures r[HeaderSize..] == body
  {
    var header := PackResponseHeader(ResponseHeader(tag, ResponseSize(body), res));
    if |body| == 0 then header else header + body
  }

  /** A client reading the packed response's header gets back the tag and
      code as given and the computed size. */
  lemma {:induction false} PackedResponseHeader(tag: u16, res: u32, body: bytes)
    ensures UnpackResponseHeader(PackWithResponseHeader(tag, res, body)) == ResponseHeader(tag, ResponseSize(body), res)
  {
    var h := ResponseHeader(tag, ResponseSize(body), res);
    ResponseHeaderRoundTrip(h, body);
    assert PackWithResponseHeader(tag, res, body) == PackResponseHeader(h) + body;
  }

  /** Whenever the size fits 32 bits, the size field is the length of the
      whole response. */
  lemma SizeFieldIsLength(tag: u16, res: u32, body: bytes)
    requires HeaderSize + |body| < 0x1_0000_0000
    ensures var r := PackWithResponseHeader(tag, res, body);
      UnpackResponseHeader(r).size == |r|
  {
    PackedResponseHeader(tag, res, body);
  }

  /** An empty body yields exactly the ten header bytes. */
  lemma EmptyBodyIsHeaderOnly(tag: u16, res: u32)
    ensures PackWithResponseHeader(tag, res, []) == U16BE(tag) + U32BE(HeaderSize) + U32BE(res)
  {
  }

  /** The result of ReadPublic: the public area (encoded by its own foreign
      encoder), the object's name and its qualified name. */
  datatype ReadPublicResponse<Pub> = ReadPublicResponse(public: Pub, name: bytes, qualifiedName: bytes)
  {
    /** Three length-prefixed blobs: encoded public area, name, qualified
        name. A failure of the public-area encoder is passed on unchanged. */
    function Encode(encodePublic: Pub -> Result<bytes>): (r: Result<bytes>)
      ensures encodePublic(public).Err? ==> r == Err(encodePublic(public).error)
      ensures r.Ok? <==>
        encodePublic(public).Ok? && |encodePublic(public).value| < 0x1_0000
        && |name| < 0x1_0000 && |qualifiedName| < 0x1_0000
      ensures r.Ok? ==> DecodeReadPublic(r.value) == Ok((encodePublic(public).value, name, qualifiedName))
    {
      var pub :- encodePublic(public);
      var p :- PackU16Bytes(pub);
      var n :- PackU16Bytes(name);
      var q :- PackU16Bytes(qualifiedName);
      assert DecodeReadPublic(p + n + q) == Ok((pub, name, qualifiedName)) by {
        U16BytesRoundTrip(pub, n + q);
        U16BytesRoundTrip(name, q);
        U16BytesRoundTrip(qualifiedName, []);
        assert p + n + q == p + (n + q);
        assert UnpackU16Bytes(p + n + q) == Ok((pub, n + q));
        assert UnpackU16Bytes(n + q) == Ok((name, q));
        assert q == q + [];
        assert UnpackU16Bytes(q) == Ok((qualifiedName, []));
      }
      Ok(p + n + q)
    }
  }

  /** How a client reads a ReadPublic response body: three length-prefixed
      blobs that make up the whole body. */
  function DecodeReadPublic(b: bytes): (r: Result<(bytes, bytes, bytes)>)
    ensures r.Ok? ==> |b| == 6 + |r.value.0| + |r.value.1| + |r.value.2|
  {
    var (pub, rest1) :- UnpackU16Bytes(b);
    var (name, rest2) :- UnpackU16Bytes(rest1);
    var (qualifiedName, rest3) :- UnpackU16Bytes(rest2);
    if rest3 == [] then Ok((pub, name, qualifiedName)) else Err(UnpackShort)
  }

  /** A body a client decodes is exactly the three blobs it returns, each
      behind its 2-byte length, with nothing after them. */
  lemma {:induction false} DecodeReadPublicLayout(b: bytes)
    requires DecodeReadPublic(b).Ok?
    ensures var r := DecodeReadPublic(b).value;
      && |r.0| < 0x1_0000 && |r.1| < 0x1_0000 && |r.2| < 0x1_0000
      && b == U16BE(|r.0|) + r.0 + U16BE(|r.1|) + r.1 + U16BE(|r.2|) + r.2
  {
    var (pub, rest1) := UnpackU16Bytes(b).value;
    var (name, rest2) := UnpackU16Bytes(rest1).value;
    var (qualifiedName, rest3) := UnpackU16Bytes(rest2).value;
    assert DecodeReadPublic(b).value == (pub, name, qualifiedName) && rest3 == [];
    assert |pub| < 0x1_0000 && b == U16BE(|pub|) + pub + rest1 by { UnpackU16BytesEncodes(b); }
    assert |name| < 0x1_0000 && rest1 == U16BE(|name|) + name + rest2 by { UnpackU16BytesEncodes(rest1); }
    assert |qualifiedName| < 0x1_0000 && rest2 == U16BE(|qualifiedName|) + qualifiedName + rest3 by {
      UnpackU16BytesEncodes(rest2);
    }
    Regroup(U16BE(|pub|), pub, U16BE(|name|), name, U16BE(|qualifiedName|), qualifiedName);
  }

  /** Six concatenated pieces, regrouped to the left. */
  lemma Regroup(a: bytes, a': bytes, c: bytes, c': bytes, e: bytes, e': bytes)
    ensures a + a' + (c + c' + (e + e' + [])) == a + a' + c + c' + e + e'
  {
  }
}
