/**
 The MSSIM envelope that the Microsoft TPM simulator protocol wraps around
 every TPM command: a request of command code, locality and a length-prefixed
 TPM command, and a response of length-prefixed TPM response followed by a
 result code.
 */
module Mssim {
  import opened Wire
  import opened Stream
  import opened Structures
  import opened Swtpm2

  // MSSIM command codes. None of them is checked when a request is parsed.
  const TpmSignalPowerOn: u32 := 1
  const TpmSignalPowerOff: u32 := 2
  const TpmSendCommand: u32 := 8
  const TpmSignalNVOn: u32 := 11
  const TpmSessionEnd: u32 := 20

  /** Size of the fixed part of a request: command, locality, payload size. */
  const RequestPrefixSize: nat := 9

  datatype Request = Request(command: u32, locality: byte, internalCommand: bytes)

  /** A request in wire order; the payload length must fit its 4-byte prefix. */
  function PackRequest(q: Request): (b: bytes)
    requires |q.internalCommand| < 0x1_0000_0000
    ensures |b| == RequestPrefixSize + |q.internalCommand|
  {
    U32BE(q.command) + [q.locality] + U32BE(|q.internalCommand|) + q.internalCommand
  }

  /** Reading a request off the front of `s`: command, locality, size, then
      exactly `size` bytes. A stream that ends during any of the four reads
      fails with everything consumed. */
  function ReadRequest(s: bytes): (p: Parsed<Request>)
    ensures p.consumed <= |s|
  {
    if |s| < 4 then Parsed(Err(ShortRead), |s|)
    else if |s| < 5 then Parsed(Err(ShortRead), |s|)
    else if |s| < RequestPrefixSize then Parsed(Err(ShortRead), |s|)
    else
      var size := BE32(s[5..]);
      if |s| - RequestPrefixSize < size then Parsed(Err(ShortRead), |s|)
      else Parsed(Ok(Request(BE32(s), s[4], s[RequestPrefixSize..RequestPrefixSize + size])), RequestPrefixSize + size)
  }

  /** A request is read exactly when the stream holds the nine prefix bytes
      and the payload they announce; it then consumes `9 + size` bytes, which
      pack back to themselves. Otherwise the read fails and drains the stream. */
  lemma ReadRequestSpec(s: bytes)
    ensures var p := ReadRequest(s);
      && (p.result.Ok? <==> |s| >= RequestPrefixSize && |s| >= RequestPrefixSize + BE32(s[5..]))
      && (p.result.Err? ==> p == Parsed(Err(ShortRead), |s|))
      && (p.result.Ok? ==>
            && p.consumed == RequestPrefixSize + |p.result.value.internalCommand|
            && |p.result.value.internalCommand| == BE32(s[5..])
            && p.result.value.internalCommand == s[RequestPrefixSize..p.consumed]
            && s[..p.consumed] == PackRequest(p.result.value))
  {
    if |s| >= RequestPrefixSize {
      var size := BE32(s[5..]);
      if |s| >= RequestPrefixSize + size {
        BE32Encodes(s);
        BE32Encodes(s[5..]);
        assert s[..RequestPrefixSize + size] ==
          s[..4] + [s[4]] + s[5..][..4] + s[RequestPrefixSize..RequestPrefixSize + size];
      }
    }
  }

  /** Parsing a packed request gives back command, locality and payload, and
      leaves whatever follows unread; the command code may be any value. */
  lemma {:induction false} RequestRoundTrip(q: Request, rest: bytes)
    requires |q.internalCommand| < 0x1_0000_0000
    ensures ReadRequest(PackRequest(q) + rest) == Parsed(Ok(q), |PackRequest(q)|)
  {
    var n := |q.internalCommand|;
    var s := PackRequest(q) + rest;
    assert s == U32BE(q.command) + s[4..];
    U32RoundTrip(q.command, s[4..]);
    assert s[4] == q.locality;
    assert s[5..] == U32BE(n) + s[RequestPrefixSize..];
    U32RoundTrip(n, s[RequestPrefixSize..]);
    assert s[RequestPrefixSize..RequestPrefixSize + n] == q.internalCommand;
  }

  /** A stream that ends anywhere inside a request, in any of the four reads,
      yields no request. */
  lemma TruncatedRequestFails(q: Request, k: nat)
    requires |q.internalCommand| < 0x1_0000_0000 && k < |PackRequest(q)|
    ensures ReadRequest(PackRequest(q)[..k]) == Parsed(Err(ShortRead), k)
  {
    var n := |q.internalCommand|;
    var p := PackRequest(q);
    var s := p[..k];
    if k >= RequestPrefixSize {
      var prefix := U32BE(q.command) + [q.locality];
      assert p == prefix + U32BE(n) + q.internalCommand;
      assert p[5..9] == U32BE(n);
      assert s[5..][..4] == p[5..9];
      BE32Encodes(s[5..]);
      U32Injective(BE32(s[5..]), |q.internalCommand|);
    }
  }

  /** `ParseRequest`: four reads off the connection, as `ReadRequest` says. */
  method ParseRequest(r: Conn) returns (res: Result<Request>)
    requires r.Valid()
    modifies r`pos
    ensures r.Valid() && old(r.pos) <= r.pos
    ensures Parsed(res, r.pos - old(r.pos)) == ReadRequest(old(r.Remaining()))
  {
    ghost var s := r.Remaining();
    var command := r.ReadFull(4);
    if command.Err? {
      return Err(command.error);
    }
    var locality := r.ReadFull(1);
    if locality.Err? {
      return Err(locality.error);
    }
    var commandSize := r.ReadFull(4);
    if commandSize.Err? {
      return Err(commandSize.error);
    }
    assert commandSize.value == s[5..][..4];
    var size := BE32(commandSize.value);
    assert size == BE32(s[5..]);
    assert r.Remaining() == s[RequestPrefixSize..];
    var internalCommand := r.ReadFull(size);
    if internalCommand.Err? {
      return Err(internalCommand.error);
    }
    assert internalCommand.value == s[RequestPrefixSize..RequestPrefixSize + size];
    return Ok(Request(BE32(command.value), locality.value[0], internalCommand.value));
  }

  /** The length field of a response: `uint32(len(body))`, which wraps for
      a body of 2^32 bytes or more. */
  function BodyLength(body: bytes): (r: u32)
    ensures |body| < 0x1_0000_0000 ==> r == |body|
    ensures (|body| - r) % 0x1_0000_0000 == 0
  {
    |body| % 0x1_0000_0000
  }

  /** `CreateResponse(code, body)`: the body's length, the body, then the
      result code. */
  function CreateResponse(code: u32, body: bytes): (r: bytes)
    ensures |r| == 8 + |body|
    ensures r[4..4 + |body|] == body
  {
    U32BE(BodyLength(body)) + body + U32BE(code)
  }

  /** How a client reads a response: a length, that many body bytes, and a
      result code that ends the frame. */
  function DecodeResponse(b: bytes): (r: Result<(u32, bytes)>)
    ensures r.Ok? ==> |b| == 8 + |r.value.1|
  {
    if |b| < 8 then Err(UnpackShort)
    else
      var n := BE32(b);
      if |b| != 8 + n then Err(UnpackShort)
      else Ok((BE32(b[4 + n..]), b[4..4 + n]))
  }

  /** A response a client decodes is exactly the body behind its 4-byte
      length, followed by the result code. */
  lemma {:induction false} DecodeResponseLayout(b: bytes)
    requires DecodeResponse(b).Ok?
    ensures var (code, body) := DecodeResponse(b).value;
      |body| < 0x1_0000_0000 && b == U32BE(|body|) + body + U32BE(code)
  {
    var n := BE32(b);
    BE32Encodes(b);
    BE32Encodes(b[4 + n..]);
    assert b == b[..4] + b[4..4 + n] + b[4 + n..];
  }

  /** The length field holds the body's length modulo 2^32 and the last four
      bytes hold the result code. */
  lemma {:induction false} ResponseFields(code: u32, body: bytes)
    ensures var r := CreateResponse(code, body);
      BE32(r) == BodyLength(body) && BE32(r[4 + |body|..]) == code
  {
    var r := CreateResponse(code, body);
    U32RoundTrip(BodyLength(body), r[4..]);
    assert r == U32BE(BodyLength(body)) + r[4..];
    U32RoundTrip(code, []);
    assert r[4 + |body|..] == U32BE(code) + [];
  }

  /** Whenever the length fits its field, a client decodes the response
      back into the result code and body it was made from. */
  lemma ResponseRoundTrip(code: u32, body: bytes)
    requires |body| < 0x1_0000_0000
    ensures DecodeResponse(CreateResponse(code, body)) == Ok((code, body))
  {
    ResponseFields(code, body);
  }

  /** One MSSIM command exchange, `ParseRequest` then `ProcessCommand` on the
      request's payload and `CreateResponse` with result code 0: an error when
      the request or the TPM command in it cannot be read. Bytes of the payload
      after the first TPM command are ignored. */
  function MssimCommand(s: bytes, execute: Executor): (p: Parsed<bytes>)
    ensures p.consumed <= |s|
  {
    var q := ReadRequest(s);
    match q.result
    case Err(e) => Parsed(Err(e), q.consumed)
    case Ok(request) =>
      match ProcessFrame(request.internalCommand, execute).result
      case Err(e) => Parsed(Err(e), q.consumed)
      case Ok(response) => Parsed(Ok(CreateResponse(0, response)), q.consumed)
  }

  /** A TPM command sent in an MSSIM request comes back as its TPM response
      with result code 0, whatever the command code and locality; exactly
      the request is consumed, and a client decodes the TPM response back. */
  lemma {:induction false} MssimCommandAnswers(command: u32, locality: byte, f: Frame, trailing: bytes,
                                               rest: bytes, execute: Executor)
    requires WellFormed(f) && |PackFrame(f) + trailing| < 0x1_0000_0000
    ensures var q := Request(command, locality, PackFrame(f) + trailing);
      && MssimCommand(PackRequest(q) + rest, execute)
           == Parsed(Ok(CreateResponse(0, Respond(f, execute))), |PackRequest(q)|)
      && (|Respond(f, execute)| < 0x1_0000_0000 ==>
            DecodeResponse(MssimCommand(PackRequest(q) + rest, execute).result.value)
              == Ok((0, Respond(f, execute))))
  {
    var q := Request(command, locality, PackFrame(f) + trailing);
    RequestRoundTrip(q, rest);
    ProcessFramePacked(f, trailing, execute);
    if |Respond(f, execute)| < 0x1_0000_0000 {
      ResponseRoundTrip(0, Respond(f, execute));
    }
  }
}
