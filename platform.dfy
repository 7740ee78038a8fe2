/**
 The MSSIM platform port: a processor that reads one 4-byte platform command
 (power on, power off, NV on, ...) and acknowledges it with a success code,
 whatever the command was.
 */
module Platform {
  import opened Wire
  import opened Stream

  /** The acknowledgement code: a package-level `uint32` that is never
      assigned, so always zero. */
  const SuccessCode: u32 := 0

  /** What one call reads off `s` and, if the read succeeds, the bytes it
      writes back. */
  function PlatformReply(s: bytes): (p: Parsed<bytes>)
    ensures p.consumed <= |s|
  {
    if |s| < 4 then Parsed(Err(ShortRead), |s|) else Parsed(Ok(U32BE(SuccessCode)), 4)
  }

  /** Any 4-byte command, whatever its value, is consumed exactly and
      answered with four zero bytes, which a client reads as SuccessCode. */
  lemma PlatformAcknowledges(command: u32, rest: bytes)
    ensures PlatformReply(U32BE(command) + rest) == Parsed(Ok([0, 0, 0, 0]), 4)
    ensures BE32(PlatformReply(U32BE(command) + rest).result.value) == SuccessCode
  {
  }

  /** Fewer than four bytes: no command, an error, and the rest of the
      stream drained. */
  lemma PlatformShortRead(s: bytes)
    requires |s| < 4
    ensures PlatformReply(s) == Parsed(Err(ShortRead), |s|)
  {
  }

  /** The processor keeps no state: any two calls that both read a command
      consume the same four bytes and write the same reply. */
  lemma PlatformStateless(s: bytes, t: bytes)
    requires |s| >= 4 && |t| >= 4
    ensures PlatformReply(s) == PlatformReply(t)
  {
  }

  /** `DummyPlatformProcessor`: read a big-endian command, then write the
      success code back. A short read writes nothing; a refused write is an
      error. */
  method DummyPlatformProcessor(c: Conn) returns (res: Result<()>)
    requires c.Valid()
    modifies c`pos, c`output, c`writesLeft
    ensures c.Valid()
    ensures var p := PlatformReply(old(c.Remaining()));
      && c.pos == old(c.pos) + p.consumed
      && (p.result.Err? ==>
            res == Err(p.result.error) && c.output == old(c.output) && c.writesLeft == old(c.writesLeft))
      && (p.result.Ok? ==>
            && (res.Ok? <==> old(c.writesLeft) > 0)
            && (res.Err? ==> res.error == WriteFailed)
            && c.output == (if res.Ok? then old(c.output) + p.result.value else old(c.output))
            && c.writesLeft == (if res.Ok? then old(c.writesLeft) - 1 else old(c.writesLeft)))
  {
    var command := c.ReadFull(4);
    if command.Err? {
      return Err(command.error);
    }
    var ok := c.Write(U32BE(SuccessCode));
    if !ok {
      return Err(WriteFailed);
    }
    return Ok(());
  }
}
