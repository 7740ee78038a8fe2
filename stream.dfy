/**
 A connection as the protocol layer sees it: `io.Reader`, `io.Writer` and
 `net.Conn` reduced to a read cursor over the bytes the peer sends before it
 closes its side, the bytes written back so far, and the number of writes the
 peer will still accept.
 */
module Stream {
  import opened Wire

  class Conn {
    /** Every byte the peer sends before end of stream. */
    const input: bytes
    /** How many of them have been consumed. */
    var pos: nat
    /** Every byte written to the peer so far, in order. */
    var output: bytes
    /** How many more writes succeed before the peer stops accepting them. */
    var writesLeft: nat

    ghost predicate Valid()
      reads this
    {
      pos <= |input|
    }

    /** The bytes not yet consumed. */
    function Remaining(): (s: bytes)
      reads this
      requires Valid()
      ensures |s| == |input| - pos
    {
      input[pos..]
    }

    constructor (input: bytes, writesLeft: nat)
      ensures Valid()
      ensures this.input == input && pos == 0 && output == [] && this.writesLeft == writesLeft
    {
      this.input := input;
      this.pos := 0;
      this.output := [];
      this.writesLeft := writesLeft;
    }

    /** `io.ReadFull` into a fresh buffer of `n` bytes: either exactly `n`
        bytes, or ShortRead after draining the stream to its end. */
    method ReadFull(n: nat) returns (r: Result<bytes>)
      requires Valid()
      modifies this`pos
      ensures Valid()
      ensures n <= old(|Remaining()|) ==> r == Ok(old(Remaining())[..n]) && pos == old(pos) + n
      ensures old(|Remaining()|) < n ==> r == Err(ShortRead) && pos == |input|
    {
      if pos + n <= |input| {
        assert input[pos..pos + n] == input[pos..][..n];
        r := Ok(input[pos..pos + n]);
        pos := pos + n;
      } else {
        r := Err(ShortRead);
        pos := |input|;
      }
    }

    /** One write of `b`; a refused write delivers nothing. */
    method Write(b: bytes) returns (ok: bool)
      modifies this`output, this`writesLeft
      ensures ok <==> old(writesLeft) > 0
      ensures output == if ok then old(output) + b else old(output)
      ensures writesLeft == if ok then old(writesLeft) - 1 else old(writesLeft)
    {
      ok := writesLeft > 0;
      if ok {
        output := output + b;
        writesLeft := writesLeft - 1;
      }
    }
  }
}
