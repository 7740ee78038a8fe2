/**
 The TPM 2.0 command processor of package swtpm2: read one command frame
 (header, then exactly the payload the header declares), route it on its
 command code to the command engine, and answer with a response frame. A
 framing failure ends the connection with no answer; every failure after the
 frame was read is answered in-band with the generic failure code RCFail.
 */
module Swtpm2 {
  import opened Wire
  import opened Structures
  import opened Stream

  const RCSuccess: u32 := 0
  const RCFail: u32 := RCSuccess + 1

  /** TPM_ST_NO_SESSIONS */
  const TagNoSessions: u16 := 0x8001

  /** Command codes of TPM 2.0 Library Specification Part 2, table TPM_CC. */
  const CmdReadPublic: u32 := 0x0000_0173
  const CmdReadPublicNV: u32 := 0x0000_0169
  const CmdGetCapability: u32 := 0x0000_017A
  const CmdStartAuthSession: u32 := 0x0000_0176

  /** TPM_CAP_PCRS */
  const CapabilityPCRs: u32 := 0x0000_0005

  /** The command engine: four operations, each giving a result or an error.
      `Pub`, `NV` and `Sel` are the engine's public-area, NV-public and
      PCR-selection values, which this layer never looks inside. */
  datatype Commands<Pub, NV, Sel> = Commands(
    readPublic: u32 -> Result<ReadPublicResponse<Pub>>,
    readPublicNV: u32 -> Result<NV>,
    getCapabilityPCRs: (u32, u32) -> Result<seq<Sel>>,
    startAuthSession: (u32, u32, bytes, bytes, byte, u16, u16) -> Result<(u32, bytes)>)

  /** The encoders of those values: the public area's own encoder and the
      packer of an NV public area, both from the TPM client library, and
      `EncodePCRSelection`, which package swtpm2 defines outside the modelled
      files. Each gives bytes or an error. */
  datatype Encoders<-Pub, -NV, -Sel> = Encoders(
    encodePublic: Pub -> Result<bytes>,
    packNVPublic: NV -> Result<bytes>,
    encodePCRSelection: seq<Sel> -> Result<bytes>)

  /** The engine of the bare TPM2 device type, none of whose operations is
      implemented yet. */
  function NotImplemented<Pub, NV, Sel>(): (c: Commands<Pub, NV, Sel>)
    ensures forall h: u32 :: c.readPublic(h).Err? && c.readPublicNV(h).Err?
  {
    Commands(
      (h: u32) => Err(HandlerFailed),
      (h: u32) => Err(HandlerFailed),
      (count: u32, property: u32) => Err(HandlerFailed),
      (k: u32, b: u32, n: bytes, s: bytes, se: byte, sym: u16, hash: u16) => Err(HandlerFailed))
  }

  predicate IsSupported(cmd: u32)
  {
    cmd == CmdReadPublic || cmd == CmdReadPublicNV || cmd == CmdGetCapability || cmd == CmdStartAuthSession
  }

  // ---------------------------------------------------------------------
  // Dispatch

  /** Unpack the arguments of the command named by `ch.cmd` from the payload,
      call the engine, and pack its result as the response body. */
  function ExecuteCommand<Pub, NV, Sel>(ch: CommandHeader, b: bytes, commands: Commands<Pub, NV, Sel>,
                                        enc: Encoders<Pub, NV, Sel>): (r: Result<bytes>)
    ensures !IsSupported(ch.cmd) ==> r == Err(UnsupportedCommand(ch.cmd))
    ensures (ch.cmd == CmdReadPublic || ch.cmd == CmdReadPublicNV) && |b| < 4 ==> r == Err(UnpackShort)
    ensures ch.cmd == CmdGetCapability && |b| < 12 ==> r == Err(UnpackShort)
    ensures ch.cmd == CmdStartAuthSession && |b| < 17 ==> r == Err(UnpackShort)
  {
    if ch.cmd == CmdReadPublic then ExecuteReadPublic(b, commands, enc)
    else if ch.cmd == CmdReadPublicNV then ExecuteReadPublicNV(b, commands, enc)
    else if ch.cmd == CmdGetCapability then ExecuteGetCapability(b, commands, enc)
    else if ch.cmd == CmdStartAuthSession then ExecuteStartAuthSession(b, commands, enc)
    else Err(UnsupportedCommand(ch.cmd))
  }

  function ExecuteReadPublic<Pub, NV, Sel>(b: bytes, commands: Commands<Pub, NV, Sel>, enc: Encoders<Pub, NV, Sel>)
    : (r: Result<bytes>)
    ensures |b| < 4 ==> r == Err(UnpackShort)
  {
    var (handle, _) :- UnpackU32(b);
    var resp :- commands.readPublic(handle);
    resp.Encode(enc.encodePublic)
  }

  function ExecuteReadPublicNV<Pub, NV, Sel>(b: bytes, commands: Commands<Pub, NV, Sel>, enc: Encoders<Pub, NV, Sel>)
    : (r: Result<bytes>)
    ensures |b| < 4 ==> r == Err(UnpackShort)
  {
    var (index, _) :- UnpackU32(b);
    var resp :- commands.readPublicNV(index);
    var raw :- enc.packNVPublic(resp);
    PackU16Bytes(raw)
  }

  function ExecuteGetCapability<Pub, NV, Sel>(b: bytes, commands: Commands<Pub, NV, Sel>, enc: Encoders<Pub, NV, Sel>)
    : (r: Result<bytes>)
    ensures |b| < 12 ==> r == Err(UnpackShort)
  {
    var (capability, rest1) :- UnpackU32(b);
    var (property, rest2) :- UnpackU32(rest1);
    var (count, _) :- UnpackU32(rest2);
    if capability == CapabilityPCRs then
      var pcrs :- commands.getCapabilityPCRs(count, property);
      var selection :- enc.encodePCRSelection(pcrs);
      Ok([0] + U32BE(CapabilityPCRs) + selection)
    else
      Err(UnsupportedCapability(capability))
  }

  function ExecuteStartAuthSession<Pub, NV, Sel>(b: bytes, commands: Commands<Pub, NV, Sel>, enc: Encoders<Pub, NV, Sel>)
    : (r: Result<bytes>)
    ensures |b| < 17 ==> r == Err(UnpackShort)
  {
    var a :- UnpackSessionArgs(b);
    var session :- commands.startAuthSession(a.tpmKey, a.bindKey, a.nonceCaller, a.secret,
                                             a.sessionType, a.sym, a.hashAlg);
    PackSessionResponse(session.0, session.1)
  }

  /** The StartAuthSession answer: session handle, then the length-prefixed nonce. */
  function PackSessionResponse(handle: u32, nonce: bytes): (r: Result<bytes>)
    ensures r.Ok? <==> |nonce| < 0x1_0000
    ensures r.Err? ==> r.error == BlobTooLong(|nonce|)
    ensures r.Ok? ==> UnpackU32(r.value) == Ok((handle, PackU16Bytes(nonce).value))
  {
    var packedNonce :- PackU16Bytes(nonce);
    U32UnpackRoundTrip(handle, packedNonce);
    Ok(U32BE(handle) + packedNonce)
  }

  /** ReadPublic hands the first four payload bytes, read big-endian, to the
      engine unchanged, whatever follows them, and answers with the engine's
      result encoded or the engine's error. */
  lemma ReadPublicPassesHandle<Pub, NV, Sel>(tag: u16, size: u32, handle: u32, rest: bytes,
                                             commands: Commands<Pub, NV, Sel>, enc: Encoders<Pub, NV, Sel>)
    ensures var r := ExecuteCommand(CommandHeader(tag, size, CmdReadPublic), U32BE(handle) + rest, commands, enc);
      && (commands.readPublic(handle).Err? ==> r == Err(commands.readPublic(handle).error))
      && (commands.readPublic(handle).Ok? ==> r == commands.readPublic(handle).value.Encode(enc.encodePublic))
  {
    U32UnpackRoundTrip(handle, rest);
  }

  /** The ReadPublic body a client decodes holds exactly the engine's public
      area (as its encoder wrote it), name and qualified name. */
  lemma ReadPublicEndToEnd<Pub, NV, Sel>(tag: u16, size: u32, handle: u32, rest: bytes,
                                         commands: Commands<Pub, NV, Sel>, enc: Encoders<Pub, NV, Sel>,
                                         resp: ReadPublicResponse<Pub>, pub: bytes)
    requires commands.readPublic(handle) == Ok(resp)
    requires enc.encodePublic(resp.public) == Ok(pub)
    requires |pub| < 0x1_0000 && |resp.name| < 0x1_0000 && |resp.qualifiedName| < 0x1_0000
    ensures var r := ExecuteCommand(CommandHeader(tag, size, CmdReadPublic), U32BE(handle) + rest, commands, enc);
      r.Ok? && DecodeReadPublic(r.value) == Ok((pub, resp.name, resp.qualifiedName))
  {
    ReadPublicPassesHandle(tag, size, handle, rest, commands, enc);
  }

  /** NV_ReadPublic passes the index unchanged to the engine. An engine
      error, a packing error or a packed area of 2^16 bytes or more is the
      command's error; otherwise the packed NV public area is wrapped once
      more behind a 2-byte length. */
  lemma {:induction false} NVReadPublicDoubleWrap<Pub, NV, Sel>(tag: u16, size: u32, index: u32, rest: bytes,
                                             commands: Commands<Pub, NV, Sel>, enc: Encoders<Pub, NV, Sel>)
    ensures var r := ExecuteCommand(CommandHeader(tag, size, CmdReadPublicNV), U32BE(index) + rest, commands, enc);
      var h := commands.readPublicNV(index);
      && (h.Err? ==> r == Err(h.error))
      && (h.Ok? && enc.packNVPublic(h.value).Err? ==> r == Err(enc.packNVPublic(h.value).error))
      && (h.Ok? && enc.packNVPublic(h.value).Ok? ==>
            var raw := enc.packNVPublic(h.value).value;
            && (|raw| >= 0x1_0000 ==> r == Err(BlobTooLong(|raw|)))
            && (|raw| < 0x1_0000 ==> r == Ok(U16BE(|raw|) + raw) && UnpackU16Bytes(r.value) == Ok((raw, []))))
  {
    U32UnpackRoundTrip(index, rest);
    var h := commands.readPublicNV(index);
    if h.Ok? && enc.packNVPublic(h.value).Ok? {
      var raw := enc.packNVPublic(h.value).value;
      if |raw| < 0x1_0000 {
        U16BytesRoundTrip(raw, []);
        assert PackU16Bytes(raw).value + [] == PackU16Bytes(raw).value;
      }
    }
  }

  /** The arguments of GetCapability as a client packs them. */
  function GetCapabilityArgs(capability: u32, property: u32, count: u32): (b: bytes)
    ensures |b| == 12
  {
    U32BE(capability) + U32BE(property) + U32BE(count)
  }

  /** GetCapability reads capability, property and count in that order, calls
      the engine with (count, property), refuses every capability but the PCR
      one, and answers moreData = 0, the capability, then the encoded PCR
      selections. */
  lemma {:induction false} GetCapabilityDispatch<Pub, NV, Sel>(tag: u16, size: u32, capability: u32, property: u32, count: u32,
                                              rest: bytes, commands: Commands<Pub, NV, Sel>, enc: Encoders<Pub, NV, Sel>)
    ensures var r := ExecuteCommand(CommandHeader(tag, size, CmdGetCapability),
                                    GetCapabilityArgs(capability, property, count) + rest, commands, enc);
      var pcrs := commands.getCapabilityPCRs(count, property);
      && (capability != CapabilityPCRs ==> r == Err(UnsupportedCapability(capability)))
      && (capability == CapabilityPCRs && pcrs.Err? ==> r == Err(pcrs.error))
      && (capability == CapabilityPCRs && pcrs.Ok? ==>
            var sel := enc.encodePCRSelection(pcrs.value);
            r == if sel.Ok? then Ok([0x00] + U32BE(CapabilityPCRs) + sel.value) else Err(sel.error))
  {
    var b := GetCapabilityArgs(capability, property, count) + rest;
    assert ExecuteCommand(CommandHeader(tag, size, CmdGetCapability), b, commands, enc)
        == ExecuteGetCapability(b, commands, enc);
    assert UnpackU32(b) == Ok((capability, U32BE(property) + (U32BE(count) + rest))) by {
      assert b == U32BE(capability) + (U32BE(property) + (U32BE(count) + rest));
      U32UnpackRoundTrip(capability, U32BE(property) + (U32BE(count) + rest));
    }
    U32UnpackRoundTrip(property, U32BE(count) + rest);
    U32UnpackRoundTrip(count, rest);
  }

  /** The arguments of StartAuthSession, in wire order. */
  datatype SessionArgs = SessionArgs(tpmKey: u32, bindKey: u32, nonceCaller: bytes, secret: bytes,
                                     sessionType: byte, sym: u16, hashAlg: u16)

  /** The two key handles at the front of the payload. */
  function UnpackU32Pair(b: bytes): (r: Result<((u32, u32), bytes)>)
    ensures r.Ok? <==> |b| >= 8
    ensures r.Ok? ==> r.value.1 == b[8..]
  {
    var (x, rest1) :- UnpackU32(b);
    var (y, rest2) :- UnpackU32(rest1);
    Ok(((x, y), rest2))
  }

  /** The rest of the StartAuthSession arguments, unpacked from what follows
      the two handles: nonce, secret, session type, symmetric and hash
      algorithms. */
  function UnpackSessionTail(tpmKey: u32, bindKey: u32, b: bytes): (r: Result<SessionArgs>)
    ensures r.Ok? ==> r.value.tpmKey == tpmKey && r.value.bindKey == bindKey
    ensures |b| < 9 ==> r == Err(UnpackShort)
  {
    var (nonceCaller, rest1) :- UnpackU16Bytes(b);
    var (secret, rest2) :- UnpackU16Bytes(rest1);
    var (sessionType, rest3) :- UnpackU8(rest2);
    var (sym, rest4) :- UnpackU16(rest3);
    var (hashAlg, _) :- UnpackU16(rest4);
    Ok(SessionArgs(tpmKey, bindKey, nonceCaller, secret, sessionType, sym, hashAlg))
  }

  /** The two handles, then the rest of the arguments from what follows them. */
  function UnpackSessionArgs(b: bytes): (r: Result<SessionArgs>)
    ensures |b| < 17 ==> r == Err(UnpackShort)
  {
    var (keys, rest) :- UnpackU32Pair(b);
    UnpackSessionTail(keys.0, keys.1, rest)
  }

  /** The StartAuthSession arguments as a client packs them. */
  function PackSessionArgs(a: SessionArgs): (b: bytes)
    requires |a.nonceCaller| < 0x1_0000 && |a.secret| < 0x1_0000
    ensures |b| == 17 + |a.nonceCaller| + |a.secret|
  {
    U32BE(a.tpmKey) + U32BE(a.bindKey) + PackSessionTail(a)
  }

  function PackSessionTail(a: SessionArgs): (b: bytes)
    requires |a.nonceCaller| < 0x1_0000 && |a.secret| < 0x1_0000
    ensures |b| == 9 + |a.nonceCaller| + |a.secret|
  {
    PackU16Bytes(a.nonceCaller).value + PackU16Bytes(a.secret).value + [a.sessionType] + U16BE(a.sym) + U16BE(a.hashAlg)
  }

  lemma {:induction false} SessionTailRoundTrip(a: SessionArgs, rest: bytes)
    requires |a.nonceCaller| < 0x1_0000 && |a.secret| < 0x1_0000
    ensures UnpackSessionTail(a.tpmKey, a.bindKey, PackSessionTail(a) + rest) == Ok(a)
  {
    var r4 := U16BE(a.hashAlg) + rest;
    var r3 := U16BE(a.sym) + r4;
    var r2 := [a.sessionType] + r3;
    var r1 := PackU16Bytes(a.secret).value + r2;
    assert PackSessionTail(a) + rest == PackU16Bytes(a.nonceCaller).value + r1;
    U16BytesRoundTrip(a.nonceCaller, r1);
    U16BytesRoundTrip(a.secret, r2);
    U8UnpackRoundTrip(a.sessionType, r3);
    U16UnpackRoundTrip(a.sym, r4);
    U16UnpackRoundTrip(a.hashAlg, rest);
  }

  /** Unpacking what a client packed gives back every argument unchanged. */
  lemma {:induction false} SessionArgsRoundTrip(a: SessionArgs, rest: bytes)
    requires |a.nonceCaller| < 0x1_0000 && |a.secret| < 0x1_0000
    ensures UnpackSessionArgs(PackSessionArgs(a) + rest) == Ok(a)
  {
    var tail := PackSessionTail(a) + rest;
    var b := PackSessionArgs(a) + rest;
    assert b == U32BE(a.tpmKey) + (U32BE(a.bindKey) + tail);
    U32PairRoundTrip(a.tpmKey, a.bindKey, tail);
    assert UnpackU32Pair(b) == Ok(((a.tpmKey, a.bindKey), tail));
    SessionTailRoundTrip(a, rest);
    assert UnpackSessionArgs(b) == UnpackSessionTail(a.tpmKey, a.bindKey, tail);
  }

  /** Two packed handles unpack back, in order. */
  lemma {:induction false} U32PairRoundTrip(x: u32, y: u32, rest: bytes)
    ensures UnpackU32Pair(U32BE(x) + (U32BE(y) + rest)) == Ok(((x, y), rest))
  {
    U32UnpackRoundTrip(x, U32BE(y) + rest);
    U32UnpackRoundTrip(y, rest);
  }

  /** The tail unpacks exactly when the nonce's length prefix and the nonce
      fit, then the secret's length prefix and the secret, then the five
      fixed bytes; any other input is UnpackShort. */
  lemma {:induction false} SessionTailAccepts(tpmKey: u32, bindKey: u32, b: bytes)
    ensures var r := UnpackSessionTail(tpmKey, bindKey, b);
      && (r.Ok? <==> |b| >= 2 && |b| >= 4 + BE16(b) && |b| >= 9 + BE16(b) + BE16(b[2 + BE16(b)..]))
      && (r.Err? ==> r.error == UnpackShort)
  {
    var u1 := UnpackU16Bytes(b);
    if u1.Ok? {
      var rest1 := u1.value.1;
      assert rest1 == b[2 + BE16(b)..];
      var u2 := UnpackU16Bytes(rest1);
      if u2.Ok? {
        assert |u2.value.1| == |b| - 4 - BE16(b) - BE16(rest1);
      }
    }
  }

  /** What the tail unpacks from is the packed form of the result, read off
      the front of `b`. */
  lemma {:induction false} SessionTailEncodes(tpmKey: u32, bindKey: u32, b: bytes)
    requires UnpackSessionTail(tpmKey, bindKey, b).Ok?
    ensures var a := UnpackSessionTail(tpmKey, bindKey, b).value;
      && |a.nonceCaller| < 0x1_0000 && |a.secret| < 0x1_0000
      && b[..|PackSessionTail(a)|] == PackSessionTail(a)
  {
    var (nonceCaller, rest1) := UnpackU16Bytes(b).value;
    var (secret, rest2) := UnpackU16Bytes(rest1).value;
    SessionTailFields(tpmKey, bindKey, b);
    var sym, hashAlg := BE16(rest2[1..]), BE16(rest2[3..]);
    assert rest2 == [rest2[0]] + U16BE(sym) + U16BE(hashAlg) + rest2[5..] by {
      BE16Encodes(rest2[1..]);
      BE16Encodes(rest2[3..]);
    }
    assert b == U16BE(|nonceCaller|) + nonceCaller + rest1 by { UnpackU16BytesEncodes(b); }
    assert rest1 == U16BE(|secret|) + secret + rest2 by { UnpackU16BytesEncodes(rest1); }
    TailPrefix(b, U16BE(|nonceCaller|) + nonceCaller, rest1, U16BE(|secret|) + secret, rest2,
               [rest2[0]], U16BE(sym), U16BE(hashAlg), rest2[5..]);
  }

  /** The fields of an unpacked tail, in terms of the two blob reads. */
  lemma {:induction false} SessionTailFields(tpmKey: u32, bindKey: u32, b: bytes)
    requires UnpackSessionTail(tpmKey, bindKey, b).Ok?
    ensures UnpackU16Bytes(b).Ok? && UnpackU16Bytes(UnpackU16Bytes(b).value.1).Ok?
    ensures var (nonceCaller, rest1) := UnpackU16Bytes(b).value;
      var (secret, rest2) := UnpackU16Bytes(rest1).value;
      && |rest2| >= 5
      && UnpackSessionTail(tpmKey, bindKey, b).value
           == SessionArgs(tpmKey, bindKey, nonceCaller, secret, rest2[0], BE16(rest2[1..]), BE16(rest2[3..]))
  {
  }

  /** A byte string cut into two length-prefixed fields, three fixed fields
      and a rest starts with the five fields. */
  lemma {:induction false} TailPrefix(b: bytes, p1: bytes, rest1: bytes, p2: bytes, rest2: bytes,
                                      f1: bytes, f2: bytes, f3: bytes, rest: bytes)
    requires b == p1 + rest1 && rest1 == p2 + rest2 && rest2 == f1 + f2 + f3 + rest
    ensures b[..|p1| + |p2| + |f1| + |f2| + |f3|] == p1 + p2 + f1 + f2 + f3
  {
    assert b == (p1 + p2 + f1 + f2 + f3) + rest;
  }

  /** The arguments unpack exactly when eight bytes of handles come first and
      the tail unpacks from what follows them; any other input is
      UnpackShort. */
  lemma {:induction false} SessionArgsAccepts(b: bytes)
    ensures var r := UnpackSessionArgs(b);
      && (r.Ok? <==> |b| >= 10 && |b| >= 12 + BE16(b[8..]) && |b| >= 17 + BE16(b[8..]) + BE16(b[10 + BE16(b[8..])..]))
      && (r.Err? ==> r.error == UnpackShort)
  {
    if |b| >= 8 {
      var tail := b[8..];
      assert UnpackU32Pair(b) == Ok(((BE32(b), BE32(b[4..])), tail));
      SessionTailAccepts(BE32(b), BE32(b[4..]), tail);
      if |tail| >= 2 && |tail| >= 2 + BE16(tail) {
        assert tail[2 + BE16(tail)..] == b[10 + BE16(tail)..];
      }
    }
  }

  /** What the arguments unpack from is the packed form of the result, read
      off the front of `b`. */
  lemma {:induction false} SessionArgsEncodes(b: bytes)
    requires UnpackSessionArgs(b).Ok?
    ensures var a := UnpackSessionArgs(b).value;
      && |a.nonceCaller| < 0x1_0000 && |a.secret| < 0x1_0000
      && b[..|PackSessionArgs(a)|] == PackSessionArgs(a)
  {
    var tpmKey, bindKey, tail := BE32(b), BE32(b[4..]), b[8..];
    assert UnpackSessionArgs(b) == UnpackSessionTail(tpmKey, bindKey, tail) by {
      assert UnpackU32Pair(b) == Ok(((tpmKey, bindKey), tail));
    }
    var a := UnpackSessionArgs(b).value;
    SessionTailEncodes(tpmKey, bindKey, tail);
    assert b == U32BE(tpmKey) + U32BE(bindKey) + tail by {
      BE32Encodes(b);
      BE32Encodes(b[4..]);
    }
    HeadPrefix(b, U32BE(tpmKey) + U32BE(bindKey), tail, PackSessionTail(a));
  }

  /** A prefix of what follows a head, kept behind that head. */
  lemma {:induction false} HeadPrefix(b: bytes, head: bytes, tail: bytes, p: bytes)
    requires b == head + tail && |p| <= |tail| && tail[..|p|] == p
    ensures b[..|head| + |p|] == head + p
  {
    assert b == head + p + tail[|p|..];
  }

  /** A StartAuthSession payload whose arguments do not unpack, however long
      it is, fails with UnpackShort before the engine is called. */
  lemma {:induction false} StartAuthSessionRejects<Pub, NV, Sel>(tag: u16, size: u32, b: bytes,
      commands: Commands<Pub, NV, Sel>, enc: Encoders<Pub, NV, Sel>)
    requires UnpackSessionArgs(b).Err?
    ensures ExecuteCommand(CommandHeader(tag, size, CmdStartAuthSession), b, commands, enc) == Err(UnpackShort)
  {
    SessionArgsAccepts(b);
  }

  /** Seventeen bytes are not enough when the nonce's length prefix claims
      more than follows it: two handles, then a prefix of 0xFFFF. */
  lemma {:induction false} OverrunningNonceFails<Pub, NV, Sel>(tag: u16, size: u32,
      commands: Commands<Pub, NV, Sel>, enc: Encoders<Pub, NV, Sel>)
    ensures var b: bytes := [0, 0, 0, 1, 0, 0, 0, 2, 0xFF, 0xFF, 0, 0, 0, 0, 0, 0, 0];
      ExecuteCommand(CommandHeader(tag, size, CmdStartAuthSession), b, commands, enc) == Err(UnpackShort)
  {
    var b: bytes := [0, 0, 0, 1, 0, 0, 0, 2, 0xFF, 0xFF, 0, 0, 0, 0, 0, 0, 0];
    assert UnpackU16Bytes(b[8..]).Err? by {
      assert b[8..][0] == 0xFF && b[8..][1] == 0xFF;
    }
    assert UnpackSessionArgs(b).Err? by {
      assert UnpackU32Pair(b).Ok? && UnpackU32Pair(b).value.1 == b[8..];
    }
    StartAuthSessionRejects(tag, size, b, commands, enc);
  }

  /** Every StartAuthSession argument reaches the engine unchanged, and the
      answer is the session handle followed by the length-prefixed nonce. */
  lemma {:induction false} StartAuthSessionDispatch<Pub, NV, Sel>(tag: u16, size: u32, a: SessionArgs, rest: bytes,
      commands: Commands<Pub, NV, Sel>, enc: Encoders<Pub, NV, Sel>)
    requires |a.nonceCaller| < 0x1_0000 && |a.secret| < 0x1_0000
    ensures var r := ExecuteCommand(CommandHeader(tag, size, CmdStartAuthSession), PackSessionArgs(a) + rest, commands, enc);
      var s := commands.startAuthSession(a.tpmKey, a.bindKey, a.nonceCaller, a.secret, a.sessionType, a.sym, a.hashAlg);
      && (s.Err? ==> r == Err(s.error))
      && (s.Ok? && |s.value.1| < 0x1_0000 ==> r == Ok(U32BE(s.value.0) + U16BE(|s.value.1|) + s.value.1))
      && (s.Ok? && |s.value.1| >= 0x1_0000 ==> r == Err(BlobTooLong(|s.value.1|)))
  {
    var b := PackSessionArgs(a) + rest;
    var s := commands.startAuthSession(a.tpmKey, a.bindKey, a.nonceCaller, a.secret, a.sessionType, a.sym, a.hashAlg);
    assert ExecuteCommand(CommandHeader(tag, size, CmdStartAuthSession), b, commands, enc)
        == if s.Err? then Err(s.error) else PackSessionResponse(s.value.0, s.value.1) by {
      SessionArgsRoundTrip(a, rest);
      assert ExecuteCommand(CommandHeader(tag, size, CmdStartAuthSession), b, commands, enc)
          == ExecuteStartAuthSession(b, commands, enc);
    }
    if s.Ok? && |s.value.1| < 0x1_0000 {
      var (handle, nonce) := s.value;
      assert PackSessionResponse(handle, nonce).value == U32BE(handle) + U16BE(|nonce|) + nonce;
    }
  }

  // ---------------------------------------------------------------------
  // Frames

  /** A command as read off the stream: its header and its payload. */
  datatype Frame = Frame(header: CommandHeader, payload: bytes)

  /** A frame whose header declares exactly its own length. */
  predicate WellFormed(f: Frame)
  {
    f.header.size == HeaderSize + |f.payload|
  }

  function PackFrame(f: Frame): (b: bytes)
    ensures |b| == HeaderSize + |f.payload|
  {
    PackCommandHeader(f.header) + f.payload
  }

  /** Reading one command frame off the front of `s`: ten header bytes, then,
      when the declared size is above ten, exactly `size - 10` payload bytes. */
  function ReadFrame(s: bytes): (p: Parsed<Frame>)
    ensures p.consumed <= |s|
    ensures p.result.Ok? ==> HeaderSize <= p.consumed
  {
    if |s| < HeaderSize then Parsed(Err(ShortRead), |s|)
    else
      var ch := UnpackCommandHeader(s);
      if ch.size < HeaderSize then Parsed(Err(HeaderSizeTooSmall(ch.size)), HeaderSize)
      else if ch.size == HeaderSize then
        Parsed(Ok(Frame(ch, [])), HeaderSize)
      else if |s| < ch.size then Parsed(Err(ShortRead), |s|)
      else Parsed(Ok(Frame(ch, s[HeaderSize..ch.size])), ch.size)
  }

  /** What `ReadFrame` reads and why it fails: too few bytes for a header
      (everything is consumed), a declared size below ten (only the header is
      consumed), too few bytes for the declared payload (everything is
      consumed); otherwise exactly the declared bytes, which pack back to
      themselves. */
  lemma ReadFrameSpec(s: bytes)
    ensures var p := ReadFrame(s);
      && (|s| < HeaderSize ==> p == Parsed(Err(ShortRead), |s|))
      && (|s| >= HeaderSize && UnpackCommandHeader(s).size < HeaderSize ==>
            p == Parsed(Err(HeaderSizeTooSmall(UnpackCommandHeader(s).size)), HeaderSize))
      && (|s| >= HeaderSize && HeaderSize <= UnpackCommandHeader(s).size && |s| < UnpackCommandHeader(s).size ==>
            p == Parsed(Err(ShortRead), |s|))
      && (|s| >= HeaderSize && HeaderSize <= UnpackCommandHeader(s).size <= |s| ==>
            && p.result.Ok?
            && WellFormed(p.result.value)
            && p.consumed == p.result.value.header.size == UnpackCommandHeader(s).size
            && s[..p.consumed] == PackFrame(p.result.value))
  {
    if |s| >= HeaderSize {
      var ch := UnpackCommandHeader(s);
      CommandHeaderEncodes(s);
      if HeaderSize <= ch.size <= |s| {
        assert s[..ch.size] == s[..HeaderSize] + s[HeaderSize..ch.size];
      }
    }
  }

  /** A well-formed frame is read back whole, and reading stops right after it. */
  lemma {:induction false} ReadFramePacked(f: Frame, rest: bytes)
    requires WellFormed(f)
    ensures ReadFrame(PackFrame(f) + rest) == Parsed(Ok(f), |PackFrame(f)|)
  {
    var s := PackFrame(f) + rest;
    assert PackFrame(f) + rest == PackCommandHeader(f.header) + (f.payload + rest);
    CommandHeaderRoundTrip(f.header, f.payload + rest);
    assert s[HeaderSize..f.header.size] == f.payload;
  }

  /** Any proper prefix of a well-formed frame fails to read. */
  lemma TruncatedFrameFails(f: Frame, k: nat)
    requires WellFormed(f) && k < |PackFrame(f)|
    ensures ReadFrame(PackFrame(f)[..k]).result.Err?
  {
    if k >= HeaderSize {
      assert PackFrame(f)[..k][..HeaderSize] == PackCommandHeader(f.header);
      CommandHeaderRoundTrip(f.header, []);
      assert PackCommandHeader(f.header) + [] == PackCommandHeader(f.header);
      assert UnpackCommandHeader(PackFrame(f)[..k]) == f.header;
    }
  }

  /** `ParseCommandHeader`: read the header, check its size, then read the
      payload it declares. */
  method ParseCommandHeader(r: Conn) returns (res: Result<Frame>)
    requires r.Valid()
    modifies r`pos
    ensures r.Valid() && old(r.pos) <= r.pos
    ensures Parsed(res, r.pos - old(r.pos)) == ReadFrame(old(r.Remaining()))
  {
    ghost var s := r.Remaining();
    var headerBuffer := r.ReadFull(HeaderSize);
    if headerBuffer.Err? {
      return Err(headerBuffer.error);
    }
    var ch := UnpackCommandHeader(headerBuffer.value);
    assert ch == UnpackCommandHeader(s);
    if ch.size < HeaderSize {
      return Err(HeaderSizeTooSmall(ch.size));
    }
    var commandBuffer: bytes := [];
    if ch.size > HeaderSize {
      assert r.Remaining() == s[HeaderSize..];
      var payload := r.ReadFull(ch.size - HeaderSize);
      if payload.Err? {
        return Err(payload.error);
      }
      assert payload.value == s[HeaderSize..ch.size];
      commandBuffer := payload.value;
    }
    return Ok(Frame(ch, commandBuffer));
  }

  // ---------------------------------------------------------------------
  // Processing one command

  /** What the processor does with a frame once read: `executeCommand` bound
      to one command engine and its encoders. */
  type Executor = (CommandHeader, bytes) -> Result<bytes>

  /** `executeCommand(ch, b, commands)` with `commands` fixed. */
  function Engine<Pub, NV, Sel>(commands: Commands<Pub, NV, Sel>, enc: Encoders<Pub, NV, Sel>): (execute: Executor)
    ensures forall ch, b :: execute(ch, b) == ExecuteCommand(ch, b, commands, enc)
  {
    (ch: CommandHeader, b: bytes) => ExecuteCommand(ch, b, commands, enc)
  }

  /** The response to a frame that was read: the body with RCSuccess when
      dispatch succeeds, otherwise the bare header with RCFail. */
  function Respond(f: Frame, execute: Executor): (r: bytes)
    ensures var body := execute(f.header, f.payload);
      && (body.Ok? ==> |r| == HeaderSize + |body.value| && r[HeaderSize..] == body.value)
      && (body.Err? ==> |r| == HeaderSize)
  {
    match execute(f.header, f.payload)
    case Ok(body) => PackWithResponseHeader(TagNoSessions, RCSuccess, body)
    case Err(_) => PackWithResponseHeader(TagNoSessions, RCFail, [])
  }

  /** Every response carries TagNoSessions. A successful dispatch is answered
      with RCSuccess and the body it produced; a failed one with RCFail, an
      empty body and a size field of exactly ten. */
  lemma RespondShape(f: Frame, execute: Executor)
    ensures var r := Respond(f, execute);
      var body := execute(f.header, f.payload);
      && |r| >= HeaderSize
      && UnpackResponseHeader(r).tag == TagNoSessions
      && (body.Ok? ==> UnpackResponseHeader(r).res == RCSuccess && r[HeaderSize..] == body.value)
      && (body.Err? ==> UnpackResponseHeader(r).res == RCFail && |r| == HeaderSize
                        && UnpackResponseHeader(r).size == HeaderSize)
  {
  }

  /** `ProcessCommand` on a stream: an error exactly when the frame cannot be
      read, otherwise the response to the frame. */
  function ProcessFrame(s: bytes, execute: Executor): (p: Parsed<bytes>)
    ensures p.consumed <= |s|
    ensures p.result.Ok? ==> HeaderSize <= p.consumed
  {
    var f := ReadFrame(s);
    match f.result
    case Err(e) => Parsed(Err(e), f.consumed)
    case Ok(frame) => Parsed(Ok(Respond(frame, execute)), f.consumed)
  }

  /** A well-formed frame at the front of the stream is answered by its own
      response, and exactly its bytes are consumed. */
  lemma ProcessFramePacked(f: Frame, rest: bytes, execute: Executor)
    requires WellFormed(f)
    ensures ProcessFrame(PackFrame(f) + rest, execute) == Parsed(Ok(Respond(f, execute)), |PackFrame(f)|)
  {
    ReadFramePacked(f, rest);
  }

  /** An unknown command code is answered in-band: ten bytes, TagNoSessions,
      RCFail, and the connection goes on. */
  lemma UnknownCommandAnswersFail<Pub, NV, Sel>(f: Frame, rest: bytes, commands: Commands<Pub, NV, Sel>, enc: Encoders<Pub, NV, Sel>)
    requires WellFormed(f) && !IsSupported(f.header.cmd)
    ensures ProcessFrame(PackFrame(f) + rest, Engine(commands, enc))
         == Parsed(Ok(U16BE(TagNoSessions) + U32BE(HeaderSize) + U32BE(RCFail)), |PackFrame(f)|)
  {
    ReadFramePacked(f, rest);
  }

  /** With the unimplemented engine every command that is read is answered
      with RCFail and an empty body. */
  lemma NotImplementedAlwaysFails<Pub, NV, Sel>(f: Frame, enc: Encoders<Pub, NV, Sel>)
    ensures Respond(f, Engine(NotImplemented(), enc)) == PackWithResponseHeader(TagNoSessions, RCFail, [])
  {
    var c: Commands<Pub, NV, Sel> := NotImplemented();
    assert ExecuteCommand(f.header, f.payload, c, enc).Err?;
  }

  /** `ProcessCommand`: read one frame, execute it, and pack the answer. */
  method ProcessCommand(r: Conn, execute: Executor) returns (res: Result<bytes>)
    requires r.Valid()
    modifies r`pos
    ensures r.Valid() && old(r.pos) <= r.pos
    ensures Parsed(res, r.pos - old(r.pos)) == ProcessFrame(old(r.Remaining()), execute)
  {
    var frame := ParseCommandHeader(r);
    if frame.Err? {
      return Err(frame.error);
    }
    var b := execute(frame.value.header, frame.value.payload);
    if b.Err? {
      return Ok(PackWithResponseHeader(TagNoSessions, RCFail, []));
    }
    return Ok(PackWithResponseHeader(TagNoSessions, RCSuccess, b.value));
  }

  // ---------------------------------------------------------------------
  // The per-connection loop

  /** The frames the loop answers from input `s` when the peer accepts
      `writesLeft` more writes: frames in order, up to the first one that
      cannot be read or whose answer the peer refuses. The refused frame is
      still read (see `LoopConsumed`) but not answered. */
  function FramesAnswered(s: bytes, writesLeft: nat): (fs: seq<Frame>)
    ensures |fs| <= writesLeft
    decreases |s|
  {
    var p := ReadFrame(s);
    if p.result.Err? || writesLeft == 0 then []
    else [p.result.value] + FramesAnswered(s[p.consumed..], writesLeft - 1)
  }

  /** The responses to a list of frames, in order. */
  function RespondAll(fs: seq<Frame>, execute: Executor): (rs: seq<bytes>)
    ensures |rs| == |fs|
    ensures forall i :: 0 <= i < |fs| ==> rs[i] == Respond(fs[i], execute)
  {
    if fs == [] then [] else [Respond(fs[0], execute)] + RespondAll(fs[1..], execute)
  }

  /** What the loop writes for input `s`: one response per frame it answers. */
  function Serve(s: bytes, writesLeft: nat, execute: Executor): (rs: seq<bytes>)
    ensures |rs| <= writesLeft
  {
    RespondAll(FramesAnswered(s, writesLeft), execute)
  }

  /** How many input bytes the loop consumes from `s`: every frame it
      answers, and then the frame whose read fails or whose answer the peer
      refuses, which is still read. */
  function LoopConsumed(s: bytes, writesLeft: nat): (n: nat)
    ensures n <= |s|
    decreases |s|
  {
    var p := ReadFrame(s);
    if p.result.Err? || writesLeft == 0 then p.consumed
    else p.consumed + LoopConsumed(s[p.consumed..], writesLeft - 1)
  }

  function Concat(rs: seq<bytes>): (b: bytes)
  {
    if rs == [] then [] else rs[0] + Concat(rs[1..])
  }

  /** `NewLoopProcessCommand(commands)` applied to a connection, with
      `execute` the engine (`Engine(commands, enc)`): process and answer
      commands until a frame cannot be read or a write is refused. */
  method LoopProcessCommand(rw: Conn, execute: Executor)
    requires rw.Valid()
    modifies rw`pos, rw`output, rw`writesLeft
    ensures rw.Valid()
    ensures rw.output == old(rw.output) + Concat(Serve(old(rw.Remaining()), old(rw.writesLeft), execute))
    ensures rw.pos == old(rw.pos) + LoopConsumed(old(rw.Remaining()), old(rw.writesLeft))
  {
    while true
      invariant rw.Valid()
      invariant old(rw.output) + Concat(Serve(old(rw.Remaining()), old(rw.writesLeft), execute))
             == rw.output + Concat(Serve(rw.Remaining(), rw.writesLeft, execute))
      invariant old(rw.pos) + LoopConsumed(old(rw.Remaining()), old(rw.writesLeft))
             == rw.pos + LoopConsumed(rw.Remaining(), rw.writesLeft)
      decreases |rw.input| - rw.pos
    {
      ghost var s, out, w := rw.Remaining(), rw.output, rw.writesLeft;
      var b := ProcessCommand(rw, execute);
      if b.Err? {
        ServeStops(s, w, execute);
        break;
      }
      var ok := rw.Write(b.value);
      if !ok {
        ServeStops(s, w, execute);
        break;
      }
      assert rw.Remaining() == s[ProcessFrame(s, execute).consumed..];
      LoopStep(out, s, w, rw.Remaining(), rw.writesLeft, execute);
    }
  }

  /** One turn of the loop: answering the first frame moves its response
      from what is still to be written to what has been written, and its
      bytes from what is still to be consumed to what has been consumed. */
  lemma {:induction false} LoopStep(out: bytes, s: bytes, w: nat, rest: bytes, w': nat, execute: Executor)
    requires ProcessFrame(s, execute).result.Ok?
    requires rest == s[ProcessFrame(s, execute).consumed..] && w == w' + 1
    ensures out + Concat(Serve(s, w, execute))
         == (out + ProcessFrame(s, execute).result.value) + Concat(Serve(rest, w', execute))
    ensures LoopConsumed(s, w) == ProcessFrame(s, execute).consumed + LoopConsumed(rest, w')
  {
    ServeWritesFirstResponse(s, w, rest, w', execute);
    ConsumesFirstFrame(s, w, rest, w', execute);
  }

  /** The loop writes nothing more once a frame cannot be read or no write
      is accepted, and that last read is all it consumes. */
  lemma ServeStops(s: bytes, w: nat, execute: Executor)
    requires ProcessFrame(s, execute).result.Err? || w == 0
    ensures Concat(Serve(s, w, execute)) == []
    ensures LoopConsumed(s, w) == ProcessFrame(s, execute).consumed
  {
  }

  /** A refused write still costs a read: with no write left, a whole frame
      at the front is consumed although nothing is answered. */
  lemma {:induction false} RefusedFrameIsConsumed(f: Frame, rest: bytes, execute: Executor)
    requires WellFormed(f)
    ensures Serve(PackFrame(f) + rest, 0, execute) == []
    ensures LoopConsumed(PackFrame(f) + rest, 0) == |PackFrame(f)|
  {
    ReadFramePacked(f, rest);
  }

  /** The loop's output is the response to the first frame, then whatever
      it writes for the rest of the stream. */
  lemma ServeWritesFirstResponse(s: bytes, w: nat, rest: bytes, w': nat, execute: Executor)
    requires ProcessFrame(s, execute).result.Ok?
    requires rest == s[ProcessFrame(s, execute).consumed..] && w == w' + 1
    ensures Concat(Serve(s, w, execute)) == ProcessFrame(s, execute).result.value + Concat(Serve(rest, w', execute))
  {
    var f := ReadFrame(s).result.value;
    var later := FramesAnswered(rest, w');
    assert FramesAnswered(s, w) == [f] + later;
    assert ([f] + later)[1..] == later;
    var rs := RespondAll(later, execute);
    assert Serve(s, w, execute) == [Respond(f, execute)] + rs;
    assert ([Respond(f, execute)] + rs)[1..] == rs;
  }

  /** The loop consumes the first frame's bytes, then whatever it consumes
      from the rest of the stream. */
  lemma ConsumesFirstFrame(s: bytes, w: nat, rest: bytes, w': nat, execute: Executor)
    requires ProcessFrame(s, execute).result.Ok?
    requires rest == s[ProcessFrame(s, execute).consumed..] && w == w' + 1
    ensures LoopConsumed(s, w) == ProcessFrame(s, execute).consumed + LoopConsumed(rest, w')
  {
    assert ReadFrame(s).result.Ok? && ReadFrame(s).consumed == ProcessFrame(s, execute).consumed;
  }

  /** The frames packed back to back, followed by `tail`. */
  function PackFrames(fs: seq<Frame>, tail: bytes): bytes
  {
    if fs == [] then tail else PackFrame(fs[0]) + PackFrames(fs[1..], tail)
  }

  function Min(a: nat, b: nat): nat
  {
    if a < b then a else b
  }

  /** With a write left, a frame read off the front is the first frame
      answered; the rest are answered from what follows it. */
  lemma FramesAnsweredFirst(s: bytes, f: Frame, n: nat, w: nat, w': nat)
    requires ReadFrame(s) == Parsed(Ok(f), n) && w == w' + 1
    ensures FramesAnswered(s, w) == [f] + FramesAnswered(s[n..], w')
  {
    var p := ReadFrame(s);
    assert p.result.Ok? && p.result.value == f && p.consumed == n;
  }

  /** `s` holds the frames `fs` back to back, each read whole, then `tail`. */
  ghost predicate Holds(s: bytes, fs: seq<Frame>, tail: bytes)
    decreases |fs|
  {
    if fs == [] then s == tail
    else
      var n := |PackFrame(fs[0])|;
      n <= |s| && ReadFrame(s) == Parsed(Ok(fs[0]), n) && Holds(s[n..], fs[1..], tail)
  }

  /** Input made of whole frames and then an unreadable tail is answered
      frame by frame, as far as the peer accepts writes. */
  lemma {:induction false} FramesAnsweredHeld(s: bytes, fs: seq<Frame>, tail: bytes, writesLeft: nat)
    requires Holds(s, fs, tail) && ReadFrame(tail).result.Err?
    ensures FramesAnswered(s, writesLeft) == fs[..Min(writesLeft, |fs|)]
    decreases |fs|
  {
    if fs == [] || writesLeft == 0 {
      assert fs == [] ==> s == tail;
      FramesAnsweredStops(s, writesLeft);
      assert fs[..Min(writesLeft, |fs|)] == [];
    } else {
      var n := |PackFrame(fs[0])|;
      assert n <= |s| && ReadFrame(s) == Parsed(Ok(fs[0]), n) && Holds(s[n..], fs[1..], tail);
      FramesAnsweredFirst(s, fs[0], n, writesLeft, writesLeft - 1);
      FramesAnsweredHeld(s[n..], fs[1..], tail, writesLeft - 1);
      PrefixCons(FramesAnswered(s, writesLeft), FramesAnswered(s[n..], writesLeft - 1), fs,
                 Min(writesLeft, |fs|), Min(writesLeft - 1, |fs[1..]|));
    }
  }

  /** A sequence made of the first element of `xs` followed by a prefix of
      the rest of `xs` is a prefix of `xs`. */
  lemma {:induction false} PrefixCons<T>(a: seq<T>, p: seq<T>, xs: seq<T>, k: nat, j: nat)
    requires 0 < k <= |xs| && j == k - 1 && a == [xs[0]] + p && p == xs[1..][..j]
    ensures a == xs[..k]
  {
    assert xs[..k] == [xs[0]] + xs[1..][..j];
  }

  /** No frame is answered once reading fails or no write is accepted. */
  lemma FramesAnsweredStops(s: bytes, w: nat)
    requires ReadFrame(s).result.Err? || w == 0
    ensures FramesAnswered(s, w) == []
  {
  }

  /** Frames packed back to back are each read whole, one after the other. */
  lemma {:induction false} PackFramesHolds(fs: seq<Frame>, tail: bytes)
    requires forall i :: 0 <= i < |fs| ==> WellFormed(fs[i])
    ensures Holds(PackFrames(fs, tail), fs, tail)
    decreases |fs|
  {
    if fs != [] {
      var f, rest := fs[0], PackFrames(fs[1..], tail);
      assert PackFrames(fs, tail) == PackFrame(f) + rest;
      ReadFramePacked(f, rest);
      assert (PackFrame(f) + rest)[|PackFrame(f)|..] == rest;
      PackFramesHolds(fs[1..], tail);
    }
  }

  /** Back-to-back well-formed frames followed by a tail that cannot be read:
      the loop answers every frame, in order, as far as the peer accepts
      writes, and answers nothing for the tail. */
  lemma FramesAnsweredPacked(fs: seq<Frame>, tail: bytes, writesLeft: nat)
    requires forall i :: 0 <= i < |fs| ==> WellFormed(fs[i])
    requires ReadFrame(tail).result.Err?
    ensures FramesAnswered(PackFrames(fs, tail), writesLeft) == fs[..Min(writesLeft, |fs|)]
  {
    PackFramesHolds(fs, tail);
    FramesAnsweredHeld(PackFrames(fs, tail), fs, tail, writesLeft);
  }

  /** Hence the loop answers each complete frame, in order, as far as the
      peer accepts writes, and writes nothing for an incomplete tail. */
  lemma ServeFrames(fs: seq<Frame>, tail: bytes, writesLeft: nat, execute: Executor)
    requires forall i :: 0 <= i < |fs| ==> WellFormed(fs[i])
    requires ReadFrame(tail).result.Err?
    ensures Serve(PackFrames(fs, tail), writesLeft, execute) == RespondAll(fs[..Min(writesLeft, |fs|)], execute)
  {
    FramesAnsweredPacked(fs, tail, writesLeft);
  }
}
