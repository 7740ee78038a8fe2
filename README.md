# go-swtpm protocol layer in Dafny

This project models the protocol layer of go-swtpm, a software TPM 2.0 written in Go. It covers two pieces:

- **swtpm2**, the TPM 2.0 command processor. It reads a command frame off a connection: a 10-byte header of tag, size and command code, then exactly the payload that the size declares. It dispatches the frame on its command code to a command engine (ReadPublic, NV_ReadPublic, GetCapability for PCRs, StartAuthSession) and answers with a response frame. A frame that cannot be read ends the connection with no answer. Every failure after a frame was read is answered in-band, with tag TPM_ST_NO_SESSIONS and the generic failure code `RCFail`. The per-connection loop answers frames until a read or a write fails.
- **mssim**, the Microsoft TPM simulator envelope. A request is a 4-byte command, a 1-byte locality, a 4-byte payload size and the payload. A response is the payload length, the payload and a 4-byte result code. The platform port acknowledges every 4-byte platform command with four zero bytes.

Modules:

- `Wire` (`wire.dfy`) holds bytes, the big-endian integers, the 2-byte-length-prefixed blob (`tpmutil.U16Bytes`) and sequential unpacking.
- `Stream` (`stream.dfy`) holds the connection as a class. It has the bytes the peer sends before closing, a read cursor, the bytes written back so far, and how many more writes the peer accepts. Its `ReadFull` behaves as `io.ReadFull` does: a short read fails and drains the stream.
- `Structures` (`structures.dfy`) holds the headers, the response packer and the ReadPublic response encoding.
- `Swtpm2` (`commands.dfy`) holds dispatch, frame reading, `ProcessCommand` and the loop.
- `Mssim` (`mssim.dfy`) holds the envelope codec and the command-port exchange.
- `Platform` (`platform.dfy`) holds the platform acknowledger.

`Conn` has two methods of its own, `ReadFull` and `Write`. Every other operation that reads a connection is a module-level method that takes a `Conn`. `ParseCommandHeader`, `ProcessCommand`, `ParseRequest` and `DummyPlatformProcessor` are each proved equal to a pure function of the unread input: `ReadFrame`, `ProcessFrame`, `ReadRequest` and `PlatformReply`. `LoopProcessCommand` is tied to two functions. Its output is `Concat(Serve(...))`, and the bytes it consumes are `LoopConsumed(...)`. The properties are then proved about those functions.

The command engine (`Commands`) and the encoders of its results (`Encoders`) are datatypes of function values. The model never looks inside the values they produce. `Engine(commands, enc)` is `executeCommand` with its engine fixed. It is the `execute` parameter that `ProcessCommand` and `LoopProcessCommand` take.

## Model

| member | source | states |
|---|---|---|
| Wire.UnpackU32 | swtpm2/commands.go:90-94 | unpacking a handle fails with an unpack error exactly when fewer than 4 bytes remain; otherwise what is left is everything after the first four bytes |
| Wire.UnpackU32Encodes | swtpm2/commands.go:90-94 | the value read, re-encoded and followed by what is left, is the input |
| Wire.UnpackU16Bytes | swtpm2/commands.go:157-163 | a length-prefixed blob is read exactly when the announced length is available; the blob is the announced number of bytes after the prefix, and the rest follows it |
| Wire.UnpackU16BytesEncodes | swtpm2/commands.go:157-163 | prefix, blob and rest make up the input, and the blob is shorter than 65536 bytes |
| Wire.PackU16Bytes | swtpm2/commands.go:114 | a blob is packed behind its 2-byte length exactly when that length fits 16 bits; otherwise the error names the length |
| Wire.U16BytesRoundTrip | swtpm2/commands.go:114 | unpacking a packed blob gives the blob and leaves what follows untouched |
| Wire.U32UnpackRoundTrip | swtpm2/commands.go:90-91 | unpacking a big-endian 32-bit value gives it back with the rest untouched |
| Structures.PackCommandHeader | swtpm2/structures.go:11-16 | a command header packs to exactly 10 bytes |
| Structures.CommandHeaderEncodes | swtpm2/commands.go:66 | the header `UnpackCommandHeader` reads off the front of the bytes is the one that packs back to their first ten bytes |
| Structures.CommandHeaderRoundTrip | swtpm2/structures.go:11-16 | unpacking a packed command header gives back tag, size and command code |
| Structures.PackResponseHeader | swtpm2/structures.go:34 | a response header packs to exactly 10 bytes; `ResponseHeaderRoundTrip` and `ResponseHeaderEncodes` state which 10 |
| Structures.ResponseHeaderEncodes | swtpm2/structures.go:18-23 | the response header unpacked from ten bytes packs back to them |
| Structures.ResponseHeaderRoundTrip | swtpm2/structures.go:18-23 | unpacking a packed response header gives back tag, size and response code |
| Structures.ResponseSize | swtpm2/structures.go:33 | the size field is 10 + len(body) when that fits 32 bits, and equals it modulo 2^32 otherwise |
| Structures.PackWithResponseHeader | swtpm2/structures.go:25-42 | the response is 10 + len(body) bytes and the body follows the header unchanged |
| Structures.PackedResponseHeader | swtpm2/structures.go:26-34 | the header written carries the tag and code as given and the size uint32(10 + len(body)) |
| Structures.SizeFieldIsLength | swtpm2/structures.go:31-33 | when it fits 32 bits, the size field equals the length of the whole response |
| Structures.EmptyBodyIsHeaderOnly | swtpm2/structures.go:38-40 | an empty body gives the bare 10-byte header with size 10 |
| Structures.ReadPublicResponse.Encode | swtpm2/structures.go:51-67 | the public-area encoder's error is passed on unchanged; success exactly when all three blobs fit; a client decodes exactly the encoded public area, name and qualified name |
| Structures.DecodeReadPublic | swtpm2/structures.go:53-57 | a decoded body is six length bytes plus the three blobs |
| Structures.DecodeReadPublicLayout | swtpm2/structures.go:53-57 | a decoded body is exactly the three blobs it returns, each behind its 2-byte length, in order |
| Swtpm2.NotImplemented | swtpm2/tpm2.go:19-27 | the bare device's ReadPublic and NV_ReadPublic fail for every handle |
| Swtpm2.ExecuteCommand | swtpm2/commands.go:87-174 | an unknown command code is refused with an error naming it; a payload shorter than a command's fixed arguments fails with an unpack error |
| Swtpm2.ExecuteReadPublic | swtpm2/commands.go:89-99 | fewer than 4 payload bytes fail to unpack |
| Swtpm2.ExecuteReadPublicNV | swtpm2/commands.go:100-105 | fewer than 4 payload bytes fail to unpack; every longer payload is covered by NVReadPublicDoubleWrap |
| Swtpm2.ExecuteGetCapability | swtpm2/commands.go:115-146 | fewer than 12 payload bytes fail to unpack |
| Swtpm2.ExecuteStartAuthSession | swtpm2/commands.go:148-155 | fewer than 17 payload bytes fail to unpack; longer payloads are covered by StartAuthSessionRejects and StartAuthSessionDispatch |
| Swtpm2.PackSessionResponse | swtpm2/commands.go:171 | the answer is the handle followed by the length-prefixed nonce, which fails exactly when the nonce is too long for its prefix |
| Swtpm2.ReadPublicPassesHandle | swtpm2/commands.go:89-99 | the first four payload bytes reach the engine as the handle, whatever follows; the engine's error or its encoded result is the answer |
| Swtpm2.ReadPublicEndToEnd | swtpm2/commands.go:89-99 | a client decodes exactly the engine's public area, name and qualified name from the ReadPublic answer |
| Swtpm2.NVReadPublicDoubleWrap | swtpm2/commands.go:100-114 | the index reaches the engine unchanged; an engine error or a packing error is the command's error; a packed NV public area of 65536 bytes or more fails with BlobTooLong; otherwise the packed area is wrapped once more behind a 2-byte length |
| Swtpm2.GetCapabilityArgs | swtpm2/commands.go:116-120 | the GetCapability arguments are 12 bytes |
| Swtpm2.GetCapabilityDispatch | swtpm2/commands.go:115-146 | the arguments are read as capability, property, count and passed as (count, property); any capability except PCRs is refused; the answer is moreData = 0, the capability, then the encoded selection, and every engine or encoder error is passed on |
| Swtpm2.UnpackU32Pair | swtpm2/commands.go:149-155 | the two key handles are read exactly when 8 bytes are there, and what is left starts after them |
| Swtpm2.U32PairRoundTrip | swtpm2/commands.go:149-155 | unpacking two packed handles gives both back, in order, with the rest untouched |
| Swtpm2.UnpackSessionTail | swtpm2/commands.go:157-164 | the handles read first are kept; fewer than 9 bytes for the rest fail to unpack |
| Swtpm2.SessionTailAccepts | swtpm2/commands.go:157-164 | the rest unpacks exactly when the nonce and its length prefix fit, then the secret and its prefix, then five fixed bytes; anything else is UnpackShort |
| Swtpm2.SessionTailEncodes | swtpm2/commands.go:157-164 | whatever the rest unpacks to is read off the front of the bytes in packed form |
| Swtpm2.UnpackSessionArgs | swtpm2/commands.go:148-164 | a payload shorter than 17 bytes fails to unpack |
| Swtpm2.SessionArgsAccepts | swtpm2/commands.go:148-164 | a payload unpacks exactly when 8 handle bytes come first and the rest unpacks after them; anything else is UnpackShort |
| Swtpm2.SessionArgsEncodes | swtpm2/commands.go:148-164 | whatever a payload unpacks to is read off its front in packed form |
| Swtpm2.StartAuthSessionRejects | swtpm2/commands.go:148-164 | a payload whose arguments do not unpack fails with UnpackShort, however long it is |
| Swtpm2.OverrunningNonceFails | swtpm2/commands.go:157-164 | the 17 bytes `00000001 00000002 FFFF 00000000000000` fail with UnpackShort, because the nonce prefix overruns them |
| Swtpm2.PackSessionArgs | swtpm2/commands.go:148-164 | a client's StartAuthSession arguments take 17 bytes plus nonce and secret |
| Swtpm2.PackSessionTail | swtpm2/commands.go:157-164 | the arguments after the two handles take 9 bytes plus nonce and secret |
| Swtpm2.SessionTailRoundTrip | swtpm2/commands.go:157-164 | nonce, secret, session type and both algorithms are unpacked back unchanged |
| Swtpm2.SessionArgsRoundTrip | swtpm2/commands.go:148-164 | every StartAuthSession argument is unpacked back unchanged |
| Swtpm2.StartAuthSessionDispatch | swtpm2/commands.go:148-171 | all seven arguments reach the engine unchanged; the answer is the handle and length-prefixed nonce, or the engine's error |
| Swtpm2.PackFrame | swtpm2/commands.go:55-85 | a frame is ten header bytes plus its payload |
| Swtpm2.ReadFrame | swtpm2/commands.go:55-85 | never consumes more than the input; a frame that is read consumes at least the header |
| Swtpm2.ReadFrameSpec | swtpm2/commands.go:55-85 | fewer than 10 bytes is a short read that drains the stream; a declared size below 10 fails after the header; a payload shorter than declared is a short read; otherwise exactly the declared bytes are read, and they pack back to themselves |
| Swtpm2.ReadFramePacked | swtpm2/commands.go:55-85 | a well-formed frame is read back whole, and reading stops right after it |
| Swtpm2.TruncatedFrameFails | swtpm2/commands.go:60-82 | any proper prefix of a frame fails to read |
| Swtpm2.ParseCommandHeader | swtpm2/commands.go:55-85 | the method reads from the connection what ReadFrame says and advances the cursor by what it consumes |
| Swtpm2.Respond | swtpm2/commands.go:48-52 | a successful dispatch is answered with a 10-byte header and the body; a failed one with the bare 10-byte header |
| Swtpm2.RespondShape | swtpm2/commands.go:48-52 | every answer carries TPM_ST_NO_SESSIONS; success carries RCSuccess and the engine's body; failure carries RCFail, an empty body and size 10 |
| Swtpm2.ProcessFrame | swtpm2/commands.go:40-53 | never consumes more than the input; an answer is given only after a whole header was read |
| Swtpm2.ProcessFramePacked | swtpm2/commands.go:40-53 | a well-formed frame is answered by its own response and exactly its bytes are consumed |
| Swtpm2.UnknownCommandAnswersFail | swtpm2/commands.go:48-50 | an unknown command code is answered in-band with the 10-byte RCFail header, and the connection goes on |
| Swtpm2.NotImplementedAlwaysFails | swtpm2/commands.go:48-50 | with the bare device every frame is answered with RCFail and an empty body |
| Swtpm2.ProcessCommand | swtpm2/commands.go:40-53 | the method returns an error exactly when the frame cannot be read; otherwise it returns the response, as ProcessFrame says |
| Swtpm2.RespondAll | swtpm2/commands.go:28-36 | there is one response per frame, and the i-th response is the answer to the i-th frame |
| Swtpm2.FramesAnswered | swtpm2/commands.go:28-36 | the loop answers no more frames than the peer accepts writes |
| Swtpm2.LoopConsumed | swtpm2/commands.go:28-36 | the loop never consumes more than its input; it consumes each answered frame and then the frame whose read fails or whose answer is refused |
| Swtpm2.Serve | swtpm2/commands.go:28-36 | the loop never writes more often than the peer accepts |
| Swtpm2.LoopStep | swtpm2/commands.go:29-35 | one turn of the loop moves the first frame's response from what is still to be written to what has been written, and its bytes from what is still to be consumed to what has been consumed |
| Swtpm2.ConsumesFirstFrame | swtpm2/commands.go:29-35 | when the first frame is answered, the loop consumes its bytes and then what it consumes from the rest of the stream |
| Swtpm2.LoopProcessCommand | swtpm2/commands.go:25-38 | the connection's output gains exactly the concatenated responses to the frames answered, in order, until a read or a write fails; the read cursor advances by exactly `LoopConsumed`, so it stops just after the frame whose read fails or whose answer is refused |
| Swtpm2.ServeStops | swtpm2/commands.go:29-35 | nothing more is written after a frame cannot be read or a write is refused, and that last read is all that is consumed |
| Swtpm2.RefusedFrameIsConsumed | swtpm2/commands.go:29-35 | with no write accepted, a whole frame at the front is read and consumed but nothing is answered |
| Swtpm2.ServeWritesFirstResponse | swtpm2/commands.go:28-36 | the output is the first frame's response, then the output for the rest of the stream |
| Swtpm2.PackFramesHolds | swtpm2/commands.go:55-85 | back-to-back well-formed frames are each read whole, one after the other |
| Swtpm2.FramesAnsweredHeld | swtpm2/commands.go:25-38 | input that reads as a list of whole frames and then an unreadable tail is answered by the loop frame by frame, as far as the peer accepts writes |
| Swtpm2.FramesAnsweredPacked | swtpm2/commands.go:25-38 | back-to-back well-formed frames are answered one by one, in order, as far as the peer accepts writes, and nothing is answered for an unreadable tail |
| Swtpm2.ServeFrames | swtpm2/commands.go:25-38 | the loop answers each complete frame in order and writes nothing for an incomplete tail |
| Mssim.PackRequest | mssim/mssim.go:28-53 | a request takes 9 bytes plus its payload |
| Mssim.ReadRequest | mssim/mssim.go:28-53 | never consumes more than the input |
| Mssim.ReadRequestSpec | mssim/mssim.go:28-53 | a request is read exactly when the prefix and the announced payload are there, and then 9 + size bytes are consumed; the payload is the next size bytes; otherwise a short read drains the stream |
| Mssim.RequestRoundTrip | mssim/mssim.go:28-53 | parsing a packed request gives back any command code, the locality and the payload, and leaves what follows unread |
| Mssim.TruncatedRequestFails | mssim/mssim.go:33-46 | a stream that ends inside any of the four reads gives no request |
| Mssim.ParseRequest | mssim/mssim.go:27-53 | the method reads from the connection what ReadRequest says and advances the cursor by what it consumes |
| Mssim.BodyLength | mssim/mssim.go:63 | the length field is len(body) when that fits 32 bits, and equals it modulo 2^32 otherwise |
| Mssim.CreateResponse | mssim/mssim.go:55-74 | the response is 8 + len(body) bytes and the body follows the 4-byte length |
| Mssim.DecodeResponse | mssim/mssim.go:57-60 | a decoded response is eight bytes longer than its body |
| Mssim.DecodeResponseLayout | mssim/mssim.go:57-60 | a decoded response is exactly the body's 4-byte length, the body, then the result code |
| Mssim.ResponseFields | mssim/mssim.go:63-73 | the first field is uint32(len(body)) and the last four bytes are the result code |
| Mssim.ResponseRoundTrip | mssim/mssim.go:56-74 | when the length fits, a client decodes the code and body the response was made from |
| Mssim.MssimCommand | tools/software_tpm/main.go:81-99 | the exchange never consumes more than the input |
| Mssim.MssimCommandAnswers | tools/software_tpm/main.go:81-99 | a TPM command in an MSSIM request, with any command code and locality, is answered by its TPM response inside a code-0 MSSIM response; exactly the request is consumed |
| Platform.PlatformReply | mssim/platform.go:14-27 | never consumes more than the input |
| Platform.PlatformAcknowledges | mssim/platform.go:11-23 | any 4-byte command, whatever its value, is consumed exactly and answered with four zero bytes, read back as the success code |
| Platform.PlatformShortRead | mssim/platform.go:16-18 | fewer than four bytes give an error and drain the stream |
| Platform.PlatformStateless | mssim/platform.go:14-27 | any two calls that read a command answer alike |
| Platform.DummyPlatformProcessor | mssim/platform.go:13-27 | the method consumes 4 bytes and writes the 4-byte success code; a short read gives an error and writes nothing; a refused write gives an error |

## Left out

- The TCP transport is not part of this model: `transport/tcp.go`, `transport/transport.go`, `GetFreePort`, `ServeTCP` and `NewConnectionProcessingLoop`. It is network I/O with goroutines. The connection is a finite input that the peer closes, plus a write budget.
- Logging and the text of error messages are left out. Errors are the constructors of `Wire.Error`.
- `binary.Read` and `io.ReadFull` distinguish `io.EOF` from `io.ErrUnexpectedEOF`. Both are one `ShortRead`. Read errors other than end of stream are not modelled.
- A write either delivers all its bytes or nothing. Partial writes are not modelled.
- The formats written by `tpm2.Public.Encode` and `tpmutil.Pack(NVPublic)` belong to go-tpm. `EncodePCRSelection` is defined in package swtpm2 outside swtpm2/commands.go and swtpm2/structures.go, and is not part of this model. All three are function parameters (`Encoders`) whose output is carried unchanged.
- The command engine is a set of pure functions. An engine that keeps state between calls is not modelled.
- A handler that returns a nil response with a nil error makes the Go code panic. That case is not modelled.
- `tpmutil.Pack` of a `U16Bytes` of 65536 bytes or more is not part of this model. `PackU16Bytes` refuses such a blob with `BlobTooLong`.
- `PackWithResponseHeader` and `CreateResponse` return an error only when packing a fixed-size struct or writing to a `bytes.Buffer` fails, which cannot happen. Both are total functions, so `ProcessCommand` never returns that error.
- `tpmutil.RCSuccess` is 0 in go-tpm. `RCFail` is modelled as that plus 1.
- `mssim.RCSuccess` is used at tools/software_tpm/main.go:92, but its definition is not part of this model. `MssimCommand` uses result code 0, as mssim/mssim_test.go:104 does.
- `TPM2` in swtpm2/tpm2.go defines only ReadPublic and ReadPublicNV, and both fail. `NotImplemented` also fails GetCapabilityPCRs and StartAuthSession.
- The CLI, flag parsing and process start-up in tools/software_tpm/main.go are left out. Only the command-port exchange at lines 81-99 is modelled, as `MssimCommand`.
- MssimCommandAnswers: the client-decoding half holds only for a TPM response shorter than 2^32 bytes. For longer ones the MSSIM length field wraps.
