# WebSocket framing, connection state machine and Base64, in Dafny

A model of the byte-level core of a Swift WebSocket library (RFC 6455), in three parts:

- **Frames** (`Sources/Frame.swift`, with the big-endian helpers of `Sources/Data.swift` and
  `Sources/Extensions.swift`): building one final frame from an opcode, a payload and a 0- or
  4-byte mask key (sections 5.2 and 5.3 of RFC 6455); reading its header fields back; deciding
  when a buffer holds a complete frame; and `add`, which appends bytes to the frame being
  assembled and hands back the surplus. Modules `Bytes`, `Extensions`, `Frames`, `Assembler`,
  `FrameVectors`.
- **The connection** (`Sources/WebSocket/WebSocket.swift`, the earlier
  `Sources/WebSocket.swift` and the oldest `Sources/Socket.swift`): validation of each inbound
  frame, reassembly of fragmented messages (section 5.4), control frames (section 5.5), the
  close handshake (sections 5.5.1 and 7.1), UTF-8 checking of text (section 8.1), `send`, and
  the read loop, which reads until the stream is closed, with its end-of-stream rule. Every operation is a pure step from a connection
  state `Conn(mode, revision, closeState, continuation, sent)` to an `Outcome`: the new state,
  the actions performed in order (`Write(opcode, payload, key)`, `CloseStream`,
  `Emit(event)`), and the error thrown, if any. The two WebSocket.swift revisions behave the
  same and are the `Split` revision; Socket.swift is `Fused`. Modules `Connection`, `Protocol`,
  `Handshake`, `Session`, `CloseCodes`, `Utf8`.
- **Base64** (`Sources/Base64.swift`): the encoder's A/B/C step machine with optional line
  wrapping, and the decoder's A/B/C/D step machine. They are related to a reference encoding
  written from section 4 of RFC 4648. Modules `Base64`, `Base64Decoding`.

Bytes are `byte`, a newtype over `0..255`. Integers are unbounded. The source's `UInt64` and
`UInt16` values appear as `nat` below `2^64` or `2^16` (`MaxPayload` is `2^64`). The random mask
key a client draws for each frame is an input: `keys(n)` is the key of the connection's n-th
outgoing frame.

Where the code and its description disagree, the model follows the code:

- A control frame's length is checked against the raw 7-bit length indicator, not the resolved
  length.
- `isComplete` accepts a buffer longer than the frame; `add` then cuts it.
- The two WebSocket.swift revisions answer a Close without a code with a Close carrying 1000.
  Socket.swift answers it with an empty Close.

## Model

| member | source | states |
|---|---|---|
| Frames.OpCodeOf | Sources/Frame.swift:55-69 | the low nibble names an opcode exactly when it is 0x0-0x2 or 0x8-0xA, and the opcode's raw value is then that nibble; every other nibble is Invalid |
| Frames.ControlOpcodes | Sources/Frame.swift:66-68 | an opcode is a control opcode exactly when it is a valid opcode with raw value 0x8-0xA (Close, Ping, Pong) |
| Frames.Mask | Sources/Frame.swift:111-120 | masking keeps the length, and byte i of the result is payload byte i xor key byte i mod 4 |
| Frames.MaskInvolution | Sources/Frame.swift:185-199 | masking twice with the same 4-byte key gives back the payload, so `payload` undoes what the encoder did |
| Frames.Encode | Sources/Frame.swift:170-200 | the encoded frame is the first byte FIN plus opcode, the length field, then either the key and the masked payload (4-byte key) or the payload itself; the total length adds up |
| Frames.LengthField | Sources/Frame.swift:173-184 | the length field is 1, 3 or 9 bytes by payload size, has the mask bit exactly when masked, carries the 7-bit indicator, and its extended bytes read back big-endian as the length |
| Frames.EncodeFirstByte | Sources/Frame.swift:171 | an encoded frame reads back with FIN set, no reserved bit and the opcode it was built with |
| Frames.EncodeShortestLength | Sources/Frame.swift:176-184 | the length uses no extended bytes up to 125, 2 bytes up to 65535 and 8 bytes above, each in both directions |
| Frames.EncodeExtendedLength | Sources/Frame.swift:176-181 | the 2-byte or 8-byte extended length reads back big-endian as the payload length |
| Frames.EncodeDecode | Sources/Frame.swift:71-162 | any frame the encoder builds is complete with exactly its total size, reads back FIN, no reserved bit, its opcode, masked exactly with a 4-byte key, that key, its length, and the original payload |
| Frames.CompleteIff | Sources/Frame.swift:128-162 | a buffer is complete exactly when it has two bytes, its extended-length bytes, and at least header plus resolved payload length bytes |
| Frames.CompleteHasPayload | Sources/Frame.swift:102-126 | a complete frame holds its header, mask key and at least the announced payload |
| Frames.CompleteMinimal | Sources/Frame.swift:128-162 | no prefix shorter than the total frame size of a complete buffer is complete |
| Frames.CompleteExtend | Sources/Frame.swift:128-162 | appending bytes to a complete buffer keeps it complete with the same total size |
| Frames.Add | Sources/Frame.swift:202-213 | `add` conserves bytes, keeps everything and returns nothing while incomplete, and otherwise keeps a complete frame of exactly its total size |
| Frames.AddConserves | Sources/Frame.swift:202-213 | the kept bytes followed by the returned ones are the old bytes followed by the input, and surplus is returned only alongside a complete frame |
| Frames.PayloadsAppend | Sources/Frame.swift:217-229 | the payload of a concatenation of frame lists is the concatenation of their payloads |
| Frames.PayloadsLast | Sources/Frame.swift:217-229 | the payload of a frame list is the payload of all but the last frame followed by the last frame's |
| FrameVectors.EncodeHelloVector | Tests/WebSocketTests/FrameTests.swift:17-23 | "Hello" as a Text frame with key 39 fa ab 35 encodes to 81 85 39 fa ab 35 71 9f c7 59 56 |
| FrameVectors.EncodePongVector | Tests/WebSocketTests/FrameTests.swift:5-15 | an empty Pong with key 39 fa ab 35 encodes to 8a 80 39 fa ab 35 |
| FrameVectors.EncodeMaskedShort | Sources/Frame.swift:170-200 | a masked frame of at most 125 bytes is its first byte, 0x80 plus the length, the key, then the masked payload |
| Bytes.NumberBytes | Sources/Data.swift:34-51 | serialising a number gives exactly the type's width in bytes, most significant first, reading back big-endian as the number |
| Bytes.ToInt | Sources/Data.swift:53-62 | `toInt` is 0 when the size is outside 1...8 or the range overruns the data, and otherwise the big-endian value of the slice |
| Bytes.BigEndianToNat | Sources/Data.swift:53-62 | the big-endian bytes of a slice's value at the slice's width are the slice itself, so reading is injective |
| Bytes.XorTwice | Sources/Frame.swift:118 | xor with the same key byte twice is the identity on bytes |
| Extensions.BytesToUInt | Sources/Extensions.swift:50-58 | `bytesToUInt` of at most four bytes is their big-endian value, below 2^32 |
| Extensions.ByteHex | Sources/Extensions.swift:60-65 | a byte's hex string is two lower-case hex digits whose value is the byte, starting with "0" exactly when the byte is below 16 |
| Extensions.HexString | Sources/Extensions.swift:78-81 | a byte string's hex string has two hex digits per byte |
| Extensions.HexStringAt | Sources/Extensions.swift:78-81 | characters 2i and 2i+1 of the hex string are the hex string of byte i |
| Extensions.HexStringRoundTrip | Sources/Extensions.swift:60-81 | reading the hex string back two digits at a time gives the original bytes |
| Extensions.HostBytes | Sources/Extensions.swift:96-130 | `bytes(totalBytes:)` has the requested length; its first min(width, requested) bytes are the big-endian low-order bytes of the value, and the rest are zero |
| Extensions.CopyValueBytes | Sources/Extensions.swift:102-107 | the copy loop writing byte j of the value at position k-1-j computes exactly `HostBytes` |
| Extensions.UInt16Bytes | Sources/Extensions.swift:96-112 | a `UInt16` at its default width of two bytes reads back through `toInt` as itself |
| Extensions.UInt64Bytes | Sources/Extensions.swift:114-130 | a `UInt64` at its default width of eight bytes reads back through `toInt` as itself |
| Extensions.SetUnsafeLast | Sources/Extensions.swift:67-76 | setting `unsafeLast` keeps the length, makes the last element the new value and leaves every other element alone |
| Extensions.NumberBytesCopy | Sources/Socket.swift:30-42 | the local `Data(number:)` of Socket.swift gives the same bytes as the one of Data.swift |
| Extensions.NumberBytesToInt | Sources/Socket.swift:44-53 | `toInt` at width w of the serialisation of a value below 256^w is that value |
| Assembler.Feed | Sources/WebSocket/WebSocket.swift:172-195 | the frames handed on followed by the new in-progress frame hold exactly the old in-progress bytes followed by the input, and after any input the in-progress frame is incomplete |
| Assembler.FeedExact | Sources/WebSocket/WebSocket.swift:172-195 | every frame handed on is complete and holds exactly its total size |
| Assembler.FeedSplit | Sources/WebSocket.swift:198-221 | feeding two pieces one after the other yields the same frames, in order, and the same in-progress frame as feeding their concatenation |
| Assembler.FeedChunksConcat | Sources/WebSocket.swift:198-221 | feeding chunks one by one is feeding their concatenation: chunk boundaries do not matter |
| Assembler.FeedFrames | Sources/Frame.swift:202-213 | a stream of exactly-sized complete frames is split back into those frames, with nothing in progress |
| Assembler.EncodedStream | Sources/Frame.swift:170-213 | two encoded frames sent back to back come out of the assembler as exactly those two frames |
| Connection.CloseData | Sources/WebSocket/WebSocket.swift:97-121 | a Close payload is 2 bytes for the code, if any, plus the reason |
| Connection.CloseWith | Sources/WebSocket/WebSocket.swift:97-121 | `close` never fails, raises no event, keeps the buffer, and moves Open to ServerClose while keeping any other state |
| Connection.Fail | Sources/WebSocket/WebSocket.swift:197-217 | failing the connection throws the given error after `close(.protocolError)`, keeps the buffer and raises no event |
| Connection.ProcessFrame | Sources/WebSocket/WebSocket.swift:244-321 | processing keeps the mode and revision and only ever buffers complete frames |
| Protocol.FrameErrorIffUnacceptable | Sources/WebSocket/WebSocket.swift:197-242 | validation raises no error exactly when the frame has no reserved bit, a known opcode, the right masking for the mode, a final control frame of at most 125 bytes that is not a 1-byte Close, and a continuation exactly when a message is in progress |
| Protocol.RejectedFrame | Sources/WebSocket.swift:213-215 | a frame failing validation raises that guard's error, is not buffered, raises no event; from Open it closes the stream and sends a Close with 1002, in ClientClose it sends that Close and then closes the stream, and in ServerClose it does nothing |
| Protocol.FragmentsPreserved | Sources/WebSocket/WebSocket.swift:250-264 | handling a frame without error keeps the buffer a run of non-final fragments that starts with Text or Binary and continues with Continuation frames |
| Protocol.AcceptedControl | Sources/WebSocket/WebSocket.swift:250-252 | an accepted control frame skips the buffer and goes straight to the opcode switch |
| Protocol.ControlKeepsBuffer | Sources/WebSocket/WebSocket.swift:250-252 | an accepted control frame leaves the buffer unchanged |
| Protocol.DataFinalClears | Sources/WebSocket/WebSocket.swift:318-320 | a final data frame that raises no error leaves the buffer empty |
| Protocol.DataFragmentBuffered | Sources/WebSocket/WebSocket.swift:250-256 | a non-final data frame is appended to the buffer and nothing else happens |
| Protocol.CloseStateSticky | Sources/WebSocket/WebSocket.swift:97-121 | once either side has started closing, no frame changes the close state |
| Protocol.PingPongDelivered | Sources/WebSocket.swift:300-303 | an accepted Ping or Pong raises only its own payload as an event, sends no reply and leaves the connection alone |
| Protocol.MessageDelivered | Sources/WebSocket/WebSocket.swift:254-273 | a final data frame delivers the buffered payloads plus its own under the first frame's opcode: Binary always, Text only when valid UTF-8 and otherwise the invalidUTF8Payload error with no event |
| Handshake.SendDecodes | Sources/WebSocket/WebSocket.swift:323-334 | `send` writes one frame that reads back as final, unreserved, with the given opcode and payload, masked exactly in client mode with that frame's fresh key |
| Handshake.CloseFrameDecodes | Sources/WebSocket/WebSocket.swift:97-121 | the Close frame sent reads back with the code as its first two big-endian bytes, followed by the reason |
| Handshake.CloseOrdering | Sources/Socket.swift:147-175 | `close` does nothing in ServerClose; from Open a 1002 closes the stream before the Close frame and any other code only sends it; in ClientClose the stream closes after it |
| Handshake.AcceptedClosePayload | Sources/WebSocket/WebSocket.swift:219-230 | an accepted Close payload is empty or 2 to 125 bytes |
| Handshake.ReceivedCode | Sources/WebSocket/WebSocket.swift:284-290 | the received code is the big-endian value of the first two bytes, and re-serialising it with the reason gives back the received payload |
| Handshake.CloseEchoed | Sources/Socket.swift:339-345 | a Close with a valid code and a UTF-8 reason is echoed with the same payload, then the stream closes, then (code, reason) is raised, and the state is ClientClose |
| Handshake.InvalidCloseCodeFails | Sources/WebSocket/WebSocket.swift:297-306 | a Close with an invalid code fails with invalidCloseCode after answering with a 1002 Close and closing the stream |
| Handshake.InvalidReasonFails | Sources/WebSocket/WebSocket.swift:284-294 | a Close whose reason is not UTF-8 fails with invalidUTF8Payload, closing the stream and sending a 1002 Close |
| Handshake.CodelessCloseAnswered | Sources/Socket.swift:349-352 | a Close without a code is answered with a Close carrying 1000 (WebSocket.swift revisions) or an empty one (Socket.swift), then the stream closes and (nil, nil) is raised |
| Handshake.CloseWhileClosing | Sources/WebSocket/WebSocket.swift:311-313 | a Close received in ServerClose only closes the stream, and in ClientClose does nothing |
| Handshake.FusedAgrees | Sources/Socket.swift:249-363 | the fused validate-and-process of Socket.swift has the same outcome as validating then processing |
| Session.HandleFramesAppend | Sources/WebSocket/WebSocket.swift:172-195 | handling two runs of frames in turn is handling their concatenation, and a failure in the first ends it |
| Session.ReadBytesSplit | Sources/WebSocket.swift:198-221 | reading two pieces in turn is reading their concatenation |
| Session.ReadChunksConcat | Sources/WebSocket/WebSocket.swift:139-170 | the read loop behaves as one read of the chunks up to and including the first whose bytes close the stream (or all of them), and reads none after it |
| Session.ReadChunksAppend | Sources/WebSocket/WebSocket.swift:140-147 | the loop over two runs of chunks reads the second only when the first leaves the stream open without error, and then appends its actions |
| Session.ClosingChunkIsLast | Sources/Socket.swift:194-201 | a chunk whose handling closes the stream is the last one read: later chunks raise no event and send nothing |
| Session.FrameClosesOnce | Sources/WebSocket/WebSocket.swift:244-321 | handling one frame raises at most one close event, only from Open and leaving it, and never reopens a closing connection |
| Session.FramesCloseOnce | Sources/WebSocket/WebSocket.swift:172-195 | over a run of frames at most one close event is raised, only from Open and leaving it, and a closing connection never reopens |
| Session.ServeClosesOnce | Sources/WebSocket/WebSocket.swift:139-152 | a whole session raises at most one close event, and one still Open when the input ends ends with (abnormal, nil) |
| Base64.EncodeValueAlphabet | Sources/Base64.swift:53-56 | values below 64 become alphabet characters and values above 64 the padding character, both directions |
| Base64.EncodeBlock | Sources/Base64.swift:58-93 | each byte moves the step A to B to C to A, keeps the pending bits well-formed and appends output |
| Base64.EncodeBlockEnd | Sources/Base64.swift:95-110 | the end pads a pending group to four characters and adds a newline exactly when wrapping |
| Base64.EncodeBytes | Sources/Base64.swift:45-51 | empty input encodes to nothing, and wrapped non-empty output ends with a newline |
| Base64.QuantumThree | Sources/Base64.swift:62-86 | three bytes become four characters for the four 6-bit fields of their 24 bits |
| Base64.QuantumAlphabet | Sources/Base64.swift:95-106 | a group of n bytes gives n+1 alphabet characters followed by padding |
| Base64.ReferenceAlphabet | Sources/Base64.swift:48 | the reference encoding holds only alphabet and padding characters |
| Base64.EncodeUnwrapped | Sources/Base64.swift:58-110 | without wrapping the encoder's output is the reference encoding of section 4 of RFC 4648 |
| Base64.EncodeWrapped | Sources/Base64.swift:78-84 | with wrapping the output is the reference encoding broken after every `charsPerLine/4` full groups, plus a final newline |
| Base64.UnwrappedLength | Sources/Base64.swift:95-106 | without wrapping the output has 4 * ceil(n/3) characters |
| Base64.WrappedLength | Sources/Base64.swift:78-84 | with wrapping the output adds one newline per `charsPerLine/4` full groups and one at the end |
| Base64.WrappedStrips | Sources/Base64.swift:107-109 | removing the newlines from the wrapped output gives the unwrapped output |
| Base64Decoding.TableIsAlphabet | Sources/Base64.swift:118 | the decoding table maps each code from 43 to 122 to its alphabet index, -2 for "=" and -1 otherwise |
| Base64Decoding.DecodeValue | Sources/Base64.swift:120-124 | the corrected `decodeValue` gives a byte's alphabet index, and a negative value exactly for non-alphabet bytes |
| Base64Decoding.DecodeValueAsWritten | Sources/Base64.swift:121 | `decodeValue` as written traps exactly on bytes below 43, and otherwise agrees with the corrected one |
| Base64Decoding.DigitInverse | Sources/Base64.swift:53-56 | decoding a character the encoder wrote gives back its 6-bit value |
| Base64Decoding.SeparatorsSkipped | Sources/Base64.swift:143-147 | padding and newline decode to negative values, so the decoder skips them |
| Base64Decoding.Decode | Sources/Base64.swift:134-138 | the output array has the input's length; it decodes with the corrected `decodeValue`, while the wrappers as written trap on any byte below 43 (see Findings) |
| Base64Decoding.SkipInsignificant | Sources/Base64.swift:141-168 | the decoder's result depends only on the input's alphabet characters |
| Base64Decoding.DecodeQuantum | Sources/Base64.swift:150-165 | four characters of three bytes decode to those bytes at the output position, leaving earlier output alone |
| Base64Decoding.RoundTrip | Sources/Base64.swift:136-216 | the first n bytes of decoding the encoding of n bytes, wrapped or not, are those bytes |
| Base64Decoding.UnwrappedNeverTraps | Sources/Base64.swift:121 | every character of unwrapped output is at least 43, so the decoder as written never traps on it |
| Base64Decoding.WrappedOutputTraps | Sources/Base64.swift:121 | wrapped non-empty output ends with a newline, on which the decoder as written traps |
| Base64Decoding.NewlineTrapExample | Sources/Base64.swift:78-124 | "M" wrapped at 76 encodes to "TQ==" and a newline; the decoder as written traps on the newline and the corrected one gives "M" back |

## Left out

- Transport I/O (`stream.read`, `write`, `flush`, `close`, the 4096-byte read buffer) appears only as `Write` and `CloseStream` actions and as a list of received chunks; transport errors are not modelled.
- `Data(randomBytes:)` reads system randomness; the mask keys are an input instead.
- The HTTP upgrade, the accept key and SHA-1 are in other files and are not part of this model.
- Event listeners are not modelled; an emitted event is an `Emit` action in the trace.
- CloseCodes.IsValid: `CloseCode` and its `isValid` are not part of this model, so this set is assumed: the library's documented classification (1000-1003, 1007-1011, 1015, 3000-4999). It accepts 1015, which section 7.4.1 of RFC 6455 says an endpoint must not send, so a received Close carrying 1015 is echoed and raised as an event rather than failing with invalidCloseCode.
- `String(data:)` and `String.fromBytes` are replaced by the UTF-8 well-formedness predicate of Unicode Table 3-7; text events carry bytes.
- The pointer reinterpretation in `Data(number:)` and `bytes(totalBytes:)` assumes a little-endian host; only its big-endian result is modelled.
- Frames.Add: the `Int(totalFrameSize)` conversion traps for sizes above `Int.max`; the model uses unbounded sizes.
- Frames.IsComplete: `totalFrameSize` adds the header length to the 8-byte extended length in `UInt64`, which traps when that length is at least 2^64 - 14 with a mask (2^64 - 10 without), for instance on the ten header bytes 82 FF FF FF FF FF FF FF FF FF; the model adds without bound, so such a frame counts as incomplete and keeps buffering.
- Base64.EncodeValue: requires the value not to be 64, which would index past the alphabet; the encoder never produces it.
- The `specialChars` parameter is left out, since no wrapper passes it on; the alphabet ends with "+" and "/".
- The `String` overloads of the Base64 wrappers are left out; they convert to and from UTF-8 bytes around the byte versions.
- Recursion depth is not modelled: `encodeBlock` and `decodeBlock` recurse once per byte and are modelled as recursive functions over the input.
- `send` on a closed stream and transport flushing are not modelled.

## Findings

| source | as written | input that shows it | evidently intended | confidence | as-written member | corrected member |
|---|---|---|---|---|---|---|
| Sources/Base64.swift:121 | `Int(value - 43)` subtracts in `UInt8`, which traps for every byte below 43 | the newline the encoder itself appends when `charsPerLine` is set: "M" with 76 characters per line encodes to "TQ==" and a newline (0x0A), and decoding it traps | `Int(value) - 43`, so that the following guard skips the byte like any other non-alphabet byte | not executed | Base64Decoding.DecodeValueAsWritten | Base64Decoding.DecodeValue |
