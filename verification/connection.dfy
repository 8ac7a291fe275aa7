/** One WebSocket connection after the opening handshake: inbound frame validation,
    reassembly of fragmented messages (section 5.4 of RFC 6455), control frames (section 5.5),
    the close handshake (sections 5.5.1 and 7.1) and UTF-8 checking of text (section 8.1).
    The newest revision is Sources/WebSocket/WebSocket.swift; Sources/WebSocket.swift behaves
    the same, and Sources/Socket.swift differs in its fused `processFrame` and its `close(nil)`.

    Each operation is a pure step: it takes the connection state and returns the new state,
    the transport actions and events it performs, in order, and the error it throws, if any.
    Random mask keys are an input: the client's n-th outgoing frame uses `keys(n)`. */
module Connection {
  import opened Bytes
  import opened Frames
  import opened Utf8
  import opened Assembler
  import opened CloseCodes
  import opened Optional

  datatype Mode = Server | Client

  datatype CloseState = Open | ServerClose | ClientClose

  /** `Split`: the two WebSocket.swift revisions, with `validateFrame` before `processFrame`
      and a Close payload that always starts with a code. `Fused`: Socket.swift, whose
      `close(nil)` sends an empty Close. */
  datatype Revision = Split | Fused

  datatype WsError =
    | NoFrame | InvalidOpCode | MaskedFrameFromServer | UnaskedFrameFromClient
    | ControlFrameNotFinal | ControlFrameInvalidLength | ContinuationOutOfOrder
    | DataFrameWithInvalidBits | MaskKeyInvalidLength | NoMaskKey
    | InvalidUTF8Payload | InvalidCloseCode

  /** What the event emitters deliver; text is carried as its UTF-8 bytes. */
  datatype Event =
    | BinaryEvent(data: seq<byte>)
    | TextEvent(text: seq<byte>)
    | PingEvent(data: seq<byte>)
    | PongEvent(data: seq<byte>)
    | CloseEvent(code: Option<nat>, reason: Option<seq<byte>>)

  /** `stream.write` of the frame `Frame(opCode:data:maskKey:)` builds from an opcode, a
      payload and a mask key; `stream.close()`; or an emitted event. */
  datatype Action = Write(op: OpCode, payload: seq<byte>, key: seq<byte>) | CloseStream | Emit(event: Event)

  /** The bytes a `Write` puts on the wire. */
  function WireBytes(a: Action): seq<byte>
    requires a.Write? && |a.payload| < MaxPayload
  {
    Encode(a.op, a.payload, a.key)
  }

  type Key = k: seq<byte> | |k| == 4 witness [0, 0, 0, 0]

  /** The random bytes a client draws for each frame it sends, by frame number. */
  type KeySource = nat -> Key

  /** The connection's fields: its mode and revision, `closeState`, the buffered
      `continuationFrames`, and how many frames it has sent (which numbers the mask keys). */
  datatype Conn = Conn(mode: Mode, rev: Revision, closeState: CloseState, continuation: seq<Frame>, sent: nat)

  /** Only complete frames are ever buffered. */
  predicate Valid(c: Conn)
  {
    AllComplete(c.continuation)
  }

  datatype Outcome = Outcome(conn: Conn, actions: seq<Action>, error: Option<WsError>)

  function MaskKeyFor(c: Conn, keys: KeySource): seq<byte>
  {
    if c.mode == Client then keys(c.sent) else []
  }

  /** `send(_:data:)`: one final frame, masked with a fresh key in client mode only. */
  function Send(c: Conn, keys: KeySource, op: OpCode, data: seq<byte>): Outcome
    requires |data| < MaxPayload
  {
    Outcome(c.(sent := c.sent + 1), [Write(op, data, MaskKeyFor(c, keys))], None)
  }

  /** The payload of an outgoing Close: the code as two big-endian bytes, if any, then the
      reason. */
  function CloseData(code: Option<nat>, reason: Option<seq<byte>>): (r: seq<byte>)
    requires code.Some? ==> code.value < 0x1_0000
    ensures |r| == (if code.Some? then 2 else 0) + (if reason.Some? then |reason.value| else 0)
  {
    assert Pow256(2) == 0x1_0000;
    (if code.Some? then NumberBytes(code.value, 2) else []) + (if reason.Some? then reason.value else [])
  }

  predicate CloseArgs(code: Option<nat>, reason: Option<seq<byte>>)
  {
    && (code.Some? ==> code.value < 0x1_0000)
    && (reason.Some? ==> |reason.value| + 2 < MaxPayload)
  }

  /** `close(_:reason:)`: nothing once the server has started closing; otherwise an Open
      connection becomes ServerClose, and the Close frame is sent, preceded by closing the
      transport when the server fails the connection, followed by it when answering the
      client's Close. */
  function CloseWith(c: Conn, keys: KeySource, code: Option<nat>, reason: Option<seq<byte>>): (r: Outcome)
    requires CloseArgs(code, reason)
    ensures r.error == None
    ensures r.conn.continuation == c.continuation && r.conn.mode == c.mode && r.conn.rev == c.rev
    ensures r.conn.closeState == (if c.closeState == Open then ServerClose else c.closeState)
    ensures forall i :: 0 <= i < |r.actions| ==> !r.actions[i].Emit?
  {
    if c.closeState == ServerClose then Outcome(c, [], None)
    else
      var c1 := if c.closeState == Open then c.(closeState := ServerClose) else c;
      var before := if c1.closeState == ServerClose && code == Some(ProtocolError) then [CloseStream] else [];
      var sent := Send(c1, keys, Close, CloseData(code, reason));
      var after := if c1.closeState == ClientClose then [CloseStream] else [];
      Outcome(sent.conn, before + sent.actions + after, None)
  }

  /** The local `fail`: `close(.protocolError)`, then the error is thrown. */
  function Fail(c: Conn, keys: KeySource, e: WsError): (r: Outcome)
    ensures r.error == Some(e)
    ensures r.conn.continuation == c.continuation && r.conn.mode == c.mode && r.conn.rev == c.rev
    ensures r.conn.closeState == (if c.closeState == Open then ServerClose else c.closeState)
    ensures forall i :: 0 <= i < |r.actions| ==> !r.actions[i].Emit?
  {
    var o := CloseWith(c, keys, Some(ProtocolError), None);
    Outcome(o.conn, o.actions, Some(e))
  }

  /** The guards of `validateFrame`, in the source's order: the first that fails names the
      error. */
  function FrameError(c: Conn, f: Frame): Option<WsError>
    requires HasBaseHeader(f)
  {
    if Rsv1(f) || Rsv2(f) || Rsv3(f) then Some(DataFrameWithInvalidBits)
    else if Op(f) == Invalid then Some(InvalidOpCode)
    else if Masked(f) && c.mode != Server then Some(MaskedFrameFromServer)
    else if !Masked(f) && c.mode != Client then Some(UnaskedFrameFromClient)
    else if IsControl(Op(f)) then
      if !Fin(f) then Some(ControlFrameNotFinal)
      else if PayloadLength(f) >= 126 then Some(ControlFrameInvalidLength)
      else if Op(f) == Close && PayloadLength(f) == 1 then Some(ControlFrameInvalidLength)
      else None
    else if Op(f) == Continuation && |c.continuation| == 0 then Some(ContinuationOutOfOrder)
    else if Op(f) != Continuation && |c.continuation| > 0 then Some(ContinuationOutOfOrder)
    else None
  }

  /** What a frame must satisfy to pass validation, stated as the protocol's requirements:
      no reserved bit, a known opcode, masked exactly when the peer is a client (section 5.1 of
      RFC 6455), control frames final with a payload of at most 125 bytes and never a one-byte
      Close payload (section 5.5), and a continuation frame exactly when a fragmented message
      is in progress (section 5.4). */
  predicate Acceptable(c: Conn, f: Frame)
    requires HasBaseHeader(f)
  {
    && !Rsv1(f) && !Rsv2(f) && !Rsv3(f)
    && Op(f) != Invalid
    && Masked(f) == (c.mode == Server)
    && (IsControl(Op(f)) ==> Fin(f) && PayloadLength(f) <= 125 && !(Op(f) == Close && PayloadLength(f) == 1))
    && (!IsControl(Op(f)) ==> (Op(f) == Continuation <==> |c.continuation| > 0))
  }

  /** `validateFrame`: the first failing guard fails the connection. */
  function ValidateFrame(c: Conn, keys: KeySource, f: Frame): (r: Outcome)
    requires HasBaseHeader(f)
  {
    match FrameError(c, f)
    case Some(e) => Fail(c, keys, e)
    case None => Outcome(c, [], None)
  }

  /** A complete frame holding exactly its announced bytes carries fewer than 2^64 payload
      bytes. */
  lemma ExactPayload(f: Frame)
    requires Exact(f)
    ensures |Payload(f)| == ExtendedPayloadLength(f) < MaxPayload
  {
    assert Pow256(8) == MaxPayload;
  }

  /** The inbound Close branch of `processFrame`. */
  function ReceiveClose(c: Conn, keys: KeySource, f: Frame): (r: Outcome)
    requires Exact(f)
    ensures r.conn.continuation == c.continuation && r.conn.mode == c.mode && r.conn.rev == c.rev
  {
    if c.closeState == Open then
      var data := Payload(f);
      ExactPayload(f);
      if |data| >= 2 then
        var code := ToInt(data[..2], 2, 0);
        ToNatBound(data[..2]);
        assert Pow256(2) == 0x1_0000;
        var rest := data[2..];
        if |rest| > 0 && !ValidUtf8(rest) then Fail(c, keys, InvalidUTF8Payload)
        else
          var reason := if |rest| > 0 then Some(rest) else None;
          var c1 := c.(closeState := ClientClose);
          if IsValid(code) then
            var o := CloseWith(c1, keys, Some(code), reason);
            Outcome(o.conn, o.actions + [Emit(CloseEvent(Some(code), reason))], None)
          else Fail(c1, keys, InvalidCloseCode)
      else
        var c1 := c.(closeState := ClientClose);
        var o := CloseWith(c1, keys, if c.rev == Split then Some(Normal) else None, None);
        Outcome(o.conn, o.actions + [Emit(CloseEvent(None, None))], None)
    else if c.closeState == ServerClose then Outcome(c, [CloseStream], None)
    else Outcome(c, [], None)
  }

  /** The `switch opCode` of `processFrame`, on the opcode of the message the final frame
      `f` ends. */
  function Dispatch(c: Conn, keys: KeySource, f: Frame, op: OpCode): (r: Outcome)
    requires Valid(c) && Exact(f)
    ensures r.conn.continuation == c.continuation && r.conn.mode == c.mode && r.conn.rev == c.rev
  {
    match op
    case Binary => Outcome(c, [Emit(BinaryEvent(Payloads(c.continuation)))], None)
    case Text =>
      var text := Payloads(c.continuation);
      if ValidUtf8(text) then Outcome(c, [Emit(TextEvent(text))], None)
      else Fail(c, keys, InvalidUTF8Payload)
    case Ping => Outcome(c, [Emit(PingEvent(Payload(f)))], None)
    case Pong => Outcome(c, [Emit(PongEvent(Payload(f)))], None)
    case Close => ReceiveClose(c, keys, f)
    case _ => Outcome(c, [], None)
  }

  /** `processFrame` after the frame has been buffered: a non-final frame stops here; a final
      one is dispatched on its message's opcode (the first buffered frame's, for a
      continuation), and the buffer is emptied after a data message that raised nothing. */
  function Deliver(c: Conn, keys: KeySource, f: Frame): (r: Outcome)
    requires Valid(c) && Exact(f)
    requires Op(f) == Continuation ==> |c.continuation| > 0
    ensures r.conn.mode == c.mode && r.conn.rev == c.rev
    ensures Valid(r.conn)
  {
    if !Fin(f) then Outcome(c, [], None)
    else
      var op := if Op(f) == Continuation then Op(c.continuation[0]) else Op(f);
      var o := Dispatch(c, keys, f, op);
      if o.error.Some? || IsControl(Op(f)) then o
      else Outcome(o.conn.(continuation := []), o.actions, None)
  }

  /** `processFrame` of the WebSocket.swift revisions: data frames are buffered, then
      delivered. */
  function ProcessFrame(c: Conn, keys: KeySource, f: Frame): (r: Outcome)
    requires Valid(c) && Exact(f)
    ensures r.conn.mode == c.mode && r.conn.rev == c.rev
    ensures Valid(r.conn)
  {
    var buffer := if IsControl(Op(f)) then c.continuation else c.continuation + [f];
    BufferComplete(c.continuation, f);
    Deliver(c.(continuation := buffer), keys, f)
  }

  lemma BufferComplete(frames: seq<Frame>, f: Frame)
    requires AllComplete(frames) && IsComplete(f)
    ensures AllComplete(frames + [f])
  {
    AllCompleteAppend(frames, [f]);
  }

  /** What `readBytes` does with each completed frame in the WebSocket.swift revisions:
      `validateFrame`, then `processFrame`. */
  function HandleFrame(c: Conn, keys: KeySource, f: Frame): (r: Outcome)
    requires Valid(c) && Exact(f)
    ensures r.conn.mode == c.mode && r.conn.rev == c.rev
    ensures Valid(r.conn)
  {
    var v := ValidateFrame(c, keys, f);
    if v.error.Some? then v else ProcessFrame(c, keys, f)
  }

  /** Socket.swift's `processFrame`: the same guards, with the data frame appended to the
      buffer right after the continuation checks pass. */
  function FusedProcessFrame(c: Conn, keys: KeySource, f: Frame): (r: Outcome)
    requires Valid(c) && Exact(f)
  {
    if Rsv1(f) || Rsv2(f) || Rsv3(f) then Fail(c, keys, DataFrameWithInvalidBits)
    else if Op(f) == Invalid then Fail(c, keys, InvalidOpCode)
    else if Masked(f) && c.mode != Server then Fail(c, keys, MaskedFrameFromServer)
    else if !Masked(f) && c.mode != Client then Fail(c, keys, UnaskedFrameFromClient)
    else if IsControl(Op(f)) then
      if !Fin(f) then Fail(c, keys, ControlFrameNotFinal)
      else if PayloadLength(f) >= 126 then Fail(c, keys, ControlFrameInvalidLength)
      else if Op(f) == Close && PayloadLength(f) == 1 then Fail(c, keys, ControlFrameInvalidLength)
      else Deliver(c, keys, f)
    else if Op(f) == Continuation && |c.continuation| == 0 then Fail(c, keys, ContinuationOutOfOrder)
    else if Op(f) != Continuation && |c.continuation| > 0 then Fail(c, keys, ContinuationOutOfOrder)
    else
      BufferComplete(c.continuation, f);
      Deliver(c.(continuation := c.continuation + [f]), keys, f)
  }
}
