/** Outgoing frames and the close handshake (sections 5.5.1 and 7.1 of RFC 6455): what
    `send` and `close` put on the wire, and how each kind of inbound Close is answered. */
module Handshake {
  import opened Bytes
  import opened Frames
  import opened Utf8
  import opened Assembler
  import opened CloseCodes
  import opened Optional
  import opened Connection
  import opened Protocol

  /** `send` writes exactly one frame, which decodes back to a final frame of the requested
      opcode and payload, masked with the next key exactly in client mode. */
  lemma SendDecodes(c: Conn, keys: KeySource, op: OpCode, data: seq<byte>)
    requires op != Invalid && |data| < MaxPayload
    ensures var r := Send(c, keys, op, data);
            && r.error == None && r.conn == c.(sent := c.sent + 1)
            && |r.actions| == 1 && r.actions[0].Write? && |r.actions[0].payload| < MaxPayload
            && var f := Frame(WireBytes(r.actions[0]));
               && Exact(f) && Fin(f) && !Rsv1(f) && !Rsv2(f) && !Rsv3(f) && Op(f) == op
               && Masked(f) == (c.mode == Client)
               && Payload(f) == data
               && (c.mode == Client ==> MaskKey(f) == keys(c.sent))
  {
    EncodeDecode(op, data, MaskKeyFor(c, keys));
  }

  function Reason(reason: Option<seq<byte>>): seq<byte>
  {
    if reason.Some? then reason.value else []
  }

  /** The Close frame that `close(code, reason)` writes decodes to a final Close frame whose
      payload starts with the code in two big-endian bytes, when there is one, and continues
      with the reason. */
  lemma CloseFrameDecodes(code: Option<nat>, reason: Option<seq<byte>>, key: seq<byte>)
    requires CloseArgs(code, reason)
    ensures var f := Frame(Encode(Close, CloseData(code, reason), key));
            var p := Payload(f);
            && Exact(f) && Fin(f) && Op(f) == Close && Masked(f) == (|key| == 4)
            && (code.Some? ==> |p| >= 2 && ToNat(p[..2]) == code.value && p[2..] == Reason(reason))
            && (code.None? ==> p == Reason(reason))
  {
    var data := CloseData(code, reason);
    EncodeDecode(Close, data, key);
    if code.Some? {
      assert Pow256(2) == 0x1_0000;
      var b := NumberBytes(code.value, 2);
      assert data[..2] == b;
      assert data[2..] == Reason(reason);
    }
  }

  /** When `close` closes the transport: before writing the frame exactly when an Open
      connection is failed with 1002, after it exactly when answering the client's Close, and
      not at all once the server has begun closing, when nothing is written either. */
  lemma CloseOrdering(c: Conn, keys: KeySource, code: Option<nat>, reason: Option<seq<byte>>)
    requires CloseArgs(code, reason)
    ensures var r := CloseWith(c, keys, code, reason);
            var w := Write(Close, CloseData(code, reason), MaskKeyFor(c, keys));
            && (c.closeState == ServerClose ==> r.actions == [] && r.conn == c)
            && (c.closeState == Open && code == Some(ProtocolError) ==> r.actions == [CloseStream, w])
            && (c.closeState == Open && code != Some(ProtocolError) ==> r.actions == [w])
            && (c.closeState == ClientClose ==> r.actions == [w, CloseStream])
  {
  }

  /** An accepted Close carries either no payload or at least the two code bytes, and at most
      125 bytes. */
  lemma AcceptedClosePayload(c: Conn, f: Frame)
    requires Exact(f) && FrameError(c, f) == None && Op(f) == Close
    ensures |Payload(f)| == 0 || 2 <= |Payload(f)| <= 125
  {
  }

  /** The close code of a received payload: its first two bytes, big-endian. */
  lemma ReceivedCode(p: seq<byte>)
    requires |p| >= 2
    ensures ToInt(p[..2], 2, 0) == ToNat(p[..2]) < 0x1_0000
    ensures CloseData(Some(ToNat(p[..2])), if |p| > 2 then Some(p[2..]) else None) == p
  {
    var head := p[..2];
    assert head[0..2] == head;
    ToNatBound(head);
    assert Pow256(2) == 0x1_0000;
    BigEndianToNat(head);
    assert p == head + p[2..];
  }

  /** An inbound Close with a valid code and a well-formed reason, received while Open, is
      echoed byte for byte, the transport is closed after the echo, and then (code, reason) is
      emitted. */
  lemma CloseEchoed(c: Conn, keys: KeySource, f: Frame)
    requires Valid(c) && Exact(f) && FrameError(c, f) == None && Op(f) == Close
    requires c.closeState == Open
    requires |Payload(f)| >= 2 && IsValid(ToNat(Payload(f)[..2])) && ValidUtf8(Payload(f)[2..])
    ensures var r := HandleFrame(c, keys, f);
            var p := Payload(f);
            var reason := if |p| > 2 then Some(p[2..]) else None;
            && r.error == None
            && r.conn == c.(closeState := ClientClose, sent := c.sent + 1)
            && r.actions == [Write(Close, p, MaskKeyFor(c, keys)), CloseStream,
                             Emit(CloseEvent(Some(ToNat(p[..2])), reason))]
  {
    AcceptedControl(c, keys, f);
    EchoReply(c, keys, f);
  }

  lemma EchoReply(c: Conn, keys: KeySource, f: Frame)
    requires Exact(f) && c.closeState == Open
    requires |Payload(f)| >= 2 && IsValid(ToNat(Payload(f)[..2])) && ValidUtf8(Payload(f)[2..])
    ensures var p := Payload(f);
            var reason := if |p| > 2 then Some(p[2..]) else None;
            ReceiveClose(c, keys, f)
              == Outcome(c.(closeState := ClientClose, sent := c.sent + 1),
                         [Write(Close, p, MaskKeyFor(c, keys)), CloseStream,
                          Emit(CloseEvent(Some(ToNat(p[..2])), reason))], None)
  {
    var p := Payload(f);
    ReceivedCode(p);
    var code := ToNat(p[..2]);
    var reason := if |p| > 2 then Some(p[2..]) else None;
    var c1 := c.(closeState := ClientClose);
    CodedClose(c, keys, f);
    AnswerClose(c1, keys, Some(code), reason);
  }

  /** The branch of an inbound Close with a valid code and reason, received while Open. */
  lemma CodedClose(c: Conn, keys: KeySource, f: Frame)
    requires Exact(f) && c.closeState == Open
    requires |Payload(f)| >= 2 && IsValid(ToNat(Payload(f)[..2])) && ValidUtf8(Payload(f)[2..])
    ensures var p := Payload(f);
            var reason := if |p| > 2 then Some(p[2..]) else None;
            && CloseArgs(Some(ToNat(p[..2])), reason)
            && var o := CloseWith(c.(closeState := ClientClose), keys, Some(ToNat(p[..2])), reason);
               ReceiveClose(c, keys, f) == Outcome(o.conn, o.actions + [Emit(CloseEvent(Some(ToNat(p[..2])), reason))], None)
  {
    ReceivedCode(Payload(f));
    ExactPayload(f);
  }

  /** `close` while answering the client's Close: the frame is written, then the transport is
      closed. */
  lemma AnswerClose(c: Conn, keys: KeySource, code: Option<nat>, reason: Option<seq<byte>>)
    requires CloseArgs(code, reason) && c.closeState == ClientClose
    ensures CloseWith(c, keys, code, reason)
         == Outcome(c.(sent := c.sent + 1), [Write(Close, CloseData(code, reason), MaskKeyFor(c, keys)), CloseStream], None)
  {
  }

  /** An inbound Close with an invalid code, received while Open, fails the connection after
      the client's Close is noted: the 1002 Close is sent, then the transport is closed, and
      no event is emitted. */
  lemma InvalidCloseCodeFails(c: Conn, keys: KeySource, f: Frame)
    requires Valid(c) && Exact(f) && FrameError(c, f) == None && Op(f) == Close
    requires c.closeState == Open
    requires |Payload(f)| >= 2 && !IsValid(ToNat(Payload(f)[..2])) && ValidUtf8(Payload(f)[2..])
    ensures var r := HandleFrame(c, keys, f);
            && r.error == Some(InvalidCloseCode)
            && r.conn.closeState == ClientClose
            && r.actions == [Write(Close, [0x03, 0xEA], MaskKeyFor(c, keys)), CloseStream]
  {
    AcceptedControl(c, keys, f);
    ReceivedCode(Payload(f));
    CodeBytes(ProtocolError);
    assert ReceiveClose(c, keys, f) == Fail(c.(closeState := ClientClose), keys, InvalidCloseCode);
  }

  /** An inbound Close whose reason is not UTF-8, received while Open, fails the connection
      as the server: the transport is closed, then the 1002 Close is sent. */
  lemma InvalidReasonFails(c: Conn, keys: KeySource, f: Frame)
    requires Valid(c) && Exact(f) && FrameError(c, f) == None && Op(f) == Close
    requires c.closeState == Open
    requires |Payload(f)| > 2 && !ValidUtf8(Payload(f)[2..])
    ensures var r := HandleFrame(c, keys, f);
            && r.error == Some(InvalidUTF8Payload)
            && r.conn.closeState == ServerClose
            && r.actions == [CloseStream, Write(Close, [0x03, 0xEA], MaskKeyFor(c, keys))]
  {
    CodeBytes(ProtocolError);
  }

  /** An inbound Close without a code, received while Open, is answered with code 1000 by
      the WebSocket.swift revisions and with an empty Close by Socket.swift; then the transport
      is closed and (nil, nil) is emitted. */
  lemma CodelessCloseAnswered(c: Conn, keys: KeySource, f: Frame)
    requires Valid(c) && Exact(f) && FrameError(c, f) == None && Op(f) == Close
    requires c.closeState == Open && |Payload(f)| == 0
    ensures var r := HandleFrame(c, keys, f);
            var reply: seq<byte> := if c.rev == Split then [0x03, 0xE8] else [];
            && r.error == None
            && r.conn == c.(closeState := ClientClose, sent := c.sent + 1)
            && r.actions == [Write(Close, reply, MaskKeyFor(c, keys)), CloseStream,
                             Emit(CloseEvent(None, None))]
  {
    AcceptedControl(c, keys, f);
    CodelessReply(c, keys, f);
  }

  lemma CodelessReply(c: Conn, keys: KeySource, f: Frame)
    requires Exact(f) && c.closeState == Open && |Payload(f)| == 0
    ensures var reply: seq<byte> := if c.rev == Split then [0x03, 0xE8] else [];
            ReceiveClose(c, keys, f)
              == Outcome(c.(closeState := ClientClose, sent := c.sent + 1),
                         [Write(Close, reply, MaskKeyFor(c, keys)), CloseStream,
                          Emit(CloseEvent(None, None))], None)
  {
    CodeBytes(Normal);
    var c1 := c.(closeState := ClientClose);
    var code := if c.rev == Split then Some(Normal) else None;
    CodelessBranch(c, keys, f);
    AnswerClose(c1, keys, code, None);
    assert CloseData(code, None) == if c.rev == Split then [0x03, 0xE8] else [];
  }

  /** The branch of an inbound Close without a code, received while Open. */
  lemma CodelessBranch(c: Conn, keys: KeySource, f: Frame)
    requires Exact(f) && c.closeState == Open && |Payload(f)| == 0
    ensures var code := if c.rev == Split then Some(Normal) else None;
            var o := CloseWith(c.(closeState := ClientClose), keys, code, None);
            ReceiveClose(c, keys, f) == Outcome(o.conn, o.actions + [Emit(CloseEvent(None, None))], None)
  {
  }

  /** A Close that answers the server's own Close closes the transport; one that arrives
      after the client's Close was already answered does nothing. */
  lemma CloseWhileClosing(c: Conn, keys: KeySource, f: Frame)
    requires Valid(c) && Exact(f) && FrameError(c, f) == None && Op(f) == Close
    requires c.closeState != Open
    ensures HandleFrame(c, keys, f)
         == Outcome(c, if c.closeState == ServerClose then [CloseStream] else [], None)
  {
  }

  /** Socket.swift's fused `processFrame` behaves exactly as `validateFrame` followed by
      `processFrame` of the newer revisions. */
  lemma FusedAgrees(c: Conn, keys: KeySource, f: Frame)
    requires Valid(c) && Exact(f)
    ensures FusedProcessFrame(c, keys, f) == HandleFrame(c, keys, f)
  {
  }
}
