/** Properties of the connection's frame handling: what validation accepts, what a rejected
    frame does, how fragments are buffered, the close handshake, and the agreement of the
    Socket.swift revision with the newer ones. */
module Protocol {
  import opened Bytes
  import opened Frames
  import opened Utf8
  import opened Assembler
  import opened CloseCodes
  import opened Optional
  import opened Connection

  /** Validation fails exactly when a protocol requirement is broken. */
  lemma FrameErrorIffUnacceptable(c: Conn, f: Frame)
    requires HasBaseHeader(f)
    ensures FrameError(c, f) == None <==> Acceptable(c, f)
  {
  }

  function Events(actions: seq<Action>): (r: seq<Event>)
    ensures |r| <= |actions|
  {
    if |actions| == 0 then []
    else (if actions[0].Emit? then [actions[0].event] else []) + Events(actions[1..])
  }

  lemma {:induction false} NoEvents(actions: seq<Action>)
    requires forall i :: 0 <= i < |actions| ==> !actions[i].Emit?
    ensures Events(actions) == []
  {
    if |actions| > 0 {
      NoEvents(actions[1..]);
    }
  }

  /** A frame that fails validation is never processed: it is not buffered, raises no event,
      and fails the connection with the guard's error; from Open the transport is closed first
      and a Close carrying 1002 is sent, in ClientClose that Close is sent and the transport
      closed after it, and in ServerClose nothing is done. */
  lemma RejectedFrame(c: Conn, keys: KeySource, f: Frame)
    requires Valid(c) && Exact(f) && FrameError(c, f).Some?
    ensures var r := HandleFrame(c, keys, f);
            && r.error == FrameError(c, f)
            && r.conn.continuation == c.continuation
            && Events(r.actions) == []
            && (c.closeState == Open ==>
                  r.conn.closeState == ServerClose
                  && r.actions == [CloseStream, Write(Close, [0x03, 0xEA], MaskKeyFor(c, keys))])
            && (c.closeState == ServerClose ==> r.actions == [] && r.conn == c)
            && (c.closeState == ClientClose ==>
                  r.conn.closeState == ClientClose
                  && r.actions == [Write(Close, [0x03, 0xEA], MaskKeyFor(c, keys)), CloseStream])
  {
    var r := HandleFrame(c, keys, f);
    NoEvents(r.actions);
    if c.closeState != ServerClose {
      assert CloseData(Some(ProtocolError), None) == [0x03, 0xEA] by {
        CodeBytes(ProtocolError);
      }
    }
  }

  /** The two bytes a close code is sent as. */
  lemma CodeBytes(code: nat)
    requires code < 0x1_0000
    ensures CloseData(Some(code), None) == [(code / 256) as byte, (code % 256) as byte]
  {
    assert Pow256(1) == 256;
    var b := CloseData(Some(code), None);
    assert b == NumberBytes(code, 2);
  }

  /** A fragmented message in progress: complete, non-final frames, the first a Text or Binary
      frame and the others continuations (section 5.4 of RFC 6455). */
  predicate Fragments(buffer: seq<Frame>)
  {
    && AllComplete(buffer)
    && (forall i :: 0 <= i < |buffer| ==> !Fin(buffer[i]))
    && (|buffer| > 0 ==> Op(buffer[0]) == Text || Op(buffer[0]) == Binary)
    && (forall i :: 0 < i < |buffer| ==> Op(buffer[i]) == Continuation)
  }

  /** Handling a frame without error keeps the buffer a well-formed run of fragments. */
  lemma FragmentsPreserved(c: Conn, keys: KeySource, f: Frame)
    requires Valid(c) && Exact(f) && Fragments(c.continuation)
    requires HandleFrame(c, keys, f).error == None
    ensures Fragments(HandleFrame(c, keys, f).conn.continuation)
  {
    var r := HandleFrame(c, keys, f);
    assert FrameError(c, f) == None;
    if IsControl(Op(f)) {
      ControlKeepsBuffer(c, keys, f);
    } else if Fin(f) {
      DataFinalClears(c, keys, f);
    } else {
      var b := c.continuation + [f];
      assert r.conn.continuation == b;
      assert forall i :: 0 <= i < |c.continuation| ==> b[i] == c.continuation[i];
      BufferComplete(c.continuation, f);
    }
  }

  /** An accepted control frame goes straight to the opcode switch. */
  lemma AcceptedControl(c: Conn, keys: KeySource, f: Frame)
    requires Valid(c) && Exact(f) && FrameError(c, f) == None && IsControl(Op(f))
    ensures HandleFrame(c, keys, f) == Dispatch(c, keys, f, Op(f))
  {
    assert c.(continuation := c.continuation) == c;
  }

  /** An accepted control frame leaves the buffer as it was. */
  lemma ControlKeepsBuffer(c: Conn, keys: KeySource, f: Frame)
    requires Valid(c) && Exact(f) && FrameError(c, f) == None && IsControl(Op(f))
    ensures HandleFrame(c, keys, f).conn.continuation == c.continuation
  {
  }

  /** A final data frame that raises nothing empties the buffer. */
  lemma DataFinalClears(c: Conn, keys: KeySource, f: Frame)
    requires Valid(c) && Exact(f) && FrameError(c, f) == None && !IsControl(Op(f)) && Fin(f)
    requires HandleFrame(c, keys, f).error == None
    ensures HandleFrame(c, keys, f).conn.continuation == []
  {
  }

  /** A non-final data frame is appended to the buffer and raises nothing. */
  lemma DataFragmentBuffered(c: Conn, keys: KeySource, f: Frame)
    requires Valid(c) && Exact(f) && FrameError(c, f) == None && !IsControl(Op(f)) && !Fin(f)
    ensures HandleFrame(c, keys, f) == Outcome(c.(continuation := c.continuation + [f]), [], None)
  {
  }

  /** Once either side has started closing, handling a frame never changes the close state. */
  lemma CloseStateSticky(c: Conn, keys: KeySource, f: Frame)
    requires Valid(c) && Exact(f) && c.closeState != Open
    ensures HandleFrame(c, keys, f).conn.closeState == c.closeState
  {
  }

  /** Ping and Pong deliver only their own payload: no reply is sent and the buffer is left
      alone. */
  lemma PingPongDelivered(c: Conn, keys: KeySource, f: Frame)
    requires Valid(c) && Exact(f) && FrameError(c, f) == None
    requires Op(f) == Ping || Op(f) == Pong
    ensures HandleFrame(c, keys, f)
         == Outcome(c, [Emit(if Op(f) == Ping then PingEvent(Payload(f)) else PongEvent(Payload(f)))], None)
  {
  }

  /** The payload a final data frame completes: every buffered fragment's payload, then its
      own. */
  lemma MessageDelivered(c: Conn, keys: KeySource, f: Frame)
    requires Valid(c) && Exact(f) && Fragments(c.continuation)
    requires FrameError(c, f) == None && !IsControl(Op(f)) && Fin(f)
    ensures var r := HandleFrame(c, keys, f);
            var op := if |c.continuation| > 0 then Op(c.continuation[0]) else Op(f);
            var message := Payloads(c.continuation) + Payload(f);
            && (op == Binary ==> r == Outcome(c.(continuation := []), [Emit(BinaryEvent(message))], None))
            && (op == Text && ValidUtf8(message) ==>
                  r == Outcome(c.(continuation := []), [Emit(TextEvent(message))], None))
            && (op == Text && !ValidUtf8(message) ==>
                  r.error == Some(InvalidUTF8Payload) && Events(r.actions) == [])
  {
    var b := c.continuation + [f];
    BufferComplete(c.continuation, f);
    PayloadsLast(b);
    assert b[..|b| - 1] == c.continuation;
    var r := HandleFrame(c, keys, f);
    if r.error.Some? {
      NoEvents(r.actions);
    }
  }
}
