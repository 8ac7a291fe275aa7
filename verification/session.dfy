/** The read side of a connection: `readBytes` and `processData` feed every received byte to
    the single in-progress frame, handle each completed frame in arrival order, and stop at the
    first error, which propagates out of the read loop (`start` in
    Sources/WebSocket/WebSocket.swift, `loop` in Sources/Socket.swift); when the loop ends with
    the connection still Open, an abnormal close is reported. */
module Session {
  import opened Bytes
  import opened Frames
  import opened Assembler
  import opened CloseCodes
  import opened Optional
  import opened Connection
  import opened Protocol

  datatype Failure = Failure(frame: Frame, error: WsError)

  /** The outcome of handling a run of frames: the state, the actions, and the frame that
      raised an error together with the error, if one did. */
  datatype Run = Run(conn: Conn, actions: seq<Action>, failure: Option<Failure>)

  /** Handles completed frames in order; the first error ends the run. */
  function HandleFrames(c: Conn, keys: KeySource, frames: seq<Frame>): (r: Run)
    requires Valid(c) && AllExact(frames)
    ensures Valid(r.conn) && r.conn.mode == c.mode && r.conn.rev == c.rev
    decreases |frames|
  {
    if |frames| == 0 then Run(c, [], None)
    else
      var o := HandleFrame(c, keys, frames[0]);
      if o.error.Some? then Run(o.conn, o.actions, Some(Failure(frames[0], o.error.value)))
      else
        var r := HandleFrames(o.conn, keys, frames[1..]);
        Run(r.conn, o.actions + r.actions, r.failure)
  }

  /** The connection together with `incompleteFrame`, the frame being assembled, and whether
      the stream has been closed (the `stream.closed` the read loop tests). */
  datatype Reader = Reader(conn: Conn, incomplete: Frame, closed: bool)

  datatype ReadResult = ReadResult(reader: Reader, actions: seq<Action>, error: Option<WsError>)

  /** `readBytes` (and `processData`, whose loop calls it once, since it consumes all its
      input): the frames completed by `input` are handled in order. When one raises an error,
      it stays the in-progress frame and the bytes after it are dropped. The loop inside does
      not look at the stream, so frames after one that closes it are still handled; the stream
      is closed afterwards when it was before or when any of them closed it. */
  function ReadBytes(s: Reader, keys: KeySource, input: seq<byte>): (r: ReadResult)
    requires Valid(s.conn)
    ensures Valid(r.reader.conn) && r.reader.conn.mode == s.conn.mode && r.reader.conn.rev == s.conn.rev
    ensures r.reader.closed <==> s.closed || CloseStream in r.actions
  {
    var (frames, last) := Feed(s.incomplete, input);
    FeedExact(s.incomplete, input);
    var r := HandleFrames(s.conn, keys, frames);
    var closed := s.closed || CloseStream in r.actions;
    match r.failure
    case None => ReadResult(Reader(r.conn, last, closed), r.actions, None)
    case Some(fl) => ReadResult(Reader(r.conn, fl.frame, closed), r.actions, Some(fl.error))
  }

  /** Continues a read with more input, unless it already failed. */
  function ThenRead(r1: ReadResult, keys: KeySource, input: seq<byte>): (r: ReadResult)
    requires Valid(r1.reader.conn)
  {
    if r1.error.Some? then r1
    else
      var r2 := ReadBytes(r1.reader, keys, input);
      ReadResult(r2.reader, r1.actions + r2.actions, r2.error)
  }

  /** The read loop over the successive chunks the transport delivers: it reads while the
      stream is open, so a chunk whose handling closes the stream is the last one read; an
      error ends it too. */
  function ReadChunks(s: Reader, keys: KeySource, chunks: seq<seq<byte>>): (r: ReadResult)
    requires Valid(s.conn)
    ensures Valid(r.reader.conn) && r.reader.conn.mode == s.conn.mode
    decreases |chunks|
  {
    if |chunks| == 0 || s.closed then ReadResult(s, [], None)
    else
      var r1 := ReadBytes(s, keys, chunks[0]);
      if r1.error.Some? then r1
      else
        var r2 := ReadChunks(r1.reader, keys, chunks[1..]);
        ReadResult(r2.reader, r1.actions + r2.actions, r2.error)
  }

  /** The tail of the read loop: a connection that is still Open reports (abnormal, nil). */
  function EndOfStream(c: Conn): seq<Action>
  {
    if c.closeState == Open then [Emit(CloseEvent(Some(Abnormal), None))] else []
  }

  /** `start` / `loop`: read every chunk, then apply the end-of-stream rule, unless an error
      propagated out of the loop first. */
  function Serve(s: Reader, keys: KeySource, chunks: seq<seq<byte>>): (r: ReadResult)
    requires Valid(s.conn)
  {
    var r := ReadChunks(s, keys, chunks);
    if r.error.Some? then r
    else ReadResult(r.reader, r.actions + EndOfStream(r.reader.conn), None)
  }

  /** Handling two runs of frames one after the other is handling their concatenation. */
  lemma {:induction false} HandleFramesAppend(c: Conn, keys: KeySource, fs: seq<Frame>, gs: seq<Frame>)
    requires Valid(c) && AllExact(fs) && AllExact(gs)
    ensures AllExact(fs + gs)
    ensures var r1 := HandleFrames(c, keys, fs);
            var r := HandleFrames(c, keys, fs + gs);
            && (r1.failure.Some? ==> r == r1)
            && (r1.failure.None? ==>
                  var r2 := HandleFrames(r1.conn, keys, gs);
                  r == Run(r2.conn, r1.actions + r2.actions, r2.failure))
    decreases |fs|
  {
    AllExactAppend(fs, gs);
    if |fs| == 0 {
      assert fs + gs == gs;
    } else {
      var o := HandleFrame(c, keys, fs[0]);
      assert (fs + gs)[0] == fs[0];
      assert (fs + gs)[1..] == fs[1..] + gs;
      AllExactTail(fs);
      if o.error.None? {
        HandleFramesAppend(o.conn, keys, fs[1..], gs);
        var r1 := HandleFrames(o.conn, keys, fs[1..]);
        if r1.failure.None? {
          var r2 := HandleFrames(r1.conn, keys, gs);
          ActionsAssoc(o.actions, r1.actions, r2.actions);
        }
      }
    }
  }

  lemma AllExactAppend(fs: seq<Frame>, gs: seq<Frame>)
    requires AllExact(fs) && AllExact(gs)
    ensures AllExact(fs + gs)
  {
    forall i | 0 <= i < |fs + gs|
      ensures Exact((fs + gs)[i])
    {
      if i >= |fs| {
        assert (fs + gs)[i] == gs[i - |fs|];
      }
    }
  }

  lemma AllExactTail(fs: seq<Frame>)
    requires AllExact(fs) && |fs| > 0
    ensures AllExact(fs[1..])
  {
    forall i | 0 <= i < |fs| - 1
      ensures Exact(fs[1..][i])
    {
      assert fs[1..][i] == fs[i + 1];
    }
  }

  lemma ActionsAssoc(x: seq<Action>, y: seq<Action>, z: seq<Action>)
    ensures x + (y + z) == (x + y) + z
  {
  }

  /** Reading `a` and then `b` is reading `a + b`: frames may straddle the boundary. */
  lemma ReadBytesSplit(s: Reader, keys: KeySource, a: seq<byte>, b: seq<byte>)
    requires Valid(s.conn)
    ensures ReadBytes(s, keys, a + b) == ThenRead(ReadBytes(s, keys, a), keys, b)
  {
    var (fs, mid) := Feed(s.incomplete, a);
    var (gs, last) := Feed(mid, b);
    FeedSplit(s.incomplete, a, b);
    FeedExact(s.incomplete, a);
    FeedExact(mid, b);
    HandleFramesAppend(s.conn, keys, fs, gs);
  }

  /** Reading nothing changes nothing. */
  lemma ReadNothing(s: Reader, keys: KeySource)
    requires Valid(s.conn)
    ensures ReadBytes(s, keys, []) == ReadResult(s, [], None)
  {
  }

  /** Chunk boundaries do not matter up to the chunk that closes the stream: when reading the
      first `i` chunks at once leaves the stream open for every `i < n`, and reading the first
      `n` closes it (or there are no more), the read loop performs the same actions, ends in
      the same state and raises the same error as one read of those `n` chunks; the chunks
      after them are never read. */
  lemma {:induction false} ReadChunksConcat(s: Reader, keys: KeySource, chunks: seq<seq<byte>>, n: nat)
    requires Valid(s.conn) && n <= |chunks|
    requires forall i :: 0 <= i < n ==> !ReadBytes(s, keys, Concat(chunks[..i])).reader.closed
    requires n == |chunks| || ReadBytes(s, keys, Concat(chunks[..n])).reader.closed
    ensures ReadChunks(s, keys, chunks) == ReadBytes(s, keys, Concat(chunks[..n]))
    decreases |chunks|
  {
    if n == 0 {
      ReadNothing(s, keys);
      assert chunks[..0] == [];
    } else {
      EmptyPrefix(s, keys, chunks);
      var r1 := ReadBytes(s, keys, chunks[0]);
      var rest := chunks[1..];
      ReadFirstThen(s, keys, chunks, n - 1);
      if r1.error.None? {
        forall i | 0 <= i < n - 1
          ensures !ReadBytes(r1.reader, keys, Concat(rest[..i])).reader.closed
        {
          ReadFirstThen(s, keys, chunks, i);
        }
        ReadChunksConcat(r1.reader, keys, rest, n - 1);
      }
    }
  }

  /** Splitting the chunks in two: the loop reads the second part only when the first leaves
      the stream open and raised no error, so once a chunk closes the stream the chunks after
      it change nothing. */
  lemma {:induction false} ReadChunksAppend(s: Reader, keys: KeySource, a: seq<seq<byte>>, b: seq<seq<byte>>)
    requires Valid(s.conn)
    ensures var ra := ReadChunks(s, keys, a);
            ReadChunks(s, keys, a + b)
            == if ra.error.Some? || ra.reader.closed then ra
               else var rb := ReadChunks(ra.reader, keys, b);
                    ReadResult(rb.reader, ra.actions + rb.actions, rb.error)
    decreases |a|
  {
    if |a| == 0 {
      assert a + b == b;
    } else if !s.closed {
      assert (a + b)[0] == a[0];
      assert (a + b)[1..] == a[1..] + b;
      var r1 := ReadBytes(s, keys, a[0]);
      if r1.error.None? {
        ReadChunksAppend(r1.reader, keys, a[1..], b);
        var ra := ReadChunks(r1.reader, keys, a[1..]);
        if ra.error.None? && !ra.reader.closed {
          var rb := ReadChunks(ra.reader, keys, b);
          ActionsAssoc(r1.actions, ra.actions, rb.actions);
        }
      }
    }
  }

  /** A chunk whose handling closes the stream is the last one the loop reads: whatever the
      transport delivers after it raises no event and sends nothing. */
  lemma ClosingChunkIsLast(s: Reader, keys: KeySource, first: seq<byte>, rest: seq<seq<byte>>)
    requires Valid(s.conn) && !s.closed && CloseStream in ReadBytes(s, keys, first).actions
    ensures ReadChunks(s, keys, [first] + rest) == ReadBytes(s, keys, first)
  {
    ReadChunksAppend(s, keys, [first], rest);
    assert [first][1..] == [];
  }

  lemma EmptyPrefix(s: Reader, keys: KeySource, chunks: seq<seq<byte>>)
    requires Valid(s.conn)
    ensures ReadBytes(s, keys, Concat(chunks[..0])) == ReadResult(s, [], None)
  {
    assert chunks[..0] == [];
    ReadNothing(s, keys);
  }

  /** Reading the first `i + 1` chunks at once is reading the first chunk and then the next `i`. */
  lemma ReadFirstThen(s: Reader, keys: KeySource, chunks: seq<seq<byte>>, i: nat)
    requires Valid(s.conn) && i < |chunks|
    ensures ReadBytes(s, keys, Concat(chunks[..i + 1]))
            == ThenRead(ReadBytes(s, keys, chunks[0]), keys, Concat(chunks[1..][..i]))
  {
    ConcatPrefix(chunks, i);
    ReadBytesSplit(s, keys, chunks[0], Concat(chunks[1..][..i]));
  }

  lemma ConcatPrefix(chunks: seq<seq<byte>>, i: nat)
    requires i < |chunks|
    ensures Concat(chunks[..i + 1]) == chunks[0] + Concat(chunks[1..][..i])
  {
    assert chunks[..i + 1][1..] == chunks[1..][..i];
  }

  /** The close events among the actions. */
  function CloseEvents(actions: seq<Action>): nat
  {
    if |actions| == 0 then 0
    else (if actions[0].Emit? && actions[0].event.CloseEvent? then 1 else 0) + CloseEvents(actions[1..])
  }

  lemma {:induction false} CloseEventsAppend(a: seq<Action>, b: seq<Action>)
    ensures CloseEvents(a + b) == CloseEvents(a) + CloseEvents(b)
  {
    if |a| > 0 {
      assert (a + b)[1..] == a[1..] + b;
      CloseEventsAppend(a[1..], b);
    } else {
      assert a + b == b;
    }
  }

  lemma {:induction false} NoCloseEvents(a: seq<Action>)
    requires forall i :: 0 <= i < |a| ==> !a[i].Emit?
    ensures CloseEvents(a) == 0
  {
    if |a| > 0 {
      NoCloseEvents(a[1..]);
    }
  }

  /** A close step emits at most one close event, only from Open, and leaves Open behind when
      it does; a closing connection never reopens. */
  predicate ClosesOnce(before: CloseState, after: CloseState, actions: seq<Action>)
  {
    && CloseEvents(actions) <= (if before == Open then 1 else 0)
    && (CloseEvents(actions) > 0 ==> after != Open)
    && (before != Open ==> after != Open)
  }

  lemma ClosesOnceThen(s0: CloseState, s1: CloseState, s2: CloseState, a: seq<Action>, b: seq<Action>)
    requires ClosesOnce(s0, s1, a) && ClosesOnce(s1, s2, b)
    ensures ClosesOnce(s0, s2, a + b)
  {
    CloseEventsAppend(a, b);
  }

  lemma FrameClosesOnce(c: Conn, keys: KeySource, f: Frame)
    requires Valid(c) && Exact(f)
    ensures var r := HandleFrame(c, keys, f);
            ClosesOnce(c.closeState, r.conn.closeState, r.actions)
  {
    var r := HandleFrame(c, keys, f);
    if FrameError(c, f).Some? {
      NoCloseEvents(r.actions);
    } else {
      var buffer := if IsControl(Op(f)) then c.continuation else c.continuation + [f];
      BufferComplete(c.continuation, f);
      DeliverClosesOnce(c.(continuation := buffer), keys, f);
    }
  }

  lemma DeliverClosesOnce(c: Conn, keys: KeySource, f: Frame)
    requires Valid(c) && Exact(f)
    requires Op(f) == Continuation ==> |c.continuation| > 0
    ensures var r := Deliver(c, keys, f);
            ClosesOnce(c.closeState, r.conn.closeState, r.actions)
  {
    if Fin(f) {
      var op := if Op(f) == Continuation then Op(c.continuation[0]) else Op(f);
      DispatchClosesOnce(c, keys, f, op);
    } else {
      assert CloseEvents([]) == 0;
    }
  }

  lemma DispatchClosesOnce(c: Conn, keys: KeySource, f: Frame, op: OpCode)
    requires Valid(c) && Exact(f)
    ensures var r := Dispatch(c, keys, f, op);
            ClosesOnce(c.closeState, r.conn.closeState, r.actions)
  {
    var r := Dispatch(c, keys, f, op);
    if op == Close {
      ReceiveCloseOnce(c, keys, f);
    } else if r.error.Some? {
      NoCloseEvents(r.actions);
    } else {
      assert CloseEvents(r.actions) == 0 by {
        if |r.actions| > 0 {
          assert r.actions[1..] == [];
        }
      }
    }
  }

  lemma ReceiveCloseOnce(c: Conn, keys: KeySource, f: Frame)
    requires Exact(f)
    ensures var r := ReceiveClose(c, keys, f);
            ClosesOnce(c.closeState, r.conn.closeState, r.actions)
  {
    var r := ReceiveClose(c, keys, f);
    if c.closeState == Open {
      var data := Payload(f);
      ExactPayload(f);
      if |data| >= 2 {
        var code := ToInt(data[..2], 2, 0);
        var rest := data[2..];
        var reason := if |rest| > 0 then Some(rest) else None;
        ReceivedCodeBound(data);
        if r.error.Some? {
          NoCloseEvents(r.actions);
        } else {
          var w := CloseWith(c.(closeState := ClientClose), keys, Some(code), reason);
          NoCloseEvents(w.actions);
          CloseEventsAppend(w.actions, [Emit(CloseEvent(Some(code), reason))]);
        }
      } else {
        var w := CloseWith(c.(closeState := ClientClose), keys, if c.rev == Split then Some(Normal) else None, None);
        NoCloseEvents(w.actions);
        CloseEventsAppend(w.actions, [Emit(CloseEvent(None, None))]);
      }
    } else {
      assert CloseEvents([CloseStream]) == 0;
    }
  }

  lemma ReceivedCodeBound(data: seq<byte>)
    requires |data| >= 2
    ensures ToInt(data[..2], 2, 0) < 0x1_0000
  {
    ToNatBound(data[..2]);
    assert data[..2][0..2] == data[..2];
    assert Pow256(2) == 0x1_0000;
  }

  lemma {:induction false} FramesCloseOnce(c: Conn, keys: KeySource, frames: seq<Frame>)
    requires Valid(c) && AllExact(frames)
    ensures var r := HandleFrames(c, keys, frames);
            ClosesOnce(c.closeState, r.conn.closeState, r.actions)
    decreases |frames|
  {
    if |frames| > 0 {
      var o := HandleFrame(c, keys, frames[0]);
      FrameClosesOnce(c, keys, frames[0]);
      if o.error.None? {
        AllExactTail(frames);
        FramesCloseOnce(o.conn, keys, frames[1..]);
        var r := HandleFrames(o.conn, keys, frames[1..]);
        ClosesOnceThen(c.closeState, o.conn.closeState, r.conn.closeState, o.actions, r.actions);
      }
    }
  }

  lemma {:induction false} ChunksCloseOnce(s: Reader, keys: KeySource, chunks: seq<seq<byte>>)
    requires Valid(s.conn)
    ensures var r := ReadChunks(s, keys, chunks);
            ClosesOnce(s.conn.closeState, r.reader.conn.closeState, r.actions)
    decreases |chunks|
  {
    if |chunks| > 0 && !s.closed {
      var r1 := ReadBytes(s, keys, chunks[0]);
      var (frames, last) := Feed(s.incomplete, chunks[0]);
      FeedExact(s.incomplete, chunks[0]);
      FramesCloseOnce(s.conn, keys, frames);
      if r1.error.None? {
        ChunksCloseOnce(r1.reader, keys, chunks[1..]);
        var r2 := ReadChunks(r1.reader, keys, chunks[1..]);
        ClosesOnceThen(s.conn.closeState, r1.reader.conn.closeState, r2.reader.conn.closeState, r1.actions, r2.actions);
      }
    } else {
      assert CloseEvents([]) == 0;
    }
  }

  /** Over a whole read loop at most one close event is emitted, whether from the peer's Close
      or the end-of-stream rule; and a loop that ends without error while still Open ends by
      reporting (abnormal, nil). */
  lemma ServeClosesOnce(s: Reader, keys: KeySource, chunks: seq<seq<byte>>)
    requires Valid(s.conn)
    ensures CloseEvents(Serve(s, keys, chunks).actions) <= 1
    ensures var r := ReadChunks(s, keys, chunks);
            var t := Serve(s, keys, chunks);
            r.error.None? && r.reader.conn.closeState == Open ==>
              |t.actions| > 0 && t.actions[|t.actions| - 1] == Emit(CloseEvent(Some(Abnormal), None))
  {
    var r := ReadChunks(s, keys, chunks);
    ChunksCloseOnce(s, keys, chunks);
    if r.error.None? {
      var e := EndOfStream(r.reader.conn);
      CloseEventsAppend(r.actions, e);
      assert CloseEvents(e) == (if r.reader.conn.closeState == Open then 1 else 0);
    }
  }
}
