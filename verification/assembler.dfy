/** The byte-feeding loop of `readBytes` (Sources/WebSocket/WebSocket.swift): every input
    byte goes to the single in-progress frame through `Frame.add`, each completed frame is
    handed on, and the surplus starts a fresh frame. Frame handling itself lives in the
    connection; this module is the framing layer on its own. */
module Assembler {
  import opened Bytes
  import opened Frames

  const EmptyFrame: Frame := Frame([])

  /** The bytes of a list of frames, in order. */
  function Flatten(frames: seq<Frame>): seq<byte>
  {
    if |frames| == 0 then [] else frames[0].data + Flatten(frames[1..])
  }

  /** Feeds `input` into the in-progress frame `current`; yields the frames completed on the
      way, in arrival order, and the new in-progress frame. */
  function Feed(current: Frame, input: seq<byte>): (r: (seq<Frame>, Frame))
    ensures Flatten(r.0) + r.1.data == current.data + input
    ensures |input| > 0 ==> !IsComplete(r.1)
    decreases |current.data| + |input|
  {
    if |input| == 0 then ([], current)
    else
      var (g, rest) := Add(current, input);
      if IsComplete(g) then
        CompleteIsNonEmpty(g);
        var (more, last) := Feed(EmptyFrame, rest);
        FlattenCons(g, more, last.data);
        ([g] + more, last)
      else ([], g)
  }

  /** A complete frame holding exactly its announced bytes, as `add` leaves it. */
  predicate Exact(f: Frame)
  {
    IsComplete(f) && |f.data| == TotalFrameSize(f)
  }

  predicate AllExact(frames: seq<Frame>)
  {
    forall i :: 0 <= i < |frames| ==> Exact(frames[i])
  }

  /** Every frame `Feed` hands on is complete and holds exactly its total size: nothing of the
      next frame leaks into it. */
  lemma {:induction false} FeedExact(current: Frame, input: seq<byte>)
    ensures AllExact(Feed(current, input).0)
    decreases |current.data| + |input|
  {
    if |input| > 0 {
      var d := current.data + input;
      if IsComplete(Frame(d)) {
        var t := TotalFrameSize(Frame(d));
        CutFirst(current, input);
        CompleteTrim(d);
        FeedExact(EmptyFrame, d[t..]);
        ExactCons(Frame(d[..t]), Feed(EmptyFrame, d[t..]).0);
      } else {
        FeedIncomplete(current, input);
      }
    }
  }

  lemma ExactCons(f: Frame, more: seq<Frame>)
    requires Exact(f) && AllExact(more)
    ensures AllExact([f] + more)
  {
    forall i | 0 <= i < |[f] + more|
      ensures Exact(([f] + more)[i])
    {
      if i > 0 {
        assert ([f] + more)[i] == more[i - 1];
      }
    }
  }

  lemma CompleteIsNonEmpty(g: Frame)
    requires IsComplete(g)
    ensures |g.data| >= 2
  {
  }

  /** `add` looks only at the concatenation of the buffered and the new bytes. */
  lemma AddSameBytes(f: Frame, x: seq<byte>, g: Frame, y: seq<byte>)
    requires f.data + x == g.data + y
    ensures Add(f, x) == Add(g, y)
  {
  }

  lemma FlattenCons(g: Frame, more: seq<Frame>, tail: seq<byte>)
    ensures Flatten([g] + more) + tail == g.data + (Flatten(more) + tail)
  {
    assert ([g] + more)[1..] == more;
  }

  /** Feeds a list of chunks one after another, as the read loop does with each read. */
  function FeedChunks(current: Frame, chunks: seq<seq<byte>>): (r: (seq<Frame>, Frame))
    decreases |chunks|
  {
    if |chunks| == 0 then ([], current)
    else
      var (fs, mid) := Feed(current, chunks[0]);
      var (gs, last) := FeedChunks(mid, chunks[1..]);
      (fs + gs, last)
  }

  function Concat(chunks: seq<seq<byte>>): seq<byte>
  {
    if |chunks| == 0 then [] else chunks[0] + Concat(chunks[1..])
  }

  lemma {:induction false} FlattenAppend(a: seq<Frame>, b: seq<Frame>)
    ensures Flatten(a + b) == Flatten(a) + Flatten(b)
  {
    if |a| > 0 {
      assert (a + b)[1..] == a[1..] + b;
      FlattenAppend(a[1..], b);
    } else {
      assert a + b == b;
    }
  }

  /** One step of `Feed` when the buffered and new bytes complete a frame: that frame, cut at
      its total size, comes first, and the surplus is fed into a fresh frame. */
  lemma FeedComplete(current: Frame, x: seq<byte>)
    requires |x| > 0 && IsComplete(Frame(current.data + x))
    ensures var d := current.data + x;
            var t := TotalFrameSize(Frame(d));
            t <= |d| &&
            var (more, last) := Feed(EmptyFrame, d[t..]);
            Feed(current, x) == ([Frame(d[..t])] + more, last)
  {
  }

  /** One step of `Feed` when the bytes do not complete a frame: they are all buffered. */
  lemma FeedIncomplete(current: Frame, x: seq<byte>)
    requires |x| > 0 && !IsComplete(Frame(current.data + x))
    ensures Feed(current, x) == ([], Frame(current.data + x))
  {
  }

  /** Feeding two pieces one after the other yields the same frames, in the same order, and
      the same in-progress frame as feeding their concatenation at once. */
  lemma {:induction false} FeedSplit(current: Frame, a: seq<byte>, b: seq<byte>)
    ensures var (fs, mid) := Feed(current, a);
            var (gs, last) := Feed(mid, b);
            Feed(current, a + b) == (fs + gs, last)
    decreases |current.data| + |a|, 1
  {
    if |a| == 0 {
      assert a + b == b;
      var (gs, last) := Feed(current, b);
      assert [] + gs == gs;
    } else if IsComplete(Frame(current.data + a)) {
      FeedSplitComplete(current, a, b);
    } else {
      FeedSplitIncomplete(current, a, b);
    }
  }

  /** `FeedSplit` when the first piece completes a frame: the frame is cut before either
      feeding sees `b`, and the surplus is fed on by induction. */
  lemma {:induction false} FeedSplitComplete(current: Frame, a: seq<byte>, b: seq<byte>)
    requires |a| > 0 && IsComplete(Frame(current.data + a))
    ensures var (fs, mid) := Feed(current, a);
            var (gs, last) := Feed(mid, b);
            Feed(current, a + b) == (fs + gs, last)
    decreases |current.data| + |a|, 0
  {
    var d := current.data + a;
    var t := TotalFrameSize(Frame(d));
    CutFirst(current, a);
    CutFirstOfLonger(current, a, b);
    var first, rest := Frame(d[..t]), d[t..];
    FeedSplit(EmptyFrame, rest, b);
    var (more, last) := Feed(EmptyFrame, rest);
    var (gs, end) := Feed(last, b);
    ConsAssoc(first, more, gs);
  }

  lemma ConsAssoc(x: Frame, p: seq<Frame>, q: seq<Frame>)
    ensures [x] + (p + q) == ([x] + p) + q
  {
  }

  /** Feeding bytes that complete a frame cuts it at its total size, at least two bytes in. */
  lemma CutFirst(current: Frame, a: seq<byte>)
    requires |a| > 0 && IsComplete(Frame(current.data + a))
    ensures var d := current.data + a;
            var t := TotalFrameSize(Frame(d));
            && 2 <= t <= |d|
            && Feed(current, a) == ([Frame(d[..t])] + Feed(EmptyFrame, d[t..]).0, Feed(EmptyFrame, d[t..]).1)
  {
    CompleteIsNonEmpty(Frame(current.data + a));
    FeedComplete(current, a);
  }

  /** Bytes appended after a completing piece do not move the cut; they join the surplus. */
  lemma CutFirstOfLonger(current: Frame, a: seq<byte>, b: seq<byte>)
    requires |a| > 0 && IsComplete(Frame(current.data + a))
    ensures var d := current.data + a;
            var t := TotalFrameSize(Frame(d));
            && t <= |d|
            && Feed(current, a + b) == ([Frame(d[..t])] + Feed(EmptyFrame, d[t..] + b).0, Feed(EmptyFrame, d[t..] + b).1)
  {
    var d := current.data + a;
    var t := TotalFrameSize(Frame(d));
    CompleteExtend(d, b);
    assert current.data + (a + b) == d + b;
    FeedComplete(current, a + b);
    CompleteTrim(d);
    assert (d + b)[..t] == d[..t];
    assert (d + b)[t..] == d[t..] + b;
  }

  /** `FeedSplit` when the first piece leaves the frame incomplete: everything is buffered, so
      feeding `b` next sees the same bytes as feeding `a + b` at once. */
  lemma FeedSplitIncomplete(current: Frame, a: seq<byte>, b: seq<byte>)
    requires |a| > 0 && !IsComplete(Frame(current.data + a))
    ensures var (fs, mid) := Feed(current, a);
            var (gs, last) := Feed(mid, b);
            Feed(current, a + b) == (fs + gs, last)
  {
    var d := current.data + a;
    assert current.data + (a + b) == d + b;
    FeedIncomplete(current, a);
    if |b| > 0 {
      if IsComplete(Frame(d + b)) {
        FeedComplete(current, a + b);
        FeedComplete(Frame(d), b);
      } else {
        FeedIncomplete(current, a + b);
        FeedIncomplete(Frame(d), b);
      }
      var (gs, last) := Feed(Frame(d), b);
      assert [] + gs == gs;
    } else {
      assert a + b == a;
      var empty: seq<Frame> := [];
      assert empty + empty == empty;
    }
  }

  /** Chunk boundaries do not matter: feeding the chunks one by one yields exactly the frames
      of feeding all their bytes at once. */
  lemma {:induction false} FeedChunksConcat(current: Frame, chunks: seq<seq<byte>>)
    ensures FeedChunks(current, chunks) == Feed(current, Concat(chunks))
    decreases |chunks|
  {
    if |chunks| > 0 {
      var (fs, mid) := Feed(current, chunks[0]);
      FeedChunksConcat(mid, chunks[1..]);
      FeedSplit(current, chunks[0], Concat(chunks[1..]));
    }
  }

  /** A stream of exactly-sized complete frames is split back into those frames. */
  lemma {:induction false} FeedFrames(frames: seq<Frame>)
    requires AllExact(frames)
    ensures Feed(EmptyFrame, Flatten(frames)) == (frames, EmptyFrame)
    decreases |frames|
  {
    if |frames| > 0 {
      var f := frames[0];
      var rest := Flatten(frames[1..]);
      var d := f.data + rest;
      CompleteExtend(f.data, rest);
      assert d[..|f.data|] == f.data;
      assert d[|f.data|..] == rest;
      assert EmptyFrame.data + d == d;
      FeedFrames(frames[1..]);
      assert frames == [f] + frames[1..];
    }
  }

  /** Encoded frames sent back to back come out of the assembler one by one, decoded. */
  lemma EncodedStream(op: OpCode, payload: seq<byte>, key: seq<byte>, op2: OpCode, payload2: seq<byte>, key2: seq<byte>)
    requires op != Invalid && op2 != Invalid
    requires |payload| < MaxPayload && |payload2| < MaxPayload
    ensures var e1, e2 := Encode(op, payload, key), Encode(op2, payload2, key2);
            Feed(EmptyFrame, e1 + e2) == ([Frame(e1), Frame(e2)], EmptyFrame)
  {
    var e1, e2 := Encode(op, payload, key), Encode(op2, payload2, key2);
    EncodeDecode(op, payload, key);
    EncodeDecode(op2, payload2, key2);
    var frames := [Frame(e1), Frame(e2)];
    assert Flatten(frames) == e1 + e2 by {
      assert frames[1..] == [Frame(e2)];
      assert Flatten([Frame(e2)]) == e2 + Flatten([]);
    }
    FeedFrames(frames);
  }
}
