/** One RFC 6455 frame (Sources/Frame.swift): the header accessors over a byte buffer, the
    encoder of final frames (sections 5.2 and 5.3 of RFC 6455) and the incremental `add`. */
module Frames {
  import opened Bytes

  datatype OpCode = Continuation | Text | Binary | Close | Ping | Pong | Invalid

  /** The enum's raw values; `Invalid` is the out-of-nibble marker 0x10. */
  function RawValue(op: OpCode): byte
  {
    match op
    case Continuation => 0x0
    case Text => 0x1
    case Binary => 0x2
    case Close => 0x8
    case Ping => 0x9
    case Pong => 0xA
    case Invalid => 0x10
  }

  /** `OpCode(rawValue:) ?? .Invalid` on the low nibble of byte 0. */
  function OpCodeOf(nibble: byte): (op: OpCode)
    ensures op != Invalid ==> RawValue(op) == nibble
    ensures op == Invalid <==> !(nibble <= 0x2 || 0x8 <= nibble <= 0xA)
  {
    if nibble == 0x0 then Continuation
    else if nibble == 0x1 then Text
    else if nibble == 0x2 then Binary
    else if nibble == 0x8 then Close
    else if nibble == 0x9 then Ping
    else if nibble == 0xA then Pong
    else Invalid
  }

  predicate IsControl(op: OpCode)
  {
    op == Close || op == Ping || op == Pong
  }

  /** A frame is the byte buffer it was assembled from or encoded into. */
  datatype Frame = Frame(data: seq<byte>)

  const FinMask: byte := 0x80
  const Rsv1Mask: byte := 0x40
  const Rsv2Mask: byte := 0x20
  const Rsv3Mask: byte := 0x10
  const MaskMask: byte := 0x80

  /** The 2^64 bound of the `UInt64` length field. */
  const MaxPayload: nat := 0x1_0000_0000_0000_0000

  predicate HasBaseHeader(f: Frame)
  {
    |f.data| >= 2
  }

  function Fin(f: Frame): bool
    requires |f.data| >= 1
  {
    HasBit(f.data[0], FinMask)
  }

  function Rsv1(f: Frame): bool
    requires |f.data| >= 1
  {
    HasBit(f.data[0], Rsv1Mask)
  }

  function Rsv2(f: Frame): bool
    requires |f.data| >= 1
  {
    HasBit(f.data[0], Rsv2Mask)
  }

  function Rsv3(f: Frame): bool
    requires |f.data| >= 1
  {
    HasBit(f.data[0], Rsv3Mask)
  }

  /** The opcode in the low nibble of byte 0 (`& 0x0F`). */
  function Op(f: Frame): OpCode
    requires |f.data| >= 1
  {
    OpCodeOf(f.data[0] % 0x10)
  }

  function Masked(f: Frame): bool
    requires HasBaseHeader(f)
  {
    HasBit(f.data[1], MaskMask)
  }

  /** The raw 7-bit length indicator of byte 1 (`& 0x7F`); 126 and 127 announce an extended
      length. */
  function PayloadLength(f: Frame): (n: nat)
    requires HasBaseHeader(f)
    ensures n <= 127
  {
    (f.data[1] % 0x80) as nat
  }

  /** Bytes of extended length that follow the base header: 2 for 126, 8 for 127, else 0. */
  function ExtraLengthBytes(f: Frame): nat
    requires HasBaseHeader(f)
  {
    if PayloadLength(f) == 126 then 2 else if PayloadLength(f) == 127 then 8 else 0
  }

  /** The resolved payload length; `toInt` yields 0 while the extended bytes are missing. */
  function ExtendedPayloadLength(f: Frame): nat
    requires HasBaseHeader(f)
  {
    if PayloadLength(f) == 126 then ToInt(f.data, 2, 2)
    else if PayloadLength(f) == 127 then ToInt(f.data, 8, 2)
    else PayloadLength(f)
  }

  /** The offset of the payload: base header, extended length and mask key. */
  function HeaderSize(f: Frame): nat
    requires HasBaseHeader(f)
  {
    2 + ExtraLengthBytes(f) + (if Masked(f) then 4 else 0)
  }

  function TotalFrameSize(f: Frame): nat
    requires HasBaseHeader(f)
  {
    HeaderSize(f) + ExtendedPayloadLength(f)
  }

  /** `isComplete`: the header can be read and all announced bytes have arrived. */
  predicate IsComplete(f: Frame)
  {
    if |f.data| < 2 then false
    else if |f.data| < 4 && PayloadLength(f) == 126 then false
    else if |f.data| < 10 && PayloadLength(f) == 127 then false
    else |f.data| >= TotalFrameSize(f)
  }

  /** The four mask-key bytes, read after the extended length the indicator announces. */
  function MaskKey(f: Frame): (k: seq<byte>)
    requires HasBaseHeader(f) && |f.data| >= 2 + ExtraLengthBytes(f) + 4
    ensures |k| == 4
  {
    if PayloadLength(f) <= 125 then f.data[2..6]
    else if PayloadLength(f) == 126 then f.data[4..8]
    else f.data[10..14]
  }

  /** XOR of each byte with `key[i mod 4]` (section 5.3 of RFC 6455). */
  function Mask(p: seq<byte>, key: seq<byte>): (r: seq<byte>)
    requires |key| == 4
    ensures |r| == |p|
    ensures forall i :: 0 <= i < |p| ==> r[i] == Xor(p[i], key[i % 4])
  {
    seq(|p|, i requires 0 <= i < |p| => Xor(p[i], key[i % 4]))
  }

  /** Every byte after the header, unmasked when the mask bit is set. */
  function Payload(f: Frame): (p: seq<byte>)
    requires HasBaseHeader(f) && |f.data| >= HeaderSize(f)
    ensures |p| == |f.data| - HeaderSize(f)
  {
    var body := f.data[HeaderSize(f)..];
    if Masked(f) then Mask(body, MaskKey(f)) else body
  }

  /** The 7-bit length indicator the encoder writes for a payload of `n` bytes. */
  function Indicator(n: nat): (i: nat)
    ensures i <= 127
  {
    if n > 0xFFFF then 127 else if n > 125 then 126 else n
  }

  /** The length field of an encoded frame: the second header byte (mask bit over the 7-bit
      indicator, `maskBit | indicator`) and the extended big-endian length the indicator
      announces. */
  function LengthField(n: nat, masked: bool): (r: seq<byte>)
    requires n < MaxPayload
    ensures |r| == (if n > 0xFFFF then 9 else if n > 125 then 3 else 1)
    ensures HasBit(r[0], MaskMask) == masked && r[0] % 0x80 == Indicator(n) as byte
    ensures |r| > 1 ==> ToNat(r[1..]) == n
  {
    var first := LengthByte(Indicator(n), masked);
    if n > 0xFFFF then [first] + Extended(n, 8)
    else if n > 125 then [first] + Extended(n, 2)
    else [first]
  }

  /** The second header byte: the mask bit over the 7-bit length indicator. */
  function LengthByte(indicator: nat, masked: bool): (b: byte)
    requires indicator <= 127
    ensures HasBit(b, MaskMask) == masked && b % 0x80 == indicator as byte
  {
    (if masked then 0x80 else 0) + indicator as byte
  }

  /** The extended length in `size` big-endian bytes. */
  function Extended(n: nat, size: nat): (r: seq<byte>)
    requires (size == 2 && n < 0x1_0000) || (size == 8 && n < MaxPayload)
    ensures |r| == size && ToNat(r) == n
  {
    assert Pow256(2) == 0x1_0000;
    assert Pow256(8) == MaxPayload;
    NumberBytes(n, size)
  }

  /** `Frame(opCode:data:maskKey:)`: a final frame, masked exactly when the key has 4 bytes. */
  function Encode(op: OpCode, payload: seq<byte>, key: seq<byte>): (r: seq<byte>)
    requires |payload| < MaxPayload
    ensures var len := LengthField(|payload|, |key| == 4);
            var h := 1 + |len|;
            && |r| == h + (if |key| == 4 then 4 else 0) + |payload|
            && r[0] == FinMask + RawValue(op)
            && r[1..h] == len
            && (if |key| == 4 then r[h..h + 4] == key && r[h + 4..] == Mask(payload, key)
                else r[h..] == payload)
  {
    var masked := |key| == 4;
    var len := LengthField(|payload|, masked);
    var head := [FinMask + RawValue(op)] + len;
    if masked then head + key + Mask(payload, key) else head + payload
  }

  /** The encoder uses the shortest length form (section 5.2 of RFC 6455): lengths up to 125
      in the 7-bit indicator alone, up to 65535 behind 126 in two extra bytes, longer ones
      behind 127 in eight. */
  lemma EncodeShortestLength(op: OpCode, payload: seq<byte>, key: seq<byte>)
    requires |payload| < MaxPayload
    ensures var f := Frame(Encode(op, payload, key));
            var n := |payload|;
            && HasBaseHeader(f)
            && (ExtraLengthBytes(f) == 0 <==> n <= 125)
            && (ExtraLengthBytes(f) == 2 <==> 125 < n <= 0xFFFF)
            && (ExtraLengthBytes(f) == 8 <==> 0xFFFF < n)
  {
    var r := Encode(op, payload, key);
    var len := LengthField(|payload|, |key| == 4);
    HeaderSlices(r, len);
  }

  /** The extended length the encoder writes after an indicator of 126 or 127: two or eight
      big-endian bytes holding the payload length. */
  lemma EncodeExtendedLength(op: OpCode, payload: seq<byte>, key: seq<byte>)
    requires |payload| < MaxPayload
    ensures var r := Encode(op, payload, key);
            var n := |payload|;
            && (125 < n <= 0xFFFF ==> ToNat(r[2..4]) == n)
            && (0xFFFF < n ==> ToNat(r[2..10]) == n)
  {
    var r := Encode(op, payload, key);
    var len := LengthField(|payload|, |key| == 4);
    HeaderSlices(r, len);
  }

  /** The length field sits at offset 1 of an encoded frame. */
  lemma HeaderSlices(r: seq<byte>, len: seq<byte>)
    requires |len| == 1 || |len| == 3 || |len| == 9
    requires |r| >= 1 + |len| && r[1..1 + |len|] == len
    ensures r[1] == len[0]
    ensures |len| == 3 ==> r[2..4] == len[1..]
    ensures |len| == 9 ==> r[2..10] == len[1..]
  {
    assert r[1] == r[1..1 + |len|][0];
  }

  /** `add(data:)`: append the input, and once the frame is complete keep exactly its
      `totalFrameSize` bytes and hand back the surplus. */
  function Add(f: Frame, input: seq<byte>): (r: (Frame, seq<byte>))
    ensures r.0.data + r.1 == f.data + input
    ensures !IsComplete(Frame(f.data + input)) ==> r.0 == Frame(f.data + input) && r.1 == []
    ensures IsComplete(Frame(f.data + input)) ==>
              IsComplete(r.0) && |r.0.data| == TotalFrameSize(r.0)
  {
    var d := f.data + input;
    var g := Frame(d);
    if IsComplete(g) then
      var t := TotalFrameSize(g);
      CompleteTrim(d);
      (Frame(d[..t]), d[t..])
    else (g, [])
  }

  /** `Sequence<Frame>.payload`: the frames' unmasked payloads concatenated in order. */
  predicate AllComplete(frames: seq<Frame>)
  {
    forall i :: 0 <= i < |frames| ==> IsComplete(frames[i])
  }

  function Payloads(frames: seq<Frame>): (p: seq<byte>)
    requires AllComplete(frames)
  {
    if |frames| == 0 then []
    else
      CompleteHasPayload(frames[|frames| - 1]);
      Payloads(frames[..|frames| - 1]) + Payload(frames[|frames| - 1])
  }

  // ---------------------------------------------------------------------------------------
  // Properties

  /** Masking is an involution, so the same XOR masks and unmasks. */
  lemma MaskInvolution(p: seq<byte>, key: seq<byte>)
    requires |key| == 4
    ensures Mask(Mask(p, key), key) == p
  {
    forall i | 0 <= i < |p|
      ensures Mask(Mask(p, key), key)[i] == p[i]
    {
      XorTwice(p[i], key[i % 4]);
    }
  }

  /** `isControl` holds exactly for the opcodes 0x8, 0x9 and 0xA. */
  lemma ControlOpcodes(op: OpCode)
    ensures IsControl(op) <==> op != Invalid && 0x8 <= RawValue(op) <= 0xA
  {
  }

  /** A complete frame holds its whole header, so the mask key and payload can be read, and
      at least as many payload bytes as the resolved length announces. */
  lemma CompleteHasPayload(f: Frame)
    requires IsComplete(f)
    ensures HasBaseHeader(f) && |f.data| >= HeaderSize(f)
    ensures |f.data| >= 2 + ExtraLengthBytes(f) + (if Masked(f) then 4 else 0)
    ensures |Payload(f)| >= ExtendedPayloadLength(f)
  {
  }

  /** Two buffers that agree on the first `TotalFrameSize` bytes of a complete frame have the
      same header, hence the same size, and both are complete. */
  lemma SameHeader(x: seq<byte>, y: seq<byte>)
    requires IsComplete(Frame(x))
    requires |y| >= TotalFrameSize(Frame(x))
    requires y[..TotalFrameSize(Frame(x))] == x[..TotalFrameSize(Frame(x))]
    ensures IsComplete(Frame(y))
    ensures TotalFrameSize(Frame(y)) == TotalFrameSize(Frame(x))
    ensures HeaderSize(Frame(y)) == HeaderSize(Frame(x))
    ensures Frame(y).data[0] == Frame(x).data[0] && Frame(y).data[1] == Frame(x).data[1]
    ensures Masked(Frame(y)) ==> MaskKey(Frame(y)) == MaskKey(Frame(x))
  {
    var t := TotalFrameSize(Frame(x));
    SameLengthField(x, y, t);
    if Masked(Frame(x)) {
      var e := 2 + ExtraLengthBytes(Frame(x));
      SliceAgree(x, y, t, e, e + 4);
    }
  }

  /** Buffers agreeing on a prefix that covers the base header and the extended length have the
      same indicator, mask bit and resolved length. */
  lemma SameLengthField(x: seq<byte>, y: seq<byte>, t: nat)
    requires IsComplete(Frame(x)) && t == TotalFrameSize(Frame(x))
    requires |y| >= t && y[..t] == x[..t]
    ensures |y| >= 2 && y[0] == x[0] && y[1] == x[1]
    ensures PayloadLength(Frame(y)) == PayloadLength(Frame(x))
    ensures ExtendedPayloadLength(Frame(y)) == ExtendedPayloadLength(Frame(x))
  {
    SliceAgree(x, y, t, 0, 2);
    assert y[0] == y[0..2][0] && y[1] == y[0..2][1];
    assert x[0] == x[0..2][0] && x[1] == x[0..2][1];
    if PayloadLength(Frame(x)) == 126 {
      SliceAgree(x, y, t, 2, 4);
    } else if PayloadLength(Frame(x)) == 127 {
      SliceAgree(x, y, t, 2, 10);
    }
  }

  /** Two buffers that agree on their first `t` bytes agree on every window inside them. */
  lemma SliceAgree(x: seq<byte>, y: seq<byte>, t: nat, i: nat, j: nat)
    requires i <= j <= t <= |x| && t <= |y| && y[..t] == x[..t]
    ensures y[i..j] == x[i..j]
  {
    forall k | i <= k < j
      ensures y[k] == x[k]
    {
      assert y[k] == y[..t][k] && x[k] == x[..t][k];
    }
  }

  /** `isComplete` holds exactly when the base header, the extended length the indicator
      announces, and the mask key and payload the resolved length announces have all arrived. */
  lemma CompleteIff(f: Frame)
    ensures IsComplete(f) <==>
              && HasBaseHeader(f)
              && |f.data| >= 2 + ExtraLengthBytes(f)
              && |f.data| >= HeaderSize(f) + ExtendedPayloadLength(f)
  {
  }

  /** Cutting a complete buffer at its total size leaves a complete frame of exactly that size. */
  lemma CompleteTrim(d: seq<byte>)
    requires IsComplete(Frame(d))
    ensures var t := TotalFrameSize(Frame(d));
            t <= |d| && IsComplete(Frame(d[..t])) && TotalFrameSize(Frame(d[..t])) == t
  {
    var t := TotalFrameSize(Frame(d));
    SameHeader(d, d[..t]);
  }

  /** Completeness survives appending bytes, with an unchanged total size. */
  lemma CompleteExtend(x: seq<byte>, y: seq<byte>)
    requires IsComplete(Frame(x))
    ensures IsComplete(Frame(x + y))
    ensures TotalFrameSize(Frame(x + y)) == TotalFrameSize(Frame(x))
  {
    var t := TotalFrameSize(Frame(x));
    assert (x + y)[..t] == x[..t];
    SameHeader(x, x + y);
  }

  /** No proper prefix shorter than the total size is complete: `add` cuts the buffer at the
      first length at which the frame becomes complete. */
  lemma CompleteMinimal(x: seq<byte>, k: nat)
    requires IsComplete(Frame(x))
    requires k < TotalFrameSize(Frame(x))
    ensures !IsComplete(Frame(x[..k]))
  {
    var p := Frame(x[..k]);
    if IsComplete(p) {
      var tp := TotalFrameSize(p);
      assert x[..k][..tp] == x[..tp];
      SameHeader(x[..k], x);
      assert false;
    }
  }

  /** The first byte of every encoded frame sets FIN, clears RSV1-3 and carries the opcode. */
  lemma EncodeFirstByte(op: OpCode, payload: seq<byte>, key: seq<byte>)
    requires op != Invalid && |payload| < MaxPayload
    ensures var f := Frame(Encode(op, payload, key));
            Fin(f) && !Rsv1(f) && !Rsv2(f) && !Rsv3(f) && Op(f) == op
  {
  }

  /** Decoding an encoded frame recovers its fields: it is complete and exactly sized, final,
      of the same opcode, masked exactly when the key has four bytes, and its unmasked payload
      is the original payload (the XOR is self-inverse). */
  lemma EncodeDecode(op: OpCode, payload: seq<byte>, key: seq<byte>)
    requires op != Invalid && |payload| < MaxPayload
    ensures var f := Frame(Encode(op, payload, key));
            && IsComplete(f) && TotalFrameSize(f) == |f.data|
            && Fin(f) && !Rsv1(f) && !Rsv2(f) && !Rsv3(f) && Op(f) == op
            && Masked(f) == (|key| == 4)
            && ExtendedPayloadLength(f) == |payload|
            && Payload(f) == payload
            && (Masked(f) ==> MaskKey(f) == key)
  {
    var r := Encode(op, payload, key);
    var f := Frame(r);
    var n := |payload|;
    EncodeFirstByte(op, payload, key);
    assert ExtendedPayloadLength(f) == n;
    var h := |LengthField(n, |key| == 4)| + 1;
    assert HeaderSize(f) == h + (if |key| == 4 then 4 else 0);
    if |key| == 4 {
      MaskInvolution(payload, key);
    }
  }

  /** `add` is the identity on bytes: nothing is dropped, nothing invented, and an incomplete
      frame hands back no surplus. */
  lemma AddConserves(f: Frame, input: seq<byte>)
    ensures var (g, rest) := Add(f, input);
            g.data + rest == f.data + input
            && (IsComplete(g) || rest == [])
            && |rest| <= |f.data| + |input|
  {
  }

  /** Payload concatenation distributes over splitting the frame list. */
  lemma {:induction false} PayloadsAppend(a: seq<Frame>, b: seq<Frame>)
    requires AllComplete(a) && AllComplete(b)
    ensures AllComplete(a + b)
    ensures Payloads(a + b) == Payloads(a) + Payloads(b)
    decreases |b|
  {
    AllCompleteAppend(a, b);
    if |b| > 0 {
      var ab := a + b;
      var b' := b[..|b| - 1];
      assert ab[..|ab| - 1] == a + b';
      assert ab[|ab| - 1] == b[|b| - 1];
      PayloadsLast(b);
      PayloadsAppend(a, b');
      PayloadsLast(ab);
      BytesAssoc(Payloads(a), Payloads(b'), Payload(b[|b| - 1]));
    } else {
      assert a + b == a;
    }
  }

  lemma AllCompleteAppend(a: seq<Frame>, b: seq<Frame>)
    requires AllComplete(a) && AllComplete(b)
    ensures AllComplete(a + b)
  {
    forall i | 0 <= i < |a + b|
      ensures IsComplete((a + b)[i])
    {
      if i >= |a| {
        assert (a + b)[i] == b[i - |a|];
      }
    }
  }

  /** The last frame's payload comes last. */
  lemma PayloadsLast(s: seq<Frame>)
    requires AllComplete(s) && |s| > 0
    ensures AllComplete(s[..|s| - 1])
    ensures IsComplete(s[|s| - 1])
    ensures Payloads(s) == Payloads(s[..|s| - 1]) + Payload(s[|s| - 1])
  {
    var init := s[..|s| - 1];
    forall i | 0 <= i < |init|
      ensures IsComplete(init[i])
    {
      assert init[i] == s[i];
    }
  }
}
