/** The frames of Tests/WebSocketTests/FrameTests.swift, byte for byte. */
module FrameVectors {
  import opened Bytes
  import opened Frames

  /** The five masked bytes of testMaskText. */
  lemma HelloMaskBytes()
    ensures Xor(0x48, 0x39) == 0x71 && Xor(0x65, 0xfa) == 0x9f && Xor(0x6c, 0xab) == 0xc7
    ensures Xor(0x6c, 0x35) == 0x59 && Xor(0x6f, 0x39) == 0x56
  {
    XorByte0();
    XorByte1();
    XorByte2();
    XorByte3();
    XorByte4();
  }

  /** 0x48 ^ 0x39, one bit at a time from the most significant end. */
  lemma XorByte0()
    ensures Xor(0x48, 0x39) == 0x71
  {
    XorStep(0x0, 0x0, 1, 0x0);
    XorStep(0x1, 0x0, 2, 0x0);
    XorStep(0x2, 0x1, 3, 0x1);
    XorStep(0x4, 0x3, 4, 0x3);
    XorStep(0x9, 0x7, 5, 0x7);
    XorStep(0x12, 0xe, 6, 0xe);
    XorStep(0x24, 0x1c, 7, 0x1c);
    XorStep(0x48, 0x39, 8, 0x38);
  }

  lemma XorByte1()
    ensures Xor(0x65, 0xfa) == 0x9f
  {
    XorStep(0x0, 0x1, 1, 0x0);
    XorStep(0x1, 0x3, 2, 0x1);
    XorStep(0x3, 0x7, 3, 0x2);
    XorStep(0x6, 0xf, 4, 0x4);
    XorStep(0xc, 0x1f, 5, 0x9);
    XorStep(0x19, 0x3e, 6, 0x13);
    XorStep(0x32, 0x7d, 7, 0x27);
    XorStep(0x65, 0xfa, 8, 0x4f);
  }

  lemma XorByte2()
    ensures Xor(0x6c, 0xab) == 0xc7
  {
    XorStep(0x0, 0x1, 1, 0x0);
    XorStep(0x1, 0x2, 2, 0x1);
    XorStep(0x3, 0x5, 3, 0x3);
    XorStep(0x6, 0xa, 4, 0x6);
    XorStep(0xd, 0x15, 5, 0xc);
    XorStep(0x1b, 0x2a, 6, 0x18);
    XorStep(0x36, 0x55, 7, 0x31);
    XorStep(0x6c, 0xab, 8, 0x63);
  }

  lemma XorByte3()
    ensures Xor(0x6c, 0x35) == 0x59
  {
    XorStep(0x0, 0x0, 1, 0x0);
    XorStep(0x1, 0x0, 2, 0x0);
    XorStep(0x3, 0x1, 3, 0x1);
    XorStep(0x6, 0x3, 4, 0x2);
    XorStep(0xd, 0x6, 5, 0x5);
    XorStep(0x1b, 0xd, 6, 0xb);
    XorStep(0x36, 0x1a, 7, 0x16);
    XorStep(0x6c, 0x35, 8, 0x2c);
  }

  lemma XorByte4()
    ensures Xor(0x6f, 0x39) == 0x56
  {
    XorStep(0x0, 0x0, 1, 0x0);
    XorStep(0x1, 0x0, 2, 0x0);
    XorStep(0x3, 0x1, 3, 0x1);
    XorStep(0x6, 0x3, 4, 0x2);
    XorStep(0xd, 0x7, 5, 0x5);
    XorStep(0x1b, 0xe, 6, 0xa);
    XorStep(0x37, 0x1c, 7, 0x15);
    XorStep(0x6f, 0x39, 8, 0x2b);
  }

  /** Masking five bytes, written out. */
  lemma MaskFive(p: seq<byte>, key: seq<byte>)
    requires |p| == 5 && |key| == 4
    ensures Mask(p, key) == [Xor(p[0], key[0]), Xor(p[1], key[1]), Xor(p[2], key[2]),
                             Xor(p[3], key[3]), Xor(p[4], key[0])]
  {
  }

  /** The frame of testMaskText: "Hello" masked with 39 fa ab 35. */
  lemma EncodeHelloVector()
    ensures Encode(Text, [0x48, 0x65, 0x6c, 0x6c, 0x6f], [0x39, 0xfa, 0xab, 0x35])
         == [0x81, 0x85, 0x39, 0xfa, 0xab, 0x35, 0x71, 0x9f, 0xc7, 0x59, 0x56]
  {
    var key: seq<byte> := [0x39, 0xfa, 0xab, 0x35];
    var hello: seq<byte> := [0x48, 0x65, 0x6c, 0x6c, 0x6f];
    EncodeMaskedFive(Text, hello, key);
    HelloMaskBytes();
  }

  /** A masked five-byte frame, written out byte by byte. */
  lemma EncodeMaskedFive(op: OpCode, p: seq<byte>, key: seq<byte>)
    requires |key| == 4 && |p| == 5
    ensures Encode(op, p, key)
         == [FinMask + RawValue(op), 0x85, key[0], key[1], key[2], key[3],
             Xor(p[0], key[0]), Xor(p[1], key[1]), Xor(p[2], key[2]), Xor(p[3], key[3]), Xor(p[4], key[0])]
  {
    EncodeMaskedShort(op, p, key);
    MaskFive(p, key);
  }

  /** A masked frame with a payload of at most 125 bytes: two header bytes, the key, the
      masked payload. */
  lemma EncodeMaskedShort(op: OpCode, p: seq<byte>, key: seq<byte>)
    requires |key| == 4 && |p| <= 125
    ensures Encode(op, p, key) == [FinMask + RawValue(op), 0x80 + |p| as byte] + key + Mask(p, key)
  {
  }

  /** The frame of testMaskPong: an empty masked Pong is its two header bytes and the key. */
  lemma EncodePongVector()
    ensures Encode(Pong, [], [0x39, 0xfa, 0xab, 0x35]) == [0x8A, 0x80, 0x39, 0xfa, 0xab, 0x35]
  {
    var key: seq<byte> := [0x39, 0xfa, 0xab, 0x35];
    assert Mask([], key) == [];
  }
}
