/** Base64 decoding as the Base64Decoder step machine of Sources/Base64.swift performs it: a
    lookup table from ASCII codes to 6-bit values, bytes outside the alphabet skipped, and four
    values written into three output bytes. */
module Base64Decoding {
  import opened Bytes
  import opened Optional
  import Base64

  /** The lookup table for the ASCII codes 43 ("+") to 122 ("z"): the 6-bit value of an
      alphabet character, -2 for "=" and -1 for everything else. */
  const Decoding: seq<int> :=
    [62, -1, -1, -1, 63, 52, 53, 54, 55, 56, 57, 58, 59, 60, 61, -1, -1, -1, -2, -1,
     -1, -1, 0, 1, 2, 3, 4, 5, 6, 7, 8, 9, 10, 11, 12, 13, 14, 15, 16, 17]
    + [18, 19, 20, 21, 22, 23, 24, 25, -1, -1, -1, -1, -1, -1, 26, 27, 28, 29, 30, 31,
       32, 33, 34, 35, 36, 37, 38, 39, 40, 41, 42, 43, 44, 45, 46, 47, 48, 49, 50, 51]

  /** The alphabet read backwards: the 6-bit value of an alphabet character, -2 for the padding
      character and -1 for any other byte. */
  function AlphabetIndex(value: byte): (r: int)
    ensures r >= 0 <==> Base64.IsDigit(value)
    ensures r >= 0 ==> r < 64 && Base64.Digit(r) == value
    ensures r < 0 ==> r == (if value == Base64.Padding then -2 else -1)
  {
    if 65 <= value <= 90 then value as int - 65
    else if 97 <= value <= 122 then value as int - 71
    else if 48 <= value <= 57 then value as int + 4
    else if value == 43 then 62
    else if value == 47 then 63
    else if value == Base64.Padding then -2
    else -1
  }

  /** The table holds the alphabet read backwards. */
  lemma TableIsAlphabet(tmp: nat)
    requires tmp < 80
    ensures Decoding[tmp] == AlphabetIndex((tmp + 43) as byte)
  {
    assert |Decoding| == 80;
    if tmp < 5 {
    } else if tmp < 15 {
      TableDigits(tmp);
    } else if tmp < 22 {
    } else if tmp < 48 {
      TableUpper(tmp);
    } else if tmp < 54 {
    } else {
      TableLower(tmp);
    }
  }

  lemma TableDigits(tmp: nat)
    requires 5 <= tmp < 15
    ensures Decoding[tmp] == tmp + 47
  {
  }

  lemma TableUpper(tmp: nat)
    requires 22 <= tmp < 48
    ensures Decoding[tmp] == tmp - 22
  {
  }

  lemma TableLower(tmp: nat)
    requires 54 <= tmp < 80
    ensures Decoding[tmp] == tmp - 28
  {
  }

  /** decodeValue with the subtraction done on Int, so a byte below 43 fails the range guard and
      is skipped like every other byte outside the table. */
  function DecodeValue(value: byte): (r: int)
    ensures r == AlphabetIndex(value)
  {
    var tmp := value as int - 43;
    if 0 <= tmp && tmp < |Decoding| then TableIsAlphabet(tmp); Decoding[tmp] else -1
  }

  /** decodeValue as written: `value - 43` is computed on UInt8 before the conversion to Int, so
      every byte below 43 traps (None) and the `tmp >= 0` guard never fails. */
  function DecodeValueAsWritten(value: byte): (r: Option<int>)
    ensures r.None? <==> value < 43
    ensures r.Some? ==> r.value == DecodeValue(value)
  {
    if value < 43 then None
    else
      var tmp := (value - 43) as int;
      if tmp >= 0 && tmp < |Decoding| then Some(Decoding[tmp]) else Some(-1)
  }

  /** Every alphabet character decodes to its own 6-bit value. */
  lemma DigitInverse(v: nat)
    requires v < 64
    ensures DecodeValue(Base64.EncodeValue(v)) == v
  {
  }

  /** The padding and newline characters are skipped. */
  lemma SeparatorsSkipped()
    ensures DecodeValue(Base64.Padding) < 0 && DecodeValue(Base64.Newline) < 0
  {
  }

  datatype Step = A | B | C | D

  /** The decoder between two input bytes: the position within the current group of four
      values, the output array, and the index of the byte being written. */
  datatype Decoder = Decoder(step: Step, output: seq<byte>, outputOffset: nat)

  /** Output bytes the decoder has written to: the finished ones and, inside a group, the one
      it is building. */
  function Claimed(d: Decoder): nat
  {
    d.outputOffset + (if d.step == A then 0 else 1)
  }

  /** The claimed bytes fit the output, and the byte being built has clear low bits where the
      next value's bits go, so `|=` on it is an addition. */
  predicate Pending(d: Decoder)
  {
    Claimed(d) <= |d.output| &&
    match d.step
    case A => true
    case B => d.output[d.outputOffset] as int % 4 == 0
    case C => d.output[d.outputOffset] as int % 16 == 0
    case D => d.output[d.outputOffset] as int % 64 == 0
  }

  /** The switch of decodeBlock for one accepted 6-bit value. */
  function DecodeSextet(d: Decoder, fragment: nat): (r: Decoder)
    requires fragment < 64 && Pending(d) && Claimed(d) < |d.output|
    ensures Pending(r) && Claimed(r) <= Claimed(d) + 1 && |r.output| == |d.output|
    ensures r.output[..d.outputOffset] == d.output[..d.outputOffset]
  {
    match d.step
    case A => SextetA(d, fragment)
    case B => SextetB(d, fragment)
    case C => SextetC(d, fragment)
    case D => SextetD(d, fragment)
  }

  /** Case 0: the six bits start a new byte. */
  function SextetA(d: Decoder, fragment: nat): (r: Decoder)
    requires fragment < 64 && d.step == A && Claimed(d) < |d.output|
    ensures r.step == B && Pending(r) && Claimed(r) == Claimed(d) + 1 && |r.output| == |d.output|
    ensures r.output[..d.outputOffset] == d.output[..d.outputOffset]
  {
    var o := d.outputOffset;
    Decoder(B, d.output[o := (fragment % 64 * 4) as byte], o)
  }

  /** Case 1: two bits complete the byte, four start the next. */
  function SextetB(d: Decoder, fragment: nat): (r: Decoder)
    requires fragment < 64 && d.step == B && Pending(d) && Claimed(d) < |d.output|
    ensures r.step == C && Pending(r) && Claimed(r) == Claimed(d) + 1 && |r.output| == |d.output|
    ensures r.output[..d.outputOffset] == d.output[..d.outputOffset]
  {
    var o := d.outputOffset;
    Decoder(C, d.output[o := (d.output[o] as int + fragment % 64 / 16) as byte][o + 1 := (fragment % 16 * 16) as byte], o + 1)
  }

  /** Case 2: four bits complete the byte, two start the next. */
  function SextetC(d: Decoder, fragment: nat): (r: Decoder)
    requires fragment < 64 && d.step == C && Pending(d) && Claimed(d) < |d.output|
    ensures r.step == D && Pending(r) && Claimed(r) == Claimed(d) + 1 && |r.output| == |d.output|
    ensures r.output[..d.outputOffset] == d.output[..d.outputOffset]
  {
    var o := d.outputOffset;
    Decoder(D, d.output[o := (d.output[o] as int + fragment % 64 / 4) as byte][o + 1 := (fragment % 4 * 64) as byte], o + 1)
  }

  /** Case 3: six bits complete the byte. */
  function SextetD(d: Decoder, fragment: nat): (r: Decoder)
    requires fragment < 64 && d.step == D && Pending(d)
    ensures r.step == A && Pending(r) && Claimed(r) == Claimed(d) && |r.output| == |d.output|
    ensures r.output[..d.outputOffset] == d.output[..d.outputOffset]
  {
    var o := d.outputOffset;
    Decoder(A, d.output[o := (d.output[o] as int + fragment % 64) as byte], o + 1)
  }

  /** The chain of decodeBlock calls over the remaining bytes: skip bytes the table rejects,
      feed the others to the switch, and stop at the end of the input. */
  function DecodeBlocks(d: Decoder, bytes: seq<byte>): (r: Decoder)
    requires Pending(d) && Claimed(d) + |bytes| <= |d.output|
    ensures Pending(r) && |r.output| == |d.output|
    decreases |bytes|
  {
    if |bytes| == 0 then d
    else
      var fragment := DecodeValue(bytes[0]);
      if fragment < 0 then DecodeBlocks(d, bytes[1..])
      else DecodeBlocks(DecodeSextet(d, fragment), bytes[1..])
  }

  /** The decoder's output array for `bytes`, one byte per input byte and zero past what was
      decoded, with the corrected `DecodeValue`. The public wrappers as written return this only
      for inputs with no byte below 43; on such a byte `DecodeValueAsWritten` traps. */
  function Decode(bytes: seq<byte>): (r: seq<byte>)
    ensures |r| == |bytes|
  {
    if |bytes| == 0 then []
    else DecodeBlocks(Decoder(A, seq(|bytes|, _ => 0), 0), bytes).output
  }

  // Skipped bytes

  /** The bytes the table accepts. */
  function Significant(u: seq<byte>): (r: seq<byte>)
    ensures |r| <= |u|
  {
    if |u| == 0 then [] else (if DecodeValue(u[0]) < 0 then [] else [u[0]]) + Significant(u[1..])
  }

  /** Skipped bytes do not affect decoding. */
  lemma {:induction false} SkipInsignificant(d: Decoder, u: seq<byte>)
    requires Pending(d) && Claimed(d) + |u| <= |d.output|
    ensures DecodeBlocks(d, u) == DecodeBlocks(d, Significant(u))
    decreases |u|
  {
    if |u| > 0 {
      var fragment := DecodeValue(u[0]);
      if fragment < 0 {
        SkipInsignificant(d, u[1..]);
        assert Significant(u) == Significant(u[1..]);
      } else {
        var d' := DecodeSextet(d, fragment);
        SkipInsignificant(d', u[1..]);
        var s := Significant(u);
        assert s[0] == u[0] && s[1..] == Significant(u[1..]);
      }
    }
  }

  /** Removing newlines does not change the accepted bytes. */
  lemma {:induction false} SignificantStrip(u: seq<byte>)
    ensures Significant(Base64.Strip(u)) == Significant(u)
    decreases |u|
  {
    if |u| > 0 {
      SignificantStrip(u[1..]);
      SeparatorsSkipped();
      var s := Base64.Strip(u);
      if u[0] != Base64.Newline {
        assert s == [u[0]] + Base64.Strip(u[1..]);
        assert s[0] == u[0] && s[1..] == Base64.Strip(u[1..]);
      } else {
        assert s == Base64.Strip(u[1..]);
        assert Significant(u) == Significant(u[1..]);
      }
    }
  }

  // Decoding the reference encoding

  lemma {:induction false} DecodeBlocksAppend(d: Decoder, u: seq<byte>, v: seq<byte>)
    requires Pending(d) && Claimed(d) + |u| + |v| <= |d.output|
    ensures Claimed(DecodeBlocks(d, u)) <= Claimed(d) + |u|
    ensures DecodeBlocks(d, u + v) == DecodeBlocks(DecodeBlocks(d, u), v)
    decreases |u|
  {
    if |u| == 0 {
      assert u + v == v;
    } else {
      assert (u + v)[0] == u[0] && (u + v)[1..] == u[1..] + v;
      var fragment := DecodeValue(u[0]);
      if fragment < 0 {
        DecodeBlocksAppend(d, u[1..], v);
      } else {
        DecodeBlocksAppend(DecodeSextet(d, fragment), u[1..], v);
      }
    }
  }

  /** One accepted byte runs one step of the switch. */
  lemma DecodeBlocksCons(d: Decoder, u: seq<byte>)
    requires Pending(d) && Claimed(d) + |u| <= |d.output| && |u| > 0 && DecodeValue(u[0]) >= 0
    ensures DecodeBlocks(d, u) == DecodeBlocks(DecodeSextet(d, DecodeValue(u[0])), u[1..])
  {
  }

  /** A skipped byte leaves the decoder as it was. */
  lemma DecodeBlocksSkip(d: Decoder, u: seq<byte>)
    requires Pending(d) && Claimed(d) + |u| <= |d.output| && |u| > 0 && DecodeValue(u[0]) < 0
    ensures DecodeBlocks(d, u) == DecodeBlocks(d, u[1..])
  {
  }

  /** The four characters of a full quantum give back its three bytes, leaving what was
      written before them alone. */
  lemma DecodeQuantum(d: Decoder, g: seq<byte>)
    requires |g| == 3 && d.step == A && Pending(d) && Claimed(d) + 4 <= |d.output|
    ensures var o := d.outputOffset;
            var r := DecodeBlocks(d, Base64.Quantum(g));
            && r.step == A && r.outputOffset == o + 3 && |r.output| == |d.output|
            && Unchanged(d.output, r.output, o)
            && r.output[o] == g[0] && r.output[o + 1] == g[1] && r.output[o + 2] == g[2]
  {
    var a, b, c := g[0] as int, g[1] as int, g[2] as int;
    var q := Base64.Quantum(g);
    Base64.QuantumThree(g);
    var v0, v1, v2, v3 := a / 4, a % 4 * 16 + b / 16, b % 16 * 4 + c / 64, c % 64;
    DigitInverse(v0);
    DigitInverse(v1);
    DigitInverse(v2);
    DigitInverse(v3);
    var d1 := DecodeSextet(d, v0);
    var d2 := DecodeSextet(d1, v1);
    var d3 := DecodeSextet(d2, v2);
    DecodeBlocksCons(d, q);
    DecodeBlocksCons(d1, q[1..]);
    DecodeBlocksCons(d2, q[2..]);
    DecodeBlocksCons(d3, q[3..]);
    assert q[1..][1..] == q[2..] && q[2..][1..] == q[3..] && q[3..][1..] == [];
    QuantumBytes(d, a, b, c);
  }

  /** A quantum for one byte gives it back; its padding is skipped. */
  lemma DecodeTailOne(d: Decoder, g: seq<byte>)
    requires |g| == 1 && d.step == A && Pending(d) && Claimed(d) + 4 <= |d.output|
    ensures var o := d.outputOffset;
            var r := DecodeBlocks(d, Base64.Quantum(g));
            Unchanged(d.output, r.output, o) && r.output[o] == g[0]
  {
    var a := g[0] as int;
    var q := Base64.Quantum(g);
    Base64.QuantumOne(g);
    var v0, v1 := a / 4, a % 4 * 16;
    DigitInverse(v0);
    DigitInverse(v1);
    SeparatorsSkipped();
    var d1 := DecodeSextet(d, v0);
    var d2 := DecodeSextet(d1, v1);
    DecodeBlocksCons(d, q);
    DecodeBlocksCons(d1, q[1..]);
    DecodeBlocksSkip(d2, q[2..]);
    DecodeBlocksSkip(d2, q[3..]);
    assert q[1..][1..] == q[2..] && q[2..][1..] == q[3..] && q[3..][1..] == [];
    StepA(d, v0);
    StepB(d1, v1, v0);
    DivModUnique(v1, 16, a % 4, 0);
  }

  /** A quantum for two bytes gives them back; its padding is skipped. */
  lemma DecodeTailTwo(d: Decoder, g: seq<byte>)
    requires |g| == 2 && d.step == A && Pending(d) && Claimed(d) + 4 <= |d.output|
    ensures var o := d.outputOffset;
            var r := DecodeBlocks(d, Base64.Quantum(g));
            Unchanged(d.output, r.output, o) && r.output[o] == g[0] && r.output[o + 1] == g[1]
  {
    var a, b := g[0] as int, g[1] as int;
    var q := Base64.Quantum(g);
    Base64.QuantumTwo(g);
    var v0, v1, v2 := a / 4, a % 4 * 16 + b / 16, b % 16 * 4;
    DigitInverse(v0);
    DigitInverse(v1);
    DigitInverse(v2);
    SeparatorsSkipped();
    var d1 := DecodeSextet(d, v0);
    var d2 := DecodeSextet(d1, v1);
    var d3 := DecodeSextet(d2, v2);
    DecodeBlocksCons(d, q);
    DecodeBlocksCons(d1, q[1..]);
    DecodeBlocksCons(d2, q[2..]);
    DecodeBlocksSkip(d3, q[3..]);
    assert q[1..][1..] == q[2..] && q[2..][1..] == q[3..] && q[3..][1..] == [];
    TailTwoBytes(d, a, b);
  }

  lemma TailTwoBytes(d: Decoder, a: nat, b: nat)
    requires a < 256 && b < 256
    requires d.step == A && Pending(d) && Claimed(d) + 4 <= |d.output|
    ensures var o := d.outputOffset;
            var d1 := DecodeSextet(d, a / 4);
            var d2 := DecodeSextet(d1, a % 4 * 16 + b / 16);
            var r := DecodeSextet(d2, b % 16 * 4);
            Unchanged(d.output, r.output, o) && r.output[o] as int == a && r.output[o + 1] as int == b
  {
    var v1 := a % 4 * 16 + b / 16;
    var v2 := b % 16 * 4;
    var d1 := DecodeSextet(d, a / 4);
    StepA(d, a / 4);
    var d2 := DecodeSextet(d1, v1);
    StepB(d1, v1, a / 4);
    DivModUnique(v1, 16, a % 4, b / 16);
    StepC(d2, v2, b / 16);
    DivModUnique(v2, 4, b % 16, 0);
  }

  /** The first `n` bytes of `after` are those of `before`. */
  predicate Unchanged(before: seq<byte>, after: seq<byte>, n: nat)
  {
    n <= |before| && n <= |after| && forall i :: 0 <= i < n ==> after[i] == before[i]
  }

  /** Step A writes the value's six bits at the top of a new byte. */
  lemma StepA(d: Decoder, v: nat)
    requires v < 64 && d.step == A && Pending(d) && Claimed(d) < |d.output|
    ensures var o := d.outputOffset;
            var r := DecodeSextet(d, v);
            && r.step == B && r.outputOffset == o && Unchanged(d.output, r.output, o)
            && r.output[o] as int == v * 4
  {
  }

  /** Step B completes a byte with the value's top two bits and starts the next with the rest. */
  lemma StepB(d: Decoder, v: nat, high: nat)
    requires v < 64 && d.step == B && Pending(d) && Claimed(d) < |d.output|
    requires d.output[d.outputOffset] as int == high * 4
    ensures var o := d.outputOffset;
            var r := DecodeSextet(d, v);
            && r.step == C && r.outputOffset == o + 1 && Unchanged(d.output, r.output, o)
            && r.output[o] as int == high * 4 + v / 16 && r.output[o + 1] as int == v % 16 * 16
  {
  }

  /** Step C completes a byte with the value's top four bits and starts the next with the
      rest. */
  lemma StepC(d: Decoder, v: nat, high: nat)
    requires v < 64 && d.step == C && Pending(d) && Claimed(d) < |d.output|
    requires d.output[d.outputOffset] as int == high * 16
    ensures var o := d.outputOffset;
            var r := DecodeSextet(d, v);
            && r.step == D && r.outputOffset == o + 1 && Unchanged(d.output, r.output, o)
            && r.output[o] as int == high * 16 + v / 4 && r.output[o + 1] as int == v % 4 * 64
  {
  }

  /** Step D completes a byte with all six bits of the value. */
  lemma StepD(d: Decoder, v: nat, high: nat)
    requires v < 64 && d.step == D && Pending(d) && Claimed(d) < |d.output|
    requires d.output[d.outputOffset] as int == high * 64
    ensures var o := d.outputOffset;
            var r := DecodeSextet(d, v);
            && r.step == A && r.outputOffset == o + 1 && Unchanged(d.output, r.output, o)
            && r.output[o] as int == high * 64 + v
  {
  }

  /** The arithmetic of one group: the four 6-bit values of three bytes, put back together by
      the switch's masks and shifts. */
  lemma QuantumBytes(d: Decoder, a: nat, b: nat, c: nat)
    requires a < 256 && b < 256 && c < 256
    requires d.step == A && Pending(d) && Claimed(d) + 4 <= |d.output|
    ensures var o := d.outputOffset;
            var d1 := DecodeSextet(d, a / 4);
            var d2 := DecodeSextet(d1, a % 4 * 16 + b / 16);
            var d3 := DecodeSextet(d2, b % 16 * 4 + c / 64);
            var r := DecodeSextet(d3, c % 64);
            && r.step == A && r.outputOffset == o + 3 && |r.output| == |d.output|
            && Unchanged(d.output, r.output, o)
            && r.output[o] as int == a && r.output[o + 1] as int == b && r.output[o + 2] as int == c
  {
    var o := d.outputOffset;
    var v1 := a % 4 * 16 + b / 16;
    var v2 := b % 16 * 4 + c / 64;
    var d1 := DecodeSextet(d, a / 4);
    StepA(d, a / 4);
    var d2 := DecodeSextet(d1, v1);
    StepB(d1, v1, a / 4);
    DivModUnique(v1, 16, a % 4, b / 16);
    var d3 := DecodeSextet(d2, v2);
    StepC(d2, v2, b / 16);
    DivModUnique(v2, 4, b % 16, c / 64);
    var r := DecodeSextet(d3, c % 64);
    StepD(d3, c % 64, c / 64);
  }

  /** `out` holds `x` from position `o` on. */
  predicate WrittenAt(out: seq<byte>, o: nat, x: seq<byte>)
  {
    o + |x| <= |out| && forall i :: 0 <= i < |x| ==> out[o + i] == x[i]
  }

  /** Three bytes written at `o`, then the rest written after them without touching the
      three, make the whole of `x` written at `o`. */
  lemma WrittenThenRest(before: seq<byte>, mid: seq<byte>, after: seq<byte>, o: nat, x: seq<byte>)
    requires |x| >= 3 && o + 3 <= |mid|
    requires Unchanged(before, mid, o) && Unchanged(mid, after, o + 3)
    requires mid[o] == x[0] && mid[o + 1] == x[1] && mid[o + 2] == x[2]
    requires WrittenAt(after, o + 3, x[3..])
    ensures Unchanged(before, after, o) && WrittenAt(after, o, x)
  {
    forall i | 0 <= i < |x|
      ensures after[o + i] == x[i]
    {
      if i >= 3 {
        assert after[(o + 3) + (i - 3)] == x[3..][i - 3];
      }
    }
  }

  /** Decoding the encoding of section 4 of RFC 4648 writes the original bytes at the output
      position and leaves the bytes before it alone. */
  lemma {:induction false} DecodeReference(d: Decoder, x: seq<byte>)
    requires d.step == A && Pending(d) && Claimed(d) + |Base64.Reference(x)| <= |d.output|
    ensures var r := DecodeBlocks(d, Base64.Reference(x));
            Unchanged(d.output, r.output, d.outputOffset) && WrittenAt(r.output, d.outputOffset, x)
    decreases |x|
  {
    if |x| == 1 {
      DecodeTailOne(d, x);
    } else if |x| == 2 {
      DecodeTailTwo(d, x);
    } else if |x| >= 3 {
      var q := Base64.Quantum(x[..3]);
      var rest := x[3..];
      Base64.ReferenceCons(x);
      DecodeBlocksAppend(d, q, Base64.Reference(rest));
      DecodeQuantum(d, x[..3]);
      var d' := DecodeBlocks(d, q);
      DecodeReference(d', rest);
      var r := DecodeBlocks(d', Base64.Reference(rest));
      WrittenThenRest(d.output, d'.output, r.output, d.outputOffset, x);
    }
  }

  /** Decoding what the encoder wrote gives back the original bytes, with or without line
      wrapping. */
  lemma RoundTrip(x: seq<byte>, charsPerLine: Option<int>)
    ensures var e := Base64.EncodeBytes(x, charsPerLine);
            |Decode(e)| >= |x| && Decode(e)[..|x|] == x
  {
    var e := Base64.EncodeBytes(x, charsPerLine);
    if |x| > 0 {
      var ref := Base64.Reference(x);
      var d0 := Decoder(A, seq(|e|, _ => 0), 0);
      Base64.EncodeUnwrapped(x);
      if charsPerLine.Some? {
        Base64.WrappedStrips(x, charsPerLine.value);
        SkipInsignificant(d0, e);
        SignificantStrip(e);
        SkipInsignificant(d0, ref);
      }
      assert DecodeBlocks(d0, e) == DecodeBlocks(d0, ref);
      DecodeReference(d0, x);
      var out := Decode(e);
      assert forall i :: 0 <= i < |x| ==> out[..|x|][i] == out[0 + i];
    }
  }

  // The decoder as written

  /** Every byte of the unwrapped encoding is at least 43, so the decoder as written never traps
      on it and reads the same values as the corrected one. */
  lemma UnwrappedNeverTraps(x: seq<byte>)
    ensures var e := Base64.EncodeBytes(x, None);
            forall i :: 0 <= i < |e| ==> DecodeValueAsWritten(e[i]) == Some(DecodeValue(e[i]))
  {
    Base64.EncodeUnwrapped(x);
    Base64.ReferenceAlphabet(x);
  }

  /** With line wrapping the encoder ends its output with a newline, on which the decoder as
      written traps. */
  lemma WrappedOutputTraps(x: seq<byte>, charsPerLine: int)
    requires |x| > 0
    ensures var e := Base64.EncodeBytes(x, Some(charsPerLine));
            |e| > 0 && DecodeValueAsWritten(e[|e| - 1]) == None
  {
    var e := Base64.EncodeBytes(x, Some(charsPerLine));
    assert e[|e| - 1] == Base64.Newline;
  }

  /** "M" encoded with 76 characters per line is "TQ==" and a newline; the decoder as written
      traps on the newline, and the corrected one gives "M" back. */
  lemma NewlineTrapExample()
    ensures Base64.EncodeBytes([77], Some(76)) == [84, 81, 61, 61, 10]
    ensures DecodeValueAsWritten(10) == None
    ensures Decode([84, 81, 61, 61, 10])[..1] == [77]
  {
    RoundTrip([77], Some(76));
  }
}
