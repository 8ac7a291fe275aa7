/** Base64 encoding as the Base64Encoder step machine of Sources/Base64.swift performs it: the
    alphabet and padding of section 4 of RFC 4648, one input byte per step, and optional line
    wrapping. */
module Base64 {
  import opened Bytes
  import opened Optional

  const Padding: byte := 0x3D
  const Newline: byte := 0x0A

  /** The ASCII codes of the 64 characters of the alphabet "A".."Z", "a".."z", "0".."9", "+", "/"
      (the wrappers never pass other special characters). */
  predicate IsDigit(b: byte)
  {
    (65 <= b <= 90) || (97 <= b <= 122) || (48 <= b <= 57) || b == 43 || b == 47
  }

  /** The alphabet character for a 6-bit value: index 0 is "A", 26 is "a", 52 is "0", then "+"
      and "/". */
  function Digit(value: nat): (r: byte)
    requires value < 64
  {
    if value < 26 then (65 + value) as byte
    else if value < 52 then (97 + value - 26) as byte
    else if value < 62 then (48 + value - 52) as byte
    else if value == 62 then 43
    else 47
  }

  /** The character for a 6-bit value, and the padding character above 64; the value 64 itself
      would index past the alphabet. */
  function EncodeValue(value: nat): (r: byte)
    requires value != 64
  {
    if value > 64 then Padding else Digit(value)
  }

  /** The 6-bit values are written as alphabet characters, anything above 64 as padding. */
  lemma EncodeValueAlphabet(value: nat)
    requires value != 64
    ensures value < 64 <==> IsDigit(EncodeValue(value))
    ensures value > 64 <==> EncodeValue(value) == Padding
  {
  }

  datatype Step = A | B | C

  /** The encoder between two input bytes: the step within the current 3-byte group, the
      pending 6-bit value, the full groups on the current line, and the characters so far. */
  datatype Encoder = Encoder(step: Step, result: nat, stepcount: int, output: seq<byte>)

  /** Inside a group the pending value holds the high bits of the next 6-bit value and its low
      bits are clear, so the next byte's bits are or-ed in by an addition. */
  predicate Pending(e: Encoder)
  {
    match e.step
    case A => true
    case B => e.result < 64 && e.result % 16 == 0
    case C => e.result < 64 && e.result % 4 == 0
  }

  const Start := Encoder(A, 0, 0, [])

  /** Full groups per line: `charsPerLine / 4` in Swift's truncating division. */
  function LineGroups(charsPerLine: int): int
  {
    if charsPerLine >= 0 then charsPerLine / 4 else -((-charsPerLine) / 4)
  }

  /** One call of encodeBlock without its tail call: consume one byte. */
  function EncodeBlock(e: Encoder, fragment: byte, charsPerLine: Option<int>): (r: Encoder)
    requires Pending(e)
    ensures Pending(r)
    ensures r.step == (match e.step case A => B case B => C case C => A)
    ensures e.output < r.output
  {
    match e.step
    case A => FirstOfGroup(e, fragment as int)
    case B => SecondOfGroup(e, fragment as int)
    case C => LastOfGroup(e, fragment as int, charsPerLine)
  }

  /** Step A: the top six bits become a character, the low two wait for the next byte. */
  function FirstOfGroup(e: Encoder, f: nat): (r: Encoder)
    requires e.step == A && f < 256
    ensures r.step == B && Pending(r) && e.output < r.output
  {
    Encoder(B, f % 4 * 16, e.stepcount, e.output + [EncodeValue(f / 4)])
  }

  /** Step B: the pending two bits and the top four bits make a character, the low four wait. */
  function SecondOfGroup(e: Encoder, f: nat): (r: Encoder)
    requires e.step == B && Pending(e) && f < 256
    ensures r.step == C && Pending(r) && e.output < r.output
  {
    Encoder(C, f % 16 * 4, e.stepcount, e.output + [EncodeValue(e.result + f / 16)])
  }

  /** Step C: the pending four bits and the top two bits make a character, the low six make
      another, and a full line of groups is ended by a newline. */
  function LastOfGroup(e: Encoder, f: nat, charsPerLine: Option<int>): (r: Encoder)
    requires e.step == C && Pending(e) && f < 256
    ensures r.step == A && e.output < r.output
  {
    var output := e.output + [EncodeValue(e.result + f / 64), EncodeValue(f % 64)];
    if charsPerLine.None? then Encoder(A, f % 64, e.stepcount, output)
    else if e.stepcount + 1 == LineGroups(charsPerLine.value) then Encoder(A, f % 64, 0, output + [Newline])
    else Encoder(A, f % 64, e.stepcount + 1, output)
  }

  /** The chain of encodeBlock calls over the remaining bytes. */
  function EncodeBlocks(e: Encoder, bytes: seq<byte>, charsPerLine: Option<int>): (r: Encoder)
    requires Pending(e)
    ensures Pending(r)
    ensures e.output <= r.output
    decreases |bytes|
  {
    if |bytes| == 0 then e else EncodeBlocks(EncodeBlock(e, bytes[0], charsPerLine), bytes[1..], charsPerLine)
  }

  /** encodeBlockEnd: flush the pending value, pad the last group, and end the last line. */
  function EncodeBlockEnd(e: Encoder, charsPerLine: Option<int>): (r: seq<byte>)
    requires Pending(e)
    ensures e.output <= r
    ensures r[|e.output|..] == Padded(e) + (if charsPerLine.Some? then [Newline] else [])
  {
    e.output + Padded(e) + (if charsPerLine.Some? then [Newline] else [])
  }

  /** The characters that complete an unfinished group. */
  function Padded(e: Encoder): (r: seq<byte>)
    requires Pending(e)
    ensures |r| == (if e.step == A then 0 else 4 - (if e.step == B then 1 else 2))
  {
    match e.step
    case A => []
    case B => [EncodeValue(e.result), Padding, Padding]
    case C => [EncodeValue(e.result), Padding]
  }

  /** The encoder's output for `bytes`; every public encode wrapper returns this. */
  function EncodeBytes(bytes: seq<byte>, charsPerLine: Option<int>): (r: seq<byte>)
    ensures |bytes| == 0 ==> r == []
    ensures |bytes| > 0 && charsPerLine.Some? ==> |r| > 0 && r[|r| - 1] == Newline
  {
    if |bytes| == 0 then [] else EncodeBlockEnd(EncodeBlocks(Start, bytes, charsPerLine), charsPerLine)
  }

  // Reference encoding

  /** One quantum of section 4 of RFC 4648: up to three bytes read as a 24-bit number, split
      into four 6-bit values, with "=" for each value that holds no input bits. */
  function Quantum(g: seq<byte>): (r: seq<byte>)
    requires 1 <= |g| <= 3
    ensures |r| == 4
  {
    var n := g[0] as int * 65536 + (if |g| > 1 then g[1] as int * 256 else 0) + (if |g| > 2 then g[2] as int else 0);
    var first := EncodeValue(n / 262144);
    var second := EncodeValue(n / 4096 % 64);
    if |g| == 1 then [first, second, Padding, Padding]
    else if |g| == 2 then [first, second, EncodeValue(n / 64 % 64), Padding]
    else [first, second, EncodeValue(n / 64 % 64), EncodeValue(n % 64)]
  }

  /** The unwrapped encoding of section 4 of RFC 4648, one quantum per three bytes. */
  function Reference(x: seq<byte>): seq<byte>
    decreases |x|
  {
    if |x| == 0 then []
    else if |x| <= 3 then Quantum(x)
    else Quantum(x[..3]) + Reference(x[3..])
  }

  /** `s` cut into lines: the first after `k` characters, then every `w`; each full line ends
      with a newline and the remainder has none. */
  function Lines(s: seq<byte>, w: nat, k: nat): (r: seq<byte>)
    requires 0 < w && 0 < k
    decreases |s|
  {
    if |s| < k then s else s[..k] + [Newline] + Lines(s[k..], w, w)
  }

  /** The wrapped encoding: the full quanta with a newline after every `groups` of them (none
      when `groups` is not positive), then the padded last quantum and a final newline. */
  function WrappedReference(x: seq<byte>, groups: int): seq<byte>
  {
    var full := 3 * Groups(x);
    var body := Reference(x[..full]);
    (if groups > 0 then Lines(body, 4 * groups, 4 * groups) else body) + Reference(x[full..]) + [Newline]
  }

  /** The number of whole 3-byte groups. */
  function Groups(x: seq<byte>): (r: nat)
    ensures 3 * r <= |x| < 3 * r + 3
    decreases |x|
  {
    if |x| < 3 then 0 else 1 + Groups(x[3..])
  }

  /** The whole groups are `|x| / 3`. */
  lemma GroupsDiv(x: seq<byte>)
    ensures Groups(x) == |x| / 3
  {
    var q := Groups(x);
    DivModUnique(|x|, 3, q, |x| - 3 * q);
  }

  /** The bytes with every newline removed. */
  function Strip(s: seq<byte>): (r: seq<byte>)
    ensures |r| <= |s|
    ensures forall i :: 0 <= i < |r| ==> r[i] != Newline
  {
    if |s| == 0 then [] else (if s[0] == Newline then [] else [s[0]]) + Strip(s[1..])
  }

  // Arithmetic of one quantum

  /** The four 6-bit values of a 24-bit group, as the encoder's masks and shifts take them. */
  lemma QuantumDigits(a: nat, b: nat, c: nat)
    requires a < 256 && b < 256 && c < 256
    ensures var n := a * 65536 + b * 256 + c;
            && n / 262144 == a / 4
            && n / 4096 % 64 == a % 4 * 16 + b / 16
            && n / 64 % 64 == b % 16 * 4 + c / 64
            && n % 64 == c % 64
  {
    var n := a * 65536 + b * 256 + c;
    DivModUnique(n, 262144, a / 4, a % 4 * 65536 + b * 256 + c);
    DivModUnique(n, 4096, a * 16 + b / 16, b % 16 * 256 + c);
    DivModUnique(a * 16 + b / 16, 64, a / 4, a % 4 * 16 + b / 16);
    DivModUnique(n, 64, a * 1024 + b * 4 + c / 64, c % 64);
    DivModUnique(a * 1024 + b * 4 + c / 64, 64, a * 16 + b / 16, b % 16 * 4 + c / 64);
  }

  /** A quantum of three bytes in terms of their bit fields. */
  lemma QuantumThree(g: seq<byte>)
    requires |g| == 3
    ensures var a, b, c := g[0] as int, g[1] as int, g[2] as int;
            Quantum(g)
            == [EncodeValue(a / 4), EncodeValue(a % 4 * 16 + b / 16), EncodeValue(b % 16 * 4 + c / 64), EncodeValue(c % 64)]
  {
    QuantumDigits(g[0] as int, g[1] as int, g[2] as int);
  }

  /** A quantum of two bytes in terms of their bit fields. */
  lemma QuantumTwo(g: seq<byte>)
    requires |g| == 2
    ensures var a, b := g[0] as int, g[1] as int;
            Quantum(g) == [EncodeValue(a / 4), EncodeValue(a % 4 * 16 + b / 16), EncodeValue(b % 16 * 4), Padding]
  {
    QuantumDigits(g[0] as int, g[1] as int, 0);
  }

  /** A quantum of one byte in terms of its bit fields. */
  lemma QuantumOne(g: seq<byte>)
    requires |g| == 1
    ensures var a := g[0] as int;
            Quantum(g) == [EncodeValue(a / 4), EncodeValue(a % 4 * 16), Padding, Padding]
  {
    QuantumDigits(g[0] as int, 0, 0);
  }

  /** A quantum holds one character per started 6 bits, then padding. */
  lemma QuantumAlphabet(g: seq<byte>)
    requires 1 <= |g| <= 3
    ensures forall i :: 0 <= i < 4 ==> (i <= |g| <==> IsDigit(Quantum(g)[i])) && (i > |g| <==> Quantum(g)[i] == Padding)
  {
    var a := g[0] as int;
    var b := if |g| > 1 then g[1] as int else 0;
    var c := if |g| > 2 then g[2] as int else 0;
    var n := a * 65536 + b * 256 + c;
    EncodeValueAlphabet(n / 262144);
    EncodeValueAlphabet(n / 4096 % 64);
    EncodeValueAlphabet(n / 64 % 64);
    EncodeValueAlphabet(n % 64);
  }

  /** The encoding has 4 characters per started group of 3 bytes. */
  lemma {:induction false} ReferenceLength(x: seq<byte>)
    ensures |Reference(x)| == 4 * ((|x| + 2) / 3)
    decreases |x|
  {
    if |x| > 3 {
      ReferenceLength(x[3..]);
    }
  }

  /** The encoding uses only the alphabet and the padding character. */
  lemma {:induction false} ReferenceAlphabet(x: seq<byte>)
    ensures forall i :: 0 <= i < |Reference(x)| ==> IsDigit(Reference(x)[i]) || Reference(x)[i] == Padding
    decreases |x|
  {
    if 0 < |x| <= 3 {
      QuantumAlphabet(x);
    } else if |x| > 3 {
      QuantumAlphabet(x[..3]);
      ReferenceAlphabet(x[3..]);
    }
  }

  // The machine against the reference

  /** The state after the three steps of one group. */
  function AfterGroup(e: Encoder, g: seq<byte>, charsPerLine: Option<int>): Encoder
    requires |g| == 3
  {
    var q := e.output + Quantum(g);
    var last := g[2] as int % 64;
    if charsPerLine.None? then Encoder(A, last, e.stepcount, q)
    else if e.stepcount + 1 == LineGroups(charsPerLine.value) then Encoder(A, last, 0, q + [Newline])
    else Encoder(A, last, e.stepcount + 1, q)
  }

  /** Three steps from the start of a group write one quantum and, when wrapping, count a group
      and end the line after the last group of a line. */
  lemma GroupBlocks(e: Encoder, g: seq<byte>, charsPerLine: Option<int>)
    requires e.step == A && |g| == 3
    ensures EncodeBlock(EncodeBlock(EncodeBlock(e, g[0], charsPerLine), g[1], charsPerLine), g[2], charsPerLine)
         == AfterGroup(e, g, charsPerLine)
  {
    QuantumThree(g);
  }

  lemma EncodeBlocksCons(e: Encoder, x: seq<byte>, charsPerLine: Option<int>)
    requires Pending(e) && |x| > 0
    ensures EncodeBlocks(e, x, charsPerLine) == EncodeBlocks(EncodeBlock(e, x[0], charsPerLine), x[1..], charsPerLine)
  {
  }

  /** Three bytes from the start of a group. */
  lemma GroupStep(e: Encoder, x: seq<byte>, charsPerLine: Option<int>)
    requires e.step == A && |x| >= 3
    ensures EncodeBlocks(e, x, charsPerLine) == EncodeBlocks(AfterGroup(e, x[..3], charsPerLine), x[3..], charsPerLine)
  {
    var e1 := EncodeBlock(e, x[0], charsPerLine);
    var e2 := EncodeBlock(e1, x[1], charsPerLine);
    EncodeBlocksCons(e, x, charsPerLine);
    EncodeBlocksCons(e1, x[1..], charsPerLine);
    EncodeBlocksCons(e2, x[2..], charsPerLine);
    assert x[1..][1..] == x[2..] && x[2..][1..] == x[3..];
    GroupBlocks(e, x[..3], charsPerLine);
  }

  /** One byte from the start of a group: two characters and two paddings. */
  lemma TailOne(e: Encoder, x: seq<byte>, charsPerLine: Option<int>)
    requires e.step == A && |x| == 1
    ensures EncodeBlockEnd(EncodeBlocks(e, x, charsPerLine), charsPerLine)
         == e.output + Quantum(x) + (if charsPerLine.Some? then [Newline] else [])
  {
    QuantumOne(x);
    var e1 := EncodeBlock(e, x[0], charsPerLine);
    EncodeBlocksCons(e, x, charsPerLine);
    assert x[1..] == [];
    assert EncodeBlocks(e, x, charsPerLine) == e1;
    assert e1.output + Padded(e1) == e.output + Quantum(x);
  }

  /** Two bytes from the start of a group: three characters and one padding. */
  lemma TailTwo(e: Encoder, x: seq<byte>, charsPerLine: Option<int>)
    requires e.step == A && |x| == 2
    ensures EncodeBlockEnd(EncodeBlocks(e, x, charsPerLine), charsPerLine)
         == e.output + Quantum(x) + (if charsPerLine.Some? then [Newline] else [])
  {
    QuantumTwo(x);
    var e1 := EncodeBlock(e, x[0], charsPerLine);
    var e2 := EncodeBlock(e1, x[1], charsPerLine);
    EncodeBlocksCons(e, x, charsPerLine);
    EncodeBlocksCons(e1, x[1..], charsPerLine);
    assert x[1..][1..] == [];
    assert EncodeBlocks(e, x, charsPerLine) == e2;
    assert e2.output + Padded(e2) == e.output + Quantum(x);
  }

  /** Fewer than three bytes from the start of a group end in one padded quantum. */
  lemma TailEnd(e: Encoder, x: seq<byte>, charsPerLine: Option<int>)
    requires e.step == A && |x| < 3
    ensures EncodeBlockEnd(EncodeBlocks(e, x, charsPerLine), charsPerLine)
         == e.output + Reference(x) + (if charsPerLine.Some? then [Newline] else [])
  {
    if |x| == 1 {
      TailOne(e, x, charsPerLine);
    } else if |x| == 2 {
      TailTwo(e, x, charsPerLine);
    }
  }

  /** The reference encoding of a group followed by more bytes. */
  lemma ReferenceCons(x: seq<byte>)
    requires |x| >= 3
    ensures Reference(x) == Quantum(x[..3]) + Reference(x[3..])
  {
    if |x| == 3 {
      assert x[..3] == x;
    }
  }

  /** Without wrapping the machine writes the reference encoding. */
  lemma {:induction false} RunUnwrapped(e: Encoder, x: seq<byte>)
    requires e.step == A
    ensures EncodeBlockEnd(EncodeBlocks(e, x, None), None) == e.output + Reference(x)
    decreases |x|
  {
    if |x| < 3 {
      TailEnd(e, x, None);
    } else {
      GroupStep(e, x, None);
      RunUnwrapped(AfterGroup(e, x[..3], None), x[3..]);
      ReferenceCons(x);
      BytesAssoc(e.output, Quantum(x[..3]), Reference(x[3..]));
    }
  }

  /** Without line wrapping the output is exactly the encoding of section 4 of RFC 4648. */
  lemma EncodeUnwrapped(x: seq<byte>)
    ensures EncodeBytes(x, None) == Reference(x)
  {
    if |x| > 0 {
      RunUnwrapped(Start, x);
    }
  }

  /** Cutting lines after a leading quantum. */
  lemma LinesAfterQuantum(q: seq<byte>, t: seq<byte>, w: nat, k: nat)
    requires |q| == 4 && 0 < w && 4 <= k
    ensures k == 4 ==> Lines(q + t, w, k) == q + [Newline] + Lines(t, w, w)
    ensures k > 4 ==> Lines(q + t, w, k) == q + Lines(t, w, k - 4)
  {
    var s := q + t;
    if k == 4 {
      assert s[..4] == q && s[4..] == t;
    } else if |s| >= k {
      assert s[..k] == q + t[..k - 4];
      assert s[k..] == t[k - 4..];
    }
  }

  /** How the whole groups of `x` and of `x[3..]` line up. */
  lemma GroupsSlices(x: seq<byte>)
    requires |x| >= 3
    ensures var full := 3 * Groups(x);
            var rest := x[3..];
            var fullRest := 3 * Groups(rest);
            && full == fullRest + 3
            && x[..full][..3] == x[..3]
            && x[..full][3..] == rest[..fullRest]
            && x[full..] == rest[fullRest..]
  {
    var rest := x[3..];
    var fullRest := 3 * Groups(rest);
    var full := fullRest + 3;
    assert 3 * Groups(x) == full;
    var y := x[..full];
    assert y[..3] == x[..3];
    assert forall i :: 0 <= i < fullRest ==> y[3..][i] == rest[..fullRest][i];
    assert forall i :: 0 <= i < |x| - full ==> x[full..][i] == rest[fullRest..][i];
  }

  /** The whole groups of bytes following a whole group. */
  lemma GroupsCons(x: seq<byte>)
    requires |x| >= 3
    ensures var full := 3 * Groups(x);
            var rest := x[3..];
            var fullRest := 3 * Groups(rest);
            && full == fullRest + 3
            && Reference(x[..full]) == Quantum(x[..3]) + Reference(rest[..fullRest])
            && x[full..] == rest[fullRest..]
  {
    GroupsSlices(x);
    ReferenceCons(x[..3 * Groups(x)]);
  }

  /** One group's quantum moved from the encoded text into the output, with the newline that
      ends a full line. */
  lemma WrapStep(out: seq<byte>, q: seq<byte>, body: seq<byte>, g: int, sc: int)
    requires |q| == 4 && 0 <= sc && (g > 0 ==> sc < g)
    ensures var out' := if sc + 1 == g then out + q + [Newline] else out + q;
            var sc' := if sc + 1 == g then 0 else sc + 1;
            out' + (if g > 0 then Lines(body, 4 * g, 4 * (g - sc')) else body)
            == out + (if g > 0 then Lines(q + body, 4 * g, 4 * (g - sc)) else q + body)
  {
    if sc + 1 == g {
      LinesAfterQuantum(q, body, 4 * g, 4);
      var rest := Lines(body, 4 * g, 4 * g);
      BytesAssoc(out, q, [Newline]);
      BytesAssoc(out + q, [Newline], rest);
      BytesAssoc(out, q, [Newline] + rest);
      BytesAssoc(q, [Newline], rest);
    } else if g > 0 {
      LinesAfterQuantum(q, body, 4 * g, 4 * (g - sc));
      BytesAssoc(out, q, Lines(body, 4 * g, 4 * (g - sc) - 4));
    } else {
      BytesAssoc(out, q, body);
    }
  }

  /** The wrapped text the machine produces from the start of a group with `stepcount` full
      groups already on the line. */
  function WrappedFrom(e: Encoder, x: seq<byte>, g: int): seq<byte>
    requires 0 <= e.stepcount && (g > 0 ==> e.stepcount < g)
  {
    var full := 3 * Groups(x);
    var body := Reference(x[..full]);
    e.output + (if g > 0 then Lines(body, 4 * g, 4 * (g - e.stepcount)) else body)
    + Reference(x[full..]) + [Newline]
  }

  /** Fewer than three bytes fill no line. */
  lemma WrappedFromTail(e: Encoder, x: seq<byte>, g: int)
    requires 0 <= e.stepcount && (g > 0 ==> e.stepcount < g) && |x| < 3
    ensures WrappedFrom(e, x, g) == e.output + Reference(x) + [Newline]
  {
    var full := 3 * Groups(x);
    assert x[..full] == [] && x[full..] == x;
    var body: seq<byte> := Reference([]);
    var lined := if g > 0 then Lines(body, 4 * g, 4 * (g - e.stepcount)) else body;
    assert lined == [];
    assert e.output + lined == e.output;
  }

  /** The output after a group, followed by the lines still to come, is the output before it
      followed by the lines that start with the group's quantum. */
  lemma AfterGroupWraps(e: Encoder, group: seq<byte>, body: seq<byte>, charsPerLine: int)
    requires |group| == 3
    requires var g := LineGroups(charsPerLine); 0 <= e.stepcount && (g > 0 ==> e.stepcount < g)
    ensures var g := LineGroups(charsPerLine);
            var e' := AfterGroup(e, group, Some(charsPerLine));
            var q := Quantum(group);
            && 0 <= e'.stepcount && (g > 0 ==> e'.stepcount < g)
            && e'.output + (if g > 0 then Lines(body, 4 * g, 4 * (g - e'.stepcount)) else body)
               == e.output + (if g > 0 then Lines(q + body, 4 * g, 4 * (g - e.stepcount)) else q + body)
  {
    WrapStep(e.output, Quantum(group), body, LineGroups(charsPerLine), e.stepcount);
  }

  /** Moving one group's quantum into the output leaves the wrapped text as it was. */
  lemma WrappedFromStep(e: Encoder, x: seq<byte>, charsPerLine: int)
    requires var g := LineGroups(charsPerLine); 0 <= e.stepcount && (g > 0 ==> e.stepcount < g)
    requires |x| >= 3
    ensures var g := LineGroups(charsPerLine);
            var e' := AfterGroup(e, x[..3], Some(charsPerLine));
            && 0 <= e'.stepcount && (g > 0 ==> e'.stepcount < g)
            && WrappedFrom(e', x[3..], g) == WrappedFrom(e, x, g)
  {
    var g := LineGroups(charsPerLine);
    GroupsCons(x);
    var rest := x[3..];
    var body := Reference(rest[..3 * Groups(rest)]);
    var tail := Reference(rest[3 * Groups(rest)..]);
    var e' := AfterGroup(e, x[..3], Some(charsPerLine));
    AfterGroupWraps(e, x[..3], body, charsPerLine);
    var lined := e'.output + (if g > 0 then Lines(body, 4 * g, 4 * (g - e'.stepcount)) else body);
    assert WrappedFrom(e', rest, g) == lined + tail + [Newline];
  }

  /** How the machine wraps lines, from the start of a group with `stepcount` full groups
      already on the line. */
  lemma {:induction false} RunWrapped(e: Encoder, x: seq<byte>, charsPerLine: int)
    requires e.step == A
    requires var g := LineGroups(charsPerLine); 0 <= e.stepcount && (g > 0 ==> e.stepcount < g)
    ensures EncodeBlockEnd(EncodeBlocks(e, x, Some(charsPerLine)), Some(charsPerLine))
         == WrappedFrom(e, x, LineGroups(charsPerLine))
    decreases |x|
  {
    if |x| < 3 {
      TailEnd(e, x, Some(charsPerLine));
      WrappedFromTail(e, x, LineGroups(charsPerLine));
    } else {
      GroupStep(e, x, Some(charsPerLine));
      WrappedFromStep(e, x, charsPerLine);
      RunWrapped(AfterGroup(e, x[..3], Some(charsPerLine)), x[3..], charsPerLine);
    }
  }

  /** With line wrapping, a newline follows every `charsPerLine / 4` full groups, and the output
      ends with a newline. */
  lemma EncodeWrapped(x: seq<byte>, charsPerLine: int)
    requires |x| > 0
    ensures EncodeBytes(x, Some(charsPerLine)) == WrappedReference(x, LineGroups(charsPerLine))
  {
    RunWrapped(Start, x, charsPerLine);
  }

  // Lengths and newlines

  /** The number of characters with the newlines the cut adds. */
  lemma {:induction false} LinesLength(s: seq<byte>, w: nat, k: nat)
    requires 0 < w && 0 < k
    ensures |Lines(s, w, k)| == |s| + (if |s| < k then 0 else 1 + (|s| - k) / w)
    decreases |s|
  {
    if |s| >= k {
      LinesLength(s[k..], w, w);
      var m := |s| - k;
      if m >= w {
        DivModUnique(m, w, 1 + (m - w) / w, (m - w) % w);
      } else {
        DivModUnique(m, w, 0, m);
      }
    }
  }

  /** The reference encoding of `n` whole groups and of what follows them. */
  lemma {:induction false} ReferenceSplit(x: seq<byte>, n: nat)
    requires 3 * n <= |x|
    ensures Reference(x) == Reference(x[..3 * n]) + Reference(x[3 * n..])
    decreases n
  {
    var k := 3 * n;
    if n == 0 {
      assert x[k..] == x;
    } else {
      var q := Quantum(x[..3]);
      var rest := x[3..];
      ReferenceCons(x);
      ReferenceSplit(rest, n - 1);
      assert x[..k][..3] == x[..3];
      assert x[..k][3..] == rest[..k - 3];
      assert rest[k - 3..] == x[k..];
      ReferenceCons(x[..k]);
      BytesAssoc(q, Reference(rest[..k - 3]), Reference(x[k..]));
    }
  }

  /** Without wrapping the output has 4 characters per started group of 3 bytes. */
  lemma UnwrappedLength(x: seq<byte>)
    ensures |EncodeBytes(x, None)| == 4 * ((|x| + 2) / 3)
  {
    EncodeUnwrapped(x);
    ReferenceLength(x);
  }

  /** The newlines in `q` groups cut every `g` groups. */
  lemma NewlineCount(q: nat, g: nat)
    requires g > 0
    ensures (if 4 * q < 4 * g then 0 else 1 + (4 * q - 4 * g) / (4 * g)) == q / g
  {
    if q >= g {
      DivModUnique(4 * q - 4 * g, 4 * g, q / g - 1, 4 * (q % g));
    } else {
      DivModUnique(q, g, 0, q);
    }
  }

  /** The whole groups take 4 characters each, and the rest of the encoding follows them. */
  lemma PartsLength(x: seq<byte>)
    ensures var full := 3 * Groups(x);
            && |Reference(x[..full])| == 4 * Groups(x)
            && |Reference(x[..full])| + |Reference(x[full..])| == 4 * ((|x| + 2) / 3)
  {
    var q := Groups(x);
    ReferenceSplit(x, q);
    ReferenceLength(x);
    ReferenceLength(x[..3 * q]);
    DivModUnique(3 * q + 2, 3, q, 2);
  }

  lemma WrappedReferenceLength(x: seq<byte>, g: int)
    ensures |WrappedReference(x, g)| == 4 * ((|x| + 2) / 3) + (if g > 0 then |x| / 3 / g else 0) + 1
  {
    var q := Groups(x);
    var body := Reference(x[..3 * q]);
    GroupsDiv(x);
    PartsLength(x);
    if g > 0 {
      LinesLength(body, 4 * g, 4 * g);
      NewlineCount(q, g);
    }
  }

  /** With wrapping, the newlines are one per `charsPerLine / 4` full groups (when that is
      positive) plus the final one. */
  lemma WrappedLength(x: seq<byte>, charsPerLine: int)
    requires |x| > 0
    ensures var g := LineGroups(charsPerLine);
            |EncodeBytes(x, Some(charsPerLine))|
            == 4 * ((|x| + 2) / 3) + (if g > 0 then |x| / 3 / g else 0) + 1
  {
    EncodeWrapped(x, charsPerLine);
    WrappedReferenceLength(x, LineGroups(charsPerLine));
  }

  lemma {:induction false} StripAppend(s: seq<byte>, t: seq<byte>)
    ensures Strip(s + t) == Strip(s) + Strip(t)
    decreases |s|
  {
    if |s| == 0 {
      assert s + t == t;
    } else {
      assert (s + t)[1..] == s[1..] + t;
      StripAppend(s[1..], t);
    }
  }

  /** Text without newlines is left alone by Strip. */
  lemma {:induction false} StripPlain(s: seq<byte>)
    requires forall i :: 0 <= i < |s| ==> s[i] != Newline
    ensures Strip(s) == s
    decreases |s|
  {
    if |s| > 0 {
      StripPlain(s[1..]);
    }
  }

  /** One line and its newline lose only the newline. */
  lemma StripLine(s: seq<byte>)
    requires forall i :: 0 <= i < |s| ==> s[i] != Newline
    ensures Strip(s + [Newline]) == s
  {
    StripAppend(s, [Newline]);
    StripPlain(s);
    assert Strip([Newline]) == [];
  }

  lemma {:induction false} StripLines(s: seq<byte>, w: nat, k: nat)
    requires 0 < w && 0 < k
    requires forall i :: 0 <= i < |s| ==> s[i] != Newline
    ensures Strip(Lines(s, w, k)) == s
    decreases |s|
  {
    if |s| < k {
      StripPlain(s);
    } else {
      StripAppend(s[..k] + [Newline], Lines(s[k..], w, w));
      StripLine(s[..k]);
      StripLines(s[k..], w, w);
      assert s[..k] + s[k..] == s;
    }
  }

  /** The plain encoding holds no newline. */
  lemma ReferencePlain(x: seq<byte>)
    ensures forall i :: 0 <= i < |Reference(x)| ==> Reference(x)[i] != Newline
  {
    ReferenceAlphabet(x);
  }

  /** The plain encoding of `x`, whether or not it is broken into lines, loses its newlines to
      Strip. */
  lemma StripWrappedBody(x: seq<byte>, g: int)
    ensures Strip(if g > 0 then Lines(Reference(x), 4 * g, 4 * g) else Reference(x)) == Reference(x)
  {
    ReferencePlain(x);
    if g > 0 {
      StripLines(Reference(x), 4 * g, 4 * g);
    } else {
      StripPlain(Reference(x));
    }
  }

  /** The wrapped layout with its newlines removed is the plain encoding. */
  lemma WrappedReferenceStrips(x: seq<byte>, g: int)
    ensures Strip(WrappedReference(x, g)) == Reference(x)
  {
    var full := 3 * Groups(x);
    var body := Reference(x[..full]);
    var tail := Reference(x[full..]);
    var lined := if g > 0 then Lines(body, 4 * g, 4 * g) else body;
    assert WrappedReference(x, g) == lined + tail + [Newline];
    StripAppend(lined + tail, [Newline]);
    StripAppend(lined, tail);
    StripWrappedBody(x[..full], g);
    ReferencePlain(x[full..]);
    StripPlain(tail);
    ReferenceSplit(x, Groups(x));
  }

  /** Wrapping only inserts newlines: removing them gives the unwrapped encoding. */
  lemma WrappedStrips(x: seq<byte>, charsPerLine: int)
    ensures Strip(EncodeBytes(x, Some(charsPerLine))) == EncodeBytes(x, None)
  {
    EncodeUnwrapped(x);
    if |x| > 0 {
      EncodeWrapped(x, charsPerLine);
      WrappedReferenceStrips(x, LineGroups(charsPerLine));
    }
  }
}
