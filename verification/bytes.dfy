/** Byte sequences and the big-endian integer helpers of Sources/Data.swift
    (`Data.init(number:)`, `Data.toInt(_:offset:)`). */
module Bytes {

  /** An octet, as Swift's `UInt8`. Bit tests are written arithmetically (`HasBit`, `Xor`). */
  newtype byte = x: int | 0 <= x < 256

  /** 256^k, the weight of a byte k places from the right. */
  function Pow256(k: nat): (r: nat)
    ensures r > 0
  {
    if k == 0 then 1 else 256 * Pow256(k - 1)
  }

  /** The `width` low-order bytes of `x`, most significant first. */
  function BigEndian(x: nat, width: nat): (r: seq<byte>)
    ensures |r| == width
    decreases width
  {
    if width == 0 then [] else BigEndian(x / 256, width - 1) + [(x % 256) as byte]
  }

  /** The value of a byte string read most significant byte first (Horner form). */
  function ToNat(s: seq<byte>): nat
  {
    if |s| == 0 then 0 else ToNat(s[..|s| - 1]) * 256 + s[|s| - 1] as nat
  }

  /** The positional sum  s[0]·256^(n-1) + … + s[n-1]·256^0  over the first `n` bytes,
      each byte weighted by its distance from the end of `s`. */
  function PositionalSum(s: seq<byte>, n: nat): nat
    requires n <= |s|
  {
    if n == 0 then 0 else PositionalSum(s, n - 1) + s[n - 1] as nat * Pow256(|s| - n)
  }

  /** `Data(number:)` for an unsigned integer type of `size` bytes. The source copies the
      value's memory in reverse, which on a little-endian host yields big-endian bytes. */
  function NumberBytes(x: nat, size: nat): (r: seq<byte>)
    requires x < Pow256(size)
    ensures |r| == size
    ensures ToNat(r) == x
    ensures size > 0 ==> r[0] as nat == x / Pow256(size - 1)
    ensures size > 0 ==> r[size - 1] as nat == x % 256
  {
    ToNatBigEndian(x, size);
    if size > 0 then
      BigEndianEnds(x, size);
      BigEndian(x, size)
    else []
  }

  /** The first byte of an in-range big-endian encoding is its leading digit, the last its
      lowest. */
  lemma BigEndianEnds(x: nat, w: nat)
    requires 0 < w && x < Pow256(w)
    ensures BigEndian(x, w)[0] as nat == x / Pow256(w - 1)
    ensures BigEndian(x, w)[w - 1] as nat == x % 256
  {
    var s := BigEndian(x, w);
    BigEndianDigit(x, w, w - 1);
    assert Pow256(0) == 1;
    assert x / Pow256(w - 1 - (w - 1)) == x;
    assert s[w - 1] as nat == x % 256;
    var p := Pow256(w - 1);
    assert Pow256(w) == p * 256;
    BigEndianDigit(x, w, 0);
    assert s[0] as nat == (x / p) % 256;
    LeadingDigit(x, p);
  }

  /** `Data.toInt(size, offset:)`: zero when `size` is outside 1...8 or the window
      `offset ..< offset+size` runs past the end, otherwise the big-endian value of the window. */
  function ToInt(s: seq<byte>, size: int, offset: nat): (r: nat)
    ensures r < Pow256(8)
    ensures 0 < size <= 8 && offset + size <= |s| ==> r == ToNat(s[offset..offset + size])
    ensures !(0 < size <= 8 && offset + size <= |s|) ==> r == 0
  {
    if 0 < size <= 8 && offset + size <= |s| then
      var w := s[offset..offset + size];
      ToNatBound(w);
      Pow256Monotone(size, 8);
      ToNatPositional(w);
      PositionalSum(w, size)
    else 0
  }

  lemma Pow256Monotone(a: nat, b: nat)
    requires a <= b
    ensures Pow256(a) <= Pow256(b)
  {
    if a < b {
      Pow256Monotone(a, b - 1);
    }
  }

  lemma Pow256Add(a: nat, b: nat)
    ensures Pow256(a + b) == Pow256(a) * Pow256(b)
  {
    if b > 0 {
      Pow256Add(a, b - 1);
    }
  }

  /** A string of `n` bytes denotes a value below 256^n. */
  lemma {:induction false} ToNatBound(s: seq<byte>)
    ensures ToNat(s) < Pow256(|s|)
  {
    if |s| > 0 {
      ToNatBound(s[..|s| - 1]);
    }
  }

  /** Division with remainder is unique. */
  lemma DivModUnique(x: int, m: int, q: int, r: int)
    requires m > 0 && 0 <= r < m && x == m * q + r
    ensures x / m == q && x % m == r
  {
    var q', r' := x / m, x % m;
    assert x == m * q' + r';
    assert m * (q - q') == r' - r by {
      assert m * (q - q') == m * q - m * q';
    }
    MulSign(m, q - q');
  }

  /** A positive multiple of `m` is at least `m`, a negative one at most `-m`. */
  lemma MulSign(m: int, d: int)
    requires m > 0
    ensures d >= 1 ==> m * d >= m
    ensures d <= -1 ==> m * d <= -m
  {
    if d >= 1 {
      assert m * d == m * (d - 1) + m;
      assert m * (d - 1) >= 0;
    } else if d <= -1 {
      assert m * d == m * (d + 1) - m;
      assert m * (d + 1) <= 0;
    }
  }

  /** Reading back `BigEndian(x, w)` yields the value of its `w` low-order bytes. */
  lemma {:induction false} ToNatBigEndian(x: nat, w: nat)
    ensures ToNat(BigEndian(x, w)) == x % Pow256(w)
    ensures x < Pow256(w) ==> ToNat(BigEndian(x, w)) == x
  {
    if w > 0 {
      var s := BigEndian(x, w);
      assert s[..w - 1] == BigEndian(x / 256, w - 1);
      ToNatBigEndian(x / 256, w - 1);
      assert ToNat(s) == (x / 256 % Pow256(w - 1)) * 256 + x % 256;
      ModShift(x, 256, Pow256(w - 1));
    }
    if x < Pow256(w) {
      DivModUnique(x, Pow256(w), 0, x);
    }
  }

  /** Peeling the lowest base-`b` digit off `x` commutes with reduction modulo b·p. */
  lemma ModShift(x: nat, b: nat, p: nat)
    requires b > 0 && p > 0
    ensures (x / b % p) * b + x % b == x % (b * p)
  {
    var q := x / b;
    var k, t := q / p, q % p;
    assert q == p * k + t;
    assert x == b * q + x % b;
    assert x == (b * p) * k + (t * b + x % b) by {
      assert b * q == b * (p * k) + b * t;
      assert b * (p * k) == (b * p) * k;
    }
    assert t * b + x % b < b * p by {
      MulSign(b, p - 1 - t);
      assert b * (p - 1 - t) == b * p - b - t * b;
    }
    DivModUnique(x, b * p, k, t * b + x % b);
  }

  /** The quotient of a value below 256·p by p is a single base-256 digit. */
  lemma LeadingDigit(x: nat, p: nat)
    requires p > 0 && x < p * 256
    ensures (x / p) % 256 == x / p
  {
    DivBelow(x, p, 256);
    DivModUnique(x / p, 256, 0, x / p);
  }

  /** A value below p·k divided by p is below k. */
  lemma DivBelow(x: nat, p: nat, k: nat)
    requires p > 0 && x < p * k
    ensures x / p < k
  {
    var hi := x / p;
    assert p * hi <= x;
    MulSign(p, hi - k + 1);
    assert p * (hi - k + 1) == p * hi - p * k + p;
  }

  /** Byte `i` of `BigEndian(x, w)` is digit `w-1-i` of `x` in base 256. */
  lemma {:induction false} BigEndianDigit(x: nat, w: nat, i: nat)
    requires i < w
    ensures BigEndian(x, w)[i] as nat == (x / Pow256(w - 1 - i)) % 256
  {
    var s := BigEndian(x, w);
    if i < w - 1 {
      assert s[i] == BigEndian(x / 256, w - 1)[i];
      BigEndianDigit(x / 256, w - 1, i);
      DivDiv(x, 256, Pow256(w - 2 - i));
      assert Pow256(w - 1 - i) == 256 * Pow256(w - 2 - i);
    } else {
      assert Pow256(0) == 1;
    }
  }

  lemma DivDiv(x: nat, a: nat, b: nat)
    requires a > 0 && b > 0
    ensures x / a / b == x / (a * b)
  {
    var y := x / a;
    var q, t, u := y / b, y % b, x % a;
    assert x == a * y + u;
    assert y == b * q + t;
    assert x == (a * b) * q + (a * t + u) by {
      assert a * y == a * (b * q) + a * t;
      assert a * (b * q) == (a * b) * q;
    }
    assert a * t + u < a * b by {
      assert a * t <= a * (b - 1) by {
        MulSign(a, (b - 1) - t);
        assert a * (b - 1) - a * t == a * ((b - 1) - t);
      }
      assert a * (b - 1) == a * b - a;
    }
    DivModUnique(x, a * b, q, a * t + u);
  }

  /** A byte string is the big-endian encoding of its own value. */
  lemma {:induction false} BigEndianToNat(s: seq<byte>)
    ensures BigEndian(ToNat(s), |s|) == s
  {
    if |s| > 0 {
      var init := s[..|s| - 1];
      BigEndianToNat(init);
      var v := ToNat(s);
      DivModUnique(v, 256, ToNat(init), s[|s| - 1] as nat);
      assert s == init + [s[|s| - 1]];
    }
  }

  /** Horner evaluation agrees with the positional sum the source's loop computes. */
  lemma {:induction false} ToNatPositional(s: seq<byte>)
    ensures ToNat(s) == PositionalSum(s, |s|)
  {
    if |s| > 0 {
      var init := s[..|s| - 1];
      ToNatPositional(init);
      PositionalScale(s, |s| - 1);
    }
  }

  /** Dropping the last byte divides each weight of the remaining prefix by 256. */
  lemma {:induction false} PositionalScale(s: seq<byte>, n: nat)
    requires 0 < |s| && n <= |s| - 1
    ensures PositionalSum(s, n) == PositionalSum(s[..|s| - 1], n) * 256
  {
    if n > 0 {
      var init := s[..|s| - 1];
      PositionalScale(s, n - 1);
      var d, p := s[n - 1] as nat, Pow256(|init| - n);
      assert init[n - 1] as nat == d;
      assert Pow256(|s| - n) == 256 * p;
      MulShift(d, p);
      assert PositionalSum(init, n) == PositionalSum(init, n - 1) + d * p;
    }
  }

  lemma MulShift(d: nat, p: nat)
    ensures d * (256 * p) == (d * p) * 256
  {
  }

  /** Big-endian encoding is injective below the width's range. */
  lemma BigEndianInjective(x: nat, y: nat, w: nat)
    requires x < Pow256(w) && y < Pow256(w)
    requires BigEndian(x, w) == BigEndian(y, w)
    ensures x == y
  {
    ToNatBigEndian(x, w);
    ToNatBigEndian(y, w);
  }

  // ---------------------------------------------------------------------------------------
  // Bits

  function Pow2(k: nat): (r: nat)
    ensures r > 0
  {
    if k == 0 then 1 else 2 * Pow2(k - 1)
  }

  /** `b & mask != 0` for a single-bit mask such as 0x80. */
  predicate HasBit(b: byte, mask: byte)
    requires mask > 0
  {
    (b as int / mask as int) % 2 == 1
  }

  /** Bitwise exclusive or of the low `n` bits of `a` and `b`. */
  function XorBits(a: nat, b: nat, n: nat): nat
  {
    if n == 0 then 0 else 2 * XorBits(a / 2, b / 2, n - 1) + (a % 2 + b % 2) % 2
  }

  /** The XOR of `n` bits is an `n`-bit value. */
  lemma {:induction false} XorBitsRange(a: nat, b: nat, n: nat)
    ensures XorBits(a, b, n) < Pow2(n)
  {
    if n > 0 {
      XorBitsRange(a / 2, b / 2, n - 1);
    }
  }

  /** One bit of `XorBits`: the low bit XORed in below the XOR of the upper bits. */
  lemma XorStep(a: nat, b: nat, n: nat, r: nat)
    requires n > 0 && XorBits(a / 2, b / 2, n - 1) == r
    ensures XorBits(a, b, n) == 2 * r + (a % 2 + b % 2) % 2
  {
  }

  /** `a ^ b` on octets. */
  function Xor(a: byte, b: byte): byte
  {
    XorBitsRange(a as nat, b as nat, 8);
    assert Pow2(8) == 256;
    XorBits(a as nat, b as nat, 8) as byte
  }

  /** XOR with the same operand twice restores the low `n` bits. */
  lemma {:induction false} XorBitsTwice(a: nat, k: nat, n: nat)
    ensures XorBits(XorBits(a, k, n), k, n) == a % Pow2(n)
  {
    if n == 0 {
      assert a % 1 == 0;
    } else {
      var p := Pow2(n - 1);
      var x' := XorBits(a / 2, k / 2, n - 1);
      var x := XorBits(a, k, n);
      var y := XorBits(x', k / 2, n - 1);
      XorBitsTwice(a / 2, k / 2, n - 1);
      assert XorBits(x, k, n) == 2 * y + a % 2 by {
        XorBitsHalves(a, k, n);
      }
      ModShift(a, 2, p);
    }
  }

  /** One step of the bitwise recursion on an already XORed value: its upper bits are the
      XOR of the upper bits, and its low bit cancels against `k`'s. */
  lemma XorBitsHalves(a: nat, k: nat, n: nat)
    requires n > 0
    ensures var x := XorBits(a, k, n);
            XorBits(x, k, n) == 2 * XorBits(XorBits(a / 2, k / 2, n - 1), k / 2, n - 1) + a % 2
  {
    var x', c := XorBits(a / 2, k / 2, n - 1), (a % 2 + k % 2) % 2;
    var x := XorBits(a, k, n);
    DivModUnique(x, 2, x', c);
    assert (c + k % 2) % 2 == a % 2;
  }

  /** XOR with a fixed octet is an involution. */
  lemma XorTwice(a: byte, k: byte)
    ensures Xor(Xor(a, k), k) == a
  {
    var p := Pow2(8);
    assert p == 256;
    var x := XorBits(a as nat, k as nat, 8);
    XorBitsRange(a as nat, k as nat, 8);
    assert Xor(a, k) as nat == x;
    XorBitsTwice(a as nat, k as nat, 8);
    assert Xor(Xor(a, k), k) as nat == XorBits(x, k as nat, 8);
    DivModUnique(a as nat, p, 0, a as nat);
  }

  lemma BytesAssoc(x: seq<byte>, y: seq<byte>, z: seq<byte>)
    ensures (x + y) + z == x + (y + z)
  {
  }
}
