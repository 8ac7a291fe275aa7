/** The byte helpers of Sources/Extensions.swift: `bytesToUInt`, the hexadecimal renderings,
    `UInt16.bytes` / `UInt64.bytes` and `Array.unsafeLast`. Its `toInt(size:offset:)` is the
    same function as `Bytes.ToInt`. */
module Extensions {
  import opened Bytes

  /** `bytesToUInt`: the big-endian value of at most four bytes; the source asserts the bound. */
  function BytesToUInt(b: seq<byte>): (r: nat)
    requires |b| <= 4
    ensures r == ToNat(b)
    ensures r < Pow256(4)
  {
    ToNatPositional(b);
    ToNatBound(b);
    Pow256Monotone(|b|, 4);
    PositionalSum(b, |b|)
  }

  /** The lower-case hexadecimal digit of a value below 16, as `String(_:radix: 16)` writes it. */
  function HexDigit(d: nat): (c: char)
    requires d < 16
  {
    if d < 10 then ('0' as int + d) as char else ('a' as int + d - 10) as char
  }

  predicate IsHexDigit(c: char)
  {
    '0' <= c <= '9' || 'a' <= c <= 'f'
  }

  /** The value of a lower-case hexadecimal digit. */
  function HexValue(c: char): (d: nat)
    requires IsHexDigit(c)
    ensures d < 16 && HexDigit(d) == c
  {
    if '0' <= c <= '9' then c as int - '0' as int else c as int - 'a' as int + 10
  }

  /** `String(b, radix: 16)`: the shortest lower-case hexadecimal numeral of a byte. */
  function Radix16(b: byte): string
  {
    var v := b as int;
    if v < 16 then [HexDigit(v)] else [HexDigit(v / 16), HexDigit(v % 16)]
  }

  /** `UInt8.hexString`: always two lower-case digits, with a leading zero below 16. */
  function ByteHex(b: byte): (r: string)
    ensures |r| == 2 && IsHexDigit(r[0]) && IsHexDigit(r[1])
    ensures HexValue(r[0]) * 16 + HexValue(r[1]) == b as int
    ensures (b as int < 16) == (r[0] == '0')
  {
    var str := Radix16(b);
    if b as int < 16 then "0" + str else str
  }

  /** Collection `hexString`: the per-byte renderings joined without separator. */
  function HexString(s: seq<byte>): (r: string)
    ensures |r| == 2 * |s|
    ensures forall i :: 0 <= i < |r| ==> IsHexDigit(r[i])
  {
    if |s| == 0 then "" else ByteHex(s[0]) + HexString(s[1..])
  }

  /** Reads a string of hexadecimal digit pairs back into bytes. */
  function ParseHex(h: string): seq<byte>
    requires |h| % 2 == 0
    requires forall i :: 0 <= i < |h| ==> IsHexDigit(h[i])
  {
    if |h| == 0 then [] else
      [(HexValue(h[0]) * 16 + HexValue(h[1])) as byte] + ParseHex(h[2..])
  }

  /** Byte `i` of the input is rendered at positions 2i and 2i+1 of `HexString`. */
  lemma {:induction false} HexStringAt(s: seq<byte>, i: nat)
    requires i < |s|
    ensures HexString(s)[2 * i..2 * i + 2] == ByteHex(s[i])
  {
    if i > 0 {
      HexStringAt(s[1..], i - 1);
      assert HexString(s)[2 * i..2 * i + 2] == HexString(s[1..])[2 * (i - 1)..2 * (i - 1) + 2];
    }
  }

  /** Rendering in hexadecimal and parsing back is the identity. */
  lemma {:induction false} HexStringRoundTrip(s: seq<byte>)
    ensures ParseHex(HexString(s)) == s
  {
    if |s| > 0 {
      var h := HexString(s);
      assert h[2..] == HexString(s[1..]);
      HexStringRoundTrip(s[1..]);
      var b := ByteHex(s[0]);
      assert ParseHex(h)[0] == s[0];
    }
  }

  /** What `UInt16.bytes(totalBytes:)` and `UInt64.bytes(totalBytes:)` return for a value of
      `size` bytes: `totalBytes` cells whose first min(totalBytes, size) receive the value's
      low-order bytes, most significant first, and whose other cells stay zero. */
  function HostBytes(v: nat, size: nat, totalBytes: nat): (r: seq<byte>)
    ensures |r| == totalBytes
    ensures var k := if totalBytes > size then size else totalBytes;
            r[..k] == BigEndian(v, k) && ToNat(r[..k]) == v % Pow256(k)
    ensures forall i :: (if totalBytes > size then size else totalBytes) <= i < totalBytes ==> r[i] == 0
  {
    var k := if totalBytes > size then size else totalBytes;
    var r := BigEndian(v, k) + seq(totalBytes - k, i => 0);
    assert r[..k] == BigEndian(v, k);
    ToNatBigEndian(v, k);
    r
  }

  /** The copy loop of `bytes(totalBytes:)`: a zero array of `totalBytes` cells, then, for each
      j below min(totalBytes, size), cell min(totalBytes, size)-1-j receives the value's byte j
      counted from the least significant end (the little-endian memory image read backwards). */
  method CopyValueBytes(v: nat, size: nat, totalBytes: nat) returns (bytes: seq<byte>)
    ensures bytes == HostBytes(v, size, totalBytes)
  {
    var k := if totalBytes > size then size else totalBytes;
    bytes := seq(totalBytes, i => 0);
    for j := 0 to k
      invariant |bytes| == totalBytes
      invariant forall i :: k - j <= i < k ==> bytes[i] == BigEndian(v, k)[i]
      invariant forall i :: 0 <= i < k - j || k <= i < totalBytes ==> bytes[i] == 0
    {
      BigEndianDigit(v, k, k - 1 - j);
      bytes := bytes[k - 1 - j := ((v / Pow256(j)) % 256) as byte];
    }
    var h := HostBytes(v, size, totalBytes);
    assert forall i :: 0 <= i < k ==> bytes[i] == h[..k][i];
  }

  /** `Data(number:)` (in Sources/Data.swift and again in Sources/Socket.swift) runs the same copy
      loop with `totalBytes` equal to the type's size: for an in-range value it yields the
      value's full big-endian encoding. */
  lemma NumberBytesCopy(v: nat, size: nat)
    requires v < Pow256(size)
    ensures HostBytes(v, size, size) == NumberBytes(v, size)
  {
    var h := HostBytes(v, size, size);
    assert h == h[..size];
    ToNatBigEndian(v, size);
  }

  /** Reading back what `Data(number:)` wrote, with `toInt` of the same width at offset 0, gives
      the value: the pair the frame codec relies on for its 16- and 64-bit lengths. */
  lemma NumberBytesToInt(v: nat, size: nat)
    requires 0 < size <= 8 && v < Pow256(size)
    ensures ToInt(NumberBytes(v, size), size, 0) == v
  {
    var r := NumberBytes(v, size);
    assert r[0..size] == r;
  }

  type uint16 = x: nat | x < 0x1_0000
  type uint64 = x: nat | x < 0x1_0000_0000_0000_0000

  /** `UInt16.bytes(totalBytes:)`. */
  function UInt16Bytes(v: uint16, totalBytes: nat): (r: seq<byte>)
    ensures |r| == totalBytes
    ensures totalBytes == 2 ==> ToInt(r, 2, 0) == v
  {
    var r := HostBytes(v, 2, totalBytes);
    if totalBytes == 2 then
      assert r[..2] == r;
      assert Pow256(2) == 0x1_0000;
      DivModUnique(v, Pow256(2), 0, v);
      r
    else r
  }

  /** `UInt64.bytes(totalBytes:)`. */
  function UInt64Bytes(v: uint64, totalBytes: nat): (r: seq<byte>)
    ensures |r| == totalBytes
    ensures totalBytes == 8 ==> ToInt(r, 8, 0) == v
  {
    var r := HostBytes(v, 8, totalBytes);
    if totalBytes == 8 then
      assert r[..8] == r;
      assert Pow256(8) == 0x1_0000_0000_0000_0000;
      DivModUnique(v, Pow256(8), 0, v);
      r
    else r
  }

  /** The getter of `Array.unsafeLast`; the source traps on an empty array. */
  function UnsafeLast<T>(a: seq<T>): (r: T)
    requires |a| > 0
    ensures r in a
  {
    a[|a| - 1]
  }

  /** The setter of `Array.unsafeLast`. */
  function SetUnsafeLast<T>(a: seq<T>, v: T): (r: seq<T>)
    requires |a| > 0
    ensures |r| == |a|
    ensures UnsafeLast(r) == v
    ensures r[..|a| - 1] == a[..|a| - 1]
  {
    a[|a| - 1 := v]
  }
}
