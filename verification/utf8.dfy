/** UTF-8 well-formedness, standing in for the decoding `String(data:)` performs: the
    connection only asks whether a byte string decodes. */
module Utf8 {
  import opened Bytes

  predicate IsContinuation(b: byte)
  {
    0x80 <= b <= 0xBF
  }

  /** Length of the well-formed sequence that starts with lead byte `b` and continues with
      `s`, or 0 when no well-formed sequence starts there (Unicode Table 3-7). */
  function SequenceLength(s: seq<byte>): (n: nat)
    ensures n <= |s|
  {
    if |s| == 0 then 0
    else
      var b := s[0];
      if b <= 0x7F then 1
      else if 0xC2 <= b <= 0xDF then
        if |s| >= 2 && IsContinuation(s[1]) then 2 else 0
      else if 0xE0 <= b <= 0xEF then
        var lo: byte := if b == 0xE0 then 0xA0 else 0x80;
        var hi: byte := if b == 0xED then 0x9F else 0xBF;
        if |s| >= 3 && lo <= s[1] <= hi && IsContinuation(s[2]) then 3 else 0
      else if 0xF0 <= b <= 0xF4 then
        var lo: byte := if b == 0xF0 then 0x90 else 0x80;
        var hi: byte := if b == 0xF4 then 0x8F else 0xBF;
        if |s| >= 4 && lo <= s[1] <= hi && IsContinuation(s[2]) && IsContinuation(s[3]) then 4 else 0
      else 0
  }

  /** The byte string is a concatenation of well-formed UTF-8 sequences. */
  predicate ValidUtf8(s: seq<byte>)
    decreases |s|
  {
    |s| == 0 || (SequenceLength(s) > 0 && ValidUtf8(s[SequenceLength(s)..]))
  }

  /** Well-formed UTF-8 is closed under concatenation. */
  lemma {:induction false} ValidUtf8Concat(a: seq<byte>, b: seq<byte>)
    requires ValidUtf8(a) && ValidUtf8(b)
    ensures ValidUtf8(a + b)
    decreases |a|
  {
    if |a| > 0 {
      var n := SequenceLength(a);
      assert SequenceLength(a + b) == n by {
        assert (a + b)[..n] == a[..n];
        SequenceLengthPrefix(a, a + b);
      }
      ValidUtf8Concat(a[n..], b);
      assert (a + b)[n..] == a[n..] + b;
    } else {
      assert a + b == b;
    }
  }

  /** A well-formed leading sequence is recognised the same way in any extension. */
  lemma SequenceLengthPrefix(a: seq<byte>, c: seq<byte>)
    requires SequenceLength(a) > 0
    requires |c| >= |a| && c[..|a|] == a
    ensures SequenceLength(c) == SequenceLength(a)
  {
    var n := SequenceLength(a);
    assert forall i :: 0 <= i < n ==> c[i] == a[i] by {
      forall i | 0 <= i < n
        ensures c[i] == a[i]
      {
        assert c[..|a|][i] == c[i];
      }
    }
  }
}
