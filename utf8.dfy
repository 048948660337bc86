/** Byte-to-text decoding as CPython performs it: `bytes.decode("utf-8",
    errors="replace")`, which substitutes one U+FFFD for every maximal ill-formed
    subpart (the Unicode "substitution of maximal subparts" practice), and
    `bytes.decode("latin-1")`, which maps every byte to the code point of the same
    value and never fails. */
module Utf8 {
  import opened Text

  const Replacement: char := '\U{FFFD}'

  predicate IsContinuation(b: byte) { 0x80 <= b <= 0xBF }

  /** The bounds on the second byte of a sequence led by `b0`
      (Table 3-7 of the Unicode Standard, "Well-Formed UTF-8 Byte Sequences"). */
  function SecondLow(b0: byte): byte
  {
    if b0 == 0xE0 then 0xA0 else if b0 == 0xF0 then 0x90 else 0x80
  }

  function SecondHigh(b0: byte): byte
  {
    if b0 == 0xED then 0x9F else if b0 == 0xF4 then 0x8F else 0xBF
  }

  /** Number of bytes in a well-formed sequence led by `b0`; 0 for a byte that
      cannot lead one. */
  function SequenceLength(b0: byte): (n: nat)
    ensures n <= 4
  {
    if b0 < 0x80 then 1
    else if 0xC2 <= b0 <= 0xDF then 2
    else if 0xE0 <= b0 <= 0xEF then 3
    else if 0xF0 <= b0 <= 0xF4 then 4
    else 0
  }

  /** The byte at `k` is an acceptable `k`-th byte of a sequence led by `d[0]`. */
  predicate Acceptable(d: seq<byte>, k: nat)
    requires 1 <= k < |d|
  {
    if k == 1 then SecondLow(d[0]) <= d[1] <= SecondHigh(d[0]) else IsContinuation(d[k])
  }

  /** How many leading bytes of `d`, after the lead byte, are acceptable, up to `n - 1`. */
  function AcceptedPrefix(d: seq<byte>, n: nat, k: nat): (j: nat)
    requires 1 <= k <= n
    ensures k <= j <= n && j <= Max(|d|, k)
    ensures forall i | k <= i < j :: i < |d| && Acceptable(d, i)
    ensures j < n ==> j >= |d| || !Acceptable(d, j)
    decreases n - k
  {
    if k == n || k >= |d| || !Acceptable(d, k) then k else AcceptedPrefix(d, n, k + 1)
  }

  /** The code point of the well-formed sequence `d[..n]` (`n` = 1 to 4). */
  function CodePoint(d: seq<byte>, n: nat): (c: char)
    requires 1 <= n <= 4 && n <= |d| && SequenceLength(d[0]) == n
    requires forall i | 1 <= i < n :: Acceptable(d, i)
  {
    if n == 1 then
      d[0] as char
    else if n == 2 then
      assert Acceptable(d, 1);
      ((d[0] as int - 0xC0) * 64 + (d[1] as int - 0x80)) as char
    else if n == 3 then
      assert Acceptable(d, 1) && Acceptable(d, 2);
      var cp := (d[0] as int - 0xE0) * 4096 + (d[1] as int - 0x80) * 64 + (d[2] as int - 0x80);
      assert d[0] == 0xED ==> cp <= 0xD7FF;
      assert d[0] <= 0xEC ==> cp < 0xD000;
      cp as char
    else
      assert Acceptable(d, 1) && Acceptable(d, 2) && Acceptable(d, 3);
      ((d[0] as int - 0xF0) * 262144 + (d[1] as int - 0x80) * 4096 + (d[2] as int - 0x80) * 64 + (d[3] as int - 0x80)) as char
  }

  /** One decoding step at the front of `d`: the character produced and the
      number of bytes it consumes. An ill-formed front yields one U+FFFD and
      consumes its maximal subpart (at least one byte). */
  function Step(d: seq<byte>): (r: (char, nat))
    requires |d| > 0
    ensures 1 <= r.1 <= |d| && r.1 <= 4
    ensures d[0] < 0x80 ==> r == (d[0] as char, 1)
  {
    var n := SequenceLength(d[0]);
    if n == 0 then (Replacement, 1)
    else
      var j := AcceptedPrefix(d, n, 1);
      if j == n then (CodePoint(d, n), n) else (Replacement, j)
  }

  /** `d.decode("utf-8", errors="replace")`. */
  function Decode(d: seq<byte>): (s: string)
    ensures |s| <= |d|
    decreases |d|
  {
    if |d| == 0 then [] else var (c, k) := Step(d); [c] + Decode(d[k..])
  }

  /** `d.decode("latin-1")`. */
  function Latin1(d: seq<byte>): (s: string)
    ensures |s| == |d|
    ensures forall i | 0 <= i < |d| :: s[i] as int == d[i]
  {
    if |d| == 0 then [] else [d[0] as char] + Latin1(d[1..])
  }

  predicate IsAscii(d: seq<byte>)
  {
    forall i | 0 <= i < |d| :: d[i] < 0x80
  }

  /** ASCII bytes decode one to one, with no replacement. */
  lemma {:induction false} DecodeAscii(d: seq<byte>)
    requires IsAscii(d)
    ensures Decode(d) == Latin1(d)
  {
    if |d| > 0 {
      assert Step(d) == (d[0] as char, 1);
      assert IsAscii(d[1..]) by {
        forall i | 0 <= i < |d| - 1 ensures d[1..][i] < 0x80 { assert d[1..][i] == d[i + 1]; }
      }
      DecodeAscii(d[1..]);
    }
  }

  /** A two-byte sequence that is well formed decodes to the one character it
      encodes; the same lead byte before an ASCII byte yields U+FFFD and keeps the
      ASCII byte. */
  lemma TwoByteExamples()
    ensures Decode([0xC3, 0xA9]) == "\U{E9}"
    ensures Decode([0xC3, 0x41]) == [Replacement, 'A']
  {
    var d := [0xC3, 0xA9];
    assert AcceptedPrefix(d, 2, 1) == 2;
    assert Decode(d) == [CodePoint(d, 2)] + Decode(d[2..]);
    var e := [0xC3, 0x41];
    assert AcceptedPrefix(e, 2, 1) == 1;
    assert e[1..] == [0x41];
    assert Decode(e[1..]) == ['A'] + Decode(e[2..]);
  }

  /** A truncated three-byte sequence is one maximal subpart: one U+FFFD. */
  lemma TruncatedSequence()
    ensures Decode([0xE2, 0x82]) == [Replacement]
  {
    var d := [0xE2, 0x82];
    assert AcceptedPrefix(d, 3, 1) == 2;
  }
}
