/** The bot's Telnet command stripper (`strip_telnet_iac`). Command bytes are
    those of RFC 854 (Telnet Protocol Specification): IAC = 255 introduces a
    command, WILL/WONT/DO/DONT = 251..254 take one option byte; RFC 855 (Telnet
    Option Specifications) brackets subnegotiation between IAC SB (250) and
    IAC SE (240). The stripper departs from RFC 855 in one respect: inside a
    subnegotiation an IAC IAC pair is not read as an escaped data byte, so the
    block ends at the first IAC SE pair wherever it begins. */
module Telnet {
  import opened Text

  const IAC: byte := 255
  const SB: byte := 250
  const SE: byte := 240
  const WILL: byte := 251
  const DONT: byte := 254

  /** What remains after the first IAC SE pair of `t`; nothing when there is none. */
  function AfterSubnegotiation(t: seq<byte>): (r: seq<byte>)
    ensures |r| <= |t|
  {
    if |t| < 2 then []
    else if t[0] == IAC && t[1] == SE then t[2..]
    else AfterSubnegotiation(t[1..])
  }

  /** What remains is a suffix of `t`. */
  lemma {:induction false} AfterSubnegotiationSuffix(t: seq<byte>)
    ensures AfterSubnegotiation(t) == t[|t| - |AfterSubnegotiation(t)|..]
  {
    if |t| >= 2 && !(t[0] == IAC && t[1] == SE) {
      var r := AfterSubnegotiation(t[1..]);
      assert AfterSubnegotiation(t) == r;
      assert r == t[|t| - |r|..] by {
        AfterSubnegotiationSuffix(t[1..]);
        assert t[1..][|t| - 1 - |r|..] == t[|t| - |r|..];
      }
    }
  }

  /** The bytes left after stripping all Telnet commands from `d`. */
  function Strip(d: seq<byte>): (r: seq<byte>)
    decreases |d|
  {
    if |d| == 0 then []
    else if d[0] != IAC then [d[0]] + Strip(d[1..])
    else if |d| == 1 then []
    else if d[1] == IAC then [IAC] + Strip(d[2..])
    else if d[1] == SB then Strip(AfterSubnegotiation(d[2..]))
    else if WILL <= d[1] <= DONT then Strip(d[Min(3, |d|)..])
    else Strip(d[2..])
  }

  /** The part of `d` from index `i` on; empty once `i` passes the end. */
  function From(d: seq<byte>, i: nat): seq<byte>
  {
    if i <= |d| then d[i..] else []
  }

  /** The inner scan of `strip_telnet_iac` over a subnegotiation body that
      starts at `start`: the index just past the first IAC SE, or the end. */
  method SkipSubnegotiation(data: seq<byte>, start: nat) returns (i: nat)
    requires start <= |data|
    ensures start <= i <= |data| && data[i..] == AfterSubnegotiation(data[start..])
  {
    i := start;
    var n := |data|;
    while i < n
      invariant start <= i <= n
      invariant AfterSubnegotiation(data[start..]) == AfterSubnegotiation(data[i..])
    {
      AfterSubnegotiationAt(data, i);
      if data[i] == IAC && i + 1 < n && data[i + 1] == SE {
        i := i + 2;
        return;
      }
      i := i + 1;
    }
  }

  /** One step of `AfterSubnegotiation` read at index `i` of `data`. */
  lemma AfterSubnegotiationAt(data: seq<byte>, i: nat)
    requires i < |data|
    ensures AfterSubnegotiation(data[i..]) ==
      if i + 1 == |data| then []
      else if data[i] == IAC && data[i + 1] == SE then data[i + 2..]
      else AfterSubnegotiation(data[i + 1..])
  {
    var t := data[i..];
    assert t[1..] == data[i + 1..];
    if i + 1 < |data| {
      assert t[2..] == data[i + 2..];
    }
  }

  /** One step of `Strip` read at index `i` of `data`. */
  lemma StripFrom(data: seq<byte>, i: nat)
    requires i < |data|
    ensures Strip(From(data, i)) ==
      if data[i] != IAC then [data[i]] + Strip(From(data, i + 1))
      else if i + 1 == |data| then []
      else if data[i + 1] == IAC then [IAC] + Strip(From(data, i + 2))
      else if data[i + 1] == SB then Strip(AfterSubnegotiation(From(data, i + 2)))
      else if WILL <= data[i + 1] <= DONT then Strip(From(data, i + 3))
      else Strip(From(data, i + 2))
  {
    var d := data[i..];
    assert d[1..] == From(data, i + 1);
    if |d| > 1 {
      assert d[2..] == From(data, i + 2);
      assert d[Min(3, |d|)..] == From(data, i + 3);
    }
  }

  /** `strip_telnet_iac(data)`. */
  method StripTelnetIac(data: seq<byte>) returns (out: seq<byte>)
    ensures out == Strip(data)
  {
    out := [];
    var i := 0;
    var n := |data|;
    while i < n
      invariant out + Strip(From(data, i)) == Strip(data)
      decreases n - i
    {
      var b := data[i];
      if b != IAC {
        assert Strip(From(data, i)) == [b] + Strip(From(data, i + 1)) by { StripFrom(data, i); }
        AppendAssoc(out, [b], Strip(From(data, i + 1)));
        out := out + [b];
        i := i + 1;
        continue;
      }
      if i + 1 >= n {
        assert Strip(From(data, i)) == [] by { StripFrom(data, i); }
        break;
      }
      var cmd := data[i + 1];
      if cmd == IAC {
        assert Strip(From(data, i)) == [IAC] + Strip(From(data, i + 2)) by { StripFrom(data, i); }
        AppendAssoc(out, [IAC], Strip(From(data, i + 2)));
        out := out + [IAC];
        i := i + 2;
        continue;
      }
      if cmd == SB {
        assert Strip(From(data, i)) == Strip(AfterSubnegotiation(From(data, i + 2))) by { StripFrom(data, i); }
        i := SkipSubnegotiation(data, i + 2);
        continue;
      }
      if WILL <= cmd <= DONT {
        assert Strip(From(data, i)) == Strip(From(data, i + 3)) by { StripFrom(data, i); }
        i := i + 3;
        continue;
      }
      assert Strip(From(data, i)) == Strip(From(data, i + 2)) by { StripFrom(data, i); }
      i := i + 2;
    }
    assert Strip(From(data, i)) == [];
  }

  // ---------------------------------------------------------------------
  // Properties of the stripper

  /** Bytes before the first IAC are copied verbatim and in order. */
  lemma {:induction false} StripPlainPrefix(a: seq<byte>, b: seq<byte>)
    requires IAC !in a
    ensures Strip(a + b) == a + Strip(b)
  {
    if |a| > 0 {
      assert (a + b)[1..] == a[1..] + b;
      StripPlainPrefix(a[1..], b);
    } else {
      assert a + b == b;
    }
  }

  /** Input without byte 255 passes through unchanged. */
  lemma StripClean(d: seq<byte>)
    requires IAC !in d
    ensures Strip(d) == d
  {
    StripPlainPrefix(d, []);
    assert d + [] == d;
  }

  /** IAC IAC contributes exactly one byte 255. */
  lemma StripEscapedIac(a: seq<byte>, b: seq<byte>)
    requires IAC !in a
    ensures Strip(a + [IAC, IAC] + b) == a + [IAC] + Strip(b)
  {
    assert a + [IAC, IAC] + b == a + ([IAC, IAC] + b);
    StripPlainPrefix(a, [IAC, IAC] + b);
    assert ([IAC, IAC] + b)[2..] == b;
  }

  /** A lone IAC as the final byte is dropped. */
  lemma StripTrailingIac(a: seq<byte>)
    requires IAC !in a
    ensures Strip(a + [IAC]) == a
  {
    StripPlainPrefix(a, [IAC]);
  }

  /** `p` holds no IAC SE pair. */
  predicate NoTerminator(p: seq<byte>)
  {
    forall k | 0 <= k < |p| - 1 :: !(p[k] == IAC && p[k + 1] == SE)
  }

  lemma {:induction false} SkipToTerminator(p: seq<byte>, b: seq<byte>)
    requires NoTerminator(p)
    ensures AfterSubnegotiation(p + [IAC, SE] + b) == b
  {
    var t := p + [IAC, SE] + b;
    if |p| == 0 {
      assert t[2..] == b;
    } else {
      assert t[0] == p[0];
      assert t[1] != SE || t[0] != IAC by {
        if |p| > 1 { assert t[1] == p[1]; } else { assert t[1] == IAC; }
      }
      assert t[1..] == p[1..] + [IAC, SE] + b;
      assert NoTerminator(p[1..]) by {
        forall k | 0 <= k < |p| - 2 ensures !(p[1..][k] == IAC && p[1..][k + 1] == SE) {
          assert p[1..][k] == p[k + 1] && p[1..][k + 1] == p[k + 2];
        }
      }
      SkipToTerminator(p[1..], b);
    }
  }

  lemma {:induction false} NoTerminatorSkipsAll(p: seq<byte>)
    requires NoTerminator(p)
    ensures AfterSubnegotiation(p) == []
  {
    if |p| >= 2 {
      assert !(p[0] == IAC && p[1] == SE);
      assert NoTerminator(p[1..]) by {
        forall k | 0 <= k < |p| - 2 ensures !(p[1..][k] == IAC && p[1..][k + 1] == SE) {
          assert p[1..][k] == p[k + 1] && p[1..][k + 1] == p[k + 2];
        }
      }
      NoTerminatorSkipsAll(p[1..]);
    }
  }

  /** No byte of a subnegotiation IAC SB ... IAC SE appears in the output. */
  lemma StripSubnegotiation(a: seq<byte>, p: seq<byte>, b: seq<byte>)
    requires IAC !in a && NoTerminator(p)
    ensures Strip(a + [IAC, SB] + p + [IAC, SE] + b) == a + Strip(b)
  {
    var q := p + [IAC, SE] + b;
    calc {
      Strip(a + [IAC, SB] + p + [IAC, SE] + b);
      { assert a + [IAC, SB] + p + [IAC, SE] + b == a + ([IAC, SB] + q); }
      Strip(a + ([IAC, SB] + q));
      { StripPlainPrefix(a, [IAC, SB] + q); }
      a + Strip([IAC, SB] + q);
      { StripSbPrefix(q); }
      a + Strip(AfterSubnegotiation(q));
      { SkipToTerminator(p, b); }
      a + Strip(b);
    }
  }

  lemma StripSbPrefix(q: seq<byte>)
    ensures Strip([IAC, SB] + q) == Strip(AfterSubnegotiation(q))
  {
    assert ([IAC, SB] + q)[2..] == q;
  }

  /** Without an IAC SE, everything after IAC SB is dropped. */
  lemma StripUnterminatedSubnegotiation(a: seq<byte>, p: seq<byte>)
    requires IAC !in a && NoTerminator(p)
    ensures Strip(a + [IAC, SB] + p) == a
  {
    calc {
      Strip(a + [IAC, SB] + p);
      { assert a + [IAC, SB] + p == a + ([IAC, SB] + p); }
      Strip(a + ([IAC, SB] + p));
      { StripPlainPrefix(a, [IAC, SB] + p); }
      a + Strip([IAC, SB] + p);
      { StripSbPrefix(p); NoTerminatorSkipsAll(p); }
      a + Strip([]);
      a;
    }
  }

  /** IAC WILL/WONT/DO/DONT drops itself and one option byte. */
  lemma StripNegotiation(a: seq<byte>, cmd: byte, opt: byte, b: seq<byte>)
    requires IAC !in a && WILL <= cmd <= DONT
    ensures Strip(a + [IAC, cmd, opt] + b) == a + Strip(b)
  {
    var t := [IAC, cmd, opt] + b;
    assert a + [IAC, cmd, opt] + b == a + t;
    StripPlainPrefix(a, t);
    assert t[3..] == b;
  }

  /** Any other IAC command drops the two-byte pair. */
  lemma StripOtherCommand(a: seq<byte>, cmd: byte, b: seq<byte>)
    requires IAC !in a && cmd != IAC && cmd != SB && !(WILL <= cmd <= DONT)
    ensures Strip(a + [IAC, cmd] + b) == a + Strip(b)
  {
    var t := [IAC, cmd] + b;
    assert a + [IAC, cmd] + b == a + t;
    StripPlainPrefix(a, t);
    assert t[2..] == b;
  }

  /** `s` can be obtained from `t` by deleting elements. */
  ghost predicate Subsequence(s: seq<byte>, t: seq<byte>)
    decreases |t|
  {
    |s| == 0 || (|t| > 0 && ((s[0] == t[0] && Subsequence(s[1..], t[1..])) || Subsequence(s, t[1..])))
  }

  lemma {:induction false} SubsequenceLength(s: seq<byte>, t: seq<byte>)
    requires Subsequence(s, t)
    ensures |s| <= |t|
    decreases |t|
  {
    if |s| > 0 {
      if s[0] == t[0] && Subsequence(s[1..], t[1..]) {
        SubsequenceLength(s[1..], t[1..]);
      } else {
        SubsequenceLength(s, t[1..]);
      }
    }
  }

  /** Deleting a prefix of `t` keeps a subsequence of it a subsequence of `t`. */
  lemma {:induction false} SubsequenceOfSuffix(s: seq<byte>, t: seq<byte>, k: nat)
    requires k <= |t| && Subsequence(s, t[k..])
    ensures Subsequence(s, t)
    decreases k
  {
    if k > 0 {
      assert t[k - 1..][1..] == t[k..];
      SubsequenceOfSuffix(s, t, k - 1);
    }
  }

  /** The output is a subsequence of the input: bytes are only ever deleted. */
  lemma {:induction false} StripIsSubsequence(d: seq<byte>)
    ensures Subsequence(Strip(d), d)
    ensures |Strip(d)| <= |d|
    decreases |d|
  {
    var r := Strip(d);
    if |d| == 0 {
    } else if d[0] != IAC {
      StripIsSubsequence(d[1..]);
      assert r[1..] == Strip(d[1..]);
    } else if |d| == 1 {
    } else if d[1] == IAC {
      StripIsSubsequence(d[2..]);
      assert r[1..] == Strip(d[2..]);
      assert d[1..][1..] == d[2..];
      SubsequenceOfSuffix(r[1..], d[1..], 1);
    } else if d[1] == SB {
      var t := AfterSubnegotiation(d[2..]);
      AfterSubnegotiationSuffix(d[2..]);
      assert d[2..][|d| - 2 - |t|..] == d[|d| - |t|..];
      StripIsSubsequence(t);
      assert d[|d| - |t|..] == t;
      SubsequenceOfSuffix(r, d, |d| - |t|);
    } else if WILL <= d[1] <= DONT {
      StripIsSubsequence(d[Min(3, |d|)..]);
      SubsequenceOfSuffix(r, d, Min(3, |d|));
    } else {
      StripIsSubsequence(d[2..]);
      SubsequenceOfSuffix(r, d, 2);
    }
    SubsequenceLength(r, d);
  }

  /** The departure from RFC 855: the escaped 255 inside this subnegotiation is
      taken for the start of its terminator, so the block ends early and the
      byte 65 ('A'), which RFC 855 places inside the block, is emitted. */
  lemma EscapedIacEndsSubnegotiation()
    ensures Strip([IAC, SB, 24, IAC, IAC, SE, 65, IAC, SE]) == [65]
  {
    var p: seq<byte> := [24, IAC];
    var b: seq<byte> := [65, IAC, SE];
    assert NoTerminator(p);
    StripSubnegotiation([], p, b);
    assert [] + [IAC, SB] + p + [IAC, SE] + b == [IAC, SB, 24, IAC, IAC, SE, 65, IAC, SE];
    StripOtherCommand([65], SE, []);
    assert [65] + [IAC, SE] + [] == [65, IAC, SE];
  }
}
