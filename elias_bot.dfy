/** The Elias bot's text path: `smart_decode` (Telnet stripping, then UTF-8 with
    a fallback to Latin-1 when more than 2% of the characters are U+FFFD), the
    byte-buffer line framing of `EliasMuxBot.read_lines`, and the shaping of a
    reply into one line of at most 800 characters in `handle_and_reply`. */
module EliasBot {
  import opened Text
  import opened Utf8
  import Telnet

  const Newline: byte := 10
  const MaxReply: nat := 800
  const CutReply: nat := 780
  const Ellipsis: char := '\U{2026}'

  // ---------------------------------------------------------------------
  // smart_decode

  /** The UTF-8 decode is "mojibake" when more than one character in fifty is
      U+FFFD: `count / max(1, len) > 0.02`, stated without division. */
  predicate TooDamaged(u: string)
  {
    50 * Count(u, Replacement) > Max(1, |u|)
  }

  /** `smart_decode(data)`. */
  function SmartDecode(data: seq<byte>): (s: string)
    ensures data == [] ==> s == []
    ensures |s| <= |data|
    ensures data != [] ==>
      var cleaned := Telnet.Strip(data);
      (s == Decode(cleaned) && !TooDamaged(s)) || (TooDamaged(Decode(cleaned)) && s == Latin1(cleaned))
  {
    if |data| == 0 then ""
    else
      var cleaned := Telnet.Strip(data);
      Telnet.StripIsSubsequence(data);
      var u := Decode(cleaned);
      if TooDamaged(u) then Latin1(cleaned) else u
  }

  /** Plain ASCII without Telnet commands comes through character for byte. */
  lemma SmartDecodeAscii(data: seq<byte>)
    requires IsAscii(data)
    ensures SmartDecode(data) == Latin1(data)
    ensures forall i | 0 <= i < |data| :: SmartDecode(data)[i] as int == data[i]
  {
    if |data| > 0 {
      assert Telnet.IAC !in data by {
        forall i | 0 <= i < |data| ensures data[i] != Telnet.IAC { assert data[i] < 0x80; }
      }
      Telnet.StripClean(data);
      DecodeAscii(data);
      Utf8Clean(Latin1(data));
    }
  }

  /** A string without U+FFFD is never "too damaged". */
  lemma Utf8Clean(u: string)
    requires Replacement !in u
    ensures !TooDamaged(u)
  {
  }

  /** An isolated Latin-1 byte is one U+FFFD in two characters (50%), so the
      whole line is re-read as Latin-1. */
  lemma SmartDecodeFallsBack()
    ensures SmartDecode([0xE9, 0x41]) == "\U{E9}A"
  {
    var d: seq<byte> := [0xE9, 0x41];
    Telnet.StripClean(d);
    assert Decode(d) == [Replacement] + Decode(d[1..]);
    assert d[1..] == [0x41];
    assert Decode(d[1..]) == ['A'] + Decode(d[2..]);
    assert Count(Decode(d), Replacement) == 1;
  }

  /** A well-formed multi-byte character stays UTF-8. */
  lemma SmartDecodeKeepsUtf8()
    ensures SmartDecode([0xC3, 0xA9]) == "\U{E9}"
  {
    var d: seq<byte> := [0xC3, 0xA9];
    Telnet.StripClean(d);
    TwoByteExamples();
  }

  // ---------------------------------------------------------------------
  // read_lines


  /** One framed raw line as `read_lines` decodes it: `smart_decode(raw).rstrip("\r")`. */
  function DecodeLine(raw: seq<byte>): (line: string)
    ensures |line| <= |raw|
    ensures line != [] ==> line[|line| - 1] != '\r'
  {
    RStripChar(SmartDecode(raw), '\r')
  }

  /** A line `read_lines` hands out: not whitespace-only, no trailing `\r`. */
  predicate Deliverable(line: string)
  {
    !IsBlank(line) && line[|line| - 1] != '\r'
  }

  /** `line` when it survives the `line.strip()` test, nothing otherwise. */
  function Kept(line: string): (r: seq<string>)
    ensures line != [] && line[|line| - 1] != '\r' ==> forall i | 0 <= i < |r| :: Deliverable(r[i])
  {
    if IsBlank(line) then [] else [line]
  }

  /** The lines `read_lines` returns for the raw lines `raws`, in order. */
  function DecodeLines(raws: seq<seq<byte>>): (lines: seq<string>)
    ensures |lines| <= |raws|
    ensures forall i | 0 <= i < |lines| :: Deliverable(lines[i])
  {
    if |raws| == 0 then []
    else
      var init := DecodeLines(raws[..|raws| - 1]);
      var last := Kept(DecodeLine(raws[|raws| - 1]));
      assert forall i | 0 <= i < |last| :: Deliverable(last[i]);
      assert forall i | |init| <= i < |init + last| :: (init + last)[i] == last[i - |init|];
      init + last
  }

  /** Decoding respects arrival order: the lines of two batches are the lines
      of the first followed by those of the second. */
  lemma {:induction false} DecodeLinesAppend(a: seq<seq<byte>>, b: seq<seq<byte>>)
    ensures DecodeLines(a + b) == DecodeLines(a) + DecodeLines(b)
    decreases |b|
  {
    if |b| == 0 {
      assert a + b == a;
    } else {
      var init := b[..|b| - 1];
      var last := Kept(DecodeLine(b[|b| - 1]));
      calc {
        DecodeLines(a + b);
        { InitLast(a, b); }
        DecodeLines(a + init) + last;
        { DecodeLinesAppend(a, init); }
        (DecodeLines(a) + DecodeLines(init)) + last;
        { AppendAssoc(DecodeLines(a), DecodeLines(init), last); }
        DecodeLines(a) + (DecodeLines(init) + last);
        DecodeLines(a) + DecodeLines(b);
      }
    }
  }

  /** One raw line gives its decoded text exactly when that is not blank. */
  lemma DecodeLinesSingle(raw: seq<byte>)
    ensures DecodeLines([raw]) == Kept(DecodeLine(raw))
  {
    assert [raw][..0] == [];
  }

  /** The raw line [IAC, SB] decodes to nothing. */
  lemma BareSubnegotiationStart()
    ensures DecodeLine([Telnet.IAC, Telnet.SB]) == []
  {
    Telnet.StripUnterminatedSubnegotiation([], []);
    assert [] + [Telnet.IAC, Telnet.SB] + [] == [Telnet.IAC, Telnet.SB];
  }

  /** The raw line [65, IAC, SE] decodes to "A". */
  lemma LetterBeforeTerminator()
    ensures DecodeLine([65, Telnet.IAC, Telnet.SE]) == "A"
  {
    Telnet.StripOtherCommand([65], Telnet.SE, []);
    assert [65] + [Telnet.IAC, Telnet.SE] + [] == [65, Telnet.IAC, Telnet.SE];
    DecodeAscii([65]);
    assert Latin1([65]) == "A";
    Utf8Clean("A");
  }

  /** Lines are cut on byte 10 before Telnet commands are removed: a newline
      inside a subnegotiation ends a line, and the byte after it comes out as
      text although, read as a whole, the stream carries nothing but the final
      newline. */
  lemma SplitBeforeStrip()
    ensures Telnet.Strip([Telnet.IAC, Telnet.SB, 10, 65, Telnet.IAC, Telnet.SE, 10]) == [Newline]
    ensures DecodeLines(Complete([Telnet.IAC, Telnet.SB, 10, 65, Telnet.IAC, Telnet.SE, 10], Newline)) == ["A"]
  {
    WholeStreamStrip();
    StreamFrames();
    var first: seq<byte> := [Telnet.IAC, Telnet.SB];
    var second: seq<byte> := [65, Telnet.IAC, Telnet.SE];
    calc {
      DecodeLines([first, second]);
      { assert [first, second] == [first] + [second]; DecodeLinesAppend([first], [second]); }
      DecodeLines([first]) + DecodeLines([second]);
      { DecodeLinesSingle(first); DecodeLinesSingle(second); }
      Kept(DecodeLine(first)) + Kept(DecodeLine(second));
      { BareSubnegotiationStart(); LetterBeforeTerminator(); }
      Kept([]) + Kept("A");
      ["A"];
    }
  }

  /** Read as a whole, the stream is one subnegotiation and a newline. */
  lemma WholeStreamStrip()
    ensures Telnet.Strip([Telnet.IAC, Telnet.SB, 10, 65, Telnet.IAC, Telnet.SE, 10]) == [Newline]
  {
    var d: seq<byte> := [Telnet.IAC, Telnet.SB, 10, 65, Telnet.IAC, Telnet.SE, 10];
    var body: seq<byte> := [10, 65];
    assert Telnet.NoTerminator(body);
    Telnet.StripSubnegotiation([], body, [10]);
    assert d == [] + [Telnet.IAC, Telnet.SB] + body + [Telnet.IAC, Telnet.SE] + [10];
    assert Telnet.Strip([10]) == [10] + Telnet.Strip([]);
  }

  /** Cut on byte 10, the stream is two complete lines. */
  lemma StreamFrames()
    ensures Complete([Telnet.IAC, Telnet.SB, 10, 65, Telnet.IAC, Telnet.SE, 10], Newline) ==
      [[Telnet.IAC, Telnet.SB], [65, Telnet.IAC, Telnet.SE]]
  {
    var first: seq<byte> := [Telnet.IAC, Telnet.SB];
    var second: seq<byte> := [65, Telnet.IAC, Telnet.SE];
    var d: seq<byte> := [Telnet.IAC, Telnet.SB, 10, 65, Telnet.IAC, Telnet.SE, 10];
    assert Terminated([second], Newline) == second + [Newline];
    assert Terminated([first, second], Newline) == first + [Newline] + Terminated([second], Newline);
    assert Terminated([first, second], Newline) == d;
    CompleteTerminated([first, second], Newline);
  }

  /** The bot's receive state: the byte buffer of an unfinished line and the
      time of the last arrival. */
  class Bot {
    var buf: seq<byte>
    var lastActivityMs: int

    /** A fresh connection: empty buffer, activity stamped now. */
    constructor (nowMs: int)
      ensures buf == [] && lastActivityMs == nowMs
    {
      buf := [];
      lastActivityMs := nowMs;
    }

    /** `read_lines` after `recv_bytes` returned `data` at time `nowMs`. */
    method ReadLines(data: seq<byte>, nowMs: int) returns (lines: seq<string>)
      modifies this
      ensures buf == Rest(old(buf) + data, Newline)
      ensures lines == DecodeLines(Complete(old(buf) + data, Newline))
      ensures lastActivityMs == if data != [] then nowMs else old(lastActivityMs)
    {
      if data != [] {
        lastActivityMs := nowMs;
      }
      var pending := buf + data;
      ghost var all := pending;
      ghost var done: seq<seq<byte>> := [];
      lines := [];
      while Newline in pending
        invariant Complete(all, Newline) == done + Complete(pending, Newline)
        invariant Rest(all, Newline) == Rest(pending, Newline)
        invariant lines == DecodeLines(done)
        invariant lastActivityMs == if data != [] then nowMs else old(lastActivityMs)
        decreases |pending|
      {
        var k := IndexOf(pending, Newline);
        var raw := pending[..k];
        var next := pending[k + 1..];
        ReadLinesStep(all, done, pending, raw, next);
        DecodeLinesPush(done, raw);
        var line := DecodeLine(raw);
        if !IsBlank(line) {
          lines := lines + [line];
        } else {
          assert lines + Kept(line) == lines;
        }
        pending := next;
        done := done + [raw];
      }
      CompleteNone(pending, Newline);
      assert done + [] == done;
      buf := pending;
    }
  }

  /** One turn of the `read_lines` loop: the first line `raw` moves from the
      buffer to the consumed lines, and `next` is what stays buffered. */
  lemma ReadLinesStep(all: seq<byte>, done: seq<seq<byte>>, pending: seq<byte>, raw: seq<byte>, next: seq<byte>)
    requires Newline in pending
    requires raw == pending[..IndexOf(pending, Newline)] && next == pending[IndexOf(pending, Newline) + 1..]
    requires Complete(all, Newline) == done + Complete(pending, Newline)
    requires Rest(all, Newline) == Rest(pending, Newline)
    ensures Complete(all, Newline) == (done + [raw]) + Complete(next, Newline)
    ensures Rest(all, Newline) == Rest(next, Newline)
  {
    CompleteStep(pending, Newline, IndexOf(pending, Newline));
    AppendAssoc(done, [raw], Complete(next, Newline));
  }

  /** Decoding one more raw line appends its kept text. */
  lemma DecodeLinesPush(done: seq<seq<byte>>, raw: seq<byte>)
    ensures DecodeLines(done + [raw]) == DecodeLines(done) + Kept(DecodeLine(raw))
  {
    DecodeLinesAppend(done, [raw]);
    DecodeLinesSingle(raw);
  }

  /** What one `read_lines` call leaves and returns: the buffer holds no byte
      10, and the bytes seen so far are exactly the returned lines' raw forms,
      each followed by byte 10, then the buffer. */
  lemma ReadLinesFraming(before: seq<byte>, data: seq<byte>)
    ensures Newline !in Rest(before + data, Newline)
    ensures before + data == Terminated(Complete(before + data, Newline), Newline) + Rest(before + data, Newline)
  {
    FrameSplit(before + data, Newline);
  }

  /** Two reads in a row return the lines one read of the concatenated bytes
      would return, and leave the same remainder. */
  lemma ReadLinesTwice(before: seq<byte>, d1: seq<byte>, d2: seq<byte>)
    ensures DecodeLines(Complete(before + d1, Newline)) + DecodeLines(Complete(Rest(before + d1, Newline) + d2, Newline))
         == DecodeLines(Complete(before + d1 + d2, Newline))
    ensures Rest(Rest(before + d1, Newline) + d2, Newline) == Rest(before + d1 + d2, Newline)
  {
    var s := before + d1;
    var c := Complete(s, Newline);
    var r := Rest(s, Newline);
    assert s + d2 == Terminated(c, Newline) + (r + d2) by {
      FrameSplit(s, Newline);
      AppendAssoc(Terminated(c, Newline), r, d2);
    }
    assert Complete(s + d2, Newline) == c + Complete(r + d2, Newline) && Rest(s + d2, Newline) == Rest(r + d2, Newline) by {
      FrameSplit(s, Newline);
      CompleteAfterLines(c, r + d2, Newline);
    }
    DecodeLinesAppend(c, Complete(r + d2, Newline));
  }

  // ---------------------------------------------------------------------
  // Reply shaping

  /** The characters `str.splitlines` breaks at. */
  predicate IsLineBreak(c: char)
  {
    c == '\n' || c == '\r' || c == '\U{0B}' || c == '\U{0C}' || c == '\U{1C}' || c == '\U{1D}' || c == '\U{1E}'
    || c == '\U{85}' || c == '\U{2028}' || c == '\U{2029}'
  }

  predicate LineBreakFree(s: string)
  {
    forall i | 0 <= i < |s| :: !IsLineBreak(s[i])
  }

  /** Every line break is whitespace to `str.strip`. */
  lemma LineBreakIsSpace(c: char)
    requires IsLineBreak(c)
    ensures IsSpace(c)
  {
  }

  /** The index of the first line break in `s`, or `|s|` when there is none. */
  function LineBreakIndex(s: string): (k: nat)
    ensures k <= |s|
    ensures forall i | 0 <= i < k :: !IsLineBreak(s[i])
    ensures k < |s| ==> IsLineBreak(s[k])
  {
    if |s| == 0 || IsLineBreak(s[0]) then 0 else 1 + LineBreakIndex(s[1..])
  }

  /** `s.splitlines()`: the pieces between line breaks, `\r\n` counting as
      one break, with no piece after a final break. */
  function SplitLines(s: string): (lines: seq<string>)
    ensures forall i | 0 <= i < |lines| :: LineBreakFree(lines[i])
    decreases |s|
  {
    if |s| == 0 then []
    else
      var k := LineBreakIndex(s);
      if k == |s| then [s]
      else
        var w := if s[k] == '\r' && k + 1 < |s| && s[k + 1] == '\n' then 2 else 1;
        [s[..k]] + SplitLines(s[k + w..])
  }

  /** A text with no line break is its own single line (none when empty). */
  lemma SplitLinesFree(s: string)
    requires LineBreakFree(s)
    ensures SplitLines(s) == if s == [] then [] else [s]
  {
    if |s| > 0 {
      assert LineBreakIndex(s) == |s|;
    }
  }

  lemma {:induction false} JoinLineBreakFree(parts: seq<string>)
    requires forall i | 0 <= i < |parts| :: LineBreakFree(parts[i])
    ensures LineBreakFree(Join(parts, ' '))
  {
    if |parts| > 1 {
      JoinLineBreakFree(parts[1..]);
      var rest := Join(parts[1..], ' ');
      var t := parts[0] + [' '] + rest;
      assert Join(parts, ' ') == t;
      forall i | 0 <= i < |t| ensures !IsLineBreak(t[i]) {
        if i < |parts[0]| { assert t[i] == parts[0][i]; }
        else if i > |parts[0]| { assert t[i] == rest[i - |parts[0]| - 1]; }
      }
    }
  }

  /** Stripping keeps a text free of line breaks. */
  lemma LineBreakFreeStrip(s: string)
    requires LineBreakFree(s)
    ensures LineBreakFree(Strip(s))
  {
    var r := Strip(s);
    var a := StripStart(s);
    forall i | 0 <= i < |r| ensures !IsLineBreak(r[i]) {
      assert r[i] == s[a + i];
    }
  }

  /** `" ".join(answer.splitlines()).strip()`: one line, no surrounding blanks. */
  function Collapse(answer: string): (one: string)
    ensures LineBreakFree(one)
    ensures one == [] || (!IsSpace(one[0]) && !IsSpace(one[|one| - 1]))
  {
    var joined := Join(SplitLines(answer), ' ');
    assert LineBreakFree(Strip(joined)) by {
      JoinLineBreakFree(SplitLines(answer));
      LineBreakFreeStrip(joined);
    }
    Strip(joined)
  }

  /** `one[:780].rstrip() + "…"`. */
  function Cap(one: string): (r: string)
    ensures 1 <= |r| <= CutReply + 1
    ensures r[|r| - 1] == Ellipsis
    ensures |r| - 1 <= |one| && r[..|r| - 1] == one[..|r| - 1]
    ensures LineBreakFree(one) ==> LineBreakFree(r)
    ensures (one == [] || !IsSpace(one[0])) ==> !IsSpace(r[0])
  {
    var head := RStrip(one[..Min(CutReply, |one|)]);
    CapHead(one, head);
    var r := head + [Ellipsis];
    assert r[..|r| - 1] == head && r[|r| - 1] == Ellipsis;
    assert r[0] == if head == [] then Ellipsis else head[0];
    assert !IsSpace(Ellipsis);
    r
  }

  /** The kept head is a prefix of the answer, of at most 780 characters. */
  lemma CapHead(one: string, head: string)
    requires head == RStrip(one[..Min(CutReply, |one|)])
    ensures |head| <= CutReply && |head| <= |one| && head == one[..|head|]
    ensures LineBreakFree(one) ==> LineBreakFree(head + [Ellipsis])
    ensures (one == [] || !IsSpace(one[0])) ==> head == [] || !IsSpace(head[0])
  {
    var cut := one[..Min(CutReply, |one|)];
    assert head == cut[..TrailingStart(cut)];
    assert head == one[..|head|];
    if LineBreakFree(one) {
      var r := head + [Ellipsis];
      forall i | 0 <= i < |r| ensures !IsLineBreak(r[i]) {
        if i < |head| { assert r[i] == one[i]; }
      }
    }
  }

  /** The reply shaping of `handle_and_reply`. */
  function ShapeReply(answer: string): (r: string)
    ensures LineBreakFree(r)
    ensures |r| <= MaxReply
    ensures r == [] || (!IsSpace(r[0]) && !IsSpace(r[|r| - 1]))
  {
    var one := Collapse(answer);
    if |one| > MaxReply then Cap(one) else one
  }

  /** Short replies are only collapsed; long ones become their first 780
      characters, right-stripped, plus an ellipsis. */
  lemma ShapeReplyCases(answer: string)
    ensures |Collapse(answer)| <= MaxReply ==> ShapeReply(answer) == Collapse(answer)
    ensures |Collapse(answer)| > MaxReply ==>
      ShapeReply(answer) == RStrip(Collapse(answer)[..CutReply]) + [Ellipsis]
  {
  }

  /** Shaping a shaped reply changes nothing. */
  lemma ShapeReplyIdempotent(answer: string)
    ensures ShapeReply(ShapeReply(answer)) == ShapeReply(answer)
  {
    var r := ShapeReply(answer);
    assert Collapse(r) == r by {
      SplitLinesFree(r);
      if r != [] {
        assert Join([r], ' ') == r;
      }
      StripStable(r);
    }
  }

  /** A line break inside a reply becomes one space; `\r\n` counts as one. */
  lemma ShapeReplyJoinsLines()
    ensures ShapeReply("a\r\nb") == "a b"
  {
    var s := "a\r\nb";
    assert SplitLines(s) == ["a", "b"] by {
      assert LineBreakIndex(s) == 1 by { assert LineBreakIndex(s[1..]) == 0; }
      assert s[..1] == "a" && s[3..] == "b";
      assert SplitLines("b") == ["b"] by { SplitLinesFree("b"); }
    }
    assert Join(["a", "b"], ' ') == "a b";
    StripStable("a b");
  }
}
