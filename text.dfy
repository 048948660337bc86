/** Sequence and string helpers shared by the bridge, the writer and the bot:
    Python's `str.split(sep)` on one separator, line framing over such a split,
    the whitespace stripping of `str.strip`, and decimal rendering of integers. */
module Text {

  /** One byte of a Python `bytes` value. */
  type byte = x: int | 0 <= x < 256

  datatype Option<T> = None | Some(value: T)

  function Min(a: int, b: int): int { if a <= b then a else b }
  function Max(a: int, b: int): int { if a >= b then a else b }

  /** Index of the first occurrence of `x` in `s`. */
  function IndexOf<T(==)>(s: seq<T>, x: T): (k: nat)
    requires x in s
    ensures k < |s| && s[k] == x && x !in s[..k]
  {
    if s[0] == x then 0
    else
      var k' := IndexOf(s[1..], x);
      assert s[..k' + 1] == [s[0]] + s[1..][..k'];
      k' + 1
  }

  /** Number of occurrences of `x` in `s` (Python's `seq.count(x)`). */
  function Count<T(==)>(s: seq<T>, x: T): (n: nat)
    ensures n <= |s|
    ensures n == 0 <==> x !in s
  {
    if |s| == 0 then 0 else (if s[0] == x then 1 else 0) + Count(s[1..], x)
  }

  // ---------------------------------------------------------------------
  // Splitting on one separator

  /** Python's `s.split(sep)` for a one-element separator: the maximal
      separator-free pieces, left to right; `split` of the empty sequence is
      one empty piece. */
  function Split<T(==)>(s: seq<T>, sep: T): (parts: seq<seq<T>>)
    ensures |parts| >= 1
    ensures forall i | 0 <= i < |parts| :: sep !in parts[i]
    decreases |s|
  {
    if sep in s then
      var k := IndexOf(s, sep);
      [s[..k]] + Split(s[k + 1..], sep)
    else
      [s]
  }

  /** `sep.join(parts)`. */
  function Join<T>(parts: seq<seq<T>>, sep: T): seq<T>
  {
    if |parts| == 0 then []
    else if |parts| == 1 then parts[0]
    else parts[0] + [sep] + Join(parts[1..], sep)
  }

  /** Every piece followed by the separator: the text of complete lines. */
  function Terminated<T>(lines: seq<seq<T>>, sep: T): seq<T>
  {
    if |lines| == 0 then [] else lines[0] + [sep] + Terminated(lines[1..], sep)
  }

  /** The complete (separator-terminated) pieces of `s`. */
  function Complete<T(==)>(s: seq<T>, sep: T): seq<seq<T>>
  {
    var parts := Split(s, sep);
    parts[..|parts| - 1]
  }

  /** What follows the last separator of `s` (all of `s` when it has none). */
  function Rest<T(==)>(s: seq<T>, sep: T): seq<T>
  {
    var parts := Split(s, sep);
    parts[|parts| - 1]
  }

  ghost predicate SeparatorFree<T>(lines: seq<seq<T>>, sep: T)
  {
    forall i | 0 <= i < |lines| :: sep !in lines[i]
  }

  /** Joining the pieces of a split gives back the input. */
  lemma {:induction false} JoinSplit<T>(s: seq<T>, sep: T)
    ensures Join(Split(s, sep), sep) == s
    decreases |s|
  {
    if sep in s {
      var k := IndexOf(s, sep);
      var tail := Split(s[k + 1..], sep);
      JoinSplit(s[k + 1..], sep);
      SplitAt(s, sep, k);
      JoinCons(s[..k], tail, sep);
      CutAt(s, k);
    }
  }

  /** Joining a piece in front of at least one other. */
  lemma JoinCons<T>(head: seq<T>, tail: seq<seq<T>>, sep: T)
    requires |tail| >= 1
    ensures Join([head] + tail, sep) == head + [sep] + Join(tail, sep)
  {
    assert ([head] + tail)[1..] == tail;
  }

  /** A sequence is what comes before, at and after an index. */
  lemma CutAt<T>(s: seq<T>, k: nat)
    requires k < |s|
    ensures s == s[..k] + [s[k]] + s[k + 1..]
  {
  }

  /** Splitting a join of separator-free pieces gives back the pieces. */
  lemma {:induction false} SplitJoin<T>(parts: seq<seq<T>>, sep: T)
    requires |parts| >= 1 && SeparatorFree(parts, sep)
    ensures Split(Join(parts, sep), sep) == parts
  {
    var p0 := parts[0];
    assert sep !in p0;
    if |parts| > 1 {
      var rest := Join(parts[1..], sep);
      assert Join(parts, sep) == p0 + [sep] + rest;
      SplitCons(p0, sep, rest);
      SplitJoin(parts[1..], sep);
      assert [p0] + parts[1..] == parts;
    }
  }

  /** A value found in no piece and different from the separator is not in the join. */
  lemma {:induction false} JoinFree<T>(parts: seq<seq<T>>, sep: T, x: T)
    requires x != sep && forall j | 0 <= j < |parts| :: x !in parts[j]
    ensures x !in Join(parts, sep)
  {
    if |parts| > 1 {
      JoinFree(parts[1..], sep, x);
      assert x !in parts[0];
    }
  }

  /** The join of non-empty pieces starts where the first piece starts and ends
      where the last piece ends. */
  lemma {:induction false} JoinEnds<T>(parts: seq<seq<T>>, sep: T)
    requires |parts| >= 1 && forall j | 0 <= j < |parts| :: parts[j] != []
    ensures Join(parts, sep) != []
    ensures Join(parts, sep)[0] == parts[0][0]
    ensures Join(parts, sep)[|Join(parts, sep)| - 1] == parts[|parts| - 1][|parts[|parts| - 1]| - 1]
  {
    if |parts| > 1 {
      var tail := parts[1..];
      assert tail[|tail| - 1] == parts[|parts| - 1];
      assert forall j | 0 <= j < |tail| :: tail[j] == parts[j + 1];
      JoinEnds(tail, sep);
    }
  }

  lemma {:induction false} JoinAsTerminated<T>(parts: seq<seq<T>>, sep: T)
    requires |parts| >= 1
    ensures Join(parts, sep) == Terminated(parts[..|parts| - 1], sep) + parts[|parts| - 1]
  {
    if |parts| > 1 {
      JoinAsTerminated(parts[1..], sep);
      assert parts[1..][..|parts| - 2] == parts[..|parts| - 1][1..];
    }
  }

  lemma {:induction false} TerminatedAppend<T>(a: seq<seq<T>>, b: seq<seq<T>>, sep: T)
    ensures Terminated(a + b, sep) == Terminated(a, sep) + Terminated(b, sep)
  {
    if |a| > 0 {
      assert (a + b)[1..] == a[1..] + b;
      TerminatedAppend(a[1..], b, sep);
    } else {
      assert a + b == b;
    }
  }

  /** Line framing: a text is its complete lines, each with its terminator,
      followed by the unterminated remainder, which holds no separator. */
  lemma FrameSplit<T>(s: seq<T>, sep: T)
    ensures s == Terminated(Complete(s, sep), sep) + Rest(s, sep)
    ensures sep !in Rest(s, sep)
    ensures SeparatorFree(Complete(s, sep), sep)
  {
    var parts := Split(s, sep);
    JoinSplit(s, sep);
    JoinAsTerminated(parts, sep);
    assert Complete(s, sep) == parts[..|parts| - 1];
    assert Rest(s, sep) == parts[|parts| - 1];
  }

  /** Framing is the inverse of terminating separator-free lines. */
  lemma CompleteTerminated<T>(lines: seq<seq<T>>, sep: T)
    requires SeparatorFree(lines, sep)
    ensures Complete(Terminated(lines, sep), sep) == lines
    ensures Rest(Terminated(lines, sep), sep) == []
  {
    var parts := lines + [[]];
    assert parts[..|parts| - 1] == lines;
    JoinAsTerminated(parts, sep);
    assert Join(parts, sep) == Terminated(lines, sep);
    SplitJoin(parts, sep);
  }

  /** Taking the first piece off the front, at the first separator `k`: one
      step of a framing loop. */
  lemma CompleteStep<T>(s: seq<T>, sep: T, k: nat)
    requires k < |s| && s[k] == sep && sep !in s[..k]
    ensures Complete(s, sep) == [s[..k]] + Complete(s[k + 1..], sep)
    ensures Rest(s, sep) == Rest(s[k + 1..], sep)
  {
    SplitAt(s, sep, k);
    CompleteOfSplit(s, sep, s[..k], Split(s[k + 1..], sep));
  }

  lemma CompleteOfSplit<T>(s: seq<T>, sep: T, head: seq<T>, tail: seq<seq<T>>)
    requires |tail| > 0 && Split(s, sep) == [head] + tail
    ensures Complete(s, sep) == [head] + tail[..|tail| - 1]
    ensures Rest(s, sep) == tail[|tail| - 1]
  {
    InitCons(head, tail);
  }

  /** Without a separator nothing is complete and everything remains. */
  lemma CompleteNone<T>(s: seq<T>, sep: T)
    requires sep !in s
    ensures Complete(s, sep) == [] && Rest(s, sep) == s
  {
  }

  /** A separator-free piece followed by the separator splits off first. */
  lemma SplitCons<T>(head: seq<T>, sep: T, rest: seq<T>)
    requires sep !in head
    ensures Split(head + [sep] + rest, sep) == [head] + Split(rest, sep)
  {
    var s := head + [sep] + rest;
    assert s[|head|] == sep && s[..|head|] == head;
    SplitAt(s, sep, |head|);
    assert s[|head| + 1..] == rest;
  }

  lemma InitCons<U>(h: U, t: seq<U>)
    requires |t| > 0
    ensures ([h] + t)[..|t|] == [h] + t[..|t| - 1]
    ensures ([h] + t)[|t|] == t[|t| - 1]
  {
  }

  lemma InitLast<U>(a: seq<U>, b: seq<U>)
    requires |b| > 0
    ensures (a + b)[..|a + b| - 1] == a + b[..|b| - 1]
    ensures (a + b)[|a + b| - 1] == b[|b| - 1]
  {
  }

  lemma AppendAssoc<U>(a: seq<U>, b: seq<U>, c: seq<U>)
    ensures a + (b + c) == (a + b) + c
  {
  }

  lemma ConsAppend<U>(a: seq<U>, b: seq<U>)
    requires |a| > 0
    ensures a + b == [a[0]] + (a[1..] + b)
  {
  }

  lemma SeparatorFreeTail<T>(lines: seq<seq<T>>, sep: T)
    requires |lines| > 0 && SeparatorFree(lines, sep)
    ensures SeparatorFree(lines[1..], sep)
  {
    forall i | 0 <= i < |lines| - 1 ensures sep !in lines[1..][i] { assert lines[1..][i] == lines[i + 1]; }
  }

  /** Complete lines in front of a text are split off as they are. */
  lemma {:induction false} SplitAfterLines<T>(lines: seq<seq<T>>, t: seq<T>, sep: T)
    requires SeparatorFree(lines, sep)
    ensures Split(Terminated(lines, sep) + t, sep) == lines + Split(t, sep)
    decreases |lines|
  {
    if |lines| == 0 {
      assert Terminated(lines, sep) + t == t;
    } else {
      var rest := Terminated(lines[1..], sep) + t;
      assert Terminated(lines, sep) + t == lines[0] + [sep] + rest;
      SplitCons(lines[0], sep, rest);
      SeparatorFreeTail(lines, sep);
      SplitAfterLines(lines[1..], t, sep);
      ConsAppend(lines, Split(t, sep));
    }
  }

  /** Complete lines in front of a text are framed off as they are. */
  lemma CompleteAfterLines<T>(lines: seq<seq<T>>, t: seq<T>, sep: T)
    requires SeparatorFree(lines, sep)
    ensures Complete(Terminated(lines, sep) + t, sep) == lines + Complete(t, sep)
    ensures Rest(Terminated(lines, sep) + t, sep) == Rest(t, sep)
  {
    SplitAfterLines(lines, t, sep);
    var tail := Split(t, sep);
    var parts := lines + tail;
    assert parts[|parts| - 1] == tail[|tail| - 1];
    assert parts[..|parts| - 1] == lines + tail[..|tail| - 1];
  }

  /** Splitting at a separator splits the two sides independently. */
  lemma {:induction false} SplitAround<T>(a: seq<T>, sep: T, b: seq<T>)
    ensures Split(a + [sep] + b, sep) == Split(a, sep) + Split(b, sep)
    decreases |a|
  {
    var s := a + [sep] + b;
    if sep in a {
      var k := IndexOf(a, sep);
      assert s[k] == sep && s[..k] == a[..k];
      SplitAt(s, sep, k);
      assert s[k + 1..] == a[k + 1..] + [sep] + b;
      SplitAround(a[k + 1..], sep, b);
      AppendAssoc([a[..k]], Split(a[k + 1..], sep), Split(b, sep));
    } else {
      SplitCons(a, sep, b);
    }
  }

  /** The first occurrence is the only index with no earlier occurrence. */
  lemma IndexOfUnique<T>(s: seq<T>, x: T, k: nat)
    requires k < |s| && s[k] == x && x !in s[..k]
    ensures IndexOf(s, x) == k
  {
  }

  /** Splitting at the first separator, given by its index. */
  lemma SplitAt<T>(s: seq<T>, sep: T, k: nat)
    requires k < |s| && s[k] == sep && sep !in s[..k]
    ensures Split(s, sep) == [s[..k]] + Split(s[k + 1..], sep)
  {
    IndexOfUnique(s, sep, k);
  }

  // ---------------------------------------------------------------------
  // Characters and whitespace

  /** Python's `str.isspace` for one character; the same set is what `\s`
      matches in a `str` regular expression and what `str.strip()` removes. */
  predicate IsSpace(c: char)
  {
    ('\t' <= c <= '\r') || ('\U{1C}' <= c <= '\U{1F}') || c == ' ' || c == '\U{85}' || c == '\U{A0}'
    || c == '\U{1680}' || ('\U{2000}' <= c <= '\U{200A}') || c == '\U{2028}' || c == '\U{2029}'
    || c == '\U{202F}' || c == '\U{205F}' || c == '\U{3000}'
  }

  /** Every character of `s` is whitespace (`not s.strip()`). */
  predicate IsBlank(s: string)
  {
    forall i | 0 <= i < |s| :: IsSpace(s[i])
  }

  /** The number of whitespace characters `s` starts with. */
  function LeadingBlanks(s: string): (n: nat)
    ensures n <= |s|
    ensures IsBlank(s[..n])
    ensures n < |s| ==> !IsSpace(s[n])
    decreases |s|
  {
    if |s| > 0 && IsSpace(s[0]) then
      var m := LeadingBlanks(s[1..]);
      assert s[..m + 1] == [s[0]] + s[1..][..m];
      assert m < |s| - 1 ==> s[m + 1] == s[1..][m];
      1 + m
    else 0
  }

  /** `s.lstrip()`. */
  function LStrip(s: string): (r: string)
    ensures r != [] ==> !IsSpace(r[0])
  {
    s[LeadingBlanks(s)..]
  }

  /** Leading whitespace makes no difference to `lstrip`. */
  lemma {:induction false} LeadingBlanksPrefix(w: string, s: string)
    requires IsBlank(w)
    ensures LeadingBlanks(w + s) == |w| + LeadingBlanks(s)
  {
    if w != [] {
      assert IsBlank(w[1..]) by {
        forall i | 0 <= i < |w| - 1 ensures IsSpace(w[1..][i]) { assert w[1..][i] == w[i + 1]; }
      }
      assert (w + s)[0] == w[0] && IsSpace(w[0]);
      assert (w + s)[1..] == w[1..] + s;
      LeadingBlanksPrefix(w[1..], s);
    } else {
      assert w + s == s;
    }
  }

  lemma LStripBlankPrefix(w: string, s: string)
    requires IsBlank(w)
    ensures LStrip(w + s) == LStrip(s)
  {
    LeadingBlanksPrefix(w, s);
    assert (w + s)[|w| + LeadingBlanks(s)..] == s[LeadingBlanks(s)..];
  }

  /** A string is the blanks `lstrip` removes followed by what it keeps. */
  lemma LStripParts(s: string)
    ensures s == s[..LeadingBlanks(s)] + LStrip(s)
    ensures IsBlank(s[..LeadingBlanks(s)])
  {
    var n := LeadingBlanks(s);
    assert s == s[..n] + s[n..];
  }

  /** The length of `s` without its trailing whitespace. */
  function TrailingStart(s: string): (n: nat)
    ensures n <= |s|
    ensures IsBlank(s[n..])
    ensures n > 0 ==> !IsSpace(s[n - 1])
    decreases |s|
  {
    if |s| > 0 && IsSpace(s[|s| - 1]) then
      var m := TrailingStart(s[..|s| - 1]);
      assert s[m..] == s[..|s| - 1][m..] + [s[|s| - 1]];
      assert m > 0 ==> s[m - 1] == s[..|s| - 1][m - 1];
      m
    else |s|
  }

  /** `s.rstrip()`. */
  function RStrip(s: string): (r: string)
    ensures r != [] ==> !IsSpace(r[|r| - 1])
  {
    s[..TrailingStart(s)]
  }

  /** The length of `s` without its trailing run of `c`. */
  function CharRunStart(s: string, c: char): (n: nat)
    ensures n <= |s|
    ensures forall i | n <= i < |s| :: s[i] == c
    ensures n > 0 ==> s[n - 1] != c
    decreases |s|
  {
    if |s| > 0 && s[|s| - 1] == c then
      var m := CharRunStart(s[..|s| - 1], c);
      assert forall i | m <= i < |s| - 1 :: s[i] == s[..|s| - 1][i];
      assert m > 0 ==> s[m - 1] == s[..|s| - 1][m - 1];
      m
    else |s|
  }

  /** `s.rstrip(c)` for a single character `c`. */
  function RStripChar(s: string, c: char): (r: string)
    ensures r != [] ==> r[|r| - 1] != c
  {
    s[..CharRunStart(s, c)]
  }

  /** `s.strip()`: the substring left after removing surrounding whitespace. */
  function Strip(s: string): (r: string)
    ensures r == s[StripStart(s)..StripEnd(s)]
    ensures r != [] ==> !IsSpace(r[0]) && !IsSpace(r[|r| - 1])
    ensures r == [] <==> IsBlank(s)
  {
    var l := LStrip(s);
    var r := RStrip(l);
    var a := LeadingBlanks(s);
    assert r == s[a..a + TrailingStart(l)];
    assert r == [] <==> IsBlank(s) by {
      if r != [] {
        assert l[0] == s[a];
      } else {
        assert a == |s|;
      }
    }
    r
  }

  /** Where `Strip(s)` begins in `s`: the number of leading blanks. */
  function StripStart(s: string): (a: nat)
    ensures a <= |s|
  {
    LeadingBlanks(s)
  }

  /** Where `Strip(s)` ends in `s`. */
  function StripEnd(s: string): (e: nat)
    ensures StripStart(s) <= e <= |s|
  {
    LeadingBlanks(s) + TrailingStart(LStrip(s))
  }

  /** A stripped, non-blank string is its own strip. */
  lemma StripStable(s: string)
    requires s == [] || (!IsSpace(s[0]) && !IsSpace(s[|s| - 1]))
    ensures Strip(s) == s
  {
  }

  /** Stripping removes exactly the blanks around a word that has none at its ends. */
  lemma StripAround(a: string, w: string, b: string)
    requires IsBlank(a) && IsBlank(b)
    requires w != [] && !IsSpace(w[0]) && !IsSpace(w[|w| - 1])
    ensures Strip(a + w + b) == w
  {
    var s := a + w + b;
    assert forall i | 0 <= i < |a| :: IsSpace(s[i]) by {
      forall i | 0 <= i < |a| ensures IsSpace(s[i]) { assert s[i] == a[i]; }
    }
    assert s[|a|] == w[0];
    assert LeadingBlanks(s) == |a|;
    var l := LStrip(s);
    assert l == w + b;
    assert forall i | |w| <= i < |l| :: IsSpace(l[i]) by {
      forall i | |w| <= i < |l| ensures IsSpace(l[i]) { assert l[i] == b[i - |w|]; }
    }
    assert l[|w| - 1] == w[|w| - 1];
    assert TrailingStart(l) == |w|;
    assert s[|a|..|a| + |w|] == w;
  }

  /** `s.replace(from, to)` for single characters. */
  function ReplaceChar(s: string, from: char, to: char): (r: string)
    ensures |r| == |s|
    ensures forall i | 0 <= i < |s| :: r[i] == (if s[i] == from then to else s[i])
  {
    if |s| == 0 then [] else [if s[0] == from then to else s[0]] + ReplaceChar(s[1..], from, to)
  }

  /** `p` occurs in `s` starting at index `i`. */
  predicate OccursAt(s: string, p: string, i: int)
  {
    0 <= i && i + |p| <= |s| && s[i..i + |p|] == p
  }

  /** Python's `p in s` on strings: `p` occurs in `s` as a contiguous piece. */
  function Contains(s: string, p: string): (b: bool)
    ensures b <==> exists i :: OccursAt(s, p, i)
    decreases |s|
  {
    if |p| > |s| then false
    else if s[..|p|] == p then assert OccursAt(s, p, 0); true
    else
      var b := Contains(s[1..], p);
      forall i | 0 <= i ensures OccursAt(s[1..], p, i) <==> OccursAt(s, p, i + 1) {
        OccursShift(s, p, i);
      }
      assert b ==> OccursAt(s, p, 1 + (var j :| OccursAt(s[1..], p, j); j));
      assert (exists i :: OccursAt(s, p, i)) ==> b by {
        if exists i :: OccursAt(s, p, i) {
          var i :| OccursAt(s, p, i);
          assert i != 0;
          assert OccursAt(s[1..], p, i - 1);
        }
      }
      b
  }

  lemma OccursShift(s: string, p: string, i: nat)
    requires |s| > 0
    ensures OccursAt(s[1..], p, i) <==> OccursAt(s, p, i + 1)
  {
    if i + |p| <= |s| - 1 {
      assert s[1..][i..i + |p|] == s[i + 1..i + 1 + |p|];
    }
  }

  // ---------------------------------------------------------------------
  // Decimal rendering

  function DigitChar(d: nat): (c: char)
    requires d < 10
    ensures '0' <= c <= '9'
  {
    ['0', '1', '2', '3', '4', '5', '6', '7', '8', '9'][d]
  }

  /** `str(n)` for a non-negative integer. */
  function NatToString(n: nat): (s: string)
    ensures |s| >= 1
    ensures forall i | 0 <= i < |s| :: '0' <= s[i] <= '9'
    ensures n > 0 ==> s[0] != '0'
  {
    if n < 10 then [DigitChar(n)] else NatToString(n / 10) + [DigitChar(n % 10)]
  }

  /** `str(i)` for any integer. */
  function IntToString(i: int): (s: string)
    ensures |s| >= 1
    ensures forall k | 0 <= k < |s| :: s[k] == '-' || '0' <= s[k] <= '9'
  {
    if i < 0 then "-" + NatToString(-i) else NatToString(i)
  }

  /** `text` is the complete lines `consumed`, each followed by `sep`,
      and then `buffer`. */
  ghost predicate Framed<T>(text: seq<T>, consumed: seq<seq<T>>, buffer: seq<T>, sep: T)
  {
    text == Terminated(consumed, sep) + buffer && SeparatorFree(consumed, sep)
  }

  /** Splitting off the first complete line keeps the framing. */
  lemma FramedStep<T>(text: seq<T>, consumed: seq<seq<T>>, buffer: seq<T>, sep: T)
    requires Framed(text, consumed, buffer, sep) && sep in buffer
    ensures Framed(text, consumed + [buffer[..IndexOf(buffer, sep)]], buffer[IndexOf(buffer, sep) + 1..], sep)
  {
    var k := IndexOf(buffer, sep);
    var line, rest := buffer[..k], buffer[k + 1..];
    var more := consumed + [line];
    assert Terminated([line], sep) == line + [sep] by {
      assert Terminated([line], sep) == line + [sep] + Terminated([], sep);
    }
    TerminatedAppend(consumed, [line], sep);
    assert buffer == (line + [sep]) + rest;
    assert text == Terminated(more, sep) + rest;
    forall i | 0 <= i < |more| ensures sep !in more[i] {
      if i < |consumed| { assert more[i] == consumed[i]; }
    }
  }

  /** Once no separator is left, the framing gives the complete lines and the rest. */
  lemma FramedDone<T>(text: seq<T>, consumed: seq<seq<T>>, buffer: seq<T>, sep: T)
    requires Framed(text, consumed, buffer, sep) && sep !in buffer
    ensures Complete(text, sep) == consumed && Rest(text, sep) == buffer
  {
    CompleteAfterLines(consumed, buffer, sep);
    CompleteNone(buffer, sep);
  }

  /** Framing does not depend on where a text is cut: the complete lines of
      `s + t` are those of `s`, then those of what `s` left over followed by `t`. */
  lemma CompleteConcat<T>(s: seq<T>, t: seq<T>, sep: T)
    ensures Complete(s + t, sep) == Complete(s, sep) + Complete(Rest(s, sep) + t, sep)
    ensures Rest(s + t, sep) == Rest(Rest(s, sep) + t, sep)
  {
    FrameSplit(s, sep);
    assert s + t == Terminated(Complete(s, sep), sep) + (Rest(s, sep) + t);
    CompleteAfterLines(Complete(s, sep), Rest(s, sep) + t, sep);
  }

  /** Replacing characters piece by piece. */
  lemma {:induction false} ReplaceCharConcat(s: string, t: string, from: char, to: char)
    ensures ReplaceChar(s + t, from, to) == ReplaceChar(s, from, to) + ReplaceChar(t, from, to)
    decreases |s|
  {
    if |s| == 0 {
      assert s + t == t;
    } else {
      var c := [if s[0] == from then to else s[0]];
      assert (s + t)[0] == s[0];
      assert (s + t)[1..] == s[1..] + t;
      ReplaceCharConcat(s[1..], t, from, to);
      AppendAssoc(c, ReplaceChar(s[1..], from, to), ReplaceChar(t, from, to));
    }
  }
}
