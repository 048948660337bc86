/** The in-band marker protocol of the bridge: a game line of the form
    `NOESIS: k=v|k=v|...` carries one event as key/value fields.
    `parse_noesis_kv` first matches `^\s*NOESIS:?\s*(.*)$` (case-sensitive,
    colon optional, no separator required), then splits the stripped payload
    on `|`, drops empty fields, skips fields without `=`, splits the rest at
    their first `=`, strips keys and values, and lets a later key overwrite an
    earlier one. */
module NoesisKv {
  import opened Text

  // ---------------------------------------------------------------------
  // The marker regular expression

  /** No newline except possibly as the last character. */
  predicate NewlineOnlyAtEnd(t: string)
  {
    forall i | 0 <= i < |t| - 1 :: t[i] != '\n'
  }

  /** What `(.*)$` leaves as the group: all but a final newline. */
  function DropFinalNewline(t: string): (r: string)
    ensures NewlineOnlyAtEnd(t) ==> '\n' !in r
    ensures r != [] ==> t != [] && r[0] == t[0]
  {
    if t != [] && t[|t| - 1] == '\n' then
      var r := t[..|t| - 1];
      assert NewlineOnlyAtEnd(t) ==> '\n' !in r by {
        if NewlineOnlyAtEnd(t) { forall i | 0 <= i < |r| ensures r[i] != '\n' { assert r[i] == t[i]; } }
      }
      r
    else
      assert NewlineOnlyAtEnd(t) ==> '\n' !in t by {
        if NewlineOnlyAtEnd(t) { forall i | 0 <= i < |t| ensures t[i] != '\n' { } }
      }
      t
  }

  /** The dropped part is nothing or one newline. */
  lemma DropFinalNewlineParts(t: string)
    ensures t == DropFinalNewline(t) + t[|DropFinalNewline(t)|..]
    ensures t[|DropFinalNewline(t)|..] == "" || t[|DropFinalNewline(t)|..] == "\n"
  {
  }

  /** `^\s*NOESIS`: what follows the tag, when the line starts with it after
      blanks. The leading `\s*` can only stop before the `N`. */
  function AfterTag(line: string): (b: Option<string>)
  {
    var a := LStrip(line);
    if |a| < 6 || a[..6] != "NOESIS" then None else Some(a[6..])
  }

  /** `:?\s*`: an optional colon (taken when present) and the greedy blanks. */
  function AfterColon(b: string): (rest: string)
    ensures rest != [] ==> !IsSpace(rest[0])
  {
    LStrip(if |b| > 0 && b[0] == ':' then b[1..] else b)
  }

  /** `NOESIS_PREFIX_RE.match(line)` and its group 1. `.` stops at the first
      newline and `$` matches at the end or before a final newline, so the match
      exists exactly when no newline comes before the last character of what
      follows the blanks. */
  function MarkerPayload(line: string): (g: Option<string>)
    ensures g.Some? ==> '\n' !in g.value
    ensures g.Some? && g.value != [] ==> !IsSpace(g.value[0])
  {
    match AfterTag(line)
    case None => None
    case Some(b) =>
      var rest := AfterColon(b);
      if NewlineOnlyAtEnd(rest) then Some(DropFinalNewline(rest)) else None
  }

  /** The regular expression read declaratively: `line` is blanks, `NOESIS`,
      an optional colon, blanks, the group `g` (no newline) and an optional
      final newline. */
  ghost predicate MatchesWith(line: string, w1: string, c: string, w2: string, g: string, nl: string)
  {
    IsBlank(w1) && (c == "" || c == ":") && IsBlank(w2) && '\n' !in g && (nl == "" || nl == "\n")
    && line == w1 + ("NOESIS" + (c + (w2 + (g + nl))))
  }

  ghost predicate Matches(line: string)
  {
    exists w1, c, w2, g, nl :: MatchesWith(line, w1, c, w2, g, nl)
  }

  /** Whatever the matcher accepts is a match of the expression, with the group
      it reports. */
  lemma MarkerSound(line: string)
    requires MarkerPayload(line).Some?
    ensures exists w1, c, w2, nl :: MatchesWith(line, w1, c, w2, MarkerPayload(line).value, nl)
  {
    var w1, c, w2, nl := MarkerPieces(line);
  }

  /** The pieces the matcher peels off a line it accepts. */
  lemma MarkerPieces(line: string) returns (w1: string, c: string, w2: string, nl: string)
    requires MarkerPayload(line).Some?
    ensures MatchesWith(line, w1, c, w2, MarkerPayload(line).value, nl)
  {
    w1 := TagPieces(line);
    var b := AfterTag(line).value;
    c, w2 := ColonPieces(b);
    var rest := AfterColon(b);
    var g := DropFinalNewline(rest);
    nl := rest[|g|..];
    DropFinalNewlineParts(rest);
  }

  /** The blanks before the tag. */
  lemma TagPieces(line: string) returns (w1: string)
    requires AfterTag(line).Some?
    ensures IsBlank(w1) && line == w1 + ("NOESIS" + AfterTag(line).value)
  {
    var a := LStrip(line);
    w1 := line[..LeadingBlanks(line)];
    LStripParts(line);
    assert a == a[..6] + a[6..];
  }

  /** The optional colon and the blanks after the tag. */
  lemma ColonPieces(b: string) returns (c: string, w2: string)
    ensures (c == "" || c == ":") && IsBlank(w2) && b == c + (w2 + AfterColon(b))
  {
    c := if |b| > 0 && b[0] == ':' then ":" else "";
    var cc := if |b| > 0 && b[0] == ':' then b[1..] else b;
    w2 := cc[..LeadingBlanks(cc)];
    LStripParts(cc);
    assert AfterColon(b) == LStrip(cc);
    if c == ":" { assert b == [b[0]] + b[1..]; }
    assert b == c + cc;
  }

  lemma NewlineOnlyAtEndSuffix(t: string, k: nat)
    requires NewlineOnlyAtEnd(t) && k <= |t|
    ensures NewlineOnlyAtEnd(t[k..])
  {
    forall i | 0 <= i < |t[k..]| - 1 ensures t[k..][i] != '\n' { assert t[k..][i] == t[k + i]; }
  }

  /** Blanks before the tag are skipped. */
  lemma TagComplete(w1: string, y: string)
    requires IsBlank(w1)
    ensures AfterTag(w1 + ("NOESIS" + y)) == Some(y)
  {
    var x := "NOESIS" + y;
    LStripBlankPrefix(w1, x);
    assert LeadingBlanks(x) == 0;
    assert LStrip(x) == x;
  }

  /** After an optional colon and blanks, what the group may hold keeps its
      single possible newline at the end. */
  lemma ColonComplete(c: string, w2: string, t: string)
    requires (c == "" || c == ":") && IsBlank(w2) && NewlineOnlyAtEnd(t)
    ensures NewlineOnlyAtEnd(AfterColon(c + (w2 + t)))
  {
    var b := c + (w2 + t);
    if c == ":" {
      assert b[1..] == w2 + t;
      LStripBlankPrefix(w2, t);
      NewlineOnlyAtEndSuffix(t, LeadingBlanks(t));
    } else if |b| > 0 && b[0] == ':' {
      assert w2 == [];
      assert b[1..] == t[1..];
      NewlineOnlyAtEndSuffix(t, 1);
      NewlineOnlyAtEndSuffix(t[1..], LeadingBlanks(t[1..]));
    } else {
      assert b == w2 + t;
      LStripBlankPrefix(w2, t);
      NewlineOnlyAtEndSuffix(t, LeadingBlanks(t));
    }
  }

  /** Every match of the expression is accepted by the matcher. */
  lemma MarkerComplete(line: string, w1: string, c: string, w2: string, g: string, nl: string)
    requires MatchesWith(line, w1, c, w2, g, nl)
    ensures MarkerPayload(line).Some?
  {
    var t := g + nl;
    assert NewlineOnlyAtEnd(t) by {
      forall i | 0 <= i < |t| - 1 ensures t[i] != '\n' { assert t[i] == g[i]; }
    }
    TagComplete(w1, c + (w2 + t));
    ColonComplete(c, w2, t);
  }

  /** The matcher decides exactly the language of the expression. */
  lemma MarkerIffMatches(line: string)
    ensures MarkerPayload(line).Some? <==> Matches(line)
  {
    if MarkerPayload(line).Some? {
      MarkerSound(line);
    }
    if Matches(line) {
      var w1, c, w2, g, nl :| MatchesWith(line, w1, c, w2, g, nl);
      MarkerComplete(line, w1, c, w2, g, nl);
    }
  }

  /** A group without a newline is reported whole. */
  lemma PayloadWithoutNewline(g: string)
    requires '\n' !in g
    ensures NewlineOnlyAtEnd(g) && DropFinalNewline(g) == g
  {
  }

  /** The group is determined by the line: once the blanks after the optional
      colon are taken, what remains (without a final newline) is reported. */
  lemma MarkerGroup(w1: string, c: string, w2: string, g: string)
    requires IsBlank(w1) && (c == "" || c == ":") && IsBlank(w2) && '\n' !in g
    requires g == [] || !IsSpace(g[0])
    requires c == "" && w2 == [] && g != [] ==> g[0] != ':'
    ensures MarkerPayload(w1 + ("NOESIS" + (c + (w2 + g)))) == Some(g)
  {
    TagComplete(w1, c + (w2 + g));
    ColonGroup(c, w2, g);
    PayloadWithoutNewline(g);
  }

  /** The optional colon and the blanks after it are taken, and nothing more. */
  lemma ColonGroup(c: string, w2: string, g: string)
    requires (c == "" || c == ":") && IsBlank(w2)
    requires g == [] || !IsSpace(g[0])
    requires c == "" && w2 == [] && g != [] ==> g[0] != ':'
    ensures AfterColon(c + (w2 + g)) == g
  {
    var b := c + (w2 + g);
    assert LStrip(g) == g by { assert LeadingBlanks(g) == 0; }
    if c == ":" {
      assert b[1..] == w2 + g;
    } else {
      assert b == w2 + g;
      assert !(|b| > 0 && b[0] == ':') by {
        if w2 != [] { assert b[0] == w2[0]; }
      }
    }
    LStripBlankPrefix(w2, g);
  }

  /** The tag may be followed directly by the first field. */
  lemma MarkerExampleBare(line: string)
    requires line == "NOESISt=SAY"
    ensures MarkerPayload(line) == Some("t=SAY")
  {
    var g := "t=SAY";
    assert line == "NOESIS" + g;
    assert "" + ("NOESIS" + ("" + ("" + g))) == "NOESIS" + g;
    MarkerGroup("", "", "", g);
  }

  /** Blanks before the tag and after the colon are skipped. */
  lemma MarkerExampleSpaced(line: string)
    requires line == "  NOESIS:  t=SAY"
    ensures MarkerPayload(line) == Some("t=SAY")
  {
    var w, g := "  ", "t=SAY";
    assert IsBlank(w) by { assert IsSpace(w[0]) && IsSpace(w[1]); }
    assert line == w + ("NOESIS" + (":" + (w + g)));
    MarkerGroup(w, ":", w, g);
  }

  /** The tag is case-sensitive. */
  lemma MarkerExampleLowerCase()
    ensures MarkerPayload("noesis: t=SAY") == None
  {
    var a := "noesis: t=SAY";
    assert LeadingBlanks(a) == 0;
    assert LStrip(a) == a;
    assert a[..6][0] != "NOESIS"[0];
  }

  /** The tag must open the line. */
  lemma MarkerExampleNotFirst()
    ensures MarkerPayload("say NOESIS: t=SAY") == None
  {
    var a := "say NOESIS: t=SAY";
    assert LeadingBlanks(a) == 0;
    assert LStrip(a) == a;
    assert a[..6][0] != "NOESIS"[0];
  }

  // ---------------------------------------------------------------------
  // Fields and pairs

  /** `[p for p in payload.split("|") if p]`. */
  function Fields(payload: string): (fields: seq<string>)
    ensures forall i | 0 <= i < |fields| :: fields[i] != [] && '|' !in fields[i]
  {
    NonEmpty(Split(payload, '|'))
  }

  /** The pieces that are not empty, in order. */
  function NonEmpty(parts: seq<string>): (r: seq<string>)
    ensures forall i | 0 <= i < |r| :: r[i] != [] && r[i] in parts
    ensures |r| <= |parts|
  {
    if parts == [] then []
    else
      var rest := NonEmpty(parts[1..]);
      if parts[0] == [] then rest else [parts[0]] + rest
  }

  /** One field: `k, v = p.split("=", 1)` stripped, or nothing without `=`. */
  function FieldPair(field: string): (kv: Option<(string, string)>)
    ensures kv.None? <==> '=' !in field
  {
    if '=' in field then
      var j := IndexOf(field, '=');
      Some((Strip(field[..j]), Strip(field[j + 1..])))
    else None
  }

  /** The pair of each field, in order. */
  function Decoded(fields: seq<string>): (ps: seq<Option<(string, string)>>)
    ensures |ps| == |fields|
    ensures forall i | 0 <= i < |fields| :: ps[i] == FieldPair(fields[i])
  {
    seq(|fields|, i requires 0 <= i < |fields| => FieldPair(fields[i]))
  }

  /** The dictionary the loop builds from decoded fields: in order, later keys
      overwriting earlier ones, fields without a pair skipped. */
  function Collect(ps: seq<Option<(string, string)>>): (kv: map<string, string>)
  {
    if ps == [] then map[]
    else
      var kv := Collect(ps[..|ps| - 1]);
      match ps[|ps| - 1]
      case None => kv
      case Some((k, v)) => kv[k := v]
  }

  /** Some decoded field carries key `k`. */
  ghost predicate HasKey(ps: seq<Option<(string, string)>>, k: string)
  {
    exists i | 0 <= i < |ps| :: ps[i].Some? && ps[i].value.0 == k
  }

  /** `parse_noesis_kv(line)`. */
  function ParseKv(line: string): (r: Option<map<string, string>>)
    ensures r.Some? ==> r.value != map[]
  {
    match MarkerPayload(line)
    case None => None
    case Some(g) =>
      var payload := Strip(g);
      if payload == [] then None
      else
        var kv := Collect(Decoded(Fields(payload)));
        if kv == map[] then None else Some(kv)
  }

  /** `parse_noesis_kv` as written: a loop filling the dictionary. */
  method ParseNoesisKv(line: string) returns (r: Option<map<string, string>>)
    ensures r == ParseKv(line)
  {
    var m := MarkerPayload(line);
    if m.None? {
      return None;
    }
    var payload := Strip(m.value);
    if payload == [] {
      return None;
    }
    var parts := Fields(payload);
    ghost var ps := Decoded(parts);
    var kv: map<string, string> := map[];
    for i := 0 to |parts|
      invariant kv == Collect(ps[..i])
    {
      var p := parts[i];
      CollectStep(ps, i);
      if '=' in p {
        var j := IndexOf(p, '=');
        kv := kv[Strip(p[..j]) := Strip(p[j + 1..])];
      }
    }
    assert ps[..|parts|] == ps;
    r := if kv == map[] then None else Some(kv);
  }

  /** One more field folded in. */
  lemma CollectStep(ps: seq<Option<(string, string)>>, i: nat)
    requires i < |ps|
    ensures ps[i].None? ==> Collect(ps[..i + 1]) == Collect(ps[..i])
    ensures ps[i].Some? ==> Collect(ps[..i + 1]) == Collect(ps[..i])[ps[i].value.0 := ps[i].value.1]
  {
    assert ps[..i + 1][..i] == ps[..i];
  }

  // ---------------------------------------------------------------------
  // Properties of the decoded fields

  /** A key is present exactly when some field carries it. */
  lemma {:induction false} CollectKeys(ps: seq<Option<(string, string)>>, k: string)
    ensures k in Collect(ps) <==> HasKey(ps, k)
  {
    if ps != [] {
      var init := ps[..|ps| - 1];
      CollectKeys(init, k);
      if HasKey(init, k) {
        var i :| 0 <= i < |init| && init[i].Some? && init[i].value.0 == k;
        assert ps[i] == init[i];
      }
      if HasKey(ps, k) && ps[|ps| - 1].None? {
        var i :| 0 <= i < |ps| && ps[i].Some? && ps[i].value.0 == k;
        assert init[i] == ps[i];
      }
    }
  }

  /** A later duplicate overwrites an earlier one: the value of a key is the
      one in its last field. */
  lemma {:induction false} CollectLastWins(ps: seq<Option<(string, string)>>, i: nat, k: string, v: string)
    requires i < |ps| && ps[i] == Some((k, v))
    requires forall j | i < j < |ps| :: ps[j].None? || ps[j].value.0 != k
    ensures k in Collect(ps) && Collect(ps)[k] == v
  {
    if i < |ps| - 1 {
      var init := ps[..|ps| - 1];
      assert init[i] == ps[i];
      forall j | i < j < |init| ensures init[j].None? || init[j].value.0 != k {
        assert init[j] == ps[j];
      }
      CollectLastWins(init, i, k, v);
    }
  }

  /** The dictionary is empty exactly when no field decodes to a pair. */
  lemma CollectEmpty(ps: seq<Option<(string, string)>>)
    ensures Collect(ps) == map[] <==> forall i | 0 <= i < |ps| :: ps[i].None?
  {
    if Collect(ps) == map[] {
      forall i | 0 <= i < |ps| ensures ps[i].None? {
        if ps[i].Some? { CollectKeys(ps, ps[i].value.0); }
      }
    } else {
      var k :| k in Collect(ps);
      CollectKeys(ps, k);
    }
  }

  /** No dictionary comes back exactly when the line is not a marker, its
      payload is blank, or none of its fields holds `=`. */
  lemma ParseKvNone(line: string)
    ensures ParseKv(line).None? <==>
      MarkerPayload(line).None? || Strip(MarkerPayload(line).value) == [] ||
      forall i | 0 <= i < |Fields(Strip(MarkerPayload(line).value))| ::
        '=' !in Fields(Strip(MarkerPayload(line).value))[i]
  {
    if MarkerPayload(line).Some? && Strip(MarkerPayload(line).value) != [] {
      var fields := Fields(Strip(MarkerPayload(line).value));
      CollectEmpty(Decoded(fields));
    }
  }

  /** A key of the result is the key of some field of the payload. */
  lemma ParseKvKeys(line: string, k: string)
    requires ParseKv(line).Some?
    ensures k in ParseKv(line).value <==>
      exists i | 0 <= i < |Fields(Strip(MarkerPayload(line).value))| ::
        FieldPair(Fields(Strip(MarkerPayload(line).value))[i]).Some? &&
        FieldPair(Fields(Strip(MarkerPayload(line).value))[i]).value.0 == k
  {
    var ps := Decoded(Fields(Strip(MarkerPayload(line).value)));
    CollectKeys(ps, k);
  }

  /** A field splits at its first `=` only, so a value may itself contain `=`;
      surrounding blanks of key and value are dropped. */
  lemma FieldSplitsAtFirstEquals(k: string, v: string)
    requires '=' !in k
    ensures FieldPair(k + "=" + v) == Some((Strip(k), Strip(v)))
  {
    var f := k + "=" + v;
    assert f[|k|] == '=' && f[..|k|] == k && f[|k| + 1..] == v;
    FieldPairAt(f, |k|);
  }

  /** A field splits at its first `=`, given by its index. */
  lemma FieldPairAt(field: string, j: nat)
    requires j < |field| && field[j] == '=' && '=' !in field[..j]
    ensures FieldPair(field) == Some((Strip(field[..j]), Strip(field[j + 1..])))
  {
    IndexOfUnique(field, '=', j);
  }

  // ---------------------------------------------------------------------
  // The producer's format

  /** `k=v`. */
  function FieldText(p: (string, string)): (t: string)
  {
    p.0 + "=" + p.1
  }

  /** A marker line carrying `pairs` in order: `NOESIS: k1=v1|k2=v2|...`. */
  function FormatLine(pairs: seq<(string, string)>): (line: string)
  {
    "NOESIS: " + Join(seq(|pairs|, i requires 0 <= i < |pairs| => FieldText(pairs[i])), '|')
  }

  /** Text `strip` leaves alone: empty, or no blank at either end. */
  predicate Stripped(s: string)
  {
    s == [] || (!IsSpace(s[0]) && !IsSpace(s[|s| - 1]))
  }

  /** A pair that survives the trip: key and value already stripped, free of
      `|` and newlines, and the key free of `=`. */
  predicate WritablePair(p: (string, string))
  {
    Stripped(p.0) && Stripped(p.1) && '=' !in p.0 &&
    '|' !in p.0 && '|' !in p.1 && '\n' !in p.0 && '\n' !in p.1
  }

  predicate Writable(pairs: seq<(string, string)>)
  {
    |pairs| >= 1 && forall i | 0 <= i < |pairs| :: WritablePair(pairs[i])
  }

  /** One writable field reads back as its pair. */
  lemma FieldRoundTrip(p: (string, string))
    requires WritablePair(p)
    ensures FieldPair(FieldText(p)) == Some(p)
  {
    var f := FieldText(p);
    assert f[|p.0|] == '=' && f[..|p.0|] == p.0 && f[|p.0| + 1..] == p.1;
    FieldPairAt(f, |p.0|);
    StrippedPair(p);
  }

  lemma StrippedPair(p: (string, string))
    requires Stripped(p.0) && Stripped(p.1)
    ensures (Strip(p.0), Strip(p.1)) == p
  {
    StripStable(p.0);
    StripStable(p.1);
  }

  /** What a writable field looks like as text. */
  lemma FieldTextShape(p: (string, string))
    requires WritablePair(p)
    ensures FieldText(p) != [] && '|' !in FieldText(p) && '\n' !in FieldText(p)
    ensures !IsSpace(FieldText(p)[0]) && !IsSpace(FieldText(p)[|FieldText(p)| - 1])
  {
    var t := FieldText(p);
    assert t == p.0 + "=" + p.1;
    if p.0 != [] { assert t[0] == p.0[0]; } else { assert t[0] == '='; }
    if p.1 != [] { assert t[|t| - 1] == p.1[|p.1| - 1]; } else { assert t[|t| - 1] == '='; }
  }

  /** The pieces that are not empty are all of them when none is empty. */
  lemma {:induction false} NonEmptyAll(parts: seq<string>)
    requires forall i | 0 <= i < |parts| :: parts[i] != []
    ensures NonEmpty(parts) == parts
  {
    if parts != [] {
      var tail := parts[1..];
      forall i | 0 <= i < |tail| ensures tail[i] != [] {
        assert tail[i] == parts[i + 1];
      }
      NonEmptyAll(tail);
      assert parts[0] != [];
      assert [parts[0]] + tail == parts;
    }
  }

  /** The pairs as decoded fields, every one present. */
  function Pairs(pairs: seq<(string, string)>): (ps: seq<Option<(string, string)>>)
    ensures |ps| == |pairs| && forall i | 0 <= i < |pairs| :: ps[i] == Some(pairs[i])
  {
    seq(|pairs|, i requires 0 <= i < |pairs| => Some(pairs[i]))
  }

  /** Formatting then parsing gives back the pairs, folded into a dictionary
      in order with later keys winning. */
  lemma FormatRoundTrip(pairs: seq<(string, string)>)
    requires Writable(pairs)
    ensures ParseKv(FormatLine(pairs)) == Some(Collect(Pairs(pairs)))
  {
    var texts := seq(|pairs|, i requires 0 <= i < |pairs| => FieldText(pairs[i]));
    var body := Join(texts, '|');
    var somes := Pairs(pairs);
    BodyShape(pairs, texts);
    assert FormatLine(pairs) == "" + ("NOESIS" + (":" + (" " + body)));
    assert IsBlank(" ") by { assert IsSpace(" "[0]); }
    MarkerGroup("", ":", " ", body);
    StripStable(body);
    assert Fields(body) == texts by {
      SplitJoin(texts, '|');
      NonEmptyAll(texts);
    }
    DecodedRoundTrip(pairs, texts, somes);
    CollectEmpty(somes);
    assert somes[0].Some?;
  }

  /** Each formatted field decodes to its pair. */
  lemma DecodedRoundTrip(pairs: seq<(string, string)>, texts: seq<string>, somes: seq<Option<(string, string)>>)
    requires Writable(pairs)
    requires texts == seq(|pairs|, i requires 0 <= i < |pairs| => FieldText(pairs[i]))
    requires somes == Pairs(pairs)
    ensures Decoded(texts) == somes
  {
    var ps := Decoded(texts);
    forall i | 0 <= i < |pairs| ensures ps[i] == somes[i] {
      FieldRoundTrip(pairs[i]);
    }
  }

  /** What the round trip needs of the joined fields. */
  lemma BodyShape(pairs: seq<(string, string)>, texts: seq<string>)
    requires Writable(pairs)
    requires texts == seq(|pairs|, i requires 0 <= i < |pairs| => FieldText(pairs[i]))
    ensures SeparatorFree(texts, '|')
    ensures forall i | 0 <= i < |texts| :: texts[i] != []
    ensures '\n' !in Join(texts, '|')
    ensures Join(texts, '|') != []
    ensures !IsSpace(Join(texts, '|')[0]) && !IsSpace(Join(texts, '|')[|Join(texts, '|')| - 1])
  {
    forall i | 0 <= i < |texts| ensures texts[i] != [] && '|' !in texts[i] && '\n' !in texts[i] {
      FieldTextShape(pairs[i]);
    }
    JoinFree(texts, '|', '\n');
    JoinEnds(texts, '|');
    FieldTextShape(pairs[0]);
    FieldTextShape(pairs[|pairs| - 1]);
  }
}
