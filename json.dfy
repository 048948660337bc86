/** The part of `json.dumps(value, ensure_ascii=False)` the bridge relies on:
    strings, integers, lists and objects (dicts keep insertion order), written
    with the default separators ", " and ": ". A string is quoted, with `"`, `\`
    and the control characters below U+0020 escaped and every other character
    written as itself. */
module Json {
  import opened Text

  datatype Json =
    | JStr(str: string)
    | JInt(num: int)
    | JArr(items: seq<Json>)
    | JObj(members: seq<Member>)

  datatype Member = Member(key: string, value: Json)

  /** The lower-case hexadecimal digit of `d`. */
  function HexDigit(d: nat): (c: char)
    requires d < 16
  {
    "0123456789abcdef"[d]
  }

  /** The value of a hexadecimal digit (either case), if `c` is one. */
  function HexValue(c: char): (v: Option<nat>)
    ensures v.Some? ==> v.value < 16
  {
    if '0' <= c <= '9' then Some(c as int - '0' as int)
    else if 'a' <= c <= 'f' then Some(c as int - 'a' as int + 10)
    else if 'A' <= c <= 'F' then Some(c as int - 'A' as int + 10)
    else None
  }

  lemma HexRoundTrip(d: nat)
    requires d < 16
    ensures HexValue(HexDigit(d)) == Some(d)
  {
  }

  /** How one character of a string is written between the quotes. */
  function EscapeChar(c: char): (e: string)
    ensures |e| >= 1
    ensures forall i | 0 <= i < |e| :: e[i] >= ' '
    ensures (e[0] == '\\') == (c == '"' || c == '\\' || c < ' ')
    ensures e[0] != '"'
  {
    if c == '"' then "\\\""
    else if c == '\\' then "\\\\"
    else if c == '\n' then "\\n"
    else if c == '\r' then "\\r"
    else if c == '\t' then "\\t"
    else if c == '\U{08}' then "\\b"
    else if c == '\U{0C}' then "\\f"
    else if c < ' ' then
      var n := c as int;
      assert n < 32;
      ['\\', 'u', '0', '0', HexDigit(n / 16), HexDigit(n % 16)]
    else [c]
  }

  /** The characters of `s` as written inside the quotes. */
  function Escape(s: string): (e: string)
    ensures forall i | 0 <= i < |e| :: e[i] >= ' '
    ensures |e| >= |s|
  {
    if |s| == 0 then "" else EscapeChar(s[0]) + Escape(s[1..])
  }

  /** Items separated by ", ". */
  function CommaList(parts: seq<string>): (r: string)
    ensures (forall k | 0 <= k < |parts| :: NoControl(parts[k])) ==> NoControl(r)
  {
    if |parts| == 0 then ""
    else if |parts| == 1 then parts[0]
    else
      var rest := CommaList(parts[1..]);
      assert (forall k | 0 <= k < |parts| :: NoControl(parts[k])) ==> NoControl(rest) by {
        if forall k | 0 <= k < |parts| :: NoControl(parts[k]) {
          assert forall k | 0 <= k < |parts| - 1 :: parts[1..][k] == parts[k + 1];
        }
      }
      Concat3(parts[0], ", ", rest);
      parts[0] + ", " + rest
  }

  /** No character below U+0020, so in particular no line break `\n`. */
  predicate NoControl(s: string)
  {
    forall i | 0 <= i < |s| :: s[i] >= ' '
  }

  lemma Concat3(a: string, b: string, c: string)
    ensures NoControl(a) && NoControl(b) && NoControl(c) ==> NoControl(a + b + c)
  {
    if NoControl(a) && NoControl(b) && NoControl(c) {
      var t := a + b + c;
      forall i | 0 <= i < |t| ensures t[i] >= ' ' {
        if i < |a| { assert t[i] == a[i]; }
        else if i < |a| + |b| { assert t[i] == b[i - |a|]; }
        else { assert t[i] == c[i - |a| - |b|]; }
      }
    }
  }

  function Quote(s: string): (q: string)
    ensures NoControl(q)
  {
    Concat3("\"", Escape(s), "\"");
    "\"" + Escape(s) + "\""
  }

  /** `json.dumps(j, ensure_ascii=False)`: no control character, so always a
      single line of text. */
  function Dumps(j: Json): (r: string)
    ensures NoControl(r)
    decreases j
  {
    match j
    case JStr(s) => Quote(s)
    case JInt(n) =>
      assert NoControl(IntToString(n));
      IntToString(n)
    case JArr(items) =>
      var parts := seq(|items|, k requires 0 <= k < |items| => Dumps(items[k]));
      Concat3("[", CommaList(parts), "]");
      "[" + CommaList(parts) + "]"
    case JObj(members) =>
      var parts := seq(|members|, k requires 0 <= k < |members| => DumpsMember(members[k]));
      Concat3("{", CommaList(parts), "}");
      "{" + CommaList(parts) + "}"
  }

  /** One `"key": value` pair of an object. */
  function DumpsMember(m: Member): (r: string)
    ensures NoControl(r)
    decreases m
  {
    Concat3(Quote(m.key), ": ", Dumps(m.value));
    Quote(m.key) + ": " + Dumps(m.value)
  }

  /** Each serialised value fits on one line of a JSON Lines file. */
  lemma DumpsOneLine(j: Json)
    ensures '\n' !in Dumps(j)
  {
    var r := Dumps(j);
    forall i | 0 <= i < |r| ensures r[i] != '\n' { assert r[i] >= ' '; }
  }

  /** `j[k1][k2]...` on nested objects: the first member with each key. */
  function Lookup(j: Json, path: seq<string>): (r: Option<Json>)
    decreases |path|
  {
    if path == [] then Some(j)
    else if !j.JObj? then None
    else
      match Find(j.members, path[0])
      case None => None
      case Some(v) => Lookup(v, path[1..])
  }

  /** The value of the first member named `key`. */
  function Find(members: seq<Member>, key: string): (r: Option<Json>)
    ensures r.Some? <==> exists i | 0 <= i < |members| :: members[i].key == key
    ensures r.Some? ==> exists i | 0 <= i < |members| :: members[i] == Member(key, r.value)
  {
    if members == [] then None
    else if members[0].key == key then Some(members[0].value)
    else
      var r := Find(members[1..], key);
      assert (exists i | 0 <= i < |members| :: members[i].key == key) ==> r.Some? by {
        if exists i | 0 <= i < |members| :: members[i].key == key {
          var i :| 0 <= i < |members| && members[i].key == key;
          assert members[1..][i - 1] == members[i];
        }
      }
      assert r.Some? ==> exists i | 0 <= i < |members| :: members[i] == Member(key, r.value) by {
        if r.Some? {
          var i :| 0 <= i < |members[1..]| && members[1..][i] == Member(key, r.value);
          assert members[i + 1] == Member(key, r.value);
        }
      }
      r
  }

  /** Reading back the inside of a quoted string: `json.loads` on `"` + `t` + `"`.
      None when `t` holds an unescaped quote or control character, or a
      malformed escape. */
  function Unescape(t: string): (r: Option<string>)
    decreases |t|
  {
    if |t| == 0 then Some("")
    else if t[0] == '"' || t[0] < ' ' then None
    else if t[0] != '\\' then Prepend(t[0], Unescape(t[1..]))
    else if |t| < 2 then None
    else
      var e := t[1];
      if e == '"' || e == '\\' || e == '/' then Prepend(e, Unescape(t[2..]))
      else if e == 'n' then Prepend('\n', Unescape(t[2..]))
      else if e == 'r' then Prepend('\r', Unescape(t[2..]))
      else if e == 't' then Prepend('\t', Unescape(t[2..]))
      else if e == 'b' then Prepend('\U{08}', Unescape(t[2..]))
      else if e == 'f' then Prepend('\U{0C}', Unescape(t[2..]))
      else if e == 'u' && |t| >= 6 then
        match (HexValue(t[2]), HexValue(t[3]), HexValue(t[4]), HexValue(t[5]))
        case (Some(a), Some(b), Some(c), Some(d)) =>
          var n := ((a * 16 + b) * 16 + c) * 16 + d;
          if n < 0xD800 || 0xE000 <= n then Prepend(n as char, Unescape(t[6..])) else None
        case _ => None
      else None
  }

  function Prepend(c: char, r: Option<string>): Option<string>
  {
    if r.Some? then Some([c] + r.value) else None
  }

  /** One escaped character reads back as itself, whatever follows it. */
  lemma UnescapeChar(c: char, rest: string)
    ensures Unescape(EscapeChar(c) + rest) == Prepend(c, Unescape(rest))
  {
    var e := EscapeChar(c);
    if c < ' ' && c != '\n' && c != '\r' && c != '\t' && c != '\U{08}' && c != '\U{0C}' {
      UnescapeHex(c, rest);
    } else if |e| == 2 {
      UnescapeShort(c, rest);
    } else {
      var t := e + rest;
      assert t[1..] == rest;
    }
  }

  /** A control character without a short escape reads back from `\u00XX`. */
  lemma UnescapeHex(c: char, rest: string)
    requires c < ' ' && c != '\n' && c != '\r' && c != '\t' && c != '\U{08}' && c != '\U{0C}'
    ensures Unescape(EscapeChar(c) + rest) == Prepend(c, Unescape(rest))
  {
    var n := c as int;
    var t := EscapeChar(c) + rest;
    assert t[..2] == "\\u" && t[2] == '0' && t[3] == '0' && t[4] == HexDigit(n / 16) && t[5] == HexDigit(n % 16);
    HexRoundTrip(n / 16);
    HexRoundTrip(n % 16);
    assert t[6..] == rest;
  }

  /** A two-character escape reads back as its character. */
  lemma UnescapeShort(c: char, rest: string)
    requires |EscapeChar(c)| == 2
    ensures Unescape(EscapeChar(c) + rest) == Prepend(c, Unescape(rest))
  {
    var t := EscapeChar(c) + rest;
    assert t[2..] == rest;
  }

  /** String escaping loses nothing: the quoted text reads back as the original. */
  lemma {:induction false} EscapeRoundTrip(s: string)
    ensures Unescape(Escape(s)) == Some(s)
  {
    if |s| > 0 {
      UnescapeChar(s[0], Escape(s[1..]));
      EscapeRoundTrip(s[1..]);
      assert [s[0]] + s[1..] == s;
    }
  }

  /** A sample: the quote, backslash and newline are escaped, other text is kept. */
  lemma DumpsSample()
    ensures Dumps(JStr("a\"\\\n")) == "\"a\\\"\\\\\\n\""
  {
    var s := "a\"\\\n";
    assert s[1..][1..][1..][1..] == [];
    assert Escape(s[1..][1..][1..]) == "\\n";
    assert Escape(s[1..][1..]) == "\\\\\\n";
    assert Escape(s[1..]) == "\\\"\\\\\\n";
  }

  /** The first member with a key is the one found. */
  lemma {:induction false} FindFirst(members: seq<Member>, i: nat)
    requires i < |members|
    requires forall j | 0 <= j < i :: members[j].key != members[i].key
    ensures Find(members, members[i].key) == Some(members[i].value)
  {
    if i > 0 {
      forall j | 0 <= j < i - 1 ensures members[1..][j].key != members[1..][i - 1].key {
        assert members[1..][j] == members[j + 1];
      }
      FindFirst(members[1..], i - 1);
    }
  }

  /** Looking up through the first member with a key. */
  lemma LookupMember(members: seq<Member>, i: nat, rest: seq<string>)
    requires i < |members|
    requires forall j | 0 <= j < i :: members[j].key != members[i].key
    ensures Lookup(JObj(members), [members[i].key] + rest) == Lookup(members[i].value, rest)
  {
    FindFirst(members, i);
    assert ([members[i].key] + rest)[1..] == rest;
  }
}
