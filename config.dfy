/** `load_config`: the bridge's settings read out of the document that
    `yaml.safe_load` produced, validated in a fixed order, with defaults for
    the optional ones. Whether the file exists is a parameter. */
module Config {
  import opened Text
  import Writer

  /** A loaded YAML value, as far as the validation tells values apart. A
      mapping keeps the entries under its string keys and counts the keys of
      other types in `others` (a lookup by a string never finds those, but
      they make the mapping non-empty); `text` is what `str()` shows for a
      mapping or for any other value (a float, a list, a date), and `truthy`
      is that other value's truth value. */
  datatype Yaml =
    | YNull
    | YBool(b: bool)
    | YInt(i: int)
    | YStr(s: string)
    | YMap(entries: map<string, Yaml>, others: nat, text: string)
    | YOther(text: string, truthy: bool)

  // ---------------------------------------------------------------------
  // get

  /** `get(dct, *keys)`: the keys followed through nested mappings; `None` as
      soon as a value is not a mapping or lacks the next key. */
  function Get(y: Yaml, keys: seq<string>): (r: Yaml)
    decreases |keys|
  {
    if keys == [] then y
    else if y.YMap? && keys[0] in y.entries then Get(y.entries[keys[0]], keys[1..])
    else YNull
  }

  /** `get` as `load_config` runs it: a loop walking down one key at a time. */
  method GetLoop(dct: Yaml, keys: seq<string>) returns (r: Yaml)
    ensures r == Get(dct, keys)
  {
    var cur := dct;
    for i := 0 to |keys|
      invariant Get(dct, keys) == Get(cur, keys[i..])
    {
      assert keys[i..][1..] == keys[i + 1..];
      var k := keys[i];
      if !cur.YMap? || k !in cur.entries {
        return YNull;
      }
      cur := cur.entries[k];
    }
    return cur;
  }

  /** Walking a path in two legs is walking it at once. */
  lemma {:induction false} GetCompose(y: Yaml, a: seq<string>, b: seq<string>)
    ensures Get(y, a + b) == Get(Get(y, a), b)
    decreases |a|
  {
    if a == [] {
      assert a + b == b;
    } else {
      assert (a + b)[0] == a[0];
      assert (a + b)[1..] == a[1..] + b;
      if y.YMap? && a[0] in y.entries {
        GetCompose(y.entries[a[0]], a[1..], b);
      } else {
        GetOfNull(b);
      }
    }
  }

  /** Below a missing value everything is missing. */
  lemma {:induction false} GetOfNull(keys: seq<string>)
    ensures Get(YNull, keys) == YNull
  {
  }

  // ---------------------------------------------------------------------
  // Python's view of values

  /** `bool(y)`. */
  predicate Truthy(y: Yaml)
  {
    match y
    case YNull => false
    case YBool(b) => b
    case YInt(i) => i != 0
    case YStr(s) => s != ""
    case YMap(m, n, _) => m != map[] || n > 0
    case YOther(_, t) => t
  }

  /** `str(y)`. */
  function Str(y: Yaml): (s: string)
  {
    match y
    case YNull => "None"
    case YBool(b) => if b then "True" else "False"
    case YInt(i) => IntToString(i)
    case YStr(s) => s
    case YMap(_, _, t) => t
    case YOther(t, _) => t
  }

  /** `str(y or default)`. */
  function StrOr(y: Yaml, default: string): (s: string)
    ensures Truthy(y) ==> s == Str(y)
    ensures !Truthy(y) ==> s == default
  {
    if Truthy(y) then Str(y) else default
  }

  /** `str.lower()` on ASCII letters; other characters are kept. */
  function Lower(s: string): (r: string)
    ensures |r| == |s|
    ensures forall i | 0 <= i < |s| :: r[i] == (if 'A' <= s[i] <= 'Z' then (s[i] as int + 32) as char else s[i])
  {
    if s == [] then [] else [if 'A' <= s[0] <= 'Z' then (s[0] as int + 32) as char else s[0]] + Lower(s[1..])
  }

  /** `str.upper()` on ASCII letters; other characters are kept. */
  function Upper(s: string): (r: string)
    ensures |r| == |s|
    ensures forall i | 0 <= i < |s| :: r[i] == (if 'a' <= s[i] <= 'z' then (s[i] as int - 32) as char else s[i])
  {
    if s == [] then [] else [if 'a' <= s[0] <= 'z' then (s[0] as int - 32) as char else s[0]] + Upper(s[1..])
  }

  /** `Path(s).parts` for a POSIX path: one leading `/` (or exactly two) is
      the root, then the non-empty components other than `.`. */
  function PathParts(s: string): (p: Writer.Path)
    ensures forall i | 0 <= i < |p| :: p[i] != "" && p[i] != "."
  {
    var root: Writer.Path :=
      if |s| >= 2 && s[0] == '/' && s[1] == '/' && (|s| == 2 || s[2] != '/') then ["//"]
      else if |s| >= 1 && s[0] == '/' then ["/"]
      else [];
    root + Components(Split(s, '/'))
  }

  /** The pieces that name a directory or file. */
  function Components(pieces: seq<string>): (r: seq<string>)
    ensures forall i | 0 <= i < |r| :: r[i] != "" && r[i] != "."
    ensures |r| <= |pieces|
  {
    if pieces == [] then []
    else
      var rest := Components(pieces[1..]);
      if pieces[0] == "" || pieces[0] == "." then rest else [pieces[0]] + rest
  }

  // ---------------------------------------------------------------------
  // Validation

  /** The settings of a bridge run. */
  datatype BridgeConfig = BridgeConfig(
    host: string, port: int, username: string, password: string, outDir: Writer.Path,
    metaSubdir: string, logsSubdir: string, logLevel: string, modeName: string)

  /** Which check rejected the document, in the order they are made. */
  datatype ConfigError = NotFound | BadHost | BadPort | BadUsername | BadPassword | BadOutDir | BadMode

  datatype Loaded = Loaded(cfg: BridgeConfig) | Failed(error: ConfigError)

  /** The values the document holds at the places `load_config` looks. */
  datatype Raw = Raw(
    host: Yaml, port: Yaml, username: Yaml, password: Yaml, outDir: Yaml,
    metaSubdir: Yaml, logsSubdir: Yaml, logLevel: Yaml, modeName: Yaml)

  function Fields(data: Yaml): (raw: Raw)
  {
    Raw(Get(data, ["connection", "host"]), Get(data, ["connection", "port"]),
        Get(data, ["auth", "username"]), Get(data, ["auth", "password"]),
        Get(data, ["output", "out_dir"]), Get(data, ["output", "meta_subdir"]),
        Get(data, ["output", "logs_subdir"]), Get(data, ["logging", "level"]),
        Get(data, ["mode", "name"]))
  }

  /** A string with something other than whitespace in it. */
  predicate Filled(y: Yaml)
  {
    y.YStr? && !IsBlank(y.s)
  }

  /** `isinstance(port, int) and 1 <= port <= 65535`; a boolean is an `int`,
      and `True` is 1. */
  predicate PortOk(y: Yaml)
  {
    (y.YInt? && 1 <= y.i <= 65535) || y == YBool(true)
  }

  /** The port as a number. */
  function PortNumber(y: Yaml): (n: int)
    requires PortOk(y)
    ensures 1 <= n <= 65535
  {
    if y.YBool? then 1 else y.i
  }

  /** `str(mode_name or "dry_run").lower().strip()`. */
  function ModeName(y: Yaml): (m: string)
  {
    Strip(Lower(StrOr(y, "dry_run")))
  }

  predicate ModeOk(m: string)
  {
    m == "dry_run" || m == "record"
  }

  /** The checks of `load_config` in order; the first that fails decides. */
  function Validate(raw: Raw): (r: Loaded)
    ensures r.Loaded? <==>
      Filled(raw.host) && PortOk(raw.port) && Filled(raw.username) &&
      raw.password.YStr? && raw.password.s != "" && Filled(raw.outDir) && ModeOk(ModeName(raw.modeName))
    ensures r == Failed(BadHost) <==> !Filled(raw.host)
    ensures r == Failed(BadPort) <==> Filled(raw.host) && !PortOk(raw.port)
    ensures r == Failed(BadUsername) <==> Filled(raw.host) && PortOk(raw.port) && !Filled(raw.username)
    ensures r == Failed(BadPassword) <==>
      Filled(raw.host) && PortOk(raw.port) && Filled(raw.username) && !(raw.password.YStr? && raw.password.s != "")
    ensures r == Failed(BadOutDir) <==>
      Filled(raw.host) && PortOk(raw.port) && Filled(raw.username) &&
      raw.password.YStr? && raw.password.s != "" && !Filled(raw.outDir)
    ensures r != Failed(NotFound)
    ensures r.Loaded? ==>
      r.cfg.host != "" && r.cfg.host == Strip(raw.host.s) && r.cfg.port == PortNumber(raw.port) && 1 <= r.cfg.port <= 65535 &&
      r.cfg.username != "" && r.cfg.username == Strip(raw.username.s) && r.cfg.password == raw.password.s &&
      r.cfg.outDir == PathParts(Strip(raw.outDir.s)) && ModeOk(r.cfg.modeName)
    ensures r.Loaded? ==>
      r.cfg.metaSubdir == StrOr(raw.metaSubdir, "meta") && r.cfg.logsSubdir == StrOr(raw.logsSubdir, "logs") &&
      r.cfg.logLevel == Upper(StrOr(raw.logLevel, "INFO"))
  {
    if !Filled(raw.host) then Failed(BadHost)
    else if !PortOk(raw.port) then Failed(BadPort)
    else if !Filled(raw.username) then Failed(BadUsername)
    else if !raw.password.YStr? || raw.password.s == "" then Failed(BadPassword)
    else if !Filled(raw.outDir) then Failed(BadOutDir)
    else
      var mode := ModeName(raw.modeName);
      if !ModeOk(mode) then Failed(BadMode)
      else
        Loaded(BridgeConfig(
          Strip(raw.host.s), PortNumber(raw.port), Strip(raw.username.s), raw.password.s,
          PathParts(Strip(raw.outDir.s)),
          StrOr(raw.metaSubdir, "meta"), StrOr(raw.logsSubdir, "logs"), Upper(StrOr(raw.logLevel, "INFO")), mode))
  }

  /** `load_config(path)`, with `found` for `path.exists()` and `data` for the
      loaded document. */
  function LoadConfig(found: bool, data: Yaml): (r: Loaded)
    ensures !found <==> r == Failed(NotFound)
  {
    if !found then Failed(NotFound) else Validate(Fields(data))
  }

  // ---------------------------------------------------------------------
  // Properties

  /** An empty file, or one whose top level is not a mapping, fails the first
      check. */
  lemma NoMappingFailsOnHost(data: Yaml)
    requires !data.YMap?
    ensures LoadConfig(true, data) == Failed(BadHost)
  {
    assert Fields(data).host == YNull;
  }

  /** YAML `true` passes the port check as port 1, and `false` fails it. */
  lemma PortAcceptsBoolean(raw: Raw)
    requires Filled(raw.host) && Filled(raw.username) && raw.password.YStr? && raw.password.s != ""
    requires Filled(raw.outDir) && ModeOk(ModeName(raw.modeName))
    ensures Validate(raw.(port := YBool(true))).Loaded? && Validate(raw.(port := YBool(true))).cfg.port == 1
    ensures Validate(raw.(port := YBool(false))) == Failed(BadPort)
  {
    PortTrue(raw.(port := YBool(true)));
    PortFalse(raw.(port := YBool(false)));
  }

  lemma PortTrue(raw: Raw)
    requires Filled(raw.host) && Filled(raw.username) && raw.password.YStr? && raw.password.s != ""
    requires Filled(raw.outDir) && ModeOk(ModeName(raw.modeName)) && raw.port == YBool(true)
    ensures Validate(raw).Loaded? && Validate(raw).cfg.port == 1
  {
    assert PortOk(raw.port) && PortNumber(raw.port) == 1;
  }

  lemma PortFalse(raw: Raw)
    requires Filled(raw.host) && raw.port == YBool(false)
    ensures Validate(raw) == Failed(BadPort)
  {
    assert !PortOk(raw.port);
  }

  /** A missing or false mode means a dry run. */
  lemma ModeDefaultsToDryRun(y: Yaml)
    requires !Truthy(y)
    ensures ModeName(y) == "dry_run"
  {
    var d := "dry_run";
    assert StrOr(y, d) == d;
    assert !IsSpace(d[0]) && !IsSpace(d[|d| - 1]);
    PlainModeName(d);
  }

  /** A word without capitals or surrounding blanks reads as itself. */
  lemma PlainModeName(s: string)
    requires forall i | 0 <= i < |s| :: !('A' <= s[i] <= 'Z')
    requires s == [] || (!IsSpace(s[0]) && !IsSpace(s[|s| - 1]))
    ensures Strip(Lower(s)) == s
  {
    LowerNoCapitals(s);
    StripStable(s);
  }

  /** A mode given as a non-empty mapping is not defaulted: its `str()` text,
      which starts with a brace, is no mode name. */
  lemma MappingModeRejected(raw: Raw)
    requires Filled(raw.host) && PortOk(raw.port) && Filled(raw.username)
    requires raw.password.YStr? && raw.password.s != "" && Filled(raw.outDir)
    requires raw.modeName.YMap? && Truthy(raw.modeName)
    requires |raw.modeName.text| >= 2 && raw.modeName.text[0] == '{' && raw.modeName.text[|raw.modeName.text| - 1] == '}'
    ensures Validate(raw) == Failed(BadMode)
  {
    MappingModeName(raw.modeName);
  }

  /** A non-empty mapping reads as its `str()` text, lowered. */
  lemma MappingModeName(y: Yaml)
    requires y.YMap? && Truthy(y)
    requires |y.text| >= 2 && y.text[0] == '{' && y.text[|y.text| - 1] == '}'
    ensures ModeName(y) == Lower(y.text) && ModeName(y)[0] == '{'
    ensures !ModeOk(ModeName(y))
  {
    var t := y.text;
    assert StrOr(y, "dry_run") == t;
    var l := Lower(t);
    LowerEnds(t);
    StripStable(l);
    assert ModeName(y) == l;
    assert l[0] == '{';
  }

  /** The mode is read without regard to ASCII case or surrounding blanks. */
  lemma ModeIgnoresCaseAndBlanks(pad: string, word: string, pad2: string)
    requires IsBlank(pad) && IsBlank(pad2)
    requires word != [] && !IsSpace(word[0]) && !IsSpace(word[|word| - 1])
    ensures ModeName(YStr(pad + word + pad2)) == Lower(word)
  {
    ModeOfString(pad + word + pad2);
    LowerAround(pad, word, pad2);
    LowerEnds(word);
    StripAround(pad, Lower(word), pad2);
  }

  lemma ModeOfString(s: string)
    requires s != []
    ensures ModeName(YStr(s)) == Strip(Lower(s))
  {
  }

  lemma LowerAround(pad: string, word: string, pad2: string)
    requires IsBlank(pad) && IsBlank(pad2)
    ensures Lower(pad + word + pad2) == pad + Lower(word) + pad2
  {
    LowerConcat(pad + word, pad2);
    LowerConcat(pad, word);
    LowerBlank(pad);
    LowerBlank(pad2);
  }

  /** Lowering keeps a character that is not whitespace from being one. */
  lemma LowerEnds(word: string)
    requires word != [] && !IsSpace(word[0]) && !IsSpace(word[|word| - 1])
    ensures Lower(word) != [] && !IsSpace(Lower(word)[0]) && !IsSpace(Lower(word)[|word| - 1])
  {
  }

  /** Blanks have no case. */
  lemma LowerBlank(s: string)
    requires IsBlank(s)
    ensures Lower(s) == s
  {
    assert forall i | 0 <= i < |s| :: Lower(s)[i] == s[i];
  }

  lemma {:induction false} LowerConcat(a: string, b: string)
    ensures Lower(a + b) == Lower(a) + Lower(b)
    decreases |a|
  {
    if a == [] {
      assert a + b == b;
    } else {
      assert (a + b)[0] == a[0] && (a + b)[1..] == a[1..] + b;
      LowerConcat(a[1..], b);
    }
  }

  /** A string without ASCII capitals is its own lower case. */
  lemma {:induction false} LowerNoCapitals(s: string)
    requires forall i | 0 <= i < |s| :: !('A' <= s[i] <= 'Z')
    ensures Lower(s) == s
    decreases |s|
  {
    if s != [] {
      LowerNoCapitals(s[1..]);
    }
  }
}
