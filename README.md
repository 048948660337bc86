# NOESIS bridge and Elias bot: a Dafny model

This project models the text paths of two services that sit next to a TinyMUX
game server.

- **noesis-bridge** logs in to the game and reads its output. Game code writes
  telemetry lines of the form `NOESIS: t=SAY|actor=#12|loc=#3|raw=...`. In
  `record` mode the bridge parses each such line, keeps SAY and MOVE records
  that carry their mandatory keys, gives each one the next number in the run
  (`seq` 1, 2, 3, ...), and appends it as one JSON object per line to a daily
  file `out/events/YYYY/YYYY-MM/events-YYYY-MM-DD.jsonl`.
- **elias-bot** reads bytes from the same server. It strips Telnet commands,
  decodes UTF-8 (falling back to Latin-1 when the result looks damaged), frames
  the buffer into lines, and squeezes each chatbot answer into one line of at
  most 800 characters.

Modules, one per core source file, plus shared helpers:

| module | file | models |
|---|---|---|
| `Text` | `text.dfy` | the Python string and sequence operations the code uses: `split`, `join`, `strip`/`lstrip`/`rstrip`, `replace`, `in`, `count`, `str(int)`, and line framing by a separator |
| `Json` | `json.dfy` | `json.dumps(..., ensure_ascii=False)` on strings, integers, lists and insertion-ordered objects, with a reading-back function for strings and a path lookup |
| `NoesisKv` | `noesis_kv.dfy` | `NOESIS_PREFIX_RE` and `parse_noesis_kv` |
| `Config` | `config.dfy` | `load_config` and its `get` helper, on an already-loaded YAML value |
| `Writer` | `writer.dfy` | `events_path` and the `EventWriter` class, over a file system kept as a map from paths to text and a set of directories |
| `Bridge` | `bridge.dfy` | the receive loop of `main` as class `Ingest` (its locals `seq`, `buffer`, `events_written`, the two timestamps), the event dictionaries, the login failure test and `reconnect()` |
| `Telnet` | `telnet.dfy` | `strip_telnet_iac`, as a specification function and as the loop `strip_telnet_iac` runs |
| `Utf8` | `utf8.dfy` | CPython's `bytes.decode("utf-8", errors="replace")` (maximal-subpart replacement) and `decode("latin-1")` |
| `EliasBot` | `elias_bot.dfy` | `smart_decode`, `read_lines` as method `Bot.ReadLines`, and the reply shaping of `handle_and_reply` |

How the pieces fit:

- `Bridge.Ingest.IngestChunk` is one pass of the loop on one received chunk.
- It is proved against the functions `Complete`/`Rest` (line framing), `Drafts`
  (parse and classify each line) and `Emitted` (number and build the events).
- A ghost `log` keeps every event written so far. The class invariant says the
  log is numbered 1, 2, 3, ... without a gap and that `events_written == seq`.
- How the file contents change is stated through `Writer.WrittenOn`. Every
  event becomes the last record of its day's file.

## Model

| member | source | states |
|---|---|---|
| Text.Split | services/noesis-bridge/src/bridge.py:249 | `str.split` with a one-character separator yields at least one piece, and no piece holds the separator |
| Text.JoinSplit | services/noesis-bridge/src/bridge.py:249 | joining the pieces of a split with the separator gives back the input |
| Text.SplitJoin | services/noesis-bridge/src/bridge.py:249 | splitting a join of separator-free pieces gives back exactly those pieces |
| Text.SplitAround | services/noesis-bridge/src/bridge.py:332 | splitting at one separator splits both sides independently |
| Text.FrameSplit | services/noesis-bridge/src/bridge.py:331-332 | a text is its complete lines, each followed by the separator, then a rest that holds no separator |
| Text.CompleteTerminated | services/noesis-bridge/src/bridge.py:331-332 | framing separator-terminated lines gives back those lines and an empty rest |
| Text.CompleteStep | services/noesis-bridge/src/bridge.py:332 | `buffer.split("\n", 1)` at the first separator takes off the first complete line and leaves the rest of the framing unchanged |
| Text.CompleteConcat | services/noesis-bridge/src/bridge.py:330-332 | framing `s + t` equals framing `s`, then framing its rest followed by `t` |
| Text.FramedStep | services/noesis-bridge/src/bridge.py:331-332 | splitting off the first line keeps the invariant "consumed lines, each terminated, then the buffer" |
| Text.FramedDone | services/noesis-bridge/src/bridge.py:331 | once the buffer holds no separator, the consumed lines are the complete lines and the buffer is the rest |
| Text.LeadingBlanks | services/noesis-bridge/src/bridge.py:239 | the leading run of whitespace is all whitespace, and is followed by a non-whitespace character or the end |
| Text.LStrip | services/noesis-bridge/src/bridge.py:239 | `lstrip` result does not start with whitespace |
| Text.LStripParts | services/noesis-bridge/src/bridge.py:239 | a string is the whitespace `lstrip` removes followed by what it keeps |
| Text.RStrip | services/elias-bot/elias_mux_bot.py:206 | `rstrip` result does not end with whitespace |
| Text.RStripChar | services/elias-bot/elias_mux_bot.py:242 | `rstrip("\r")` result does not end with `\r` |
| Text.Strip | services/noesis-bridge/src/bridge.py:246 | `strip` is a substring of its input that neither starts nor ends with whitespace, and it is empty exactly when the input is all whitespace |
| Text.StripStable | services/noesis-bridge/src/bridge.py:333 | stripping a string without surrounding whitespace changes nothing |
| Text.StripAround | services/noesis-bridge/src/bridge.py:255 | stripping removes exactly the whitespace around a word |
| Text.ReplaceChar | services/noesis-bridge/src/bridge.py:330 | `replace("\r", "\n")` keeps the length and replaces exactly the matching characters |
| Text.ReplaceCharConcat | services/noesis-bridge/src/bridge.py:330 | replacing characters in two pieces is replacing them in the whole |
| Text.Contains | services/noesis-bridge/src/bridge.py:190 | `p in s` holds exactly when `p` occurs in `s` at some index |
| Text.Count | services/elias-bot/elias_mux_bot.py:80 | `count` is at most the length, and zero exactly when the value is absent |
| Text.IntToString | services/noesis-bridge/src/writer.py:64 | `str(i)` is a non-empty string of digits and minus signs |
| Text.Min | services/elias-bot/elias_mux_bot.py:80 | the smaller of two integers; `Writer.Prefix` and `EliasBot.Cap` use it for a slice that stops at the end |
| Text.Max | services/elias-bot/elias_mux_bot.py:80 | `max(1, len)`: the larger of two integers |
| Text.IndexOf | services/noesis-bridge/src/bridge.py:254 | the first occurrence of a value: it is there, and no earlier element equals it |
| Text.Join | services/noesis-bridge/src/bridge.py:249 | defines `sep.join(parts)`; `JoinSplit` and `SplitJoin` tie it to `Split` |
| Text.Terminated | services/noesis-bridge/src/bridge.py:331-332 | defines the text of complete lines, each followed by the separator; `FrameSplit` and `CompleteTerminated` tie it to `Complete` |
| Text.Complete | services/noesis-bridge/src/bridge.py:331-332 | defines the complete lines of a text, the pieces the `while sep in buffer` loop takes off; `FrameSplit` and `CompleteStep` state their properties |
| Text.Rest | services/noesis-bridge/src/bridge.py:331-332 | defines what remains buffered after the last separator; `FrameSplit` proves it holds no separator |
| Text.SeparatorFree | services/noesis-bridge/src/bridge.py:331-332 | defines lines that hold no separator, the lines `Complete` yields |
| Text.JoinCons | services/noesis-bridge/src/bridge.py:249 | joining one piece in front of others puts the separator between them |
| Text.CutAt | services/noesis-bridge/src/bridge.py:332 | a sequence is what comes before, at and after an index |
| Text.JoinFree | services/noesis-bridge/src/bridge.py:249 | a value in no piece and different from the separator is not in the join |
| Text.JoinEnds | services/elias-bot/elias_mux_bot.py:204 | a join of non-empty pieces starts with the first piece's first element and ends with the last piece's last element |
| Text.JoinAsTerminated | services/noesis-bridge/src/bridge.py:331-332 | a join is the terminated pieces but the last, then the last |
| Text.TerminatedAppend | services/noesis-bridge/src/bridge.py:331-332 | the terminated text of two runs of lines is the terminated text of each |
| Text.CompleteOfSplit | services/noesis-bridge/src/bridge.py:331-332 | the complete lines are the pieces of the split but the last, and the rest is the last piece |
| Text.CompleteNone | services/noesis-bridge/src/bridge.py:331 | a text without a separator has no complete line and stays buffered whole |
| Text.SplitCons | services/noesis-bridge/src/bridge.py:332 | a separator-free piece followed by the separator splits off first |
| Text.InitCons | services/noesis-bridge/src/bridge.py:331-332 | the front of a sequence with one element put before it |
| Text.InitLast | services/noesis-bridge/src/bridge.py:331-332 | the front and the last element of a concatenation |
| Text.AppendAssoc | services/noesis-bridge/src/bridge.py:331-332 | concatenation is associative |
| Text.ConsAppend | services/noesis-bridge/src/bridge.py:331-332 | a non-empty sequence followed by another is its head, then its tail and the other |
| Text.SeparatorFreeTail | services/noesis-bridge/src/bridge.py:331-332 | the lines after the first of separator-free lines are separator-free |
| Text.SplitAfterLines | services/noesis-bridge/src/bridge.py:331-332 | complete lines in front of a text are split off as they are |
| Text.CompleteAfterLines | services/noesis-bridge/src/bridge.py:331-332 | complete lines in front of a text are framed off as they are, and the rest is that of the text |
| Text.IndexOfUnique | services/noesis-bridge/src/bridge.py:254 | an index holding the value with no earlier occurrence is the first occurrence |
| Text.SplitAt | services/noesis-bridge/src/bridge.py:332 | splitting at the first separator, given by its index, takes off the piece before it |
| Text.IsSpace | services/noesis-bridge/src/bridge.py:239 | defines the characters `str.isspace` accepts, which `\s` matches and `strip` removes |
| Text.IsBlank | services/noesis-bridge/src/bridge.py:333-335 | defines a string of whitespace only, which `strip` empties (proved by `Strip`) |
| Text.LeadingBlanksPrefix | services/noesis-bridge/src/bridge.py:239 | leading whitespace adds its length to the leading run |
| Text.LStripBlankPrefix | services/noesis-bridge/src/bridge.py:239 | leading whitespace makes no difference to `lstrip` |
| Text.TrailingStart | services/elias-bot/elias_mux_bot.py:206 | the length without trailing whitespace: what follows is whitespace, and the last kept character is not |
| Text.CharRunStart | services/elias-bot/elias_mux_bot.py:242 | the length without the trailing run of one character: what follows is that character, and the last kept one is not |
| Text.StripStart | services/noesis-bridge/src/bridge.py:246 | where the stripped text begins lies within the string |
| Text.StripEnd | services/noesis-bridge/src/bridge.py:246 | where the stripped text ends lies between its start and the end of the string |
| Text.OccursAt | services/noesis-bridge/src/bridge.py:190 | defines an occurrence of a pattern at an index; `Contains` is proved to be the existence of one |
| Text.OccursShift | services/noesis-bridge/src/bridge.py:190 | an occurrence in the tail is an occurrence one index further in the whole |
| Text.DigitChar | services/noesis-bridge/src/writer.py:64 | a decimal digit's character is between `0` and `9` |
| Text.NatToString | services/noesis-bridge/src/writer.py:64 | `str(n)` of a natural number is a non-empty string of digits without a leading zero, except for 0 itself |
| Text.Framed | services/noesis-bridge/src/bridge.py:331-332 | defines the inner loop's invariant: the text is the consumed lines, each terminated, then the buffer |
| Json.EscapeChar | services/noesis-bridge/src/writer.py:64 | an escaped character holds no control character and no bare quote, and starts with a backslash exactly when the character is `"`, `\` or a control character |
| Json.Escape | services/noesis-bridge/src/writer.py:64 | the escaped text of a string holds no control character |
| Json.Dumps | services/noesis-bridge/src/writer.py:64 | the serialised value holds no control character |
| Json.DumpsOneLine | services/noesis-bridge/src/writer.py:64-65 | a serialised event holds no newline, so it is exactly one JSON Lines record |
| Json.EscapeRoundTrip | services/noesis-bridge/src/writer.py:64 | reading back an escaped string gives the original string |
| Json.UnescapeChar | services/noesis-bridge/src/writer.py:64 | one escaped character reads back as itself, whatever follows |
| Json.HexRoundTrip | services/noesis-bridge/src/writer.py:64 | the hexadecimal digit of a `\u00XX` escape reads back as its value |
| Json.DumpsSample | services/noesis-bridge/src/writer.py:64 | a sample string with a quote, a backslash and a newline is serialised with exactly those escaped |
| Json.Find | services/noesis-bridge/src/bridge.py:363-372 | a key is found exactly when some member has it, and then the value is that of a member with that key |
| Json.FindFirst | services/noesis-bridge/src/bridge.py:363-372 | with no earlier member of the same key, lookup returns that member's value |
| Json.LookupMember | services/noesis-bridge/src/bridge.py:363-372 | looking up a path through an object goes through the first member with the key |
| Json.HexDigit | services/noesis-bridge/src/writer.py:64 | defines the lower-case hexadecimal digit of a `\u00XX` escape; `HexRoundTrip` reads it back |
| Json.HexValue | services/noesis-bridge/src/writer.py:64 | a hexadecimal digit read back has a value below 16 |
| Json.CommaList | services/noesis-bridge/src/writer.py:64 | items without control characters joined by `, ` hold no control character |
| Json.NoControl | services/noesis-bridge/src/writer.py:64-65 | defines text without a character below U+0020, so without a newline |
| Json.Concat3 | services/noesis-bridge/src/writer.py:64 | three texts without control characters stay so when concatenated |
| Json.Quote | services/noesis-bridge/src/writer.py:64 | a quoted, escaped string holds no control character |
| Json.DumpsMember | services/noesis-bridge/src/writer.py:64 | one `"key": value` pair holds no control character |
| Json.Lookup | services/noesis-bridge/src/bridge.py:363-372 | defines `j[k1][k2]...` through the first member with each key; `LookupMember` states the step |
| Json.Unescape | services/noesis-bridge/src/writer.py:64 | defines `json.loads` on the inside of a quoted string; `EscapeRoundTrip` proves it inverts `Escape` |
| Json.Prepend | services/noesis-bridge/src/writer.py:64 | defines putting one read-back character in front of the rest |
| Json.UnescapeHex | services/noesis-bridge/src/writer.py:64 | a control character without a short escape reads back from `\u00XX` |
| Json.UnescapeShort | services/noesis-bridge/src/writer.py:64 | a two-character escape reads back as its character |
| NoesisKv.MarkerPayload | services/noesis-bridge/src/bridge.py:239 | a captured group holds no newline and does not start with whitespace |
| NoesisKv.MarkerIffMatches | services/noesis-bridge/src/bridge.py:239 | the matcher succeeds exactly when the line is whitespace, `NOESIS`, an optional colon, whitespace, a group and at most one final newline |
| NoesisKv.MarkerSound | services/noesis-bridge/src/bridge.py:239 | a successful match decomposes the line into those pieces with the returned group |
| NoesisKv.MarkerComplete | services/noesis-bridge/src/bridge.py:239 | every line of that shape is matched |
| NoesisKv.MarkerGroup | services/noesis-bridge/src/bridge.py:239 | for a line built from those pieces, the captured group is exactly its group |
| NoesisKv.MarkerExampleBare | services/noesis-bridge/src/bridge.py:239 | `NOESISt=SAY` matches with group `t=SAY`: neither colon nor separator is needed |
| NoesisKv.MarkerExampleSpaced | services/noesis-bridge/src/bridge.py:239 | leading whitespace and whitespace after the colon are skipped |
| NoesisKv.MarkerExampleLowerCase | services/noesis-bridge/src/bridge.py:239 | the tag is case-sensitive |
| NoesisKv.MarkerExampleNotFirst | services/noesis-bridge/src/bridge.py:239 | the tag must open the line |
| NoesisKv.DropFinalNewline | services/noesis-bridge/src/bridge.py:239 | `(.*)$` drops one final newline and otherwise keeps the group |
| NoesisKv.Fields | services/noesis-bridge/src/bridge.py:249 | the kept fields are non-empty and hold no `|` |
| NoesisKv.NonEmpty | services/noesis-bridge/src/bridge.py:249 | filtering keeps only non-empty pieces, each taken from the input |
| NoesisKv.FieldPair | services/noesis-bridge/src/bridge.py:252-255 | a field is skipped exactly when it holds no `=` |
| NoesisKv.FieldSplitsAtFirstEquals | services/noesis-bridge/src/bridge.py:254-255 | a field splits at its first `=`; key and value are stripped, and the value may hold further `=` |
| NoesisKv.FieldPairAt | services/noesis-bridge/src/bridge.py:254-255 | the field splits at the index of its first `=` |
| NoesisKv.Decoded | services/noesis-bridge/src/bridge.py:251-255 | each field is decoded on its own, in order |
| NoesisKv.ParseKv | services/noesis-bridge/src/bridge.py:242-256 | a dictionary is returned only when it is non-empty |
| NoesisKv.ParseNoesisKv | services/noesis-bridge/src/bridge.py:242-256 | the loop of `parse_noesis_kv` over the fields computes the specification function `ParseKv` |
| NoesisKv.CollectStep | services/noesis-bridge/src/bridge.py:255 | each decoded field either leaves the dictionary alone or sets its key |
| NoesisKv.CollectKeys | services/noesis-bridge/src/bridge.py:250-255 | a key is in the dictionary exactly when some field carries it |
| NoesisKv.CollectLastWins | services/noesis-bridge/src/bridge.py:255 | a later field with the same key overwrites an earlier one |
| NoesisKv.CollectEmpty | services/noesis-bridge/src/bridge.py:256 | the dictionary is empty exactly when no field holds `=` |
| NoesisKv.ParseKvNone | services/noesis-bridge/src/bridge.py:243-256 | parsing fails exactly when the line does not match, or the payload is blank, or no field holds `=` |
| NoesisKv.ParseKvKeys | services/noesis-bridge/src/bridge.py:249-256 | a key is in the parsed dictionary exactly when some field of the payload carries it |
| NoesisKv.FieldRoundTrip | services/noesis-bridge/src/bridge.py:254-255 | a well-formed pair written as `k=v` reads back as that pair |
| NoesisKv.FormatRoundTrip | services/noesis-bridge/src/bridge.py:242-256 | a marker line written from well-formed pairs parses to the fold of those pairs |
| NoesisKv.DecodedRoundTrip | services/noesis-bridge/src/bridge.py:251-255 | the fields of such a line decode to exactly the written pairs |
| NoesisKv.BodyShape | services/noesis-bridge/src/bridge.py:246-249 | the payload of such a line is non-empty, holds no newline, has no surrounding whitespace and splits into separator-free fields |
| NoesisKv.NonEmptyAll | services/noesis-bridge/src/bridge.py:249 | the filter keeps a list of non-empty fields as it is |
| NoesisKv.NewlineOnlyAtEnd | services/noesis-bridge/src/bridge.py:239 | defines text whose only newline, if any, is its last character, what `(.*)$` may see |
| NoesisKv.DropFinalNewlineParts | services/noesis-bridge/src/bridge.py:239 | the group is the text without its final newline, and what is dropped is nothing or one newline |
| NoesisKv.AfterTag | services/noesis-bridge/src/bridge.py:239 | defines `^\s*NOESIS`: the text after the tag when the line starts with it after whitespace; `TagPieces` and `TagComplete` state both directions |
| NoesisKv.AfterColon | services/noesis-bridge/src/bridge.py:239 | after `:?\s*` the remaining text does not start with whitespace |
| NoesisKv.MatchesWith | services/noesis-bridge/src/bridge.py:239 | defines the pattern read as a decomposition of the line into whitespace, `NOESIS`, an optional colon, whitespace, the group and an optional final newline |
| NoesisKv.Matches | services/noesis-bridge/src/bridge.py:239 | defines a line that some decomposition matches; `MarkerIffMatches` proves the matcher accepts exactly those |
| NoesisKv.MarkerPieces | services/noesis-bridge/src/bridge.py:239 | a line the matcher accepts decomposes with the returned group |
| NoesisKv.TagPieces | services/noesis-bridge/src/bridge.py:239 | a line with the tag is whitespace, then `NOESIS`, then what follows the tag |
| NoesisKv.ColonPieces | services/noesis-bridge/src/bridge.py:239 | what follows the tag is an optional colon, whitespace, then what `AfterColon` keeps |
| NoesisKv.NewlineOnlyAtEndSuffix | services/noesis-bridge/src/bridge.py:239 | a suffix of text with a newline only at its end has the same property |
| NoesisKv.TagComplete | services/noesis-bridge/src/bridge.py:239 | whitespace before the tag is skipped |
| NoesisKv.ColonComplete | services/noesis-bridge/src/bridge.py:239 | after an optional colon and whitespace, the single possible newline stays at the end |
| NoesisKv.PayloadWithoutNewline | services/noesis-bridge/src/bridge.py:239 | a group without a newline is reported whole |
| NoesisKv.ColonGroup | services/noesis-bridge/src/bridge.py:239 | the optional colon and the whitespace after it are taken, and nothing more |
| NoesisKv.Collect | services/noesis-bridge/src/bridge.py:250-255 | defines the dictionary built from decoded fields in order; `CollectKeys`, `CollectLastWins` and `CollectEmpty` state its properties |
| NoesisKv.HasKey | services/noesis-bridge/src/bridge.py:250-255 | defines that some decoded field carries a key |
| NoesisKv.FieldText | services/noesis-bridge/src/bridge.py:254 | defines the text `k=v` of a pair; `FieldRoundTrip` reads it back |
| NoesisKv.FormatLine | services/noesis-bridge/src/bridge.py:239-249 | defines a marker line `NOESIS: k1=v1|k2=v2|...`; `FormatRoundTrip` parses it back |
| NoesisKv.Stripped | services/noesis-bridge/src/bridge.py:255 | defines text that `strip` leaves alone |
| NoesisKv.WritablePair | services/noesis-bridge/src/bridge.py:249-255 | defines a pair that survives the trip: stripped, free of `|` and newlines, the key free of `=` |
| NoesisKv.Writable | services/noesis-bridge/src/bridge.py:249-255 | defines at least one pair, every one of them writable |
| NoesisKv.StrippedPair | services/noesis-bridge/src/bridge.py:255 | stripping the key and value of a stripped pair gives the pair |
| NoesisKv.FieldTextShape | services/noesis-bridge/src/bridge.py:249-255 | a writable field is non-empty, holds no `|` or newline, and has no whitespace at either end |
| NoesisKv.Pairs | services/noesis-bridge/src/bridge.py:251-255 | the pairs as decoded fields, each present, in order |
| Config.GetLoop | services/noesis-bridge/src/bridge.py:54-60 | the loop of `get` computes the nested lookup `Get` |
| Config.GetCompose | services/noesis-bridge/src/bridge.py:54-60 | following a key path in two legs is following it at once |
| Config.GetOfNull | services/noesis-bridge/src/bridge.py:57-58 | below a missing value every lookup is missing |
| Config.StrOr | services/noesis-bridge/src/bridge.py:68-71 | `x or default` keeps a truthy value and otherwise gives the default |
| Config.Lower | services/noesis-bridge/src/bridge.py:84 | `lower()` keeps the length and lowers exactly the ASCII capitals |
| Config.Upper | services/noesis-bridge/src/bridge.py:96 | `upper()` keeps the length and raises exactly the ASCII small letters |
| Config.PathParts | services/noesis-bridge/src/bridge.py:93 | `Path(...)` keeps no empty and no `.` component |
| Config.Components | services/noesis-bridge/src/bridge.py:93 | the kept components are neither empty nor `.` |
| Config.PortNumber | services/noesis-bridge/src/bridge.py:75 | an accepted port is in 1..65535 |
| Config.Validate | services/noesis-bridge/src/bridge.py:62-98 | the settings load exactly when every check passes; each of the host, port, username, password and output-path errors is reported exactly when the earlier checks pass and its own fails; on success the settings are the stripped host, username and output path, the port, the password, the defaulted sub-directories, the upper-case log level and a valid mode |
| Config.LoadConfig | services/noesis-bridge/src/bridge.py:48-52 | a missing file is reported, and only then, as not found |
| Config.NoMappingFailsOnHost | services/noesis-bridge/src/bridge.py:52-74 | an empty document, or one whose top level is not a mapping, fails on the host |
| Config.PortAcceptsBoolean | services/noesis-bridge/src/bridge.py:75-76 | YAML `true` passes as port 1 and `false` fails, as `bool` is a subclass of `int` |
| Config.ModeDefaultsToDryRun | services/noesis-bridge/src/bridge.py:71 | a missing or false mode is `dry_run` |
| Config.PortTrue | services/noesis-bridge/src/bridge.py:75-98 | with every other check passing, YAML `true` loads as port 1 |
| Config.PortFalse | services/noesis-bridge/src/bridge.py:75-76 | after a valid host, YAML `false` fails the port check |
| Config.PlainModeName | services/noesis-bridge/src/bridge.py:84 | a word without capitals and without surrounding whitespace reads as itself |
| Config.LowerNoCapitals | services/noesis-bridge/src/bridge.py:84 | a string without ASCII capitals is its own lower case |
| Config.ModeIgnoresCaseAndBlanks | services/noesis-bridge/src/bridge.py:84 | the mode is read without ASCII case and surrounding whitespace |
| Config.ModeOfString | services/noesis-bridge/src/bridge.py:84 | a non-empty string mode is lowered and then stripped |
| Config.LowerAround | services/noesis-bridge/src/bridge.py:84 | lowering keeps surrounding whitespace as it is |
| Config.LowerConcat | services/noesis-bridge/src/bridge.py:84 | lowering works piece by piece |
| Config.Get | services/noesis-bridge/src/bridge.py:54-60 | defines `get(dct, *keys)`: the value down the key path, `None` once a value is not a mapping or lacks the key; `GetLoop` and `GetCompose` state its properties |
| Config.Truthy | services/noesis-bridge/src/bridge.py:68-71 | defines `bool(y)`: `None`, `False`, 0, the empty string and a mapping with no keys of any type are false |
| Config.Str | services/noesis-bridge/src/bridge.py:84-96 | defines `str(y)` for each kind of value |
| Config.Fields | services/noesis-bridge/src/bridge.py:62-71 | defines the nine values `load_config` reads, at their key paths |
| Config.Filled | services/noesis-bridge/src/bridge.py:73-81 | defines a string that is not blank (`isinstance(v, str) and v.strip()`) |
| Config.PortOk | services/noesis-bridge/src/bridge.py:75-76 | defines the port check, under which `True` is the integer 1 |
| Config.ModeName | services/noesis-bridge/src/bridge.py:71-84 | defines `str(mode_name or "dry_run").lower().strip()`; `ModeDefaultsToDryRun`, `ModeIgnoresCaseAndBlanks` and `MappingModeName` state its properties |
| Config.ModeOk | services/noesis-bridge/src/bridge.py:85 | defines the two accepted modes |
| Config.MappingModeRejected | services/noesis-bridge/src/bridge.py:71-86 | a mode given as a non-empty mapping is not defaulted to a dry run: its `str()` text is no mode, and loading fails on the mode |
| Config.MappingModeName | services/noesis-bridge/src/bridge.py:71-84 | a non-empty mapping mode reads as its lowered `str()` text, which starts with a brace and is not a valid mode |
| Config.LowerEnds | services/noesis-bridge/src/bridge.py:84 | lowering keeps a non-whitespace character at either end from being whitespace |
| Config.LowerBlank | services/noesis-bridge/src/bridge.py:84 | whitespace has no case |
| Writer.Prefix | services/noesis-bridge/src/writer.py:21-22 | `day[:n]` is the first `n` characters, or all of a shorter string |
| Writer.EventsPathLayout | services/noesis-bridge/src/writer.py:15-25 | the path is the output directory, `events`, `day[:4]`, `day[:7]` and `events-<day>.jsonl`, in that order |
| Writer.EventsPathShape | services/noesis-bridge/src/writer.py:15-25 | for a `YYYY-MM-DD` day the four added components are the year, the month and the file name, each a plain component |
| Writer.EventsPathInjective | services/noesis-bridge/src/writer.py:25 | different days never share a file |
| Writer.SameDirectoryIffSameMonth | services/noesis-bridge/src/writer.py:21-23 | two days share a directory exactly when they fall in the same month |
| Writer.MakeDirsSpec | services/noesis-bridge/src/writer.py:24 | `mkdir(parents=True, exist_ok=True)` makes the directory and all its ancestors and nothing else |
| Writer.TouchFrame | services/noesis-bridge/src/writer.py:51 | opening for appending creates the file if needed and changes no text |
| Writer.AppendLineFrame | services/noesis-bridge/src/writer.py:65 | appending extends that one file by the line and a newline and leaves every other file alone |
| Writer.TouchThenAppend | services/noesis-bridge/src/writer.py:51-65 | opening before appending makes no difference to the result |
| Writer.AppendOnly | services/noesis-bridge/src/writer.py:65 | the old text of a file is a prefix of its new text |
| Writer.AppendRecord | services/noesis-bridge/src/writer.py:65 | a line without a newline becomes the last record of the file |
| Writer.AppendAtBoundary | services/noesis-bridge/src/writer.py:65 | on a file that ends on a line boundary, the line becomes a record and the boundary is kept |
| Writer.WriteAddsRecord | services/noesis-bridge/src/writer.py:64-65 | writing one event adds exactly its JSON text as the file's last record |
| Writer.DumpsEach | services/noesis-bridge/src/writer.py:64 | one serialised line per event |
| Writer.WriteAllRecords | services/noesis-bridge/src/writer.py:55-69 | events written one after another read back as the old records followed by one record per event, in order |
| Writer.FreshFileRecords | services/noesis-bridge/src/_writer_smoketest.py:10-16 | a fresh file holds exactly the written events, one per line, in order |
| Writer.EventWriter.constructor | services/noesis-bridge/src/writer.py:38-41 | a new writer has no day, handle or path |
| Writer.EventWriter.EnsureOpen | services/noesis-bridge/src/writer.py:43-53 | an open handle on the same day is kept with nothing changed; otherwise the day's directory is made, its file opened for appending, and the writer records the day and path |
| Writer.EventWriter.WriteEvent | services/noesis-bridge/src/writer.py:55-69 | the event's JSON text and a newline are appended to the day's file, no other file changes, and that file's path is returned |
| Writer.EventWriter.Close | services/noesis-bridge/src/writer.py:71-79 | the handle, day and path are forgotten, also when nothing was open |
| Writer.EventsDir | services/noesis-bridge/src/writer.py:21-23 | defines `<out>/events/<day[:4]>/<day[:7]>`; `EventsPathLayout` and `SameDirectoryIffSameMonth` state its properties |
| Writer.FileName | services/noesis-bridge/src/writer.py:25 | defines `events-<day>.jsonl`; `EventsPathLayout` proves the day can be read back from it |
| Writer.EventsPath | services/noesis-bridge/src/writer.py:15-25 | defines the day's file under its directory; `EventsPathLayout`, `EventsPathShape` and `EventsPathInjective` state its properties |
| Writer.IsDay | services/noesis-bridge/src/writer.py:10-12 | defines what `utc_day()` returns: `YYYY-MM-DD` in ASCII digits |
| Writer.PlainComponent | services/noesis-bridge/src/writer.py:23-25 | defines a path component `pathlib` keeps as it is |
| Writer.TextOf | services/noesis-bridge/src/writer.py:51-65 | defines the text of a file, empty when it does not exist |
| Writer.Touch | services/noesis-bridge/src/writer.py:51 | defines `open(p, "a")` on the file map; `TouchFrame` states that it creates the file and changes no text |
| Writer.AppendLine | services/noesis-bridge/src/writer.py:65 | defines writing a line and a newline at the end of a file; `AppendLineFrame` and `AppendOnly` state what changes |
| Writer.MakeDirs | services/noesis-bridge/src/writer.py:24 | defines `mkdir(parents=True, exist_ok=True)`; `MakeDirsSpec` states what it creates |
| Writer.Records | services/noesis-bridge/src/writer.py:33 | defines the JSON Lines records of a text, its newline-terminated lines |
| Writer.WriteAll | services/noesis-bridge/src/writer.py:55-69 | defines a day's events written one after another; `WriteAllRecords` proves they read back in order |
| Writer.FileSystem.constructor | services/noesis-bridge/src/writer.py:51-65 | the file system starts with the given files and directories |
| Writer.EventWriter.Valid | services/noesis-bridge/src/writer.py:38-53 | defines the writer invariant: nothing open, or the handle open on the current day's file, which exists |
| Writer.SinkOf | services/noesis-bridge/src/writer.py:38-41 | defines the writer's state together with its files |
| Writer.WrittenOn | services/noesis-bridge/src/writer.py:55-69 | defines that the writer has since written exactly the given events on one day, with or without a rotation |
| Bridge.Get | services/noesis-bridge/src/bridge.py:344-352 | `kv.get(k)` used as a truth value and `kv.get(k, "")` treat a missing key as an empty value |
| Bridge.Classify | services/noesis-bridge/src/bridge.py:344-388 | a SAY is kept exactly when `t` is SAY and actor and loc are non-empty, a MOVE exactly when `t` is MOVE and actor, from and to are non-empty; the fields are the parsed values, with `raw` and `verb` defaulting to empty |
| Bridge.Drafts | services/noesis-bridge/src/bridge.py:331-388 | at most one draft per line |
| Bridge.Emitted | services/noesis-bridge/src/bridge.py:358-372 | one event per draft |
| Bridge.Ingest.constructor | services/noesis-bridge/src/bridge.py:292-296 | the loop starts with `seq` 0, an empty buffer, no events, and the receive time set to the start |
| Bridge.Ingest.IngestChunk | services/noesis-bridge/src/bridge.py:327-406 | the complete lines of the buffer plus the chunk (with `\r` read as `\n`) are screened in order; the accepted ones are numbered on from `seq`, appended to the log and written to the day's file; the incomplete rest stays buffered; the receive time moves only on a non-empty chunk and the write time only when something was written |
| Bridge.Ingest.Advance | services/noesis-bridge/src/bridge.py:358-376 | `seq` and `events_written` grow by the number of events written, the log keeps its gap-free numbering, and the write time moves only when an event was written |
| Bridge.Ingest.Reconnect | services/noesis-bridge/src/bridge.py:301-309 | a successful login clears the partial line and keeps `seq`, the counters and the log; a failed login (response holds the failure phrase) aborts before the buffer is cleared |
| Bridge.Screened | services/noesis-bridge/src/bridge.py:331-406 | the inner loop yields the events of the complete lines and leaves the rest, which holds no newline |
| Bridge.WriteEvents | services/noesis-bridge/src/bridge.py:374-404 | writing a chunk's events in order leaves each as the next record of the day's file |
| Bridge.NextLine | services/noesis-bridge/src/bridge.py:331-346 | one turn of the inner loop consumes the first line, keeps the framing invariant and adds that line's draft, if any |
| Bridge.Decide | services/noesis-bridge/src/bridge.py:333-388 | one stripped line yields its screened draft, if any |
| Bridge.EmittedStep | services/noesis-bridge/src/bridge.py:358 | one more draft gets the next number |
| Bridge.EmittedIndex | services/noesis-bridge/src/bridge.py:358-400 | the `i`-th event of a chunk is the `i`-th draft with number `seq + i + 1` |
| Bridge.EmittedSeq | services/noesis-bridge/src/bridge.py:358-366 | the `k`-th event of a chunk carries `seq` equal to `seq0 + k + 1` |
| Bridge.LogExtended | services/noesis-bridge/src/bridge.py:358-390 | a chunk's events continue the log's numbering without a gap |
| Bridge.DraftsAppend | services/noesis-bridge/src/bridge.py:331-406 | the drafts of two runs of lines are the drafts of each, in order |
| Bridge.DraftsOne | services/noesis-bridge/src/bridge.py:333-388 | the drafts of one line are its screened draft, if any |
| Bridge.DryRunDraftsNothing | services/noesis-bridge/src/bridge.py:337-338 | outside `record` mode no line yields an event |
| Bridge.ChunkingIrrelevant | services/noesis-bridge/src/bridge.py:327-332 | cutting the received text into two chunks yields the same events in the same order, and the same partial line, as receiving it at once |
| Bridge.ReceivedConcat | services/noesis-bridge/src/bridge.py:330 | receiving two chunks appends both, with `\r` read as `\n` |
| Bridge.DraftsConcat | services/noesis-bridge/src/bridge.py:331-332 | the drafts of a text cut in two are the drafts of the first part's complete lines, then those of its rest followed by the second part |
| Bridge.StampFields | services/noesis-bridge/src/bridge.py:359-400 | an event carries its `seq` and type, `actor.dbref` is the actor, `location.dbref` is the SAY's loc or the MOVE's destination, `content.raw` is the raw text, and `content.verb` is present exactly for a SAY with a non-empty verb |
| Bridge.StampSeq | services/noesis-bridge/src/bridge.py:366-394 | the event's `seq` is its number |
| Bridge.StampType | services/noesis-bridge/src/bridge.py:367-395 | the event's type is SAY or MOVE as drafted |
| Bridge.StampActor | services/noesis-bridge/src/bridge.py:368-396 | `actor.dbref` is the actor |
| Bridge.StampLocation | services/noesis-bridge/src/bridge.py:369-397 | `location.dbref` is the SAY's location or the MOVE's destination |
| Bridge.StampContent | services/noesis-bridge/src/bridge.py:359-398 | `content.raw` is the raw text; `content.verb` is present exactly for a SAY with a non-empty verb |
| Bridge.LookupRef | services/noesis-bridge/src/bridge.py:368-369 | a reference object's `dbref` is its id |
| Bridge.ContentFields | services/noesis-bridge/src/bridge.py:359-398 | the content object holds `raw`, and `verb` only for a SAY with a verb |
| Bridge.LoginFailsOnPhrase | services/noesis-bridge/src/bridge.py:190-192 | a response holding the failure phrase anywhere fails the login |
| Bridge.SayLineScreened | services/noesis-bridge/src/bridge.py:340-361 | a marker line written from `t=SAY`, actor, loc and raw is drafted, when recording, as that SAY with no verb |
| Bridge.SayClassified | services/noesis-bridge/src/bridge.py:348-361 | a SAY dictionary with actor and loc is kept, with no verb |
| Bridge.MoveLineScreened | services/noesis-bridge/src/bridge.py:340-388 | a marker line written from `t=MOVE`, actor, from and to is drafted as that MOVE with an empty raw text |
| Bridge.MoveClassified | services/noesis-bridge/src/bridge.py:380-388 | a MOVE dictionary with actor, from and to is kept, with `raw` defaulting to empty |
| Bridge.FourPairsParsed | services/noesis-bridge/src/bridge.py:340-346 | a marker line of four well-formed pairs parses to the dictionary of the four, later keys winning; both the SAY and the MOVE line use it |
| Bridge.CollectFour | services/noesis-bridge/src/bridge.py:250-255 | four pairs fold into the dictionary of the four, later keys winning |
| Bridge.FormatLineStripped | services/noesis-bridge/src/bridge.py:333 | a formatted marker line is left unchanged by `strip` |
| Bridge.Screen | services/noesis-bridge/src/bridge.py:333-346 | defines one framed line stripped, skipped when blank or when not recording, parsed and classified; `DraftsOne`, `DryRunDraftsNothing`, `SayLineScreened` and `MoveLineScreened` state its properties |
| Bridge.Listed | services/noesis-bridge/src/bridge.py:346-388 | a line yields at most one draft |
| Bridge.Ref | services/noesis-bridge/src/bridge.py:368-369 | defines `{"dbref": id, "name": id}`; `LookupRef` reads its id back |
| Bridge.Stamp | services/noesis-bridge/src/bridge.py:359-400 | defines the event dictionary of a draft; `StampFields` and the lemmas after it state each member |
| Bridge.LoginFailed | services/noesis-bridge/src/bridge.py:190 | defines the failure test, the phrase occurring in the response; `LoginFailsOnPhrase` states it |
| Bridge.SeqOf | services/noesis-bridge/src/bridge.py:366-394 | defines the `seq` member of an event; `StampSeqOf` reads it back |
| Bridge.Numbered | services/noesis-bridge/src/bridge.py:358-394 | defines a log numbered 1, 2, 3, ... in order |
| Bridge.Received | services/noesis-bridge/src/bridge.py:330 | defines the buffer after a chunk, `\r` read as `\n`; `ReceivedConcat` states that two chunks append |
| Bridge.Ingest.Valid | services/noesis-bridge/src/bridge.py:292-406 | defines the loop invariant: the log holds `seq` events numbered 1 to `seq` without a gap, `events_written` equals `seq`, and the buffer holds no newline |
| Bridge.WriteAllPrefix | services/noesis-bridge/src/writer.py:55-69 | writing one more event of a chunk appends it to what the earlier ones wrote |
| Bridge.DraftsSnoc | services/noesis-bridge/src/bridge.py:331-346 | the last line's drafts follow those of the lines before it |
| Bridge.PairsFour | services/noesis-bridge/src/bridge.py:251-255 | four pairs are four decoded fields |
| Bridge.StampSeqOf | services/noesis-bridge/src/bridge.py:366-394 | an event's `seq` member is its number |
| Telnet.AfterSubnegotiation | services/elias-bot/elias_mux_bot.py:52-56 | the subnegotiation scan never lengthens the input |
| Telnet.AfterSubnegotiationSuffix | services/elias-bot/elias_mux_bot.py:52-56 | what remains after the scan is a suffix of the input |
| Telnet.SkipSubnegotiation | services/elias-bot/elias_mux_bot.py:50-57 | the inner loop of `strip_telnet_iac` stops just after the first IAC SE, or at the end |
| Telnet.StripTelnetIac | services/elias-bot/elias_mux_bot.py:20-67 | the loop of `strip_telnet_iac` computes the specification function `Strip` |
| Telnet.StripFrom | services/elias-bot/elias_mux_bot.py:31-65 | one step of the specification read at an index, per case of the loop of `strip_telnet_iac` |
| Telnet.StripPlainPrefix | services/elias-bot/elias_mux_bot.py:33-36 | bytes before the first IAC are copied verbatim and in order |
| Telnet.StripClean | services/elias-bot/elias_mux_bot.py:33-36 | input without byte 255 passes through unchanged |
| Telnet.StripEscapedIac | services/elias-bot/elias_mux_bot.py:44-47 | IAC IAC gives one byte 255 |
| Telnet.StripTrailingIac | services/elias-bot/elias_mux_bot.py:39-40 | a lone IAC at the end is dropped |
| Telnet.SkipToTerminator | services/elias-bot/elias_mux_bot.py:52-56 | the scan resumes right after the first IAC SE |
| Telnet.NoTerminatorSkipsAll | services/elias-bot/elias_mux_bot.py:52-56 | without an IAC SE the scan consumes everything |
| Telnet.StripSubnegotiation | services/elias-bot/elias_mux_bot.py:50-57 | no byte of IAC SB ... IAC SE reaches the output |
| Telnet.StripSbPrefix | services/elias-bot/elias_mux_bot.py:50-57 | IAC SB hands the rest to the subnegotiation scan |
| Telnet.StripUnterminatedSubnegotiation | services/elias-bot/elias_mux_bot.py:50-57 | an unterminated subnegotiation drops everything after IAC SB |
| Telnet.StripNegotiation | services/elias-bot/elias_mux_bot.py:60-62 | IAC WILL/WONT/DO/DONT drops itself and one option byte |
| Telnet.StripOtherCommand | services/elias-bot/elias_mux_bot.py:64-65 | any other command drops the two-byte pair |
| Telnet.SubsequenceLength | services/elias-bot/elias_mux_bot.py:20-67 | a subsequence is never longer |
| Telnet.SubsequenceOfSuffix | services/elias-bot/elias_mux_bot.py:20-67 | a subsequence of a suffix is a subsequence of the whole |
| Telnet.StripIsSubsequence | services/elias-bot/elias_mux_bot.py:20-67 | stripping only deletes bytes: the output is a subsequence of the input |
| Telnet.EscapedIacEndsSubnegotiation | services/elias-bot/elias_mux_bot.py:53 | inside a subnegotiation the scan treats the SE after an escaped IAC IAC as the terminator |
| Telnet.Strip | services/elias-bot/elias_mux_bot.py:20-67 | defines the bytes left after stripping every Telnet command; `StripTelnetIac` proves the loop computes it and `StripIsSubsequence` that it only deletes bytes |
| Telnet.From | services/elias-bot/elias_mux_bot.py:52 | defines the part of the input from an index on, empty past the end |
| Telnet.AfterSubnegotiationAt | services/elias-bot/elias_mux_bot.py:52-56 | one step of the subnegotiation scan read at an index |
| Telnet.NoTerminator | services/elias-bot/elias_mux_bot.py:53 | defines a byte sequence without IAC SE |
| Telnet.Subsequence | services/elias-bot/elias_mux_bot.py:20-67 | defines a sequence obtained from another by deleting elements |
| Utf8.SequenceLength | services/elias-bot/elias_mux_bot.py:79 | a well-formed UTF-8 sequence is at most 4 bytes |
| Utf8.AcceptedPrefix | services/elias-bot/elias_mux_bot.py:79 | the valid continuation bytes after a lead byte form a maximal run |
| Utf8.Step | services/elias-bot/elias_mux_bot.py:79 | one decoding step consumes 1 to 4 bytes, and an ASCII byte decodes as itself |
| Utf8.Decode | services/elias-bot/elias_mux_bot.py:79 | a UTF-8 decode has at most as many characters as bytes |
| Utf8.Latin1 | services/elias-bot/elias_mux_bot.py:83 | Latin-1 maps each byte to the character of the same number |
| Utf8.DecodeAscii | services/elias-bot/elias_mux_bot.py:79 | ASCII decodes the same in UTF-8 and Latin-1 |
| Utf8.TwoByteExamples | services/elias-bot/elias_mux_bot.py:79 | a well-formed two-byte sequence gives its character; a bad continuation gives U+FFFD and the byte is read again |
| Utf8.TruncatedSequence | services/elias-bot/elias_mux_bot.py:79 | a truncated three-byte sequence gives one U+FFFD |
| Utf8.IsContinuation | services/elias-bot/elias_mux_bot.py:79 | defines a continuation byte, 0x80 to 0xBF |
| Utf8.SecondLow | services/elias-bot/elias_mux_bot.py:79 | defines the lower bound on the second byte per lead byte, as in Table 3-7 of the Unicode Standard |
| Utf8.SecondHigh | services/elias-bot/elias_mux_bot.py:79 | defines the upper bound on the second byte per lead byte, as in Table 3-7 of the Unicode Standard |
| Utf8.Acceptable | services/elias-bot/elias_mux_bot.py:79 | defines an acceptable byte at a position of a sequence |
| Utf8.CodePoint | services/elias-bot/elias_mux_bot.py:79 | defines the code point of a well-formed sequence of one to four bytes |
| Utf8.IsAscii | services/elias-bot/elias_mux_bot.py:79 | defines bytes below 0x80 |
| EliasBot.SmartDecode | services/elias-bot/elias_mux_bot.py:70-84 | empty input gives empty text; otherwise the result is the UTF-8 decode of the stripped bytes when it is not too damaged, and their Latin-1 decode when it is |
| EliasBot.SmartDecodeAscii | services/elias-bot/elias_mux_bot.py:70-84 | plain ASCII comes through character for byte |
| EliasBot.Utf8Clean | services/elias-bot/elias_mux_bot.py:80-82 | a decode without U+FFFD is never judged damaged |
| EliasBot.SmartDecodeFallsBack | services/elias-bot/elias_mux_bot.py:82-83 | one stray Latin-1 byte in a short line switches the whole line to Latin-1 |
| EliasBot.SmartDecodeKeepsUtf8 | services/elias-bot/elias_mux_bot.py:79-84 | well-formed UTF-8 is kept |
| EliasBot.DecodeLine | services/elias-bot/elias_mux_bot.py:242 | a decoded line is no longer than its bytes and does not end with `\r` |
| EliasBot.Kept | services/elias-bot/elias_mux_bot.py:243-244 | a kept line is not blank |
| EliasBot.DecodeLines | services/elias-bot/elias_mux_bot.py:238-245 | at most one line per raw line, each non-blank and without a trailing `\r` |
| EliasBot.DecodeLinesAppend | services/elias-bot/elias_mux_bot.py:239-244 | the lines of two batches are the lines of each, in order |
| EliasBot.DecodeLinesSingle | services/elias-bot/elias_mux_bot.py:242-244 | one raw line gives its decoded line when it is not blank |
| EliasBot.DecodeLinesPush | services/elias-bot/elias_mux_bot.py:242-244 | one more raw line adds its kept line at the end |
| EliasBot.BareSubnegotiationStart | services/elias-bot/elias_mux_bot.py:50-57 | a line that is only IAC SB decodes to nothing |
| EliasBot.LetterBeforeTerminator | services/elias-bot/elias_mux_bot.py:50-57 | a letter followed by a stray IAC SE is kept and the pair dropped |
| EliasBot.SplitBeforeStrip | services/elias-bot/elias_mux_bot.py:239-242 | lines are cut before Telnet stripping, so a subnegotiation that spans a newline leaves the text after that newline, which the whole-buffer strip would drop |
| EliasBot.WholeStreamStrip | services/elias-bot/elias_mux_bot.py:50-57 | read as a whole, IAC SB, newline, `A`, IAC SE, newline strips to the final newline alone |
| EliasBot.StreamFrames | services/elias-bot/elias_mux_bot.py:239-241 | cut on byte 10, that stream is the two complete lines IAC SB and `A` IAC SE |
| EliasBot.Bot.constructor | services/elias-bot/elias_mux_bot.py:174-175 | a fresh bot, or a fresh connection, has an empty buffer and activity stamped now |
| EliasBot.Bot.ReadLines | services/elias-bot/elias_mux_bot.py:229-245 | the returned lines are the decoded complete lines of the old buffer plus the new bytes, in order; the buffer keeps the incomplete rest; activity is stamped only when bytes arrived |
| EliasBot.ReadLinesStep | services/elias-bot/elias_mux_bot.py:239-241 | `partition(b"\n")` takes off the first complete line and keeps the framing |
| EliasBot.ReadLinesFraming | services/elias-bot/elias_mux_bot.py:239-241 | the buffer plus new bytes is its complete lines, each with its newline, then a rest without a newline |
| EliasBot.ReadLinesTwice | services/elias-bot/elias_mux_bot.py:233-245 | two reads return the same lines, and leave the same buffer, as one read of all the bytes |
| EliasBot.LineBreakIsSpace | services/elias-bot/elias_mux_bot.py:204 | every `splitlines` break is whitespace to `strip` |
| EliasBot.LineBreakIndex | services/elias-bot/elias_mux_bot.py:204 | the index found is that of the first line break, or the length |
| EliasBot.SplitLines | services/elias-bot/elias_mux_bot.py:204 | `splitlines` pieces hold no line break |
| EliasBot.SplitLinesFree | services/elias-bot/elias_mux_bot.py:204 | a text without line breaks is its own single line, none when empty |
| EliasBot.JoinLineBreakFree | services/elias-bot/elias_mux_bot.py:204 | joining such pieces with spaces gives a text without line breaks |
| EliasBot.LineBreakFreeStrip | services/elias-bot/elias_mux_bot.py:204 | stripping keeps a text free of line breaks |
| EliasBot.Collapse | services/elias-bot/elias_mux_bot.py:204 | the collapsed answer holds no line break and has no surrounding whitespace |
| EliasBot.Cap | services/elias-bot/elias_mux_bot.py:206 | the cut answer is a prefix of at most 780 characters followed by the ellipsis, without trailing or new whitespace |
| EliasBot.CapHead | services/elias-bot/elias_mux_bot.py:206 | the right-stripped head is a prefix of the answer of at most 780 characters, keeps the answer free of line breaks, and starts where the answer starts |
| EliasBot.ShapeReply | services/elias-bot/elias_mux_bot.py:204-206 | the reply is one line of at most 800 characters without surrounding whitespace |
| EliasBot.ShapeReplyCases | services/elias-bot/elias_mux_bot.py:205-206 | an answer of at most 800 characters is only collapsed; a longer one becomes its first 780 characters, right-stripped, plus `…` |
| EliasBot.ShapeReplyIdempotent | services/elias-bot/elias_mux_bot.py:204-206 | shaping a shaped reply changes nothing |
| EliasBot.ShapeReplyJoinsLines | services/elias-bot/elias_mux_bot.py:204 | `\r\n` inside a reply becomes a single space |
| EliasBot.TooDamaged | services/elias-bot/elias_mux_bot.py:80-82 | defines the mojibake test `count / max(1, len) > 0.02` without division; `Utf8Clean` and `SmartDecodeFallsBack` state both sides |
| EliasBot.Deliverable | services/elias-bot/elias_mux_bot.py:242-244 | defines a line `read_lines` hands out: not blank, no trailing `\r` |
| EliasBot.IsLineBreak | services/elias-bot/elias_mux_bot.py:204 | defines the characters `str.splitlines` breaks at |
| EliasBot.LineBreakFree | services/elias-bot/elias_mux_bot.py:204 | defines text without such a character |

## Left out

- Sockets, `MuxClient.connect`, `recv_some`'s error handling, `send_line`, the banner and `who` exchanges of `login`, `KeepAlive`, the heartbeat file, the run meta file and `TechLogger`: I/O outside the core. A received chunk is modelled as the text `recv_some` returns, and the bridge's UTF-8 decode of it is not modelled there (`Utf8.Decode` models the same decode for the bot).
- The clock: `iso_utc_now_ms()`, `utc_day()` and `time.time()` are one `Bridge.Clock` reading per chunk, and time is an integer. `main` reads the clock again for each event, so events of one chunk that straddles midnight could there go to two files; the model writes them to one.
- Bridge.Ingest.IngestChunk: screens all lines of the chunk first and then writes the events. `main` writes each event before it reads the next line. The files, the log and the counters end the same, but a failure part-way through is not modelled.
- Exceptions: an `OSError` from `open` or `write` and the crash of the loop are not modelled. `load_config` errors are `Config.Failed` values, and a failed login is `Reconnect` returning false.
- A failed login ends the bridge: `login` raises and nothing in `bridge.py` retries it, so the model has no retry loop either.
- Bridge.Ingest.Reconnect: the login itself (reading the response for three seconds) is a parameter; the one-second back-off and `mux.close()` are not modelled.
- The regular expression is written out as matching functions for this one pattern. `re` in general is not modelled. The match is case-sensitive, as the code compiles it without `re.IGNORECASE`.
- `yaml.safe_load` is not modelled: `Config.LoadConfig` takes the loaded document as a `Config.Yaml` value. A float, list, date or other value is `YOther`, which carries the text `str()` gives for it and its truth value; a mapping carries its `str()` text the same way, the entries under its string keys, and the number of its keys of other types, which count for its truth value but which no lookup by a string key finds.
- Config.Lower, Config.Upper: ASCII letters only; Unicode case mapping is not modelled.
- Config.PathParts: only the POSIX component rules `Path(...)` applies (repeated and trailing slashes, `.` components); `resolve()` and symlinks are not modelled.
- Config.Validate: a YAML `true` port is stored as the integer 1, which is what `int(True)` gives; `load_config` keeps the `bool` object.
- The chatbot call (`elias_reply`), the bot's nickname and command recognisers, its OpenAI client, reconnection back-off and paging are outside the core. Only the reply shaping at `handle_and_reply` lines 204-206 is modelled; the error text it shapes is any string.
- `bytes.decode` with `errors="replace"` on Latin-1 never replaces; `Utf8.Latin1` has no error case.
- EliasBot.ShapeReply: `len` counts Unicode code points; Dafny's `char` is a Unicode scalar value, so lone surrogates in an answer are not modelled.
- `Json.Dumps`: only strings, integers, lists and objects, the values the bridge builds. Floats, `None`, booleans and the `ensure_ascii=True` form are not modelled.
- Writer.EventsPath: a path is a sequence of components, not a string. `pathlib` drops an empty component and splits one that holds a slash; the model keeps such components as they are. This matters only for a day that is not of the form `YYYY-MM-DD`, which `utc_day()` never returns (see `Writer.EventsPathShape`).
