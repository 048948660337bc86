/** The bridge's main loop: received text is framed into lines, each marker
    line is parsed, SAY and MOVE telemetry with its mandatory keys becomes a
    numbered event, and each event is appended to the day's JSON Lines file.
    The clock is a parameter: one reading per received chunk. */
module Bridge {
  import opened Text
  import opened Json
  import opened NoesisKv
  import opened Writer

  /** One reading of the clock: `iso_utc_now_ms()`, the writer's `utc_day()`
      and `time.time()`. */
  datatype Clock = Clock(tsUtc: string, day: string, now: int)

  /** The fields an event is built from, once its mandatory keys are present. */
  datatype Draft =
    | Say(actor: string, loc: string, raw: string, verb: string)
    | Move(actor: string, from: string, to: string, raw: string)

  /** `kv.get(k)` used as a truth value, and `kv.get(k, "")`: a missing key and an
      empty value are both `""`. */
  function Get(kv: map<string, string>, k: string): (v: string)
    ensures k in kv ==> v == kv[k]
    ensures k !in kv ==> v == ""
  {
    if k in kv then kv[k] else ""
  }

  /** The decision the loop makes on a parsed dictionary: an unknown or missing
      type, or a missing mandatory key, drops it. */
  function Classify(kv: map<string, string>): (d: Option<Draft>)
    ensures (d.Some? && d.value.Say?) <==> Get(kv, "t") == "SAY" && Get(kv, "actor") != "" && Get(kv, "loc") != ""
    ensures (d.Some? && d.value.Move?) <==>
      Get(kv, "t") == "MOVE" && Get(kv, "actor") != "" && Get(kv, "from") != "" && Get(kv, "to") != ""
    ensures d.Some? ==> "actor" in kv && d.value.actor == kv["actor"] && d.value.raw == Get(kv, "raw")
    ensures d.Some? && d.value.Say? ==> d.value.loc == kv["loc"] && d.value.verb == Get(kv, "verb")
    ensures d.Some? && d.value.Move? ==> d.value.from == kv["from"] && d.value.to == kv["to"]
  {
    var t := Get(kv, "t");
    if t == "SAY" then
      if Get(kv, "actor") == "" || Get(kv, "loc") == "" then None
      else Some(Say(Get(kv, "actor"), Get(kv, "loc"), Get(kv, "raw"), Get(kv, "verb")))
    else if t == "MOVE" then
      if Get(kv, "actor") == "" || Get(kv, "from") == "" || Get(kv, "to") == "" then None
      else Some(Move(Get(kv, "actor"), Get(kv, "from"), Get(kv, "to"), Get(kv, "raw")))
    else None
  }

  /** One framed line: stripped, skipped when blank or when not recording,
      parsed, classified. */
  function Screen(line: string, recording: bool): (d: Option<Draft>)
  {
    var s := Strip(line);
    if s == [] || !recording then None
    else
      match ParseKv(s)
      case None => None
      case Some(kv) => Classify(kv)
  }

  /** The drafts of a sequence of lines, in order. */
  function Drafts(lines: seq<string>, recording: bool): (ds: seq<Draft>)
    ensures |ds| <= |lines|
  {
    if lines == [] then []
    else Drafts(lines[..|lines| - 1], recording) + Listed(Screen(lines[|lines| - 1], recording))
  }

  /** The draft a line yields, if any, as a sequence of zero or one drafts. */
  function Listed(d: Option<Draft>): (r: seq<Draft>)
    ensures |r| <= 1
  {
    if d.Some? then [d.value] else []
  }

  /** `{"dbref": id, "name": id}`. */
  function Ref(id: string): (j: Json)
  {
    JObj([Member("dbref", JStr(id)), Member("name", JStr(id))])
  }

  /** The event dictionary the loop builds, members in the order `main` inserts them. */
  function Stamp(d: Draft, seqNo: int, tsUtc: string, runId: string): (e: Json)
  {
    var where := if d.Say? then d.loc else d.to;
    var content :=
      if d.Say? then
        JObj([Member("raw", JStr(d.raw))] + (if d.verb != "" then [Member("verb", JStr(d.verb))] else []))
      else
        JObj([Member("from", JStr(d.from)), Member("to", JStr(d.to)), Member("raw", JStr(d.raw))]);
    JObj([
      Member("ts_utc", JStr(tsUtc)),
      Member("run_id", JStr(runId)),
      Member("seq", JInt(seqNo)),
      Member("type", JStr(if d.Say? then "SAY" else "MOVE")),
      Member("actor", Ref(d.actor)),
      Member("location", Ref(where)),
      Member("content", content),
      Member("perception", JObj([Member("perceived_by", JArr([JStr(d.actor)])), Member("occluded_for", JArr([]))]))
    ])
  }

  /** The events of a chunk's drafts, numbered on from `seq0`. */
  function Emitted(ds: seq<Draft>, seq0: int, clock: Clock, runId: string): (es: seq<Json>)
    ensures |es| == |ds|
  {
    if ds == [] then []
    else Emitted(ds[..|ds| - 1], seq0, clock, runId) + [Stamp(ds[|ds| - 1], seq0 + |ds|, clock.tsUtc, runId)]
  }

  /** The login response shows bad credentials. */
  function LoginFailed(resp: string): (b: bool)
  {
    Contains(resp, "Either that player does not exist")
  }

  // ---------------------------------------------------------------------
  // The loop

  /** The `seq` member of an event. */
  function SeqOf(e: Json): (r: Option<Json>)
  {
    Lookup(e, ["seq"])
  }

  /** The events of a log are numbered 1, 2, 3, ... in order. */
  ghost predicate Numbered(log: seq<Json>)
  {
    forall i | 0 <= i < |log| :: SeqOf(log[i]) == Some(JInt(i + 1))
  }

  /** The buffer after a chunk is received: carriage returns become line breaks. */
  function Received(buffer: string, chunk: string): (s: string)
  {
    buffer + ReplaceChar(chunk, '\r', '\n')
  }

  /** The locals of `main` that the receive loop updates, with the events
      written so far kept as a ghost log. */
  class Ingest {
    var seqNo: int
    var buffer: string
    var eventsWritten: int
    var lastEventRxTs: int
    var lastEventWriteTs: int
    ghost var log: seq<Json>

    /** Every event written was numbered, numbers run 1, 2, 3, ... without a
        gap, and the buffer holds at most an incomplete line. */
    ghost predicate Valid()
      reads this
    {
      eventsWritten == seqNo && |log| == seqNo && Numbered(log) && '\n' !in buffer
    }

    /** The locals before the loop starts at time `startedAt`. */
    constructor (startedAt: int)
      ensures Valid() && seqNo == 0 && buffer == "" && log == []
      ensures lastEventRxTs == startedAt && lastEventWriteTs == 0
    {
      seqNo := 0;
      buffer := "";
      eventsWritten := 0;
      lastEventRxTs := startedAt;
      lastEventWriteTs := 0;
      log := [];
    }

    /** One pass of the loop on the received `chunk` (nothing happens to the
        buffer when it is empty): the complete lines are consumed in order,
        each accepted draft is numbered and written, and the incomplete rest
        stays buffered. */
    method IngestChunk(writer: EventWriter, chunk: string, clock: Clock, runId: string, recording: bool)
      requires Valid() && writer.Valid()
      modifies this, writer, writer.fs
      ensures Valid() && writer.Valid()
      ensures buffer == Rest(Received(old(buffer), chunk), '\n')
      ensures log == old(log) + Emitted(Drafts(Complete(Received(old(buffer), chunk), '\n'), recording), old(seqNo), clock, runId)
      ensures WrittenOn(writer, old(SinkOf(writer)), clock.day,
        Emitted(Drafts(Complete(Received(old(buffer), chunk), '\n'), recording), old(seqNo), clock, runId))
      ensures lastEventRxTs == (if chunk != [] then clock.now else old(lastEventRxTs))
      ensures lastEventWriteTs == (if seqNo == old(seqNo) then old(lastEventWriteTs) else clock.now)
    {
      var text := buffer;
      if chunk != [] {
        lastEventRxTs := clock.now;
        text := text + ReplaceChar(chunk, '\r', '\n');
      } else {
        assert text + ReplaceChar(chunk, '\r', '\n') == text;
      }
      var events, rest := Screened(text, recording, seqNo, clock, runId);
      WriteEvents(writer, events, clock.day);
      LogExtended(log, Drafts(Complete(text, '\n'), recording), clock, runId);
      Advance(events, rest, clock.now);
    }

    /** The counters and the buffer after a chunk's `events` are written. */
    method Advance(events: seq<Json>, rest: string, now: int)
      requires eventsWritten == seqNo && |log| == seqNo && Numbered(log + events) && '\n' !in rest
      modifies this
      ensures Valid() && buffer == rest && log == old(log) + events && seqNo == old(seqNo) + |events|
      ensures lastEventRxTs == old(lastEventRxTs)
      ensures lastEventWriteTs == (if events == [] then old(lastEventWriteTs) else now)
    {
      seqNo := seqNo + |events|;
      eventsWritten := eventsWritten + |events|;
      log := log + events;
      buffer := rest;
      if events != [] {
        lastEventWriteTs := now;
      }
    }

    /** `reconnect()` after a login whose response was `loginResponse`: a
        failed login raises before the buffer is cleared; otherwise the partial
        line is dropped and numbering goes on. */
    method Reconnect(loginResponse: string) returns (ok: bool)
      requires Valid()
      modifies this
      ensures Valid()
      ensures ok <==> !LoginFailed(loginResponse)
      ensures buffer == (if ok then "" else old(buffer))
      ensures seqNo == old(seqNo) && eventsWritten == old(eventsWritten) && log == old(log)
      ensures lastEventRxTs == old(lastEventRxTs) && lastEventWriteTs == old(lastEventWriteTs)
    {
      if LoginFailed(loginResponse) {
        return false;
      }
      buffer := "";
      return true;
    }
  }

  /** The inner loop's parsing: each complete line of `text` is split off in
      turn, screened, and an accepted draft numbered on from `seq0`. */
  method Screened(text: string, recording: bool, seq0: int, clock: Clock, runId: string)
    returns (events: seq<Json>, buffer: string)
    ensures buffer == Rest(text, '\n') && '\n' !in buffer
    ensures events == Emitted(Drafts(Complete(text, '\n'), recording), seq0, clock, runId)
  {
    buffer := text;
    var seqNo := seq0;
    ghost var consumed: seq<string> := [];
    ghost var ds: seq<Draft> := [];
    events := [];
    assert Terminated(consumed, '\n') == [];
    while '\n' in buffer
      invariant Framed(text, consumed, buffer, '\n')
      invariant ds == Drafts(consumed, recording)
      invariant events == Emitted(ds, seq0, clock, runId) && seqNo == seq0 + |ds|
      decreases |buffer|
    {
      var d;
      ghost var ds';
      buffer, d, consumed, ds' := NextLine(buffer, recording, text, consumed, ds);
      if d.Some? {
        seqNo := seqNo + 1;
        assert ds' == ds + [d.value];
        EmittedStep(ds, d.value, seq0, clock, runId);
        events := events + [Stamp(d.value, seqNo, clock.tsUtc, runId)];
      } else {
        assert ds' == ds;
      }
      ds := ds';
    }
    FramedDone(text, consumed, buffer, '\n');
  }

  /** `writer.write_event(event)` for each event in order. */
  method WriteEvents(writer: EventWriter, events: seq<Json>, day: string)
    requires writer.Valid()
    modifies writer, writer.fs
    ensures WrittenOn(writer, old(SinkOf(writer)), day, events)
  {
    ghost var s0 := SinkOf(writer);
    for i := 0 to |events|
      invariant WrittenOn(writer, s0, day, events[..i])
    {
      WriteAllPrefix(s0.files, EventsPath(writer.outDir, day), events, i);
      var _ := writer.WriteEvent(events[i], day);
    }
    assert events[..|events|] == events;
  }

  /** `line, buffer = buffer.split("\n", 1)` and the decision on `line`. */
  method NextLine(buffer: string, recording: bool, ghost text: string, ghost consumed: seq<string>, ghost ds: seq<Draft>)
    returns (rest: string, d: Option<Draft>, ghost consumed': seq<string>, ghost ds': seq<Draft>)
    requires Framed(text, consumed, buffer, '\n') && '\n' in buffer && ds == Drafts(consumed, recording)
    ensures Framed(text, consumed', rest, '\n') && |rest| < |buffer|
    ensures |consumed'| == |consumed| + 1 && consumed'[..|consumed|] == consumed
    ensures d == Screen(consumed'[|consumed|], recording)
    ensures ds' == Drafts(consumed', recording) && ds' == ds + Listed(d)
  {
    var k := IndexOf(buffer, '\n');
    var line := buffer[..k];
    rest := buffer[k + 1..];
    consumed' := consumed + [line];
    assert consumed'[..|consumed|] == consumed && consumed'[|consumed|] == line;
    d := Decide(line, recording, consumed, ds);
    ds' := ds + Listed(d);
    FramedStep(text, consumed, buffer, '\n');
  }

  /** The first part of the inner loop's body for the line after `consumed`:
      strip it, skip it when blank or when not recording, parse it and check
      its type and mandatory keys. */
  method Decide(line: string, recording: bool, ghost consumed: seq<string>, ghost ds: seq<Draft>)
    returns (d: Option<Draft>)
    requires ds == Drafts(consumed, recording)
    ensures d == Screen(line, recording)
    ensures Drafts(consumed + [line], recording) == ds + Listed(d)
  {
    assert (consumed + [line])[..|consumed|] == consumed;
    var stripped := Strip(line);
    if stripped == [] || !recording {
      return None;
    }
    var kv := ParseNoesisKv(stripped);
    if kv.None? {
      return None;
    }
    d := Classify(kv.value);
  }

  // ---------------------------------------------------------------------
  // Lemmas

  lemma EmittedStep(ds: seq<Draft>, d: Draft, seq0: int, clock: Clock, runId: string)
    ensures Emitted(ds + [d], seq0, clock, runId) ==
      Emitted(ds, seq0, clock, runId) + [Stamp(d, seq0 + |ds| + 1, clock.tsUtc, runId)]
  {
    assert (ds + [d])[..|ds|] == ds;
  }

  lemma WriteAllPrefix(files: map<Path, string>, p: Path, es: seq<Json>, i: nat)
    requires i < |es|
    ensures WriteAll(files, p, es[..i + 1]) == AppendLine(WriteAll(files, p, es[..i]), p, Dumps(es[i]))
  {
    assert es[..i + 1][..i] == es[..i];
  }

  /** The drafts of concatenated lines are the drafts of each part. */
  lemma {:induction false} DraftsAppend(a: seq<string>, b: seq<string>, recording: bool)
    ensures Drafts(a + b, recording) == Drafts(a, recording) + Drafts(b, recording)
    decreases |b|
  {
    if b == [] {
      assert a + b == a;
    } else {
      var init, last := b[..|b| - 1], b[|b| - 1];
      var ab := a + b;
      InitLast(a, b);
      DraftsSnoc(ab, recording);
      assert Drafts(ab, recording) == Drafts(a + init, recording) + Drafts([last], recording);
      DraftsAppend(a, init, recording);
      DraftsSnoc(b, recording);
      assert Drafts(b, recording) == Drafts(init, recording) + Drafts([last], recording);
      AppendAssoc(Drafts(a, recording), Drafts(init, recording), Drafts([last], recording));
    }
  }

  /** The last line's drafts follow those of the lines before it. */
  lemma DraftsSnoc(lines: seq<string>, recording: bool)
    requires lines != []
    ensures Drafts(lines, recording) == Drafts(lines[..|lines| - 1], recording) + Drafts([lines[|lines| - 1]], recording)
  {
    DraftsOne(lines[|lines| - 1], recording);
  }

  lemma DraftsOne(line: string, recording: bool)
    ensures Drafts([line], recording) == Listed(Screen(line, recording))
  {
    assert [line][..0] == [] && [line][0] == line;
    assert [] + Listed(Screen(line, recording)) == Listed(Screen(line, recording));
  }

  /** In dry-run mode no line yields a draft, so nothing is ever written. */
  lemma {:induction false} DryRunDraftsNothing(lines: seq<string>)
    ensures Drafts(lines, false) == []
  {
    if lines != [] {
      DryRunDraftsNothing(lines[..|lines| - 1]);
    }
  }

  /** The `i`-th event of a chunk is the `i`-th draft numbered `seq0 + i + 1`:
      numbers are consecutive and follow the order of the lines. */
  lemma {:induction false} EmittedIndex(ds: seq<Draft>, seq0: int, clock: Clock, runId: string, i: nat)
    requires i < |ds|
    ensures Emitted(ds, seq0, clock, runId)[i] == Stamp(ds[i], seq0 + i + 1, clock.tsUtc, runId)
  {
    if i < |ds| - 1 {
      EmittedIndex(ds[..|ds| - 1], seq0, clock, runId, i);
    }
  }

  /** How the socket cuts the text into chunks does not matter: receiving
      `c1` and then `c2` frames the same lines, in the same order, as receiving
      `c1 + c2` at once, and leaves the same partial line buffered. */
  lemma ChunkingIrrelevant(buffer: string, c1: string, c2: string, recording: bool)
    ensures Drafts(Complete(Received(buffer, c1 + c2), '\n'), recording) ==
      Drafts(Complete(Received(buffer, c1), '\n'), recording) +
      Drafts(Complete(Received(Rest(Received(buffer, c1), '\n'), c2), '\n'), recording)
    ensures Rest(Received(buffer, c1 + c2), '\n') == Rest(Received(Rest(Received(buffer, c1), '\n'), c2), '\n')
  {
    ReceivedConcat(buffer, c1, c2);
    DraftsConcat(Received(buffer, c1), ReplaceChar(c2, '\r', '\n'), recording);
  }

  lemma ReceivedConcat(buffer: string, c1: string, c2: string)
    ensures Received(buffer, c1 + c2) == Received(buffer, c1) + ReplaceChar(c2, '\r', '\n')
  {
    ReplaceCharConcat(c1, c2, '\r', '\n');
    AppendAssoc(buffer, ReplaceChar(c1, '\r', '\n'), ReplaceChar(c2, '\r', '\n'));
  }

  /** The drafts of a text cut in two. */
  lemma DraftsConcat(s: string, t: string, recording: bool)
    ensures Drafts(Complete(s + t, '\n'), recording) ==
      Drafts(Complete(s, '\n'), recording) + Drafts(Complete(Rest(s, '\n') + t, '\n'), recording)
    ensures Rest(s + t, '\n') == Rest(Rest(s, '\n') + t, '\n')
  {
    CompleteConcat(s, t, '\n');
    DraftsAppend(Complete(s, '\n'), Complete(Rest(s, '\n') + t, '\n'), recording);
  }

  /** What a reader of the events file finds in an event: its number, its
      type, who acted where, the raw text, and a verb exactly when the SAY
      carried a non-empty one. */
  lemma StampFields(d: Draft, seqNo: int, tsUtc: string, runId: string)
    ensures Lookup(Stamp(d, seqNo, tsUtc, runId), ["seq"]) == Some(JInt(seqNo))
    ensures Lookup(Stamp(d, seqNo, tsUtc, runId), ["type"]) == Some(JStr(if d.Say? then "SAY" else "MOVE"))
    ensures Lookup(Stamp(d, seqNo, tsUtc, runId), ["actor", "dbref"]) == Some(JStr(d.actor))
    ensures Lookup(Stamp(d, seqNo, tsUtc, runId), ["location", "dbref"]) == Some(JStr(if d.Say? then d.loc else d.to))
    ensures Lookup(Stamp(d, seqNo, tsUtc, runId), ["content", "raw"]) == Some(JStr(d.raw))
    ensures Lookup(Stamp(d, seqNo, tsUtc, runId), ["content", "verb"]).Some? <==> d.Say? && d.verb != ""
  {
    StampSeq(d, seqNo, tsUtc, runId);
    StampType(d, seqNo, tsUtc, runId);
    StampActor(d, seqNo, tsUtc, runId);
    StampLocation(d, seqNo, tsUtc, runId);
    StampContent(d, seqNo, tsUtc, runId);
  }

  lemma StampSeq(d: Draft, seqNo: int, tsUtc: string, runId: string)
    ensures SeqOf(Stamp(d, seqNo, tsUtc, runId)) == Some(JInt(seqNo))
  {
    var ms := Stamp(d, seqNo, tsUtc, runId).members;
    assert ["seq"] == [ms[2].key] + [];
    LookupMember(ms, 2, []);
  }

  lemma StampType(d: Draft, seqNo: int, tsUtc: string, runId: string)
    ensures Lookup(Stamp(d, seqNo, tsUtc, runId), ["type"]) == Some(JStr(if d.Say? then "SAY" else "MOVE"))
  {
    var ms := Stamp(d, seqNo, tsUtc, runId).members;
    assert ["type"] == [ms[3].key] + [];
    LookupMember(ms, 3, []);
  }

  lemma StampActor(d: Draft, seqNo: int, tsUtc: string, runId: string)
    ensures Lookup(Stamp(d, seqNo, tsUtc, runId), ["actor", "dbref"]) == Some(JStr(d.actor))
  {
    var ms := Stamp(d, seqNo, tsUtc, runId).members;
    assert ["actor", "dbref"] == [ms[4].key] + ["dbref"];
    LookupMember(ms, 4, ["dbref"]);
    LookupRef(d.actor);
  }

  lemma StampLocation(d: Draft, seqNo: int, tsUtc: string, runId: string)
    ensures Lookup(Stamp(d, seqNo, tsUtc, runId), ["location", "dbref"]) == Some(JStr(if d.Say? then d.loc else d.to))
  {
    var ms := Stamp(d, seqNo, tsUtc, runId).members;
    assert ["location", "dbref"] == [ms[5].key] + ["dbref"];
    LookupMember(ms, 5, ["dbref"]);
    LookupRef(if d.Say? then d.loc else d.to);
  }

  lemma StampContent(d: Draft, seqNo: int, tsUtc: string, runId: string)
    ensures Lookup(Stamp(d, seqNo, tsUtc, runId), ["content", "raw"]) == Some(JStr(d.raw))
    ensures Lookup(Stamp(d, seqNo, tsUtc, runId), ["content", "verb"]).Some? <==> d.Say? && d.verb != ""
  {
    var ms := Stamp(d, seqNo, tsUtc, runId).members;
    assert ["content", "raw"] == [ms[6].key] + ["raw"];
    LookupMember(ms, 6, ["raw"]);
    assert ["content", "verb"] == [ms[6].key] + ["verb"];
    LookupMember(ms, 6, ["verb"]);
    ContentFields(d, ms[6].value);
  }

  lemma LookupRef(id: string)
    ensures Lookup(Ref(id), ["dbref"]) == Some(JStr(id))
  {
    var ms := Ref(id).members;
    assert ["dbref"] == [ms[0].key] + [];
    LookupMember(ms, 0, []);
  }

  lemma ContentFields(d: Draft, c: Json)
    requires c == Stamp(d, 0, "", "").members[6].value
    ensures Lookup(c, ["raw"]) == Some(JStr(d.raw))
    ensures Lookup(c, ["verb"]).Some? <==> d.Say? && d.verb != ""
  {
    var cm := c.members;
    if d.Say? {
      assert ["raw"] == [cm[0].key] + [];
      LookupMember(cm, 0, []);
      if d.verb != "" {
        assert ["verb"] == [cm[1].key] + [];
        LookupMember(cm, 1, []);
      } else {
        assert forall j | 0 <= j < |cm| :: cm[j].key != "verb";
      }
    } else {
      assert ["raw"] == [cm[2].key] + [];
      LookupMember(cm, 2, []);
      assert forall j | 0 <= j < |cm| :: cm[j].key != "verb";
    }
  }

  /** The failure phrase anywhere in the response fails the login. */
  lemma LoginFailsOnPhrase(before: string, phrase: string, after: string)
    requires phrase == "Either that player does not exist"
    ensures LoginFailed(before + phrase + after)
  {
    var s := before + phrase + after;
    assert s[|before|..|before| + |phrase|] == phrase;
    assert OccursAt(s, phrase, |before|);
  }

  /** What the game-side producer writes for a SAY is recorded as that SAY:
      a marker line `NOESIS: t=SAY|actor=..|loc=..|raw=..` passes the screen
      when recording, with no verb. */
  lemma SayLineScreened(pairs: seq<(string, string)>, actor: string, loc: string, raw: string)
    requires pairs == [("t", "SAY"), ("actor", actor), ("loc", loc), ("raw", raw)]
    requires actor != [] && loc != [] && Writable(pairs)
    ensures Screen(FormatLine(pairs), true) == Some(Say(actor, loc, raw, ""))
  {
    var line := FormatLine(pairs);
    FormatLineStripped(pairs);
    FourPairsParsed(pairs);
    var kv := map["t" := "SAY", "actor" := actor, "loc" := loc, "raw" := raw];
    assert Strip(line) != [];
    assert Screen(line, true) == Classify(kv);
    SayClassified(kv, actor, loc, raw);
  }

  lemma SayClassified(kv: map<string, string>, actor: string, loc: string, raw: string)
    requires kv == map["t" := "SAY", "actor" := actor, "loc" := loc, "raw" := raw]
    requires actor != [] && loc != []
    ensures Classify(kv) == Some(Say(actor, loc, raw, ""))
  {
    assert "verb" !in kv;
  }

  /** Likewise for a MOVE without `raw`, which then defaults to empty. */
  lemma MoveLineScreened(pairs: seq<(string, string)>, actor: string, from: string, to: string)
    requires pairs == [("t", "MOVE"), ("actor", actor), ("from", from), ("to", to)]
    requires actor != [] && from != [] && to != [] && Writable(pairs)
    ensures Screen(FormatLine(pairs), true) == Some(Move(actor, from, to, ""))
  {
    var line := FormatLine(pairs);
    FormatLineStripped(pairs);
    FourPairsParsed(pairs);
    var kv := map["t" := "MOVE", "actor" := actor, "from" := from, "to" := to];
    assert Strip(line) != [];
    assert Screen(line, true) == Classify(kv);
    MoveClassified(kv, actor, from, to);
  }

  lemma MoveClassified(kv: map<string, string>, actor: string, from: string, to: string)
    requires kv == map["t" := "MOVE", "actor" := actor, "from" := from, "to" := to]
    requires actor != [] && from != [] && to != []
    ensures Classify(kv) == Some(Move(actor, from, to, ""))
  {
    assert "raw" !in kv;
  }

  /** A line of four writable pairs parses to the dictionary of the four,
      later keys winning. */
  lemma FourPairsParsed(pairs: seq<(string, string)>)
    requires |pairs| == 4 && Writable(pairs)
    ensures ParseKv(FormatLine(pairs)) ==
      Some(map[pairs[0].0 := pairs[0].1, pairs[1].0 := pairs[1].1, pairs[2].0 := pairs[2].1, pairs[3].0 := pairs[3].1])
  {
    FormatRoundTrip(pairs);
    PairsFour(pairs);
    CollectFour([Some(pairs[0]), Some(pairs[1]), Some(pairs[2]), Some(pairs[3])], pairs[0], pairs[1], pairs[2], pairs[3]);
  }

  lemma PairsFour(pairs: seq<(string, string)>)
    requires |pairs| == 4
    ensures Pairs(pairs) == [Some(pairs[0]), Some(pairs[1]), Some(pairs[2]), Some(pairs[3])]
  {
  }

  lemma CollectFour(ps: seq<Option<(string, string)>>, a: (string, string), b: (string, string), c: (string, string), d: (string, string))
    requires ps == [Some(a), Some(b), Some(c), Some(d)]
    ensures Collect(ps) == map[a.0 := a.1, b.0 := b.1, c.0 := c.1, d.0 := d.1]
  {
    assert Collect([Some(a)]) == map[a.0 := a.1] by {
      assert [Some(a)][..0] == [];
    }
    assert Collect([Some(a), Some(b)]) == map[a.0 := a.1, b.0 := b.1] by {
      assert [Some(a), Some(b)][..1] == [Some(a)];
    }
    assert Collect([Some(a), Some(b), Some(c)]) == map[a.0 := a.1, b.0 := b.1, c.0 := c.1] by {
      assert [Some(a), Some(b), Some(c)][..2] == [Some(a), Some(b)];
    }
    assert ps[..3] == [Some(a), Some(b), Some(c)];
  }

  /** A formatted marker line has no surrounding blanks. */
  lemma FormatLineStripped(pairs: seq<(string, string)>)
    requires Writable(pairs)
    ensures Strip(FormatLine(pairs)) == FormatLine(pairs)
  {
    var texts := seq(|pairs|, i requires 0 <= i < |pairs| => FieldText(pairs[i]));
    BodyShape(pairs, texts);
    var line := FormatLine(pairs);
    var body := Join(texts, '|');
    assert line == "NOESIS: " + body;
    assert line[|line| - 1] == body[|body| - 1];
    StripStable(line);
  }

  /** Appending a chunk's events keeps the log numbered without a gap. */
  lemma LogExtended(log: seq<Json>, ds: seq<Draft>, clock: Clock, runId: string)
    requires Numbered(log)
    ensures Numbered(log + Emitted(ds, |log|, clock, runId))
  {
    var es := Emitted(ds, |log|, clock, runId);
    var all := log + es;
    forall i | 0 <= i < |all| ensures SeqOf(all[i]) == Some(JInt(i + 1)) {
      if i < |log| {
        assert all[i] == log[i];
      } else {
        var k := i - |log|;
        assert all[i] == es[k];
        EmittedSeq(ds, |log|, clock, runId, k);
      }
    }
  }

  /** The `k`-th event of a chunk carries number `seq0 + k + 1`. */
  lemma EmittedSeq(ds: seq<Draft>, seq0: int, clock: Clock, runId: string, k: nat)
    requires k < |ds|
    ensures SeqOf(Emitted(ds, seq0, clock, runId)[k]) == Some(JInt(seq0 + k + 1))
  {
    EmittedIndex(ds, seq0, clock, runId, k);
    StampSeqOf(Emitted(ds, seq0, clock, runId)[k], ds[k], seq0 + k + 1, clock.tsUtc, runId);
  }

  lemma StampSeqOf(e: Json, d: Draft, seqNo: int, tsUtc: string, runId: string)
    requires e == Stamp(d, seqNo, tsUtc, runId)
    ensures SeqOf(e) == Some(JInt(seqNo))
  {
    StampSeq(d, seqNo, tsUtc, runId);
  }
}
