/** The bridge's append-only event store: one JSON Lines file per UTC day under
    `<out>/events/YYYY/YYYY-MM/events-YYYY-MM-DD.jsonl`, written through one
    open handle that is rotated when the day changes. The file system is a
    value held by a `FileSystem` object: the text of every file by path, and the
    set of directories. A path is the sequence of its components. */
module Writer {
  import opened Text
  import opened Json

  type Path = seq<string>

  /** `s[:n]` in Python: the first `n` characters, or all of a shorter string. */
  function Prefix(s: string, n: nat): (r: string)
    ensures |r| == Min(n, |s|) && r == s[..|r|]
  {
    s[..Min(n, |s|)]
  }

  /** The directory of a day's file: `<out>/events/<day[:4]>/<day[:7]>`. */
  function EventsDir(outDir: Path, day: string): (p: Path)
  {
    outDir + ["events", Prefix(day, 4), Prefix(day, 7)]
  }

  /** The name of a day's file. */
  function FileName(day: string): (n: string)
  {
    "events-" + day + ".jsonl"
  }

  /** `events_path(out_dir, day)` without its directory creation. */
  function EventsPath(outDir: Path, day: string): (p: Path)
  {
    EventsDir(outDir, day) + [FileName(day)]
  }

  /** The layout: the output directory, `events`, the year, the month and the
      day's file name `events-<day>.jsonl`. */
  lemma EventsPathLayout(outDir: Path, day: string)
    ensures |EventsPath(outDir, day)| == |outDir| + 4
    ensures EventsPath(outDir, day)[..|outDir| + 3] == EventsDir(outDir, day)
    ensures EventsDir(outDir, day)[..|outDir|] == outDir && EventsDir(outDir, day)[|outDir|] == "events"
    ensures EventsPath(outDir, day)[|outDir| + 1] == Prefix(day, 4)
    ensures EventsPath(outDir, day)[|outDir| + 2] == Prefix(day, 7)
    ensures EventsPath(outDir, day)[|outDir| + 3] == FileName(day)
    ensures |FileName(day)| == |day| + 13
    ensures FileName(day)[..7] == "events-" && FileName(day)[7..|day| + 7] == day
    ensures FileName(day)[|day| + 7..] == ".jsonl"
  {
    var d := EventsDir(outDir, day);
    assert d[..|outDir|] == outDir;
    assert EventsPath(outDir, day)[..|outDir| + 3] == d;
  }

  /** What `utc_day()` produces: `YYYY-MM-DD` in ASCII digits. */
  predicate IsDay(day: string)
  {
    |day| == 10 && day[4] == '-' && day[7] == '-'
    && forall i | 0 <= i < 10 && i != 4 && i != 7 :: '0' <= day[i] <= '9'
  }

  /** A component `pathlib` keeps as it is: not empty and without a slash. */
  predicate PlainComponent(c: string)
  {
    c != [] && '/' !in c
  }

  /** For a real day the path is the four literal components the docstring
      describes: year, year-month and the file name, none of which `pathlib`
      would drop or split. */
  lemma EventsPathShape(outDir: Path, day: string)
    requires IsDay(day)
    ensures EventsPath(outDir, day)[|outDir| + 1] == day[..4]
    ensures EventsPath(outDir, day)[|outDir| + 2] == day[..7]
    ensures forall i | |outDir| <= i < |outDir| + 4 :: PlainComponent(EventsPath(outDir, day)[i])
  {
    var p := EventsPath(outDir, day);
    var n := |outDir|;
    assert p[n + 1] == day[..4];
    assert p[n + 2] == day[..7];
    assert '/' !in day by {
      forall i | 0 <= i < 10 ensures day[i] != '/' { }
    }
    assert '/' !in day[..4] by {
      forall i | 0 <= i < 4 ensures day[..4][i] != '/' { assert day[..4][i] == day[i]; }
    }
    assert '/' !in day[..7] by {
      forall i | 0 <= i < 7 ensures day[..7][i] != '/' { assert day[..7][i] == day[i]; }
    }
    assert '/' !in FileName(day) by {
      var f := FileName(day);
      forall i | 0 <= i < |f| ensures f[i] != '/' {
        if 7 <= i < 17 { assert f[i] == f[7..17][i - 7] == day[i - 7]; }
        else if i < 7 { assert f[i] == "events-"[i]; }
        else { assert f[i] == f[17..][i - 17] == ".jsonl"[i - 17]; }
      }
    }
  }

  /** Different days never share a file. */
  lemma EventsPathInjective(outDir: Path, d1: string, d2: string)
    requires EventsPath(outDir, d1) == EventsPath(outDir, d2)
    ensures d1 == d2
  {
    var n := |outDir| + 3;
    EventsPathLayout(outDir, d1);
    EventsPathLayout(outDir, d2);
    assert FileName(d1) == EventsPath(outDir, d1)[n] == EventsPath(outDir, d2)[n] == FileName(d2);
    assert d1 == FileName(d1)[7..|d1| + 7];
  }

  /** Two real days share a directory exactly when they fall in the same month. */
  lemma SameDirectoryIffSameMonth(outDir: Path, d1: string, d2: string)
    requires IsDay(d1) && IsDay(d2)
    ensures EventsDir(outDir, d1) == EventsDir(outDir, d2) <==> d1[..7] == d2[..7]
  {
    if d1[..7] == d2[..7] {
      assert d1[..4] == d1[..7][..4] == d2[..7][..4] == d2[..4];
    } else {
      assert EventsDir(outDir, d1)[|outDir| + 2] != EventsDir(outDir, d2)[|outDir| + 2];
    }
  }

  /** The text of a file, the empty text for a file that does not exist. */
  function TextOf(files: map<Path, string>, p: Path): string
  {
    if p in files then files[p] else ""
  }

  /** `open(p, "a")`: creates `p` empty when it does not exist, keeps it otherwise. */
  function Touch(files: map<Path, string>, p: Path): (r: map<Path, string>)
  {
    if p in files then files else files[p := ""]
  }

  /** Writing `line` and a newline to the end of file `p`, creating it if needed. */
  function AppendLine(files: map<Path, string>, p: Path, line: string): (r: map<Path, string>)
  {
    files[p := TextOf(files, p) + line + "\n"]
  }

  /** Opening creates the file if needed and changes no text. */
  lemma TouchFrame(files: map<Path, string>, p: Path)
    ensures Touch(files, p).Keys == files.Keys + {p}
    ensures forall q | q in files :: Touch(files, p)[q] == files[q]
    ensures TextOf(Touch(files, p), p) == TextOf(files, p)
  {
  }

  /** Appending a line creates the file if needed, extends its text by the line
      and a newline, and leaves every other file as it was. */
  lemma AppendLineFrame(files: map<Path, string>, p: Path, line: string)
    ensures AppendLine(files, p, line).Keys == files.Keys + {p}
    ensures forall q | q in files && q != p :: AppendLine(files, p, line)[q] == files[q]
    ensures TextOf(AppendLine(files, p, line), p) == TextOf(files, p) + line + "\n"
  {
  }

  /** `mkdir(parents=True, exist_ok=True)`: `p` and all its ancestors exist afterwards. */
  function MakeDirs(dirs: set<Path>, p: Path): (r: set<Path>)
  {
    dirs + set k | 1 <= k <= |p| :: p[..k]
  }

  /** Afterwards `p` and each of its ancestors exist; nothing else is created and
      nothing removed. */
  lemma MakeDirsSpec(dirs: set<Path>, p: Path)
    ensures dirs <= MakeDirs(dirs, p)
    ensures forall k | 1 <= k <= |p| :: p[..k] in MakeDirs(dirs, p)
    ensures forall q | q in MakeDirs(dirs, p) && q !in dirs :: 1 <= |q| <= |p| && q == p[..|q|]
  {
  }

  /** The records of a JSON Lines text: its newline-terminated lines. */
  function Records(text: string): seq<string>
  {
    Complete(text, '\n')
  }

  /** Appending a line to a file never changes what was there: the old text is a
      prefix of the new one. */
  lemma AppendOnly(files: map<Path, string>, p: Path, line: string)
    ensures TextOf(files, p) <= TextOf(AppendLine(files, p, line), p)
  {
    var t := TextOf(files, p);
    assert TextOf(AppendLine(files, p, line), p) == t + (line + "\n");
  }

  /** A line without a newline becomes one record: the last one of the file,
      joined to whatever unterminated text the file ended with. */
  lemma AppendRecord(text: string, line: string)
    requires '\n' !in line
    ensures Records(text + line + "\n") == Records(text) + [Rest(text, '\n') + line]
  {
    var c, r := Complete(text, '\n'), Rest(text, '\n');
    FrameSplit(text, '\n');
    var last := r + line;
    assert '\n' !in last by {
      forall i | 0 <= i < |last| ensures last[i] != '\n' {
        if i < |r| { assert last[i] == r[i]; } else { assert last[i] == line[i - |r|]; }
      }
    }
    assert Terminated([last], '\n') == last + "\n";
    assert text + line + "\n" == Terminated(c, '\n') + Terminated([last], '\n');
    CompleteAfterLines(c, Terminated([last], '\n'), '\n');
    CompleteTerminated([last], '\n');
  }

  /** On a text that ends on a line boundary, a line without a newline becomes
      exactly one more record, and the text again ends on a boundary. */
  lemma AppendAtBoundary(text: string, line: string)
    requires '\n' !in line && Rest(text, '\n') == []
    ensures Records(text + line + "\n") == Records(text) + [line]
    ensures Rest(text + line + "\n", '\n') == []
  {
    var c := Complete(text, '\n');
    FrameSplit(text, '\n');
    TerminatedAppend(c, [line], '\n');
    assert Terminated([line], '\n') == line + "\n";
    assert text + line + "\n" == Terminated(c + [line], '\n');
    CompleteTerminated(c + [line], '\n');
  }

  /** Writing one serialised event to a file whose text ends on a line
      boundary adds exactly that event as its last record. */
  lemma WriteAddsRecord(files: map<Path, string>, p: Path, event: Json)
    requires Rest(TextOf(files, p), '\n') == []
    ensures Records(TextOf(AppendLine(files, p, Dumps(event)), p)) == Records(TextOf(files, p)) + [Dumps(event)]
    ensures Rest(TextOf(AppendLine(files, p, Dumps(event)), p), '\n') == []
  {
    DumpsOneLine(event);
    AppendAtBoundary(TextOf(files, p), Dumps(event));
  }

  /** A day's events written one after another to file `p`. */
  function WriteAll(files: map<Path, string>, p: Path, events: seq<Json>): map<Path, string>
  {
    if events == [] then files
    else AppendLine(WriteAll(files, p, events[..|events| - 1]), p, Dumps(events[|events| - 1]))
  }

  /** The serialised events, in order. */
  function DumpsEach(events: seq<Json>): (lines: seq<string>)
    ensures |lines| == |events|
  {
    if events == [] then [] else DumpsEach(events[..|events| - 1]) + [Dumps(events[|events| - 1])]
  }

  /** Events written to a file that ends on a line boundary read back as its
      trailing records, one per event and in the order written (the smoke test's
      three events on one day). */
  lemma {:induction false} WriteAllRecords(files: map<Path, string>, p: Path, events: seq<Json>)
    requires Rest(TextOf(files, p), '\n') == []
    ensures Records(TextOf(WriteAll(files, p, events), p)) == Records(TextOf(files, p)) + DumpsEach(events)
    ensures Rest(TextOf(WriteAll(files, p, events), p), '\n') == []
  {
    if events != [] {
      var init := events[..|events| - 1];
      WriteAllRecords(files, p, init);
      WriteAddsRecord(WriteAll(files, p, init), p, events[|events| - 1]);
      AppendAssoc(Records(TextOf(files, p)), DumpsEach(init), [Dumps(events[|events| - 1])]);
    }
  }

  /** A fresh file holds exactly the events written to it. */
  lemma FreshFileRecords(files: map<Path, string>, p: Path, events: seq<Json>)
    requires p !in files
    ensures Records(TextOf(WriteAll(files, p, events), p)) == DumpsEach(events)
  {
    assert TextOf(files, p) == "";
    assert Records("") == [] && Rest("", '\n') == "" by { CompleteNone("", '\n'); }
    WriteAllRecords(files, p, events);
    assert [] + DumpsEach(events) == DumpsEach(events);
  }

  /** Opening a file for appending before writing to it changes nothing about
      the write. */
  lemma TouchThenAppend(files: map<Path, string>, p: Path, line: string)
    ensures AppendLine(Touch(files, p), p, line) == AppendLine(files, p, line)
  {
    assert TextOf(Touch(files, p), p) == TextOf(files, p);
  }

  /** The directories and files the writer works on. */
  class FileSystem {
    var files: map<Path, string>
    var dirs: set<Path>

    constructor (files: map<Path, string>, dirs: set<Path>)
      ensures this.files == files && this.dirs == dirs
    {
      this.files := files;
      this.dirs := dirs;
    }
  }

  /** `EventWriter`: the day and path of the open file, and the handle itself,
      here the path it appends to. */
  class EventWriter {
    const outDir: Path
    const fs: FileSystem
    var currentDay: Option<string>
    var fh: Option<Path>
    var currentPath: Option<Path>

    /** Either nothing is open, or the handle is open on the current day's file,
        which exists. */
    ghost predicate Valid()
      reads this, fs
    {
      (fh.None? ==> currentDay.None? && currentPath.None?)
      && (fh.Some? ==>
            currentDay.Some? && currentPath == fh
            && fh.value == EventsPath(outDir, currentDay.value)
            && fh.value in fs.files)
    }

    constructor (outDir: Path, fs: FileSystem)
      ensures Valid() && this.outDir == outDir && this.fs == fs
      ensures currentDay.None? && fh.None? && currentPath.None?
    {
      this.outDir := outDir;
      this.fs := fs;
      currentDay := None;
      fh := None;
      currentPath := None;
    }

    /** `_ensure_open(day)`: keeps the handle when it is open on `day`; otherwise
        closes it, creates the day's directory and opens its file for appending. */
    method EnsureOpen(day: string)
      requires Valid()
      modifies this, fs
      ensures Valid()
      ensures currentDay == Some(day) && fh == Some(EventsPath(outDir, day))
      ensures old(fh.Some? && currentDay == Some(day)) ==>
        fs.files == old(fs.files) && fs.dirs == old(fs.dirs)
      ensures !old(fh.Some? && currentDay == Some(day)) ==>
        fs.files == Touch(old(fs.files), EventsPath(outDir, day))
        && fs.dirs == MakeDirs(old(fs.dirs), EventsDir(outDir, day))
    {
      if fh.Some? && currentDay == Some(day) {
        return;
      }
      Close();
      var path := EventsPath(outDir, day);
      fs.dirs := MakeDirs(fs.dirs, EventsDir(outDir, day));
      fs.files := Touch(fs.files, path);
      fh := Some(path);
      currentDay := Some(day);
      currentPath := Some(path);
    }

    /** `write_event(event)` on UTC day `day`: appends the event's JSON text and
        a newline to that day's file and returns its path. No other file changes. */
    method WriteEvent(event: Json, day: string) returns (path: Path)
      requires Valid()
      modifies this, fs
      ensures Valid()
      ensures path == EventsPath(outDir, day)
      ensures currentDay == Some(day) && fh == Some(path)
      ensures fs.files == AppendLine(old(fs.files), path, Dumps(event))
      ensures old(fh.Some? && currentDay == Some(day)) ==> fs.dirs == old(fs.dirs)
      ensures !old(fh.Some? && currentDay == Some(day)) ==>
        fs.dirs == MakeDirs(old(fs.dirs), EventsDir(outDir, day))
    {
      ghost var before := fs.files;
      EnsureOpen(day);
      path := fh.value;
      TouchThenAppend(before, path, Dumps(event));
      fs.files := AppendLine(fs.files, path, Dumps(event));
    }

    /** `close()`: forgets the handle, day and path; harmless when nothing is open. */
    method Close()
      requires Valid()
      modifies this
      ensures Valid()
      ensures currentDay.None? && fh.None? && currentPath.None?
    {
      fh := None;
      currentDay := None;
      currentPath := None;
    }
  }

  /** The writer's state and the files it writes. */
  datatype Sink = Sink(files: map<Path, string>, dirs: set<Path>, currentDay: Option<string>, fh: Option<Path>, currentPath: Option<Path>)

  ghost function SinkOf(w: EventWriter): Sink
    reads w, w.fs
  {
    Sink(w.fs.files, w.fs.dirs, w.currentDay, w.fh, w.currentPath)
  }

  /** The writer, which stood at `s0`, has since written exactly `events` on `day`:
      unchanged when there are none, otherwise open on that day's file with its
      directories made. */
  ghost predicate WrittenOn(w: EventWriter, s0: Sink, day: string, events: seq<Json>)
    reads w, w.fs
  {
    w.Valid()
    && w.fs.files == WriteAll(s0.files, EventsPath(w.outDir, day), events)
    && (events == [] ==> SinkOf(w) == s0)
    && (events != [] ==>
          w.currentDay == Some(day) && w.fh == Some(EventsPath(w.outDir, day))
          && w.fs.dirs == (if s0.fh.Some? && s0.currentDay == Some(day) then s0.dirs
                           else MakeDirs(s0.dirs, EventsDir(w.outDir, day))))
  }
}
