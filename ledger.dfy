/**
 * The processing log both cleaners keep, line for line the same in each: an append-only
 * text file holding a header line and then one `filename|status|timestamp|output_file`
 * line per attempt. Reading it back gives a map from file name to its latest entry, and
 * that map decides whether an input file is cleaned again.
 */
module Ledger {
  import opened Optional
  import opened Strings
  import opened Cells

  const HeaderLine := "filename|status|timestamp|output_file"
  const SuccessStatus := "SUCCESS"
  const FailedStatus := "FAILED"
  const WorkbookExtension := ".xlsx"

  /** What the log says about one input file. `output` is `None` when its line has only three fields. */
  datatype Entry = Entry(status: string, timestamp: string, output: Option<string>)

  /** `f.readlines()`, each line without its terminating `\n`. */
  function ReadLines(content: string): seq<string> {
    if content == [] then []
    else
      var pieces := SplitOn(content, '\n');
      if pieces[|pieces| - 1] == [] then pieces[..|pieces| - 1] else pieces
  }

  /** One log line as `get_processed_files` reads it: `None` for a blank line or one with fewer than three fields. */
  function ParseLine(line: string): Option<(string, Entry)> {
    var l := Strip(line);
    if l == [] then None
    else
      var parts := SplitOn(l, '|');
      if |parts| < 3 then None
      else Some((parts[0], Entry(parts[1], parts[2], if |parts| > 3 then Some(parts[3]) else None)))
  }

  /** The lines of the log as `get_processed_files` reads them, one record per line. */
  function Records(lines: seq<string>): (recs: seq<Option<(string, Entry)>>)
    ensures |recs| == |lines|
  {
    if lines == [] then [] else Records(lines[..|lines| - 1]) + [ParseLine(lines[|lines| - 1])]
  }

  lemma RecordsSnoc(lines: seq<string>, line: string)
    ensures Records(lines + [line]) == Records(lines) + [ParseLine(line)]
  {
    assert (lines + [line])[..|lines|] == lines;
  }

  /** Reading one more line of the log: the dictionary takes that line's record into account. */
  lemma RecordsOfLongerPrefix(lines: seq<string>, i: nat)
    requires i < |lines|
    ensures Records(lines[..i + 1]) == Records(lines[..i]) + [ParseLine(lines[i])]
  {
    assert lines[..i + 1] == lines[..i] + [lines[i]];
    RecordsSnoc(lines[..i], lines[i]);
  }

  /** The dictionary filled from `recs` in order; each record overwrites its file's earlier entry. */
  function Collect(recs: seq<Option<(string, Entry)>>): map<string, Entry> {
    if recs == [] then map[]
    else
      var m := Collect(recs[..|recs| - 1]);
      match recs[|recs| - 1]
      case Some((name, e)) => m[name := e]
      case None => m
  }

  /** The file name a record is about. */
  predicate About(rec: Option<(string, Entry)>, name: string) {
    rec.Some? && rec.value.0 == name
  }

  /** Some record is about `name`. */
  ghost predicate Mentioned(recs: seq<Option<(string, Entry)>>, name: string) {
    exists i :: 0 <= i < |recs| && About(recs[i], name)
  }

  /** Some record gives `name` the entry `e`, and no later record is about `name`. */
  ghost predicate LastSays(recs: seq<Option<(string, Entry)>>, name: string, e: Entry) {
    exists i :: 0 <= i < |recs| && recs[i] == Some((name, e))
                && forall j :: i < j < |recs| ==> !About(recs[j], name)
  }

  /** A file name is in the dictionary exactly when some record is about it. */
  lemma {:induction false} CollectedIffMentioned(recs: seq<Option<(string, Entry)>>, name: string)
    ensures name in Collect(recs) <==> Mentioned(recs, name)
  {
    if recs != [] {
      var init := recs[..|recs| - 1];
      CollectedIffMentioned(init, name);
      assert forall i :: 0 <= i < |init| ==> init[i] == recs[i];
      if About(recs[|recs| - 1], name) {
        assert Mentioned(recs, name);
      }
    }
  }

  /** The entry the dictionary holds for a file is the one of the LAST record about it. */
  lemma {:induction false} LastRecordWins(recs: seq<Option<(string, Entry)>>, name: string)
    requires name in Collect(recs)
    ensures LastSays(recs, name, Collect(recs)[name])
  {
    var init := recs[..|recs| - 1];
    var last := |recs| - 1;
    if About(recs[last], name) {
      assert recs[last] == Some((name, Collect(recs)[name]));
    } else {
      assert Collect(recs)[name] == Collect(init)[name];
      LastRecordWins(init, name);
      var i :| 0 <= i < |init| && init[i] == Some((name, Collect(init)[name]))
               && forall j :: i < j < |init| ==> !About(init[j], name);
      assert recs[i] == init[i];
      assert forall j :: i < j < |recs| ==> !About(recs[j], name) by {
        assert forall j :: i < j < |init| ==> recs[j] == init[j];
      }
    }
  }

  /** `get_processed_files()`: every line but the first, which is the header, is parsed. */
  function ProcessedFiles(content: string): map<string, Entry> {
    var lines := ReadLines(content);
    if lines == [] then map[] else Collect(Records(lines[1..]))
  }

  /** The line `log_processing` appends (without its `\n`); `stamp` is the clock reading in seconds. */
  function FormatLine(filename: string, status: string, stamp: int, output: Option<string>): string {
    filename + "|" + status + "|" + IntToString(stamp) + "|" + output.GetOr("")
  }

  /** A field that can be written into a log line and read back unchanged. */
  predicate Loggable(field: string) {
    '|' !in field && '\n' !in field
  }

  lemma IntToStringHasNoBar(i: int)
    ensures Loggable(IntToString(i))
    ensures IntToString(i) != [] && !IsSpace(IntToString(i)[0])
  {
    var d := NatToString(if i < 0 then -i else i);
    assert forall k :: 0 <= k < |d| ==> IsDigit(d[k]);
    assert i < 0 ==> IntToString(i) == "-" + d;
  }

  lemma SplitFirstField(a: string, rest: string)
    requires '|' !in a
    ensures SplitOn(a + "|" + rest, '|') == [a] + SplitOn(rest, '|')
  {
    SplitWithoutSeparator(a, '|');
    SplitAround(a, rest, '|');
  }

  lemma SplitFourFields(a: string, b: string, c: string, d: string)
    requires '|' !in a && '|' !in b && '|' !in c && '|' !in d
    ensures SplitOn(a + "|" + b + "|" + c + "|" + d, '|') == [a, b, c, d]
  {
    SplitWithoutSeparator(d, '|');
    SplitFirstField(c, d);
    SplitFirstField(b, c + "|" + d);
    SplitFirstField(a, b + "|" + (c + "|" + d));
    assert a + "|" + b + "|" + c + "|" + d == a + "|" + (b + "|" + (c + "|" + d));
  }

  lemma FormatLineEnds(filename: string, status: string, stamp: int, output: Option<string>)
    ensures var line := FormatLine(filename, status, stamp, output);
      line != [] && line[0] == (if filename == [] then '|' else filename[0])
    ensures var line := FormatLine(filename, status, stamp, output); var o := output.GetOr("");
      line != [] && line[|line| - 1] == (if o == [] then '|' else o[|o| - 1])
  {
    var o := output.GetOr("");
    var rest := status + "|" + IntToString(stamp) + "|";
    assert FormatLine(filename, status, stamp, output) == filename + ("|" + rest) + o;
  }

  lemma LineIsStripped(filename: string, status: string, stamp: int, output: Option<string>)
    requires filename == [] || !IsSpace(filename[0])
    requires output.GetOr("") == [] || !IsSpace(output.GetOr("")[|output.GetOr("")| - 1])
    ensures Strip(FormatLine(filename, status, stamp, output)) == FormatLine(filename, status, stamp, output)
  {
    FormatLineEnds(filename, status, stamp, output);
  }

  /** A line written by `log_processing` with clean fields reads back as exactly what was written. */
  lemma FormattedLineParses(filename: string, status: string, stamp: int, output: Option<string>)
    requires Loggable(filename) && Loggable(status) && Loggable(output.GetOr(""))
    requires filename == [] || !IsSpace(filename[0])
    requires output.GetOr("") == [] || !IsSpace(output.GetOr("")[|output.GetOr("")| - 1])
    ensures ParseLine(FormatLine(filename, status, stamp, output))
         == Some((filename, Entry(status, IntToString(stamp), Some(output.GetOr("")))))
  {
    IntToStringHasNoBar(stamp);
    LineIsStripped(filename, status, stamp, output);
    SplitFourFields(filename, status, IntToString(stamp), output.GetOr(""));
  }

  /** Text ending in a newline reads as the pieces before that newline. */
  lemma ReadLinesOfTerminated(a: string)
    ensures ReadLines(a + ['\n']) == SplitOn(a, '\n')
  {
    SplitAround(a, [], '\n');
    assert a + ['\n'] + [] == a + ['\n'];
    var pieces := SplitOn(a, '\n') + [""];
    assert pieces[..|pieces| - 1] == SplitOn(a, '\n');
  }

  /** Appending a line and its `\n` to a log that ends a line adds exactly that line. */
  lemma ReadLinesAfterAppend(content: string, line: string)
    requires '\n' !in line
    requires content == [] || content[|content| - 1] == '\n'
    ensures ReadLines(content + line + "\n") == ReadLines(content) + [line]
  {
    var c := content + line;
    ReadLinesOfTerminated(c);
    assert content + line + "\n" == c + ['\n'];
    SplitWithoutSeparator(line, '\n');
    if content == [] {
      assert c == line;
    } else {
      var b := content[..|content| - 1];
      assert content == b + ['\n'];
      ReadLinesOfTerminated(b);
      assert c == b + ['\n'] + line;
      SplitAround(b, line, '\n');
    }
  }

  lemma FormattedLineIsOneLine(filename: string, status: string, stamp: int, output: Option<string>)
    requires Loggable(filename) && Loggable(status) && Loggable(output.GetOr(""))
    ensures '\n' !in FormatLine(filename, status, stamp, output)
  {
    IntToStringHasNoBar(stamp);
  }

  lemma AppendedLineIsReadLast(content: string, line: string)
    requires ReadLines(content) != [] && content[|content| - 1] == '\n'
    requires '\n' !in line
    ensures ProcessedFiles(content + line + "\n") == Collect(Records(ReadLines(content)[1..]) + [ParseLine(line)])
  {
    ReadLinesAfterAppend(content, line);
    var before := ReadLines(content);
    assert (before + [line])[1..] == before[1..] + [line];
    RecordsSnoc(before[1..], line);
  }

  lemma CollectSnoc(recs: seq<Option<(string, Entry)>>, name: string, e: Entry)
    ensures Collect(recs + [Some((name, e))]) == Collect(recs)[name := e]
  {
    assert (recs + [Some((name, e))])[..|recs|] == recs;
  }

  /**
   * After `log_processing(f, s, o)` at clock reading `stamp`, reading the log maps `f` to
   * `(s, stamp, o or '')` and leaves every other file's entry as it was.
   */
  lemma LoggedEntryIsRead(content: string, filename: string, status: string, stamp: int, output: Option<string>)
    requires ReadLines(content) != [] && content[|content| - 1] == '\n'
    requires Loggable(filename) && Loggable(status) && Loggable(output.GetOr(""))
    requires filename == [] || !IsSpace(filename[0])
    requires output.GetOr("") == [] || !IsSpace(output.GetOr("")[|output.GetOr("")| - 1])
    ensures ProcessedFiles(content + FormatLine(filename, status, stamp, output) + "\n")
         == ProcessedFiles(content)[filename := Entry(status, IntToString(stamp), Some(output.GetOr("")))]
  {
    var line := FormatLine(filename, status, stamp, output);
    FormattedLineIsOneLine(filename, status, stamp, output);
    AppendedLineIsReadLast(content, line);
    FormattedLineParses(filename, status, stamp, output);
    CollectSnoc(Records(ReadLines(content)[1..]), filename, Entry(status, IntToString(stamp), Some(output.GetOr(""))));
  }

  /**
   * `needs_processing`: a vanished input is never cleaned, an input the log does not know is,
   * and otherwise the input is cleaned again exactly when it was modified after its logged
   * time, whatever status was logged. An unreadable logged time raises (`Err`).
   */
  function NeedsProcessing(present: bool, mtime: int, filename: string, processed: map<string, Entry>): (r: Result<bool>)
    ensures !present ==> r == Ok(false)
    ensures present && filename !in processed ==> r == Ok(true)
    ensures r.Err? <==> present && filename in processed && ParseInt(processed[filename].timestamp).None?
  {
    if !present then Ok(false)
    else if filename !in processed then Ok(true)
    else match ParseInt(processed[filename].timestamp)
      case None => Err("time data does not match format")
      case Some(logged) => Ok(mtime > logged)
  }

  /**
   * Once an attempt is logged at `stamp`, the next run cleans the file again exactly when it
   * was modified after `stamp`; a FAILED attempt is retried only then too.
   */
  lemma DecisionAfterLogging(content: string, filename: string, status: string, stamp: int, output: Option<string>, mtime: int)
    requires ReadLines(content) != [] && content[|content| - 1] == '\n'
    requires Loggable(filename) && Loggable(status) && Loggable(output.GetOr(""))
    requires filename == [] || !IsSpace(filename[0])
    requires output.GetOr("") == [] || !IsSpace(output.GetOr("")[|output.GetOr("")| - 1])
    ensures NeedsProcessing(true, mtime, filename, ProcessedFiles(content + FormatLine(filename, status, stamp, output) + "\n"))
         == Ok(mtime > stamp)
  {
    LoggedEntryIsRead(content, filename, status, stamp, output);
    ParseIntOfIntToString(stamp);
  }

  /** The log file; `content` is its whole text. */
  class LogFile {
    var content: string

    /** `setup_directories`: a log that does not exist yet is created holding only the header line. */
    constructor Open(existing: Option<string>)
      ensures content == if existing.Some? then existing.value else HeaderLine + "\n"
    {
      content := if existing.Some? then existing.value else HeaderLine + "\n";
    }

    /** `log_processing`: appends one line; nothing already in the log changes. */
    method Log(filename: string, status: string, output: Option<string>, now: int)
      modifies this
      ensures content == old(content) + FormatLine(filename, status, now, output) + "\n"
    {
      content := content + FormatLine(filename, status, now, output) + "\n";
    }

    /** `get_processed_files`: fills the dictionary line by line after the header. */
    method LoadProcessed() returns (processed: map<string, Entry>)
      ensures processed == ProcessedFiles(content)
    {
      processed := map[];
      var lines := ReadLines(content);
      if lines == [] {
        return;
      }
      var entries := lines[1..];
      var i := 0;
      while i < |entries|
        invariant 0 <= i <= |entries|
        invariant processed == Collect(Records(entries[..i]))
      {
        match ParseLine(entries[i]) {
          case Some((name, entry)) => processed := processed[name := entry];
          case None =>
        }
        RecordsOfLongerPrefix(entries, i);
        i := i + 1;
      }
      assert entries[..i] == entries;
    }
  }

  /** One file met by the directory walk, with what the file system and the clock answer about it. */
  datatype InputFile = InputFile(
    name: string,          // its base name
    present: bool,         // what `os.path.exists` answers when it is checked
    mtime: int,            // `os.path.getmtime`, in whole seconds
    grid: Option<Frame>,   // what `pd.read_excel` yields; `None` when reading raises
    writable: bool,        // whether `to_excel` succeeds
    clock: int)            // `datetime.now()` when its log line is written

  /** `filename.lower().endswith('.xlsx')` */
  predicate IsWorkbookName(name: string) {
    var l := AsciiLower(name);
    |l| >= |WorkbookExtension| && l[|l| - |WorkbookExtension|..] == WorkbookExtension
  }

  /** How many of the walked files the main loop considers. */
  function WorkbookCount(files: seq<InputFile>): nat {
    if files == [] then 0
    else (if IsWorkbookName(files[0].name) then 1 else 0) + WorkbookCount(files[1..])
  }

  /** The four counters `main` prints. */
  datatype Counters = Counters(total: nat, succeeded: nat, skipped: nat, failed: nat)

  /** A table saved to the output directory under a name. */
  datatype Written = Written(name: string, table: Table)

  /**
   * What `main` does with one `.xlsx` file: skips it, saves a table and logs SUCCESS, logs
   * FAILED, or stops because `needs_processing` raised.
   */
  datatype Verdict = Skipped | Saved(written: Written) | Failed | Aborted

  /**
   * `main`'s handling of one `.xlsx` file, from what `needs_processing` answers and what the
   * cleaner returns (`None` for its `(False, None)`): a raise aborts the run, `False` skips the
   * file, and otherwise the file is saved or failed as the cleaner says.
   */
  function VerdictOf(decision: Result<bool>, out: Option<Written>): Verdict {
    match decision
    case Err(_) => Aborted
    case Ok(needed) => if !needed then Skipped else if out.Some? then Saved(out.value) else Failed
  }

  /** The text `log_processing` appends for a verdict; a skip or an abort appends nothing. */
  function VerdictLine(file: InputFile, v: Verdict): string {
    match v
    case Saved(w) => FormatLine(file.name, SuccessStatus, file.clock, Some(w.name)) + "\n"
    case Failed => FormatLine(file.name, FailedStatus, file.clock, None) + "\n"
    case _ => ""
  }

  /** The counters once a file with verdict `v` is counted: one more found, and one more of its kind. */
  function Tallied(c: Counters, v: Verdict): Counters {
    var found := c.(total := c.total + 1);
    match v
    case Skipped => found.(skipped := c.skipped + 1)
    case Saved(_) => found.(succeeded := c.succeeded + 1)
    case Failed => found.(failed := c.failed + 1)
    case Aborted => found
  }

  /** How far `main` has got: its counters, whether it has raised, and the log's text. */
  datatype Progress = Progress(counters: Counters, aborted: bool, log: string)

  /** Where `main` starts: all counters zero, on the log as it is. */
  function Start(log: string): Progress {
    Progress(Counters(0, 0, 0, 0), false, log)
  }

  /** `main` once it has handled one more `.xlsx` file, whose verdict is `v`. */
  function Advanced(p: Progress, file: InputFile, v: Verdict): (q: Progress)
    ensures p.log <= q.log
  {
    Progress(Tallied(p.counters, v), v.Aborted?, p.log + VerdictLine(file, v))
  }

  /** Every file counted is skipped, saved or failed, except the one an abort stopped at. */
  predicate Balanced(p: Progress) {
    p.counters.total == p.counters.succeeded + p.counters.skipped + p.counters.failed + (if p.aborted then 1 else 0)
  }

  /** Handling a file before any abort keeps the counters balanced. */
  lemma AdvancedIsBalanced(p: Progress, file: InputFile, v: Verdict)
    requires Balanced(p) && !p.aborted
    ensures Balanced(Advanced(p, file, v))
  {
  }
}
