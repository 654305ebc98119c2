/**
 * The CGA cleaner. One grid extracted from a CGA report becomes a table with a single
 * flattened header row: annex rows are dropped, the grid is cut where narrative text
 * starts, a one-cell title row and a `(M.D)` units row are dropped, and up to three
 * header rows are merged column by column. `RunCga` is the batch loop over a directory.
 */
module CgaCleaner {
  import opened Optional
  import opened Strings
  import opened Cells
  import opened Ledger

  const MaxNameLength := 100
  const AnnexMarker := "annexe"
  const ProseWordLimit := 15
  const UnitsMarker := "(M.D)"
  const MaxHeaderRows := 3

  // ---------------------------------------------------------------- clean_filename

  /** `clean_filename`: strip, drop illegal characters, turn each whitespace run into `_`, keep 100 characters. */
  function CleanFilename(text: string): string {
    Take(CollapseSpaces(DropIllegal(Strip(text)), '_'), MaxNameLength)
  }

  /** No character of `s` is illegal in a file name or whitespace. */
  predicate NameChars(s: string) {
    forall k :: 0 <= k < |s| ==> !IsIllegalNameChar(s[k]) && !IsSpace(s[k])
  }

  /** A name `clean_filename` has nothing to do to: short enough, no illegal character, no whitespace. */
  predicate IsCleanName(s: string) {
    |s| <= MaxNameLength && NameChars(s)
  }

  lemma CollapsedNameIsClean(legal: string)
    requires forall k :: 0 <= k < |legal| ==> !IsIllegalNameChar(legal[k])
    ensures NameChars(CollapseSpaces(legal, '_'))
  {
    var j := CollapseSpaces(legal, '_');
    CollapsedCharacters(legal, '_');
    forall k | 0 <= k < |j|
      ensures !IsIllegalNameChar(j[k]) && !IsSpace(j[k])
    {
      if j[k] != '_' {
        var i :| 0 <= i < |legal| && legal[i] == j[k];
      }
    }
  }

  lemma PrefixKeepsNameChars(s: string, n: nat)
    requires NameChars(s)
    ensures NameChars(Take(s, n))
  {
    var r := Take(s, n);
    assert forall k :: 0 <= k < |r| ==> r[k] == s[k];
  }

  /** Every name `clean_filename` returns is clean: at most 100 characters, none illegal, no whitespace. */
  lemma CleanFilenameIsClean(text: string)
    ensures IsCleanName(CleanFilename(text))
  {
    var legal := DropIllegal(Strip(text));
    CollapsedNameIsClean(legal);
    PrefixKeepsNameChars(CollapseSpaces(legal, '_'), MaxNameLength);
  }

  lemma CleanNameIsFixed(s: string)
    requires IsCleanName(s)
    ensures CleanFilename(s) == s
  {
    assert Strip(s) == s;
    assert DropIllegal(s) == s;
    CollapseKeepsSpaceless(s, '_');
  }

  /** Cleaning a cleaned name changes nothing. */
  lemma CleanFilenameIdempotent(text: string)
    ensures CleanFilename(CleanFilename(text)) == CleanFilename(text)
  {
    CleanFilenameIsClean(text);
    CleanNameIsFixed(CleanFilename(text));
  }

  // ---------------------------------------------------------------- step 1: annex rows

  /** `row.astype(str).str.lower().str.contains("annexe").any()` */
  predicate MentionsAnnexe(row: Row) {
    exists k :: 0 <= k < |row| && Contains(AsciiLower(Str(row[k])), AnnexMarker)
  }

  /** Step 1: no row that mentions "annexe" is left, and every row left comes from the grid. */
  function DropAnnexeRows(rows: seq<Row>): (kept: seq<Row>)
    ensures forall i :: 0 <= i < |kept| ==> !MentionsAnnexe(kept[i]) && kept[i] in rows
  {
    if rows == [] then []
    else
      var rest := DropAnnexeRows(rows[1..]);
      if MentionsAnnexe(rows[0]) then rest else [rows[0]] + rest
  }

  /** Step 1 removes nothing else: every other row survives as often as it occurred. */
  lemma {:induction false} DropAnnexeRowsKeepsTheRest(rows: seq<Row>)
    ensures forall row :: multiset(DropAnnexeRows(rows))[row] == if MentionsAnnexe(row) then 0 else multiset(rows)[row]
  {
    if rows != [] {
      DropAnnexeRowsKeepsTheRest(rows[1..]);
      assert rows == [rows[0]] + rows[1..];
    }
  }

  /** The rows step 1 keeps stay in their order. */
  lemma {:induction false} DropAnnexeRowsKeepsOrder(rows: seq<Row>)
    ensures IsSubsequence(DropAnnexeRows(rows), rows)
  {
    if rows != [] {
      DropAnnexeRowsKeepsOrder(rows[1..]);
    }
  }

  // ---------------------------------------------------------------- step 2: prose cut

  /** `count_words(row)`: the whitespace-separated tokens of the row's text cells; other cells count nothing. */
  function WordCount(row: Row): nat {
    if row == [] then 0 else CellWords(row[0]) + WordCount(row[1..])
  }

  /** The words one cell contributes: those of its stripped text, none for any other cell. */
  function CellWords(c: Cell): nat {
    match c
    case Text(s) => |Words(Strip(s))|
    case _ => 0
  }

  /** Counting words is additive over the cells: a row's count is the sum of its parts'. */
  lemma {:induction false} WordCountOfConcat(a: Row, b: Row)
    ensures WordCount(a + b) == WordCount(a) + WordCount(b)
  {
    if a != [] {
      WordCountOfConcat(a[1..], b);
      assert (a + b)[0] == a[0] && (a + b)[1..] == a[1..] + b;
    } else {
      assert a + b == b;
    }
  }

  /** `count_words`'s loop: the words of each text cell are gathered, and their number returned. */
  method CountWords(row: Row) returns (n: nat)
    ensures n == WordCount(row)
  {
    var words: seq<string> := [];
    for i := 0 to |row|
      invariant |words| + WordCount(row[i..]) == WordCount(row)
    {
      assert row[i..][1..] == row[i + 1..];
      if row[i].Text? {
        words := words + Words(Strip(row[i].text));
      }
    }
    n := |words|;
  }

  /** A row of running text rather than table cells. */
  predicate IsProse(row: Row) {
    WordCount(row) > ProseWordLimit
  }

  /** Step 2: a prefix of the rows, cut at the first prose row. */
  function TruncateAtProse(rows: seq<Row>): (kept: seq<Row>)
    ensures |kept| <= |rows| && kept == rows[..|kept|]
  {
    if rows == [] || IsProse(rows[0]) then [] else [rows[0]] + TruncateAtProse(rows[1..])
  }

  /** The prefix step 2 keeps is exactly the rows before the first prose row; all of them when there is none. */
  lemma {:induction false} TruncateAtFirstProse(rows: seq<Row>)
    ensures var kept := TruncateAtProse(rows);
      (forall i :: 0 <= i < |kept| ==> !IsProse(rows[i])) && (|kept| < |rows| ==> IsProse(rows[|kept|]))
  {
    if rows != [] && !IsProse(rows[0]) {
      TruncateAtFirstProse(rows[1..]);
      var kept, tail := TruncateAtProse(rows), TruncateAtProse(rows[1..]);
      assert kept == [rows[0]] + tail;
      forall i | 0 < i < |kept|
        ensures !IsProse(rows[i])
      {
        assert rows[i] == rows[1..][i - 1];
      }
      if |kept| < |rows| {
        assert rows[|kept|] == rows[1..][|tail|];
      }
    }
  }

  /** Steps 1 and 2 together. */
  function NormaliseGrid(rows: seq<Row>): seq<Row> {
    TruncateAtProse(DropAnnexeRows(rows))
  }

  lemma NormalisedRowsKeepWidth(f: Frame)
    ensures AllWidth(NormaliseGrid(f.rows), f.width)
  {
    var kept := DropAnnexeRows(f.rows);
    assert forall i :: 0 <= i < |kept| ==> |kept[i]| == f.width;
  }

  // ---------------------------------------------------------------- steps 3 to 5

  /** `len(row.dropna())` */
  function NonMissingCount(row: Row): nat {
    if row == [] then 0 else (if row[0].Missing? then 0 else 1) + NonMissingCount(row[1..])
  }

  /** A row holding a single non-missing cell: a table title. */
  predicate IsTitleRow(row: Row) {
    NonMissingCount(row) == 1
  }

  /** `"(M.D)" in row.astype(str).values`: some cell is exactly the units marker. */
  predicate IsUnitsRow(row: Row) {
    exists k :: 0 <= k < |row| && Str(row[k]) == UnitsMarker
  }

  predicate HasDigit(s: string) {
    exists k :: 0 <= k < |s| && IsDigit(s[k])
  }

  /** `sum(row.astype(str).str.contains(r"\d"))`: the cells whose text holds a digit. */
  function DigitCellCount(row: Row): nat {
    if row == [] then 0 else (if HasDigit(Str(row[0])) then 1 else 0) + DigitCellCount(row[1..])
  }

  /**
   * How many leading rows form the header: rows 0 and 1 whenever they exist, and row 2
   * unless at least half the columns (`width // 2`) of it hold a digit.
   */
  function HeaderRowCount(rows: seq<Row>, width: nat): (n: nat)
    ensures n <= MaxHeaderRows && n <= |rows|
    ensures n == |rows| || n >= 2
    ensures n == MaxHeaderRows <==> |rows| >= MaxHeaderRows && DigitCellCount(rows[2]) < width / 2
  {
    if |rows| < MaxHeaderRows then |rows|
    else if DigitCellCount(rows[2]) >= width / 2 then 2
    else MaxHeaderRows
  }

  /** Text with no whitespace at either end and at least one character. */
  predicate Trimmed(s: string) {
    s != [] && !IsSpace(s[0]) && !IsSpace(s[|s| - 1])
  }

  /** `str(h[col]).strip()`, or nothing when the header row is shorter than `col`. */
  function HeaderCellText(h: Row, col: nat): (t: string)
    ensures t == [] || Trimmed(t)
  {
    if col < |h| then var s := Str(h[col]); StripTrims(s); Strip(s) else ""
  }

  /** The stripped `str` form of column `col` in each header row, top to bottom. */
  function ColumnTexts(headerRows: seq<Row>, col: nat): (texts: seq<string>)
    ensures |texts| == |headerRows|
    ensures forall i :: 0 <= i < |texts| ==> texts[i] == [] || Trimmed(texts[i])
  {
    if headerRows == [] then [] else [HeaderCellText(headerRows[0], col)] + ColumnTexts(headerRows[1..], col)
  }

  /** The texts that are not blank, in order. */
  function NonBlank(texts: seq<string>): (parts: seq<string>)
    ensures forall i :: 0 <= i < |parts| ==> parts[i] != [] && parts[i] in texts
  {
    if texts == [] then []
    else (if texts[0] == [] then [] else [texts[0]]) + NonBlank(texts[1..])
  }

  /** `parts` for column `col`: the stripped, non-blank `str` forms of its header cells. */
  function LabelParts(headerRows: seq<Row>, col: nat): seq<string> {
    NonBlank(ColumnTexts(headerRows, col))
  }

  /** `" ".join(parts).strip()`: the label the source computes for column `col`. */
  function ColumnLabel(headerRows: seq<Row>, col: nat): string {
    Strip(Join(" ", LabelParts(headerRows, col)))
  }

  /** The non-blank texts, read left to right, with one space between each two. */
  function SpacedNonBlank(texts: seq<string>): string {
    if texts == [] then ""
    else
      var rest := SpacedNonBlank(texts[1..]);
      if texts[0] == [] then rest else if rest == [] then texts[0] else texts[0] + " " + rest
  }

  /** The label of column `col`: its non-blank header cells, top to bottom, one space between each two. */
  function Label(headerRows: seq<Row>, col: nat): string {
    SpacedNonBlank(ColumnTexts(headerRows, col))
  }

  lemma {:induction false} JoinKeepsEnds(parts: seq<string>)
    requires forall i :: 0 <= i < |parts| ==> Trimmed(parts[i])
    ensures var j := Join(" ", parts); j == [] || Trimmed(j)
  {
    if |parts| > 1 {
      JoinKeepsEnds(parts[1..]);
      var rest := Join(" ", parts[1..]);
      assert Join(" ", parts) == parts[0] + " " + rest;
    }
  }

  /** Spacing the non-blank texts is joining them with a space. */
  lemma {:induction false} SpacedNonBlankIsJoin(texts: seq<string>)
    ensures SpacedNonBlank(texts) == Join(" ", NonBlank(texts))
  {
    if texts != [] {
      SpacedNonBlankIsJoin(texts[1..]);
      var rest := NonBlank(texts[1..]);
      if texts[0] != [] {
        assert NonBlank(texts) == [texts[0]] + rest;
        assert ([texts[0]] + rest)[1..] == rest;
      } else {
        assert NonBlank(texts) == rest;
      }
    }
  }

  /**
   * The source's label is the space-join of the column's non-blank cells, and its final
   * `strip()` never removes anything.
   */
  lemma LabelIsColumnLabel(headerRows: seq<Row>, col: nat)
    ensures ColumnLabel(headerRows, col) == Label(headerRows, col)
  {
    var texts := ColumnTexts(headerRows, col);
    SpacedNonBlankIsJoin(texts);
    JoinKeepsEnds(NonBlank(texts));
  }

  /** `final_header`: the labels of columns `0 .. width - 1`, in order. */
  function FlattenHeader(headerRows: seq<Row>, width: nat): (labels: seq<string>)
    ensures |labels| == width
  {
    if width == 0 then [] else FlattenHeader(headerRows, width - 1) + [Label(headerRows, width - 1)]
  }

  /** Column `col` of the merged header is that column's label. */
  lemma {:induction false} FlattenHeaderLabels(headerRows: seq<Row>, width: nat, col: nat)
    requires col < width
    ensures FlattenHeader(headerRows, width)[col] == Label(headerRows, col)
  {
    if col < width - 1 {
      FlattenHeaderLabels(headerRows, width - 1, col);
    }
  }

  /** A missing header cell prints as "nan", and so "nan" is one of the parts of its column's label. */
  lemma {:induction false} MissingHeaderCellShowsAsNan(headerRows: seq<Row>, k: nat, col: nat)
    requires k < |headerRows| && col < |headerRows[k]| && headerRows[k][col] == Missing
    ensures "nan" in LabelParts(headerRows, col)
  {
    var texts := ColumnTexts(headerRows, col);
    assert texts[k] == "nan" by {
      ColumnTextsAt(headerRows, col, k);
      MissingCellText(headerRows[k], col);
    }
    NonBlankKeeps(texts, k);
  }

  lemma MissingCellText(h: Row, col: nat)
    requires col < |h| && h[col] == Missing
    ensures HeaderCellText(h, col) == "nan"
  {
    var nan := Str(Missing);
    assert nan[0] == 'n' && nan[|nan| - 1] == 'n';
  }

  lemma {:induction false} ColumnTextsAt(headerRows: seq<Row>, col: nat, k: nat)
    requires k < |headerRows|
    ensures ColumnTexts(headerRows, col)[k] == HeaderCellText(headerRows[k], col)
  {
    if k > 0 {
      ColumnTextsAt(headerRows[1..], col, k - 1);
    }
  }

  lemma {:induction false} NonBlankKeeps(texts: seq<string>, k: nat)
    requires k < |texts| && texts[k] != []
    ensures texts[k] in NonBlank(texts)
  {
    if k > 0 {
      NonBlankKeeps(texts[1..], k - 1);
    }
  }

  /**
   * Steps 3 and 4: drop a leading title row and then a leading units row. `None` where
   * `df.iloc[0]` meets an empty frame, before or after the title is dropped.
   */
  function SkipLeadingRows(rows: seq<Row>): (body: Option<seq<Row>>)
    ensures body.None? <==> rows == [] || (|rows| == 1 && IsTitleRow(rows[0]))
    ensures body.Some? ==> |body.value| <= |rows| && body.value == rows[|rows| - |body.value|..]
    ensures body.Some? ==> |rows| - |body.value| <= 2
    ensures body.Some? ==>
      var title := if IsTitleRow(rows[0]) then 1 else 0;
      title < |rows| && body.value == rows[title + (if IsUnitsRow(rows[title]) then 1 else 0)..]
  {
    if rows == [] then None
    else
      var afterTitle := if IsTitleRow(rows[0]) then rows[1..] else rows;
      if afterTitle == [] then None
      else Some(if IsUnitsRow(afterTitle[0]) then afterTitle[1..] else afterTitle)
  }

  /** Step 5: the header rows are merged into one label per column and the data follows them. */
  function SplitHeader(body: seq<Row>, width: nat): (t: Table)
    ensures |t.header| == width
    ensures |t.rows| <= |body| && t.rows == body[|body| - |t.rows|..]
    ensures |body| - |t.rows| == HeaderRowCount(body, width)
  {
    var n := HeaderRowCount(body, width);
    Table(FlattenHeader(body[..n], width), body[n..])
  }

  /** Steps 3 to 5 on the normalised rows. */
  function ShapeTable(rows: seq<Row>, width: nat): (r: Option<Table>)
    ensures r.None? <==> rows == [] || (|rows| == 1 && IsTitleRow(rows[0]))
    ensures r.Some? ==> |r.value.header| == width
    ensures r.Some? ==>
      var data := r.value.rows;
      |data| <= |rows| && data == rows[|rows| - |data|..] && |rows| - |data| <= 2 + MaxHeaderRows
  {
    match SkipLeadingRows(rows)
    case None => None
    case Some(body) => Some(SplitHeader(body, width))
  }

  /**
   * The table `process_cga_file` writes for a frame it has read. There is none exactly
   * when nothing is left to inspect at row 0; otherwise the table has one label per
   * column of the frame, and its data is what follows the title, units and header rows
   * (at most five rows) of the normalised grid.
   */
  function CleanCga(f: Frame): (r: Option<Table>)
    ensures r.None? <==> var rows := NormaliseGrid(f.rows); rows == [] || (|rows| == 1 && IsTitleRow(rows[0]))
    ensures r.Some? ==> |r.value.header| == f.width && Shaped(r.value)
    ensures r.Some? ==>
      var rows := NormaliseGrid(f.rows);
      var data := r.value.rows;
      |data| <= |rows| && data == rows[|rows| - |data|..] && |rows| - |data| <= 2 + MaxHeaderRows
  {
    var rows := NormaliseGrid(f.rows);
    var r := ShapeTable(rows, f.width);
    assert r.Some? ==> Shaped(r.value) by {
      if r.Some? {
        NormalisedRowsKeepWidth(f);
        SuffixKeepsWidth(rows, r.value.rows, f.width);
      }
    }
    r
  }

  /** Whatever the title row says, the table is the same: the title is read and then discarded. */
  lemma TitleTextIsDiscarded(rows: seq<Row>, other: seq<Row>, width: nat)
    requires |rows| > 0 && |other| > 0 && rows[1..] == other[1..]
    requires IsTitleRow(rows[0]) && IsTitleRow(other[0])
    ensures ShapeTable(rows, width) == ShapeTable(other, width)
  {
  }

  // ---------------------------------------------------------------- process_cga_file

  /** `process_cga_file` once the frame is read: steps 1 to 4 reassign the rows, step 5 merges the header. */
  method CleanCgaFrame(f: Frame) returns (r: Option<Table>)
    ensures r == CleanCga(f)
  {
    var rows := DropAnnexeRows(f.rows);
    rows := TruncateAtProse(rows);
    ghost var normal := rows;
    if rows == [] {
      return None;
    }
    if IsTitleRow(rows[0]) {
      rows := rows[1..];
    }
    if rows == [] {
      return None;
    }
    if IsUnitsRow(rows[0]) {
      rows := rows[1..];
    }
    assert SkipLeadingRows(normal) == Some(rows);
    NormalisedRowsKeepWidth(f);
    assert rows == normal[|normal| - |rows|..];
    var t := MergeHeader(rows, f.width);
    return Some(t);
  }

  /**
   * Step 5 of `process_cga_file`: take rows 0 and 1 as header rows, and row 2 as well
   * unless half its cells hold a digit; label each column by its merged header cells and
   * keep the rows after the header as data.
   */
  method MergeHeader(rows: seq<Row>, width: nat) returns (t: Table)
    requires AllWidth(rows, width)
    ensures t == SplitHeader(rows, width)
  {
    var headerRows, offset := CollectHeaderRows(rows, width);
    var header := MergeLabels(headerRows, width);
    t := Table(header, rows[offset..]);
  }

  /** The `for offset` loop: rows 0 and 1, and row 2 unless half its cells hold a digit. */
  method CollectHeaderRows(rows: seq<Row>, width: nat) returns (headerRows: seq<Row>, offset: nat)
    requires AllWidth(rows, width)
    ensures offset == HeaderRowCount(rows, width) && headerRows == rows[..offset]
  {
    headerRows := [];
    offset := 0;
    while offset < MaxHeaderRows
      invariant offset <= MaxHeaderRows && offset <= |rows|
      invariant headerRows == rows[..offset]
      invariant offset <= HeaderRowCount(rows, width)
    {
      if offset >= |rows| {
        break;
      }
      var row := rows[offset];
      var numericCount := DigitCellCount(row);
      if offset == 2 && numericCount >= |row| / 2 {
        break;
      }
      headerRows := headerRows + [row];
      offset := offset + 1;
    }
  }

  /** The `for col` loop: one label per column, each the spaced non-blank texts of the header rows. */
  method MergeLabels(headerRows: seq<Row>, width: nat) returns (header: seq<string>)
    ensures header == FlattenHeader(headerRows, width)
  {
    header := [];
    for col := 0 to width
      invariant header == FlattenHeader(headerRows, col)
    {
      var merged := ColumnLabel(headerRows, col);
      LabelIsColumnLabel(headerRows, col);
      header := header + [merged];
    }
  }

  /**
   * `process_cga_file` for one walked file: `None` stands for `(False, None)` (the file is
   * gone, cannot be read, has no row 0 to inspect, or cannot be written). The cleaned table
   * is written under the input file's own name, sanitised; a sanitised title is computed by
   * the source but never used.
   */
  method ProcessCgaFile(file: InputFile) returns (out: Option<Written>)
    ensures out.Some? <==>
      file.present && file.grid.Some? && CleanCga(file.grid.value).Some? && file.writable
    ensures out.Some? ==> out.value == Written(CleanFilename(file.name), CleanCga(file.grid.value).value)
    ensures out == CgaOutput(file)
  {
    if !file.present || file.grid.None? {
      return None;
    }
    var cleaned := CleanCgaFrame(file.grid.value);
    if cleaned.None? || !file.writable {
      return None;
    }
    return Some(Written(CleanFilename(file.name), cleaned.value));
  }

  // ---------------------------------------------------------------- main

  /**
   * What `process_cga_file` returns for a walked file: the cleaned table under the input's
   * sanitised name when the file is there, reads, leaves a row 0 to inspect and writes.
   */
  function CgaOutput(file: InputFile): Option<Written> {
    if file.present && file.grid.Some? && CleanCga(file.grid.value).Some? && file.writable then
      Some(Written(CleanFilename(file.name), CleanCga(file.grid.value).value))
    else None
  }

  /** What `main` does with one `.xlsx` file, given the dictionary it loaded at start-up. */
  function CgaVerdict(processed: map<string, Entry>, file: InputFile): Verdict {
    VerdictOf(NeedsProcessing(file.present, file.mtime, file.name, processed), CgaOutput(file))
  }

  /**
   * The verdict's cases: an unreadable logged time aborts, an up-to-date file is skipped,
   * and a file that needs processing is saved exactly when it is there, reads, cleans and
   * writes, under its own sanitised name.
   */
  lemma CgaVerdictCases(processed: map<string, Entry>, file: InputFile)
    ensures var v := CgaVerdict(processed, file);
      && (v.Aborted? <==> NeedsProcessing(file.present, file.mtime, file.name, processed).Err?)
      && (v.Skipped? <==> NeedsProcessing(file.present, file.mtime, file.name, processed) == Ok(false))
      && (NeedsProcessing(file.present, file.mtime, file.name, processed) == Ok(true) ==>
           (v.Saved? <==> file.present && file.grid.Some? && CleanCga(file.grid.value).Some? && file.writable))
      && (v.Saved? ==> v.written == Written(CleanFilename(file.name), CleanCga(file.grid.value).value))
  {
  }

  /** `main`'s loop from progress `p` over the walked files: files that are not `.xlsx` are passed over, and an abort ends the run. */
  function CgaRun(processed: map<string, Entry>, p: Progress, files: seq<InputFile>): Progress
    decreases |files|
  {
    if files == [] then p
    else
      var next := if p.aborted || !IsWorkbookName(files[0].name) then p
                  else Advanced(p, files[0], CgaVerdict(processed, files[0]));
      CgaRun(processed, next, files[1..])
  }

  /** After an abort nothing changes any more. */
  lemma {:induction false} CgaRunStopsAtAbort(processed: map<string, Entry>, p: Progress, files: seq<InputFile>)
    requires p.aborted
    ensures CgaRun(processed, p, files) == p
    decreases |files|
  {
    if files != [] {
      CgaRunStopsAtAbort(processed, p, files[1..]);
    }
  }

  /** The run keeps the counters balanced and only appends to the log. */
  lemma {:induction false} CgaRunIsBalanced(processed: map<string, Entry>, p: Progress, files: seq<InputFile>)
    requires Balanced(p)
    ensures Balanced(CgaRun(processed, p, files))
    ensures p.log <= CgaRun(processed, p, files).log
    decreases |files|
  {
    if files != [] {
      var next := if p.aborted || !IsWorkbookName(files[0].name) then p
                  else Advanced(p, files[0], CgaVerdict(processed, files[0]));
      if !p.aborted && IsWorkbookName(files[0].name) {
        AdvancedIsBalanced(p, files[0], CgaVerdict(processed, files[0]));
      }
      CgaRunIsBalanced(processed, next, files[1..]);
    }
  }

  /** Until an abort, the run counts every `.xlsx` file it walks. */
  lemma {:induction false} CgaRunCountsWorkbooks(processed: map<string, Entry>, p: Progress, files: seq<InputFile>)
    requires !p.aborted
    ensures !CgaRun(processed, p, files).aborted ==>
      CgaRun(processed, p, files).counters.total == p.counters.total + WorkbookCount(files)
    decreases |files|
  {
    if files != [] {
      var next := if !IsWorkbookName(files[0].name) then p
                  else Advanced(p, files[0], CgaVerdict(processed, files[0]));
      if next.aborted {
        CgaRunStopsAtAbort(processed, next, files[1..]);
      } else {
        CgaRunCountsWorkbooks(processed, next, files[1..]);
      }
    }
  }

  /**
   * One turn of `main`'s loop for a `.xlsx` file: an unreadable logged time aborts the run,
   * a file that needs no processing is skipped, and otherwise one line recording the
   * attempt, successful or not, is appended to the log.
   */
  method HandleCgaFile(log: LogFile, processed: map<string, Entry>, file: InputFile) returns (v: Verdict)
    modifies log
    ensures v == CgaVerdict(processed, file)
    ensures log.content == old(log.content) + VerdictLine(file, v)
  {
    var decision := NeedsProcessing(file.present, file.mtime, file.name, processed);
    if decision.Err? {
      return Aborted;
    }
    if !decision.value {
      return Skipped;
    }
    v := AttemptCgaFile(log, file);
  }

  /** The body of the loop once the file needs processing: process it, then log the attempt. */
  method AttemptCgaFile(log: LogFile, file: InputFile) returns (v: Verdict)
    modifies log
    ensures v == VerdictOf(Ok(true), CgaOutput(file))
    ensures log.content == old(log.content) + VerdictLine(file, v)
  {
    var out := ProcessCgaFile(file);
    ghost var before := log.content;
    if out.Some? {
      log.Log(file.name, SuccessStatus, Some(out.value.name), file.clock);
      AppendIsAssociative(before, FormatLine(file.name, SuccessStatus, file.clock, Some(out.value.name)), "\n");
      v := Saved(out.value);
    } else {
      log.Log(file.name, FailedStatus, None, file.clock);
      AppendIsAssociative(before, FormatLine(file.name, FailedStatus, file.clock, None), "\n");
      v := Failed;
    }
  }

  /**
   * `main`'s loop: the counters and the log end as the run above says, so every `.xlsx`
   * file is counted once and is skipped, saved or failed, and each attempt adds its line to
   * the log. An unreadable logged time raises out of the loop (`aborted`), leaving the file
   * it was read for counted but not classified.
   */
  method RunCga(log: LogFile, files: seq<InputFile>) returns (c: Counters, aborted: bool)
    modifies log
    ensures Progress(c, aborted, log.content) == CgaRun(ProcessedFiles(old(log.content)), Start(old(log.content)), files)
    ensures !aborted ==> c.total == WorkbookCount(files)
    ensures c.total == c.succeeded + c.skipped + c.failed + (if aborted then 1 else 0)
    ensures old(log.content) <= log.content
  {
    var processed := log.LoadProcessed();
    ghost var start := Start(log.content);
    ghost var goal := CgaRun(processed, start, files);
    c := Counters(0, 0, 0, 0);
    aborted := false;
    for i := 0 to |files|
      invariant !aborted
      invariant CgaRun(processed, Progress(c, false, log.content), files[i..]) == goal
    {
      var file := files[i];
      assert files[i..][0] == file && files[i..][1..] == files[i + 1..];
      ghost var before := Progress(c, false, log.content);
      if IsWorkbookName(file.name) {
        c := c.(total := c.total + 1);
        var v := HandleCgaFile(log, processed, file);
        match v {
          case Aborted => aborted := true;
          case Skipped => c := c.(skipped := c.skipped + 1);
          case Saved(_) => c := c.(succeeded := c.succeeded + 1);
          case Failed => c := c.(failed := c.failed + 1);
        }
        assert c == Tallied(before.counters, v);
        assert aborted == v.Aborted?;
        assert Progress(c, aborted, log.content) == Advanced(before, file, v);
        if aborted {
          CgaRunStopsAtAbort(processed, Advanced(before, file, v), files[i + 1..]);
          break;
        }
      }
    }
    CgaRunIsBalanced(processed, start, files);
    CgaRunCountsWorkbooks(processed, start, files);
  }
}
