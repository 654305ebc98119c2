/**
 * The FTUSA cleaner. A grid extracted from an FTUSA report holds a title block, an
 * all-blank separator row, a header row and the data. The cleaner finds the separator,
 * names the output after the titles above it, keeps the header and the data below it,
 * renames the first column, turns integer-looking cells into numbers and picks an output
 * name no existing file has. `RunFtusa` is the batch loop over a directory.
 */
module FtusaCleaner {
  import opened Optional
  import opened Strings
  import opened Cells
  import opened Ledger

  // ---------------------------------------------------------------- detecter_ligne_nulle_et_titre

  /** `est_vide`: the cell's stripped, lower-cased text is empty, "nan", or a hyphen, en dash or em dash. */
  predicate IsBlank(c: Cell) {
    OneOf(AsciiLower(Strip(Str(c))), BlankForms)
  }

  /** The texts `est_vide` counts as blank. */
  const BlankForms: seq<string> := ["", "nan", "-", "–", "—"]

  /** `t in forms` */
  predicate OneOf(t: string, forms: seq<string>) {
    forms != [] && (t == forms[0] || OneOf(t, forms[1..]))
  }

  /** `t in forms` is list membership. */
  lemma {:induction false} OneOfIsMembership(t: string, forms: seq<string>)
    ensures OneOf(t, forms) <==> t in forms
  {
    if forms != [] {
      OneOfIsMembership(t, forms[1..]);
      assert forms == [forms[0]] + forms[1..];
    }
  }

  /**
   * A missing cell and whitespace-only text are blank, and so is nothing longer than three
   * characters once stripped: the numbers and words of a table never count as blank.
   */
  lemma BlankCells(s: string)
    ensures IsBlank(Missing)
    ensures Strip(s) == [] ==> IsBlank(Text(s))
    ensures IsBlank(Text(s)) ==> |Strip(s)| <= 3
  {
    OneOfIsMembership(AsciiLower(Strip(s)), BlankForms);
    OneOfIsMembership(AsciiLower(Strip("nan")), BlankForms);
    assert Strip("nan") == "nan";
    assert AsciiLower("nan") == "nan";
  }

  /** `all(est_vide(cell) for cell in row)` */
  predicate AllBlank(row: Row) {
    forall k :: 0 <= k < |row| ==> IsBlank(row[k])
  }

  /** `[est_vide(cell) for cell in row]`: the counting below works on this mask. */
  function BlankMask(row: Row): (m: seq<bool>)
    ensures |m| == |row| && forall k :: 0 <= k < |row| ==> m[k] == IsBlank(row[k])
  {
    seq(|row|, k requires 0 <= k < |row| => IsBlank(row[k]))
  }

  /** How many entries of a mask are false. */
  function FalseCount(m: seq<bool>): nat {
    if m == [] then 0 else (if m[0] then 0 else 1) + FalseCount(m[1..])
  }

  /** The position of the first false entry of a mask that has one. */
  function FirstFalse(m: seq<bool>): (p: nat)
    requires FalseCount(m) > 0
    ensures p < |m| && !m[p] && forall q :: 0 <= q < p ==> m[q]
  {
    if !m[0] then 0 else 1 + FirstFalse(m[1..])
  }

  /** In a mask with one false entry, every other entry is true. */
  lemma {:induction false} OnlyFalse(m: seq<bool>, q: nat)
    requires FalseCount(m) == 1 && q < |m| && q != FirstFalse(m)
    ensures m[q]
  {
    if q > FirstFalse(m) {
      assert m[q] == m[1..][q - 1];
      if m[0] {
        OnlyFalse(m[1..], q - 1);
      } else {
        NoFalseLeft(m[1..], q - 1);
      }
    }
  }

  lemma {:induction false} NoFalseLeft(m: seq<bool>, q: nat)
    requires FalseCount(m) == 0 && q < |m|
    ensures m[q]
  {
    if q > 0 {
      assert m[q] == m[1..][q - 1];
      NoFalseLeft(m[1..], q - 1);
    }
  }

  /** `len(non_vides)`: how many cells of the row are not blank. */
  function NonBlankCount(row: Row): nat {
    FalseCount(BlankMask(row))
  }

  /** The position of the first non-blank cell of a row that has one. */
  function FirstNonBlank(row: Row): (p: nat)
    requires NonBlankCount(row) > 0
    ensures p < |row| && !IsBlank(row[p])
    ensures forall q :: 0 <= q < p ==> IsBlank(row[q])
  {
    var m := BlankMask(row);
    assert forall q :: 0 <= q < FirstFalse(m) ==> m[q];
    FirstFalse(m)
  }

  /** The one-cell sub-title found above the separator: its text and its column label. */
  datatype Anchor = Anchor(value: string, column: string)

  /** What `detecter_ligne_nulle_et_titre` answers. */
  datatype Detection = NoSeparator | Separator(index: nat, anchor: Option<Anchor>)

  /** The index of the first all-blank row at or after `from`, if there is one. */
  function SeparatorFrom(rows: seq<Row>, from: nat): (r: Option<nat>)
    requires from <= |rows|
    ensures r.Some? ==> from <= r.value < |rows| && AllBlank(rows[r.value])
    ensures r.Some? ==> forall i :: from <= i < r.value ==> !AllBlank(rows[i])
    ensures r.None? ==> forall i :: from <= i < |rows| ==> !AllBlank(rows[i])
    decreases |rows| - from
  {
    if from == |rows| then None
    else if AllBlank(rows[from]) then Some(from)
    else SeparatorFrom(rows, from + 1)
  }

  /** The nearest row above `idx` with exactly one non-blank cell, if there is one. */
  function AnchorRow(rows: seq<Row>, idx: nat): (r: Option<nat>)
    requires idx <= |rows|
    ensures r.Some? ==> r.value < idx && NonBlankCount(rows[r.value]) == 1
    ensures r.Some? ==> forall j :: r.value < j < idx ==> NonBlankCount(rows[j]) != 1
    ensures r.None? ==> forall j :: 0 <= j < idx ==> NonBlankCount(rows[j]) != 1
  {
    if idx == 0 then None
    else if NonBlankCount(rows[idx - 1]) == 1 then Some(idx - 1)
    else AnchorRow(rows, idx - 1)
  }

  /** Walking back from `prev + 1` to `prev` past a row with other than one non-blank cell does not change the anchor. */
  lemma AnchorRowSteps(rows: seq<Row>, idx: nat, prev: nat)
    requires prev < idx <= |rows|
    requires AnchorRow(rows, idx) == AnchorRow(rows, prev + 1)
    ensures NonBlankCount(rows[prev]) == 1 ==> AnchorRow(rows, idx) == Some(prev)
    ensures NonBlankCount(rows[prev]) != 1 ==> AnchorRow(rows, idx) == AnchorRow(rows, prev)
  {
  }

  /** The anchor a row with one non-blank cell gives: `str` of that cell, and its column label. */
  function AnchorOf(row: Row): Anchor
    requires NonBlankCount(row) == 1
  {
    var p := FirstNonBlank(row);
    Anchor(Str(row[p]), NatToString(p))
  }

  /** The anchor of the nearest row above `idx` with one non-blank cell, if there is one. */
  function AnchorAbove(rows: seq<Row>, idx: nat): Option<Anchor>
    requires idx <= |rows|
  {
    match AnchorRow(rows, idx)
    case None => None
    case Some(j) => Some(AnchorOf(rows[j]))
  }

  /**
   * `detecter_ligne_nulle_et_titre`: the first all-blank row, with the nearest one-cell row
   * above it as anchor; `NoSeparator` for `(None, None, None)`.
   */
  function Detect(rows: seq<Row>): Detection {
    match SeparatorFrom(rows, 0)
    case None => NoSeparator
    case Some(idx) => Separator(idx, AnchorAbove(rows, idx))
  }

  /** The backward scan of `detecter_ligne_nulle_et_titre` from the separator at `idx`, returning at the first one-cell row. */
  method FindAnchorAbove(rows: seq<Row>, idx: nat) returns (anchor: Option<Anchor>)
    requires idx <= |rows|
    ensures anchor == AnchorAbove(rows, idx)
  {
    var prev: nat := idx;
    while prev > 0
      invariant prev <= idx
      invariant AnchorRow(rows, idx) == AnchorRow(rows, prev)
    {
      prev := prev - 1;
      AnchorRowSteps(rows, idx, prev);
      if NonBlankCount(rows[prev]) == 1 {
        var col := FirstNonBlank(rows[prev]);
        return Some(Anchor(Str(rows[prev][col]), NatToString(col)));
      }
    }
    return None;
  }

  /** `detecter_ligne_nulle_et_titre` as the source runs it: a forward scan, then a backward one, with early returns. */
  method DetectSeparatorAndTitle(rows: seq<Row>) returns (d: Detection)
    ensures d == Detect(rows)
  {
    var idx := 0;
    while idx < |rows|
      invariant idx <= |rows|
      invariant SeparatorFrom(rows, 0) == SeparatorFrom(rows, idx)
    {
      if AllBlank(rows[idx]) {
        var anchor := FindAnchorAbove(rows, idx);
        return Separator(idx, anchor);
      }
      idx := idx + 1;
    }
    return NoSeparator;
  }

  /** A row with exactly one non-blank cell has blanks everywhere else, so its anchor is that cell. */
  lemma AnchorIsTheOnlyNonBlankCell(row: Row, q: nat)
    requires NonBlankCount(row) == 1 && q < |row| && q != FirstNonBlank(row)
    ensures IsBlank(row[q])
  {
    OnlyFalse(BlankMask(row), q);
  }

  // ---------------------------------------------------------------- generer_nom_fichier_conforme

  const MaxTitleLength := 100
  const DefaultTitle := "Donnees"

  /** `row.notna() & (row != '')`: the cell is neither missing nor the empty text. */
  predicate IsShown(c: Cell) {
    !c.Missing? && c != Text("")
  }

  /** `len(non_vides)` in the title scan. */
  function ShownCount(row: Row): nat {
    if row == [] then 0 else (if IsShown(row[0]) then 1 else 0) + ShownCount(row[1..])
  }

  /** A cell the title scan keeps: shown, and not blank once stripped. */
  predicate Contributes(c: Cell) {
    IsShown(c) && Strip(Str(c)) != []
  }

  /** `str(x) for x in non_vides if str(x).strip()`: the texts a title row contributes, left to right. */
  function TitleParts(row: Row): (parts: seq<string>)
    ensures forall i :: 0 <= i < |parts| ==> Strip(parts[i]) != []
  {
    if row == [] then []
    else (if Contributes(row[0]) then [Str(row[0])] else []) + TitleParts(row[1..])
  }

  /** The positions, from `from` on, of the cells a title row keeps, left to right. */
  ghost function KeptFrom(row: Row, from: nat): (ps: seq<nat>)
    requires from <= |row|
    ensures forall j :: 0 <= j < |ps| ==> from <= ps[j] < |row|
    decreases |row| - from
  {
    if from == |row| then [] else (if Contributes(row[from]) then [from] else []) + KeptFrom(row, from + 1)
  }

  /** Those positions are kept cells, increasing, and include every kept cell from `from` on. */
  lemma {:induction false} KeptFromIsExact(row: Row, from: nat)
    requires from <= |row|
    ensures forall j :: 0 <= j < |KeptFrom(row, from)| ==>
      Contributes(row[KeptFrom(row, from)[j]])
    ensures forall j, k :: 0 <= j < k < |KeptFrom(row, from)| ==> KeptFrom(row, from)[j] < KeptFrom(row, from)[k]
    ensures forall i :: from <= i < |row| && Contributes(row[i]) ==> i in KeptFrom(row, from)
    decreases |row| - from
  {
    if from < |row| {
      KeptFromIsExact(row, from + 1);
    }
  }

  /** The title parts are exactly the texts of the kept cells, left to right. */
  lemma {:induction false} TitlePartsAreTheKeptCells(row: Row, from: nat)
    requires from <= |row|
    ensures |TitleParts(row[from..])| == |KeptFrom(row, from)|
    ensures forall j :: 0 <= j < |KeptFrom(row, from)| ==> TitleParts(row[from..])[j] == Str(row[KeptFrom(row, from)[j]])
    decreases |row| - from
  {
    if from < |row| {
      TitlePartsAreTheKeptCells(row, from + 1);
      assert row[from..][1..] == row[from + 1..];
    }
  }

  /** A row with nothing shown contributes nothing. */
  lemma {:induction false} NothingShownNoParts(row: Row)
    requires ShownCount(row) == 0
    ensures TitleParts(row) == []
  {
    if row != [] {
      NothingShownNoParts(row[1..]);
    }
  }

  /** `text`: the parts joined with single spaces. */
  function RowText(row: Row): string {
    Join(" ", TitleParts(row))
  }

  /** The texts of the rows the scan visits, nearest first: rows `hi - 1` down to `lo`. */
  function Scanned(rows: seq<Row>, hi: nat, lo: nat): (texts: seq<string>)
    requires hi <= |rows|
    ensures |texts| == if hi <= lo then 0 else hi - lo
    decreases hi
  {
    if hi <= lo then [] else [RowText(rows[hi - 1])] + Scanned(rows, hi - 1, lo)
  }

  /** `range(idx - 1, max(-1, idx - 4), -1)` stops above this index: at most three rows are read. */
  function ScanLow(idx: nat): nat {
    if idx >= 3 then idx - 3 else 0
  }

  datatype Titles = Titles(main: string, sub: string)

  /** One pass of the loop body: the first text fills `main_title`, a later different one `sub_title`. */
  function TitleStep(t: Titles, text: string): Titles {
    if t.main == "" then Titles(text, t.sub)
    else if t.sub == "" && text != t.main then Titles(t.main, text)
    else t
  }

  /** The titles after the loop has read `texts`, starting from `t`. */
  function Fold(t: Titles, texts: seq<string>): Titles
    decreases |texts|
  {
    if texts == [] then t else Fold(TitleStep(t, texts[0]), texts[1..])
  }

  function TitlesOf(texts: seq<string>): Titles {
    Fold(Titles("", ""), texts)
  }

  /** The first non-empty text, or "" when there is none. */
  function FirstNonEmpty(texts: seq<string>): (r: string)
    ensures r == "" <==> forall i :: 0 <= i < |texts| ==> texts[i] == ""
    ensures r != "" ==> exists i :: 0 <= i < |texts| && texts[i] == r && forall j :: 0 <= j < i ==> texts[j] == ""
  {
    if texts == [] then "" else if texts[0] != "" then texts[0] else FirstNonEmpty(texts[1..])
  }

  /** The first text that is neither empty nor `m`, or "" when there is none. */
  function FirstOther(texts: seq<string>, m: string): (r: string)
    ensures r == "" <==> forall i :: 0 <= i < |texts| ==> texts[i] == "" || texts[i] == m
    ensures r != "" ==> r != m
    ensures r != "" ==>
      exists i :: 0 <= i < |texts| && texts[i] == r && forall j :: 0 <= j < i ==> texts[j] == "" || texts[j] == m
  {
    if texts == [] then ""
    else if texts[0] != "" && texts[0] != m then texts[0]
    else FirstOther(texts[1..], m)
  }

  /** Once both titles are set, the rest of the scan changes nothing. */
  lemma {:induction false} FoldKeepsFullTitles(t: Titles, texts: seq<string>)
    requires t.main != "" && t.sub != ""
    ensures Fold(t, texts) == t
    decreases |texts|
  {
    if texts != [] {
      FoldKeepsFullTitles(t, texts[1..]);
    }
  }

  /** With the main title set, the sub-title becomes the first later text that differs from it. */
  lemma {:induction false} FoldFindsSubTitle(m: string, texts: seq<string>)
    requires m != ""
    ensures Fold(Titles(m, ""), texts) == Titles(m, FirstOther(texts, m))
    decreases |texts|
  {
    if texts != [] {
      if texts[0] != "" && texts[0] != m {
        FoldKeepsFullTitles(Titles(m, texts[0]), texts[1..]);
      } else {
        FoldFindsSubTitle(m, texts[1..]);
      }
    }
  }

  /**
   * The scan's outcome, independently of the loop: the main title is the nearest non-empty
   * row text and the sub-title the nearest non-empty one that differs from it.
   */
  lemma {:induction false} TitlesAreNearest(texts: seq<string>)
    ensures TitlesOf(texts) == Titles(FirstNonEmpty(texts), FirstOther(texts, FirstNonEmpty(texts)))
    decreases |texts|
  {
    if texts != [] {
      if texts[0] == "" {
        TitlesAreNearest(texts[1..]);
      } else {
        FoldFindsSubTitle(texts[0], texts[1..]);
      }
    }
  }

  /** `clean_text`: illegal characters become spaces, whitespace runs one space, then strip and keep 100 characters. */
  function CleanText(t: string): string {
    Take(Strip(CollapseSpaces(BlankIllegal(t), ' ')), MaxTitleLength)
  }

  /** No illegal character, no whitespace but single spaces. */
  predicate SingleSpaced(s: string) {
    && (forall k :: 0 <= k < |s| ==> !IsIllegalNameChar(s[k]) && (IsSpace(s[k]) ==> s[k] == ' '))
    && (forall k :: 0 <= k < |s| - 1 ==> !(s[k] == ' ' && s[k + 1] == ' '))
  }

  /** What `clean_text` can leave: at most 100 characters, single-spaced, no leading space. */
  predicate IsCleanTitle(s: string) {
    |s| <= MaxTitleLength && (s == [] || s[0] != ' ') && SingleSpaced(s)
  }

  lemma SingleSpacedSlice(s: string, i: nat, j: nat)
    requires SingleSpaced(s) && i <= j <= |s|
    ensures SingleSpaced(s[i..j])
  {
    var t := s[i..j];
    assert forall k :: 0 <= k < |t| ==> t[k] == s[i + k];
  }

  lemma CollapsedIsSingleSpaced(t: string)
    ensures SingleSpaced(CollapseSpaces(BlankIllegal(t), ' '))
  {
    var b := BlankIllegal(t);
    var c := CollapseSpaces(b, ' ');
    CollapsedCharacters(b, ' ');
    CollapsedHasNoDoubleReplacement(b, ' ');
    forall k | 0 <= k < |c| ensures !IsIllegalNameChar(c[k]) && (IsSpace(c[k]) ==> c[k] == ' ') {
      if c[k] != ' ' {
        var j :| 0 <= j < |b| && b[j] == c[k];
      }
    }
  }

  /** Stripping keeps a single-spaced text single-spaced, and leaves no leading space. */
  lemma StripKeepsSingleSpaced(c: string)
    requires SingleSpaced(c)
    ensures SingleSpaced(Strip(c)) && (Strip(c) == [] || Strip(c)[0] != ' ')
  {
    StripIsSlice(c);
    StripTrims(c);
    SingleSpacedSlice(c, StripOffset(c), StripOffset(c) + |Strip(c)|);
  }

  /** Cutting to 100 characters keeps a single-spaced text without leading space clean. */
  lemma TakeKeepsCleanTitle(s: string)
    requires SingleSpaced(s) && (s == [] || s[0] != ' ')
    ensures IsCleanTitle(Take(s, MaxTitleLength))
  {
    var r := Take(s, MaxTitleLength);
    SingleSpacedSlice(s, 0, |r|);
    assert r == [] || r[0] == s[0];
  }

  lemma CleanTextIsClean(t: string)
    ensures IsCleanTitle(CleanText(t))
  {
    var c := CollapseSpaces(BlankIllegal(t), ' ');
    CollapsedIsSingleSpaced(t);
    StripKeepsSingleSpaced(c);
    TakeKeepsCleanTitle(Strip(c));
  }

  /**
   * The name `generer_nom_fichier_conforme` composes from the two titles: "sub - main.xlsx",
   * "main.xlsx", or "Donnees.xlsx" when the main title is missing or cleans away to nothing.
   */
  function NameFor(t: Titles): string {
    var main := if t.main != "" then CleanText(t.main) else DefaultTitle;
    var sub := if t.sub != "" then CleanText(t.sub) else "";
    if main != "" && sub != "" then sub + " - " + main + WorkbookExtension
    else if main != "" then main + WorkbookExtension
    else DefaultTitle + WorkbookExtension
  }

  /** `generer_nom_fichier_conforme(df, idx)` */
  function ConformingName(rows: seq<Row>, idx: nat): string
    requires idx <= |rows|
  {
    NameFor(TitlesOf(Scanned(rows, idx, ScanLow(idx))))
  }

  /** Every name ends in ".xlsx" and has a non-empty stem before it. */
  lemma NameIsWorkbook(t: Titles)
    ensures |NameFor(t)| > |WorkbookExtension|
    ensures NameFor(t)[|NameFor(t)| - |WorkbookExtension|..] == WorkbookExtension
  {
  }

  /** With the separator on row 0 there is nothing above it, and the name is "Donnees.xlsx". */
  lemma NameAtRowZero(rows: seq<Row>)
    ensures ConformingName(rows, 0) == "Donnees.xlsx"
  {
  }

  /** The scan reads rows `ScanLow(idx)` to `idx - 1` and nothing else. */
  lemma {:induction false} ScannedReadsOnlyItsRows(rows: seq<Row>, other: seq<Row>, hi: nat, lo: nat)
    requires hi <= |rows| && hi <= |other|
    requires forall i :: lo <= i < hi ==> rows[i] == other[i]
    ensures Scanned(rows, hi, lo) == Scanned(other, hi, lo)
    decreases hi
  {
    if hi > lo {
      ScannedReadsOnlyItsRows(rows, other, hi - 1, lo);
    }
  }

  /** The name depends on the (at most) three rows above the separator only. */
  lemma NameReadsOnlyThreeRows(rows: seq<Row>, other: seq<Row>, idx: nat)
    requires idx <= |rows| && idx <= |other|
    requires forall i :: ScanLow(idx) <= i < idx ==> rows[i] == other[i]
    ensures ConformingName(rows, idx) == ConformingName(other, idx)
  {
    ScannedReadsOnlyItsRows(rows, other, idx, ScanLow(idx));
  }

  /** `generer_nom_fichier_conforme` as the source runs it: a backward loop over the rows above the separator. */
  method ConformingFileName(rows: seq<Row>, idx: nat) returns (name: string)
    requires idx <= |rows|
    ensures name == ConformingName(rows, idx)
  {
    var main, sub := "", "";
    var lo := ScanLow(idx);
    var i := idx;
    while i > lo
      invariant lo <= i <= idx
      invariant Fold(Titles(main, sub), Scanned(rows, i, lo)) == TitlesOf(Scanned(rows, idx, lo))
    {
      i := i - 1;
      var row := rows[i];
      if ShownCount(row) > 0 {
        var text := RowText(row);
        if main == "" {
          main := text;
        } else if sub == "" && text != main {
          sub := text;
        }
      } else {
        NothingShownNoParts(row);
      }
    }
    name := NameFor(Titles(main, sub));
  }

  // ---------------------------------------------------------------- nettoyer_dataframe

  /** `[str(col).strip() for col in df.columns]` after the header row became the columns. */
  function HeaderOf(row: Row): (labels: seq<string>)
    ensures |labels| == |row|
    ensures forall c :: 0 <= c < |row| ==> labels[c] == Strip(Str(row[c]))
  {
    if row == [] then [] else [Strip(Str(row[0]))] + HeaderOf(row[1..])
  }

  /**
   * `nettoyer_dataframe`: nothing when no row follows the separator; otherwise the row after
   * the separator, stringified and stripped, is the header and everything below it is data.
   */
  function CleanFrame(rows: seq<Row>, idx: nat): (t: Table)
    ensures idx + 1 >= |rows| ==> t.header == [] && t.rows == []
    ensures idx + 1 < |rows| ==> |t.header| == |rows[idx + 1]|
    ensures idx + 1 < |rows| ==> forall c :: 0 <= c < |t.header| ==> t.header[c] == Strip(Str(rows[idx + 1][c]))
    ensures idx + 1 < |rows| ==> |t.rows| == |rows| - idx - 2 && rows == rows[..idx + 2] + t.rows
  {
    if idx + 1 >= |rows| then Table([], [])
    else Table(HeaderOf(rows[idx + 1]), rows[idx + 2..])
  }

  /** On a rectangular grid every data row is as wide as the header. */
  lemma CleanFrameIsShaped(f: Frame, idx: nat)
    ensures Shaped(CleanFrame(f.rows, idx))
  {
    var t := CleanFrame(f.rows, idx);
    if idx + 1 < |f.rows| {
      SuffixKeepsWidth(f.rows, t.rows, f.width);
    }
  }

  // ---------------------------------------------------------------- renommer_colonne_speciale

  const SampleSize := 50
  const CompanyColumn := "Compagnie d'assurance"
  const IndicatorColumn := "indicateur"

  /** `valeurs_compagnie` */
  predicate IsCompanyToken(s: string) {
    s == "STAR" || s == "MAGHREBIA" || s == "GAT"
  }

  /** The row's first cell, stringified and stripped, is a company token. */
  predicate NamesCompany(row: Row) {
    row != [] && IsCompanyToken(Strip(Str(row[0])))
  }

  /** `any(val in sample.values ...)` over `df.iloc[:50, 0]`. */
  predicate CompanySampled(rows: seq<Row>) {
    exists i :: 0 <= i < |rows| && i < SampleSize && NamesCompany(rows[i])
  }

  /** The label the first column receives. */
  function FirstColumnName(rows: seq<Row>): string {
    if CompanySampled(rows) then CompanyColumn else IndicatorColumn
  }

  /** `df.rename(columns={premiere_col: nouveau_nom})`: every label equal to `from` becomes `to`. */
  function Relabel(header: seq<string>, from: string, to: string): (r: seq<string>)
    ensures |r| == |header|
    ensures forall c :: 0 <= c < |header| ==> r[c] == if header[c] == from then to else header[c]
  {
    if header == [] then [] else [if header[0] == from then to else header[0]] + Relabel(header[1..], from, to)
  }

  /**
   * `renommer_colonne_speciale`: an empty table is returned as it is; otherwise the first
   * column, and every column that carries the same label, is named after what its first 50
   * values hold, and no other label or cell changes.
   */
  function RenameSpecialColumn(t: Table): (r: Table)
    ensures t.rows == [] || t.header == [] ==> r == t
    ensures r.rows == t.rows && |r.header| == |t.header|
    ensures t.rows != [] && t.header != [] ==>
      && r.header[0] == FirstColumnName(t.rows)
      && forall c :: 0 <= c < |t.header| ==>
           r.header[c] == if t.header[c] == t.header[0] then r.header[0] else t.header[c]
  {
    if t.rows == [] || t.header == [] then t
    else Table(Relabel(t.header, t.header[0], FirstColumnName(t.rows)), t.rows)
  }

  /** Renaming twice is renaming once: the data decides the name, and the data does not change. */
  lemma RenameIsIdempotent(t: Table)
    ensures RenameSpecialColumn(RenameSpecialColumn(t)) == RenameSpecialColumn(t)
  {
    var r := RenameSpecialColumn(t);
    if t.rows != [] && t.header != [] {
      var rr := RenameSpecialColumn(r);
      assert rr.header == r.header by {
        forall c | 0 <= c < |r.header| ensures rr.header[c] == r.header[c] {
        }
      }
    }
  }

  /** Renaming keeps the table's shape. */
  lemma RenameKeepsShape(t: Table)
    requires Shaped(t)
    ensures Shaped(RenameSpecialColumn(t))
  {
  }

  // ---------------------------------------------------------------- normaliser_chiffres_strict

  /** `convertir`: a missing or empty cell stays; otherwise `int(str(v).replace(' ', ''))`, or the cell when `int` raises. */
  function Coerce(c: Cell): Cell {
    if c.Missing? || c == Text("") then c
    else match ParseInt(Without(Str(c), ' '))
      case Some(n) => Num(n)
      case None => c
  }

  lemma IntToStringHasNoSpace(n: int)
    ensures ' ' !in IntToString(n)
  {
    var d := NatToString(if n < 0 then -n else n);
    assert forall k :: 0 <= k < |d| ==> IsDigit(d[k]);
    if n < 0 {
      assert IntToString(n) == "-" + d;
      assert forall k :: 0 <= k < |IntToString(n)| ==> IntToString(n)[k] != ' ';
    }
  }

  /** A number stays the same number: `int(str(n)) == n`. */
  lemma CoerceKeepsNumbers(n: int)
    ensures Coerce(Num(n)) == Num(n)
  {
    IntToStringHasNoSpace(n);
    ParseIntOfIntToString(n);
  }

  /** A cell is either left alone or becomes the integer its text, spaces removed, spells. */
  lemma CoerceOutcome(c: Cell)
    ensures c.Missing? || c == Text("") ==> Coerce(c) == c
    ensures c.Text? && c.text != "" ==>
      match ParseInt(Without(c.text, ' '))
      case Some(n) => Coerce(c) == Num(n)
      case None => Coerce(c) == c
    ensures c.Num? ==> Coerce(c) == c
  {
    if c.Num? {
      CoerceKeepsNumbers(c.value);
    }
  }

  lemma CoerceIsIdempotent(c: Cell)
    ensures Coerce(Coerce(c)) == Coerce(c)
  {
    if Coerce(c).Num? {
      CoerceKeepsNumbers(Coerce(c).value);
    }
  }

  function CoerceRow(row: Row): (r: Row)
    ensures |r| == |row|
    ensures forall k :: 0 <= k < |row| ==> r[k] == Coerce(row[k])
  {
    if row == [] then [] else [Coerce(row[0])] + CoerceRow(row[1..])
  }

  function CoerceRows(rows: seq<Row>): (r: seq<Row>)
    ensures |r| == |rows|
    ensures forall i :: 0 <= i < |rows| ==> r[i] == CoerceRow(rows[i])
  {
    if rows == [] then [] else [CoerceRow(rows[0])] + CoerceRows(rows[1..])
  }

  /** `normaliser_chiffres_strict`: `convertir` on every data cell; the labels stay. */
  function NormaliseNumbers(t: Table): Table {
    Table(t.header, CoerceRows(t.rows))
  }

  /** Same labels, same number of rows, each row as wide as before. */
  lemma NormaliseKeepsShape(t: Table)
    ensures NormaliseNumbers(t).header == t.header
    ensures |NormaliseNumbers(t).rows| == |t.rows|
    ensures forall i :: 0 <= i < |t.rows| ==> |NormaliseNumbers(t).rows[i]| == |t.rows[i]|
    ensures Shaped(t) ==> Shaped(NormaliseNumbers(t))
  {
  }

  lemma NormaliseIsIdempotent(t: Table)
    ensures NormaliseNumbers(NormaliseNumbers(t)) == NormaliseNumbers(t)
  {
    var once := NormaliseNumbers(t).rows;
    var twice := NormaliseNumbers(NormaliseNumbers(t)).rows;
    forall i | 0 <= i < |t.rows| ensures twice[i] == once[i] {
      forall k | 0 <= k < |t.rows[i]| ensures twice[i][k] == once[i][k] {
        CoerceIsIdempotent(t.rows[i][k]);
      }
    }
  }

  // ---------------------------------------------------------------- garantir_nom_unique

  /** `s.rfind(c)`: the last position of `c` in `s`, or -1. */
  function LastIndex(s: string, c: char): (i: int)
    ensures -1 <= i < |s|
    ensures i >= 0 ==> s[i] == c
    ensures forall k :: i < k < |s| ==> s[k] != c
  {
    if s == [] then -1
    else if s[|s| - 1] == c then |s| - 1
    else LastIndex(s[..|s| - 1], c)
  }

  /**
   * `os.path.splitext(p)` (POSIX): the extension runs from the last dot to the end, provided
   * that dot comes after the last slash and something other than dots precedes it in the
   * last path component; otherwise there is no extension.
   */
  function SplitExt(p: string): (parts: (string, string))
    ensures parts.0 + parts.1 == p
    ensures parts.1 == [] || (parts.1[0] == '.' && '/' !in parts.1 && '.' !in parts.1[1..])
  {
    var sep := LastIndex(p, '/');
    var dot := LastIndex(p, '.');
    if dot > sep && exists k :: sep + 1 <= k < dot && p[k] != '.' then
      assert forall k :: dot < k < |p| ==> p[k] != '/' && p[k] != '.';
      assert forall k :: 0 <= k < |p| - dot - 1 ==> p[dot..][1..][k] == p[dot + 1 + k];
      (p[..dot], p[dot..])
    else (p, "")
  }

  /**
   * A file name with a stem that is not all dots and an extension such as `.xlsx` splits
   * back into that stem and that extension.
   */
  lemma SplitExtOfStemAndExtension(stem: string, ext: string)
    requires '/' !in stem && exists k :: 0 <= k < |stem| && stem[k] != '.'
    requires |ext| >= 1 && ext[0] == '.' && '/' !in ext && '.' !in ext[1..]
    ensures SplitExt(stem + ext) == (stem, ext)
  {
    var p := stem + ext;
    var sep := LastIndex(p, '/');
    var dot := LastIndex(p, '.');
    assert p[|stem|] == '.';
    assert forall k :: |stem| < k < |p| ==> p[k] == ext[1..][k - |stem| - 1];
    assert dot == |stem|;
    assert sep == -1;
    var k :| 0 <= k < |stem| && stem[k] != '.';
    assert p[k] != '.';
    assert p[..dot] == stem && p[dot..] == ext;
  }

  /** The k-th name `garantir_nom_unique` tries: the base name itself, then `base_k + ext`. */
  function Candidate(nomBase: string, k: nat): string {
    if k == 0 then nomBase
    else
      var parts := SplitExt(nomBase);
      parts.0 + "_" + NatToString(k) + parts.1
  }

  /** Different tries give different names, so the loop never tries a name twice. */
  lemma CandidateInjective(nomBase: string, j: nat, k: nat)
    requires Candidate(nomBase, j) == Candidate(nomBase, k)
    ensures j == k
  {
    var parts := SplitExt(nomBase);
    var b, e := parts.0, parts.1;
    if j > 0 && k > 0 {
      var x := Candidate(nomBase, j);
      assert x == b + "_" + NatToString(j) + e;
      assert x == b + "_" + NatToString(k) + e;
      assert |NatToString(j)| == |NatToString(k)|;
      assert NatToString(j) == x[|b| + 1..|x| - |e|];
      assert NatToString(k) == x[|b| + 1..|x| - |e|];
      NatToStringInjective(j, k);
    }
  }

  /** The names tried before the k-th. */
  ghost function CandidatesBelow(nomBase: string, n: nat): set<string> {
    if n == 0 then {} else CandidatesBelow(nomBase, n - 1) + {Candidate(nomBase, n - 1)}
  }

  lemma {:induction false} NotYetTried(nomBase: string, n: nat, m: nat)
    requires n <= m
    ensures Candidate(nomBase, m) !in CandidatesBelow(nomBase, n)
  {
    if n > 0 {
      NotYetTried(nomBase, n - 1, m);
      if Candidate(nomBase, m) == Candidate(nomBase, n - 1) {
        CandidateInjective(nomBase, m, n - 1);
      }
    }
  }

  lemma {:induction false} SubsetIsNoLarger<T>(a: set<T>, b: set<T>)
    requires a <= b
    ensures |a| <= |b|
  {
    if a != {} {
      var x :| x in a;
      SubsetIsNoLarger(a - {x}, b - {x});
    }
  }

  /** `name` is the first of the tries the directory does not hold: every earlier try is taken. */
  ghost predicate FirstFree(nomBase: string, existing: set<string>, name: string) {
    exists k: nat :: name == Candidate(nomBase, k) && forall j :: 0 <= j < k ==> Candidate(nomBase, j) in existing
  }

  /** The tries below `n` are `n` different names. */
  lemma {:induction false} CandidatesBelowCount(nomBase: string, n: nat)
    ensures |CandidatesBelow(nomBase, n)| == n
  {
    if n > 0 {
      var prev, x := CandidatesBelow(nomBase, n - 1), Candidate(nomBase, n - 1);
      CandidatesBelowCount(nomBase, n - 1);
      NotYetTried(nomBase, n - 1, n - 1);
      assert CandidatesBelow(nomBase, n) == prev + {x} && x !in prev;
      assert |prev + {x}| == |prev| + 1;
    }
  }

  /** When every try below `n` is taken, all of them are in the directory. */
  lemma {:induction false} CandidatesBelowTaken(nomBase: string, existing: set<string>, n: nat)
    requires forall j :: 0 <= j < n ==> Candidate(nomBase, j) in existing
    ensures CandidatesBelow(nomBase, n) <= existing
  {
    if n > 0 {
      CandidatesBelowTaken(nomBase, existing, n - 1);
    }
  }

  /** A directory holding the first `n` tries holds at least `n` names. */
  lemma TakenTriesFitTheDirectory(nomBase: string, existing: set<string>, n: nat)
    requires forall j :: 0 <= j < n ==> Candidate(nomBase, j) in existing
    ensures n <= |existing|
  {
    CandidatesBelowTaken(nomBase, existing, n);
    CandidatesBelowCount(nomBase, n);
    SubsetIsNoLarger(CandidatesBelow(nomBase, n), existing);
  }

  /** A free k-th try after k taken ones is the first free one. */
  lemma FirstFreeAt(nomBase: string, existing: set<string>, k: nat)
    requires forall j :: 0 <= j < k ==> Candidate(nomBase, j) in existing
    ensures FirstFree(nomBase, existing, Candidate(nomBase, k))
  {
  }

  /** A directory holds finitely many names, so some try from the k-th on is free. */
  lemma {:induction false} SomeTryIsFree(nomBase: string, existing: set<string>, k: nat)
    requires forall j :: 0 <= j < k ==> Candidate(nomBase, j) in existing
    ensures exists name :: name !in existing && FirstFree(nomBase, existing, name)
    decreases |existing| - k
  {
    if Candidate(nomBase, k) !in existing {
      FirstFreeAt(nomBase, existing, k);
    } else {
      TakenTriesFitTheDirectory(nomBase, existing, k + 1);
      SomeTryIsFree(nomBase, existing, k + 1);
    }
  }

  /** The name `garantir_nom_unique` settles on: the first try the directory does not hold. */
  ghost function UniqueName(nomBase: string, existing: set<string>): (name: string)
    ensures name !in existing && FirstFree(nomBase, existing, name)
  {
    SomeTryIsFree(nomBase, existing, 0);
    var name :| name !in existing && FirstFree(nomBase, existing, name);
    name
  }

  /**
   * `garantir_nom_unique`: the base name when it is free, otherwise `base_k + ext` for the
   * smallest k >= 1 that is free; never a name the directory already holds.
   */
  method GuaranteeUniqueName(nomBase: string, existing: set<string>) returns (name: string)
    ensures name !in existing
    ensures nomBase !in existing ==> name == nomBase
    ensures FirstFree(nomBase, existing, name)
    ensures name == UniqueName(nomBase, existing)
  {
    var parts := SplitExt(nomBase);
    var base, ext := parts.0, parts.1;
    var counter: nat := 1;
    name := nomBase;
    ghost var tried: set<string> := {};
    while name in existing
      invariant counter >= 1 && name == Candidate(nomBase, counter - 1)
      invariant forall j :: 0 <= j < counter - 1 ==> Candidate(nomBase, j) in existing
      invariant tried == CandidatesBelow(nomBase, counter - 1) && tried <= existing
      decreases |existing| - |tried|
    {
      NotYetTried(nomBase, counter - 1, counter - 1);
      tried := tried + {name};
      SubsetIsNoLarger(tried, existing);
      name := base + "_" + NatToString(counter) + ext;
      counter := counter + 1;
    }
    assert FirstFree(nomBase, existing, name) by {
      var k: nat := counter - 1;
      assert name == Candidate(nomBase, k) && forall j :: 0 <= j < k ==> Candidate(nomBase, j) in existing;
    }
    FirstFreeNameIsUnique(nomBase, existing, name, UniqueName(nomBase, existing));
  }

  /** The contract above fixes the name: two names that both meet it are the same. */
  lemma FirstFreeNameIsUnique(nomBase: string, existing: set<string>, a: string, b: string)
    requires a !in existing && b !in existing
    requires FirstFree(nomBase, existing, a)
    requires FirstFree(nomBase, existing, b)
    ensures a == b
  {
    var ka: nat :| a == Candidate(nomBase, ka) && forall j :: 0 <= j < ka ==> Candidate(nomBase, j) in existing;
    var kb: nat :| b == Candidate(nomBase, kb) && forall j :: 0 <= j < kb ==> Candidate(nomBase, j) in existing;
  }

  // ---------------------------------------------------------------- process_ftusa_file

  /** The separator row, or row 0 when there is none (`ligne_nulle_idx = 0`). */
  function SeparatorOrFallback(rows: seq<Row>): (idx: nat)
    ensures idx == 0 || idx < |rows|
    ensures Detect(rows).NoSeparator? ==> idx == 0
    ensures Detect(rows).Separator? ==> idx == Detect(rows).index
  {
    match Detect(rows)
    case NoSeparator => 0
    case Separator(i, _) => i
  }

  /** The table `process_ftusa_file` writes for a frame it has read. */
  function FtusaTable(f: Frame): (t: Table)
    ensures Shaped(t)
  {
    var clean := CleanFrame(f.rows, SeparatorOrFallback(f.rows));
    CleanFrameIsShaped(f, SeparatorOrFallback(f.rows));
    NormaliseKeepsShape(RenameSpecialColumn(clean));
    NormaliseNumbers(RenameSpecialColumn(clean))
  }

  /** The name `process_ftusa_file` asks for before making it unique. */
  function FtusaName(f: Frame): string {
    ConformingName(f.rows, SeparatorOrFallback(f.rows))
  }

  /**
   * What `process_ftusa_file` returns for a walked file: when the file is there, reads and
   * writes, the table above under the first free name derived from its titles.
   */
  ghost function FtusaOutput(file: InputFile, existing: set<string>): Option<Written> {
    if file.present && file.grid.Some? && file.writable then
      Some(Written(UniqueName(FtusaName(file.grid.value), existing), FtusaTable(file.grid.value)))
    else None
  }

  /**
   * `process_ftusa_file`: for a file that exists, reads and saves, the table above under
   * the first free name derived from the titles; `None` for the `(False, None)` answer.
   */
  method ProcessFtusaFile(file: InputFile, existing: set<string>) returns (out: Option<Written>)
    ensures out.Some? <==> file.present && file.grid.Some? && file.writable
    ensures out.Some? ==> out.value.table == FtusaTable(file.grid.value)
    ensures out.Some? ==> out.value.name !in existing
    ensures out.Some? ==> FirstFree(FtusaName(file.grid.value), existing, out.value.name)
    ensures out.Some? ==> out.value.name == UniqueName(FtusaName(file.grid.value), existing)
    ensures out == FtusaOutput(file, existing)
  {
    if !file.present || file.grid.None? {
      return None;
    }
    var f := file.grid.value;
    var detected := DetectSeparatorAndTitle(f.rows);
    var idx := if detected.Separator? then detected.index else 0;
    assert idx == SeparatorOrFallback(f.rows);
    var nomBase := ConformingFileName(f.rows, idx);
    var nomFinal := GuaranteeUniqueName(nomBase, existing);
    var clean := CleanFrame(f.rows, idx);
    clean := RenameSpecialColumn(clean);
    var final := NormaliseNumbers(clean);
    assert final == FtusaTable(f);
    if !file.writable {
      return None;
    }
    return Some(Written(nomFinal, final));
  }

  // ---------------------------------------------------------------- main

  /** What `main` does with one `.xlsx` file, given the dictionary it loaded and the names the output directory holds. */
  ghost function FtusaVerdict(processed: map<string, Entry>, file: InputFile, existing: set<string>): Verdict {
    VerdictOf(NeedsProcessing(file.present, file.mtime, file.name, processed), FtusaOutput(file, existing))
  }

  /**
   * The verdict's cases: an unreadable logged time aborts, an up-to-date file is skipped,
   * and a file that needs processing is saved exactly when it is there, reads and writes,
   * under a name the directory does not hold yet.
   */
  lemma FtusaVerdictCases(processed: map<string, Entry>, file: InputFile, existing: set<string>)
    ensures var v := FtusaVerdict(processed, file, existing);
      && (v.Aborted? <==> NeedsProcessing(file.present, file.mtime, file.name, processed).Err?)
      && (v.Skipped? <==> NeedsProcessing(file.present, file.mtime, file.name, processed) == Ok(false))
      && (NeedsProcessing(file.present, file.mtime, file.name, processed) == Ok(true) ==>
           (v.Saved? <==> file.present && file.grid.Some? && file.writable))
      && (v.Saved? ==> v.written.table == FtusaTable(file.grid.value) && v.written.name !in existing)
  {
  }

  /** The names the output directory holds once verdict `v` is carried out. */
  function Holding(outputs: set<string>, v: Verdict): set<string> {
    if v.Saved? then outputs + {v.written.name} else outputs
  }

  /**
   * `main`'s loop from progress `p`, with the output directory holding `outputs`: files that
   * are not `.xlsx` are passed over, each save adds its name, and an abort ends the run.
   */
  ghost function FtusaRun(processed: map<string, Entry>, p: Progress, outputs: set<string>, files: seq<InputFile>)
    : (Progress, set<string>)
    decreases |files|
  {
    if files == [] then (p, outputs)
    else if p.aborted || !IsWorkbookName(files[0].name) then FtusaRun(processed, p, outputs, files[1..])
    else
      var v := FtusaVerdict(processed, files[0], outputs);
      FtusaRun(processed, Advanced(p, files[0], v), Holding(outputs, v), files[1..])
  }

  /** After an abort nothing changes any more. */
  lemma {:induction false} FtusaRunStopsAtAbort(processed: map<string, Entry>, p: Progress, outputs: set<string>, files: seq<InputFile>)
    requires p.aborted
    ensures FtusaRun(processed, p, outputs, files) == (p, outputs)
    decreases |files|
  {
    if files != [] {
      FtusaRunStopsAtAbort(processed, p, outputs, files[1..]);
    }
  }

  /** The run keeps the counters balanced and only appends to the log. */
  lemma {:induction false} FtusaRunIsBalanced(processed: map<string, Entry>, p: Progress, outputs: set<string>, files: seq<InputFile>)
    requires Balanced(p)
    ensures Balanced(FtusaRun(processed, p, outputs, files).0)
    ensures p.log <= FtusaRun(processed, p, outputs, files).0.log
    decreases |files|
  {
    if files != [] {
      if p.aborted || !IsWorkbookName(files[0].name) {
        FtusaRunIsBalanced(processed, p, outputs, files[1..]);
      } else {
        var v := FtusaVerdict(processed, files[0], outputs);
        AdvancedIsBalanced(p, files[0], v);
        FtusaRunIsBalanced(processed, Advanced(p, files[0], v), Holding(outputs, v), files[1..]);
      }
    }
  }

  /** Until an abort, the run counts every `.xlsx` file it walks. */
  lemma {:induction false} FtusaRunCountsWorkbooks(processed: map<string, Entry>, p: Progress, outputs: set<string>, files: seq<InputFile>)
    requires !p.aborted
    ensures var r := FtusaRun(processed, p, outputs, files).0;
      !r.aborted ==> r.counters.total == p.counters.total + WorkbookCount(files)
    decreases |files|
  {
    if files != [] {
      if !IsWorkbookName(files[0].name) {
        FtusaRunCountsWorkbooks(processed, p, outputs, files[1..]);
      } else {
        var v := FtusaVerdict(processed, files[0], outputs);
        var next := Advanced(p, files[0], v);
        if next.aborted {
          FtusaRunStopsAtAbort(processed, next, Holding(outputs, v), files[1..]);
        } else {
          FtusaRunCountsWorkbooks(processed, next, Holding(outputs, v), files[1..]);
        }
      }
    }
  }

  /** Each save adds a name the directory did not hold, so no output is overwritten. */
  lemma {:induction false} FtusaRunAddsFreshNames(processed: map<string, Entry>, p: Progress, outputs: set<string>, files: seq<InputFile>)
    ensures var r := FtusaRun(processed, p, outputs, files);
      && outputs <= r.1
      && p.counters.succeeded <= r.0.counters.succeeded
      && |r.1| == |outputs| + (r.0.counters.succeeded - p.counters.succeeded)
    decreases |files|
  {
    if files != [] {
      if p.aborted || !IsWorkbookName(files[0].name) {
        FtusaRunAddsFreshNames(processed, p, outputs, files[1..]);
      } else {
        var v := FtusaVerdict(processed, files[0], outputs);
        FtusaVerdictCases(processed, files[0], outputs);
        FtusaRunAddsFreshNames(processed, Advanced(p, files[0], v), Holding(outputs, v), files[1..]);
      }
    }
  }

  /**
   * One turn of `main`'s loop: an unreadable logged time aborts the run, a file that needs
   * no processing is skipped, and otherwise the attempt is cleaned and logged.
   */
  method HandleFtusaFile(log: LogFile, processed: map<string, Entry>, file: InputFile, existing: set<string>)
    returns (v: Verdict)
    modifies log
    ensures v == FtusaVerdict(processed, file, existing)
    ensures log.content == old(log.content) + VerdictLine(file, v)
  {
    var decision := NeedsProcessing(file.present, file.mtime, file.name, processed);
    if decision.Err? {
      return Aborted;
    }
    if !decision.value {
      return Skipped;
    }
    v := AttemptFtusaFile(log, file, existing);
  }

  /** The body of the loop once the file needs processing: process it, then log the attempt. */
  method AttemptFtusaFile(log: LogFile, file: InputFile, existing: set<string>) returns (v: Verdict)
    modifies log
    ensures v == VerdictOf(Ok(true), FtusaOutput(file, existing))
    ensures log.content == old(log.content) + VerdictLine(file, v)
  {
    var out := ProcessFtusaFile(file, existing);
    ghost var before := log.content;
    if out.Some? {
      log.Log(file.name, SuccessStatus, Some(out.value.name), file.clock);
      AppendIsAssociative(before, FormatLine(file.name, SuccessStatus, file.clock, Some(out.value.name)), "\n");
      v := Saved(out.value);
    } else {
      log.Log(file.name, FailedStatus, None, file.clock);
      AppendIsAssociative(before, FormatLine(file.name, FailedStatus, file.clock, None), "\n");
      v := Failed;
    }
  }

  /**
   * `main`'s loop over the walked files: the counters, the log and the output directory end
   * as the run above says, so every `.xlsx` file is counted once and is skipped, saved or
   * failed; each save adds a name the output directory did not hold; the log only grows.
   */
  method RunFtusa(log: LogFile, files: seq<InputFile>, existing: set<string>)
    returns (c: Counters, aborted: bool, outputs: set<string>)
    modifies log
    ensures (Progress(c, aborted, log.content), outputs)
         == FtusaRun(ProcessedFiles(old(log.content)), Start(old(log.content)), existing, files)
    ensures !aborted ==> c.total == WorkbookCount(files)
    ensures c.total == c.succeeded + c.skipped + c.failed + (if aborted then 1 else 0)
    ensures existing <= outputs && |outputs| == |existing| + c.succeeded
    ensures old(log.content) <= log.content
  {
    var processed := log.LoadProcessed();
    ghost var start := Start(log.content);
    ghost var goal := FtusaRun(processed, start, existing, files);
    c := Counters(0, 0, 0, 0);
    aborted := false;
    outputs := existing;
    for i := 0 to |files|
      invariant !aborted
      invariant FtusaRun(processed, Progress(c, false, log.content), outputs, files[i..]) == goal
    {
      var file := files[i];
      assert files[i..][0] == file && files[i..][1..] == files[i + 1..];
      ghost var before := Progress(c, false, log.content);
      if IsWorkbookName(file.name) {
        c := c.(total := c.total + 1);
        ghost var held := outputs;
        var v := HandleFtusaFile(log, processed, file, outputs);
        match v {
          case Aborted => aborted := true;
          case Skipped => c := c.(skipped := c.skipped + 1);
          case Saved(w) =>
            outputs := outputs + {w.name};
            c := c.(succeeded := c.succeeded + 1);
          case Failed => c := c.(failed := c.failed + 1);
        }
        assert c == Tallied(before.counters, v);
        assert aborted == v.Aborted? && outputs == Holding(held, v);
        assert Progress(c, aborted, log.content) == Advanced(before, file, v);
        if aborted {
          FtusaRunStopsAtAbort(processed, Advanced(before, file, v), outputs, files[i + 1..]);
          break;
        }
      }
    }
    FtusaRunIsBalanced(processed, start, existing, files);
    FtusaRunCountsWorkbooks(processed, start, existing, files);
    FtusaRunAddsFreshNames(processed, start, existing, files);
  }
}
