# Table-layout cleaners for CGA and FTUSA reports

This project models the two table-cleaning scripts of the insurance-statistics pipeline.

- `table_layout_mod_CGA_FINAL.py` cleans tables extracted from CGA reports.
- `table_layout_mod_FTUSA.py` cleans tables extracted from FTUSA reports.

Each script turns one raw extracted grid into a cleaned table with one header row. Both share an append-only processing log that decides whether an input is cleaned again. Each also has a `main` loop that walks the input directory and keeps four counters.

The model is split into modules:

- `Optional` (`optional.dfy`): `Option` and `Result`.
- `Strings` (`strings.dfy`): the Python string operations the scripts use.
  - `strip`, `split()`, `split(sep)`, `join`, `lower`, `in` and slicing.
  - The two `re.sub` substitutions.
  - `str(int)` and `int(str)`.
  - Whitespace is the `str.isspace` set.
- `Cells` (`cells.dfy`): the data model.
  - A cell is `Missing`, `Text` or `Num`, and `str(NaN)` is `"nan"`.
  - A pandas frame is a rectangular grid with an explicit width.
  - A cleaned table is a header plus data rows.
- `Ledger` (`ledger.dfy`): the processing log.
  - The `LogFile` class holds the log text. `Log` appends to it, and `LoadProcessed` fills the dictionary line by line.
  - Reading the log back, and `needs_processing`.
  - The walked input files and the counters.
- `CgaCleaner` (`cga.dfy`): `clean_filename`, steps 1 to 5 of `process_cga_file`, and `main`'s loop.
- `FtusaCleaner` (`ftusa.dfy`): the FTUSA functions, `process_ftusa_file`, and `main`'s loop.
  - Separator and anchor detection, the title scan and file name, and `clean_text`.
  - `nettoyer_dataframe`, `renommer_colonne_speciale`, `normaliser_chiffres_strict` and `garantir_nom_unique`.

Code that works step by step is modelled as methods, each proved equal to a specification function or to the property it promises:

- the scans with early returns;
- the backward title loop;
- the header-merging loops;
- the unique-name loop;
- the log's dictionary loop;
- the two `main` loops.

The properties are proved about the specification functions.

The file system is abstracted. Each walked file carries:

- whether it exists;
- its modification time in whole seconds;
- the grid `read_excel` yields, or none when reading raises;
- whether writing succeeds;
- the clock reading when its log line is written.

The FTUSA output directory is the set of names it holds.

Three behaviours of the code shape the model:

- `needs_processing` compares the input's modification time with the latest logged time, whatever the status on that line. A file whose last attempt FAILED is therefore retried only after it is modified again.
- An unreadable timestamp in the log makes `needs_processing` raise outside any `try`. The run stops there (`Aborted`) rather than failing just that one file.
- In the CGA cleaner, the sanitised title name (`new_name`) is computed but never used. The output is always named `clean_filename(filename)`.

## Model

| member | source | states |
|---|---|---|
| Strings.StripIsSlice | table_layout_mod_CGA_FINAL.py:71 | `Strip`: `strip()` leaves a contiguous slice of its input |
| Strings.StripTrims | table_layout_mod_CGA_FINAL.py:71 | what `strip()` leaves neither begins nor ends with whitespace |
| Strings.StripRemovesOnlySpace | table_layout_mod_CGA_FINAL.py:71 | `strip()` removes only whitespace: every character before and after the slice it keeps is whitespace |
| Strings.WordPrefixIsMaximal | table_layout_mod_CGA_FINAL.py:99 | `Words`: the leading word `split()` takes holds no whitespace and stops at whitespace or the end |
| Strings.WordsAreWords | table_layout_mod_CGA_FINAL.py:99 | `Words` (`split()`): every piece is non-empty and holds no whitespace |
| Strings.DropIllegal | table_layout_mod_CGA_FINAL.py:72 | no character of `\ / * ? : " < > \|` is left, and text without one is returned as it is |
| Strings.DropIllegalKeepsTheRest | table_layout_mod_CGA_FINAL.py:72 | every other character is kept, as many times as it occurred |
| Strings.DropIllegalKeepsOrder | table_layout_mod_CGA_FINAL.py:72 | the characters kept stay in their order |
| Strings.CollapseSpaces | table_layout_mod_CGA_FINAL.py:73 | `re.sub(r'\s+', rep, t)`: non-empty text gives non-empty text, and a text that starts with a non-whitespace character keeps it first |
| Strings.CollapsedCharacters | table_layout_mod_CGA_FINAL.py:73 | every character of the result is the replacement or a non-whitespace character of the input |
| Strings.CollapsedHasNoDoubleReplacement | table_layout_mod_CGA_FINAL.py:73 | a whitespace replacement never appears twice in a row |
| Strings.CollapseKeepsSpaceless | table_layout_mod_CGA_FINAL.py:73 | text without whitespace is unchanged |
| Strings.CollapseIsRunsReplaced | table_layout_mod_CGA_FINAL.py:73 | the substitution equals the independent definition `RunsReplaced`: the words of the text joined by one replacement, with one more replacement for a leading and for a trailing whitespace run |
| Strings.Take | table_layout_mod_CGA_FINAL.py:74 | `text[:100]` is the prefix of exactly `min(len(text), 100)` characters |
| Strings.SplitThenJoin | table_layout_mod_CGA_FINAL.py:34 | the pieces of `split(sep)` hold no separator, and joining them with it gives the line back |
| Strings.Without | table_layout_mod_FTUSA.py:124 | `replace(' ', '')` leaves no space, and text without one is unchanged |
| Strings.WithoutKeepsTheRest | table_layout_mod_FTUSA.py:124 | `replace(' ', '')` keeps every other character as many times as it occurred |
| Strings.WithoutKeepsOrder | table_layout_mod_FTUSA.py:124 | the characters kept stay in their order |
| Strings.ParseIntOfIntToString | table_layout_mod_FTUSA.py:124 | `ParseInt` (`int()`): `int(str(i)) == i` for every integer |
| Ledger.CollectedIffMentioned | table_layout_mod_CGA_FINAL.py:27-41 | `ProcessedFiles` (`get_processed_files`): a file name is in the dictionary exactly when some log line is about it |
| Ledger.LastRecordWins | table_layout_mod_CGA_FINAL.py:27-41 | the entry the dictionary holds for a file is the one of the last log line about it |
| Ledger.SplitFourFields | table_layout_mod_CGA_FINAL.py:34 | a line of four `\|`-free fields splits into exactly those fields |
| Ledger.FormattedLineParses | table_layout_mod_CGA_FINAL.py:27-47 | `ParseLine` reads back what `FormatLine` writes: a line written by `log_processing` with `\|`-free fields parses back to its file name, status, timestamp and `output_file or ''` |
| Ledger.ReadLinesAfterAppend | table_layout_mod_CGA_FINAL.py:46-47 | `ReadLines` (`readlines()`): appending a line and its newline to the log adds exactly that line to `readlines()` |
| Ledger.LoggedEntryIsRead | table_layout_mod_CGA_FINAL.py:27-47 | after `log_processing(f, s, o)`, the dictionary maps `f` to `(s, t, o or '')` and leaves every other entry as it was |
| Ledger.NeedsProcessing | table_layout_mod_CGA_FINAL.py:49-67 | a missing input is not processed; an unlogged one is; the decision fails exactly when the logged time cannot be read |
| Ledger.DecisionAfterLogging | table_layout_mod_CGA_FINAL.py:49-67 | once an attempt is logged at time t, the file is processed again exactly when its mtime is later than t, whatever the status |
| Ledger.LogFile.Open | table_layout_mod_CGA_FINAL.py:23-25 | a missing log starts out holding the header line only |
| Ledger.LogFile.Log | table_layout_mod_CGA_FINAL.py:43-47 | the log gains exactly one formatted line, and nothing before it changes |
| Ledger.LogFile.LoadProcessed | table_layout_mod_CGA_FINAL.py:27-41 | the dictionary filled line by line is the one `ProcessedFiles` reads from the log |
| Ledger.AdvancedIsBalanced | table_layout_mod_CGA_FINAL.py:177-198 | counting one more `.xlsx` file as skipped, processed or failed keeps total = processed + skipped + failed |
| CgaCleaner.CleanFilenameIsClean | table_layout_mod_CGA_FINAL.py:69-74 | `CleanFilename` (`clean_filename`): a cleaned name has at most 100 characters, no illegal character and no whitespace |
| CgaCleaner.CleanNameIsFixed | table_layout_mod_CGA_FINAL.py:69-74 | a name that is already clean is returned unchanged |
| CgaCleaner.CleanFilenameIdempotent | table_layout_mod_CGA_FINAL.py:69-74 | cleaning a cleaned name changes nothing |
| CgaCleaner.DropAnnexeRows | table_layout_mod_CGA_FINAL.py:90-92 | with `MentionsAnnexe` the `contains("annexe")` test on each cell's lower-cased `str`: no remaining row has a cell whose lower-cased text contains "annexe", and every remaining row comes from the grid |
| CgaCleaner.DropAnnexeRowsKeepsTheRest | table_layout_mod_CGA_FINAL.py:90-92 | every other row survives, as many times as it occurred |
| CgaCleaner.DropAnnexeRowsKeepsOrder | table_layout_mod_CGA_FINAL.py:90-92 | the kept rows stay in their order |
| CgaCleaner.WordCountOfConcat | table_layout_mod_CGA_FINAL.py:95-100 | `WordCount` (`count_words`) is additive over the cells of a row, each text cell counting the words `strip().split()` gives it and every other cell none |
| CgaCleaner.CountWords | table_layout_mod_CGA_FINAL.py:95-100 | the loop that gathers each text cell's words returns `WordCount` |
| CgaCleaner.TruncateAtProse | table_layout_mod_CGA_FINAL.py:94-105 | the kept rows are a prefix of the rows |
| CgaCleaner.TruncateAtFirstProse | table_layout_mod_CGA_FINAL.py:94-105 | that prefix is exactly the rows before the first row with more than 15 words in its text cells, or all rows when there is none |
| CgaCleaner.NormalisedRowsKeepWidth | table_layout_mod_CGA_FINAL.py:90-105 | the filtered rows keep the frame's width |
| CgaCleaner.HeaderRowCount | table_layout_mod_CGA_FINAL.py:119-130 | at most three header rows; rows 0 and 1 are used whenever present; row 2 is used exactly when fewer than `width // 2` of its cells contain a digit |
| CgaCleaner.HeaderCellText | table_layout_mod_CGA_FINAL.py:136-138 | a stripped header cell is empty or has no whitespace at either end |
| CgaCleaner.ColumnTexts | table_layout_mod_CGA_FINAL.py:135-138 | one stripped text per header row, each empty or trimmed |
| CgaCleaner.NonBlank | table_layout_mod_CGA_FINAL.py:138 | every part kept is non-empty and comes from the column's texts |
| CgaCleaner.JoinKeepsEnds | table_layout_mod_CGA_FINAL.py:139 | joining trimmed parts with spaces gives text that is empty or trimmed |
| CgaCleaner.SpacedNonBlankIsJoin | table_layout_mod_CGA_FINAL.py:134-139 | the space-join of the non-blank parts is the non-blank texts read top to bottom with one space between each two |
| CgaCleaner.LabelIsColumnLabel | table_layout_mod_CGA_FINAL.py:134-139 | the label `" ".join(parts).strip()` is that spaced text; the final `strip()` removes nothing |
| CgaCleaner.FlattenHeader | table_layout_mod_CGA_FINAL.py:132-139 | the merged header has exactly one label per column of the frame |
| CgaCleaner.FlattenHeaderLabels | table_layout_mod_CGA_FINAL.py:132-139 | label `col` of the merged header is column `col`'s label |
| CgaCleaner.MissingCellText | table_layout_mod_CGA_FINAL.py:136-138 | `Str` (`str(cell)`): a missing header cell reads as "nan" |
| CgaCleaner.MissingHeaderCellShowsAsNan | table_layout_mod_CGA_FINAL.py:136-138 | a missing header cell puts "nan" into its column's label |
| CgaCleaner.SkipLeadingRows | table_layout_mod_CGA_FINAL.py:107-117 | fails exactly when row 0 is missing, before or after a one-cell title row is dropped; otherwise the rows left are exactly the rows after the title row (when row 0 is one) and after an exact `(M.D)` units row (when the next row is one) |
| CgaCleaner.SplitHeader | table_layout_mod_CGA_FINAL.py:119-144 | one label per column, and the data is the rows after the header rows, in order |
| CgaCleaner.ShapeTable | table_layout_mod_CGA_FINAL.py:107-144 | steps 3 to 5: fails exactly as row 0 inspection does; otherwise one label per column, with the data a suffix of the rows and at most five rows consumed |
| CgaCleaner.CleanCga | table_layout_mod_CGA_FINAL.py:90-144 | the cleaned table: none exactly when row 0 cannot be inspected; otherwise one label per column, every data row that wide, and the data a suffix of the filtered rows |
| CgaCleaner.TitleTextIsDiscarded | table_layout_mod_CGA_FINAL.py:108-113 | what a title row says has no effect on the table |
| CgaCleaner.CleanCgaFrame | table_layout_mod_CGA_FINAL.py:90-144 | reassigning the rows step by step yields `CleanCga` |
| CgaCleaner.MergeHeader | table_layout_mod_CGA_FINAL.py:119-144 | the two loops together yield `SplitHeader`: the merged labels, then the rows after the header |
| CgaCleaner.CollectHeaderRows | table_layout_mod_CGA_FINAL.py:119-130 | the `for offset` loop with its two `break`s collects exactly `HeaderRowCount` leading rows |
| CgaCleaner.MergeLabels | table_layout_mod_CGA_FINAL.py:132-140 | the `for col` loop yields `FlattenHeader`, one label per column |
| CgaCleaner.ProcessCgaFile | table_layout_mod_CGA_FINAL.py:76-162 | succeeds exactly when the file exists, reads, has a row 0 to inspect and writes; it then writes exactly `CleanCga` of the grid, under `clean_filename(filename)` |
| CgaCleaner.CgaVerdictCases | table_layout_mod_CGA_FINAL.py:183-198 | an unreadable logged time aborts; a file `needs_processing` rejects is skipped; a file that needs processing is saved exactly when it exists, reads, has a row 0 to inspect and writes, under `clean_filename` and with the `CleanCga` table |
| CgaCleaner.AttemptCgaFile | table_layout_mod_CGA_FINAL.py:188-198 | a file that needs processing is saved or failed as `process_cga_file` answers, and exactly one SUCCESS or FAILED line is logged |
| CgaCleaner.HandleCgaFile | table_layout_mod_CGA_FINAL.py:183-198 | the turn's verdict is `CgaVerdict` (abort, skip, save or fail, see `CgaVerdictCases`), and the log gains exactly that verdict's line: SUCCESS with the output name, FAILED, or nothing for a skip |
| CgaCleaner.RunCga | table_layout_mod_CGA_FINAL.py:169-198 | the counters, the abort flag and the log text are exactly those `CgaRun` computes from the dictionary read at start-up; hence every `.xlsx` file is counted once, total = processed + skipped + failed (+1 for the file an abort stopped at), and the log only grows |
| CgaCleaner.CgaRunStopsAtAbort | table_layout_mod_CGA_FINAL.py:183 | once `needs_processing` has raised, nothing more is counted or logged |
| CgaCleaner.CgaRunIsBalanced | table_layout_mod_CGA_FINAL.py:177-198 | the run keeps total = processed + skipped + failed (+1 for an abort) and only appends to the log |
| CgaCleaner.CgaRunCountsWorkbooks | table_layout_mod_CGA_FINAL.py:177-180 | a run that does not abort counts exactly the walked names ending in `.xlsx`, in any case |
| FtusaCleaner.FirstNonBlank | table_layout_mod_FTUSA.py:63-66 | the position of the first non-blank cell, with every cell before it blank |
| FtusaCleaner.SeparatorFrom | table_layout_mod_FTUSA.py:60-61 | the first row whose cells are all blank under `est_vide`, or none when no row is |
| FtusaCleaner.AnchorRow | table_layout_mod_FTUSA.py:62-65 | the nearest earlier row with exactly one non-blank cell, or none when no row has one |
| FtusaCleaner.AnchorIsTheOnlyNonBlankCell | table_layout_mod_FTUSA.py:63-67 | in that row every other cell is blank, so the anchor is the one non-blank cell and its column label |
| FtusaCleaner.FindAnchorAbove | table_layout_mod_FTUSA.py:62-67 | the backward scan with its early return yields the anchor of the nearest one-cell row above the separator, or none |
| FtusaCleaner.DetectSeparatorAndTitle | table_layout_mod_FTUSA.py:57-69 | the forward scan with its early return answers `Detect`: separator index and anchor, or `(None, None, None)` |
| FtusaCleaner.BlankCells | table_layout_mod_FTUSA.py:58-59 | `IsBlank` (`est_vide`): a missing cell and whitespace-only text are blank; nothing longer than three characters once stripped is |
| FtusaCleaner.OneOfIsMembership | table_layout_mod_FTUSA.py:59 | `OneOf` is membership in the list of blank forms |
| FtusaCleaner.TitleParts | table_layout_mod_FTUSA.py:77-79 | every text a row contributes is non-blank once stripped |
| FtusaCleaner.KeptFromIsExact | table_layout_mod_FTUSA.py:77-79 | `KeptFrom` lists, in increasing order, exactly the positions of the cells the title scan keeps: present, not `''`, not blank once stripped |
| FtusaCleaner.TitlePartsAreTheKeptCells | table_layout_mod_FTUSA.py:77-79 | the title parts are the `str` texts of exactly those kept cells, one each, left to right |
| FtusaCleaner.NothingShownNoParts | table_layout_mod_FTUSA.py:77-79 | a row with no present, non-empty cell contributes no text |
| FtusaCleaner.Scanned | table_layout_mod_FTUSA.py:75 | the scan reads `min(idx, 3)` rows |
| FtusaCleaner.FirstNonEmpty | table_layout_mod_FTUSA.py:80-81 | "" exactly when every text is empty; otherwise the text at some position with only empty texts before it, that is the nearest non-empty one |
| FtusaCleaner.FirstOther | table_layout_mod_FTUSA.py:82-83 | "" exactly when every text is empty or the main title; otherwise a text other than the main title at some position with only empty texts or the main title before it |
| FtusaCleaner.FoldKeepsFullTitles | table_layout_mod_FTUSA.py:80-83 | once both titles are set, later rows change nothing |
| FtusaCleaner.FoldFindsSubTitle | table_layout_mod_FTUSA.py:80-83 | with the main title set, the sub-title becomes the first later text that differs from it |
| FtusaCleaner.TitlesAreNearest | table_layout_mod_FTUSA.py:75-83 | the main title is the nearest non-empty row text; the sub-title is the nearest non-empty one that differs from it |
| FtusaCleaner.CollapsedIsSingleSpaced | table_layout_mod_FTUSA.py:85-86 | after the two substitutions no illegal character is left and whitespace is single spaces only |
| FtusaCleaner.CleanTextIsClean | table_layout_mod_FTUSA.py:84-87 | `clean_text` yields at most 100 characters: no illegal character, no leading space, single spaces only |
| FtusaCleaner.NameIsWorkbook | table_layout_mod_FTUSA.py:88-95 | `NameFor` / `ConformingName`: every name has a non-empty stem and ends in ".xlsx" |
| FtusaCleaner.NameAtRowZero | table_layout_mod_FTUSA.py:88-95 | with the separator on row 0 the name is "Donnees.xlsx" |
| FtusaCleaner.ScannedReadsOnlyItsRows | table_layout_mod_FTUSA.py:75-76 | the scan reads rows `lo` to `hi - 1` and nothing else |
| FtusaCleaner.NameReadsOnlyThreeRows | table_layout_mod_FTUSA.py:71-95 | the name depends only on rows `idx - 1` down to `max(0, idx - 3)` |
| FtusaCleaner.ConformingFileName | table_layout_mod_FTUSA.py:71-95 | the backward loop that updates the two titles yields `ConformingName` |
| FtusaCleaner.HeaderOf | table_layout_mod_FTUSA.py:102-104 | one label per cell of the header row: its `str` form, stripped |
| FtusaCleaner.CleanFrame | table_layout_mod_FTUSA.py:97-105 | an empty table when no row follows the separator; otherwise the header is row `idx + 1` stringified and stripped, and the data is the `len - idx - 2` rows after it, in order |
| FtusaCleaner.CleanFrameIsShaped | table_layout_mod_FTUSA.py:97-105 | every data row is as wide as the header |
| FtusaCleaner.Relabel | table_layout_mod_FTUSA.py:117 | every label equal to the old one becomes the new one, and every other label stays |
| FtusaCleaner.RenameSpecialColumn | table_layout_mod_FTUSA.py:107-117 | an empty table is unchanged; otherwise column 0, and every column sharing its label, becomes "Compagnie d'assurance" exactly when one of its first 50 stripped values is STAR, MAGHREBIA or GAT, and "indicateur" otherwise; other labels and all cells stay |
| FtusaCleaner.RenameIsIdempotent | table_layout_mod_FTUSA.py:107-117 | renaming twice is renaming once |
| FtusaCleaner.RenameKeepsShape | table_layout_mod_FTUSA.py:117 | renaming keeps the table's shape |
| FtusaCleaner.CoerceOutcome | table_layout_mod_FTUSA.py:120-126 | `Coerce` (`convertir`): missing and empty cells stay; a text whose space-free form is an integer literal becomes that integer; every other cell stays |
| FtusaCleaner.CoerceKeepsNumbers | table_layout_mod_FTUSA.py:124 | a number is left as the same number |
| FtusaCleaner.CoerceIsIdempotent | table_layout_mod_FTUSA.py:120-126 | converting a converted cell changes nothing |
| FtusaCleaner.CoerceRow | table_layout_mod_FTUSA.py:127 | each cell of a row is converted in place |
| FtusaCleaner.CoerceRows | table_layout_mod_FTUSA.py:127 | each row is converted, and their number stays |
| FtusaCleaner.NormaliseKeepsShape | table_layout_mod_FTUSA.py:119-127 | `NormaliseNumbers` (`normaliser_chiffres_strict`): same labels, same number of rows, each row as wide as before |
| FtusaCleaner.NormaliseIsIdempotent | table_layout_mod_FTUSA.py:119-127 | normalising twice is normalising once |
| FtusaCleaner.LastIndex | table_layout_mod_FTUSA.py:130 | `rfind`: the last position of the character, or -1 |
| FtusaCleaner.SplitExt | table_layout_mod_FTUSA.py:130 | `splitext`: base + extension is the name, and the extension is empty or one final dot-suffix |
| FtusaCleaner.SplitExtOfStemAndExtension | table_layout_mod_FTUSA.py:130 | a name made of a stem that is not all dots and has no `/`, and an extension such as `.xlsx`, splits back into that stem and that extension |
| FtusaCleaner.CandidateInjective | table_layout_mod_FTUSA.py:133-135 | the names the loop tries are pairwise different |
| FtusaCleaner.GuaranteeUniqueName | table_layout_mod_FTUSA.py:129-136 | the base name when it is free; otherwise `base_k + ext` for the smallest k >= 1 that is free; never an existing name; this is exactly `UniqueName` |
| FtusaCleaner.FirstFreeNameIsUnique | table_layout_mod_FTUSA.py:129-136 | that contract determines the name |
| FtusaCleaner.SomeTryIsFree | table_layout_mod_FTUSA.py:133-135 | the directory holds finitely many names, so the `while` loop finds a free one |
| FtusaCleaner.UniqueName | table_layout_mod_FTUSA.py:129-136 | the name the loop settles on: not in the directory, and the first free try |
| FtusaCleaner.SeparatorOrFallback | table_layout_mod_FTUSA.py:147-150 | the detected separator's index when there is one, and 0 when there is none |
| FtusaCleaner.FtusaTable | table_layout_mod_FTUSA.py:147-155 | the cleaned table is rectangular |
| FtusaCleaner.ProcessFtusaFile | table_layout_mod_FTUSA.py:138-165 | succeeds exactly when the file exists, reads and writes; it then writes `FtusaTable` of the grid under `UniqueName` of the name the titles give, a name the directory does not hold; its answer is `FtusaOutput` |
| FtusaCleaner.FtusaVerdictCases | table_layout_mod_FTUSA.py:182-195 | an unreadable logged time aborts; a file `needs_processing` rejects is skipped; a file that needs processing is saved exactly when it exists, reads and writes, with the `FtusaTable` table under a name the directory does not hold |
| FtusaCleaner.AttemptFtusaFile | table_layout_mod_FTUSA.py:187-195 | a file that needs processing is saved or failed as `process_ftusa_file` answers, and exactly one SUCCESS or FAILED line is logged |
| FtusaCleaner.HandleFtusaFile | table_layout_mod_FTUSA.py:182-195 | the turn's verdict is `FtusaVerdict` (abort, skip, save or fail, see `FtusaVerdictCases`), and the log gains exactly that verdict's line |
| FtusaCleaner.RunFtusa | table_layout_mod_FTUSA.py:171-195 | the counters, the abort flag, the log text and the output directory are exactly those `FtusaRun` computes; hence every `.xlsx` file is counted once, total = processed + skipped + failed (+1 for an abort), each save adds one name the directory did not hold, and the log only grows |
| FtusaCleaner.FtusaRunStopsAtAbort | table_layout_mod_FTUSA.py:182 | once `needs_processing` has raised, nothing more is counted, logged or written |
| FtusaCleaner.FtusaRunIsBalanced | table_layout_mod_FTUSA.py:177-195 | the run keeps total = processed + skipped + failed (+1 for an abort) and only appends to the log |
| FtusaCleaner.FtusaRunCountsWorkbooks | table_layout_mod_FTUSA.py:177-180 | a run that does not abort counts exactly the walked names ending in `.xlsx`, in any case |
| FtusaCleaner.FtusaRunAddsFreshNames | table_layout_mod_FTUSA.py:187-191 | the output directory only grows, by one name it did not hold per save, so no earlier output is overwritten |

## Left out

- Reading and writing spreadsheets (`pandas`, `openpyxl`), `os.path.exists`, `os.path.getmtime`, `os.makedirs` and `os.walk` are left out. They become fields of each walked file and the order of the file sequence.
- Console output (`print`) is left out.
- Float cells and float formatting are left out. A numeric cell is an integer.
- Case conversion in the model is ASCII only. Python's Unicode lower-casing cannot produce "annexe", "nan", a dash or ".xlsx" from any other characters.
- Unicode digits are left out. `\d` and `int()` also accept digits from other scripts; the model accepts ASCII digits only.
- `Ledger.NeedsProcessing`: logged times are decimal seconds rather than `%Y-%m-%d %H:%M:%S` text. Modification times are whole seconds. `strptime`, `strftime` and sub-second times are left out.
- `Ledger.ReadLines`: `readlines()` splits at `\n` only. Universal-newline handling of `\r` is left out.
- `setup_directories` and `get_processed_files` check whether the log exists. That check becomes the argument of `Ledger.LogFile.Open`.
- The listing of output files after each `main` loop only prints a count, so it is left out.
- `generer_nom_fichier_conforme` and `nettoyer_dataframe` accept `None` as the index. `process_ftusa_file` never passes it, because of the fallback to row 0, so the model takes a natural number.
- `FtusaCleaner.SplitExt` follows POSIX `splitext`. The Windows form also splits at a backslash, but generated names never contain one.
- `FtusaCleaner.GuaranteeUniqueName` looks at the directory as it is when the call starts. Other processes writing into it concurrently are left out.
- The scraping and download script, the orchestration pipeline and the two PDF table-extraction scripts are left out. They are network, subprocess and PDF-library code.
- `script_remplissage_complet_final.py` (the dimensional loader) is not part of this model.
