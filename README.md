# csv_TAB-TO-XLSX, modelled in Dafny

`csv_TAB-TO-XLSX.py` converts a comma- or tab-separated text file into an
`.xlsx` workbook. The user picks an input file and an output file in dialogs. A
locked output is resolved through a Yes/No/Cancel loop. The script picks the
delimiter from the first line of the input and parses the rows. It then writes
every trimmed field as a cell, the header row in bold and every other row as text,
and sizes each column to its widest value plus two, capped at fifty.

The model has six modules:

- `Whitespace` (`whitespace.dfy`): Python's `str.isspace` and `str.strip()`,
  which the cell pass applies to every field.
- `Delimiter` (`delimiter.dfy`): `detect_delimiter`. It models `readline` on a
  file opened with `newline=''` (a line ends at LF, CR or CR LF), `str.count`,
  the tab-versus-comma choice and the fallback to comma on any read error.
- `CellPass` (`cellpass.dfy`): the write loop and the column sizing, as a class
  `Converter` whose fields are what the loop mutates. These are the calls made to
  the worksheet, the `col_widths` dictionary, its key order and the `set_column`
  calls. The methods are proved against specification functions (`Writes`,
  `WidthsOf`, `Settings`). Lemmas prove that `col_widths` ends as the column
  maxima, that its keys come out as `0, 1, 2, ...`, and what width every column
  gets.
- `OutputNames` (`outputnames.dfy`): `os.path.basename` (Posix and Windows
  flavours) and `os.path.splitext(...)[0]`, plus the two names the save dialogs
  suggest.
- `LockedFile` (`lockedfile.dfy`): `handle_locked_file`. It is a loop over the
  user's answers, proved equal to a recursive specification. The lemmas say which
  round decides and what each kind of ending implies.
- `Script` (`script.dfy`): the top-level flow. It covers every early exit, the
  second read of the input and the worksheet produced.

The dialogs, the lock probe, the file system and `csv.reader` are parameters of
the model:

- `inputPath`: the path the open dialog returned.
- `outputDialog`: the first save dialog.
- `answers` and `saveDialog`: the Yes/No/Cancel answers and the save dialog of
  each round.
- `locked(n, p)`: the result of the `n`-th lock probe of path `p`.
- `read(p)`: the contents of file `p`, or a failure.
- `parse(text, delimiter)`: the rows `csv.reader` makes of `text`.

Points of the code a reader might not expect:

- When the save dialog inside `handle_locked_file` is cancelled, the script
  exits (lines 41-43). It does not ask again.
- Row 0 is written with the generic `worksheet.write` (line 142), not with
  `write_string`. The model records which call wrote each cell.
- `handle_locked_file` never reassigns `output_file`. A retry after a locked
  save-as choice probes the original path again, and every save dialog suggests
  the original's stem plus `_new.xlsx` (lines 28, 34).
- The lock question (lines 18-25) and the success notice (lines 161-165) are
  message boxes. The no-input, no-output, empty-input and exit messages, and the
  delimiter fallback notice (line 63), are printed to the console.

## Model

| member | source | states |
|---|---|---|
| Whitespace.TrimStartDropsLeadingSpace | csv_TAB-TO-XLSX.py:138 | Trimming the front removes a run of whitespace characters and stops at the first character that is not whitespace. |
| Whitespace.TrimEndDropsTrailingSpace | csv_TAB-TO-XLSX.py:138 | Trimming the back removes a run of whitespace characters and stops at the last character that is not whitespace. |
| Whitespace.StripRemovesSurroundingSpace | csv_TAB-TO-XLSX.py:138 | `strip()` yields a window of the field with only whitespace around it and no whitespace at either of its ends. |
| Whitespace.StripIsTrim | csv_TAB-TO-XLSX.py:138 | Any window with those properties equals `strip()`'s result, so strip removes exactly the surrounding whitespace. |
| Whitespace.StripKeepsTrimmedText | csv_TAB-TO-XLSX.py:138 | A field with no whitespace at its ends is written verbatim ("007" stays "007"). |
| Whitespace.IsSpace | csv_TAB-TO-XLSX.py:138 | The characters `str.isspace` accepts, which `strip()` removes. Its meaning is fixed by the `Strip` lemmas above. |
| Whitespace.Strip | csv_TAB-TO-XLSX.py:138 | `cell.strip()`. The lemmas above characterise it: exactly the surrounding whitespace is removed. |
| Delimiter.Occurrences | csv_TAB-TO-XLSX.py:54-55 | `count` of one character equals its multiplicity in the string. |
| Delimiter.FirstLine | csv_TAB-TO-XLSX.py:51-52 | `readline` returns a prefix of the file text. |
| Delimiter.FirstLineEndsAtFirstTerminator | csv_TAB-TO-XLSX.py:51-52 | The line holds no LF or CR before its end. It ends in a terminator unless it is the whole text. CR LF is kept as a pair and never split. |
| Delimiter.FirstLineSkipsText | csv_TAB-TO-XLSX.py:51-52 | Text without terminators passes into the first line unchanged. |
| Delimiter.DetectDelimiter | csv_TAB-TO-XLSX.py:48-64 | The result is comma or tab. It is tab if and only if the file was read and its first line has strictly more tabs than commas. It is comma on a tie and on any read error. |
| Delimiter.OnlyFirstLineMatters | csv_TAB-TO-XLSX.py:50-61 | Nothing after the first line terminator changes the choice. |
| Delimiter.SingleLineChoice | csv_TAB-TO-XLSX.py:52-61 | For a text without a terminator, the choice compares the tab and comma counts of the whole text. |
| Delimiter.NoTabPicksComma | csv_TAB-TO-XLSX.py:52-61 | A first line without a tab picks comma, whatever follows. |
| Delimiter.TabWithoutCommaPicksTab | csv_TAB-TO-XLSX.py:52-59 | A first line with a tab and no comma picks tab, whatever follows. |
| Delimiter.CommaHeaderExample | csv_TAB-TO-XLSX.py:58-61 | A file starting `a,b,c` then LF picks comma, whatever follows. |
| Delimiter.TabHeaderExample | csv_TAB-TO-XLSX.py:58-59 | A file starting `x<TAB>y<TAB>z` then LF picks tab, whatever follows. |
| CellPass.MaxRowLength | csv_TAB-TO-XLSX.py:137 | The number of columns is the length of the longest row: an upper bound on every row that some row attains. |
| CellPass.ColumnWidth | csv_TAB-TO-XLSX.py:153-154 | The width is `min(widest + 2, 50)`: at most 50, at most widest + 2, equal to one of them, and at least 2. |
| CellPass.CellFor | csv_TAB-TO-XLSX.py:138-144 | The write for field (r, c) goes to (r, c) with the stripped value. The bold format and the generic `write` are used exactly when r is 0. |
| CellPass.Writes | csv_TAB-TO-XLSX.py:136-144 | The writes of the whole pass, row by row. `WriteOfCell`, `CellOfWrite` and `NoDuplicateWrites` characterise it as one write per field, in row-major order. |
| CellPass.Widen | csv_TAB-TO-XLSX.py:146-149 | One update of `col_widths`: the column gains a key if new, its entry becomes the larger of the old entry and the new width, and every other entry is unchanged. |
| CellPass.WidthsOf | csv_TAB-TO-XLSX.py:146-149 | `col_widths` after a sequence of writes. `WidthsOfIsMax` characterises it as the per-column maximum. |
| CellPass.Settings | csv_TAB-TO-XLSX.py:152-155 | One `set_column(c, c, w)` per listed column, in the listed order, with `w` between 2 and 50. |
| CellPass.WritesLength | csv_TAB-TO-XLSX.py:136-137 | The pass makes one write per field. |
| CellPass.PositionsAreRowMajor | csv_TAB-TO-XLSX.py:136-137 | Cells are visited row by row, left to right. |
| CellPass.WriteOfCell | csv_TAB-TO-XLSX.py:136-144 | Every field (r, c) is written at its row-major position. The write goes to (r, c) with the trimmed value, through `write` in bold on row 0 and through `write_string` as text elsewhere. |
| CellPass.CellOfWrite | csv_TAB-TO-XLSX.py:136-144 | Every write is the write of some field, made at that field's row-major position, so nothing else reaches the worksheet. |
| CellPass.NoDuplicateWrites | csv_TAB-TO-XLSX.py:136-144 | Two different writes of the pass go to two different cells, so each field is written exactly once. |
| CellPass.WrittenValuesAreTrimmedFields | csv_TAB-TO-XLSX.py:138-144 | Every written value is its field stripped. The format is bold and the call is the generic `write` exactly on row 0. |
| CellPass.RowStep | csv_TAB-TO-XLSX.py:137-149 | One field of the inner loop keeps the row invariant: writes so far, `col_widths` built from them, keys inserted as 0, 1, 2, .... |
| CellPass.WidthsOfIsMax | csv_TAB-TO-XLSX.py:146-149 | After any prefix of the writes, `col_widths` holds for each column the greatest written length, attained by some write. |
| CellPass.MaxOverLogStep | csv_TAB-TO-XLSX.py:147-149 | One update of `col_widths` preserves that property. |
| CellPass.LogMaxIsColumnMax | csv_TAB-TO-XLSX.py:133-149 | The maximum over the writes of the whole pass is the per-column maximum of the trimmed field lengths over all rows. |
| CellPass.MaxWidthsUnique | csv_TAB-TO-XLSX.py:133-149 | The column maxima of given rows form exactly one map. |
| CellPass.PassComputesColumnMaxima | csv_TAB-TO-XLSX.py:133-149 | The pass leaves `col_widths` equal to the column maxima. Its keys are exactly the columns some row has. |
| CellPass.InsertionOrderIsAscending | csv_TAB-TO-XLSX.py:148-152 | The keys of `col_widths`, in insertion order, are `0 .. longest row - 1`, each once. |
| CellPass.EveryColumnHasWidth | csv_TAB-TO-XLSX.py:146-152 | Every column up to the longest row has an entry in `col_widths` after the pass. |
| CellPass.WorksheetColumns | csv_TAB-TO-XLSX.py:151-155 | Each column up to the longest row gets one `set_column(c, c, w)`, in order. `w` is `min(2 + widest trimmed value in column c, 50)`. |
| CellPass.EvenColumns | csv_TAB-TO-XLSX.py:151-155 | If all trimmed fields have the same length, all columns get the same width. |
| CellPass.HeaderAndRowExample | csv_TAB-TO-XLSX.py:136-155 | The rows `a,b,c` and `1,2,3` give three columns of width 3. |
| CellPass.Converter.constructor | csv_TAB-TO-XLSX.py:133 | A fresh converter has made no writes and holds an empty `col_widths`. |
| CellPass.Converter.WriteRows | csv_TAB-TO-XLSX.py:135-149 | The nested loop makes exactly the writes of the pass. It leaves `col_widths` equal to the column maxima, with key order `0 .. longest row - 1`, and leaves the column settings alone. |
| CellPass.Converter.WriteRow | csv_TAB-TO-XLSX.py:137-149 | The inner loop appends one row's writes and keeps `col_widths` equal to the maximum over all writes so far. |
| CellPass.Converter.WriteCell | csv_TAB-TO-XLSX.py:138-149 | One field: append its trimmed write with the row's call and format, raise its column's entry in `col_widths`, and record the key's first insertion. |
| CellPass.Converter.SizeColumns | csv_TAB-TO-XLSX.py:151-155 | It issues one `set_column` per key in insertion order, with the capped width, and changes nothing else. |
| OutputNames.Basename | csv_TAB-TO-XLSX.py:88 | The basename is a suffix of the path and contains no separator. |
| OutputNames.Stem | csv_TAB-TO-XLSX.py:89 | The stem is a prefix of the name. |
| OutputNames.SuggestedName | csv_TAB-TO-XLSX.py:88-89 | The first suggestion is a bare file name, with no separator, ending in `.xlsx`. |
| OutputNames.AlternativeName | csv_TAB-TO-XLSX.py:34 | The save-as suggestion is a bare file name, with no separator, ending in `_new.xlsx`. |
| OutputNames.BasenameAfterDirectory | csv_TAB-TO-XLSX.py:88 | `basename(dir + name)` is `name` when `dir` ends in a separator and `name` has none. |
| OutputNames.BasenameOfBareName | csv_TAB-TO-XLSX.py:88 | A name without separators is its own basename, except a Windows name whose second character is `:`. |
| OutputNames.DriveRelativeName | csv_TAB-TO-XLSX.py:88 | On Windows, `basename("C:" + name)` is `name`. |
| OutputNames.StemCutsAtLastDot | csv_TAB-TO-XLSX.py:89 | The stem differs from the name if and only if some dot follows a non-dot character. Then the cut is at the last dot. |
| OutputNames.StemDropsExtension | csv_TAB-TO-XLSX.py:89 | `splitext(stem + "." + ext)[0]` is `stem` when `stem` is not all dots and `ext` has no dot. |
| OutputNames.StemOfNameWithoutExtension | csv_TAB-TO-XLSX.py:89 | Names such as `README` or `.bashrc` keep their whole name. |
| OutputNames.SuggestionReplacesExtension | csv_TAB-TO-XLSX.py:88-89 | The first suggested output for `dir/stem.ext` is `stem.xlsx`. |
| OutputNames.AlternativeKeepsStem | csv_TAB-TO-XLSX.py:34 | The save-as suggestion for a locked `dir/stem.ext` is `stem_new.xlsx`. |
| LockedFile.Round | csv_TAB-TO-XLSX.py:18-46 | One round. A path it settles on is free at the round's check: the original after Yes, the save dialog's non-empty choice after No. It exits exactly on Cancel or a cancelled save dialog. It goes on exactly when the retried path or the chosen path is still locked. |
| LockedFile.Resolve | csv_TAB-TO-XLSX.py:17-46 | The loop from a given round on. `ResolveIsFirstDecision` characterises it as the outcome of the first deciding round. |
| LockedFile.AskOnce | csv_TAB-TO-XLSX.py:18-46 | One round acts on the answer exactly as `Round` says. A path it returns was free at that round's check. |
| LockedFile.HandleLockedFile | csv_TAB-TO-XLSX.py:15-46 | The loop's result equals the recursive specification. If it ends, it ends in the first round that decides, and `asked` counts the questions shown. |
| LockedFile.ResolveIsFirstDecision | csv_TAB-TO-XLSX.py:17-46 | The outcome is that of the first deciding round. It is undecided if and only if every round goes on. |
| LockedFile.ResolvedPathIsFree | csv_TAB-TO-XLSX.py:27-40 | A returned path was not locked at its round's check. It is the original path (Yes) or what that round's save dialog returned when it suggested the original's `_new.xlsx` name (No). |
| LockedFile.ExitMeansCancelled | csv_TAB-TO-XLSX.py:41-46 | An exit comes only from Cancel or from No followed by a cancelled save dialog. |
| LockedFile.LockedChoicesKeepAsking | csv_TAB-TO-XLSX.py:27-39 | Retrying a still-locked file, or choosing locked names, never ends the loop. |
| Script.Destination | csv_TAB-TO-XLSX.py:105-107 | The path the workbook goes to: the output itself when free, otherwise the result of `handle_locked_file`. `DestinationIsFree` states what it promises. |
| Script.DestinationIsFree | csv_TAB-TO-XLSX.py:105-107 | The workbook's path was free at the last lock check made of it. |
| Script.Run | csv_TAB-TO-XLSX.py:76-158 | The run ends by case. No input selected, then no output selected. Then the lock loop exits or is undecided. Then the input is unreadable at the second read, or it parses to no rows. Otherwise the worksheet for the rows is saved at the resolved path. |

## Left out

- Tk setup, the change of working directory, `root.destroy()`, the console
  messages and `sys.exit` (lines 66-73 and the exit paths) are not modelled. Each
  exit is a distinct `Outcome` value instead.
- `is_file_locked` (lines 7-13) is the oracle `locked(n, path)`. Opening in
  append mode also creates a missing file; that side effect is not modelled.
- `csv.reader` (lines 114-115) is the parameter `parse`. Quoting, embedded
  newlines and blank lines are up to it.
- Within xlsxwriter, the workbook options, formats, `close()` and its errors
  (lines 123-130, 158) are not modelled. For row 0 the model records that the
  generic `write` was called, but not how `write` dispatches its value
  (formulas for `=`, URLs, blank for ""). The truncation of strings longer than
  32767 characters and the sheet's row and column limits are not modelled.
- UTF-8 decoding is not modelled: `read(path)` yields the whole text or a failure.
  A decoding error past the first buffered chunk would let `detect_delimiter`
  succeed while the second read fails. The model gives the second read the same
  failure as the first, so that case ends as `InputUnreadable` either way.
- LockedFile.HandleLockedFile: the source loop waits for answers for ever. The
  model runs over a finite sequence of answers and reports `Unanswered` when they
  run out.
- OutputNames.Basename: Windows UNC share roots (`\\server\share`) are not
  modelled. There `ntpath` treats the whole root as a drive.
- Script.Run: `parse` always returns rows, although `csv.reader` raises
  `csv.Error` at line 115, for example on a field longer than
  `csv.field_size_limit()`, and the script then stops with that exception. `read`
  gives the same result at line 51 and at line 113, so a file that changes or
  disappears between the two reads is not modelled. The `Saved` and `EmptyInput`
  outcomes therefore include runs on which the program would crash.
