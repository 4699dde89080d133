/** The cell-writing pass and the column sizing of the converter: every field is
    trimmed and written to the worksheet, the header row in bold and every other row
    as text, while `col_widths` keeps the widest trimmed value of each column; each
    column is then given the width `min(widest + 2, 50)`.  The worksheet is represented
    by the calls made to it, in order. */
module CellPass {
  import opened Whitespace

  /** The two formats the workbook defines: `{'bold': True}` for the header row and
      `{'num_format': '@'}` ("store as text") for every other row. */
  datatype Format = BoldHeader | TextFormat

  /** The worksheet call that wrote a cell: the generic `write`, which chooses a writer
      from the value, or `write_string`. */
  datatype WriteCall = GenericWrite | StringWrite

  /** One cell write: call, zero-based row and column, value, format. */
  datatype CellWrite = CellWrite(call: WriteCall, row: nat, col: nat, value: string, format: Format)

  /** One `set_column(first, last, width)` call. */
  datatype ColumnSetting = ColumnSetting(first: nat, last: nat, width: nat)

  /** The parsed input: rows of fields, possibly of different lengths. */
  type Rows = seq<seq<string>>

  const MAX_COLUMN_WIDTH: nat := 50
  const WIDTH_PADDING: nat := 2

  /** The write issued for the field at (row, col). */
  function CellFor(row: nat, col: nat, field: string): (w: CellWrite)
    ensures w.row == row && w.col == col && w.value == Strip(field)
    ensures w.format == BoldHeader <==> row == 0
    ensures w.call == GenericWrite <==> row == 0
  {
    if row == 0 then CellWrite(GenericWrite, row, col, Strip(field), BoldHeader)
    else CellWrite(StringWrite, row, col, Strip(field), TextFormat)
  }

  /** The writes for one row, left to right. */
  function RowWrites(row: nat, fields: seq<string>): seq<CellWrite> {
    seq(|fields|, j requires 0 <= j < |fields| => CellFor(row, j, fields[j]))
  }

  /** The writes of the whole pass, row by row. */
  function Writes(rows: Rows): seq<CellWrite> {
    if rows == [] then [] else Writes(rows[..|rows| - 1]) + RowWrites(|rows| - 1, rows[|rows| - 1])
  }

  /** The number of fields in all rows. */
  function CellCount(rows: Rows): nat {
    if rows == [] then 0 else CellCount(rows[..|rows| - 1]) + |rows[|rows| - 1]|
  }

  /** The place of cell (r, c) in row-major order. */
  function Position(rows: Rows, r: nat, c: nat): nat
    requires r <= |rows|
  {
    CellCount(rows[..r]) + c
  }

  /** Some row has a column `c`. */
  ghost predicate HasColumn(rows: Rows, c: nat) {
    exists r :: 0 <= r < |rows| && c < |rows[r]|
  }

  /** The length of the longest row. */
  function MaxRowLength(rows: Rows): (n: nat)
    ensures forall r | 0 <= r < |rows| :: |rows[r]| <= n
    ensures rows != [] ==> exists r :: 0 <= r < |rows| && |rows[r]| == n
    ensures rows == [] ==> n == 0
  {
    if rows == [] then 0
    else
      var init := rows[..|rows| - 1];
      var m := MaxRowLength(init);
      assert forall r | 0 <= r < |init| :: rows[r] == init[r];
      if |rows[|rows| - 1]| > m then |rows[|rows| - 1]| else m
  }

  /** `widths` is what `col_widths` must hold after a pass over `rows`: a key for exactly
      the columns some row has, and for each the greatest trimmed length in it. */
  ghost predicate MaxWidths(widths: map<nat, nat>, rows: Rows) {
    && (forall c: nat :: c in widths <==> HasColumn(rows, c))
    && (forall r, c | 0 <= r < |rows| && 0 <= c < |rows[r]| :: c in widths && |Strip(rows[r][c])| <= widths[c])
    && (forall c | c in widths :: exists r :: 0 <= r < |rows| && c < |rows[r]| && widths[c] == |Strip(rows[r][c])|)
  }

  /** `widths` holds, per column, the greatest value length among the writes in `log`
      (the state of `col_widths` after the cells visited so far). */
  ghost predicate MaxOverLog(widths: map<nat, nat>, log: seq<CellWrite>) {
    LogKeys(widths, log) && LogBound(widths, log) && LogAttained(widths, log)
  }

  /** The keys are the columns written to. */
  ghost predicate LogKeys(widths: map<nat, nat>, log: seq<CellWrite>) {
    forall c: nat :: c in widths <==> exists k :: 0 <= k < |log| && log[k].col == c
  }

  /** Every written value fits its column's entry. */
  ghost predicate LogBound(widths: map<nat, nat>, log: seq<CellWrite>) {
    forall k | 0 <= k < |log| :: log[k].col in widths && |log[k].value| <= widths[log[k].col]
  }

  /** Every entry is the length of some value written to its column. */
  ghost predicate LogAttained(widths: map<nat, nat>, log: seq<CellWrite>) {
    forall c | c in widths :: exists k :: 0 <= k < |log| && log[k].col == c && widths[c] == |log[k].value|
  }

  /** `0, 1, ..., n - 1`. */
  function Ascending(n: nat): seq<nat> {
    seq(n, i requires 0 <= i < n => i as nat)
  }

  /** The width a column is given: its widest value plus two, capped at fifty. */
  function ColumnWidth(widest: nat): (w: nat)
    ensures w <= MAX_COLUMN_WIDTH && w <= widest + WIDTH_PADDING
    ensures w == MAX_COLUMN_WIDTH || w == widest + WIDTH_PADDING
    ensures WIDTH_PADDING <= w
  {
    var adjusted := widest + WIDTH_PADDING;
    if adjusted < MAX_COLUMN_WIDTH then adjusted else MAX_COLUMN_WIDTH
  }

  /** The `set_column` calls for the columns in `order`. */
  function Settings(order: seq<nat>, widths: map<nat, nat>): (settings: seq<ColumnSetting>)
    requires forall i | 0 <= i < |order| :: order[i] in widths
    ensures |settings| == |order|
    ensures forall i | 0 <= i < |settings| ::
      && settings[i].first == settings[i].last == order[i]
      && WIDTH_PADDING <= settings[i].width <= MAX_COLUMN_WIDTH
  {
    seq(|order|, i requires 0 <= i < |order| => ColumnSetting(order[i], order[i], ColumnWidth(widths[order[i]])))
  }

  lemma {:induction false} WritesLength(rows: Rows)
    ensures |Writes(rows)| == CellCount(rows)
  {
    if rows != [] {
      WritesLength(rows[..|rows| - 1]);
    }
  }

  /** Adding rows never lowers the count of cells before a row. */
  lemma {:induction false} CellCountGrows(rows: Rows, r: nat, s: nat)
    requires r <= s <= |rows|
    ensures CellCount(rows[..r]) <= CellCount(rows[..s])
  {
    if r < s {
      CellCountGrows(rows, r, s - 1);
      assert rows[..s][..s - 1] == rows[..s - 1];
    }
  }

  /** Cells are numbered row by row, left to right: a cell before another in that
      order has the smaller position. */
  lemma PositionsAreRowMajor(rows: Rows, r: nat, c: nat, r2: nat, c2: nat)
    requires r < |rows| && c < |rows[r]| && r2 < |rows| && c2 < |rows[r2]|
    requires r < r2 || (r == r2 && c < c2)
    ensures Position(rows, r, c) < Position(rows, r2, c2)
  {
    if r < r2 {
      CellCountGrows(rows, r + 1, r2);
      assert rows[..r + 1][..r] == rows[..r];
    }
  }

  /** Each cell is written, once, at its row-major position, with its trimmed value,
      bold through `write` in row 0 and as text through `write_string` elsewhere. */
  lemma {:induction false} WriteOfCell(rows: Rows, r: nat, c: nat)
    requires r < |rows| && c < |rows[r]|
    ensures |Writes(rows)| == CellCount(rows)
    ensures Position(rows, r, c) < |Writes(rows)|
    ensures Writes(rows)[Position(rows, r, c)] == CellFor(r, c, rows[r][c])
  {
    var n := |rows| - 1;
    var init := rows[..n];
    WritesLength(init);
    WritesLength(rows);
    if r == n {
      assert init == rows[..r];
    } else {
      assert init[..r] == rows[..r];
      WriteOfCell(init, r, c);
    }
  }

  /** Every write is the write of some cell, made at that cell's row-major position:
      nothing else reaches the worksheet. */
  lemma {:induction false} CellOfWrite(rows: Rows, k: nat)
    requires k < |Writes(rows)|
    ensures var w := Writes(rows)[k];
      && w.row < |rows| && w.col < |rows[w.row]|
      && w == CellFor(w.row, w.col, rows[w.row][w.col])
      && Position(rows, w.row, w.col) == k
  {
    var n := |rows| - 1;
    var init := rows[..n];
    if k < |Writes(init)| {
      CellOfWrite(init, k);
      var w := Writes(rows)[k];
      WritesLength(init);
      assert rows[..w.row] == init[..w.row];
    } else {
      assert rows[..n] == init;
      WritesLength(init);
    }
  }

  /** No cell is written twice: two different writes go to different cells. */
  lemma NoDuplicateWrites(rows: Rows, k1: nat, k2: nat)
    requires k1 < k2 < |Writes(rows)|
    ensures (Writes(rows)[k1].row, Writes(rows)[k1].col) != (Writes(rows)[k2].row, Writes(rows)[k2].col)
  {
    CellOfWrite(rows, k1);
    CellOfWrite(rows, k2);
  }

  /** Every written value is its field with the surrounding whitespace removed, and the
      format is bold exactly on row 0. */
  lemma WrittenValuesAreTrimmedFields(rows: Rows, k: nat)
    requires k < |Writes(rows)|
    ensures var w := Writes(rows)[k];
      && w.row < |rows| && w.col < |rows[w.row]|
      && w.value == Strip(rows[w.row][w.col])
      && (w.format == BoldHeader <==> w.row == 0)
      && (w.call == GenericWrite <==> w.row == 0)
  {
    CellOfWrite(rows, k);
  }

  /** The state of `col_widths` after one more cell. */
  function Widen(widths: map<nat, nat>, col: nat, width: nat): (r: map<nat, nat>)
    ensures r.Keys == widths.Keys + {col}
    ensures width <= r[col] && (col in widths ==> widths[col] <= r[col])
    ensures r[col] == width || (col in widths && r[col] == widths[col])
    ensures forall c | c in widths && c != col :: r[c] == widths[c]
  {
    if col !in widths || width > widths[col] then widths[col := width] else widths
  }

  /** `col_widths` as built from the writes in `log`, one cell after the other. */
  function WidthsOf(log: seq<CellWrite>): map<nat, nat> {
    if log == [] then map[]
    else
      var last := log[|log| - 1];
      Widen(WidthsOf(log[..|log| - 1]), last.col, |last.value|)
  }

  lemma WidthsOfAppend(log: seq<CellWrite>, w: CellWrite)
    ensures WidthsOf(log + [w]) == Widen(WidthsOf(log), w.col, |w.value|)
  {
    assert (log + [w])[..|log|] == log;
  }

  lemma RowWritesAppend(row: nat, fields: seq<string>, c: nat)
    requires c < |fields|
    ensures RowWrites(row, fields[..c + 1]) == RowWrites(row, fields[..c]) + [CellFor(row, c, fields[c])]
  {
  }

  lemma AscendingAppend(n: nat)
    ensures Ascending(n) + [n] == Ascending(n + 1)
  {
  }

  /** The state of the inner loop after the first `c` fields of row `r`: the writes
      so far are those before the row plus the row's first `c`, `col_widths` is built
      from them, and its keys, in insertion order, are `0, 1, 2, ...`, covering at
      least the first `c` columns. */
  ghost predicate RowInvariant(start: seq<CellWrite>, writes: seq<CellWrite>, widths: map<nat, nat>, order: seq<nat>,
                               r: nat, row: seq<string>, c: nat) {
    && c <= |row|
    && writes == start + RowWrites(r, row[..c])
    && widths == WidthsOf(writes)
    && order == Ascending(|order|) && c <= |order|
    && (forall j: nat :: j in widths <==> j < |order|)
  }

  /** One field of the inner loop keeps `RowInvariant`. */
  lemma RowStep(start: seq<CellWrite>, writes: seq<CellWrite>, widths: map<nat, nat>, order: seq<nat>,
                r: nat, row: seq<string>, c: nat)
    requires RowInvariant(start, writes, widths, order, r, row, c) && c < |row|
    ensures var cell := CellFor(r, c, row[c]);
      RowInvariant(start, writes + [cell], Widen(widths, c, |cell.value|),
                   if c in widths then order else order + [c], r, row, c + 1)
  {
    var cell := CellFor(r, c, row[c]);
    RowWritesAppend(r, row, c);
    assert writes + [cell] == start + RowWrites(r, row[..c + 1]);
    WidthsOfAppend(writes, cell);
    OrderStep(widths, order, c, |cell.value|);
  }

  /** Widening column `c` adds `c` to the keys of `col_widths` and appends it to their
      insertion order when it is new; the keys stay `0 .. |order| - 1`. */
  lemma OrderStep(widths: map<nat, nat>, order: seq<nat>, c: nat, width: nat)
    requires order == Ascending(|order|) && c <= |order|
    requires forall j: nat :: j in widths <==> j < |order|
    ensures var order' := if c in widths then order else order + [c];
      && order' == Ascending(|order'|) && c + 1 <= |order'|
      && (forall j: nat :: j in Widen(widths, c, width) <==> j < |order'|)
  {
    if c !in widths {
      assert c == |order|;
      AscendingAppend(c);
    }
  }

  /** After any number of cells, `col_widths` holds the maximum over the cells visited. */
  lemma {:induction false} WidthsOfIsMax(log: seq<CellWrite>)
    ensures MaxOverLog(WidthsOf(log), log)
  {
    if log != [] {
      var init := log[..|log| - 1];
      WidthsOfIsMax(init);
      MaxOverLogStep(WidthsOf(init), init, log[|log| - 1]);
      assert init + [log[|log| - 1]] == log;
    }
  }

  /** One step of the pass keeps `col_widths` the maximum over the cells visited. */
  lemma MaxOverLogStep(widths: map<nat, nat>, log: seq<CellWrite>, w: CellWrite)
    requires MaxOverLog(widths, log)
    ensures MaxOverLog(Widen(widths, w.col, |w.value|), log + [w])
  {
    LogKeysStep(widths, log, w);
    LogBoundStep(widths, log, w);
    LogAttainedStep(widths, log, w);
  }

  lemma LogKeysStep(widths: map<nat, nat>, log: seq<CellWrite>, w: CellWrite)
    requires LogKeys(widths, log)
    ensures LogKeys(Widen(widths, w.col, |w.value|), log + [w])
  {
    var widths' := Widen(widths, w.col, |w.value|);
    var log' := log + [w];
    assert log'[|log|] == w;
    forall c: nat
      ensures c in widths' <==> exists k :: 0 <= k < |log'| && log'[k].col == c
    {
      if c in widths && c != w.col {
        var k :| 0 <= k < |log| && log[k].col == c;
        assert log'[k] == log[k];
      }
      if c != w.col && exists k :: 0 <= k < |log'| && log'[k].col == c {
        var k :| 0 <= k < |log'| && log'[k].col == c;
        assert log[k] == log'[k];
      }
    }
  }

  lemma LogBoundStep(widths: map<nat, nat>, log: seq<CellWrite>, w: CellWrite)
    requires LogBound(widths, log)
    ensures LogBound(Widen(widths, w.col, |w.value|), log + [w])
  {
    var log' := log + [w];
    forall k | 0 <= k < |log'|
      ensures log'[k].col in Widen(widths, w.col, |w.value|)
      ensures |log'[k].value| <= Widen(widths, w.col, |w.value|)[log'[k].col]
    {
      if k < |log| {
        assert log'[k] == log[k];
      }
    }
  }

  lemma LogAttainedStep(widths: map<nat, nat>, log: seq<CellWrite>, w: CellWrite)
    requires LogAttained(widths, log)
    ensures LogAttained(Widen(widths, w.col, |w.value|), log + [w])
  {
    var widths' := Widen(widths, w.col, |w.value|);
    var log' := log + [w];
    assert log'[|log|] == w;
    forall c | c in widths'
      ensures exists k :: 0 <= k < |log'| && log'[k].col == c && widths'[c] == |log'[k].value|
    {
      if c != w.col || widths'[c] != |w.value| {
        var k :| 0 <= k < |log| && log[k].col == c && widths[c] == |log[k].value|;
        assert log'[k] == log[k];
      }
    }
  }

  /** The maximum over the writes of the whole pass is the maximum over the rows. */
  lemma LogMaxIsColumnMax(rows: Rows, widths: map<nat, nat>)
    requires MaxOverLog(widths, Writes(rows))
    ensures MaxWidths(widths, rows)
  {
    forall c: nat
      ensures c in widths <==> HasColumn(rows, c)
    {
      LogKeyIsColumn(rows, widths, c);
    }
    forall r, c | 0 <= r < |rows| && 0 <= c < |rows[r]|
      ensures c in widths && |Strip(rows[r][c])| <= widths[c]
    {
      WriteOfCell(rows, r, c);
    }
    forall c | c in widths
      ensures exists r :: 0 <= r < |rows| && c < |rows[r]| && widths[c] == |Strip(rows[r][c])|
    {
      LogMaxIsAttained(rows, widths, c);
    }
  }

  lemma LogKeyIsColumn(rows: Rows, widths: map<nat, nat>, c: nat)
    requires MaxOverLog(widths, Writes(rows))
    ensures c in widths <==> HasColumn(rows, c)
  {
    var log := Writes(rows);
    if c in widths {
      var k :| 0 <= k < |log| && log[k].col == c;
      CellOfWrite(rows, k);
    }
    if HasColumn(rows, c) {
      var r :| 0 <= r < |rows| && c < |rows[r]|;
      WriteOfCell(rows, r, c);
    }
  }

  lemma LogMaxIsAttained(rows: Rows, widths: map<nat, nat>, c: nat)
    requires MaxOverLog(widths, Writes(rows)) && c in widths
    ensures exists r :: 0 <= r < |rows| && c < |rows[r]| && widths[c] == |Strip(rows[r][c])|
  {
    var log := Writes(rows);
    var k :| 0 <= k < |log| && log[k].col == c && widths[c] == |log[k].value|;
    CellOfWrite(rows, k);
    var r := log[k].row;
    assert 0 <= r < |rows| && c < |rows[r]| && widths[c] == |Strip(rows[r][c])|;
  }

  /** The columns are exactly `0 .. MaxRowLength(rows) - 1`. */
  lemma HasColumnBelowMax(rows: Rows, c: nat)
    ensures HasColumn(rows, c) <==> c < MaxRowLength(rows)
  {
    if c < MaxRowLength(rows) {
      var r :| 0 <= r < |rows| && |rows[r]| == MaxRowLength(rows);
    }
  }

  /** At most one map satisfies `MaxWidths`: the widths are determined by the rows. */
  lemma MaxWidthsUnique(rows: Rows, m1: map<nat, nat>, m2: map<nat, nat>)
    requires MaxWidths(m1, rows) && MaxWidths(m2, rows)
    ensures m1 == m2
  {
    forall c: nat | c in m1
      ensures c in m2 && m1[c] == m2[c]
    {
      SameColumnWidth(rows, m1, m2, c);
    }
    forall c: nat | c in m2
      ensures c in m1
    {
      SameColumnWidth(rows, m2, m1, c);
    }
    MapsAgree(m1, m2);
  }

  lemma MapsAgree(m1: map<nat, nat>, m2: map<nat, nat>)
    requires forall c | c in m1 :: c in m2 && m1[c] == m2[c]
    requires forall c | c in m2 :: c in m1
    ensures m1 == m2
  {
    assert m1.Keys == m2.Keys;
  }

  lemma SameColumnWidth(rows: Rows, m1: map<nat, nat>, m2: map<nat, nat>, c: nat)
    requires MaxWidths(m1, rows) && MaxWidths(m2, rows) && c in m1
    ensures c in m2 && m1[c] == m2[c]
  {
    var r1 :| 0 <= r1 < |rows| && c < |rows[r1]| && m1[c] == |Strip(rows[r1][c])|;
    var r2 :| 0 <= r2 < |rows| && c < |rows[r2]| && m2[c] == |Strip(rows[r2][c])|;
  }

  /** Building `col_widths` cell by cell over the whole pass yields the column maxima. */
  lemma PassComputesColumnMaxima(rows: Rows)
    ensures MaxWidths(WidthsOf(Writes(rows)), rows)
  {
    WidthsOfIsMax(Writes(rows));
    LogMaxIsColumnMax(rows, WidthsOf(Writes(rows)));
  }

  /** Keys inserted as 0, 1, 2, ... for exactly the columns present end up as
      `0 .. MaxRowLength(rows) - 1`, each once. */
  lemma InsertionOrderIsAscending(rows: Rows, widths: map<nat, nat>, order: seq<nat>)
    requires forall c: nat :: c in widths <==> HasColumn(rows, c)
    requires order == Ascending(|order|)
    requires forall c: nat :: c in widths <==> c < |order|
    ensures order == Ascending(MaxRowLength(rows))
    ensures forall i | 0 <= i < |order| :: order[i] in widths
    ensures forall c | c in widths :: c in order
    ensures forall i, j | 0 <= i < j < |order| :: order[i] != order[j]
  {
    HasColumnBelowMax(rows, |order|);
    HasColumnBelowMax(rows, MaxRowLength(rows));
    assert forall c | c in widths :: order[c] == c;
  }

  /** The columns `0 .. MaxRowLength(rows) - 1` all have an entry in the widths the
      pass computes. */
  lemma EveryColumnHasWidth(rows: Rows)
    ensures forall c | 0 <= c < MaxRowLength(rows) :: c in WidthsOf(Writes(rows))
  {
    PassComputesColumnMaxima(rows);
    forall c | 0 <= c < MaxRowLength(rows)
      ensures c in WidthsOf(Writes(rows))
    {
      HasColumnBelowMax(rows, c);
    }
  }

  /** The worksheet the script leaves for `rows`: the cell writes of the pass, then
      one `set_column` per column in column order, for the widths the pass computed. */
  ghost predicate Worksheet(rows: Rows, cells: seq<CellWrite>, columns: seq<ColumnSetting>) {
    && cells == Writes(rows)
    && (forall c | 0 <= c < MaxRowLength(rows) :: c in WidthsOf(cells))
    && columns == Settings(Ascending(MaxRowLength(rows)), WidthsOf(cells))
  }

  /** Every column up to the longest row is set once, in order, to its widest trimmed
      value plus two, capped at fifty. */
  lemma WorksheetColumns(rows: Rows, cells: seq<CellWrite>, columns: seq<ColumnSetting>)
    requires Worksheet(rows, cells, columns)
    ensures |columns| == MaxRowLength(rows)
    ensures forall c | 0 <= c < |columns| :: columns[c].first == c && columns[c].last == c
    ensures forall c | 0 <= c < |columns| :: exists r | 0 <= r < |rows| && c < |rows[r]| ::
      && columns[c].width == ColumnWidth(|Strip(rows[r][c])|)
      && forall q | 0 <= q < |rows| && c < |rows[q]| :: |Strip(rows[q][c])| <= |Strip(rows[r][c])|
  {
    var widths := WidthsOf(cells);
    PassComputesColumnMaxima(rows);
    forall c | 0 <= c < |columns|
      ensures exists r | 0 <= r < |rows| && c < |rows[r]| ::
        && columns[c].width == ColumnWidth(|Strip(rows[r][c])|)
        && forall q | 0 <= q < |rows| && c < |rows[q]| :: |Strip(rows[q][c])| <= |Strip(rows[r][c])|
    {
      ColumnSettingIsWidest(rows, widths, columns, c);
    }
  }

  lemma ColumnSettingIsWidest(rows: Rows, widths: map<nat, nat>, columns: seq<ColumnSetting>, c: nat)
    requires MaxWidths(widths, rows)
    requires forall j | 0 <= j < MaxRowLength(rows) :: j in widths
    requires columns == Settings(Ascending(MaxRowLength(rows)), widths)
    requires c < |columns|
    ensures exists r | 0 <= r < |rows| && c < |rows[r]| ::
      && columns[c].width == ColumnWidth(|Strip(rows[r][c])|)
      && forall q | 0 <= q < |rows| && c < |rows[q]| :: |Strip(rows[q][c])| <= |Strip(rows[r][c])|
  {
    assert c in widths;
    var r :| 0 <= r < |rows| && c < |rows[r]| && widths[c] == |Strip(rows[r][c])|;
    assert columns[c].width == ColumnWidth(widths[c]);
  }

  /** When every trimmed field has the same length, every column gets the same
      width. */
  lemma EvenColumns(rows: Rows, cells: seq<CellWrite>, columns: seq<ColumnSetting>, len: nat)
    requires Worksheet(rows, cells, columns)
    requires forall r, c | 0 <= r < |rows| && 0 <= c < |rows[r]| :: |Strip(rows[r][c])| == len
    ensures |columns| == MaxRowLength(rows)
    ensures forall c | 0 <= c < |columns| :: columns[c] == ColumnSetting(c, c, ColumnWidth(len))
  {
    WorksheetColumns(rows, cells, columns);
    forall c | 0 <= c < |columns|
      ensures columns[c] == ColumnSetting(c, c, ColumnWidth(len))
    {
      var r :| 0 <= r < |rows| && c < |rows[r]| && columns[c].width == ColumnWidth(|Strip(rows[r][c])|);
    }
  }

  /** Every field of the two-row example trims to one character. */
  lemma OneCharacterFields(rows: Rows)
    requires rows == [["a", "b", "c"], ["1", "2", "3"]]
    ensures forall r, c | 0 <= r < |rows| && 0 <= c < |rows[r]| :: |Strip(rows[r][c])| == 1
  {
    forall r, c | 0 <= r < |rows| && 0 <= c < |rows[r]|
      ensures |Strip(rows[r][c])| == 1
    {
      var f := rows[r][c];
      assert |f| == 1 && '0' <= f[0] <= 'z';
      StripKeepsTrimmedText(f);
    }
  }

  /** The header row `a,b,c` and the data row `1,2,3` give three columns of width
      three. */
  lemma HeaderAndRowExample(cells: seq<CellWrite>, columns: seq<ColumnSetting>)
    requires Worksheet([["a", "b", "c"], ["1", "2", "3"]], cells, columns)
    ensures columns == [ColumnSetting(0, 0, 3), ColumnSetting(1, 1, 3), ColumnSetting(2, 2, 3)]
  {
    var rows: Rows := [["a", "b", "c"], ["1", "2", "3"]];
    OneCharacterFields(rows);
    assert MaxRowLength(rows[..1]) == 3;
    EvenColumns(rows, cells, columns, 1);
    assert ColumnWidth(1) == 3;
    assert |columns| == 3;
    assert columns[0] == ColumnSetting(0, 0, 3);
    assert columns[1] == ColumnSetting(1, 1, 3);
    assert columns[2] == ColumnSetting(2, 2, 3);
    ThreeColumns(columns);
  }

  /** Three column settings, element by element. */
  lemma ThreeColumns(columns: seq<ColumnSetting>)
    requires |columns| == 3
    requires columns[0] == ColumnSetting(0, 0, 3)
    requires columns[1] == ColumnSetting(1, 1, 3)
    requires columns[2] == ColumnSetting(2, 2, 3)
    ensures columns == [ColumnSetting(0, 0, 3), ColumnSetting(1, 1, 3), ColumnSetting(2, 2, 3)]
  {
  }

  /** The converter's state from the moment the worksheet exists: the calls made to the
      worksheet so far, and the `col_widths` dictionary (its entries, and the order in
      which its keys were first inserted, which is the order `items()` yields them). */
  class Converter {
    var writes: seq<CellWrite>
    var colWidths: map<nat, nat>
    var colOrder: seq<nat>
    var columns: seq<ColumnSetting>

    /** `colOrder` lists each key of `colWidths` exactly once. */
    ghost predicate Valid()
      reads this
    {
      && (forall i | 0 <= i < |colOrder| :: colOrder[i] in colWidths)
      && (forall c | c in colWidths :: c in colOrder)
      && (forall i, j | 0 <= i < j < |colOrder| :: colOrder[i] != colOrder[j])
    }

    /** A fresh worksheet and an empty `col_widths`. */
    constructor ()
      ensures Valid()
      ensures writes == [] && colWidths == map[] && colOrder == [] && columns == []
    {
      writes, colWidths, colOrder, columns := [], map[], [], [];
    }

    /** The nested loop over rows and fields: write each trimmed field and keep the
        widest trimmed value per column. */
    method WriteRows(rows: Rows)
      requires Valid()
      requires writes == [] && colWidths == map[] && colOrder == []
      modifies this
      ensures Valid()
      ensures writes == Writes(rows)
      ensures colWidths == WidthsOf(writes)
      ensures MaxWidths(colWidths, rows)
      ensures colOrder == Ascending(MaxRowLength(rows))
      ensures columns == old(columns)
    {
      for r := 0 to |rows|
        invariant writes == Writes(rows[..r])
        invariant colWidths == WidthsOf(writes)
        invariant colOrder == Ascending(|colOrder|)
        invariant forall c: nat :: c in colWidths <==> c < |colOrder|
        invariant columns == old(columns)
      {
        assert rows[..r + 1][..r] == rows[..r];
        assert RowWrites(r, rows[r][..0]) == [];
        WriteRow(r, rows[r]);
        assert rows[r][..|rows[r]|] == rows[r];
      }
      assert rows[..|rows|] == rows;
      PassComputesColumnMaxima(rows);
      InsertionOrderIsAscending(rows, colWidths, colOrder);
    }

    /** The inner loop, over the fields of row `r`. */
    method WriteRow(r: nat, row: seq<string>)
      requires RowInvariant(writes, writes, colWidths, colOrder, r, row, 0)
      modifies this
      ensures RowInvariant(old(writes), writes, colWidths, colOrder, r, row, |row|)
      ensures columns == old(columns)
    {
      for c := 0 to |row|
        invariant RowInvariant(old(writes), writes, colWidths, colOrder, r, row, c)
        invariant columns == old(columns)
      {
        RowStep(old(writes), writes, colWidths, colOrder, r, row, c);
        WriteCell(r, c, row[c]);
      }
    }

    /** The body of the inner loop: trim the field, write it with the row's call and
        format, and raise the column's entry in `col_widths` (inserting the key the
        first time the column is seen). */
    method WriteCell(r: nat, c: nat, field: string)
      modifies this
      ensures writes == old(writes) + [CellFor(r, c, field)]
      ensures colWidths == Widen(old(colWidths), c, |Strip(field)|)
      ensures colOrder == if c in old(colWidths) then old(colOrder) else old(colOrder) + [c]
      ensures columns == old(columns)
    {
      var value := Strip(field);
      var cell;
      if r == 0 {
        cell := CellWrite(GenericWrite, r, c, value, BoldHeader);
      } else {
        cell := CellWrite(StringWrite, r, c, value, TextFormat);
      }
      writes := writes + [cell];
      var width := |value|;
      if c !in colWidths || width > colWidths[c] {
        if c !in colWidths {
          colOrder := colOrder + [c];
        }
        colWidths := colWidths[c := width];
      }
    }

    /** The loop over `col_widths.items()`: one `set_column` per key, in key order. */
    method SizeColumns()
      requires Valid()
      modifies this
      ensures Valid()
      ensures writes == old(writes) && colWidths == old(colWidths) && colOrder == old(colOrder)
      ensures columns == old(columns) + Settings(colOrder, colWidths)
    {
      for i := 0 to |colOrder|
        invariant Valid()
        invariant writes == old(writes) && colWidths == old(colWidths) && colOrder == old(colOrder)
        invariant columns == old(columns) + Settings(colOrder[..i], colWidths)
      {
        var col := colOrder[i];
        var width := ColumnWidth(colWidths[col]);
        assert Settings(colOrder[..i + 1], colWidths) == Settings(colOrder[..i], colWidths) + [ColumnSetting(col, col, width)];
        columns := columns + [ColumnSetting(col, col, width)];
      }
      assert colOrder[..|colOrder|] == colOrder;
    }
  }
}
