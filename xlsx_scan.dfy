/**
 * The spreadsheet reader (find_bbmp_c19_bed_availability_xlsx.py): scanners
 * over one worksheet of the bed-status workbook.  Every table of the sheet has
 * the header 'Net Available Beds for C+ Patients' in its top cell, the
 * hospital type two rows above it in column 1, and below the header the bed
 * type names written one word per row.  The scanners find the headers, the
 * column of the requested bed type, the rows with a free bed of that type,
 * and the cells shown for each such row.
 *
 * The script collects the hospital types in one list that skips empty cells
 * and then indexes it by table number; HospitalTypeAsWritten models that,
 * HospitalTypeOf (the type cell of the table itself) is what the table scan
 * here uses.
 */
module XlsxScan {
  import opened Wrappers
  import opened Strings

  /** A cell value openpyxl reads: text or a number (counts are whole numbers). */
  datatype Value = Text(s: string) | Number(n: int)

  /** A merged cell range, bounds inclusive, as in openpyxl's `CellRange`. */
  datatype MergedRange = MergedRange(minCol: int, minRow: int, maxCol: int, maxRow: int)

  /** A worksheet: the non-empty cells by (row, column), the merged ranges, and `max_row`, `max_column`. */
  datatype Sheet = Sheet(cells: map<(int, int), Value>, merged: seq<MergedRange>, maxRow: nat, maxCol: nat)

  /** `sheet.cell(row, col).value`, None for an empty cell. */
  function Cell(sheet: Sheet, row: int, col: int): Option<Value> {
    if (row, col) in sheet.cells then Some(sheet.cells[(row, col)]) else None
  }

  /**
   * What openpyxl guarantees of a loaded sheet: cells and merged ranges lie in
   * rows and columns from 1 to the maximum, every range spans at least one
   * cell, and only the top-left cell of a merged range holds a value.
   */
  ghost predicate ValidSheet(sheet: Sheet) {
    && (forall key | key in sheet.cells :: 1 <= key.0 <= sheet.maxRow && 1 <= key.1 <= sheet.maxCol)
    && (forall k | 0 <= k < |sheet.merged| ::
          1 <= sheet.merged[k].minCol <= sheet.merged[k].maxCol && 1 <= sheet.merged[k].minRow <= sheet.merged[k].maxRow)
    && (forall k, row, col | 0 <= k < |sheet.merged| && InRange(sheet.merged[k], col, row) && (row, col) in sheet.cells ::
          IsTopLeft(sheet.merged[k], col, row))
  }

  /** `cell.coordinate in mergedCell`. */
  predicate InRange(m: MergedRange, col: int, row: int) {
    m.minCol <= col <= m.maxCol && m.minRow <= row <= m.maxRow
  }

  predicate IsTopLeft(m: MergedRange, col: int, row: int) {
    m.minCol == col && m.minRow == row
  }

  predicate InMergedRange(merged: seq<MergedRange>, col: int, row: int) {
    exists k | 0 <= k < |merged| :: InRange(merged[k], col, row)
  }

  /** `check_merged_cell`: whether the cell at (`col`, `row`) lies in some merged range. */
  method CheckMergedCell(sheet: Sheet, col: int, row: int) returns (merged: bool)
    ensures merged <==> InMergedRange(sheet.merged, col, row)
  {
    var k := 0;
    while k < |sheet.merged|
      invariant 0 <= k <= |sheet.merged|
      invariant forall j | 0 <= j < k :: !InRange(sheet.merged[j], col, row)
    {
      if InRange(sheet.merged[k], col, row) {
        return true;
      }
      k := k + 1;
    }
    return false;
  }

  /** `[min_col, max_col]` of the last of the first `n` ranges whose top-left cell is (`col`, `row`), or `[]`. */
  function ColRangeOf(merged: seq<MergedRange>, col: int, row: int, n: nat): seq<int>
    requires n <= |merged|
  {
    if n == 0 then []
    else if IsTopLeft(merged[n - 1], col, row) then [merged[n - 1].minCol, merged[n - 1].maxCol]
    else ColRangeOf(merged, col, row, n - 1)
  }

  /** The column range is empty when no range starts at the cell, and is the last such range's otherwise. */
  lemma {:induction false} ColRangeOfIsLast(merged: seq<MergedRange>, col: int, row: int, n: nat)
    requires n <= |merged|
    ensures ColRangeOf(merged, col, row, n) == [] <==> forall k | 0 <= k < n :: !IsTopLeft(merged[k], col, row)
    ensures ColRangeOf(merged, col, row, n) != [] ==>
      exists k | 0 <= k < n ::
        && IsTopLeft(merged[k], col, row)
        && ColRangeOf(merged, col, row, n) == [merged[k].minCol, merged[k].maxCol]
        && forall j | k < j < n :: !IsTopLeft(merged[j], col, row)
  {
    if n > 0 && !IsTopLeft(merged[n - 1], col, row) {
      ColRangeOfIsLast(merged, col, row, n - 1);
    }
  }

  /** `find_merged_cell_col_range`: every range is visited, a later match overwriting an earlier one. */
  method FindMergedCellColRange(sheet: Sheet, col: int, row: int) returns (colRange: seq<int>)
    ensures colRange == ColRangeOf(sheet.merged, col, row, |sheet.merged|)
  {
    colRange := [];
    var k := 0;
    while k < |sheet.merged|
      invariant 0 <= k <= |sheet.merged|
      invariant colRange == ColRangeOf(sheet.merged, col, row, k)
    {
      var m := sheet.merged[k];
      if IsTopLeft(m, col, row) {
        colRange := [m.minCol, m.maxCol];
      }
      k := k + 1;
    }
  }

  /**
   * In a sheet as openpyxl loads it, a cell with a value that lies in a merged
   * range is that range's top-left cell, so the column range the script looks
   * up for it is there, and starts at its column.
   */
  lemma MergedValueHasColRange(sheet: Sheet, col: int, row: int)
    requires ValidSheet(sheet)
    requires Cell(sheet, row, col).Some? && InMergedRange(sheet.merged, col, row)
    ensures |ColRangeOf(sheet.merged, col, row, |sheet.merged|)| == 2
    ensures ColRangeOf(sheet.merged, col, row, |sheet.merged|)[0] == col
    ensures col <= ColRangeOf(sheet.merged, col, row, |sheet.merged|)[1]
  {
    var k :| 0 <= k < |sheet.merged| && InRange(sheet.merged[k], col, row);
    assert IsTopLeft(sheet.merged[k], col, row);
    ColRangeOfIsLast(sheet.merged, col, row, |sheet.merged|);
    var j :| 0 <= j < |sheet.merged| && IsTopLeft(sheet.merged[j], col, row) &&
      ColRangeOf(sheet.merged, col, row, |sheet.merged|) == [sheet.merged[j].minCol, sheet.merged[j].maxCol];
  }

  /** The header cells of row `row` among columns 1 to `n`, as (column, row) pairs. */
  function RowStarts(sheet: Sheet, header: string, row: int, n: nat): seq<(int, int)>
  {
    if n == 0 then []
    else RowStarts(sheet, header, row, n - 1) + if Cell(sheet, row, n) == Some(Text(header)) then [(n, row)] else []
  }

  /** The header cells of rows 1 to `m`, row by row. */
  function Starts(sheet: Sheet, header: string, m: nat): seq<(int, int)>
  {
    if m == 0 then []
    else Starts(sheet, header, m - 1) + RowStarts(sheet, header, m, sheet.maxCol)
  }

  /** (column, row) comes before (column', row') reading the sheet row by row. */
  predicate RowMajorBefore(a: (int, int), b: (int, int)) {
    a.1 < b.1 || (a.1 == b.1 && a.0 < b.0)
  }

  /** Every start of a row is a header cell of that row, the starts in increasing column order. */
  lemma {:induction false} RowStartsSound(sheet: Sheet, header: string, row: int, n: nat)
    ensures forall k | 0 <= k < |RowStarts(sheet, header, row, n)| ::
      var s := RowStarts(sheet, header, row, n)[k];
      s.1 == row && 1 <= s.0 <= n && Cell(sheet, row, s.0) == Some(Text(header))
    ensures forall k, l | 0 <= k < l < |RowStarts(sheet, header, row, n)| ::
      RowStarts(sheet, header, row, n)[k].0 < RowStarts(sheet, header, row, n)[l].0
  {
    if n > 0 {
      RowStartsSound(sheet, header, row, n - 1);
      var front := RowStarts(sheet, header, row, n - 1);
      var out := RowStarts(sheet, header, row, n);
      assert forall k | 0 <= k < |front| :: out[k] == front[k];
    }
  }

  /** Every start is a header cell inside the sheet. */
  lemma {:induction false} StartsSound(sheet: Sheet, header: string, m: nat)
    ensures forall k | 0 <= k < |Starts(sheet, header, m)| ::
      var s := Starts(sheet, header, m)[k];
      1 <= s.1 <= m && 1 <= s.0 <= sheet.maxCol && Cell(sheet, s.1, s.0) == Some(Text(header))
  {
    if m > 0 {
      StartsSound(sheet, header, m - 1);
      RowStartsSound(sheet, header, m, sheet.maxCol);
      var front := Starts(sheet, header, m - 1);
      var more := RowStarts(sheet, header, m, sheet.maxCol);
      var out := Starts(sheet, header, m);
      assert out == front + more;
      forall k | 0 <= k < |out|
        ensures 1 <= out[k].1 <= m && 1 <= out[k].0 <= sheet.maxCol && Cell(sheet, out[k].1, out[k].0) == Some(Text(header))
      {
        if k < |front| {
          assert out[k] == front[k];
        } else {
          assert out[k] == more[k - |front|];
        }
      }
    }
  }

  /** The starts come in reading order, row by row and left to right. */
  lemma {:induction false} StartsOrdered(sheet: Sheet, header: string, m: nat)
    ensures forall k, l | 0 <= k < l < |Starts(sheet, header, m)| ::
      RowMajorBefore(Starts(sheet, header, m)[k], Starts(sheet, header, m)[l])
  {
    if m > 0 {
      StartsOrdered(sheet, header, m - 1);
      StartsSound(sheet, header, m - 1);
      RowStartsSound(sheet, header, m, sheet.maxCol);
      var front := Starts(sheet, header, m - 1);
      var more := RowStarts(sheet, header, m, sheet.maxCol);
      var out := Starts(sheet, header, m);
      assert out == front + more;
      forall k, l | 0 <= k < l < |out| ensures RowMajorBefore(out[k], out[l]) {
        if l < |front| {
          assert out[k] == front[k] && out[l] == front[l];
        } else if k < |front| {
          assert out[k] == front[k] && out[l] == more[l - |front|];
        } else {
          assert out[k] == more[k - |front|] && out[l] == more[l - |front|];
        }
      }
    }
  }

  /** Every header cell of a row, within the first `n` columns, is one of its starts. */
  lemma {:induction false} RowStartsComplete(sheet: Sheet, header: string, row: int, n: nat, col: nat)
    requires 1 <= col <= n && Cell(sheet, row, col) == Some(Text(header))
    ensures (col, row) in RowStarts(sheet, header, row, n)
  {
    if col < n {
      RowStartsComplete(sheet, header, row, n - 1, col);
    }
  }

  /** Every header cell of the sheet, within the first `m` rows, is a start. */
  lemma {:induction false} StartsComplete(sheet: Sheet, header: string, m: nat, row: nat, col: nat)
    requires 1 <= row <= m && 1 <= col <= sheet.maxCol && Cell(sheet, row, col) == Some(Text(header))
    ensures (col, row) in Starts(sheet, header, m)
  {
    if row < m {
      StartsComplete(sheet, header, m - 1, row, col);
    } else {
      RowStartsComplete(sheet, header, row, sheet.maxCol, col);
    }
  }

  /** `find_req_tables_start_xy`: every cell equal to the header, as `[col, row]`, reading row by row. */
  method FindReqTablesStartXy(sheet: Sheet, header: string) returns (starts: seq<(int, int)>)
    ensures starts == Starts(sheet, header, sheet.maxRow)
  {
    starts := [];
    var r := 1;
    while r < sheet.maxRow + 1
      invariant 1 <= r <= sheet.maxRow + 1
      invariant starts == Starts(sheet, header, r - 1)
    {
      var c := 1;
      ghost var before := starts;
      while c < sheet.maxCol + 1
        invariant 1 <= c <= sheet.maxCol + 1
        invariant starts == before + RowStarts(sheet, header, r, c - 1)
      {
        var cellVal := Cell(sheet, r, c);
        if cellVal.Some? && cellVal.value == Text(header) {
          starts := starts + [(c, r)];
        }
        c := c + 1;
      }
      r := r + 1;
    }
  }

  /** `hospital_types` after the first `n` starts: the type cell two rows up in column 1, empty ones skipped. */
  function HospitalTypes(sheet: Sheet, starts: seq<(int, int)>, n: nat): seq<Value>
    requires n <= |starts|
  {
    if n == 0 then []
    else
      var front := HospitalTypes(sheet, starts, n - 1);
      match Cell(sheet, starts[n - 1].1 - 2, 1)
      case None => front
      case Some(v) => front + [v]
  }

  /** openpyxl refuses rows below 1, so `find_hospital_type` reads a type cell only for starts from row 3 on. */
  predicate TypeRowsReadable(starts: seq<(int, int)>) {
    forall k | 0 <= k < |starts| :: starts[k].1 >= 3
  }

  /** `find_hospital_type`: the type cells two rows above the starts, or None where openpyxl raises ValueError. */
  method FindHospitalType(sheet: Sheet, starts: seq<(int, int)>) returns (hospitalTypes: Option<seq<Value>>)
    ensures hospitalTypes.None? <==> !TypeRowsReadable(starts)
    ensures hospitalTypes.Some? ==> hospitalTypes.value == HospitalTypes(sheet, starts, |starts|)
  {
    var types: seq<Value> := [];
    var k := 0;
    while k < |starts|
      invariant 0 <= k <= |starts|
      invariant forall i | 0 <= i < k :: starts[i].1 >= 3
      invariant types == HospitalTypes(sheet, starts, k)
    {
      if starts[k].1 - 2 < 1 {
        return None;
      }
      var cellVal := Cell(sheet, starts[k].1 - 2, 1);
      if cellVal.Some? {
        types := types + [cellVal.value];
      }
      k := k + 1;
    }
    return Some(types);
  }

  /** The hospital type of the table whose header is at row `row`: its own type cell. */
  function HospitalTypeOf(sheet: Sheet, row: int): Option<Value> {
    Cell(sheet, row - 2, 1)
  }

  /** `hospital_types[t_idx]` as the script reads it, None for IndexError. */
  function HospitalTypeAsWritten(sheet: Sheet, starts: seq<(int, int)>, t: nat): Option<Value> {
    var types := HospitalTypes(sheet, starts, |starts|);
    if t < |types| then Some(types[t]) else None
  }

  /** When every table has its type cell filled in, the list lines up with the tables. */
  lemma {:induction false} HospitalTypesAligned(sheet: Sheet, starts: seq<(int, int)>, n: nat)
    requires n <= |starts|
    requires forall k | 0 <= k < n :: HospitalTypeOf(sheet, starts[k].1).Some?
    ensures |HospitalTypes(sheet, starts, n)| == n
    ensures forall t | 0 <= t < n :: Some(HospitalTypes(sheet, starts, n)[t]) == HospitalTypeOf(sheet, starts[t].1)
  {
    if n > 0 {
      HospitalTypesAligned(sheet, starts, n - 1);
      var front := HospitalTypes(sheet, starts, n - 1);
      assert HospitalTypes(sheet, starts, n) == front + [HospitalTypeOf(sheet, starts[n - 1].1).value];
    }
  }

  /** With every type cell filled in, the script's lookup is the table's own type. */
  lemma AsWrittenAgreesWhenTypesFilled(sheet: Sheet, starts: seq<(int, int)>, t: nat)
    requires t < |starts|
    requires forall k | 0 <= k < |starts| :: HospitalTypeOf(sheet, starts[k].1).Some?
    ensures HospitalTypeAsWritten(sheet, starts, t) == HospitalTypeOf(sheet, starts[t].1)
  {
    HospitalTypesAligned(sheet, starts, |starts|);
  }

  /** The sheet of the counterexample below. */
  function MislabelSheet(): Sheet {
    Sheet(map[(3, 2) := Text("H"), (4, 2) := Text("HDU"), (5, 1) := Text("Private"), (6, 2) := Number(5),
              (7, 2) := Text("H"), (8, 2) := Text("HDU"), (10, 2) := Number(2)], [], 10, 2)
  }

  /** Row `row` of that sheet holds the header 'H' at column 2 when it is row 3 or 7, and nowhere else. */
  lemma MislabelSheetRow(sheet: Sheet, row: int)
    requires sheet == MislabelSheet()
    ensures RowStarts(sheet, "H", row, 2) == if row == 3 || row == 7 then [(2, row)] else []
  {
    var e: seq<(int, int)> := [];
    assert Cell(sheet, row, 1) != Some(Text("H"));
    assert RowStarts(sheet, "H", row, 1) == e;
    assert Cell(sheet, row, 2) == Some(Text("H")) <==> row == 3 || row == 7;
  }

  /** The headers among the first `m` rows of that sheet. */
  lemma {:induction false} MislabelSheetStartsUpTo(sheet: Sheet, m: nat)
    requires sheet == MislabelSheet()
    ensures Starts(sheet, "H", m) == if m < 3 then [] else if m < 7 then [(2, 3)] else [(2, 3), (2, 7)]
  {
    if m > 0 {
      MislabelSheetStartsUpTo(sheet, m - 1);
      MislabelSheetRow(sheet, m);
    }
  }

  /** The first table of that sheet is displayed with its row 6, and no type. */
  lemma MislabelSheetFirstShown(sheet: Sheet)
    requires sheet == MislabelSheet()
    ensures TableAt(sheet, [(2, 3), (2, 7)], 0, ["HDU"]) == Displayed(Shown(None, DisplayRows(sheet, [6], [1, 2, 2])))
  {
    assert HeaderColumns(sheet, 2, 3) == [2, 2];
    assert NextStartRow(sheet, [(2, 3), (2, 7)], 0) == 7;
    assert WordsAt(sheet, ["HDU"], 4, 2);
    assert FirstColInRows(sheet, ["HDU"], 4, 7, 2, 2) == 2;
    var none: seq<int> := [];
    assert none + [6] == [6];
    assert Availability(sheet, 6, 7, 2) == Some([6]);
    assert Cell(sheet, 1, 1) == None;
  }

  /** The second table of that sheet is displayed with its row 10, labelled 'Private'. */
  lemma MislabelSheetSecondShown(sheet: Sheet)
    requires sheet == MislabelSheet()
    ensures TableAt(sheet, [(2, 3), (2, 7)], 1, ["HDU"]) ==
      Displayed(Shown(Some(Text("Private")), DisplayRows(sheet, [10], [1, 2, 2])))
  {
    assert HeaderColumns(sheet, 2, 7) == [2, 2];
    assert NextStartRow(sheet, [(2, 3), (2, 7)], 1) == 11;
    assert WordsAt(sheet, ["HDU"], 8, 2);
    assert FirstColInRows(sheet, ["HDU"], 8, 11, 2, 2) == 2;
    var none: seq<int> := [];
    assert none + [10] == [10];
    assert Availability(sheet, 10, 11, 2) == Some([10]);
    assert Cell(sheet, 5, 1) == Some(Text("Private"));
  }

  /** The list `find_hospital_type` builds for that sheet holds the second table's type only. */
  lemma MislabelSheetTypes(sheet: Sheet)
    requires sheet == MislabelSheet()
    ensures HospitalTypes(sheet, [(2, 3), (2, 7)], 2) == [Text("Private")]
  {
    var starts := [(2, 3), (2, 7)];
    assert Cell(sheet, 1, 1) == None && Cell(sheet, 5, 1) == Some(Text("Private"));
    assert HospitalTypes(sheet, starts, 1) == [];
  }

  /**
   * Two tables with headers 'H' at rows 3 and 7 of column 2, each with the
   * bed type 'HDU' below its header and a positive count two rows further down;
   * the first has no type cell, the second has 'Private' at row 5.  Both tables
   * reach the display call; the script labels the first 'Private' and fails
   * with IndexError on the second, where each table's own type cell labels the
   * first with nothing and the second 'Private'.
   */
  lemma AsWrittenMislabelsTables(sheet: Sheet)
    requires sheet == MislabelSheet()
    ensures var starts := [(2, 3), (2, 7)];
      && Starts(sheet, "H", sheet.maxRow) == starts
      && TypeRowsReadable(starts)
      && HospitalTypeAsWritten(sheet, starts, 0) == Some(Text("Private"))
      && HospitalTypeAsWritten(sheet, starts, 1) == None
      && TableAt(sheet, starts, 0, ["HDU"]).Displayed?
      && TableAt(sheet, starts, 0, ["HDU"]).shown.hospitalType == None
      && TableAt(sheet, starts, 1, ["HDU"]).Displayed?
      && TableAt(sheet, starts, 1, ["HDU"]).shown.hospitalType == Some(Text("Private"))
  {
    MislabelSheetStartsUpTo(sheet, 10);
    MislabelSheetFirstShown(sheet);
    MislabelSheetSecondShown(sheet);
    MislabelSheetTypes(sheet);
  }

  /**
   * The `bed_type_matches` counter after the first `n` words below (`row`, `col`):
   * the number of words matched in a row since the last miss.
   */
  function Streak(sheet: Sheet, words: seq<string>, row: int, col: int, n: nat): nat
    requires n <= |words|
  {
    if n == 0 then 0
    else if Cell(sheet, row + n - 1, col) == Some(Text(words[n - 1])) then Streak(sheet, words, row, col, n - 1) + 1
    else 0
  }

  /** The words of the bed type stand one per row, going down from (`row`, `col`). */
  predicate WordsAt(sheet: Sheet, words: seq<string>, row: int, col: int) {
    forall b | 0 <= b < |words| :: Cell(sheet, row + b, col) == Some(Text(words[b]))
  }

  /** The counter reaches the number of words exactly when every word matched. */
  lemma {:induction false} StreakCountsMatches(sheet: Sheet, words: seq<string>, row: int, col: int, n: nat)
    requires n <= |words|
    ensures Streak(sheet, words, row, col, n) <= n
    ensures Streak(sheet, words, row, col, n) == n <==>
      forall b | 0 <= b < n :: Cell(sheet, row + b, col) == Some(Text(words[b]))
  {
    if n > 0 {
      StreakCountsMatches(sheet, words, row, col, n - 1);
    }
  }

  /** The innermost loop of `find_bed_type_col_idx`: the counter over the words at one cell. */
  method CountMatches(sheet: Sheet, words: seq<string>, row: int, col: int) returns (bedTypeMatches: nat)
    ensures bedTypeMatches == Streak(sheet, words, row, col, |words|)
  {
    bedTypeMatches := 0;
    var b := 0;
    while b < |words|
      invariant 0 <= b <= |words|
      invariant bedTypeMatches == Streak(sheet, words, row, col, b)
    {
      var cellVal := Cell(sheet, row + b, col);
      if cellVal.None? {
        bedTypeMatches := 0;
      } else if cellVal.value == Text(words[b]) {
        bedTypeMatches := bedTypeMatches + 1;
      } else {
        bedTypeMatches := 0;
      }
      b := b + 1;
    }
  }

  /** The first column from `col` to `last` of row `row` where the words stand, or -1. */
  function FirstColFrom(sheet: Sheet, words: seq<string>, row: int, col: int, last: int): int
    decreases last - col + 1
  {
    if col > last then -1
    else if WordsAt(sheet, words, row, col) then col
    else FirstColFrom(sheet, words, row, col + 1, last)
  }

  /** The column of the first cell, reading rows `row` to `last` and columns `c0` to `c1`, where the words stand, or -1. */
  function FirstColInRows(sheet: Sheet, words: seq<string>, row: int, last: int, c0: int, c1: int): int
    decreases last - row + 1
  {
    if row > last then -1
    else
      var k := FirstColFrom(sheet, words, row, c0, c1);
      if k >= 0 then k else FirstColInRows(sheet, words, row + 1, last, c0, c1)
  }

  /** Within one row: -1 when no column has the words, else the leftmost one that has them. */
  lemma {:induction false} FirstColFromIsFirst(sheet: Sheet, words: seq<string>, row: int, col: int, last: int)
    requires col >= 0
    ensures FirstColFrom(sheet, words, row, col, last) == -1 <==>
      forall c | col <= c <= last :: !WordsAt(sheet, words, row, c)
    ensures FirstColFrom(sheet, words, row, col, last) != -1 ==>
      var k := FirstColFrom(sheet, words, row, col, last);
      col <= k <= last && WordsAt(sheet, words, row, k) && forall c | col <= c < k :: !WordsAt(sheet, words, row, c)
    decreases last - col + 1
  {
    if col <= last && !WordsAt(sheet, words, row, col) {
      FirstColFromIsFirst(sheet, words, row, col + 1, last);
    }
  }

  /**
   * Over the rows: -1 when no cell of the block has the words, else the column
   * of the first such cell in reading order.
   */
  lemma {:induction false} FirstColInRowsIsFirst(sheet: Sheet, words: seq<string>, row: int, last: int, c0: int, c1: int)
    requires c0 >= 0
    ensures FirstColInRows(sheet, words, row, last, c0, c1) == -1 <==>
      forall r, c | row <= r <= last && c0 <= c <= c1 :: !WordsAt(sheet, words, r, c)
    ensures FirstColInRows(sheet, words, row, last, c0, c1) != -1 ==>
      var k := FirstColInRows(sheet, words, row, last, c0, c1);
      exists r | row <= r <= last ::
        && c0 <= k <= c1 && WordsAt(sheet, words, r, k)
        && (forall r', c | row <= r' < r && c0 <= c <= c1 :: !WordsAt(sheet, words, r', c))
        && (forall c | c0 <= c < k :: !WordsAt(sheet, words, r, c))
    decreases last - row + 1
  {
    if row <= last {
      FirstColFromIsFirst(sheet, words, row, c0, c1);
      if FirstColFrom(sheet, words, row, c0, c1) == -1 {
        FirstColInRowsIsFirst(sheet, words, row + 1, last, c0, c1);
        var k := FirstColInRows(sheet, words, row, last, c0, c1);
        assert forall c | c0 <= c <= c1 :: !WordsAt(sheet, words, row, c);
        if k != -1 {
          var r :| row + 1 <= r <= last && c0 <= k <= c1 && WordsAt(sheet, words, r, k)
            && (forall r', c | row + 1 <= r' < r && c0 <= c <= c1 :: !WordsAt(sheet, words, r', c))
            && (forall c | c0 <= c < k :: !WordsAt(sheet, words, r, c));
          forall r', c | row <= r' < r && c0 <= c <= c1 ensures !WordsAt(sheet, words, r', c) {
            if r' == row {
              assert !WordsAt(sheet, words, row, c);
            }
          }
        } else {
          forall r', c | row <= r' <= last && c0 <= c <= c1 ensures !WordsAt(sheet, words, r', c) {
            if r' == row {
              assert !WordsAt(sheet, words, row, c);
            }
          }
        }
      } else {
        assert WordsAt(sheet, words, row, FirstColFrom(sheet, words, row, c0, c1));
      }
    }
  }

  /**
   * `find_bed_type_col_idx`: the words of `bedType` split on spaces, looked for
   * going down from every cell of rows `rowRange[0]` to `rowRange[1]` (both
   * included) and columns `colRange[0]` to `colRange[1]`, row by row.
   */
  method FindBedTypeColIdx(sheet: Sheet, rowRange: seq<int>, colRange: seq<int>, bedType: string) returns (reqColIdx: int)
    requires |rowRange| == 2 && |colRange| == 2 && colRange[0] >= 1
    ensures reqColIdx == FirstColInRows(sheet, Split(bedType, ' '), rowRange[0], rowRange[1], colRange[0], colRange[1])
  {
    reqColIdx := -1;
    var bedTypeSplits := Split(bedType, ' ');
    var bedTypeLen := |bedTypeSplits|;
    var r := rowRange[0];
    while r < rowRange[1] + 1
      invariant r == rowRange[0] || r <= rowRange[1] + 1
      invariant reqColIdx == -1
      invariant FirstColInRows(sheet, bedTypeSplits, rowRange[0], rowRange[1], colRange[0], colRange[1]) ==
        FirstColInRows(sheet, bedTypeSplits, r, rowRange[1], colRange[0], colRange[1])
      decreases rowRange[1] + 1 - r
    {
      var found := FindInRow(sheet, bedTypeSplits, r, colRange[0], colRange[1]);
      if found >= 0 {
        reqColIdx := found;
        break;
      }
      r := r + 1;
    }
  }

  /** The column loop of `find_bed_type_col_idx` over one row, stopping at the first match. */
  method FindInRow(sheet: Sheet, words: seq<string>, row: int, c0: int, c1: int) returns (reqColIdx: int)
    requires c0 >= 1
    ensures reqColIdx == FirstColFrom(sheet, words, row, c0, c1)
  {
    reqColIdx := -1;
    var c := c0;
    while c < c1 + 1
      invariant c == c0 || c <= c1 + 1
      invariant c >= c0
      invariant FirstColFrom(sheet, words, row, c0, c1) == FirstColFrom(sheet, words, row, c, c1)
      decreases c1 + 1 - c
    {
      var bedTypeMatches := CountMatches(sheet, words, row, c);
      StreakCountsMatches(sheet, words, row, c, |words|);
      if bedTypeMatches == |words| {
        reqColIdx := c;
        return;
      }
      c := c + 1;
    }
  }

  /**
   * `find_bed_availability` over rows `first` to `n - 1`: the rows whose cell in
   * `col` holds a positive count; None when a text cell makes `cell_val > 0` raise TypeError.
   */
  function Availability(sheet: Sheet, first: int, n: int, col: int): Option<seq<int>>
    decreases n - first
  {
    if n <= first then Some([])
    else
      match Availability(sheet, first, n - 1, col)
      case None => None
      case Some(front) =>
        match Cell(sheet, n - 1, col)
        case None => Some(front)
        case Some(Text(_)) => None
        case Some(Number(v)) => if v > 0 then Some(front + [n - 1]) else Some(front)
  }

  /** A row with a positive count in column `col`. */
  predicate FreeBedRow(sheet: Sheet, row: int, col: int) {
    Cell(sheet, row, col).Some? && Cell(sheet, row, col).value.Number? && Cell(sheet, row, col).value.n > 0
  }

  /**
   * Without text cells in the range, the result is exactly the rows with a
   * positive count, in increasing order; with one, the scan fails.
   */
  lemma {:induction false} AvailabilityRows(sheet: Sheet, first: int, n: int, col: int)
    ensures Availability(sheet, first, n, col).None? <==>
      exists r | first <= r < n :: Cell(sheet, r, col).Some? && Cell(sheet, r, col).value.Text?
    ensures Availability(sheet, first, n, col).Some? ==>
      var rows := Availability(sheet, first, n, col).value;
      && (forall k | 0 <= k < |rows| :: first <= rows[k] < n && FreeBedRow(sheet, rows[k], col))
      && (forall k, l | 0 <= k < l < |rows| :: rows[k] < rows[l])
      && (forall r | first <= r < n && FreeBedRow(sheet, r, col) :: r in rows)
    decreases n - first
  {
    if n > first {
      AvailabilityRows(sheet, first, n - 1, col);
      var prev := Availability(sheet, first, n - 1, col);
      if prev.Some? {
        var front := prev.value;
        var out := Availability(sheet, first, n, col);
        if out.Some? {
          assert out.value == front || out.value == front + [n - 1];
          assert forall k | 0 <= k < |front| :: out.value[k] == front[k];
        }
      }
    }
  }

  /** Once a text cell has made the scan fail, scanning further rows fails too. */
  lemma {:induction false} AvailabilityFailsOnward(sheet: Sheet, first: int, m: int, n: int, col: int)
    requires m <= n && Availability(sheet, first, m, col).None?
    ensures Availability(sheet, first, n, col).None?
    decreases n - m
  {
    if m < n {
      AvailabilityFailsOnward(sheet, first, m, n - 1, col);
    }
  }

  /** `find_bed_availability`: rows `rowRange[0]` to `rowRange[1] - 1` of column `colIdx`. */
  method FindBedAvailability(sheet: Sheet, rowRange: seq<int>, colIdx: int) returns (validRowIdxs: Option<seq<int>>)
    requires |rowRange| == 2
    ensures validRowIdxs == Availability(sheet, rowRange[0], rowRange[1], colIdx)
  {
    var rows: seq<int> := [];
    var r := rowRange[0];
    while r < rowRange[1]
      invariant r == rowRange[0] || r <= rowRange[1]
      invariant Availability(sheet, rowRange[0], r, colIdx) == Some(rows)
      decreases rowRange[1] - r
    {
      var cellVal := Cell(sheet, r, colIdx);
      if cellVal.Some? {
        if cellVal.value.Text? {
          AvailabilityFailsOnward(sheet, rowRange[0], r + 1, rowRange[1], colIdx);
          return None;
        }
        if cellVal.value.n > 0 {
          rows := rows + [r];
        }
      }
      r := r + 1;
    }
    validRowIdxs := Some(rows);
  }

  /** The non-empty cells of row `row` among the first `n` display columns. */
  function PresentCells(sheet: Sheet, row: int, cols: seq<int>, n: nat): seq<Value>
    requires n <= |cols|
  {
    if n == 0 then []
    else
      var front := PresentCells(sheet, row, cols, n - 1);
      match Cell(sheet, row, cols[n - 1])
      case None => front
      case Some(v) => front + [v]
  }

  /** The shown values are the row's filled cells, at most one per display column, one per column when all are filled. */
  lemma {:induction false} PresentCellsSound(sheet: Sheet, row: int, cols: seq<int>, n: nat)
    requires n <= |cols|
    ensures |PresentCells(sheet, row, cols, n)| <= n
    ensures (forall j | 0 <= j < n :: Cell(sheet, row, cols[j]).Some?) ==> |PresentCells(sheet, row, cols, n)| == n
    ensures forall k | 0 <= k < |PresentCells(sheet, row, cols, n)| ::
      exists j | 0 <= j < n :: Cell(sheet, row, cols[j]) == Some(PresentCells(sheet, row, cols, n)[k])
  {
    if n > 0 {
      PresentCellsSound(sheet, row, cols, n - 1);
      var front := PresentCells(sheet, row, cols, n - 1);
      var out := PresentCells(sheet, row, cols, n);
      forall k | 0 <= k < |out| ensures exists j | 0 <= j < n :: Cell(sheet, row, cols[j]) == Some(out[k]) {
        if k < |front| {
          assert out[k] == front[k];
          var j :| 0 <= j < n - 1 && Cell(sheet, row, cols[j]) == Some(front[k]);
        } else {
          assert Cell(sheet, row, cols[n - 1]) == Some(out[k]);
        }
      }
    }
  }

  /** `table_vals` of `display_bed_availability`: one list of filled cells per row. */
  function DisplayRows(sheet: Sheet, rows: seq<int>, cols: seq<int>): seq<seq<Value>>
  {
    seq(|rows|, i requires 0 <= i < |rows| => PresentCells(sheet, rows[i], cols, |cols|))
  }

  /** The cell loops of `display_bed_availability`; the table is printed when it has a row, which the model leaves out. */
  method DisplayBedAvailability(sheet: Sheet, validRowIdxs: seq<int>, dispColIdxs: seq<int>) returns (tableVals: seq<seq<Value>>)
    ensures tableVals == DisplayRows(sheet, validRowIdxs, dispColIdxs)
  {
    tableVals := [];
    var i := 0;
    while i < |validRowIdxs|
      invariant 0 <= i <= |validRowIdxs|
      invariant |tableVals| == i
      invariant forall k | 0 <= k < i :: tableVals[k] == PresentCells(sheet, validRowIdxs[k], dispColIdxs, |dispColIdxs|)
    {
      var rowVals: seq<Value> := [];
      var j := 0;
      while j < |dispColIdxs|
        invariant 0 <= j <= |dispColIdxs|
        invariant rowVals == PresentCells(sheet, validRowIdxs[i], dispColIdxs, j)
      {
        var cellVal := Cell(sheet, validRowIdxs[i], dispColIdxs[j]);
        if cellVal.Some? {
          rowVals := rowVals + [cellVal.value];
        }
        j := j + 1;
      }
      tableVals := tableVals + [rowVals];
      i := i + 1;
    }
  }

  /** One displayed table: its hospital type (None for an empty type cell) and its rows. */
  datatype Shown = Shown(hospitalType: Option<Value>, rows: seq<seq<Value>>)

  /** What the loop body does with one table: skip it, display it, or stop with an exception. */
  datatype TableResult = Skipped | Displayed(shown: Shown) | Failed

  /** The row of the next table's header, or `max_row + 1` after the last table. */
  function NextStartRow(sheet: Sheet, starts: seq<(int, int)>, t: nat): int
    requires t < |starts|
  {
    if t + 1 < |starts| then starts[t + 1].1 else sheet.maxRow + 1
  }

  /** The columns the bed type is looked for in: the header's merged range, or its own column. */
  function HeaderColumns(sheet: Sheet, col: int, row: int): seq<int> {
    if InMergedRange(sheet.merged, col, row) then ColRangeOf(sheet.merged, col, row, |sheet.merged|) else [col, col]
  }

  /** The loop body for table `t` of the starts. */
  function TableAt(sheet: Sheet, starts: seq<(int, int)>, t: nat, words: seq<string>): TableResult
    requires t < |starts|
  {
    var (x, y) := starts[t];
    var cols := HeaderColumns(sheet, x, y);
    if |cols| < 2 || cols[0] < 1 then Failed
    else
      var c := FirstColInRows(sheet, words, y + 1, NextStartRow(sheet, starts, t), cols[0], cols[1]);
      if c == -1 then Skipped
      else match Availability(sheet, y + 3, NextStartRow(sheet, starts, t), c)
        case None => Failed
        case Some(rows) =>
          if |rows| == 0 then Skipped
          else Displayed(Shown(HospitalTypeOf(sheet, y), DisplayRows(sheet, rows, [1, 2, c])))
  }

  /** The tables printed so far, and whether a pass has raised (which ends the script). */
  datatype Report = Report(shown: seq<Shown>, raised: bool)

  /** What the passes over the first `n` starts print; no table after a raise is reached. */
  function Reports(sheet: Sheet, starts: seq<(int, int)>, words: seq<string>, n: nat): Report
    requires n <= |starts|
  {
    if n == 0 then Report([], false)
    else
      var front := Reports(sheet, starts, words, n - 1);
      if front.raised then front else ReportStep(front, TableAt(sheet, starts, n - 1, words))
  }

  /** One pass: a raise is recorded, a displayed table is printed after the others. */
  function ReportStep(front: Report, result: TableResult): Report {
    match result
    case Failed => Report(front.shown, true)
    case Skipped => front
    case Displayed(s) => Report(front.shown + [s], false)
  }

  /** A pass over one more table, before any raise, is one more ReportStep. */
  lemma ReportsNext(sheet: Sheet, starts: seq<(int, int)>, words: seq<string>, t: nat, report: Report, result: TableResult)
    requires t < |starts| && report == Reports(sheet, starts, words, t) && !report.raised
    requires result == TableAt(sheet, starts, t, words)
    ensures Reports(sheet, starts, words, t + 1) == ReportStep(report, result)
  {
  }

  /** Once a table has raised, no later table is reached. */
  lemma {:induction false} ReportsStayRaised(sheet: Sheet, starts: seq<(int, int)>, words: seq<string>, m: nat, n: nat)
    requires m <= n <= |starts| && Reports(sheet, starts, words, m).raised
    ensures Reports(sheet, starts, words, n) == Reports(sheet, starts, words, m)
    decreases n - m
  {
    if m < n {
      ReportsStayRaised(sheet, starts, words, m, n - 1);
    }
  }

  lemma ReportStepKeepsShown(front: Report, result: TableResult)
    ensures front.shown <= ReportStep(front, result).shown
  {
  }

  /** A table printed stays printed: later passes only add tables after it, even when one raises. */
  lemma {:induction false} ReportsGrow(sheet: Sheet, starts: seq<(int, int)>, words: seq<string>, m: nat, n: nat)
    requires m <= n <= |starts|
    ensures Reports(sheet, starts, words, m).shown <= Reports(sheet, starts, words, n).shown
    decreases n - m
  {
    if m < n {
      ReportsGrow(sheet, starts, words, m, n - 1);
      var front := Reports(sheet, starts, words, n - 1);
      if !front.raised {
        ReportStepKeepsShown(front, TableAt(sheet, starts, n - 1, words));
      }
    }
  }

  /**
   * The passes raise exactly when some table's pass fails, and then every
   * table displayed before it is printed.
   */
  lemma {:induction false} ReportsRaised(sheet: Sheet, starts: seq<(int, int)>, words: seq<string>, n: nat)
    requires n <= |starts|
    ensures Reports(sheet, starts, words, n).raised <==> exists t | 0 <= t < n :: TableAt(sheet, starts, t, words).Failed?
    ensures forall k | 0 <= k < |Reports(sheet, starts, words, n).shown| ::
      exists t | 0 <= t < n :: TableAt(sheet, starts, t, words) == Displayed(Reports(sheet, starts, words, n).shown[k])
  {
    if n > 0 {
      ReportsRaised(sheet, starts, words, n - 1);
      var front := Reports(sheet, starts, words, n - 1);
      var out := Reports(sheet, starts, words, n);
      forall k | 0 <= k < |out.shown|
        ensures exists t | 0 <= t < n :: TableAt(sheet, starts, t, words) == Displayed(out.shown[k])
      {
        if k < |front.shown| {
          assert out.shown[k] == front.shown[k];
          var t :| 0 <= t < n - 1 && TableAt(sheet, starts, t, words) == Displayed(front.shown[k]);
        } else {
          assert TableAt(sheet, starts, n - 1, words) == Displayed(out.shown[k]);
        }
      }
    }
  }

  /**
   * In a sheet as openpyxl loads it, no table fails for its column range: a
   * header has a value, so a merged range holding it starts at it.
   */
  lemma HeaderColumnsPresent(sheet: Sheet, header: string, t: nat)
    requires ValidSheet(sheet)
    requires t < |Starts(sheet, header, sheet.maxRow)|
    ensures var s := Starts(sheet, header, sheet.maxRow)[t];
      |HeaderColumns(sheet, s.0, s.1)| == 2 && HeaderColumns(sheet, s.0, s.1)[0] == s.0 >= 1
  {
    StartsSound(sheet, header, sheet.maxRow);
    var s := Starts(sheet, header, sheet.maxRow)[t];
    if InMergedRange(sheet.merged, s.0, s.1) {
      MergedValueHasColRange(sheet, s.0, s.1);
    }
  }

  /**
   * A displayed table has at least one row, each row showing at most the three
   * display columns, and carries the type cell of its own table.
   */
  lemma DisplayedTableShape(sheet: Sheet, starts: seq<(int, int)>, t: nat, words: seq<string>)
    requires t < |starts|
    requires TableAt(sheet, starts, t, words).Displayed?
    ensures var s := TableAt(sheet, starts, t, words).shown;
      && |s.rows| > 0
      && (forall i | 0 <= i < |s.rows| :: |s.rows[i]| <= 3)
      && s.hospitalType == Cell(sheet, starts[t].1 - 2, 1)
  {
    var (x, y) := starts[t];
    var cols := HeaderColumns(sheet, x, y);
    var c := FirstColInRows(sheet, words, y + 1, NextStartRow(sheet, starts, t), cols[0], cols[1]);
    var rows := Availability(sheet, y + 3, NextStartRow(sheet, starts, t), c).value;
    forall i | 0 <= i < |rows| ensures |PresentCells(sheet, rows[i], [1, 2, c], 3)| <= 3 {
      PresentCellsSound(sheet, rows[i], [1, 2, c], 3);
    }
  }

  /** One pass of the loop at the bottom of the script. */
  method ScanTable(sheet: Sheet, starts: seq<(int, int)>, t: nat, bedType: string) returns (result: TableResult)
    requires t < |starts|
    ensures result == TableAt(sheet, starts, t, Split(bedType, ' '))
  {
    var tXy := starts[t];
    var rowRange := [tXy.1 + 1, NextStartRow(sheet, starts, t)];
    var colRange;
    var isMerged := CheckMergedCell(sheet, tXy.0, tXy.1);
    if isMerged {
      colRange := FindMergedCellColRange(sheet, tXy.0, tXy.1);
    } else {
      colRange := [tXy.0, tXy.0];
    }
    if |colRange| < 2 || colRange[0] < 1 {
      return Failed;
    }
    var reqColIdx := FindBedTypeColIdx(sheet, rowRange, colRange[..2], bedType);
    if reqColIdx == -1 {
      return Skipped;
    }
    rowRange := rowRange[0 := rowRange[0] + 2];
    var validRowIdxs := FindBedAvailability(sheet, rowRange, reqColIdx);
    if validRowIdxs.None? {
      return Failed;
    }
    if |validRowIdxs.value| == 0 {
      return Skipped;
    }
    var dispColIdxs := [1, 2, reqColIdx];
    var tableVals := DisplayBedAvailability(sheet, validRowIdxs.value, dispColIdxs);
    result := Displayed(Shown(HospitalTypeOf(sheet, tXy.1), tableVals));
  }

  /** The loop at the bottom of the script: one pass per table, printing as it goes, until a pass raises. */
  method ShowTables(sheet: Sheet, starts: seq<(int, int)>, bedType: string) returns (report: Report)
    ensures report == Reports(sheet, starts, Split(bedType, ' '), |starts|)
  {
    report := Report([], false);
    var t := 0;
    while t < |starts| && !report.raised
      invariant 0 <= t <= |starts|
      invariant report == Reports(sheet, starts, Split(bedType, ' '), t)
    {
      var result := ScanTable(sheet, starts, t, bedType);
      ReportsNext(sheet, starts, Split(bedType, ' '), t, report, result);
      if result.Failed? {
        report := Report(report.shown, true);
      } else if result.Displayed? {
        report := Report(report.shown + [result.shown], false);
      }
      t := t + 1;
    }
    if report.raised {
      ReportsStayRaised(sheet, starts, Split(bedType, ' '), t, |starts|);
    }
  }

  /**
   * The script's top level: the header cells, `find_hospital_type` (which raises
   * for a header in row 1 or 2, before any table is printed), then the passes
   * over the tables, with the next header's row (or `max_row + 1`) as the end of
   * each table's rows.  Each pass labels its table with the table's own type
   * cell rather than `hospital_types[t_idx]`.
   */
  method ScanTables(sheet: Sheet, header: string, bedType: string) returns (report: Option<Report>)
    ensures !TypeRowsReadable(Starts(sheet, header, sheet.maxRow)) ==> report.None?
    ensures TypeRowsReadable(Starts(sheet, header, sheet.maxRow)) ==>
      report == Some(Reports(sheet, Starts(sheet, header, sheet.maxRow), Split(bedType, ' '),
                             |Starts(sheet, header, sheet.maxRow)|))
  {
    var starts := FindReqTablesStartXy(sheet, header);
    var hospitalTypes := FindHospitalType(sheet, starts);
    if hospitalTypes.None? {
      return None;
    }
    var shown := ShowTables(sheet, starts, bedType);
    report := Some(shown);
  }
}
