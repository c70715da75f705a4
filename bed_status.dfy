/**
 * The first bed-status script (bbmpgov_chbms_covid_bed_status.py): table
 * extraction that returns the chosen category table whole, and a differ that
 * runs pandas' `compare` on every pair of same-title tables and collects the
 * non-empty results in a local list.  The differ has no `return`, so Python
 * hands its caller None; the model returns the list it builds, which the
 * script's caller throws away.
 */
module BedStatus {
  import opened Wrappers
  import opened Tables
  import opened PageScan

  /**
   * `find_req_table`: None without headings or tables or without a heading
   * naming a listed title; otherwise `[title, table]` with the chosen table as
   * read, no row or column dropped.
   */
  method FindReqTable(h4s: seq<Heading>, tables: seq<TableTag>, titles: seq<string>)
    returns (r: Option<(string, RawTable)>)
    ensures r.None? <==> |h4s| == 0 || |tables| == 0 || ChosenHeading(h4s, titles).None?
    ensures r.Some? ==>
      && |tables| > 0 && ChosenHeading(h4s, titles).Some?
      && r.value == (ChosenHeading(h4s, titles).value.0, tables[LowestTable(tables)].data)
  {
    if |h4s| == 0 {
      return None;
    }
    if |tables| == 0 {
      return None;
    }
    var heading := FindHeading(h4s, categories := titles);
    if heading.None? {
      return None;
    }
    var k := ChooseTable(tables, heading.value.1);
    r := Some((heading.value.0, tables[k].data));
  }

  /** One cell of a page table: the facility name, or a bed count. */
  datatype Cell = Name(text: string) | Count(value: int)

  /** A page row as `compare` sees it: the name column, then the bed columns. */
  function RowCells(r: RawRow): (cells: seq<Cell>)
    ensures |cells| == |r.cells| + 1
    ensures cells[0] == Name(r.name)
    ensures forall c | 1 <= c < |cells| :: cells[c] == Count(r.cells[c - 1])
  {
    [Name(r.name)] + seq(|r.cells|, c requires 0 <= c < |r.cells| => Count(r.cells[c]))
  }

  /** Rows with the same cells are the same row. */
  lemma RowCellsInjective(a: RawRow, b: RawRow)
    requires RowCells(a) == RowCells(b)
    ensures a == b
  {
    assert RowCells(a)[0] == Name(a.name);
    assert |a.cells| == |b.cells|;
    forall c | 0 <= c < |a.cells| ensures a.cells[c] == b.cells[c] {
      assert RowCells(a)[c + 1] == Count(a.cells[c]);
    }
  }

  /** One cell `compare` reports: row, column (0 is the name), and the `self` and `other` values. */
  datatype CellChange = CellChange(row: nat, column: nat, self: Cell, other: Cell)

  /** `compare` accepts identically-labelled tables only: same columns, same rows. */
  predicate SameLayout(ref: RawTable, cur: RawTable) {
    && ref.bedColumns == cur.bedColumns
    && |ref.rows| == |cur.rows|
    && Rectangular(ref) && Rectangular(cur)
  }

  /** The differing cells among the first `n` columns of row `p`. */
  function RowChanges(p: nat, a: seq<Cell>, b: seq<Cell>, n: nat): seq<CellChange>
    requires n <= |a| == |b|
  {
    if n == 0 then []
    else
      RowChanges(p, a, b, n - 1) + if a[n - 1] != b[n - 1] then [CellChange(p, n - 1, a[n - 1], b[n - 1])] else []
  }

  /** A row gives no change exactly when its first `n` cells agree. */
  lemma {:induction false} RowChangesEmpty(p: nat, a: seq<Cell>, b: seq<Cell>, n: nat)
    requires n <= |a| == |b|
    ensures RowChanges(p, a, b, n) == [] <==> a[..n] == b[..n]
  {
    if n > 0 {
      RowChangesEmpty(p, a, b, n - 1);
      if a[..n] == b[..n] {
        assert a[..n - 1] == a[..n][..n - 1] && b[..n - 1] == b[..n][..n - 1];
        assert a[n - 1] == a[..n][n - 1] && b[n - 1] == b[..n][n - 1];
      } else if a[n - 1] == b[n - 1] {
        assert a[..n] == a[..n - 1] + [a[n - 1]];
        assert b[..n] == b[..n - 1] + [b[n - 1]];
      }
    }
  }

  /** `ref.compare(cur)` over the first `n` rows, row by row and column by column. */
  function Compare(ref: RawTable, cur: RawTable, n: nat): seq<CellChange>
    requires SameLayout(ref, cur) && n <= |ref.rows|
  {
    if n == 0 then []
    else
      var p := n - 1;
      var a, b := RowCells(ref.rows[p]), RowCells(cur.rows[p]);
      Compare(ref, cur, p) + RowChanges(p, a, b, |a|)
  }

  /** `c` is a cell among the first `n` rows where the tables differ, with both values. */
  predicate IsDifference(ref: RawTable, cur: RawTable, n: nat, c: CellChange)
    requires SameLayout(ref, cur) && n <= |ref.rows|
  {
    && c.row < n && c.column < |RowCells(ref.rows[c.row])|
    && c.self == RowCells(ref.rows[c.row])[c.column]
    && c.other == RowCells(cur.rows[c.row])[c.column]
    && c.self != c.other
  }

  /** Every change of a row is a differing cell of it. */
  lemma {:induction false} RowChangesSound(p: nat, a: seq<Cell>, b: seq<Cell>, n: nat)
    requires n <= |a| == |b|
    ensures forall k | 0 <= k < |RowChanges(p, a, b, n)| ::
      var c := RowChanges(p, a, b, n)[k];
      c.row == p && c.column < n && c.self == a[c.column] && c.other == b[c.column] && c.self != c.other
  {
    if n > 0 {
      RowChangesSound(p, a, b, n - 1);
      var front := RowChanges(p, a, b, n - 1);
      var out := RowChanges(p, a, b, n);
      forall k | 0 <= k < |out|
        ensures out[k].row == p && out[k].column < n && out[k].self == a[out[k].column] &&
          out[k].other == b[out[k].column] && out[k].self != out[k].other
      {
        if k < |front| {
          assert out[k] == front[k];
        }
      }
    }
  }

  /** Every change `compare` reports is a cell where the two tables differ. */
  lemma {:induction false} CompareSound(ref: RawTable, cur: RawTable, n: nat)
    requires SameLayout(ref, cur) && n <= |ref.rows|
    ensures forall k | 0 <= k < |Compare(ref, cur, n)| :: IsDifference(ref, cur, n, Compare(ref, cur, n)[k])
  {
    if n > 0 {
      var p := n - 1;
      CompareSound(ref, cur, p);
      var a, b := RowCells(ref.rows[p]), RowCells(cur.rows[p]);
      var front := Compare(ref, cur, p);
      var more := RowChanges(p, a, b, |a|);
      RowChangesSound(p, a, b, |a|);
      var out := front + more;
      assert out == Compare(ref, cur, n);
      forall k | 0 <= k < |out| ensures IsDifference(ref, cur, n, out[k]) {
        if k < |front| {
          assert out[k] == front[k];
          assert IsDifference(ref, cur, p, front[k]);
        } else {
          assert out[k] == more[k - |front|];
        }
      }
    }
  }

  /** Every differing cell among the first `n` columns of a row is reported. */
  lemma {:induction false} RowChangesComplete(p: nat, a: seq<Cell>, b: seq<Cell>, n: nat, column: nat)
    requires n <= |a| == |b| && column < n && a[column] != b[column]
    ensures CellChange(p, column, a[column], b[column]) in RowChanges(p, a, b, n)
  {
    var front := RowChanges(p, a, b, n - 1);
    var last := if a[n - 1] != b[n - 1] then [CellChange(p, n - 1, a[n - 1], b[n - 1])] else [];
    assert RowChanges(p, a, b, n) == front + last;
    if column < n - 1 {
      RowChangesComplete(p, a, b, n - 1, column);
      assert CellChange(p, column, a[column], b[column]) in front;
    } else {
      assert last[0] == CellChange(p, column, a[column], b[column]);
    }
  }

  /** Every cell among the first `n` rows where the tables differ is among the changes `compare` reports. */
  lemma {:induction false} CompareComplete(ref: RawTable, cur: RawTable, n: nat, c: CellChange)
    requires SameLayout(ref, cur) && n <= |ref.rows|
    requires IsDifference(ref, cur, n, c)
    ensures c in Compare(ref, cur, n)
  {
    var p := n - 1;
    var front := Compare(ref, cur, p);
    var more := RowChanges(p, RowCells(ref.rows[p]), RowCells(cur.rows[p]), |RowCells(ref.rows[p])|);
    assert Compare(ref, cur, n) == front + more;
    if c.row < p {
      CompareComplete(ref, cur, p, c);
      assert c in front;
    } else {
      RowComplete(ref, cur, p, c);
      assert c in more;
    }
  }

  /** A differing cell of row `p` is among that row's changes. */
  lemma RowComplete(ref: RawTable, cur: RawTable, p: nat, c: CellChange)
    requires SameLayout(ref, cur) && p < |ref.rows|
    requires IsDifference(ref, cur, p + 1, c) && c.row == p
    ensures c in RowChanges(p, RowCells(ref.rows[p]), RowCells(cur.rows[p]), |RowCells(ref.rows[p])|)
  {
    var a, b := RowCells(ref.rows[p]), RowCells(cur.rows[p]);
    assert |a| == |b| by {
      assert |ref.rows[p].cells| == |cur.rows[p].cells|;
    }
    RowChangesComplete(p, a, b, |a|, c.column);
  }

  /** Row `p` gives no change exactly when it is the same row in both tables. */
  lemma RowUnchanged(ref: RawTable, cur: RawTable, p: nat)
    requires SameLayout(ref, cur) && p < |ref.rows|
    ensures RowChanges(p, RowCells(ref.rows[p]), RowCells(cur.rows[p]), |RowCells(ref.rows[p])|) == [] <==>
      ref.rows[p] == cur.rows[p]
  {
    var a, b := RowCells(ref.rows[p]), RowCells(cur.rows[p]);
    RowChangesEmpty(p, a, b, |a|);
    assert a[..|a|] == a && b[..|b|] == b;
    if a == b {
      RowCellsInjective(ref.rows[p], cur.rows[p]);
    }
  }

  /** `compare` finds nothing among the first `n` rows exactly when those rows are the same. */
  lemma {:induction false} CompareEmpty(ref: RawTable, cur: RawTable, n: nat)
    requires SameLayout(ref, cur) && n <= |ref.rows|
    ensures Compare(ref, cur, n) == [] <==> forall q | 0 <= q < n :: ref.rows[q] == cur.rows[q]
  {
    if n > 0 {
      var p := n - 1;
      CompareEmpty(ref, cur, p);
      RowUnchanged(ref, cur, p);
      var front := Compare(ref, cur, p);
      var more := RowChanges(p, RowCells(ref.rows[p]), RowCells(cur.rows[p]), |RowCells(ref.rows[p])|);
      assert Compare(ref, cur, n) == front + more;
      assert front + more == [] <==> front == [] && more == [] by {
        assert |front + more| == |front| + |more|;
      }
    }
  }

  /** Same-layout tables with no differing cell are the same table. */
  lemma CompareEmptyIffSame(ref: RawTable, cur: RawTable)
    requires SameLayout(ref, cur)
    ensures Compare(ref, cur, |ref.rows|) == [] <==> ref == cur
  {
    CompareEmpty(ref, cur, |ref.rows|);
    if forall q | 0 <= q < |ref.rows| :: ref.rows[q] == cur.rows[q] {
      assert ref.rows == cur.rows;
    }
  }

  /** A `[title, table]` pair as `find_req_table` returns it. */
  datatype TitledRaw = TitledRaw(title: string, data: RawTable)

  predicate ReadyAgainst(r: TitledRaw, cur: seq<TitledRaw>) {
    forall j | 0 <= j < |cur| && cur[j].title == r.title :: SameLayout(r.data, cur[j].data)
  }

  predicate DiffReady(ref: seq<TitledRaw>, cur: seq<TitledRaw>) {
    forall i | 0 <= i < |ref| :: ReadyAgainst(ref[i], cur)
  }

  /** The non-empty comparisons of one reference table with the first `n` current ones of its title. */
  function ChangesAgainst(r: TitledRaw, cur: seq<TitledRaw>, n: nat): seq<seq<CellChange>>
    requires n <= |cur| && ReadyAgainst(r, cur)
  {
    if n == 0 then []
    else
      var front := ChangesAgainst(r, cur, n - 1);
      var c := cur[n - 1];
      if r.title == c.title then
        var changes := Compare(r.data, c.data, |r.data.rows|);
        if changes != [] then front + [changes] else front
      else front
  }

  /** `bed_changes_infos` after the first `n` reference tables. */
  function Changes(ref: seq<TitledRaw>, cur: seq<TitledRaw>, n: nat): seq<seq<CellChange>>
    requires n <= |ref| && DiffReady(ref, cur)
  {
    if n == 0 then []
    else Changes(ref, cur, n - 1) + ChangesAgainst(ref[n - 1], cur, |cur|)
  }

  /** Every collected comparison is non-empty and lists cells where a same-title pair differs. */
  lemma {:induction false} ChangesAgainstSound(r: TitledRaw, cur: seq<TitledRaw>, n: nat)
    requires n <= |cur| && ReadyAgainst(r, cur)
    ensures forall k | 0 <= k < |ChangesAgainst(r, cur, n)| ::
      ChangesAgainst(r, cur, n)[k] != [] &&
      exists j | 0 <= j < n :: cur[j].title == r.title && ChangesAgainst(r, cur, n)[k] == Compare(r.data, cur[j].data, |r.data.rows|)
  {
    if n > 0 {
      ChangesAgainstSound(r, cur, n - 1);
      var front := ChangesAgainst(r, cur, n - 1);
      var out := ChangesAgainst(r, cur, n);
      forall k | 0 <= k < |out|
        ensures out[k] != [] &&
          exists j | 0 <= j < n :: cur[j].title == r.title && out[k] == Compare(r.data, cur[j].data, |r.data.rows|)
      {
        if k < |front| {
          assert out[k] == front[k];
          var j :| 0 <= j < n - 1 && cur[j].title == r.title && front[k] == Compare(r.data, cur[j].data, |r.data.rows|);
        } else {
          assert out[k] == Compare(r.data, cur[n - 1].data, |r.data.rows|);
        }
      }
    }
  }

  /** A table whose title no other table shares is compared only with itself, and adds nothing. */
  lemma {:induction false} ComparedOnlyWithItself(x: seq<TitledRaw>, i: nat, n: nat)
    requires i < |x| && n <= |x|
    requires forall i, j | 0 <= i < j < |x| :: x[i].title != x[j].title
    requires ReadyAgainst(x[i], x)
    ensures ChangesAgainst(x[i], x, n) == []
  {
    if n > 0 {
      ComparedOnlyWithItself(x, i, n - 1);
      if n - 1 == i {
        CompareEmptyIffSame(x[i].data, x[i].data);
      } else {
        assert x[i].title != x[n - 1].title by {
          if i < n - 1 {
            assert x[i].title != x[n - 1].title;
          } else {
            assert x[n - 1].title != x[i].title;
          }
        }
      }
    }
  }

  /** When no reference table contributes anything, nothing is collected. */
  lemma {:induction false} NothingContributes(ref: seq<TitledRaw>, cur: seq<TitledRaw>, n: nat)
    requires n <= |ref| && DiffReady(ref, cur)
    requires forall i | 0 <= i < |ref| :: ChangesAgainst(ref[i], cur, |cur|) == []
    ensures Changes(ref, cur, n) == []
  {
    if n > 0 {
      NothingContributes(ref, cur, n - 1);
    }
  }

  /** Comparing a snapshot whose titles are distinct with itself collects nothing. */
  lemma DiffWithItself(x: seq<TitledRaw>)
    requires forall i, j | 0 <= i < j < |x| :: x[i].title != x[j].title
    requires forall i | 0 <= i < |x| :: Rectangular(x[i].data)
    ensures DiffReady(x, x)
    ensures Changes(x, x, |x|) == []
  {
    forall i | 0 <= i < |x| ensures ReadyAgainst(x[i], x) {
      forall j | 0 <= j < |x| && j != i ensures x[j].title != x[i].title {
        if i < j {
          assert x[i].title != x[j].title;
        } else {
          assert x[j].title != x[i].title;
        }
      }
    }
    forall i | 0 <= i < |x| ensures ChangesAgainst(x[i], x, |x|) == [] {
      ComparedOnlyWithItself(x, i, |x|);
    }
    NothingContributes(x, x, |x|);
  }

  /** The inner loop of `find_bed_availability_changes`: one reference table against every current one. */
  method ChangesAgainstOf(refTableInfos: TitledRaw, cur: seq<TitledRaw>) returns (found: seq<seq<CellChange>>)
    requires ReadyAgainst(refTableInfos, cur)
    ensures found == ChangesAgainst(refTableInfos, cur, |cur|)
  {
    found := [];
    var j := 0;
    while j < |cur|
      invariant 0 <= j <= |cur|
      invariant found == ChangesAgainst(refTableInfos, cur, j)
    {
      var curTableInfos := cur[j];
      StepChangesAgainst(refTableInfos, cur, j);
      if refTableInfos.title == curTableInfos.title {
        var bedChangeInfos := Compare(refTableInfos.data, curTableInfos.data, |refTableInfos.data.rows|);
        if bedChangeInfos != [] {
          found := found + [bedChangeInfos];
        }
      }
      j := j + 1;
    }
  }

  /**
   * `find_bed_availability_changes`: `compare` on every same-title pair, the
   * non-empty results appended to `bed_changes_infos`.  The script returns
   * None; the list is returned here so that the contract can say what it holds.
   */
  method FindBedAvailabilityChanges(ref: seq<TitledRaw>, cur: seq<TitledRaw>) returns (bedChangesInfos: seq<seq<CellChange>>)
    requires DiffReady(ref, cur)
    ensures bedChangesInfos == Changes(ref, cur, |ref|)
  {
    bedChangesInfos := [];
    var i := 0;
    while i < |ref|
      invariant 0 <= i <= |ref|
      invariant bedChangesInfos == Changes(ref, cur, i)
    {
      assert ReadyAgainst(ref[i], cur);
      var found := ChangesAgainstOf(ref[i], cur);
      bedChangesInfos := bedChangesInfos + found;
      i := i + 1;
    }
  }

  lemma StepChangesAgainst(r: TitledRaw, cur: seq<TitledRaw>, j: nat)
    requires j < |cur| && ReadyAgainst(r, cur)
    ensures r.title == cur[j].title ==> SameLayout(r.data, cur[j].data)
    ensures ChangesAgainst(r, cur, j + 1) ==
      if r.title == cur[j].title && Compare(r.data, cur[j].data, |r.data.rows|) != [] then
        ChangesAgainst(r, cur, j) + [Compare(r.data, cur[j].data, |r.data.rows|)]
      else ChangesAgainst(r, cur, j)
  {
  }
}
