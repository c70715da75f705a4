/**
 * The tables the bed-status scripts work on, as values.
 *
 * A page table (what `pd.read_html` gives for one `<table>` tag) has a facility
 * name column and, under the header 'Net Available Beds for C+ Patients', one
 * column per bed type.  `find_req_table` keeps the rows with a free bed of some
 * tracked type, projects them onto the name and the tracked bed types, and (in
 * the later script) sorts them by name.  The result is a `Table`: rows of a
 * hospital name followed by one count per tracked bed type, in that order.
 */
module Tables {
  import opened Strings

  /** One hospital: its name and one bed count per tracked bed type. */
  datatype Row = Row(name: string, counts: seq<int>)

  type Table = seq<Row>

  /** A page row: the facility name and one cell per bed-type column of its table. */
  datatype RawRow = RawRow(name: string, cells: seq<int>)

  /** A page table: its bed-type column labels and its rows. */
  datatype RawTable = RawTable(bedColumns: seq<string>, rows: seq<RawRow>)

  /** Every row has one cell per column, as in any DataFrame. */
  predicate Rectangular(t: RawTable) {
    forall i | 0 <= i < |t.rows| :: |t.rows[i].cells| == |t.bedColumns|
  }

  /** Every row has one count per tracked bed type. */
  predicate HasWidth(t: Table, width: nat) {
    forall i | 0 <= i < |t| :: |t[i].counts| == width
  }

  function Names(t: Table): (names: seq<string>)
    ensures |names| == |t|
    ensures forall i | 0 <= i < |t| :: names[i] == t[i].name
  {
    seq(|t|, i requires 0 <= i < |t| => t[i].name)
  }

  /** The first position of `x` in `xs`, or -1 (Python's `xs.index(x)` with its ValueError as -1). */
  function IndexOf(xs: seq<string>, x: string): (i: int)
    ensures -1 <= i < |xs|
    ensures i >= 0 ==> xs[i] == x && forall j | 0 <= j < i :: xs[j] != x
    ensures i < 0 <==> x !in xs
  {
    if |xs| == 0 then -1
    else if xs[0] == x then 0
    else
      var k := IndexOf(xs[1..], x);
      if k < 0 then -1 else k + 1
  }

  /** The column of each bed type, or the first bed type with no column (pandas' KeyError). */
  datatype Columns = Located(cols: seq<nat>) | NoColumn(bedType: string)

  function LocateColumns(labels: seq<string>, bedTypes: seq<string>): (r: Columns)
    ensures r.Located? ==> |r.cols| == |bedTypes|
    ensures r.Located? ==>
      forall j | 0 <= j < |bedTypes| :: r.cols[j] < |labels| && labels[r.cols[j]] == bedTypes[j]
    ensures r.NoColumn? <==> exists j | 0 <= j < |bedTypes| :: bedTypes[j] !in labels
    ensures r.NoColumn? ==> r.bedType in bedTypes && r.bedType !in labels
    ensures r.NoColumn? ==> exists j | 0 <= j < |bedTypes| ::
      r.bedType == bedTypes[j] && forall k | 0 <= k < j :: bedTypes[k] in labels
  {
    if |bedTypes| == 0 then Located([])
    else
      var i := IndexOf(labels, bedTypes[0]);
      if i < 0 then NoColumn(bedTypes[0])
      else match LocateColumns(labels, bedTypes[1..])
        case NoColumn(b) =>
          var j :| 0 <= j < |bedTypes| - 1 && b == bedTypes[1..][j] &&
            forall k | 0 <= k < j :: bedTypes[1..][k] in labels;
          assert forall k | 0 <= k < j + 1 :: bedTypes[k] in labels by {
            forall k | 0 <= k < j + 1 ensures bedTypes[k] in labels {
              if k > 0 { assert bedTypes[k] == bedTypes[1..][k - 1]; }
            }
          }
          NoColumn(b)
        case Located(rest) =>
          assert forall j | 1 <= j < |bedTypes| :: bedTypes[j] == bedTypes[1..][j - 1];
          Located([i as nat] + rest)
  }

  predicate ColumnsFit(t: RawTable, cols: seq<nat>) {
    forall j | 0 <= j < |cols| :: cols[j] < |t.bedColumns|
  }

  /** Some tracked bed type has a free bed in this row. */
  predicate HasFreeBed(r: RawRow, cols: seq<nat>)
    requires forall j | 0 <= j < |cols| :: cols[j] < |r.cells|
  {
    exists j | 0 <= j < |cols| :: r.cells[cols[j]] > 0
  }

  /**
   * The row filter `table[bed_types[0]] > 0 | table[bed_types[1]] > 0 | ...`,
   * built one bed type at a time as the scripts build `cond`.
   */
  method AvailabilityMask(t: RawTable, cols: seq<nat>) returns (cond: seq<bool>)
    requires Rectangular(t) && ColumnsFit(t, cols)
    requires |cols| > 0
    ensures |cond| == |t.rows|
    ensures forall i | 0 <= i < |t.rows| :: cond[i] == HasFreeBed(t.rows[i], cols)
  {
    cond := seq(|t.rows|, i requires 0 <= i < |t.rows| && Rectangular(t) && ColumnsFit(t, cols) =>
      t.rows[i].cells[cols[0]] > 0);
    var j := 1;
    while j < |cols|
      invariant 1 <= j <= |cols|
      invariant |cond| == |t.rows|
      invariant forall i | 0 <= i < |t.rows| ::
        cond[i] == exists k | 0 <= k < j :: t.rows[i].cells[cols[k]] > 0
    {
      var col := cols[j];
      cond := seq(|t.rows|, i requires 0 <= i < |t.rows| && |cond| == |t.rows| && Rectangular(t) && col < |t.bedColumns| =>
        cond[i] || t.rows[i].cells[col] > 0);
      j := j + 1;
    }
  }

  /** A kept row and the position (the DataFrame row label) it had in its page table. */
  datatype LabeledRow = LabeledRow(position: nat, row: Row)

  function Project(r: RawRow, cols: seq<nat>): (p: Row)
    requires forall j | 0 <= j < |cols| :: cols[j] < |r.cells|
    ensures p.name == r.name && |p.counts| == |cols|
    ensures forall j | 0 <= j < |cols| :: p.counts[j] == r.cells[cols[j]]
  {
    Row(r.name, seq(|cols|, j requires 0 <= j < |cols| && cols[j] < |r.cells| => r.cells[cols[j]]))
  }

  /** `table.loc[cond][columns]`: the rows the mask keeps, projected, with their original labels. */
  function SelectRows(rows: seq<RawRow>, cond: seq<bool>, cols: seq<nat>): (out: seq<LabeledRow>)
    requires |cond| == |rows|
    requires forall i, j | 0 <= i < |rows| && 0 <= j < |cols| :: cols[j] < |rows[i].cells|
    ensures forall k | 0 <= k < |out| ::
      out[k].position < |rows| && cond[out[k].position] && out[k].row == Project(rows[out[k].position], cols)
    ensures forall k, l | 0 <= k < l < |out| :: out[k].position < out[l].position
    ensures forall i | 0 <= i < |rows| && cond[i] :: exists k | 0 <= k < |out| :: out[k].position == i
  {
    SelectFirst(rows, cond, cols, |rows|)
  }

  /** The kept rows among the first `n`. */
  function SelectFirst(rows: seq<RawRow>, cond: seq<bool>, cols: seq<nat>, n: nat): (out: seq<LabeledRow>)
    requires |cond| == |rows| && n <= |rows|
    requires forall i, j | 0 <= i < |rows| && 0 <= j < |cols| :: cols[j] < |rows[i].cells|
    ensures forall k | 0 <= k < |out| ::
      out[k].position < n && cond[out[k].position] && out[k].row == Project(rows[out[k].position], cols)
    ensures forall k, l | 0 <= k < l < |out| :: out[k].position < out[l].position
    ensures forall i | 0 <= i < n && cond[i] :: exists k | 0 <= k < |out| :: out[k].position == i
  {
    if n == 0 then []
    else
      var front := SelectFirst(rows, cond, cols, n - 1);
      if cond[n - 1] then
        var out := front + [LabeledRow(n - 1, Project(rows[n - 1], cols))];
        assert out[|front|].position == n - 1;
        assert forall k | 0 <= k < |front| :: out[k] == front[k];
        out
      else front
  }

  /** The rows of a page table with a free bed of some tracked type, projected onto name and tracked bed types. */
  function AvailableRows(raw: RawTable, cols: seq<nat>): seq<LabeledRow>
    requires Rectangular(raw) && ColumnsFit(raw, cols)
  {
    assert forall i, j | 0 <= i < |raw.rows| && 0 <= j < |cols| :: cols[j] < |raw.rows[i].cells|;
    SelectRows(raw.rows, FreeBedMask(raw, cols), cols)
  }

  /** Every kept row had a free bed, is its page row projected, and the rows keep their page order. */
  lemma AvailableRowsSound(raw: RawTable, cols: seq<nat>)
    requires Rectangular(raw) && ColumnsFit(raw, cols)
    ensures var out := AvailableRows(raw, cols);
      forall k | 0 <= k < |out| ::
        out[k].position < |raw.rows| && HasFreeBed(raw.rows[out[k].position], cols) &&
        out[k].row == Project(raw.rows[out[k].position], cols)
    ensures var out := AvailableRows(raw, cols);
      forall k, l | 0 <= k < l < |out| :: out[k].position < out[l].position
  {
  }

  /** Every page row with a free bed of a tracked type is kept. */
  lemma AvailableRowsComplete(raw: RawTable, cols: seq<nat>, i: nat)
    requires Rectangular(raw) && ColumnsFit(raw, cols)
    requires i < |raw.rows| && HasFreeBed(raw.rows[i], cols)
    ensures var out := AvailableRows(raw, cols);
      exists k | 0 <= k < |out| :: out[k].position == i
  {
    var mask := FreeBedMask(raw, cols);
    assert forall i, j | 0 <= i < |raw.rows| && 0 <= j < |cols| :: cols[j] < |raw.rows[i].cells|;
    assert AvailableRows(raw, cols) == SelectRows(raw.rows, mask, cols);
    assert mask[i];
  }

  /** The `cond` mask of a page table, as a value. */
  function FreeBedMask(raw: RawTable, cols: seq<nat>): (cond: seq<bool>)
    requires Rectangular(raw) && ColumnsFit(raw, cols)
    ensures |cond| == |raw.rows|
    ensures forall i | 0 <= i < |raw.rows| :: cond[i] == HasFreeBed(raw.rows[i], cols)
  {
    seq(|raw.rows|, i requires 0 <= i < |raw.rows| && Rectangular(raw) && ColumnsFit(raw, cols) =>
      HasFreeBed(raw.rows[i], cols))
  }

  function Unlabel(t: seq<LabeledRow>): (r: Table)
    ensures |r| == |t|
    ensures forall k | 0 <= k < |t| :: r[k] == t[k].row
  {
    seq(|t|, k requires 0 <= k < |t| => t[k].row)
  }

  predicate SortedByName(t: Table) {
    forall i, j | 0 <= i < j < |t| :: LessEq(t[i].name, t[j].name)
  }

  predicate UniqueNames(t: Table) {
    forall i, j | 0 <= i < j < |t| :: t[i].name != t[j].name
  }

  predicate StrictlySorted(names: seq<string>) {
    forall i, j | 0 <= i < j < |names| :: Less(names[i], names[j])
  }

  lemma SortedUniqueIsStrict(t: Table)
    requires SortedByName(t) && UniqueNames(t)
    ensures StrictlySorted(Names(t))
  {
  }

  /** `r` placed before the first row whose name is not below its own. */
  function InsertByName(r: Row, t: Table): (out: Table)
    ensures multiset(out) == multiset(t) + multiset{r}
    ensures |out| == |t| + 1
  {
    if |t| == 0 then [r]
    else if LessEq(r.name, t[0].name) then [r] + t
    else
      assert t == [t[0]] + t[1..];
      [t[0]] + InsertByName(r, t[1..])
  }

  /** Every name of `t` is at least `a` when the first one is and `t` is sorted. */
  lemma SortedFromHead(a: string, t: Table)
    requires SortedByName(t) && |t| > 0 && LessEq(a, t[0].name)
    ensures forall j | 0 <= j < |t| :: LessEq(a, t[j].name)
  {
    forall j | 0 < j < |t| ensures LessEq(a, t[j].name) {
      if a != t[0].name && t[0].name != t[j].name {
        LessTransitive(a, t[0].name, t[j].name);
      }
    }
  }

  /** Inserting into a sorted table keeps it sorted. */
  lemma {:induction false} InsertSorted(r: Row, t: Table)
    requires SortedByName(t)
    ensures SortedByName(InsertByName(r, t))
  {
    if |t| > 0 {
      if LessEq(r.name, t[0].name) {
        SortedFromHead(r.name, t);
      } else {
        var rest := InsertByName(r, t[1..]);
        InsertSorted(r, t[1..]);
        LessTotal(r.name, t[0].name);
        forall k | 0 <= k < |rest| ensures LessEq(t[0].name, rest[k].name) {
          assert rest[k] in multiset(rest);
          assert rest[k] == r || rest[k] in multiset(t[1..]);
          if rest[k] != r {
            var j :| 0 <= j < |t[1..]| && t[1..][j] == rest[k];
            assert t[j + 1] == rest[k];
          }
        }
      }
    }
  }

  /** `sort_values(name)`: the rows in ascending name order (a stable insertion sort). */
  function SortByName(t: Table): (out: Table)
    ensures SortedByName(out)
    ensures multiset(out) == multiset(t)
    ensures |out| == |t|
  {
    if |t| == 0 then []
    else
      assert t == [t[0]] + t[1..];
      var sorted := SortByName(t[1..]);
      InsertSorted(t[0], sorted);
      InsertByName(t[0], sorted)
  }
}
