/**
 * The earlier bed-status script (bbmpgov_chbms_covid_bed_live_status.py):
 * table extraction that filters and projects each category table but neither
 * sorts it nor renumbers its rows, and a differ that compares two tables of
 * the same title cell by cell and reports one `[hospital, reference - current]`
 * entry per bed count that changed.
 *
 * pandas' `compare` only accepts tables with the same row labels, and the
 * subtraction `self - other` fails on a name column that differs, so the
 * differ requires both tables to list the same hospitals under the same
 * labels (SameShape).
 *
 * The script reads the hospital's name with `iat[index, 0]`, a positional
 * lookup, with `index` the row LABEL that `compare` reports.  After the row
 * filter the labels are no longer positions, so the name comes from another
 * row or the lookup raises IndexError.  PairEntriesAsWritten models that;
 * PairEntries, which the methods implement, reads the name of the row itself.
 */
module LiveStatus {
  import opened Wrappers
  import opened Tables
  import opened PageScan

  /** What `find_req_table` gives: None, `[title, table]` with the page's row labels, or pandas' KeyError. */
  datatype Extraction = NoTable | Found(title: string, rows: seq<LabeledRow>) | MissingColumn(bedType: string)

  /**
   * `find_req_table`: no table without headings or tables or without a heading
   * naming a category; otherwise the chosen table's rows with a free bed,
   * projected onto name and `bedTypes` in that order, in page order and with
   * their page row labels.
   */
  method FindReqTable(h4s: seq<Heading>, tables: seq<TableTag>, categories: seq<string>, bedTypes: seq<string>)
    returns (r: Extraction)
    requires |bedTypes| > 0
    requires forall k | 0 <= k < |tables| :: Rectangular(tables[k].data)
    ensures r.NoTable? <==> |h4s| == 0 || |tables| == 0 || ChosenHeading(h4s, categories).None?
    ensures !r.NoTable? ==> |tables| > 0 && ChosenHeading(h4s, categories).Some?
    ensures r.MissingColumn? ==>
      LocateColumns(tables[LowestTable(tables)].data.bedColumns, bedTypes) == NoColumn(r.bedType)
    ensures r.Found? ==> r.title == ChosenHeading(h4s, categories).value.0
    ensures r.Found? ==>
      var raw := tables[LowestTable(tables)].data;
      var located := LocateColumns(raw.bedColumns, bedTypes);
      located.Located? && r.rows == AvailableRows(raw, located.cols)
  {
    if |h4s| == 0 {
      return NoTable;
    }
    if |tables| == 0 {
      return NoTable;
    }
    var heading := FindHeading(h4s, categories);
    if heading.None? {
      return NoTable;
    }
    var k := ChooseTable(tables, heading.value.1);
    var raw := tables[k].data;
    var located := LocateColumns(raw.bedColumns, bedTypes);
    if located.NoColumn? {
      return MissingColumn(located.bedType);
    }
    var cols := located.cols;
    var cond := AvailabilityMask(raw, cols);
    assert cond == FreeBedMask(raw, cols);
    r := Found(heading.value.0, SelectRows(raw.rows, cond, cols));
  }

  /** One `[hospital_name, bed_dif]` entry of a change list. */
  datatype Entry = Entry(name: string, change: int)

  /** A `[title, table]` pair as `find_req_table` returns it. */
  datatype TitledRows = TitledRows(title: string, rows: seq<LabeledRow>)

  /**
   * What `compare` and the subtraction need: the same row labels in the same
   * order, the same hospital under each label, one count per bed type.
   */
  predicate SameShape(ref: seq<LabeledRow>, cur: seq<LabeledRow>, width: nat) {
    && |ref| == |cur|
    && (forall p | 0 <= p < |ref| :: ref[p].position == cur[p].position && ref[p].row.name == cur[p].row.name)
    && (forall p | 0 <= p < |ref| :: |ref[p].row.counts| == width && |cur[p].row.counts| == width)
  }

  /** The entries of one compared row among its first `n` bed types: one per count that differs. */
  function RowEntries(name: string, refCounts: seq<int>, curCounts: seq<int>, n: nat): seq<Entry>
    requires n <= |refCounts| == |curCounts|
  {
    if n == 0 then []
    else
      RowEntries(name, refCounts, curCounts, n - 1) +
        if refCounts[n - 1] != curCounts[n - 1] then [Entry(name, refCounts[n - 1] - curCounts[n - 1])] else []
  }

  /** Every entry of a row carries its name and `reference - current` of a bed type whose count differs. */
  lemma {:induction false} RowEntriesSound(name: string, refCounts: seq<int>, curCounts: seq<int>, n: nat)
    requires n <= |refCounts| == |curCounts|
    ensures forall k | 0 <= k < |RowEntries(name, refCounts, curCounts, n)| ::
      var e := RowEntries(name, refCounts, curCounts, n)[k];
      e.name == name && e.change != 0 &&
      exists b | 0 <= b < n :: refCounts[b] != curCounts[b] && e.change == refCounts[b] - curCounts[b]
  {
    if n > 0 {
      RowEntriesSound(name, refCounts, curCounts, n - 1);
      var front := RowEntries(name, refCounts, curCounts, n - 1);
      var out := RowEntries(name, refCounts, curCounts, n);
      forall k | 0 <= k < |out|
        ensures out[k].name == name && out[k].change != 0 &&
          exists b | 0 <= b < n :: refCounts[b] != curCounts[b] && out[k].change == refCounts[b] - curCounts[b]
      {
        if k < |front| {
          assert out[k] == front[k];
          var b :| 0 <= b < n - 1 && refCounts[b] != curCounts[b] && front[k].change == refCounts[b] - curCounts[b];
        } else {
          assert out[k] == Entry(name, refCounts[n - 1] - curCounts[n - 1]);
        }
      }
    }
  }

  /** Every bed type whose count differs gives its entry. */
  lemma {:induction false} RowEntriesComplete(name: string, refCounts: seq<int>, curCounts: seq<int>, n: nat, b: nat)
    requires n <= |refCounts| == |curCounts|
    requires b < n && refCounts[b] != curCounts[b]
    ensures Entry(name, refCounts[b] - curCounts[b]) in RowEntries(name, refCounts, curCounts, n)
  {
    var front := RowEntries(name, refCounts, curCounts, n - 1);
    var last := if refCounts[n - 1] != curCounts[n - 1] then [Entry(name, refCounts[n - 1] - curCounts[n - 1])] else [];
    assert RowEntries(name, refCounts, curCounts, n) == front + last;
    if b < n - 1 {
      RowEntriesComplete(name, refCounts, curCounts, n - 1, b);
      assert Entry(name, refCounts[b] - curCounts[b]) in front;
    } else {
      assert last == [Entry(name, refCounts[b] - curCounts[b])];
    }
  }

  /** A row gives no entry exactly when its first `n` counts are the same in both tables. */
  lemma {:induction false} RowEntriesEmpty(name: string, refCounts: seq<int>, curCounts: seq<int>, n: nat)
    requires n <= |refCounts| == |curCounts|
    ensures RowEntries(name, refCounts, curCounts, n) == [] <==> refCounts[..n] == curCounts[..n]
  {
    if n > 0 {
      RowEntriesEmpty(name, refCounts, curCounts, n - 1);
      if refCounts[..n] == curCounts[..n] {
        assert refCounts[..n - 1] == refCounts[..n][..n - 1] && curCounts[..n - 1] == curCounts[..n][..n - 1];
        assert refCounts[n - 1] == refCounts[..n][n - 1] && curCounts[n - 1] == curCounts[..n][n - 1];
      } else if refCounts[n - 1] == curCounts[n - 1] {
        assert refCounts[..n] == refCounts[..n - 1] + [refCounts[n - 1]];
        assert curCounts[..n] == curCounts[..n - 1] + [curCounts[n - 1]];
      }
    }
  }

  /**
   * The change list of a same-title pair over its first `n` rows, each row's
   * entries under the name of that row.
   */
  function PairEntries(ref: seq<LabeledRow>, cur: seq<LabeledRow>, width: nat, n: nat): seq<Entry>
    requires n <= |ref| && SameShape(ref, cur, width)
  {
    if n == 0 then []
    else
      var p := n - 1;
      PairEntries(ref, cur, width, p) + RowEntries(ref[p].row.name, ref[p].row.counts, cur[p].row.counts, width)
  }

  /** `e` is the entry of a changed count among the first `n` rows, under that row's hospital. */
  predicate ReportsChange(ref: seq<LabeledRow>, cur: seq<LabeledRow>, width: nat, n: nat, e: Entry)
    requires n <= |ref| && SameShape(ref, cur, width)
  {
    exists p, b | 0 <= p < n && 0 <= b < width ::
      ref[p].row.counts[b] != cur[p].row.counts[b] &&
      e == Entry(ref[p].row.name, ref[p].row.counts[b] - cur[p].row.counts[b])
  }

  /** Every entry names a hospital whose count of some bed type changed, with `reference - current`. */
  lemma {:induction false} PairEntriesSound(ref: seq<LabeledRow>, cur: seq<LabeledRow>, width: nat, n: nat)
    requires n <= |ref| && SameShape(ref, cur, width)
    ensures forall k | 0 <= k < |PairEntries(ref, cur, width, n)| ::
      ReportsChange(ref, cur, width, n, PairEntries(ref, cur, width, n)[k])
  {
    if n > 0 {
      var p := n - 1;
      PairEntriesSound(ref, cur, width, p);
      var front := PairEntries(ref, cur, width, p);
      var more := RowEntries(ref[p].row.name, ref[p].row.counts, cur[p].row.counts, width);
      RowEntriesSound(ref[p].row.name, ref[p].row.counts, cur[p].row.counts, width);
      var out := front + more;
      assert out == PairEntries(ref, cur, width, n);
      forall k | 0 <= k < |out| ensures ReportsChange(ref, cur, width, n, out[k]) {
        if k < |front| {
          assert out[k] == front[k];
          assert ReportsChange(ref, cur, width, p, front[k]);
          var q, b :| 0 <= q < p && 0 <= b < width && ref[q].row.counts[b] != cur[q].row.counts[b] &&
            front[k] == Entry(ref[q].row.name, ref[q].row.counts[b] - cur[q].row.counts[b]);
        } else {
          var e := more[k - |front|];
          assert out[k] == e;
          var b :| 0 <= b < width && ref[p].row.counts[b] != cur[p].row.counts[b] &&
            e.change == ref[p].row.counts[b] - cur[p].row.counts[b];
          assert e == Entry(ref[p].row.name, ref[p].row.counts[b] - cur[p].row.counts[b]);
        }
      }
    }
  }

  /** Every changed count among the first `n` rows is reported under its own hospital. */
  lemma {:induction false} PairEntriesComplete(ref: seq<LabeledRow>, cur: seq<LabeledRow>, width: nat, n: nat, p: nat, b: nat)
    requires n <= |ref| && SameShape(ref, cur, width)
    requires p < n && b < width && ref[p].row.counts[b] != cur[p].row.counts[b]
    ensures Entry(ref[p].row.name, ref[p].row.counts[b] - cur[p].row.counts[b]) in PairEntries(ref, cur, width, n)
  {
    var q := n - 1;
    var front := PairEntries(ref, cur, width, q);
    var more := RowEntries(ref[q].row.name, ref[q].row.counts, cur[q].row.counts, width);
    assert PairEntries(ref, cur, width, n) == front + more;
    var e := Entry(ref[p].row.name, ref[p].row.counts[b] - cur[p].row.counts[b]);
    if p < q {
      PairEntriesComplete(ref, cur, width, q, p, b);
      InAppend(e, front, more);
    } else {
      RowEntriesComplete(ref[p].row.name, ref[p].row.counts, cur[p].row.counts, width, b);
      InAppend(e, front, more);
    }
  }

  lemma InAppend(e: Entry, front: seq<Entry>, more: seq<Entry>)
    requires e in front || e in more
    ensures e in front + more
  {
    if e in more {
      var k :| 0 <= k < |more| && more[k] == e;
      assert (front + more)[|front| + k] == e;
    }
  }

  /** A pair gives no entry exactly when no count of its first `n` rows changed: `compare` found nothing. */
  lemma {:induction false} PairEntriesEmpty(ref: seq<LabeledRow>, cur: seq<LabeledRow>, width: nat, n: nat)
    requires n <= |ref| && SameShape(ref, cur, width)
    ensures PairEntries(ref, cur, width, n) == [] <==> forall p | 0 <= p < n :: ref[p].row.counts == cur[p].row.counts
  {
    if n > 0 {
      var p := n - 1;
      PairEntriesEmpty(ref, cur, width, p);
      var front := PairEntries(ref, cur, width, p);
      var more := RowEntries(ref[p].row.name, ref[p].row.counts, cur[p].row.counts, width);
      assert PairEntries(ref, cur, width, n) == front + more;
      assert more == [] <==> ref[p].row.counts == cur[p].row.counts by {
        RowEntriesEmpty(ref[p].row.name, ref[p].row.counts, cur[p].row.counts, width);
        assert ref[p].row.counts[..width] == ref[p].row.counts;
        assert cur[p].row.counts[..width] == cur[p].row.counts;
      }
      assert |front + more| == |front| + |more|;
    }
  }

  /** `ref.iat[index, 0]`: the name at POSITION `index`, or None for pandas' IndexError. */
  function NameAtPosition(t: seq<LabeledRow>, index: nat): Option<string> {
    if index < |t| then Some(t[index].row.name) else None
  }

  /**
   * The change list as the script computes it: each changed row's name is read
   * at the position given by the row's label; None when that raises IndexError.
   */
  function PairEntriesAsWritten(ref: seq<LabeledRow>, cur: seq<LabeledRow>, width: nat, n: nat): Option<seq<Entry>>
    requires n <= |ref| && SameShape(ref, cur, width)
  {
    if n == 0 then Some([])
    else
      var p := n - 1;
      match PairEntriesAsWritten(ref, cur, width, p)
      case None => None
      case Some(front) =>
        if ref[p].row.counts == cur[p].row.counts then Some(front)
        else match NameAtPosition(ref, ref[p].position)
          case None => None
          case Some(name) => Some(front + RowEntries(name, ref[p].row.counts, cur[p].row.counts, width))
  }

  /** When every row label is its position (no row was filtered out), the script reports the right names. */
  lemma {:induction false} AsWrittenAgreesOnUnfilteredTables(ref: seq<LabeledRow>, cur: seq<LabeledRow>, width: nat, n: nat)
    requires n <= |ref| && SameShape(ref, cur, width)
    requires forall p | 0 <= p < |ref| :: ref[p].position == p
    ensures PairEntriesAsWritten(ref, cur, width, n) == Some(PairEntries(ref, cur, width, n))
  {
    if n > 0 {
      var p := n - 1;
      AsWrittenAgreesOnUnfilteredTables(ref, cur, width, p);
      var more := RowEntries(ref[p].row.name, ref[p].row.counts, cur[p].row.counts, width);
      assert PairEntries(ref, cur, width, n) == PairEntries(ref, cur, width, p) + more;
      if ref[p].row.counts == cur[p].row.counts {
        RowEntriesEmpty(ref[p].row.name, ref[p].row.counts, cur[p].row.counts, width);
        assert ref[p].row.counts[..width] == ref[p].row.counts;
        assert more == [];
        assert PairEntries(ref, cur, width, p) + more == PairEntries(ref, cur, width, p);
      } else {
        assert NameAtPosition(ref, ref[p].position) == Some(ref[p].row.name);
      }
    }
  }

  /**
   * Page rows A (0 beds), B (2) and C (3): the filter keeps B and C under
   * labels 1 and 2.  When B drops to 1 bed, the script reports the change
   * under C's name, the row at position 1.
   */
  lemma AsWrittenNamesWrongHospital()
    ensures SameShape([LabeledRow(1, Row("B", [2])), LabeledRow(2, Row("C", [3]))],
                      [LabeledRow(1, Row("B", [1])), LabeledRow(2, Row("C", [3]))], 1)
    ensures PairEntriesAsWritten([LabeledRow(1, Row("B", [2])), LabeledRow(2, Row("C", [3]))],
                                 [LabeledRow(1, Row("B", [1])), LabeledRow(2, Row("C", [3]))], 1, 2)
      == Some([Entry("C", 1)])
    ensures PairEntries([LabeledRow(1, Row("B", [2])), LabeledRow(2, Row("C", [3]))],
                        [LabeledRow(1, Row("B", [1])), LabeledRow(2, Row("C", [3]))], 1, 2)
      == [Entry("B", 1)]
  {
    assert RowEntries("C", [2], [1], 1) == [Entry("C", 1)];
    assert RowEntries("B", [2], [1], 1) == [Entry("B", 1)];
    assert RowEntries("C", [3], [3], 1) == [];
  }

  /** The same tables when C drops from 3 beds to 1: label 2 is past the last position, IndexError. */
  lemma AsWrittenRaisesIndexError()
    ensures SameShape([LabeledRow(1, Row("B", [2])), LabeledRow(2, Row("C", [3]))],
                      [LabeledRow(1, Row("B", [2])), LabeledRow(2, Row("C", [1]))], 1)
    ensures PairEntriesAsWritten([LabeledRow(1, Row("B", [2])), LabeledRow(2, Row("C", [3]))],
                                 [LabeledRow(1, Row("B", [2])), LabeledRow(2, Row("C", [1]))], 1, 2)
      == None
    ensures PairEntries([LabeledRow(1, Row("B", [2])), LabeledRow(2, Row("C", [3]))],
                        [LabeledRow(1, Row("B", [2])), LabeledRow(2, Row("C", [1]))], 1, 2)
      == [Entry("C", 2)]
  {
    assert RowEntries("B", [2], [2], 1) == [];
    assert RowEntries("C", [3], [1], 1) == [Entry("C", 2)];
  }

  /** Every same-title pair can be compared. */
  predicate ReadyAgainst(r: TitledRows, cur: seq<TitledRows>, width: nat) {
    forall j | 0 <= j < |cur| && cur[j].title == r.title :: SameShape(r.rows, cur[j].rows, width)
  }

  predicate DiffReady(ref: seq<TitledRows>, cur: seq<TitledRows>, width: nat) {
    forall i | 0 <= i < |ref| :: ReadyAgainst(ref[i], cur, width)
  }

  predicate HasTitle(s: seq<TitledRows>, title: string) {
    exists j | 0 <= j < |s| :: s[j].title == title
  }

  /** The titles and change lists one reference category contributes, against the first `n` current ones. */
  function ChangesAgainst(r: TitledRows, cur: seq<TitledRows>, width: nat, n: nat): (seq<string>, seq<seq<Entry>>)
    requires n <= |cur| && ReadyAgainst(r, cur, width)
  {
    if n == 0 then ([], [])
    else
      var front := ChangesAgainst(r, cur, width, n - 1);
      var c := cur[n - 1];
      if r.title == c.title then
        var info := PairEntries(r.rows, c.rows, width, |r.rows|);
        if info != [] then (front.0 + [r.title], front.1 + [info]) else front
      else front
  }

  /** `find_bed_availability_changes` on the first `n` reference categories. */
  function Changes(ref: seq<TitledRows>, cur: seq<TitledRows>, width: nat, n: nat): (seq<string>, seq<seq<Entry>>)
    requires n <= |ref| && DiffReady(ref, cur, width)
  {
    if n == 0 then ([], [])
    else
      var front := Changes(ref, cur, width, n - 1);
      var more := ChangesAgainst(ref[n - 1], cur, width, |cur|);
      (front.0 + more.0, front.1 + more.1)
  }

  /** One more reference category appends what it contributes against all current ones. */
  lemma ChangesNext(ref: seq<TitledRows>, cur: seq<TitledRows>, width: nat, i: nat, categories: seq<string>, infos: seq<seq<Entry>>)
    requires i < |ref| && DiffReady(ref, cur, width)
    requires (categories, infos) == ChangesAgainst(ref[i], cur, width, |cur|)
    ensures Changes(ref, cur, width, i + 1) == (Changes(ref, cur, width, i).0 + categories, Changes(ref, cur, width, i).1 + infos)
  {
  }

  /**
   * One step of `ChangesAgainst` either leaves the lists alone or appends the
   * title with the change list returned here, which is then non-empty and comes
   * from a current category of that title whose counts differ.
   */
  lemma GrowthOf(r: TitledRows, cur: seq<TitledRows>, width: nat, j: nat) returns (info: seq<Entry>)
    requires j < |cur| && ReadyAgainst(r, cur, width)
    ensures ChangesAgainst(r, cur, width, j + 1) == ChangesAgainst(r, cur, width, j) ||
      (info != [] && cur[j].title == r.title &&
       ChangesAgainst(r, cur, width, j + 1) ==
         (ChangesAgainst(r, cur, width, j).0 + [r.title], ChangesAgainst(r, cur, width, j).1 + [info]))
  {
    if r.title == cur[j].title {
      info := PairEntries(r.rows, cur[j].rows, width, |r.rows|);
    } else {
      info := [];
    }
  }

  /** Appending a non-empty change list under `title` to lists all under `title` keeps them so. */
  lemma AppendKeepsShape(front: (seq<string>, seq<seq<Entry>>), title: string, info: seq<Entry>)
    requires |front.0| == |front.1|
    requires forall k | 0 <= k < |front.1| :: front.1[k] != [] && front.0[k] == title
    ensures info != [] ==> forall k | 0 <= k < |front.1| + 1 ::
      (front.1 + [info])[k] != [] && (front.0 + [title])[k] == title
  {
  }

  /**
   * One reference category contributes parallel lists, each change list
   * non-empty and under its own title, and only when a current category has
   * that title.
   */
  lemma {:induction false} ChangesAgainstShape(r: TitledRows, cur: seq<TitledRows>, width: nat, n: nat)
    requires n <= |cur| && ReadyAgainst(r, cur, width)
    ensures |ChangesAgainst(r, cur, width, n).0| == |ChangesAgainst(r, cur, width, n).1|
    ensures forall k | 0 <= k < |ChangesAgainst(r, cur, width, n).1| ::
      ChangesAgainst(r, cur, width, n).1[k] != [] && ChangesAgainst(r, cur, width, n).0[k] == r.title
    ensures |ChangesAgainst(r, cur, width, n).0| > 0 ==> exists j | 0 <= j < n :: cur[j].title == r.title
  {
    if n > 0 {
      ChangesAgainstShape(r, cur, width, n - 1);
      var front := ChangesAgainst(r, cur, width, n - 1);
      var info := GrowthOf(r, cur, width, n - 1);
      AppendKeepsShape(front, r.title, info);
    }
  }

  /**
   * The lists `find_bed_availability_changes` returns are parallel, every
   * change list is non-empty, and every title is one of both snapshots.
   */
  lemma {:induction false} ChangesShape(ref: seq<TitledRows>, cur: seq<TitledRows>, width: nat, n: nat)
    requires n <= |ref| && DiffReady(ref, cur, width)
    ensures |Changes(ref, cur, width, n).0| == |Changes(ref, cur, width, n).1|
    ensures forall k | 0 <= k < |Changes(ref, cur, width, n).1| :: Changes(ref, cur, width, n).1[k] != []
    ensures forall k | 0 <= k < |Changes(ref, cur, width, n).0| ::
      HasTitle(ref[..n], Changes(ref, cur, width, n).0[k]) && HasTitle(cur, Changes(ref, cur, width, n).0[k])
  {
    if n > 0 {
      ChangesShape(ref, cur, width, n - 1);
      var front := Changes(ref, cur, width, n - 1);
      var r := ref[n - 1];
      assert ReadyAgainst(r, cur, width);
      var more := ChangesAgainst(r, cur, width, |cur|);
      ChangesAgainstShape(r, cur, width, |cur|);
      var out := Changes(ref, cur, width, n);
      assert out == (front.0 + more.0, front.1 + more.1);
      assert ref[..n][n - 1] == r;
      forall k | 0 <= k < |out.0|
        ensures HasTitle(ref[..n], out.0[k]) && HasTitle(cur, out.0[k])
      {
        if k < |front.0| {
          assert out.0[k] == front.0[k];
          var j :| 0 <= j < n - 1 && ref[..n - 1][j].title == front.0[k];
          assert ref[..n][j] == ref[..n - 1][j];
        } else {
          assert out.0[k] == more.0[k - |front.0|] == r.title;
        }
      }
      forall k | 0 <= k < |out.1| ensures out.1[k] != [] {
        if k < |front.1| {
          assert out.1[k] == front.1[k];
        } else {
          assert out.1[k] == more.1[k - |front.1|];
        }
      }
    }
  }

  /** When no reference category contributes anything, there are no changes at all. */
  lemma {:induction false} NothingContributes(ref: seq<TitledRows>, cur: seq<TitledRows>, width: nat, n: nat)
    requires n <= |ref| && DiffReady(ref, cur, width)
    requires forall i | 0 <= i < |ref| :: ChangesAgainst(ref[i], cur, width, |cur|) == ([], [])
    ensures Changes(ref, cur, width, n) == ([], [])
  {
    if n > 0 {
      NothingContributes(ref, cur, width, n - 1);
    }
  }

  /** A category whose title no other category shares is compared only with itself, and reports nothing. */
  lemma {:induction false} ComparedOnlyWithItself(x: seq<TitledRows>, width: nat, i: nat, n: nat)
    requires i < |x| && n <= |x|
    requires forall i, j | 0 <= i < j < |x| :: x[i].title != x[j].title
    requires ReadyAgainst(x[i], x, width)
    ensures ChangesAgainst(x[i], x, width, n) == ([], [])
  {
    if n > 0 {
      ComparedOnlyWithItself(x, width, i, n - 1);
      if n - 1 == i {
        PairEntriesEmpty(x[i].rows, x[i].rows, width, |x[i].rows|);
      } else {
        assert x[i].title != x[n - 1].title by {
          if i < n - 1 {
            assert x[i].title != x[n - 1].title;
          } else {
            assert x[n - 1].title != x[i].title;
          }
        }
      }
    }
  }

  /** Diffing a snapshot whose categories have distinct titles against itself reports nothing. */
  lemma DiffWithItself(x: seq<TitledRows>, width: nat)
    requires forall i, j | 0 <= i < j < |x| :: x[i].title != x[j].title
    requires forall i, p | 0 <= i < |x| && 0 <= p < |x[i].rows| :: |x[i].rows[p].row.counts| == width
    ensures DiffReady(x, x, width)
    ensures Changes(x, x, width, |x|) == ([], [])
  {
    forall i | 0 <= i < |x| ensures ReadyAgainst(x[i], x, width) {
      forall j | 0 <= j < |x| && j != i ensures x[j].title != x[i].title {
        if i < j {
          assert x[i].title != x[j].title;
        } else {
          assert x[j].title != x[i].title;
        }
      }
    }
    forall i | 0 <= i < |x| ensures ChangesAgainst(x[i], x, width, |x|) == ([], []) {
      ComparedOnlyWithItself(x, width, i, |x|);
    }
    NothingContributes(x, x, width, |x|);
  }

  /** The loop over the changed cells of one compared row. */
  method RowEntriesOf(name: string, refCounts: seq<int>, curCounts: seq<int>) returns (entries: seq<Entry>)
    requires |refCounts| == |curCounts|
    ensures entries == RowEntries(name, refCounts, curCounts, |refCounts|)
  {
    entries := [];
    var b := 0;
    while b < |refCounts|
      invariant 0 <= b <= |refCounts|
      invariant entries == RowEntries(name, refCounts, curCounts, b)
    {
      var bedDif := refCounts[b] - curCounts[b];
      if bedDif != 0 {
        entries := entries + [Entry(name, bedDif)];
      }
      b := b + 1;
    }
  }

  /** The loop over the rows `compare` reports, each row's entries under that row's hospital. */
  method PairEntriesOf(ref: seq<LabeledRow>, cur: seq<LabeledRow>, bedTypes: seq<string>) returns (info: seq<Entry>)
    requires SameShape(ref, cur, |bedTypes|)
    ensures info == PairEntries(ref, cur, |bedTypes|, |ref|)
  {
    info := [];
    var index := 0;
    while index < |ref|
      invariant 0 <= index <= |ref|
      invariant info == PairEntries(ref, cur, |bedTypes|, index)
    {
      var refRow, curRow := ref[index].row, cur[index].row;
      SameShapeRow(ref, cur, |bedTypes|, index);
      if refRow.counts != curRow.counts {
        var entries := RowEntriesOf(refRow.name, refRow.counts, curRow.counts);
        PairEntriesNext(ref, cur, |bedTypes|, index, info, entries);
        info := info + entries;
      } else {
        PairEntriesSkipRow(ref, cur, |bedTypes|, index);
      }
      index := index + 1;
    }
  }

  lemma SameShapeRow(ref: seq<LabeledRow>, cur: seq<LabeledRow>, width: nat, p: nat)
    requires p < |ref| && SameShape(ref, cur, width)
    ensures p < |cur| && |ref[p].row.counts| == width == |cur[p].row.counts|
  {
  }

  /** One more row adds that row's entries, none when its counts did not change. */
  lemma PairEntriesNext(ref: seq<LabeledRow>, cur: seq<LabeledRow>, width: nat, p: nat, info: seq<Entry>, entries: seq<Entry>)
    requires p < |ref| && SameShape(ref, cur, width)
    requires info == PairEntries(ref, cur, width, p)
    requires |ref[p].row.counts| == |cur[p].row.counts|
    requires entries == RowEntries(ref[p].row.name, ref[p].row.counts, cur[p].row.counts, |ref[p].row.counts|)
    ensures PairEntries(ref, cur, width, p + 1) == info + entries
  {
  }

  /** A row whose counts did not change adds nothing. */
  lemma PairEntriesSkipRow(ref: seq<LabeledRow>, cur: seq<LabeledRow>, width: nat, p: nat)
    requires p < |ref| && SameShape(ref, cur, width)
    requires ref[p].row.counts == cur[p].row.counts
    ensures PairEntries(ref, cur, width, p + 1) == PairEntries(ref, cur, width, p)
  {
    UnchangedRowHasNoEntries(ref[p].row.name, ref[p].row.counts, cur[p].row.counts);
    var more := RowEntries(ref[p].row.name, ref[p].row.counts, cur[p].row.counts, width);
    assert PairEntries(ref, cur, width, p) + more == PairEntries(ref, cur, width, p);
  }

  /** A row whose counts did not change has no entries. */
  lemma UnchangedRowHasNoEntries(name: string, refCounts: seq<int>, curCounts: seq<int>)
    requires refCounts == curCounts
    ensures RowEntries(name, refCounts, curCounts, |refCounts|) == []
  {
    RowEntriesEmpty(name, refCounts, curCounts, |refCounts|);
    assert refCounts[..|refCounts|] == refCounts;
  }

  /** The inner loop of `find_bed_availability_changes`: one reference category against every current one. */
  method ChangesAgainstOf(refTableInfos: TitledRows, cur: seq<TitledRows>, bedTypes: seq<string>)
    returns (categories: seq<string>, infos: seq<seq<Entry>>)
    requires ReadyAgainst(refTableInfos, cur, |bedTypes|)
    ensures (categories, infos) == ChangesAgainst(refTableInfos, cur, |bedTypes|, |cur|)
  {
    categories, infos := [], [];
    var j := 0;
    while j < |cur|
      invariant 0 <= j <= |cur|
      invariant (categories, infos) == ChangesAgainst(refTableInfos, cur, |bedTypes|, j)
    {
      var curTableInfos := cur[j];
      if refTableInfos.title == curTableInfos.title {
        var hospBedsInfo := PairEntriesOf(refTableInfos.rows, curTableInfos.rows, bedTypes);
        if |hospBedsInfo| > 0 {
          infos := infos + [hospBedsInfo];
          categories := categories + [refTableInfos.title];
        }
      }
      j := j + 1;
    }
  }

  /**
   * `find_bed_availability_changes`: every reference category against every
   * current one of the same title; a title is added exactly when its change
   * list is not empty.
   */
  method FindBedAvailabilityChanges(ref: seq<TitledRows>, cur: seq<TitledRows>, bedTypes: seq<string>)
    returns (availHospCategories: seq<string>, hospBedsInfos: seq<seq<Entry>>)
    requires DiffReady(ref, cur, |bedTypes|)
    ensures (availHospCategories, hospBedsInfos) == Changes(ref, cur, |bedTypes|, |ref|)
  {
    availHospCategories, hospBedsInfos := [], [];
    var i := 0;
    while i < |ref|
      invariant 0 <= i <= |ref|
      invariant (availHospCategories, hospBedsInfos) == Changes(ref, cur, |bedTypes|, i)
    {
      assert ReadyAgainst(ref[i], cur, |bedTypes|);
      var categories, infos := ChangesAgainstOf(ref[i], cur, bedTypes);
      ChangesNext(ref, cur, |bedTypes|, i, categories, infos);
      availHospCategories, hospBedsInfos := availHospCategories + categories, hospBedsInfos + infos;
      i := i + 1;
    }
  }
}
