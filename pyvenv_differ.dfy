/**
 * The later bed-status script (bbmpgov_chbms_covid_bed_live_status_pyvenv.py):
 * table extraction that filters, projects and sorts each category table by
 * hospital name, and the differ that reports, per category present in both
 * snapshots, the hospitals that appeared (their current counts), the ones that
 * disappeared (their reference counts negated), and for hospitals in both the
 * per-bed-type change `reference - current`.
 *
 * The differ pairs the common hospitals by position.  That is right only
 * because extraction sorts every table by name: with unique names, the common
 * rows of both tables then come in the same name order (CommonNamesAlign).
 */
module LiveStatusPyvenv {
  import opened Wrappers
  import opened Strings
  import opened Tables
  import opened PageScan

  /** What `find_req_table` gives: None, `[title, table]`, or pandas' KeyError for a bed type with no column. */
  datatype Extraction = NoTable | Found(title: string, table: Table) | MissingColumn(bedType: string)

  /**
   * `find_req_table`: no table without headings or tables or without a heading
   * naming a category; otherwise the chosen table's rows with a free bed,
   * projected onto name and `bedTypes` in that order, sorted by name and
   * renumbered from 0 (the model's rows carry no labels).
   */
  method FindReqTable(h4s: seq<Heading>, tables: seq<TableTag>, categories: seq<string>, bedTypes: seq<string>)
    returns (r: Extraction)
    requires |bedTypes| > 0
    requires forall k | 0 <= k < |tables| :: Rectangular(tables[k].data)
    ensures r.NoTable? <==> |h4s| == 0 || |tables| == 0 || ChosenHeading(h4s, categories).None?
    ensures !r.NoTable? ==> |tables| > 0 && ChosenHeading(h4s, categories).Some?
    ensures r.MissingColumn? ==>
      LocateColumns(tables[LowestTable(tables)].data.bedColumns, bedTypes) == NoColumn(r.bedType)
    ensures r.Found? ==> r.title == ChosenHeading(h4s, categories).value.0
    ensures r.Found? ==>
      var raw := tables[LowestTable(tables)].data;
      var located := LocateColumns(raw.bedColumns, bedTypes);
      && located.Located?
      && SortedByName(r.table)
      && HasWidth(r.table, |bedTypes|)
      && multiset(r.table) == multiset(Unlabel(AvailableRows(raw, located.cols)))
  {
    if |h4s| == 0 {
      return NoTable;
    }
    if |tables| == 0 {
      return NoTable;
    }
    var heading := FindHeading(h4s, categories);
    if heading.None? {
      return NoTable;
    }
    var k := ChooseTable(tables, heading.value.1);
    var raw := tables[k].data;
    var located := LocateColumns(raw.bedColumns, bedTypes);
    if located.NoColumn? {
      return MissingColumn(located.bedType);
    }
    var cols := located.cols;
    var cond := AvailabilityMask(raw, cols);
    assert cond == FreeBedMask(raw, cols);
    var rows := Unlabel(SelectRows(raw.rows, cond, cols));
    assert rows == Unlabel(AvailableRows(raw, cols));
    var sorted := SortByName(rows);
    AvailableRowsWidth(raw, cols);
    PermutationKeepsWidth(rows, sorted, |bedTypes|);
    r := Found(heading.value.0, sorted);
  }

  lemma AvailableRowsWidth(raw: RawTable, cols: seq<nat>)
    requires Rectangular(raw) && ColumnsFit(raw, cols)
    ensures HasWidth(Unlabel(AvailableRows(raw, cols)), |cols|)
  {
  }

  /** Reordering rows keeps every row's width. */
  lemma PermutationKeepsWidth(a: Table, b: Table, width: nat)
    requires HasWidth(a, width) && multiset(a) == multiset(b)
    ensures HasWidth(b, width)
  {
    forall i | 0 <= i < |b| ensures |b[i].counts| == width {
      assert b[i] in multiset(a);
    }
  }

  /** `t[t.name.isin(other.name)]` when `present`, `t[~t.name.isin(other.name)]` otherwise. */
  function RowsByPresence(t: Table, other: Table, present: bool): Table
  {
    if |t| == 0 then []
    else
      var rest := RowsByPresence(t[1..], other, present);
      if (t[0].name in Names(other)) == present then [t[0]] + rest else rest
  }

  /** Every kept row is a row of `t` that meets the condition. */
  lemma {:induction false} RowsByPresenceSound(t: Table, other: Table, present: bool)
    ensures forall k | 0 <= k < |RowsByPresence(t, other, present)| ::
      (RowsByPresence(t, other, present)[k].name in Names(other)) == present &&
      RowsByPresence(t, other, present)[k] in t
    ensures |RowsByPresence(t, other, present)| <= |t|
  {
    if |t| > 0 {
      RowsByPresenceSound(t[1..], other, present);
      assert t == [t[0]] + t[1..];
    }
  }

  /** Every row the condition accepts is kept. */
  lemma {:induction false} RowsByPresenceComplete(t: Table, other: Table, present: bool, x: Row)
    requires x in t && (x.name in Names(other)) == present
    ensures x in RowsByPresence(t, other, present)
  {
    if x != t[0] {
      assert x in t[1..] by {
        var i :| 0 <= i < |t| && t[i] == x;
        assert t[1..][i - 1] == x;
      }
      RowsByPresenceComplete(t[1..], other, present, x);
    }
  }

  function Negate(r: Row): Row {
    Row(r.name, seq(|r.counts|, i requires 0 <= i < |r.counts| => -r.counts[i]))
  }

  /** `sub_hospitals[:, 1:] = -sub_hospitals[:, 1:]`: every count negated, names kept. */
  function NegateAll(t: Table): (out: Table)
    ensures |out| == |t|
    ensures forall k | 0 <= k < |t| ::
      out[k].name == t[k].name && |out[k].counts| == |t[k].counts| &&
      forall b | 0 <= b < |t[k].counts| :: out[k].counts[b] == -t[k].counts[b]
  {
    seq(|t|, k requires 0 <= k < |t| => Negate(t[k]))
  }

  function CellDiff(ref: seq<int>, cur: seq<int>): seq<int>
    requires |ref| == |cur|
  {
    seq(|ref|, b requires 0 <= b < |ref| => ref[b] - cur[b])
  }

  /** Both tables have their common hospitals in the same order, and one count per bed type. */
  predicate Comparable(ref: Table, cur: Table, width: nat) {
    && HasWidth(ref, width)
    && HasWidth(cur, width)
    && Names(RowsByPresence(ref, cur, true)) == Names(RowsByPresence(cur, ref, true))
  }

  /**
   * The rows `compare` reports among the first `n` aligned common rows: a row
   * whose counts differ gives `[name] + d` with `d[b] = ref - cur`.
   */
  function CommonChanges(cref: Table, ccur: Table, n: nat): Table
    requires n <= |cref| == |ccur|
    requires forall p | 0 <= p < |cref| :: |cref[p].counts| == |ccur[p].counts|
  {
    if n == 0 then []
    else
      var p := n - 1;
      CommonChanges(cref, ccur, p) +
        if cref[p].counts != ccur[p].counts then [Row(cref[p].name, CellDiff(cref[p].counts, ccur[p].counts))] else []
  }

  /** Every aligned pair among the first `n` whose counts differ is reported. */
  lemma {:induction false} CommonChangesComplete(cref: Table, ccur: Table, n: nat, p: nat)
    requires n <= |cref| == |ccur|
    requires forall p | 0 <= p < |cref| :: |cref[p].counts| == |ccur[p].counts|
    requires p < n && cref[p].counts != ccur[p].counts
    ensures Row(cref[p].name, CellDiff(cref[p].counts, ccur[p].counts)) in CommonChanges(cref, ccur, n)
  {
    CommonChangesStep(cref, ccur, n - 1);
    if p < n - 1 {
      CommonChangesComplete(cref, ccur, n - 1, p);
    }
  }

  /** A row `CommonChanges` reports comes from one aligned pair whose counts differ. */
  lemma {:induction false} CommonChangeSource(cref: Table, ccur: Table, n: nat, row: Row) returns (p: nat)
    requires n <= |cref| == |ccur|
    requires forall p | 0 <= p < |cref| :: |cref[p].counts| == |ccur[p].counts|
    requires row in CommonChanges(cref, ccur, n)
    ensures p < n && cref[p].counts != ccur[p].counts
    ensures row == Row(cref[p].name, CellDiff(cref[p].counts, ccur[p].counts))
  {
    CommonChangesStep(cref, ccur, n - 1);
    if row in CommonChanges(cref, ccur, n - 1) {
      p := CommonChangeSource(cref, ccur, n - 1, row);
    } else {
      p := n - 1;
    }
  }

  /** One category's change rows: new hospitals, then missing ones negated, then changed common ones. */
  function PairChanges(ref: Table, cur: Table, width: nat): Table
    requires Comparable(ref, cur, width)
  {
    var cref := RowsByPresence(ref, cur, true);
    var ccur := RowsByPresence(cur, ref, true);
    CommonRowsAligned(ref, cur, width);
    RowsByPresence(cur, ref, false) + NegateAll(RowsByPresence(ref, cur, false)) +
    CommonChanges(cref, ccur, |cref|)
  }

  /** `[title, table]` of one category. */
  datatype TitledTable = TitledTable(title: string, table: Table)

  /** The pandas `compare` of `r` with every current table of its title that is not `equals` to it can be taken. */
  predicate ReadyAgainst(r: TitledTable, cur: seq<TitledTable>, width: nat) {
    forall j | 0 <= j < |cur| ::
      r.title == cur[j].title && r.table != cur[j].table ==> Comparable(r.table, cur[j].table, width)
  }

  predicate DiffReady(ref: seq<TitledTable>, cur: seq<TitledTable>, width: nat) {
    forall i | 0 <= i < |ref| :: ReadyAgainst(ref[i], cur, width)
  }

  /** Some of the first `n` categories carries this title. */
  predicate HasTitle(s: seq<TitledTable>, n: nat, title: string)
    requires n <= |s|
  {
    exists j | 0 <= j < n :: s[j].title == title
  }

  /** The categories and change lists one reference category contributes, against the first `n` current ones. */
  function ChangesAgainst(r: TitledTable, cur: seq<TitledTable>, width: nat, n: nat): (seq<string>, seq<Table>)
    requires n <= |cur|
    requires ReadyAgainst(r, cur, width)
  {
    if n == 0 then ([], [])
    else
      var front := ChangesAgainst(r, cur, width, n - 1);
      var c := cur[n - 1];
      if r.title == c.title && r.table != c.table then
        var info := PairChanges(r.table, c.table, width);
        if info != [] then (front.0 + [r.title], front.1 + [info]) else front
      else front
  }

  /**
   * One reference category contributes parallel lists, each change list non-empty
   * and under its own title, and only when some current category of that title
   * holds a different table.
   */
  lemma {:induction false} ChangesAgainstShape(r: TitledTable, cur: seq<TitledTable>, width: nat, n: nat)
    requires n <= |cur|
    requires ReadyAgainst(r, cur, width)
    ensures |ChangesAgainst(r, cur, width, n).0| == |ChangesAgainst(r, cur, width, n).1|
    ensures forall k | 0 <= k < |ChangesAgainst(r, cur, width, n).1| ::
      ChangesAgainst(r, cur, width, n).1[k] != [] && ChangesAgainst(r, cur, width, n).0[k] == r.title
    ensures |ChangesAgainst(r, cur, width, n).0| > 0 ==>
      exists j | 0 <= j < n :: cur[j].title == r.title && cur[j].table != r.table
  {
    if n > 0 {
      ChangesAgainstShape(r, cur, width, n - 1);
      var front := ChangesAgainst(r, cur, width, n - 1);
      var info := GrowthOf(r, cur, width, n - 1);
      AppendKeepsShape(front, r.title, info);
    }
  }

  /**
   * One step of `ChangesAgainst` either leaves the lists alone or appends the
   * title with the change list returned here, which is then non-empty and comes
   * from a current category of that title holding a different table.
   */
  lemma GrowthOf(r: TitledTable, cur: seq<TitledTable>, width: nat, j: nat) returns (info: Table)
    requires j < |cur| && ReadyAgainst(r, cur, width)
    ensures ChangesAgainst(r, cur, width, j + 1) == ChangesAgainst(r, cur, width, j) ||
      (info != [] && cur[j].title == r.title && cur[j].table != r.table &&
       ChangesAgainst(r, cur, width, j + 1) ==
         (ChangesAgainst(r, cur, width, j).0 + [r.title], ChangesAgainst(r, cur, width, j).1 + [info]))
  {
    StepChangesAgainst(r, cur, width, j);
    if r.title == cur[j].title && r.table != cur[j].table {
      info := PairChanges(r.table, cur[j].table, width);
    } else {
      info := [];
    }
  }

  /** Appending a non-empty change list under `title` to lists all under `title` keeps them so. */
  lemma AppendKeepsShape(front: (seq<string>, seq<Table>), title: string, info: Table)
    requires |front.0| == |front.1|
    requires forall k | 0 <= k < |front.1| :: front.1[k] != [] && front.0[k] == title
    ensures info != [] ==> forall k | 0 <= k < |front.1| + 1 ::
      (front.1 + [info])[k] != [] && (front.0 + [title])[k] == title
  {
  }

  /** `find_bed_availability_changes` on the first `n` reference categories. */
  function Changes(ref: seq<TitledTable>, cur: seq<TitledTable>, width: nat, n: nat): (seq<string>, seq<Table>)
    requires n <= |ref|
    requires DiffReady(ref, cur, width)
  {
    if n == 0 then ([], [])
    else
      var front := Changes(ref, cur, width, n - 1);
      var more := ChangesAgainst(ref[n - 1], cur, width, |cur|);
      (front.0 + more.0, front.1 + more.1)
  }

  /**
   * The lists `find_bed_availability_changes` returns are parallel, every change
   * list is non-empty, and every title is one of both snapshots.
   */
  lemma {:induction false} ChangesShape(ref: seq<TitledTable>, cur: seq<TitledTable>, width: nat, n: nat)
    requires n <= |ref|
    requires DiffReady(ref, cur, width)
    ensures |Changes(ref, cur, width, n).0| == |Changes(ref, cur, width, n).1|
    ensures forall k | 0 <= k < |Changes(ref, cur, width, n).1| :: Changes(ref, cur, width, n).1[k] != []
    ensures forall k | 0 <= k < |Changes(ref, cur, width, n).0| ::
      HasTitle(ref, n, Changes(ref, cur, width, n).0[k]) && HasTitle(cur, |cur|, Changes(ref, cur, width, n).0[k])
  {
    if n > 0 {
      ChangesShape(ref, cur, width, n - 1);
      var front := Changes(ref, cur, width, n - 1);
      var r := ref[n - 1];
      assert ReadyAgainst(r, cur, width);
      var more := ChangesAgainst(r, cur, width, |cur|);
      ChangesAgainstShape(r, cur, width, |cur|);
      var out := Changes(ref, cur, width, n);
      assert out == (front.0 + more.0, front.1 + more.1);
      assert HasTitle(ref, n, r.title);
      forall k | 0 <= k < |out.0|
        ensures HasTitle(ref, n, out.0[k]) && HasTitle(cur, |cur|, out.0[k])
      {
        if k < |front.0| {
          assert out.0[k] == front.0[k];
        } else {
          assert out.0[k] == more.0[k - |front.0|] == r.title;
        }
      }
      forall k | 0 <= k < |out.1| ensures out.1[k] != [] {
        if k < |front.1| {
          assert out.1[k] == front.1[k];
        } else {
          assert out.1[k] == more.1[k - |front.1|];
        }
      }
    }
  }

  /** The common hospitals of two tables with strictly increasing names come in the same order. */
  lemma CommonNamesAlign(ref: Table, cur: Table)
    requires StrictlySorted(Names(ref)) && StrictlySorted(Names(cur))
    ensures Names(RowsByPresence(ref, cur, true)) == Names(RowsByPresence(cur, ref, true))
  {
    var a := RowsByPresence(ref, cur, true);
    var b := RowsByPresence(cur, ref, true);
    PresenceKeepsOrder(ref, cur, true);
    PresenceKeepsOrder(cur, ref, true);
    forall n ensures n in Names(a) <==> n in Names(b) {
      CommonName(ref, cur, n);
      CommonName(cur, ref, n);
    }
    StrictlySortedSameElements(Names(a), Names(b));
  }

  /** A name is among the kept common rows exactly when both tables list it. */
  lemma CommonName(t: Table, other: Table, n: string)
    ensures n in Names(RowsByPresence(t, other, true)) <==> n in Names(t) && n in Names(other)
  {
    var a := RowsByPresence(t, other, true);
    if n in Names(a) {
      var k :| 0 <= k < |a| && Names(a)[k] == n;
      RowsByPresenceSound(t, other, true);
      assert a[k] in t;
      var i :| 0 <= i < |t| && t[i] == a[k];
      assert Names(t)[i] == n;
    }
    if n in Names(t) && n in Names(other) {
      var i :| 0 <= i < |t| && Names(t)[i] == n;
      RowsByPresenceComplete(t, other, true, t[i]);
      var m :| 0 <= m < |a| && a[m] == t[i];
      assert Names(a)[m] == n;
    }
  }

  lemma {:induction false} PresenceKeepsOrder(t: Table, other: Table, present: bool)
    requires StrictlySorted(Names(t))
    ensures StrictlySorted(Names(RowsByPresence(t, other, present)))
  {
    if |t| > 0 {
      var tail := t[1..];
      assert StrictlySorted(Names(tail)) by {
        forall i, j | 0 <= i < j < |tail| ensures Less(Names(tail)[i], Names(tail)[j]) {
          assert Names(tail)[i] == Names(t)[i + 1] && Names(tail)[j] == Names(t)[j + 1];
        }
      }
      PresenceKeepsOrder(tail, other, present);
      var rest := RowsByPresence(tail, other, present);
      RowsByPresenceSound(tail, other, present);
      if (t[0].name in Names(other)) == present {
        var out := [t[0]] + rest;
        assert RowsByPresence(t, other, present) == out;
        forall i, j | 0 <= i < j < |out| ensures Less(Names(out)[i], Names(out)[j]) {
          NamesOfCons(t[0], rest, j);
          if i == 0 {
            assert rest[j - 1] in tail;
            var m :| 0 <= m < |tail| && tail[m] == rest[j - 1];
            assert tail[m] == t[m + 1];
            SortedNamesAt(t, 0, m + 1);
          } else {
            NamesOfCons(t[0], rest, i);
          }
        }
      }
    }
  }

  lemma SortedNamesAt(t: Table, i: nat, j: nat)
    requires StrictlySorted(Names(t)) && i < j < |t|
    ensures Less(t[i].name, t[j].name)
  {
    assert Names(t)[i] == t[i].name && Names(t)[j] == t[j].name;
  }

  lemma NamesOfCons(r: Row, rest: Table, i: nat)
    requires 0 < i <= |rest|
    ensures Names([r] + rest)[i] == Names(rest)[i - 1]
  {
    assert ([r] + rest)[i] == rest[i - 1];
  }

  lemma {:induction false} StrictlySortedSameElements(x: seq<string>, y: seq<string>)
    requires StrictlySorted(x) && StrictlySorted(y)
    requires forall n :: n in x <==> n in y
    ensures x == y
  {
    assert |x| > 0 ==> x[0] in y;
    assert |y| > 0 ==> y[0] in x;
    if |x| > 0 {
      assert y[0] in y;
      var m :| 0 <= m < |x| && x[m] == y[0];
      var m' :| 0 <= m' < |y| && y[m'] == x[0];
      if x[0] != y[0] {
        assert m > 0 && m' > 0;
        LessAsymmetric(x[0], y[0]);
      }
      forall n ensures n in x[1..] <==> n in y[1..] {
        if n in x[1..] {
          var i :| 0 <= i < |x[1..]| && x[1..][i] == n;
          assert Less(x[0], n);
          LessIrreflexive(n);
          assert n in y;
          var j :| 0 <= j < |y| && y[j] == n;
          assert j != 0;
          assert y[1..][j - 1] == n;
        }
        if n in y[1..] {
          var i :| 0 <= i < |y[1..]| && y[1..][i] == n;
          assert Less(y[0], n);
          LessIrreflexive(n);
          assert n in x;
          var j :| 0 <= j < |x| && x[j] == n;
          assert j != 0;
          assert x[1..][j - 1] == n;
        }
      }
      StrictlySortedSameElements(x[1..], y[1..]);
      assert x == [x[0]] + x[1..] && y == [y[0]] + y[1..];
    }
  }

  /**
   * Tables as `find_req_table` produces them (sorted by name, one count per bed
   * type) can be diffed whenever each has unique hospital names.
   */
  lemma ExtractedTablesAreDiffReady(ref: seq<TitledTable>, cur: seq<TitledTable>, width: nat)
    requires forall i | 0 <= i < |ref| ::
      SortedByName(ref[i].table) && UniqueNames(ref[i].table) && HasWidth(ref[i].table, width)
    requires forall j | 0 <= j < |cur| ::
      SortedByName(cur[j].table) && UniqueNames(cur[j].table) && HasWidth(cur[j].table, width)
    ensures DiffReady(ref, cur, width)
  {
    forall i, j | 0 <= i < |ref| && 0 <= j < |cur|
      ensures Comparable(ref[i].table, cur[j].table, width)
    {
      SortedUniqueIsStrict(ref[i].table);
      SortedUniqueIsStrict(cur[j].table);
      CommonNamesAlign(ref[i].table, cur[j].table);
    }
  }

  /**
   * With unique sorted names, a hospital listed in both tables is reported
   * exactly when its counts changed, with `reference - current` per bed type:
   * positional comparison pairs every hospital with itself.
   */
  lemma CommonHospitalPairedWithItself(ref: Table, cur: Table, width: nat, i: nat, j: nat)
    requires SortedByName(ref) && UniqueNames(ref) && HasWidth(ref, width)
    requires SortedByName(cur) && UniqueNames(cur) && HasWidth(cur, width)
    requires i < |ref| && j < |cur| && ref[i].name == cur[j].name
    ensures Comparable(ref, cur, width)
    ensures ref[i].counts != cur[j].counts <==>
      Row(ref[i].name, CellDiff(ref[i].counts, cur[j].counts)) in PairChanges(ref, cur, width)
  {
    SortedUniqueIsStrict(ref);
    SortedUniqueIsStrict(cur);
    CommonNamesAlign(ref, cur);
    CommonRowsAligned(ref, cur, width);
    var cref := RowsByPresence(ref, cur, true);
    var ccur := RowsByPresence(cur, ref, true);
    var common := CommonChanges(cref, ccur, |cref|);
    var row := Row(ref[i].name, CellDiff(ref[i].counts, cur[j].counts));
    PairChangesParts(ref, cur, width);
    assert Names(cur)[j] == ref[i].name;
    var p := CommonPosition(ref, cur, i);
    PartnerIs(cur, ccur[p], j);
    if ref[i].counts != cur[j].counts {
      CommonChangesComplete(cref, ccur, |cref|, p);
    }
    if row in PairChanges(ref, cur, width) {
      assert Names(ref)[i] == row.name && Names(cur)[j] == row.name;
      ReportedCommonRow(ref, cur, width, row);
      var p' := CommonChangeSource(cref, ccur, |cref|, row);
      RowsByPresenceSound(ref, cur, true);
      RowsByPresenceSound(cur, ref, true);
      assert Names(ccur)[p'] == Names(cref)[p'];
      PartnerIs(ref, cref[p'], i);
      PartnerIs(cur, ccur[p'], j);
    }
  }

  /** The rows `PairChanges` puts together, and the kinds of rows each part holds. */
  lemma PairChangesParts(ref: Table, cur: Table, width: nat)
    requires Comparable(ref, cur, width)
    ensures CommonRowsFit(ref, cur)
    ensures PairChanges(ref, cur, width) ==
      RowsByPresence(cur, ref, false) + NegateAll(RowsByPresence(ref, cur, false)) +
      CommonChanges(RowsByPresence(ref, cur, true), RowsByPresence(cur, ref, true), |RowsByPresence(ref, cur, true)|)
  {
    CommonRowsAligned(ref, cur, width);
  }

  /**
   * Hospitals only in the current table are reported unchanged, hospitals only
   * in the reference table are reported with every count negated, and those are
   * the only rows reported for hospitals missing from one side.
   */
  lemma NewAndVanishedHospitals(ref: Table, cur: Table, width: nat)
    requires Comparable(ref, cur, width)
    ensures forall x | x in cur && x.name !in Names(ref) :: x in PairChanges(ref, cur, width)
    ensures forall x | x in ref && x.name !in Names(cur) :: Negate(x) in PairChanges(ref, cur, width)
    ensures forall r | r in PairChanges(ref, cur, width) && r.name !in Names(ref) :: r in cur
    ensures forall r | r in PairChanges(ref, cur, width) && r.name !in Names(cur) ::
      exists x | x in ref :: r == Negate(x)
  {
    PairChangesParts(ref, cur, width);
    var cref := RowsByPresence(ref, cur, true);
    var ccur := RowsByPresence(cur, ref, true);
    var added := RowsByPresence(cur, ref, false);
    var goneRows := RowsByPresence(ref, cur, false);
    var gone := NegateAll(goneRows);
    var common := CommonChanges(cref, ccur, |cref|);
    assert PairChanges(ref, cur, width) == added + gone + common;
    RowsByPresenceSound(cur, ref, false);
    RowsByPresenceSound(ref, cur, false);
    RowsByPresenceSound(ref, cur, true);
    RowsByPresenceSound(cur, ref, true);
    assert forall k | 0 <= k < |gone| :: gone[k] == Negate(goneRows[k]);
    forall x | x in cur && x.name !in Names(ref) ensures x in PairChanges(ref, cur, width) {
      RowsByPresenceComplete(cur, ref, false, x);
    }
    forall x | x in ref && x.name !in Names(cur) ensures Negate(x) in PairChanges(ref, cur, width) {
      RowsByPresenceComplete(ref, cur, false, x);
      var k :| 0 <= k < |goneRows| && goneRows[k] == x;
      assert gone[k] == Negate(x);
    }
    forall r | r in PairChanges(ref, cur, width)
      ensures r.name !in Names(ref) ==> r in cur
      ensures r.name !in Names(cur) ==> exists x | x in ref :: r == Negate(x)
    {
      if r in common {
        var p := CommonChangeSource(cref, ccur, |cref|, r);
        assert Names(ccur)[p] == Names(cref)[p];
        assert r.name == cref[p].name && cref[p] in ref;
        assert r.name == ccur[p].name && ccur[p] in cur;
      } else if r in gone {
        var k :| 0 <= k < |gone| && gone[k] == r;
        assert goneRows[k] in ref && r.name == goneRows[k].name;
      } else {
        assert r in added;
      }
    }
  }

  /** The aligned common rows, as `CommonChanges` needs them. */
  predicate CommonRowsFit(ref: Table, cur: Table) {
    var cref := RowsByPresence(ref, cur, true);
    var ccur := RowsByPresence(cur, ref, true);
    |cref| == |ccur| && forall p | 0 <= p < |cref| :: |cref[p].counts| == |ccur[p].counts|
  }

  /** A row whose name is listed cannot be in a table none of whose names is. */
  lemma NameExcluded(t: Table, names: seq<string>, row: Row)
    requires forall k | 0 <= k < |t| :: t[k].name !in names
    requires row.name in names
    ensures row !in t
  {
  }

  /** In a table with unique names, a row of it is determined by its name. */
  lemma PartnerIs(t: Table, x: Row, j: nat)
    requires UniqueNames(t) && j < |t|
    requires x in t && x.name == t[j].name
    ensures x == t[j]
  {
    var q :| 0 <= q < |t| && t[q] == x;
  }

  /** A reference row whose hospital is also current sits at some position of the common rows of both. */
  lemma CommonPosition(ref: Table, cur: Table, i: nat) returns (p: nat)
    requires Names(RowsByPresence(ref, cur, true)) == Names(RowsByPresence(cur, ref, true))
    requires i < |ref| && ref[i].name in Names(cur)
    ensures p < |RowsByPresence(ref, cur, true)| && p < |RowsByPresence(cur, ref, true)|
    ensures RowsByPresence(ref, cur, true)[p] == ref[i]
    ensures RowsByPresence(cur, ref, true)[p].name == ref[i].name
    ensures RowsByPresence(cur, ref, true)[p] in cur
  {
    var cref := RowsByPresence(ref, cur, true);
    var ccur := RowsByPresence(cur, ref, true);
    RowsByPresenceComplete(ref, cur, true, ref[i]);
    RowsByPresenceSound(cur, ref, true);
    p :| 0 <= p < |cref| && cref[p] == ref[i];
    assert Names(ccur)[p] == Names(cref)[p];
  }

  /** A change row for a hospital listed in both tables comes from the common part. */
  lemma ReportedCommonRow(ref: Table, cur: Table, width: nat, row: Row)
    requires Comparable(ref, cur, width)
    requires row in PairChanges(ref, cur, width)
    requires row.name in Names(ref) && row.name in Names(cur)
    ensures CommonRowsFit(ref, cur)
    ensures row in CommonChanges(RowsByPresence(ref, cur, true), RowsByPresence(cur, ref, true), |RowsByPresence(ref, cur, true)|)
  {
    PairChangesParts(ref, cur, width);
    var goneRows := RowsByPresence(ref, cur, false);
    var gone := NegateAll(goneRows);
    RowsByPresenceSound(cur, ref, false);
    RowsByPresenceSound(ref, cur, false);
    NameExcluded(RowsByPresence(cur, ref, false), Names(ref), row);
    assert forall k | 0 <= k < |gone| :: gone[k].name == goneRows[k].name;
    NameExcluded(gone, Names(cur), row);
  }

  /** Diffing a snapshot whose categories have distinct titles against itself reports nothing. */
  lemma DiffWithItself(x: seq<TitledTable>, width: nat)
    requires forall i, j | 0 <= i < j < |x| :: x[i].title != x[j].title
    ensures DiffReady(x, x, width)
    ensures Changes(x, x, width, |x|) == ([], [])
  {
    forall i | 0 <= i < |x| ensures ReadyAgainst(x[i], x, width) {
      forall j | 0 <= j < |x| && j != i ensures x[i].title != x[j].title {
        if i < j {
          assert x[i].title != x[j].title;
        } else {
          assert x[j].title != x[i].title;
        }
      }
    }
    forall i | 0 <= i < |x| ensures ChangesAgainst(x[i], x, width, |x|) == ([], []) {
      OnlyItselfShares(x, i);
      ChangesAgainstShape(x[i], x, width, |x|);
    }
    NothingContributes(x, x, width, |x|);
  }

  /** When no reference category contributes anything, there are no changes at all. */
  lemma {:induction false} NothingContributes(ref: seq<TitledTable>, cur: seq<TitledTable>, width: nat, n: nat)
    requires n <= |ref| && DiffReady(ref, cur, width)
    requires forall i | 0 <= i < |ref| :: ChangesAgainst(ref[i], cur, width, |cur|) == ([], [])
    ensures Changes(ref, cur, width, n) == ([], [])
  {
    if n > 0 {
      NothingContributes(ref, cur, width, n - 1);
      StepChanges(ref, cur, width, n - 1);
    }
  }

  lemma OnlyItselfShares(x: seq<TitledTable>, i: nat)
    requires i < |x|
    requires forall i, j | 0 <= i < j < |x| :: x[i].title != x[j].title
    ensures forall j | 0 <= j < |x| :: x[j].title != x[i].title || x[j].table == x[i].table
  {
  }

  /** A hospital that appears with 4 free beds of the one tracked type is reported with +4. */
  lemma NewHospitalSign()
    ensures Comparable([], [Row("A", [4])], 1)
    ensures PairChanges([], [Row("A", [4])], 1) == [Row("A", [4])]
  {
    assert Names([Row("A", [4])]) == ["A"];
    assert RowsByPresence([Row("A", [4])], [], true) == [];
    assert RowsByPresence([], [Row("A", [4])], false) == [];
  }

  /** A hospital that disappears with 4 free beds is reported with -4. */
  lemma MissingHospitalSign()
    ensures Comparable([Row("A", [4])], [], 1)
    ensures PairChanges([Row("A", [4])], [], 1) == [Row("A", [-4])]
  {
    assert Names([Row("A", [4])]) == ["A"];
    assert RowsByPresence([Row("A", [4])], [], true) == [];
    assert RowsByPresence([], [Row("A", [4])], true) == [];
    assert Negate(Row("A", [4])).counts == [-4];
    assert NegateAll([Row("A", [4])]) == [Row("A", [-4])];
  }

  /**
   * A hospital that goes from 5 free beds to 2 is reported with +3: reference
   * minus current, the opposite sign to the new and missing cases.
   */
  lemma ChangedHospitalSign()
    ensures Comparable([Row("A", [5])], [Row("A", [2])], 1)
    ensures PairChanges([Row("A", [5])], [Row("A", [2])], 1) == [Row("A", [3])]
  {
    assert Names([Row("A", [5])]) == ["A"] && Names([Row("A", [2])]) == ["A"];
    assert RowsByPresence([Row("A", [5])], [Row("A", [2])], true) == [Row("A", [5])];
    assert RowsByPresence([Row("A", [2])], [Row("A", [5])], true) == [Row("A", [2])];
    assert RowsByPresence([Row("A", [5])], [Row("A", [2])], false) == [];
    assert RowsByPresence([Row("A", [2])], [Row("A", [5])], false) == [];
    assert CellDiff([5], [2]) == [3];
  }

  /** The comparison of one category pair, as the script does it: drops, negation in place, and `row_dif`. */
  method PairChangesOf(ref: Table, cur: Table, bedTypes: seq<string>) returns (info: Table)
    requires Comparable(ref, cur, |bedTypes|)
    ensures info == PairChanges(ref, cur, |bedTypes|)
  {
    var cmpCur := RowsByPresence(cur, ref, true);
    info := RowsByPresence(cur, ref, false);
    var cmpRef := RowsByPresence(ref, cur, true);
    info := info + NegateAll(RowsByPresence(ref, cur, false));
    CommonRowsAligned(ref, cur, |bedTypes|);
    var changed := CommonChangesOf(cmpRef, cmpCur);
    info := info + changed;
  }

  /** The loop over the rows `compare` reports, building each `row_dif`. */
  method CommonChangesOf(cmpRef: Table, cmpCur: Table) returns (changed: Table)
    requires |cmpRef| == |cmpCur|
    requires forall p | 0 <= p < |cmpRef| :: |cmpRef[p].counts| == |cmpCur[p].counts|
    ensures changed == CommonChanges(cmpRef, cmpCur, |cmpRef|)
  {
    changed := [];
    var index := 0;
    while index < |cmpRef|
      invariant 0 <= index <= |cmpRef|
      invariant changed == CommonChanges(cmpRef, cmpCur, index)
    {
      var refRow, curRow := cmpRef[index], cmpCur[index];
      CommonChangesStep(cmpRef, cmpCur, index);
      if refRow.counts != curRow.counts {
        var rowDif := RowDifference(refRow.counts, curRow.counts);
        changed := changed + [Row(refRow.name, rowDif)];
      }
      index := index + 1;
    }
  }

  lemma CommonChangesStep(cref: Table, ccur: Table, n: nat)
    requires n < |cref| == |ccur|
    requires forall p | 0 <= p < |cref| :: |cref[p].counts| == |ccur[p].counts|
    ensures CommonChanges(cref, ccur, n + 1) ==
      CommonChanges(cref, ccur, n) +
      if cref[n].counts != ccur[n].counts then [Row(cref[n].name, CellDiff(cref[n].counts, ccur[n].counts))] else []
  {
  }

  /** The common rows of a comparable pair line up one to one, with one count per bed type. */
  lemma CommonRowsAligned(ref: Table, cur: Table, width: nat)
    requires Comparable(ref, cur, width)
    ensures |RowsByPresence(ref, cur, true)| == |RowsByPresence(cur, ref, true)|
    ensures HasWidth(RowsByPresence(ref, cur, true), width)
    ensures HasWidth(RowsByPresence(cur, ref, true), width)
  {
    var cref := RowsByPresence(ref, cur, true);
    var ccur := RowsByPresence(cur, ref, true);
    assert |cref| == |Names(cref)| == |Names(ccur)| == |ccur|;
    RowsByPresenceSound(ref, cur, true);
    RowsByPresenceSound(cur, ref, true);
    forall p | 0 <= p < |cref| ensures |cref[p].counts| == width {
      assert cref[p] in ref;
    }
    forall p | 0 <= p < |ccur| ensures |ccur[p].counts| == width {
      assert ccur[p] in cur;
    }
  }

  /** `row_dif`: zeros, then `reference - current` written in for every bed type where they differ. */
  method RowDifference(refCounts: seq<int>, curCounts: seq<int>) returns (rowDif: seq<int>)
    requires |refCounts| == |curCounts|
    ensures rowDif == CellDiff(refCounts, curCounts)
  {
    var numBedTypes := |refCounts|;
    rowDif := seq(numBedTypes, _ => 0);
    var b := 0;
    while b < numBedTypes
      invariant 0 <= b <= numBedTypes && |rowDif| == numBedTypes
      invariant forall x | 0 <= x < b :: rowDif[x] == refCounts[x] - curCounts[x]
      invariant forall x | b <= x < numBedTypes :: rowDif[x] == 0
    {
      var bedDif := refCounts[b] - curCounts[b];
      if bedDif != 0 {
        rowDif := rowDif[b := bedDif];
      }
      b := b + 1;
    }
  }

  /**
   * `find_bed_availability_changes`: every reference category against every
   * current one of the same title; the parallel lists of titles and of change
   * lists, a title added exactly when its change list is not empty.
   */
  method FindBedAvailabilityChanges(ref: seq<TitledTable>, cur: seq<TitledTable>, bedTypes: seq<string>)
    returns (availHospCategories: seq<string>, hospBedsInfos: seq<Table>)
    requires DiffReady(ref, cur, |bedTypes|)
    ensures (availHospCategories, hospBedsInfos) == Changes(ref, cur, |bedTypes|, |ref|)
  {
    availHospCategories, hospBedsInfos := [], [];
    var i := 0;
    while i < |ref|
      invariant 0 <= i <= |ref|
      invariant (availHospCategories, hospBedsInfos) == Changes(ref, cur, |bedTypes|, i)
    {
      assert ReadyAgainst(ref[i], cur, |bedTypes|);
      var categories, infos := ChangesAgainstOf(ref[i], cur, bedTypes);
      StepChanges(ref, cur, |bedTypes|, i);
      availHospCategories, hospBedsInfos := availHospCategories + categories, hospBedsInfos + infos;
      i := i + 1;
    }
  }

  lemma StepChanges(ref: seq<TitledTable>, cur: seq<TitledTable>, width: nat, i: nat)
    requires i < |ref| && DiffReady(ref, cur, width)
    ensures ReadyAgainst(ref[i], cur, width)
    ensures Changes(ref, cur, width, i + 1) ==
      (Changes(ref, cur, width, i).0 + ChangesAgainst(ref[i], cur, width, |cur|).0,
       Changes(ref, cur, width, i).1 + ChangesAgainst(ref[i], cur, width, |cur|).1)
  {
  }

  lemma StepChangesAgainst(r: TitledTable, cur: seq<TitledTable>, width: nat, j: nat)
    requires j < |cur| && ReadyAgainst(r, cur, width)
    ensures r.title == cur[j].title && r.table != cur[j].table ==> Comparable(r.table, cur[j].table, width)
    ensures ChangesAgainst(r, cur, width, j + 1) ==
      if r.title == cur[j].title && r.table != cur[j].table && PairChanges(r.table, cur[j].table, width) != [] then
        (ChangesAgainst(r, cur, width, j).0 + [r.title],
         ChangesAgainst(r, cur, width, j).1 + [PairChanges(r.table, cur[j].table, width)])
      else ChangesAgainst(r, cur, width, j)
  {
  }

  /** The inner loop of `find_bed_availability_changes`: one reference category against every current one. */
  method ChangesAgainstOf(refTableInfos: TitledTable, cur: seq<TitledTable>, bedTypes: seq<string>)
    returns (categories: seq<string>, infos: seq<Table>)
    requires ReadyAgainst(refTableInfos, cur, |bedTypes|)
    ensures (categories, infos) == ChangesAgainst(refTableInfos, cur, |bedTypes|, |cur|)
  {
    categories, infos := [], [];
    var j := 0;
    while j < |cur|
      invariant 0 <= j <= |cur|
      invariant (categories, infos) == ChangesAgainst(refTableInfos, cur, |bedTypes|, j)
    {
      var curTableInfos := cur[j];
      StepChangesAgainst(refTableInfos, cur, |bedTypes|, j);
      if refTableInfos.title == curTableInfos.title && refTableInfos.table != curTableInfos.table {
        var hospBedsInfo := PairChangesOf(refTableInfos.table, curTableInfos.table, bedTypes);
        if |hospBedsInfo| > 0 {
          infos := infos + [hospBedsInfo];
          categories := categories + [refTableInfos.title];
        }
      }
      j := j + 1;
    }
  }
}
