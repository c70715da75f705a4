/**
 * The bulletin downloader (bbmpgov_download_covid_bulletin.py): the tables of
 * the bulletin page list one PDF per row with its date `DD-MM-YYYY`; rows are
 * visited newest first and downloaded until a row older than the start date,
 * every file saved as `Covid_Bengaluru_<YYYYMMDD>_<tag>_<id>.pdf`.  A later
 * run started with 'pending' reads the newest date back from those names.
 *
 * The page is given as its parsed tables (the `div`s of class `set`, each with
 * its `table`s), and which links download successfully as a set of links.
 */
module Bulletin {
  import opened Wrappers
  import opened Strings
  import Tables

  const SavedFileBasename := "Covid_Bengaluru"

  /** A `td` cell: its first content as text, and that content's `href` when it is a link. */
  datatype Td = Td(text: string, link: Option<string>)

  /** A `tr` row: the contents of its `th` cells and its `td` cells. */
  datatype Tr = Tr(ths: seq<string>, tds: seq<Td>)

  /** A bulletin table: the column names `read_html` gives it, and its rows. */
  datatype BulletinTable = BulletinTable(columns: seq<string>, rows: seq<Tr>)

  /** A saved file: the date key, tag and id its name `Filename(key, tag, id)` is made of. */
  datatype Download = Download(key: string, tag: string, id: string)

  /**
   * The scan's variables: `filename_tag`, `latest_downloaded_date`, the files
   * written so far, and `end_file_download`.
   */
  datatype Scan = Scan(tag: string, latest: nat, saved: seq<Download>, stopped: bool)

  function Reversed<T>(s: seq<T>): seq<T> {
    if |s| == 0 then [] else Reversed(s[1..]) + [s[0]]
  }

  /** `''.join(date.split('-')[::-1])`. */
  function DateKey(date: string): string {
    Concat(Reversed(Split(date, '-')))
  }

  /** `'%s_%s_%s_%s.pdf' % (saved_file_basename, key, tag, id)`. */
  function Filename(key: string, tag: string, id: string): string {
    SavedFileBasename + "_" + key + "_" + tag + "_" + id + ".pdf"
  }

  /** A string without a separator splits into itself alone. */
  lemma SplitWithoutSeparator(s: string, sep: char)
    requires sep !in s
    ensures Split(s, sep) == [s]
  {
    SplitJoin([s], sep);
  }

  /** The date of `DD-MM-YYYY` is keyed `YYYYMMDD`. */
  lemma DateKeyOfDayMonthYear(d: string, m: string, y: string)
    requires '-' !in d && '-' !in m && '-' !in y
    ensures DateKey(d + "-" + m + "-" + y) == y + m + d
  {
    assert Join([d, m, y], '-') == d + "-" + m + "-" + y by {
      assert Join([m, y], '-') == m + "-" + y by {
        assert [m, y][1..] == [y];
      }
      assert [d, m, y][1..] == [m, y];
    }
    SplitJoin([d, m, y], '-');
    assert Reversed([d, m, y]) == [y, m, d] by {
      assert [d, m, y][1..] == [m, y];
      assert [m, y][1..] == [y];
      assert [y][1..] == [];
      assert Reversed([y]) == [y];
      assert Reversed([m, y]) == [y, m];
    }
    assert Concat([y, m, d]) == y + m + d by {
      assert [y, m, d][1..] == [m, d];
      assert [m, d][1..] == [d];
      assert [d][1..] == [];
      assert Concat([d]) == d;
      assert Concat([m, d]) == m + d;
    }
  }

  /** Splitting at a separator splits the two sides apart. */
  lemma {:induction false} SplitAppend(a: string, b: string, sep: char)
    ensures Split(a + [sep] + b, sep) == Split(a, sep) + Split(b, sep)
    decreases |a|
  {
    if |a| == 0 {
      assert a + [sep] + b == [sep] + b;
      SplitAtSeparator(b, sep);
    } else {
      var c, rest := a[0], a[1..];
      var t := rest + [sep] + b;
      assert a + [sep] + b == [c] + t;
      assert a == [c] + rest;
      SplitAppend(rest, b, sep);
      if c == sep {
        SplitAtSeparator(t, sep);
        SplitAtSeparator(rest, sep);
      } else {
        SplitAtOther(c, t, sep);
        SplitAtOther(c, rest, sep);
        ConsOntoFirst(c, Split(rest, sep), Split(b, sep));
      }
    }
  }

  /** Prefixing `c` to the first of two joined lists of parts prefixes it to the first of the left list. */
  lemma ConsOntoFirst(c: char, front: seq<string>, back: seq<string>)
    requires |front| >= 1
    ensures [[c] + (front + back)[0]] + (front + back)[1..] == ([[c] + front[0]] + front[1..]) + back
  {
    assert (front + back)[0] == front[0];
    assert (front + back)[1..] == front[1..] + back;
  }

  lemma SplitAtSeparator(t: string, sep: char)
    ensures Split([sep] + t, sep) == [""] + Split(t, sep)
  {
    assert ([sep] + t)[1..] == t;
  }

  lemma SplitAtOther(c: char, t: string, sep: char)
    requires c != sep
    ensures Split([c] + t, sep) == [[c] + Split(t, sep)[0]] + Split(t, sep)[1..]
  {
    assert ([c] + t)[1..] == t;
  }

  /** The key is field 2 of the saved file's name, split on `_`, whatever the tag and the id. */
  lemma FilenameField2(key: string, tag: string, id: string)
    requires '_' !in key
    ensures |Split(Filename(key, tag, id), '_')| >= 3 && Split(Filename(key, tag, id), '_')[2] == key
  {
    var rest := tag + "_" + id + ".pdf";
    var tail := key + "_" + rest;
    assert Filename(key, tag, id) == SavedFileBasename + "_" + tail;
    SplitAppend(SavedFileBasename, tail, '_');
    SplitAppend(key, rest, '_');
    SplitWithoutSeparator(key, '_');
    BasenameFields();
  }

  /** The base name splits into two fields. */
  lemma BasenameFields()
    ensures Split(SavedFileBasename, '_') == ["Covid", "Bengaluru"]
  {
    assert SavedFileBasename == "Covid" + "_" + "Bengaluru";
    SplitAppend("Covid", "Bengaluru", '_');
    OneField("Covid");
    OneField("Bengaluru");
  }

  lemma OneField(w: string)
    requires w == "Covid" || w == "Bengaluru"
    ensures Split(w, '_') == [w]
  {
    if w == "Covid" {
      SplitWithoutSeparator("Covid", '_');
    } else {
      SplitWithoutSeparator("Bengaluru", '_');
    }
  }

  /** `int(name.split('_')[2])`, None when the field is missing or not a number. */
  function FileDate(name: string): Option<nat> {
    var fields := Split(name, '_');
    if |fields| < 3 || !IsDecimal(fields[2]) then None else Some(DecimalValue(fields[2]))
  }

  /** A file saved under a numeric key gives that key's value back. */
  lemma FileDateOfSaved(key: string, tag: string, id: string)
    requires IsDecimal(key)
    ensures FileDate(Filename(key, tag, id)) == Some(DecimalValue(key))
  {
    assert !IsDigit('_');
    FilenameField2(key, tag, id);
  }

  /** The first column whose name contains the hyperlink tag, from column `k` on, or -1. */
  function HyperlinkColumn(columns: seq<string>, tag: string, k: nat): int
    decreases |columns| - k
  {
    if k >= |columns| then -1
    else if IsSubstring(tag, columns[k]) then k
    else HyperlinkColumn(columns, tag, k + 1)
  }

  lemma {:induction false} HyperlinkColumnIsFirst(columns: seq<string>, tag: string, k: nat)
    ensures HyperlinkColumn(columns, tag, k) == -1 <==> forall c | k <= c < |columns| :: !IsSubstring(tag, columns[c])
    ensures HyperlinkColumn(columns, tag, k) != -1 ==>
      var c := HyperlinkColumn(columns, tag, k);
      k <= c < |columns| && IsSubstring(tag, columns[c]) && forall j | k <= j < c :: !IsSubstring(tag, columns[j])
    decreases |columns| - k
  {
    if k < |columns| && !IsSubstring(tag, columns[k]) {
      HyperlinkColumnIsFirst(columns, tag, k + 1);
    }
  }

  /** The `hl_idx` loop: the first column whose name contains the tag, -1 when none does. */
  method FindHyperlinkColumn(columns: seq<string>, tag: string) returns (hlIdx: int)
    ensures hlIdx == HyperlinkColumn(columns, tag, 0)
  {
    hlIdx := -1;
    var c := 0;
    while c < |columns|
      invariant 0 <= c <= |columns|
      invariant HyperlinkColumn(columns, tag, 0) == HyperlinkColumn(columns, tag, c)
    {
      if IsSubstring(tag, columns[c]) {
        hlIdx := c;
        return;
      }
      c := c + 1;
    }
  }

  /** `tag4_infos[hl_idx].contents[0].attrs['href']`, index -1 being the last cell; None when it raises. */
  function LinkOf(tds: seq<Td>, hlIdx: int): Option<string>
    requires |tds| > 0
  {
    if hlIdx == -1 then tds[|tds| - 1].link
    else if 0 <= hlIdx < |tds| then tds[hlIdx].link
    else None
  }

  /** One pass of the row loop; None when the row makes the script raise. */
  function RowStep(dateIdx: nat, hlIdx: int, fromKey: string, fetched: set<string>, s: Scan, row: Tr): Option<Scan> {
    if |row.tds| == 0 then HeaderRow(s, row.ths)
    else if dateIdx >= |row.tds| then None
    else DatedRow(DateKey(row.tds[dateIdx].text), hlIdx, fromKey, fetched, s, row.tds)
  }

  /** A row without `td` cells is the header: its first `th` with spaces removed becomes the tag. */
  function HeaderRow(s: Scan, ths: seq<string>): Option<Scan> {
    if |ths| == 0 then None else Some(s.(tag := RemoveAll(ths[0], ' ')))
  }

  /** A row dated `key`: the scan stops when it is older than `fromKey`, else the file is downloaded. */
  function DatedRow(key: string, hlIdx: int, fromKey: string, fetched: set<string>, s: Scan, tds: seq<Td>): Option<Scan>
    requires |tds| > 0
  {
    if Less(key, fromKey) then Some(s.(stopped := true))
    else
      var link := LinkOf(tds, hlIdx);
      if link.None? then None
      else if link.value !in fetched then Some(s)
      else SavedRow(key, tds[0].text, s)
  }

  /** A file written: recorded, then its date compared with the newest (`int` raises on a non-numeric key). */
  function SavedRow(key: string, id: string, s: Scan): Option<Scan> {
    if !IsDecimal(key) then None
    else
      var date := DecimalValue(key);
      Some(s.(latest := if date > s.latest then date else s.latest, saved := s.saved + [Download(key, s.tag, id)]))
  }

  /** The row loop over the first `n` rows of a table, stopping at the first row older than `fromKey`. */
  function RowsScan(dateIdx: nat, hlIdx: int, fromKey: string, fetched: set<string>, rows: seq<Tr>, s: Scan, n: nat): Option<Scan>
    requires n <= |rows|
  {
    if n == 0 then Some(s)
    else
      match RowsScan(dateIdx, hlIdx, fromKey, fetched, rows, s, n - 1)
      case None => None
      case Some(s') => if s'.stopped then Some(s') else RowStep(dateIdx, hlIdx, fromKey, fetched, s', rows[n - 1])
  }

  /** One table: the `Date` column (`list.index` raises when it is missing), the link column, then its rows. */
  function TableScan(table: BulletinTable, hyperlinkTag: string, fromKey: string, fetched: set<string>, s: Scan): Option<Scan> {
    var dateIdx := Tables.IndexOf(table.columns, "Date");
    if dateIdx < 0 then None
    else RowsScan(dateIdx, HyperlinkColumn(table.columns, hyperlinkTag, 0), fromKey, fetched, table.rows, s.(tag := ""), |table.rows|)
  }

  /** The first `n` tables of one `div`, leaving as soon as the scan has stopped. */
  function TablesScan(tables: seq<BulletinTable>, hyperlinkTag: string, fromKey: string, fetched: set<string>, s: Scan, n: nat): Option<Scan>
    requires n <= |tables|
  {
    if n == 0 then Some(s)
    else
      match TablesScan(tables, hyperlinkTag, fromKey, fetched, s, n - 1)
      case None => None
      case Some(s') => if s'.stopped then Some(s') else TableScan(tables[n - 1], hyperlinkTag, fromKey, fetched, s')
  }

  /** The first `n` `div`s of the page, leaving as soon as the scan has stopped. */
  function DivsScan(divs: seq<seq<BulletinTable>>, hyperlinkTag: string, fromKey: string, fetched: set<string>, n: nat): Option<Scan>
    requires n <= |divs|
  {
    if n == 0 then Some(Scan("", 0, [], false))
    else
      match DivsScan(divs, hyperlinkTag, fromKey, fetched, n - 1)
      case None => None
      case Some(s) => if s.stopped then Some(s) else TablesScan(divs[n - 1], hyperlinkTag, fromKey, fetched, s, |divs[n - 1]|)
  }

  /**
   * What the scan keeps true: every saved file has a numeric key no older than
   * `fromKey`, and `latest_downloaded_date` is the largest saved date, or 0
   * with none saved.
   */
  predicate GoodScan(s: Scan, fromKey: string) {
    && (forall k | 0 <= k < |s.saved| :: IsDecimal(s.saved[k].key) && !Less(s.saved[k].key, fromKey))
    && (forall k | 0 <= k < |s.saved| :: DecimalValue(s.saved[k].key) <= s.latest)
    && (s.latest == 0 || exists k | 0 <= k < |s.saved| :: DecimalValue(s.saved[k].key) == s.latest)
  }

  lemma RowStepKeepsGood(dateIdx: nat, hlIdx: int, fromKey: string, fetched: set<string>, s: Scan, row: Tr)
    requires GoodScan(s, fromKey)
    requires RowStep(dateIdx, hlIdx, fromKey, fetched, s, row).Some?
    ensures GoodScan(RowStep(dateIdx, hlIdx, fromKey, fetched, s, row).value, fromKey)
  {
    if |row.tds| > 0 && dateIdx < |row.tds| {
      var key := DateKey(row.tds[dateIdx].text);
      if !Less(key, fromKey) && LinkOf(row.tds, hlIdx).Some? && LinkOf(row.tds, hlIdx).value in fetched {
        SavedRowKeepsGood(key, row.tds[0].text, s, fromKey);
      }
    }
  }

  /** Saving a file no older than the start date keeps the scan good. */
  lemma SavedRowKeepsGood(key: string, id: string, s: Scan, fromKey: string)
    requires GoodScan(s, fromKey) && !Less(key, fromKey)
    requires SavedRow(key, id, s).Some?
    ensures GoodScan(SavedRow(key, id, s).value, fromKey)
  {
    var out := SavedRow(key, id, s).value;
    assert out.saved == s.saved + [Download(key, s.tag, id)];
    assert forall k | 0 <= k < |s.saved| :: out.saved[k] == s.saved[k];
    if out.latest != 0 && out.latest != s.latest {
      assert DecimalValue(out.saved[|s.saved|].key) == out.latest;
    }
  }

  lemma {:induction false} RowsScanKeepsGood(dateIdx: nat, hlIdx: int, fromKey: string, fetched: set<string>, rows: seq<Tr>, s: Scan, n: nat)
    requires n <= |rows| && GoodScan(s, fromKey)
    requires RowsScan(dateIdx, hlIdx, fromKey, fetched, rows, s, n).Some?
    ensures GoodScan(RowsScan(dateIdx, hlIdx, fromKey, fetched, rows, s, n).value, fromKey)
  {
    if n > 0 {
      RowsScanKeepsGood(dateIdx, hlIdx, fromKey, fetched, rows, s, n - 1);
      var s' := RowsScan(dateIdx, hlIdx, fromKey, fetched, rows, s, n - 1).value;
      if !s'.stopped {
        RowStepKeepsGood(dateIdx, hlIdx, fromKey, fetched, s', rows[n - 1]);
      }
    }
  }

  lemma {:induction false} TablesScanKeepsGood(tables: seq<BulletinTable>, hyperlinkTag: string, fromKey: string, fetched: set<string>, s: Scan, n: nat)
    requires n <= |tables| && GoodScan(s, fromKey)
    requires TablesScan(tables, hyperlinkTag, fromKey, fetched, s, n).Some?
    ensures GoodScan(TablesScan(tables, hyperlinkTag, fromKey, fetched, s, n).value, fromKey)
  {
    if n > 0 {
      TablesScanKeepsGood(tables, hyperlinkTag, fromKey, fetched, s, n - 1);
      var s' := TablesScan(tables, hyperlinkTag, fromKey, fetched, s, n - 1).value;
      if !s'.stopped {
        var t := tables[n - 1];
        var dateIdx := Tables.IndexOf(t.columns, "Date");
        assert GoodScan(s'.(tag := ""), fromKey);
        RowsScanKeepsGood(dateIdx, HyperlinkColumn(t.columns, hyperlinkTag, 0), fromKey, fetched, t.rows, s'.(tag := ""), |t.rows|);
      }
    }
  }

  /**
   * After the whole page, every saved file is dated no earlier than the start
   * date and has a numeric key, and the date returned is the newest saved one.
   */
  lemma {:induction false} DivsScanGood(divs: seq<seq<BulletinTable>>, hyperlinkTag: string, fromKey: string, fetched: set<string>, n: nat)
    requires n <= |divs|
    requires DivsScan(divs, hyperlinkTag, fromKey, fetched, n).Some?
    ensures GoodScan(DivsScan(divs, hyperlinkTag, fromKey, fetched, n).value, fromKey)
  {
    if n > 0 {
      DivsScanGood(divs, hyperlinkTag, fromKey, fetched, n - 1);
      var s := DivsScan(divs, hyperlinkTag, fromKey, fetched, n - 1).value;
      if !s.stopped {
        TablesScanKeepsGood(divs[n - 1], hyperlinkTag, fromKey, fetched, s, |divs[n - 1]|);
      }
    }
  }

  /** Once the scan has stopped, later rows change nothing. */
  lemma {:induction false} RowsStayStopped(dateIdx: nat, hlIdx: int, fromKey: string, fetched: set<string>, rows: seq<Tr>, s: Scan, m: nat, n: nat)
    requires m <= n <= |rows|
    requires RowsScan(dateIdx, hlIdx, fromKey, fetched, rows, s, m).Some?
    requires RowsScan(dateIdx, hlIdx, fromKey, fetched, rows, s, m).value.stopped
    ensures RowsScan(dateIdx, hlIdx, fromKey, fetched, rows, s, n) == RowsScan(dateIdx, hlIdx, fromKey, fetched, rows, s, m)
    decreases n - m
  {
    if m < n {
      RowsStayStopped(dateIdx, hlIdx, fromKey, fetched, rows, s, m, n - 1);
      var prev := RowsScan(dateIdx, hlIdx, fromKey, fetched, rows, s, n - 1);
      assert prev.Some? && prev.value.stopped;
    }
  }

  /** Once the scan has stopped, later tables of the `div` change nothing. */
  lemma {:induction false} TablesStayStopped(tables: seq<BulletinTable>, hyperlinkTag: string, fromKey: string, fetched: set<string>, s: Scan, m: nat, n: nat)
    requires m <= n <= |tables|
    requires TablesScan(tables, hyperlinkTag, fromKey, fetched, s, m).Some?
    requires TablesScan(tables, hyperlinkTag, fromKey, fetched, s, m).value.stopped
    ensures TablesScan(tables, hyperlinkTag, fromKey, fetched, s, n) == TablesScan(tables, hyperlinkTag, fromKey, fetched, s, m)
    decreases n - m
  {
    if m < n {
      TablesStayStopped(tables, hyperlinkTag, fromKey, fetched, s, m, n - 1);
      TablesStoppedStep(tables, hyperlinkTag, fromKey, fetched, s, n - 1);
    }
  }

  lemma TablesStoppedStep(tables: seq<BulletinTable>, hyperlinkTag: string, fromKey: string, fetched: set<string>, s: Scan, k: nat)
    requires k < |tables| && TablesScan(tables, hyperlinkTag, fromKey, fetched, s, k).Some?
    requires TablesScan(tables, hyperlinkTag, fromKey, fetched, s, k).value.stopped
    ensures TablesScan(tables, hyperlinkTag, fromKey, fetched, s, k + 1) == TablesScan(tables, hyperlinkTag, fromKey, fetched, s, k)
  {
  }

  /** Once the scan has stopped, later `div`s change nothing: the stop leaves every loop. */
  lemma {:induction false} DivsStayStopped(divs: seq<seq<BulletinTable>>, hyperlinkTag: string, fromKey: string, fetched: set<string>, m: nat, n: nat)
    requires m <= n <= |divs|
    requires DivsScan(divs, hyperlinkTag, fromKey, fetched, m).Some?
    requires DivsScan(divs, hyperlinkTag, fromKey, fetched, m).value.stopped
    ensures DivsScan(divs, hyperlinkTag, fromKey, fetched, n) == DivsScan(divs, hyperlinkTag, fromKey, fetched, m)
    decreases n - m
  {
    if m < n {
      DivsStoppedStep(divs, hyperlinkTag, fromKey, fetched, m);
      DivsStayStopped(divs, hyperlinkTag, fromKey, fetched, m + 1, n);
    }
  }

  lemma {:induction false} RowsFailOnward(dateIdx: nat, hlIdx: int, fromKey: string, fetched: set<string>, rows: seq<Tr>, s: Scan, m: nat, n: nat)
    requires m <= n <= |rows|
    requires RowsScan(dateIdx, hlIdx, fromKey, fetched, rows, s, m).None?
    ensures RowsScan(dateIdx, hlIdx, fromKey, fetched, rows, s, n).None?
    decreases n - m
  {
    if m < n {
      RowsFailOnward(dateIdx, hlIdx, fromKey, fetched, rows, s, m, n - 1);
    }
  }

  lemma {:induction false} TablesFailOnward(tables: seq<BulletinTable>, hyperlinkTag: string, fromKey: string, fetched: set<string>, s: Scan, m: nat, n: nat)
    requires m <= n <= |tables|
    requires TablesScan(tables, hyperlinkTag, fromKey, fetched, s, m).None?
    ensures TablesScan(tables, hyperlinkTag, fromKey, fetched, s, n).None?
    decreases n - m
  {
    if m < n {
      TablesFailOnward(tables, hyperlinkTag, fromKey, fetched, s, m, n - 1);
    }
  }

  lemma DivsStoppedStep(divs: seq<seq<BulletinTable>>, hyperlinkTag: string, fromKey: string, fetched: set<string>, k: nat)
    requires k < |divs| && DivsScan(divs, hyperlinkTag, fromKey, fetched, k).Some?
    requires DivsScan(divs, hyperlinkTag, fromKey, fetched, k).value.stopped
    ensures DivsScan(divs, hyperlinkTag, fromKey, fetched, k + 1) == DivsScan(divs, hyperlinkTag, fromKey, fetched, k)
  {
  }

  lemma {:induction false} DivsFailOnward(divs: seq<seq<BulletinTable>>, hyperlinkTag: string, fromKey: string, fetched: set<string>, m: nat, n: nat)
    requires m <= n <= |divs|
    requires DivsScan(divs, hyperlinkTag, fromKey, fetched, m).None?
    ensures DivsScan(divs, hyperlinkTag, fromKey, fetched, n).None?
    decreases n - m
  {
    if m < n {
      DivsFailOnward(divs, hyperlinkTag, fromKey, fetched, m, n - 1);
      DivsNoneStep(divs, hyperlinkTag, fromKey, fetched, n - 1);
    }
  }

  lemma DivsNoneStep(divs: seq<seq<BulletinTable>>, hyperlinkTag: string, fromKey: string, fetched: set<string>, k: nat)
    requires k < |divs| && DivsScan(divs, hyperlinkTag, fromKey, fetched, k).None?
    ensures DivsScan(divs, hyperlinkTag, fromKey, fetched, k + 1).None?
  {
  }

  /** The row loop of one table; None when a row raises. */
  method ScanRows(dateIdx: nat, hlIdx: int, fromKey: string, fetched: set<string>, rows: seq<Tr>, start: Scan)
    returns (outcome: Option<Scan>)
    ensures outcome == RowsScan(dateIdx, hlIdx, fromKey, fetched, rows, start, |rows|)
  {
    outcome := Some(start);
    var i := 0;
    while i < |rows| && outcome.Some? && !outcome.value.stopped
      invariant 0 <= i <= |rows|
      invariant outcome == RowsScan(dateIdx, hlIdx, fromKey, fetched, rows, start, i)
    {
      var prev := outcome.value;
      outcome := RowPass(dateIdx, hlIdx, fromKey, fetched, prev, rows[i]);
      RowsScanNext(dateIdx, hlIdx, fromKey, fetched, rows, start, i, prev, outcome);
      i := i + 1;
    }
    RowsScanDone(dateIdx, hlIdx, fromKey, fetched, rows, start, i);
  }

  /** A row pass from the scan of the first `i` rows is the scan of the first `i + 1`. */
  lemma RowsScanNext(dateIdx: nat, hlIdx: int, fromKey: string, fetched: set<string>, rows: seq<Tr>, start: Scan, i: nat, s: Scan, next: Option<Scan>)
    requires i < |rows| && RowsScan(dateIdx, hlIdx, fromKey, fetched, rows, start, i) == Some(s) && !s.stopped
    requires next == RowStep(dateIdx, hlIdx, fromKey, fetched, s, rows[i])
    ensures RowsScan(dateIdx, hlIdx, fromKey, fetched, rows, start, i + 1) == next
  {
  }

  /** Leaving the row loop, by the end of the rows, a raise or the stop, gives the whole table's scan. */
  lemma RowsScanDone(dateIdx: nat, hlIdx: int, fromKey: string, fetched: set<string>, rows: seq<Tr>, start: Scan, i: nat)
    requires i <= |rows|
    requires var r := RowsScan(dateIdx, hlIdx, fromKey, fetched, rows, start, i); i == |rows| || r.None? || r.value.stopped
    ensures RowsScan(dateIdx, hlIdx, fromKey, fetched, rows, start, |rows|) == RowsScan(dateIdx, hlIdx, fromKey, fetched, rows, start, i)
  {
    var r := RowsScan(dateIdx, hlIdx, fromKey, fetched, rows, start, i);
    if r.None? {
      RowsFailOnward(dateIdx, hlIdx, fromKey, fetched, rows, start, i, |rows|);
    } else if r.value.stopped {
      RowsStayStopped(dateIdx, hlIdx, fromKey, fetched, rows, start, i, |rows|);
    }
  }

  /** The body of the row loop, on the scan's variables; None when the row raises. */
  method RowPass(dateIdx: nat, hlIdx: int, fromKey: string, fetched: set<string>, s: Scan, row: Tr)
    returns (next: Option<Scan>)
    ensures next == RowStep(dateIdx, hlIdx, fromKey, fetched, s, row)
  {
    var filenameTag := s.tag;
    var latestDownloadedDate := s.latest;
    var saved := s.saved;
    var endFileDownload := s.stopped;
    if |row.tds| == 0 {
      if |row.ths| == 0 {
        return None;
      }
      filenameTag := RemoveAll(row.ths[0], ' ');
    } else {
      if dateIdx >= |row.tds| {
        return None;
      }
      var dateYyyymmddStr := DateKey(row.tds[dateIdx].text);
      if Less(dateYyyymmddStr, fromKey) {
        endFileDownload := true;
      } else {
        var fileIdStr := row.tds[0].text;
        var hlStr := LinkOf(row.tds, hlIdx);
        if hlStr.None? {
          return None;
        }
        if hlStr.value in fetched {
          saved := saved + [Download(dateYyyymmddStr, filenameTag, fileIdStr)];
          if !IsDecimal(dateYyyymmddStr) {
            return None;
          }
          var dateYyyymmddInt := DecimalValue(dateYyyymmddStr);
          if dateYyyymmddInt > latestDownloadedDate {
            latestDownloadedDate := dateYyyymmddInt;
          }
        }
      }
    }
    next := Some(Scan(filenameTag, latestDownloadedDate, saved, endFileDownload));
  }

  /** One table: its `Date` and link columns, then its rows with the tag reset. */
  method ScanTable(table: BulletinTable, hyperlinkTag: string, fromKey: string, fetched: set<string>, start: Scan)
    returns (outcome: Option<Scan>)
    ensures outcome == TableScan(table, hyperlinkTag, fromKey, fetched, start)
  {
    var dateIdx := Tables.IndexOf(table.columns, "Date");
    if dateIdx < 0 {
      return None;
    }
    var hlIdx := FindHyperlinkColumn(table.columns, hyperlinkTag);
    outcome := ScanRows(dateIdx, hlIdx, fromKey, fetched, table.rows, start.(tag := ""));
  }

  /** The tables of one `div`, leaving as soon as the scan stops. */
  method ScanTables(tables: seq<BulletinTable>, hyperlinkTag: string, fromKey: string, fetched: set<string>, start: Scan)
    returns (outcome: Option<Scan>)
    ensures outcome == TablesScan(tables, hyperlinkTag, fromKey, fetched, start, |tables|)
  {
    outcome := Some(start);
    var t := 0;
    while t < |tables| && outcome.Some? && !outcome.value.stopped
      invariant 0 <= t <= |tables|
      invariant outcome == TablesScan(tables, hyperlinkTag, fromKey, fetched, start, t)
    {
      var prev := outcome.value;
      outcome := ScanTable(tables[t], hyperlinkTag, fromKey, fetched, prev);
      TablesScanNext(tables, hyperlinkTag, fromKey, fetched, start, t, prev, outcome);
      t := t + 1;
    }
    TablesScanDone(tables, hyperlinkTag, fromKey, fetched, start, t);
  }

  /** One more table from the scan of the first `t` tables is the scan of the first `t + 1`. */
  lemma TablesScanNext(tables: seq<BulletinTable>, hyperlinkTag: string, fromKey: string, fetched: set<string>, start: Scan, t: nat, s: Scan, next: Option<Scan>)
    requires t < |tables| && TablesScan(tables, hyperlinkTag, fromKey, fetched, start, t) == Some(s) && !s.stopped
    requires next == TableScan(tables[t], hyperlinkTag, fromKey, fetched, s)
    ensures TablesScan(tables, hyperlinkTag, fromKey, fetched, start, t + 1) == next
  {
  }

  /** Leaving the table loop, by the last table, a raise or the stop, gives the whole `div`'s scan. */
  lemma TablesScanDone(tables: seq<BulletinTable>, hyperlinkTag: string, fromKey: string, fetched: set<string>, start: Scan, t: nat)
    requires t <= |tables|
    requires var r := TablesScan(tables, hyperlinkTag, fromKey, fetched, start, t); t == |tables| || r.None? || r.value.stopped
    ensures TablesScan(tables, hyperlinkTag, fromKey, fetched, start, |tables|) == TablesScan(tables, hyperlinkTag, fromKey, fetched, start, t)
  {
    var r := TablesScan(tables, hyperlinkTag, fromKey, fetched, start, t);
    if r.None? {
      TablesFailOnward(tables, hyperlinkTag, fromKey, fetched, start, t, |tables|);
    } else if r.value.stopped {
      TablesStayStopped(tables, hyperlinkTag, fromKey, fetched, start, t, |tables|);
    }
  }

  /**
   * `save_daily_statistics_files`: the files saved, and (in `latest`) the
   * newest date among them, 0 with none saved; None when the page makes the
   * script raise.
   */
  method SaveDailyStatisticsFiles(divs: seq<seq<BulletinTable>>, hyperlinkTag: string, fromKey: string, fetched: set<string>)
    returns (outcome: Option<Scan>)
    ensures outcome == DivsScan(divs, hyperlinkTag, fromKey, fetched, |divs|)
  {
    outcome := Some(Scan("", 0, [], false));
    var d := 0;
    while d < |divs| && outcome.Some? && !outcome.value.stopped
      invariant 0 <= d <= |divs|
      invariant outcome == DivsScan(divs, hyperlinkTag, fromKey, fetched, d)
    {
      var prev := outcome.value;
      outcome := ScanTables(divs[d], hyperlinkTag, fromKey, fetched, prev);
      DivsScanNext(divs, hyperlinkTag, fromKey, fetched, d, prev, outcome);
      d := d + 1;
    }
    DivsScanDone(divs, hyperlinkTag, fromKey, fetched, d);
  }

  /** One more `div` from the scan of the first `d` is the scan of the first `d + 1`. */
  lemma DivsScanNext(divs: seq<seq<BulletinTable>>, hyperlinkTag: string, fromKey: string, fetched: set<string>, d: nat, s: Scan, next: Option<Scan>)
    requires d < |divs| && DivsScan(divs, hyperlinkTag, fromKey, fetched, d) == Some(s) && !s.stopped
    requires next == TablesScan(divs[d], hyperlinkTag, fromKey, fetched, s, |divs[d]|)
    ensures DivsScan(divs, hyperlinkTag, fromKey, fetched, d + 1) == next
  {
  }

  /** Leaving the `div` loop, by the last `div`, a raise or the stop, gives the whole page's scan. */
  lemma DivsScanDone(divs: seq<seq<BulletinTable>>, hyperlinkTag: string, fromKey: string, fetched: set<string>, d: nat)
    requires d <= |divs|
    requires var r := DivsScan(divs, hyperlinkTag, fromKey, fetched, d); d == |divs| || r.None? || r.value.stopped
    ensures DivsScan(divs, hyperlinkTag, fromKey, fetched, |divs|) == DivsScan(divs, hyperlinkTag, fromKey, fetched, d)
  {
    var r := DivsScan(divs, hyperlinkTag, fromKey, fetched, d);
    if r.None? {
      DivsFailOnward(divs, hyperlinkTag, fromKey, fetched, d, |divs|);
    } else if r.value.stopped {
      DivsStayStopped(divs, hyperlinkTag, fromKey, fetched, d, |divs|);
    }
  }

  /** The newest date among the first `n` file names, from 0; None when a name has no numeric field 2. */
  function LatestFileDate(names: seq<string>, n: nat): Option<nat>
    requires n <= |names|
  {
    if n == 0 then Some(0)
    else
      match LatestFileDate(names, n - 1)
      case None => None
      case Some(latest) =>
        match FileDate(names[n - 1])
        case None => None
        case Some(d) => Some(if d > latest then d else latest)
  }

  /** The result is the largest file date (0 with no files), and it fails exactly when some name has no date. */
  lemma {:induction false} LatestFileDateIsMax(names: seq<string>, n: nat)
    requires n <= |names|
    ensures LatestFileDate(names, n).None? <==> exists k | 0 <= k < n :: FileDate(names[k]).None?
    ensures LatestFileDate(names, n).Some? ==>
      && (forall k | 0 <= k < n :: FileDate(names[k]).value <= LatestFileDate(names, n).value)
      && (LatestFileDate(names, n).value == 0 || exists k | 0 <= k < n :: FileDate(names[k]).value == LatestFileDate(names, n).value)
  {
    if n > 0 {
      LatestFileDateIsMax(names, n - 1);
    }
  }

  /** `int(s[:4])`, `int(s[4:6])`, `int(s[6:])` of `str(date)`; None when a slice is empty. */
  function DateParts(date: nat): Option<(nat, nat, nat)> {
    var s := DecimalString(date);
    if |s| < 7 then None
    else Some((DecimalValue(s[..4]), DecimalValue(s[4..6]), DecimalValue(s[6..])))
  }

  /**
   * `find_latest_dl_date` up to the year, month and day it reads; the
   * directory listing is the `filenames` parameter.
   */
  method FindLatestDlDate(filenames: seq<string>) returns (parts: Option<(nat, nat, nat)>)
    ensures parts == if LatestFileDate(filenames, |filenames|).None? then None
                     else DateParts(LatestFileDate(filenames, |filenames|).value)
  {
    var latestDate: nat := 0;
    var i := 0;
    while i < |filenames|
      invariant 0 <= i <= |filenames|
      invariant LatestFileDate(filenames, i) == Some(latestDate)
    {
      var fields := Split(filenames[i], '_');
      if |fields| < 3 || !IsDecimal(fields[2]) {
        LatestDateFailsOnward(filenames, i + 1, |filenames|);
        return None;
      }
      var filedate := DecimalValue(fields[2]);
      if filedate > latestDate {
        latestDate := filedate;
      }
      i := i + 1;
    }
    parts := DateParts(latestDate);
  }

  lemma {:induction false} LatestDateFailsOnward(names: seq<string>, m: nat, n: nat)
    requires m <= n <= |names|
    requires LatestFileDate(names, m).None?
    ensures LatestFileDate(names, n).None?
    decreases n - m
  {
    if m < n {
      LatestDateFailsOnward(names, m, n - 1);
    }
  }

  /**
   * Reading back a directory holding just the files of one scan gives the date
   * the scan returned.
   */
  lemma SavedFilesGiveLatest(divs: seq<seq<BulletinTable>>, hyperlinkTag: string, fromKey: string, fetched: set<string>)
    requires DivsScan(divs, hyperlinkTag, fromKey, fetched, |divs|).Some?
    ensures var s := DivsScan(divs, hyperlinkTag, fromKey, fetched, |divs|).value;
      LatestFileDate(Names(s.saved), |s.saved|) == Some(s.latest)
  {
    DivsScanGood(divs, hyperlinkTag, fromKey, fetched, |divs|);
    GoodScanGivesLatest(DivsScan(divs, hyperlinkTag, fromKey, fetched, |divs|).value, fromKey);
  }

  /** The files a scan keeping GoodScan has saved name its latest date as their newest. */
  lemma GoodScanGivesLatest(s: Scan, fromKey: string)
    requires GoodScan(s, fromKey)
    ensures LatestFileDate(Names(s.saved), |s.saved|) == Some(s.latest)
  {
    var dates := KeyDates(s.saved);
    NamesGiveDates(s.saved);
    assert IsMaxOrZero(s.latest, dates) by {
      if s.latest != 0 {
        var k :| 0 <= k < |s.saved| && DecimalValue(s.saved[k].key) == s.latest;
        assert dates[k] == s.latest;
      }
    }
    LatestIsMaxOfDates(Names(s.saved), dates, s.latest);
  }

  /** The values of the saved keys, in order. */
  function KeyDates(saved: seq<Download>): (dates: seq<nat>)
    requires forall k | 0 <= k < |saved| :: IsDecimal(saved[k].key)
    ensures |dates| == |saved|
    ensures forall k | 0 <= k < |saved| :: IsDecimal(saved[k].key) && dates[k] == DecimalValue(saved[k].key)
  {
    seq(|saved|, k requires 0 <= k < |saved| => assert IsDecimal(saved[k].key); DecimalValue(saved[k].key))
  }

  /** The name of each saved file gives back the value of its key. */
  lemma NamesGiveDates(saved: seq<Download>)
    requires forall k | 0 <= k < |saved| :: IsDecimal(saved[k].key)
    ensures forall k | 0 <= k < |saved| :: FileDate(Names(saved)[k]) == Some(KeyDates(saved)[k])
  {
    forall k | 0 <= k < |saved| ensures FileDate(Names(saved)[k]) == Some(KeyDates(saved)[k]) {
      FileDateOfSaved(saved[k].key, saved[k].tag, saved[k].id);
    }
  }

  /** Names whose dates are `dates` give the largest of them (0 with none) as the newest. */
  lemma LatestIsMaxOfDates(names: seq<string>, dates: seq<nat>, v: nat)
    requires |names| == |dates|
    requires forall k | 0 <= k < |names| :: FileDate(names[k]) == Some(dates[k])
    requires IsMaxOrZero(v, dates)
    ensures LatestFileDate(names, |names|) == Some(v)
  {
    LatestFileDateIsMax(names, |names|);
    var w := LatestFileDate(names, |names|).value;
    assert IsMaxOrZero(w, dates) by {
      if w != 0 {
        var k :| 0 <= k < |names| && FileDate(names[k]).value == w;
        assert dates[k] == w;
      }
    }
    MaxIsUnique(w, v, dates);
  }

  /** `v` bounds every date and is one of them, or 0. */
  predicate IsMaxOrZero(v: nat, dates: seq<nat>) {
    (forall k | 0 <= k < |dates| :: dates[k] <= v) && (v == 0 || exists k | 0 <= k < |dates| :: dates[k] == v)
  }

  lemma MaxIsUnique(v: nat, w: nat, dates: seq<nat>)
    requires IsMaxOrZero(v, dates) && IsMaxOrZero(w, dates)
    ensures v == w
  {
    if v != 0 {
      var k :| 0 <= k < |dates| && dates[k] == v;
    }
    if w != 0 {
      var k :| 0 <= k < |dates| && dates[k] == w;
    }
  }

  function Names(saved: seq<Download>): (names: seq<string>)
    ensures |names| == |saved|
    ensures forall k | 0 <= k < |saved| :: names[k] == Filename(saved[k].key, saved[k].tag, saved[k].id)
  {
    seq(|saved|, k requires 0 <= k < |saved| => Filename(saved[k].key, saved[k].tag, saved[k].id))
  }

  /** A digit string that does not start with 0 has value at least 1. */
  lemma PositiveValue(s: string)
    requires IsDecimal(s) && s[0] != '0'
    ensures DecimalValue(s) >= 1
  {
    DecimalSplit(s, 1);
    assert s[..1][..0] == [] && s[..1][0] == s[0];
  }

  /** `str(int(s)) == s` for a digit string without a leading zero. */
  lemma {:induction false} DecimalStringOfValue(s: string)
    requires IsDecimal(s) && (s[0] != '0' || |s| == 1)
    ensures DecimalString(DecimalValue(s)) == s
  {
    var v := DecimalValue(s);
    if |s| == 1 {
      assert s[..0] == [];
    } else {
      var p := s[..|s| - 1];
      assert p[0] == s[0];
      PositiveValue(p);
      DecimalStringOfValue(p);
      assert v / 10 == DecimalValue(p) && v % 10 == DigitValue(s[|s| - 1]);
      assert s == p + [s[|s| - 1]];
    }
  }

  /**
   * A bulletin dated `DD-MM-YYYY` (digits, the year not starting with 0) is
   * read back by `find_latest_dl_date` as that year, month and day.
   */
  lemma BulletinDateRoundTrip(d: string, m: string, y: string)
    requires |d| == 2 && |m| == 2 && |y| == 4
    requires IsDecimal(d) && IsDecimal(m) && IsDecimal(y) && y[0] != '0'
    ensures var key := DateKey(d + "-" + m + "-" + y);
      key == y + m + d && IsDecimal(key) && DateParts(DecimalValue(key)) == Some((DecimalValue(y), DecimalValue(m), DecimalValue(d)))
  {
    assert '-' !in d && '-' !in m && '-' !in y by {
      assert !IsDigit('-');
      assert forall c | c in d :: IsDigit(c);
      assert forall c | c in m :: IsDigit(c);
      assert forall c | c in y :: IsDigit(c);
    }
    DateKeyOfDayMonthYear(d, m, y);
    var key := y + m + d;
    assert IsDecimal(key) by {
      forall i | 0 <= i < |key| ensures IsDigit(key[i]) {
        if i < 4 { assert key[i] == y[i]; }
        else if i < 6 { assert key[i] == m[i - 4]; }
        else { assert key[i] == d[i - 6]; }
      }
    }
    DecimalStringOfValue(key);
    assert key[..4] == y && key[4..6] == m && key[6..] == d;
  }

  /** `a < b` on keys of the same number of digits is `int(a) < int(b)`. */
  lemma {:induction false} KeyOrderIsDateOrder(a: string, b: string)
    requires |a| == |b|
    requires forall i | 0 <= i < |a| :: IsDigit(a[i])
    requires forall i | 0 <= i < |b| :: IsDigit(b[i])
    ensures Less(a, b) <==> DecimalValue(a) < DecimalValue(b)
    decreases |a|
  {
    if |a| > 0 {
      DecimalSplit(a, 1);
      DecimalSplit(b, 1);
      assert a[..1][..0] == [] && a[..1][0] == a[0];
      assert b[..1][..0] == [] && b[..1][0] == b[0];
      var p := Pow10(|a| - 1);
      var da, db := DigitValue(a[0]), DigitValue(b[0]);
      var ra, rb := DecimalValue(a[1..]), DecimalValue(b[1..]);
      if a[0] != b[0] {
        if da < db {
          LeadingDigitDecides(da, db, ra, rb, p);
        } else {
          LeadingDigitDecides(db, da, rb, ra, p);
        }
      } else {
        KeyOrderIsDateOrder(a[1..], b[1..]);
      }
    }
  }

  lemma LeadingDigitDecides(da: nat, db: nat, ra: nat, rb: nat, p: nat)
    requires da < db && ra < p
    ensures da * p + ra < db * p + rb
  {
    assert db * p >= (da + 1) * p;
  }

  /** `from_date` turned into the start key; 'today' and 'pending' come from the clock and the directory. */
  function FromYyyymmdd(fromDate: string, today: string, pendingFrom: string): string {
    if fromDate == "all" then "00000000"
    else if fromDate == "today" then today
    else if fromDate == "pending" then pendingFrom
    else fromDate
  }

  lemma {:induction false} NotBelowZeros(key: string, k: nat)
    requires k <= |key|
    requires forall i | 0 <= i < |key| :: '0' <= key[i]
    ensures !Less(key, seq(k, _ => '0'))
  {
    if k > 0 {
      assert seq(k, _ => '0')[1..] == seq(k - 1, _ => '0');
      NotBelowZeros(key[1..], k - 1);
    }
  }

  /**
   * With `from_date` 'all', no bulletin row dated `DD-MM-YYYY` ends the scan
   * early.
   */
  lemma AllKeepsEveryRow(d: string, m: string, y: string, today: string, pendingFrom: string)
    requires |d| == 2 && |m| == 2 && |y| == 4
    requires IsDecimal(d) && IsDecimal(m) && IsDecimal(y) && y[0] != '0'
    ensures !Less(DateKey(d + "-" + m + "-" + y), FromYyyymmdd("all", today, pendingFrom))
  {
    BulletinDateRoundTrip(d, m, y);
    var key := DateKey(d + "-" + m + "-" + y);
    assert |key| == 8;
    assert "00000000" == seq(8, _ => '0');
    NotBelowZeros(key, 8);
  }

  /**
   * An eight-digit `--from_date` is used as the start key as it is, so a
   * bulletin row dated `DD-MM-YYYY` ends the scan exactly when its date is
   * numerically earlier than the given one.
   */
  lemma {:induction false} GivenDateStopsAtOlderRows(fromDate: string, today: string, pendingFrom: string,
                                                     d: string, m: string, y: string)
    requires |fromDate| == 8 && IsDecimal(fromDate)
    requires |d| == 2 && |m| == 2 && |y| == 4
    requires IsDecimal(d) && IsDecimal(m) && IsDecimal(y) && y[0] != '0'
    ensures FromYyyymmdd(fromDate, today, pendingFrom) == fromDate
    ensures Less(DateKey(d + "-" + m + "-" + y), FromYyyymmdd(fromDate, today, pendingFrom)) <==>
      DecimalValue(y + m + d) < DecimalValue(fromDate)
  {
    assert fromDate != "all" && fromDate != "today" && fromDate != "pending";
    BulletinDateRoundTrip(d, m, y);
    KeyOrderIsDateOrder(y + m + d, fromDate);
  }

  /**
   * `diff.days*24*60*60 + diff.hours*60*60 + diff.minutes*60 + diff.seconds`:
   * with the hours, minutes and seconds in the ranges `relativedelta` gives
   * them, the sleep lasts the whole days and less than one day more.
   */
  function RemainingSeconds(days: int, hours: int, minutes: int, seconds: int): (r: int)
    ensures 0 <= hours < 24 && 0 <= minutes < 60 && 0 <= seconds < 60 ==>
      days * 86400 <= r < days * 86400 + 86400
  {
    days * 86400 + hours * 3600 + minutes * 60 + seconds
  }
}
