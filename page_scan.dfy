/**
 * How `find_req_table` locates a category table inside one `div` of the
 * bed-status page, in all three bed-status scripts: the first `h4` heading
 * whose text is part of a listed category name gives the title and a source
 * line; the `table` tag whose source line lies least far after that line (the
 * smallest `sourceline - h4_line`) is the one read.
 */
module PageScan {
  import opened Wrappers
  import opened Strings
  import opened Tables

  /** An `h4` tag: its text contents in document order and its source line. */
  datatype Heading = Heading(contents: seq<string>, sourceline: int)

  /** A `table` tag: its source line and the table `pd.read_html` reads from it. */
  datatype TableTag = TableTag(sourceline: int, data: RawTable)

  /** `any(content in title for title in categories)`. */
  predicate NamesCategory(content: string, categories: seq<string>) {
    exists k | 0 <= k < |categories| :: IsSubstring(content, categories[k])
  }

  /** Position of the first content naming a category, or -1. */
  function FirstMatch(contents: seq<string>, categories: seq<string>): (i: int)
    ensures -1 <= i < |contents|
    ensures i >= 0 ==> NamesCategory(contents[i], categories)
    ensures forall j | 0 <= j < |contents| && (i < 0 || j < i) :: !NamesCategory(contents[j], categories)
  {
    if |contents| == 0 then -1
    else if NamesCategory(contents[0], categories) then 0
    else
      var k := FirstMatch(contents[1..], categories);
      assert forall j | 1 <= j < |contents| :: contents[j] == contents[1..][j - 1];
      if k < 0 then -1 else k + 1
  }

  /**
   * The pair (`cur_title`, `h4_line_num`) once the heading loop has gone
   * through `h4s` starting from (`title`, `line`): an `h4` with a matching
   * content overwrites both, and the loop stops once the line is positive.
   */
  function HeadingLoop(h4s: seq<Heading>, categories: seq<string>, title: string, line: int): (string, int)
  {
    if |h4s| == 0 then (title, line)
    else
      var m := FirstMatch(h4s[0].contents, categories);
      var t := if m >= 0 then h4s[0].contents[m] else title;
      var l := if m >= 0 then h4s[0].sourceline else line;
      if l > 0 then (t, l) else HeadingLoop(h4s[1..], categories, t, l)
  }

  /** The heading settled on, or None when `h4_line_num` is still 0 after the loop. */
  function ChosenHeading(h4s: seq<Heading>, categories: seq<string>): Option<(string, int)>
  {
    var (t, l) := HeadingLoop(h4s, categories, "", 0);
    if l == 0 then None else Some((t, l))
  }

  /** An `h4` with no matching content leaves the loop where it was. */
  lemma ChosenHeadingSkip(h4s: seq<Heading>, categories: seq<string>)
    requires |h4s| > 0 && FirstMatch(h4s[0].contents, categories) < 0
    ensures ChosenHeading(h4s, categories) == ChosenHeading(h4s[1..], categories)
  {
  }

  /** An `h4` with a matching content, on a line from 1 on, ends the loop with its first such content. */
  lemma ChosenHeadingStops(h4s: seq<Heading>, categories: seq<string>)
    requires |h4s| > 0 && FirstMatch(h4s[0].contents, categories) >= 0 && h4s[0].sourceline >= 1
    ensures ChosenHeading(h4s, categories) ==
      Some((h4s[0].contents[FirstMatch(h4s[0].contents, categories)], h4s[0].sourceline))
  {
  }

  /**
   * With the source lines an HTML parser gives (from 1 on), no heading is
   * chosen exactly when no `h4` has a content naming a category.
   */
  lemma {:induction false} NoHeadingChosen(h4s: seq<Heading>, categories: seq<string>)
    requires forall i | 0 <= i < |h4s| :: h4s[i].sourceline >= 1
    ensures ChosenHeading(h4s, categories).None? <==>
      forall i | 0 <= i < |h4s| :: FirstMatch(h4s[i].contents, categories) < 0
  {
    if |h4s| > 0 {
      if FirstMatch(h4s[0].contents, categories) < 0 {
        ChosenHeadingSkip(h4s, categories);
        NoHeadingChosen(h4s[1..], categories);
        assert forall i | 1 <= i < |h4s| :: h4s[i] == h4s[1..][i - 1];
      } else {
        ChosenHeadingStops(h4s, categories);
      }
    }
  }

  /**
   * With the source lines an HTML parser gives (from 1 on), the chosen heading
   * is the first `h4` in document order with a content naming a category, and
   * its first such content.
   */
  lemma {:induction false} ChosenHeadingIsFirstMatch(h4s: seq<Heading>, categories: seq<string>)
    requires forall i | 0 <= i < |h4s| :: h4s[i].sourceline >= 1
    ensures ChosenHeading(h4s, categories).Some? ==>
      exists i | 0 <= i < |h4s| ::
        && FirstMatch(h4s[i].contents, categories) >= 0
        && (forall j | 0 <= j < i :: FirstMatch(h4s[j].contents, categories) < 0)
        && ChosenHeading(h4s, categories).value ==
           (h4s[i].contents[FirstMatch(h4s[i].contents, categories)], h4s[i].sourceline)
  {
    if |h4s| > 0 {
      if FirstMatch(h4s[0].contents, categories) < 0 {
        var tail := h4s[1..];
        ChosenHeadingSkip(h4s, categories);
        ChosenHeadingIsFirstMatch(tail, categories);
        if ChosenHeading(tail, categories).Some? {
          var i :| 0 <= i < |tail|
            && FirstMatch(tail[i].contents, categories) >= 0
            && (forall j | 0 <= j < i :: FirstMatch(tail[j].contents, categories) < 0)
            && ChosenHeading(tail, categories).value ==
               (tail[i].contents[FirstMatch(tail[i].contents, categories)], tail[i].sourceline);
          NoMatchBefore(h4s, categories, i);
          assert h4s[i + 1] == tail[i];
        }
      } else {
        ChosenHeadingStops(h4s, categories);
      }
    }
  }

  /** No match among the first `i` headings after a first non-matching one is no match among the first `i + 1`. */
  lemma NoMatchBefore(h4s: seq<Heading>, categories: seq<string>, i: nat)
    requires i < |h4s| - 1 && FirstMatch(h4s[0].contents, categories) < 0
    requires forall j | 0 <= j < i :: FirstMatch(h4s[1..][j].contents, categories) < 0
    ensures forall j | 0 <= j < i + 1 :: FirstMatch(h4s[j].contents, categories) < 0
  {
    forall j | 1 <= j < i + 1 ensures FirstMatch(h4s[j].contents, categories) < 0 {
      assert h4s[j] == h4s[1..][j - 1];
    }
  }

  /** The heading loop: an outer loop over the `h4` tags and an inner one over their contents. */
  method FindHeading(h4s: seq<Heading>, categories: seq<string>) returns (found: Option<(string, int)>)
    ensures found == ChosenHeading(h4s, categories)
  {
    var title, line := "", 0;
    var i := 0;
    while i < |h4s|
      invariant 0 <= i <= |h4s|
      invariant line <= 0
      invariant HeadingLoop(h4s, categories, "", 0) == HeadingLoop(h4s[i..], categories, title, line)
    {
      var h4 := h4s[i];
      var j := 0;
      while j < |h4.contents|
        invariant 0 <= j <= |h4.contents|
        invariant forall k | 0 <= k < j :: !NamesCategory(h4.contents[k], categories)
      {
        if NamesCategory(h4.contents[j], categories) {
          break;
        }
        j := j + 1;
      }
      assert h4s[i..][0] == h4 && h4s[i..][1..] == h4s[i + 1..];
      if j < |h4.contents| {
        assert FirstMatch(h4.contents, categories) == j;
        line := h4.sourceline;
        title := h4.contents[j];
      } else {
        assert FirstMatch(h4.contents, categories) == -1;
      }
      if line > 0 {
        break;
      }
      i := i + 1;
    }
    if line == 0 {
      found := None;
    } else {
      found := Some((title, line));
    }
  }

  /** The first table with the smallest source line. */
  function LowestTable(tables: seq<TableTag>): (k: nat)
    requires |tables| > 0
    ensures k < |tables|
    ensures forall j | 0 <= j < |tables| :: tables[k].sourceline <= tables[j].sourceline
    ensures forall j | 0 <= j < k :: tables[j].sourceline > tables[k].sourceline
  {
    if |tables| == 1 then 0
    else
      var n := |tables| - 1;
      var k := LowestTable(tables[..n]);
      assert tables[..n][k] == tables[k];
      assert forall j | 0 <= j < n :: tables[..n][j] == tables[j];
      if tables[n].sourceline < tables[k].sourceline then n else k
  }

  /**
   * The argmin loop over `sourceline - heading_line`.  The heading line is
   * subtracted from every candidate alike, so the pick is the first table
   * with the smallest source line, wherever the heading stands.
   */
  method ChooseTable(tables: seq<TableTag>, headingLine: int) returns (k: nat)
    requires |tables| > 0
    ensures k == LowestTable(tables)
    ensures forall j | 0 <= j < |tables| ::
      tables[k].sourceline - headingLine <= tables[j].sourceline - headingLine
    ensures forall j | 0 <= j < k :: tables[j].sourceline - headingLine > tables[k].sourceline - headingLine
  {
    var minLineDif := tables[0].sourceline - headingLine;
    k := 0;
    var i := 1;
    while i < |tables|
      invariant 1 <= i <= |tables|
      invariant k == LowestTable(tables[..i])
      invariant minLineDif == tables[k].sourceline - headingLine
    {
      assert tables[..i + 1][..i] == tables[..i];
      var lineDif := tables[i].sourceline - headingLine;
      if lineDif < minLineDif {
        minLineDif := lineDif;
        k := i;
      }
      i := i + 1;
    }
    assert tables[..i] == tables;
  }
}
