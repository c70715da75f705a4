# Bengaluru COVID-19 bed and bulletin scripts, modelled in Dafny

The scripts poll Bengaluru's municipal (BBMP) COVID-19 pages and sheets.

- **The three bed-status scripts** pick one table per hospital category from
  the bed-status page. The earliest script only fetches and compares them
  (`bbmpgov_chbms_covid_bed_status.py`). The later scripts also keep the rows
  with a free bed of a tracked type, keep only the name and those bed types,
  and report what changed between two snapshots. One of them reports a change
  per bed count (`bbmpgov_chbms_covid_bed_live_status.py`). The other reports
  new, vanished and changed hospitals in name order
  (`bbmpgov_chbms_covid_bed_live_status_pyvenv.py`).
- **The spreadsheet reader** (`find_bbmp_c19_bed_availability_xlsx.py`) reads
  a bed-status worksheet. It finds every table header, the column of the
  requested bed type under it, and the rows with a free bed of that type.
- **The bulletin downloader** (`bbmpgov_download_covid_bulletin.py`) walks the
  bulletin tables newest first. It downloads each PDF dated on or after a
  start date and saves it as `Covid_Bengaluru_<YYYYMMDD>_<tag>_<id>.pdf`. It
  can also read the newest date back from those names.

The model has one module per concern:

- `Strings` covers Python string order, `split`/`join`, and decimal digits.
- `Tables` covers the page tables and the row filter, the projection and the
  sort.
- `PageScan` covers the heading and table choice that every `find_req_table`
  shares.
- `LiveStatusPyvenv`, `LiveStatus` and `BedStatus` each model one bed-status
  script's `find_req_table` and its differ.
- `XlsxScan` models the spreadsheet scanners.
- `Bulletin` models the downloader's date keys, file names, early-stopping
  scan, newest-date lookup and sleep arithmetic.

The code's loops are methods. Each method is proved equal to a recursive
specification function over a prefix of its input, and lemmas state what
that function means. An exception the scripts do not catch becomes an error
value: `None`, `Failed`, or `MissingColumn`. Pages, sheets, the clock and the
download results are given as parameters.

## Model

| member | source | states |
|---|---|---|
| Strings.Split | bbmpgov_download_covid_bulletin.py:102 | `str.split(sep)` gives at least one part |
| Strings.SplitPartsFree | bbmpgov_download_covid_bulletin.py:102 | no part of a split contains the separator |
| Strings.JoinSplit | bbmpgov_download_covid_bulletin.py:102-103 | joining the parts of a split with the separator gives the string back |
| Strings.SplitJoin | bbmpgov_download_covid_bulletin.py:102-103 | splitting a join of separator-free parts gives the parts back |
| Strings.RemoveAll | bbmpgov_download_covid_bulletin.py:99 | `replace(' ', '')` never lengthens the string |
| Strings.RemoveAllSound | bbmpgov_download_covid_bulletin.py:99 | `replace(' ', '')` leaves no such character, keeps only characters of the input, and changes nothing when there is none |
| Strings.RemoveAllKeepsOthers | bbmpgov_download_covid_bulletin.py:99 | every other character is kept exactly as often as it occurs in the input |
| Strings.RemoveAllAppend | bbmpgov_download_covid_bulletin.py:99 | removing a character from a concatenation removes it from each part, so the other characters keep their order |
| Strings.LessIrreflexive | bbmpgov_download_covid_bulletin.py:104 | Python's string `<` is irreflexive |
| Strings.LessTransitive | bbmpgov_download_covid_bulletin.py:104 | Python's string `<` is transitive |
| Strings.LessTotal | bbmpgov_chbms_covid_bed_live_status_pyvenv.py:121 | two strings are equal or one is below the other, so sorting by name is defined |
| Strings.LessAsymmetric | bbmpgov_download_covid_bulletin.py:104 | string `<` never holds in both directions |
| Strings.DigitValue | bbmpgov_download_covid_bulletin.py:123 | a digit character has a value below 10 |
| Strings.DecimalString | bbmpgov_download_covid_bulletin.py:152 | `str` of a non-negative int is all digits |
| Strings.DecimalRoundTrip | bbmpgov_download_covid_bulletin.py:152-156 | `int(str(n)) == n` |
| Strings.DecimalStringLength | bbmpgov_download_covid_bulletin.py:152-156 | a number in `[10^(k-1), 10^k)` prints with exactly `k` digits |
| Strings.DecimalSplit | bbmpgov_download_covid_bulletin.py:154-156 | the value of a digit string is its leading slice's value shifted, plus its trailing slice's value |
| Tables.IndexOf | bbmpgov_download_covid_bulletin.py:78 | `list.index`: the first position holding the item; -1 (the ValueError) exactly when the item is absent |
| Tables.LocateColumns | bbmpgov_chbms_covid_bed_live_status.py:80-88 | every bed type gets the column with its label; otherwise the KeyError names the first bed type, in `bed_types` order, that has no column, and that happens exactly when some bed type has no column |
| Tables.AvailabilityMask | bbmpgov_chbms_covid_bed_live_status.py:80-82 | the `cond` mask built one bed type at a time is true on a row exactly when one of its tracked counts is positive |
| Tables.SelectRows | bbmpgov_chbms_covid_bed_live_status.py:83-88 | `loc[cond][cols]` keeps exactly the masked rows, each projected onto the columns, with its original label, in page order |
| Tables.AvailableRowsSound | bbmpgov_chbms_covid_bed_live_status.py:80-88 | every kept row had a free bed, is its page row projected, and rows keep page order |
| Tables.AvailableRowsComplete | bbmpgov_chbms_covid_bed_live_status.py:80-88 | every page row with a free tracked bed is kept |
| Tables.InsertByName | bbmpgov_chbms_covid_bed_live_status_pyvenv.py:121 | inserting a row adds exactly that row to the table's multiset |
| Tables.InsertSorted | bbmpgov_chbms_covid_bed_live_status_pyvenv.py:121 | inserting into a name-sorted table keeps it sorted |
| Tables.SortByName | bbmpgov_chbms_covid_bed_live_status_pyvenv.py:121-122 | `sort_values` by name gives a name-sorted permutation of the rows |
| Tables.SortedUniqueIsStrict | bbmpgov_chbms_covid_bed_live_status_pyvenv.py:121 | a name-sorted table with unique names has strictly increasing names |
| PageScan.FirstMatch | bbmpgov_chbms_covid_bed_live_status_pyvenv.py:90-94 | the first content of an `h4` that is part of a category name, -1 when none is |
| PageScan.ChosenHeadingSkip | bbmpgov_chbms_covid_bed_live_status_pyvenv.py:89-96 | an `h4` with no category content is passed over |
| PageScan.ChosenHeadingStops | bbmpgov_chbms_covid_bed_live_status_pyvenv.py:89-96 | the first `h4` with a category content gives that content and its source line |
| PageScan.NoHeadingChosen | bbmpgov_chbms_covid_bed_live_status_pyvenv.py:98-99 | no heading is chosen exactly when no `h4` has a category content |
| PageScan.ChosenHeadingIsFirstMatch | bbmpgov_chbms_covid_bed_live_status_pyvenv.py:86-99 | a chosen heading is the first matching content of the first matching `h4`, with that `h4`'s line |
| PageScan.FindHeading | bbmpgov_chbms_covid_bed_live_status_pyvenv.py:86-96 | the nested heading loops with their found flag compute the chosen heading |
| PageScan.LowestTable | bbmpgov_chbms_covid_bed_live_status_pyvenv.py:101-107 | the first table with the smallest source line |
| PageScan.ChooseTable | bbmpgov_chbms_covid_bed_live_status_pyvenv.py:101-107 | the `min_line_dif` loop picks the first table with the least `sourceline - h4_line` |
| LiveStatusPyvenv.FindReqTable | bbmpgov_chbms_covid_bed_live_status_pyvenv.py:78-124 | None exactly without headings, tables or a category heading; KeyError for a missing bed type column; otherwise the heading's title and a name-sorted permutation of the free-bed rows, one count per bed type |
| LiveStatusPyvenv.AvailableRowsWidth | bbmpgov_chbms_covid_bed_live_status_pyvenv.py:116-119 | the projected rows have one count per bed type |
| LiveStatusPyvenv.PermutationKeepsWidth | bbmpgov_chbms_covid_bed_live_status_pyvenv.py:121 | sorting keeps every row's width |
| LiveStatusPyvenv.RowsByPresenceSound | bbmpgov_chbms_covid_bed_live_status_pyvenv.py:185-186 | the `isin` selections hold only rows of the table whose name is, or is not, in the other table |
| LiveStatusPyvenv.RowsByPresenceComplete | bbmpgov_chbms_covid_bed_live_status_pyvenv.py:185-186 | every such row is selected |
| LiveStatusPyvenv.NegateAll | bbmpgov_chbms_covid_bed_live_status_pyvenv.py:205-206 | `sub_hospitals[:,1:] = -…` keeps the names and negates every count |
| LiveStatusPyvenv.CommonChangesComplete | bbmpgov_chbms_covid_bed_live_status_pyvenv.py:215-238 | every common hospital whose counts changed is reported with `reference - current` per bed type |
| LiveStatusPyvenv.CommonChangeSource | bbmpgov_chbms_covid_bed_live_status_pyvenv.py:215-238 | every reported common row comes from a position whose counts differ, with `reference - current` |
| LiveStatusPyvenv.CommonNamesAlign | bbmpgov_chbms_covid_bed_live_status_pyvenv.py:196-215 | with strictly sorted names, the common rows of both tables list the same names in the same order, so `compare` pairs each hospital with itself |
| LiveStatusPyvenv.CommonName | bbmpgov_chbms_covid_bed_live_status_pyvenv.py:185-186 | a name is among the common rows exactly when both tables have it |
| LiveStatusPyvenv.PresenceKeepsOrder | bbmpgov_chbms_covid_bed_live_status_pyvenv.py:196-212 | dropping rows keeps names strictly sorted |
| LiveStatusPyvenv.StrictlySortedSameElements | bbmpgov_chbms_covid_bed_live_status_pyvenv.py:121 | two strictly sorted name lists with the same names are equal |
| LiveStatusPyvenv.ExtractedTablesAreDiffReady | bbmpgov_chbms_covid_bed_live_status_pyvenv.py:121-124 | tables as `find_req_table` returns them, sorted with unique names, meet what the differ needs |
| LiveStatusPyvenv.CommonHospitalPairedWithItself | bbmpgov_chbms_covid_bed_live_status_pyvenv.py:215-238 | a hospital in both tables is reported with `reference - current` exactly when its counts changed |
| LiveStatusPyvenv.NewAndVanishedHospitals | bbmpgov_chbms_covid_bed_live_status_pyvenv.py:185-207 | every hospital only in the current table is reported with its current counts, every hospital only in the reference table is reported with every count negated, and a reported row for a hospital missing from one side is always one of these |
| LiveStatusPyvenv.ReportedCommonRow | bbmpgov_chbms_covid_bed_live_status_pyvenv.py:215-238 | a reported row whose hospital is in both tables is a common-row change |
| LiveStatusPyvenv.ChangesAgainstShape | bbmpgov_chbms_covid_bed_live_status_pyvenv.py:170-242 | for one reference table the titles and infos lists have equal length, every info is non-empty under the reference title, and an entry needs a same-title current table that differs |
| LiveStatusPyvenv.ChangesShape | bbmpgov_chbms_covid_bed_live_status_pyvenv.py:160-244 | the two returned lists have equal length, every info is non-empty, and every category is a title of both snapshots |
| LiveStatusPyvenv.DiffWithItself | bbmpgov_chbms_covid_bed_live_status_pyvenv.py:160-244 | a snapshot with distinct titles compared with itself reports nothing |
| LiveStatusPyvenv.NothingContributes | bbmpgov_chbms_covid_bed_live_status_pyvenv.py:167-244 | when no reference table contributes, both lists are empty |
| LiveStatusPyvenv.OnlyItselfShares | bbmpgov_chbms_covid_bed_live_status_pyvenv.py:173-177 | with distinct titles, a same-title pair is a table with itself, which `equals` skips |
| LiveStatusPyvenv.NewHospitalSign | bbmpgov_chbms_covid_bed_live_status_pyvenv.py:189-194 | on a one-row example, a new hospital is reported with its current counts (NewAndVanishedHospitals gives the general case) |
| LiveStatusPyvenv.MissingHospitalSign | bbmpgov_chbms_covid_bed_live_status_pyvenv.py:201-207 | on a one-row example, a vanished hospital is reported with its counts negated (NewAndVanishedHospitals gives the general case) |
| LiveStatusPyvenv.ChangedHospitalSign | bbmpgov_chbms_covid_bed_live_status_pyvenv.py:232-236 | on a one-row example, a changed hospital is reported with `reference - current` (CommonHospitalPairedWithItself gives the general case) |
| LiveStatusPyvenv.PairChangesOf | bbmpgov_chbms_covid_bed_live_status_pyvenv.py:179-238 | the body for one same-title pair computes that pair's list |
| LiveStatusPyvenv.CommonChangesOf | bbmpgov_chbms_covid_bed_live_status_pyvenv.py:215-238 | the `iterrows` loop computes the common-row changes |
| LiveStatusPyvenv.CommonRowsAligned | bbmpgov_chbms_covid_bed_live_status_pyvenv.py:196-215 | the two common-row tables have equal length and full width, as `compare` requires |
| LiveStatusPyvenv.RowDifference | bbmpgov_chbms_covid_bed_live_status_pyvenv.py:225-236 | `row_dif` holds `reference - current` for every bed type |
| LiveStatusPyvenv.FindBedAvailabilityChanges | bbmpgov_chbms_covid_bed_live_status_pyvenv.py:160-244 | the nested loops compute the categories and infos that ChangesShape describes |
| LiveStatusPyvenv.ChangesAgainstOf | bbmpgov_chbms_covid_bed_live_status_pyvenv.py:170-242 | the inner loop computes one reference table's contribution |
| LiveStatus.FindReqTable | bbmpgov_chbms_covid_bed_live_status.py:47-90 | None exactly without headings, tables or a category heading; KeyError for a missing bed type column; otherwise the title and the free-bed rows projected, in page order with their page labels |
| LiveStatus.RowEntriesSound | bbmpgov_chbms_covid_bed_live_status.py:151-159 | every entry of a row carries its name and a non-zero `reference - current` of a changed count |
| LiveStatus.RowEntriesComplete | bbmpgov_chbms_covid_bed_live_status.py:151-159 | every changed count gives its entry |
| LiveStatus.RowEntriesEmpty | bbmpgov_chbms_covid_bed_live_status.py:145-149 | a row gives no entry exactly when its counts are unchanged |
| LiveStatus.PairEntriesSound | bbmpgov_chbms_covid_bed_live_status.py:139-159 | every entry of a pair is a changed count of some row under that row's hospital |
| LiveStatus.PairEntriesComplete | bbmpgov_chbms_covid_bed_live_status.py:139-159 | every changed count of every row is reported under its own hospital |
| LiveStatus.PairEntriesEmpty | bbmpgov_chbms_covid_bed_live_status.py:141-143 | a pair gives nothing exactly when every row's counts are unchanged |
| LiveStatus.AsWrittenAgreesOnUnfilteredTables | bbmpgov_chbms_covid_bed_live_status.py:158 | when labels equal positions, reading the name by label gives the intended entries |
| LiveStatus.AsWrittenNamesWrongHospital | bbmpgov_chbms_covid_bed_live_status.py:158 | after the row filter, a change is reported under the next hospital's name |
| LiveStatus.AsWrittenRaisesIndexError | bbmpgov_chbms_covid_bed_live_status.py:158 | after the row filter, a change in the last row raises IndexError |
| LiveStatus.ChangesAgainstShape | bbmpgov_chbms_covid_bed_live_status.py:134-163 | for one reference table the lists have equal length, every info is non-empty under the reference title, and an entry needs a same-title current table |
| LiveStatus.ChangesShape | bbmpgov_chbms_covid_bed_live_status.py:126-165 | the returned lists have equal length, every info is non-empty, and every category is a title of both snapshots |
| LiveStatus.NothingContributes | bbmpgov_chbms_covid_bed_live_status.py:131-165 | when no reference table contributes, both lists are empty |
| LiveStatus.ComparedOnlyWithItself | bbmpgov_chbms_covid_bed_live_status.py:134-163 | with distinct titles a table meets only itself and contributes nothing |
| LiveStatus.DiffWithItself | bbmpgov_chbms_covid_bed_live_status.py:126-165 | a snapshot with distinct titles compared with itself reports nothing |
| LiveStatus.RowEntriesOf | bbmpgov_chbms_covid_bed_live_status.py:151-159 | the per-column loop computes a row's entries |
| LiveStatus.PairEntriesOf | bbmpgov_chbms_covid_bed_live_status.py:139-159 | the `iterrows` loop computes a pair's entries, each under its own row's name (corrected lookup; see Findings) |
| LiveStatus.UnchangedRowHasNoEntries | bbmpgov_chbms_covid_bed_live_status.py:147-149 | a row `compare` leaves out has no entries |
| LiveStatus.PairEntriesSkipRow | bbmpgov_chbms_covid_bed_live_status.py:141-149 | a row `compare` leaves out adds nothing to the pair's entries |
| LiveStatus.ChangesAgainstOf | bbmpgov_chbms_covid_bed_live_status.py:134-163 | the inner loop computes one reference table's contribution (corrected lookup; see Findings) |
| LiveStatus.FindBedAvailabilityChanges | bbmpgov_chbms_covid_bed_live_status.py:126-165 | the nested loops compute the categories and infos that ChangesShape describes (corrected lookup; see Findings) |
| BedStatus.FindReqTable | bbmpgov_chbms_covid_bed_status.py:21-70 | None exactly without headings, tables or a listed heading; otherwise the heading's title and the chosen table whole |
| BedStatus.RowCells | bbmpgov_chbms_covid_bed_status.py:108 | a row as `compare` sees it: the name column, then one cell per bed column |
| BedStatus.RowCellsInjective | bbmpgov_chbms_covid_bed_status.py:108 | rows with the same cells are the same row |
| BedStatus.RowChangesEmpty | bbmpgov_chbms_covid_bed_status.py:108-109 | a row gives no change exactly when its cells agree |
| BedStatus.RowChangesSound | bbmpgov_chbms_covid_bed_status.py:108 | every change of a row names a differing cell with both values |
| BedStatus.CompareSound | bbmpgov_chbms_covid_bed_status.py:108 | every reported change is a cell where the tables differ, with the `self` and `other` values |
| BedStatus.CompareComplete | bbmpgov_chbms_covid_bed_status.py:108 | every cell where the tables differ is reported, with its `self` and `other` values |
| BedStatus.RowUnchanged | bbmpgov_chbms_covid_bed_status.py:108 | a row gives no change exactly when it is the same in both tables |
| BedStatus.CompareEmpty | bbmpgov_chbms_covid_bed_status.py:108-109 | `compare` is empty exactly when the rows compared are the same |
| BedStatus.CompareEmptyIffSame | bbmpgov_chbms_covid_bed_status.py:108-109 | same-layout tables compare empty exactly when they are equal |
| BedStatus.ChangesAgainstSound | bbmpgov_chbms_covid_bed_status.py:105-110 | every collected comparison is non-empty and is the comparison with a same-title table |
| BedStatus.ComparedOnlyWithItself | bbmpgov_chbms_covid_bed_status.py:105-110 | with distinct titles a table meets only itself and contributes nothing |
| BedStatus.NothingContributes | bbmpgov_chbms_covid_bed_status.py:103-110 | when no reference table contributes, nothing is collected |
| BedStatus.DiffWithItself | bbmpgov_chbms_covid_bed_status.py:99-110 | a snapshot with distinct titles compared with itself collects nothing |
| BedStatus.ChangesAgainstOf | bbmpgov_chbms_covid_bed_status.py:105-110 | the inner loop collects one reference table's non-empty comparisons |
| BedStatus.FindBedAvailabilityChanges | bbmpgov_chbms_covid_bed_status.py:99-110 | the nested loops collect every non-empty same-title comparison |
| XlsxScan.CheckMergedCell | find_bbmp_c19_bed_availability_xlsx.py:15-21 | true exactly when the cell lies in some merged range |
| XlsxScan.ColRangeOfIsLast | find_bbmp_c19_bed_availability_xlsx.py:23-41 | `[]` exactly when no range starts at the cell; otherwise the column span of the last range starting there |
| XlsxScan.FindMergedCellColRange | find_bbmp_c19_bed_availability_xlsx.py:23-41 | the loop over ranges computes that column range |
| XlsxScan.MergedValueHasColRange | find_bbmp_c19_bed_availability_xlsx.py:162-163 | in a loaded sheet, a filled cell inside a merged range gets a two-column span starting at its own column |
| XlsxScan.RowStartsSound | find_bbmp_c19_bed_availability_xlsx.py:47-52 | the headers found in one row are cells of that row holding the header, in column order |
| XlsxScan.StartsSound | find_bbmp_c19_bed_availability_xlsx.py:43-54 | every start is a cell within the sheet that holds the header |
| XlsxScan.StartsOrdered | find_bbmp_c19_bed_availability_xlsx.py:43-54 | the starts come in row-major order |
| XlsxScan.RowStartsComplete | find_bbmp_c19_bed_availability_xlsx.py:47-52 | every header cell of a row is found |
| XlsxScan.StartsComplete | find_bbmp_c19_bed_availability_xlsx.py:43-54 | every header cell of the sheet is found |
| XlsxScan.FindReqTablesStartXy | find_bbmp_c19_bed_availability_xlsx.py:43-54 | the nested loops compute those starts |
| XlsxScan.FindHospitalType | find_bbmp_c19_bed_availability_xlsx.py:56-66 | the loop collects the type cells two rows above each start, skipping empty ones, and fails (openpyxl's ValueError) exactly when some start is in row 1 or 2 |
| XlsxScan.HospitalTypesAligned | find_bbmp_c19_bed_availability_xlsx.py:56-66 | when every type cell is filled, the list has one type per table, in table order |
| XlsxScan.AsWrittenAgreesWhenTypesFilled | find_bbmp_c19_bed_availability_xlsx.py:177 | `hospital_types[t_idx]` is table `t`'s own type when every type cell is filled |
| XlsxScan.AsWrittenMislabelsTables | find_bbmp_c19_bed_availability_xlsx.py:177 | with one empty type cell, table 0 gets table 1's type and table 1 raises IndexError |
| XlsxScan.StreakCountsMatches | find_bbmp_c19_bed_availability_xlsx.py:78-89 | the match counter reaches the word count exactly when each word is in the cell below the previous one |
| XlsxScan.CountMatches | find_bbmp_c19_bed_availability_xlsx.py:78-87 | the word loop computes the match counter |
| XlsxScan.FirstColFromIsFirst | find_bbmp_c19_bed_availability_xlsx.py:76-91 | -1 exactly when no column of the row has the words; otherwise the first such column |
| XlsxScan.FirstColInRowsIsFirst | find_bbmp_c19_bed_availability_xlsx.py:68-96 | -1 exactly when no cell of the rows and columns has the words; otherwise the first column of the first row that has them |
| XlsxScan.FindBedTypeColIdx | find_bbmp_c19_bed_availability_xlsx.py:68-96 | the nested loops compute that column from the space-split bed type |
| XlsxScan.FindInRow | find_bbmp_c19_bed_availability_xlsx.py:76-91 | the column loop computes the first column of a row that has the words |
| XlsxScan.AvailabilityRows | find_bbmp_c19_bed_availability_xlsx.py:98-109 | raises exactly when a text cell is in the column; otherwise exactly the rows with a positive count, in order |
| XlsxScan.AvailabilityFailsOnward | find_bbmp_c19_bed_availability_xlsx.py:102-107 | once a row has raised, the later rows do not matter |
| XlsxScan.FindBedAvailability | find_bbmp_c19_bed_availability_xlsx.py:98-109 | the row loop computes those rows |
| XlsxScan.PresentCellsSound | find_bbmp_c19_bed_availability_xlsx.py:116-122 | a shown row has at most one value per display column, each a filled cell of it, and one per column when all are filled |
| XlsxScan.DisplayBedAvailability | find_bbmp_c19_bed_availability_xlsx.py:111-124 | the cell loops compute one list of filled cells per row |
| XlsxScan.ReportsStayRaised | find_bbmp_c19_bed_availability_xlsx.py:158-177 | once a table has raised, no later table is reached and what was printed stays as it was |
| XlsxScan.ReportsGrow | find_bbmp_c19_bed_availability_xlsx.py:126-130 | a table printed stays printed: later passes only add tables after it, even when one of them raises |
| XlsxScan.ReportsRaised | find_bbmp_c19_bed_availability_xlsx.py:158-177 | the passes raise exactly when some table's pass fails, and every printed table is the displayed result of an earlier pass |
| XlsxScan.HeaderColumnsPresent | find_bbmp_c19_bed_availability_xlsx.py:160-165 | in a loaded sheet every header gets a two-column search range starting at its own column |
| XlsxScan.DisplayedTableShape | find_bbmp_c19_bed_availability_xlsx.py:171-177 | a displayed table has rows of at most three values and is labelled with the type cell two rows above its own header |
| XlsxScan.ScanTable | find_bbmp_c19_bed_availability_xlsx.py:158-177 | the loop body for one table computes that table's result (corrected type lookup; see Findings) |
| XlsxScan.ShowTables | find_bbmp_c19_bed_availability_xlsx.py:158-177 | the table loop computes what the passes print, up to the first pass that raises |
| XlsxScan.ScanTables | find_bbmp_c19_bed_availability_xlsx.py:145-177 | fails before printing anything when a header is in row 1 or 2, as `find_hospital_type` does; otherwise the passes' report: the tables printed in order up to the first pass that raises, and whether one raised, each labelled with its own type cell (corrected type lookup; see Findings) |
| Bulletin.SplitWithoutSeparator | bbmpgov_download_covid_bulletin.py:102 | a string without the separator splits into itself alone |
| Bulletin.DateKeyOfDayMonthYear | bbmpgov_download_covid_bulletin.py:102-103 | `DD-MM-YYYY` becomes the key `YYYYMMDD` |
| Bulletin.SplitAppend | bbmpgov_download_covid_bulletin.py:147 | splitting `a + sep + b` gives the parts of `a` followed by the parts of `b` |
| Bulletin.FilenameField2 | bbmpgov_download_covid_bulletin.py:112 | field 2 of a saved name split on `_` is the date key |
| Bulletin.BasenameFields | bbmpgov_download_covid_bulletin.py:53 | `Covid_Bengaluru` is exactly two `_`-fields |
| Bulletin.FileDateOfSaved | bbmpgov_download_covid_bulletin.py:147 | `int(name.split('_')[2])` of a saved name is its date key's value |
| Bulletin.HyperlinkColumnIsFirst | bbmpgov_download_covid_bulletin.py:80-84 | -1 exactly when no column name contains the tag; otherwise the first that does |
| Bulletin.FindHyperlinkColumn | bbmpgov_download_covid_bulletin.py:80-84 | the loop computes that column |
| Bulletin.RowStepKeepsGood | bbmpgov_download_covid_bulletin.py:93-125 | one row keeps the scan invariant: saved keys numeric and not below the start key, and `latest_downloaded_date` is their maximum or 0 |
| Bulletin.SavedRowKeepsGood | bbmpgov_download_covid_bulletin.py:112-125 | one saved file keeps the scan invariant |
| Bulletin.RowsScanKeepsGood | bbmpgov_download_covid_bulletin.py:93-106 | the row loop keeps the invariant |
| Bulletin.TablesScanKeepsGood | bbmpgov_download_covid_bulletin.py:71-131 | the table loop keeps the invariant |
| Bulletin.DivsScanGood | bbmpgov_download_covid_bulletin.py:58-136 | the whole scan ends in a state meeting the invariant |
| Bulletin.RowsStayStopped | bbmpgov_download_covid_bulletin.py:104-106 | after a row older than the start date, no later row changes anything |
| Bulletin.TablesStayStopped | bbmpgov_download_covid_bulletin.py:130-131 | once stopped, no later table is read |
| Bulletin.DivsStayStopped | bbmpgov_download_covid_bulletin.py:133-134 | once stopped, no later `div` is read |
| Bulletin.RowsFailOnward | bbmpgov_download_covid_bulletin.py:93-110 | once a row raised, the scan of the table has failed |
| Bulletin.TablesFailOnward | bbmpgov_download_covid_bulletin.py:71-131 | once a table raised, the scan of the `div` has failed |
| Bulletin.DivsFailOnward | bbmpgov_download_covid_bulletin.py:67-134 | once a `div` raised, the scan has failed |
| Bulletin.RowsScanDone | bbmpgov_download_covid_bulletin.py:104-106 | leaving the row loop at its end, on a raise or at the `break` gives the scan of the whole table |
| Bulletin.TablesScanDone | bbmpgov_download_covid_bulletin.py:130-131 | leaving the table loop at its end, on a raise or at the `break` gives the scan of the whole `div` |
| Bulletin.DivsScanDone | bbmpgov_download_covid_bulletin.py:133-134 | leaving the `div` loop at its end, on a raise or at the `break` gives the scan of the whole page |
| Bulletin.ScanRows | bbmpgov_download_covid_bulletin.py:92-125 | the row loop computes the row scan |
| Bulletin.RowPass | bbmpgov_download_covid_bulletin.py:95-125 | the loop body computes one row's step |
| Bulletin.ScanTable | bbmpgov_download_covid_bulletin.py:73-125 | one table: `Date` column or ValueError, link column, then its rows with the tag reset |
| Bulletin.ScanTables | bbmpgov_download_covid_bulletin.py:71-131 | the table loop computes the table scan |
| Bulletin.SaveDailyStatisticsFiles | bbmpgov_download_covid_bulletin.py:58-136 | `save_daily_statistics_files` computes the whole scan from an empty state |
| Bulletin.LatestFileDateIsMax | bbmpgov_download_covid_bulletin.py:140-150 | the newest date is the largest file date, or 0 with no files; the loop fails exactly when a name has no numeric field 2 |
| Bulletin.FindLatestDlDate | bbmpgov_download_covid_bulletin.py:138-156 | the loop computes the newest date and splits its digits into year, month and day |
| Bulletin.LatestDateFailsOnward | bbmpgov_download_covid_bulletin.py:144-147 | once a name raised, the lookup has failed |
| Bulletin.SavedFilesGiveLatest | bbmpgov_download_covid_bulletin.py:123-150 | reading back the names of the files a scan saved gives the date the scan returned |
| Bulletin.GoodScanGivesLatest | bbmpgov_download_covid_bulletin.py:123-150 | in a state meeting the invariant, the saved names give back `latest_downloaded_date` |
| Bulletin.MaxIsUnique | bbmpgov_download_covid_bulletin.py:149-150 | two values that are each the maximum or 0 are equal |
| Bulletin.Names | bbmpgov_download_covid_bulletin.py:142 | the listed names are the saved files' names, each made of its key, tag and id, in order |
| Bulletin.NamesGiveDates | bbmpgov_download_covid_bulletin.py:112-147 | the name of each saved file gives back the value of its date key |
| Bulletin.LatestIsMaxOfDates | bbmpgov_download_covid_bulletin.py:140-150 | names whose dates are known give the largest of them, or 0 with none, as the newest |
| Bulletin.PositiveValue | bbmpgov_download_covid_bulletin.py:152 | a digit string without a leading zero has a positive value |
| Bulletin.DecimalStringOfValue | bbmpgov_download_covid_bulletin.py:152 | `str(int(s)) == s` for a digit string without a leading zero |
| Bulletin.BulletinDateRoundTrip | bbmpgov_download_covid_bulletin.py:102-156 | a `DD-MM-YYYY` date gives the numeric key `YYYYMMDD`, whose digits give back year, month and day |
| Bulletin.KeyOrderIsDateOrder | bbmpgov_download_covid_bulletin.py:104 | for equal-length digit keys, string `<` is numeric `<` |
| Bulletin.NotBelowZeros | bbmpgov_download_covid_bulletin.py:199 | no digit string at least as long as a run of `0`s is below it |
| Bulletin.AllKeepsEveryRow | bbmpgov_download_covid_bulletin.py:198-199 | with `--from_date all`, no bulletin row ends the scan |
| Bulletin.GivenDateStopsAtOlderRows | bbmpgov_download_covid_bulletin.py:198-209 | an eight-digit `--from_date` is the start key unchanged, and a `DD-MM-YYYY` row stops the scan exactly when its date is numerically earlier |
| Bulletin.RemainingSeconds | bbmpgov_download_covid_bulletin.py:244 | with hours, minutes and seconds in `relativedelta`'s ranges, the sleep is at least the whole days and less than one day more |

## Left out

- HTTP fetches, `urlopen` retries, BeautifulSoup parsing and `pd.read_html` are left out. Pages are given as parsed headings, tables and rows.
- Logging, `tabulate`, `print`, the Twilio SMS code and `modify_table_random` are output or test scaffolding, so they are not modelled.
- The scripts' top-level polling loops, `time.sleep`, `argparse` and the PATH environment setup are left out. In the two later bed-status scripts the loops only call the modelled functions and keep the current snapshot as the next reference. The bulletin downloader's loop keeps no snapshot: it sleeps until the same clock time next day when the newest saved date is today (lines 232-247), otherwise for the fixed retry time (line 250), and with `--from_date today` it moves the start key to the new day (lines 253-254).
- The polling loop of bbmpgov_chbms_covid_bed_status.py is left out, and with it a NameError: line 120 binds `ref_table_infos`, but line 137 calls `ref_tables_infos.clear()`, a name bound only as the parameter of the function at line 99. The loop therefore raises right after its first comparison (line 135), so that script compares only its first two snapshots.
- Opening the workbook with `openpyxl.load_workbook` is left out. A sheet is a map from (row, column) to values.
- The clock is a parameter: `datetime.today().strftime`, the 'today' and 'pending' start keys, and the `relativedelta` at line 242 between now and the same clock time one day later (line 237). Only the seconds sum at line 244 is modelled.
- Lines 146, 158, 206 and 237 of the bulletin downloader call `os.basename`, `datetime.datetime` and `datetime.timedelta`. None of these attributes exists on the `os` module and the `datetime` class imported at lines 1 and 11. The model follows the evident intent: the base name, and the year, month and day parsed from the newest date.
- `find_tables_infos` is not modelled. It only calls `find_req_table` per `div` and keeps the results that are not None.
- NaN handling (`dropna`) is not modelled. Counts are integers, and a cell `compare` reports has both values.
- LiveStatusPyvenv.FindReqTable: `sort_values` uses an unstable quicksort. The model sorts stably, so rows with equal names may be ordered differently.
- A few inner loops and loop bodies are separate methods, with their own contracts: RowPass, FindInRow, CountMatches, the ChangesAgainstOf methods, PairChangesOf, CommonChangesOf and RowDifference.
- BedStatus.FindBedAvailabilityChanges returns its list. The script returns None and its caller ignores it.
- LiveStatusPyvenv.FindBedAvailabilityChanges requires every same-title pair to be comparable. pandas would raise ValueError on misaligned labels, or TypeError when it subtracts names. ExtractedTablesAreDiffReady shows that extraction output meets the requirement when each table's hospital names are unique. Repeated hospital names are an input the requirement excludes: with reference rows `A, A` and a current row `A`, the common-row frames differ in length and `compare` at line 215 raises ValueError.
- LiveStatus.FindBedAvailabilityChanges requires same-title tables with the same hospitals under the same labels. With different labels `compare` raises ValueError. With the same labels but a different name at some label, `compare` reports the name column as a differing pair, and the subtraction at line 156 raises TypeError.
- BedStatus.FindBedAvailabilityChanges requires same-title tables with the same columns and row count. `compare` raises otherwise.
- XlsxScan.ScanTables labels each shown table with the type cell two rows above its own header (TableAt), not with `hospital_types[t_idx]`; the script's lookup is modelled separately (HospitalTypeAsWritten, Findings row 2).
- XlsxScan.FindBedTypeColIdx requires a two-element row range and column range, with the first column at least 1. HeaderColumnsPresent shows a loaded sheet always gives that.
- Cell values are text or whole numbers. Floats and dates in cells are not modelled.
- Strings.IsDecimal stands for Python's `int()` on a string. `int()` also accepts surrounding whitespace, a sign and underscores between digits; the model treats these as not numeric.
- Bulletin.SaveDailyStatisticsFiles takes the set of links that download successfully as a parameter. Writing the PDF file to disk is not modelled.
- Bulletin.SaveDailyStatisticsFiles returns None when a row raises, so the model keeps no record of the files already written before the raise. In the script they stay on disk, including the raising row's own file: line 120 writes it before `int(date_yyyymmdd_str)` at line 123 can raise.
- When no column name contains the hyperlink tag, the script prints a message. The model leaves out the message but keeps the consequence: index -1 reads the last cell's link.

## Findings

| source | as written | input that shows it | evidently intended | confidence | as-written member | corrected member |
|---|---|---|---|---|---|---|
| bbmpgov_chbms_covid_bed_live_status.py:158 | the hospital name is read with `iat[index, 0]`, a positional lookup, where `index` is the row label `compare` reports; after the row filter, labels are no longer positions | reference rows labelled 1 (`B`, count 2) and 2 (`C`, count 3); current `B` has 1: the change is reported as `C`. If instead `C`'s count changes, position 2 is out of range and IndexError is raised | the name of the row whose count changed (`loc[index]`, or positions after `reset_index`) | high (not executed) | LiveStatus.AsWrittenNamesWrongHospital | LiveStatus.PairEntriesComplete |
| find_bbmp_c19_bed_availability_xlsx.py:177 | `hospital_types` skips empty type cells but is indexed by table number | headers at rows 3 and 7 of column 2, each with the bed type `HDU` in the row below and a positive count three rows below (5 at row 6, 2 at row 10); the type cell of table 0 (row 1) is empty, and `Private` is at row 5, column 1: both tables reach line 177, table 0 is shown as `Private`, and table 1 raises IndexError | each table labelled with the type cell two rows above its own header | high (not executed) | XlsxScan.AsWrittenMislabelsTables | XlsxScan.DisplayedTableShape |
