/** `ExcelClaimsSearcher`: queries over a claims worksheet whose header row is
    found heuristically. The workbook is given as its active sheet's rows, or
    None when the file does not exist. */
module ClaimsExcel {
  import opened Wrappers
  import opened Cells
  import opened Library
  import Text
  import Seqs
  import Assoc
  import Sorted

  /** A result row: normalized header text to the raw cell under that header. */
  type Record = map<string, Cell>

  /** The arguments of `search`: field filters and the optional year constraints. */
  datatype Query = Query(
    filters: map<string, string>,
    year: Option<int>,
    startYear: Option<int>,
    endYear: Option<int>)

  /** The discovered schema: the position of the header row and the column
      each normalized header text names. */
  datatype Layout = Layout(headerRow: nat, columns: map<string, nat>)

  /** The number of cells of the row that hold a value. */
  function FilledCount(row: Row): (n: nat)
    ensures n <= |row|
  {
    if |row| == 0 then 0
    else (if IsFilled(row[0]) then 1 else 0) + FilledCount(row[1..])
  }

  /** At least three cells that are neither None nor "". */
  predicate IsHeaderRow(row: Row)
  {
    FilledCount(row) >= 3
  }

  /** Normalized header text to column index; for two headers that normalize
      alike the later column wins. */
  function HeaderMap(lib: Lib, row: Row): (m: map<string, nat>)
    ensures forall i | 0 <= i < |row| :: lib.normalizeText(HeaderText(row[i])) in m
    ensures forall k | k in m :: m[k] < |row| && lib.normalizeText(HeaderText(row[m[k]])) == k
    ensures forall k | k in m :: forall j | m[k] < j < |row| :: lib.normalizeText(HeaderText(row[j])) != k
  {
    var keys := seq(|row|, i requires 0 <= i < |row| => lib.normalizeText(HeaderText(row[i])));
    assert forall i | 0 <= i < |row| :: keys[i] == lib.normalizeText(HeaderText(row[i]));
    Assoc.EnumerateDict(keys)
  }

  /** The first header row at or after position `from`. */
  function FirstHeaderFrom(sheet: Sheet, from: nat): (r: Option<nat>)
    requires from <= |sheet|
    ensures r.Some? ==> from <= r.value < |sheet| && IsHeaderRow(sheet[r.value])
    ensures r.Some? ==> forall k | from <= k < r.value :: !IsHeaderRow(sheet[k])
    ensures r.None? ==> forall k | from <= k < |sheet| :: !IsHeaderRow(sheet[k])
    decreases |sheet| - from
  {
    if from == |sheet| then None
    else if IsHeaderRow(sheet[from]) then Some(from)
    else FirstHeaderFrom(sheet, from + 1)
  }

  /** `_load_headers`: the first row with at least three filled cells is the
      header row; rows above it are skipped, and none exists when no row qualifies. */
  function LoadHeaders(lib: Lib, sheet: Sheet): (r: Option<Layout>)
    ensures r.None? <==> forall k | 0 <= k < |sheet| :: !IsHeaderRow(sheet[k])
    ensures r.Some? ==> r.value.headerRow < |sheet| && IsHeaderRow(sheet[r.value.headerRow])
    ensures r.Some? ==> forall k | 0 <= k < r.value.headerRow :: !IsHeaderRow(sheet[k])
    ensures r.Some? ==> r.value.columns == HeaderMap(lib, sheet[r.value.headerRow])
  {
    match FirstHeaderFrom(sheet, 0)
    case None => None
    case Some(h) => Some(Layout(h, HeaderMap(lib, sheet[h])))
  }

  /** The record built for one data row: every header key, holding the row's
      cell at that column or Empty when the row is too short. */
  function BuildRecord(columns: map<string, nat>, row: Row): Record
  {
    map k | k in columns :: if columns[k] < |row| then row[columns[k]] else Empty
  }

  /** The records of all rows below the header row, in sheet order. */
  function DataRecords(layout: Layout, sheet: Sheet): (r: seq<Record>)
    requires layout.headerRow < |sheet|
    ensures |r| == |sheet| - layout.headerRow - 1
    ensures forall i | 0 <= i < |r| :: r[i] == BuildRecord(layout.columns, sheet[layout.headerRow + 1 + i])
  {
    var h := layout.headerRow;
    seq(|sheet| - h - 1, i requires 0 <= i < |sheet| - h - 1 => BuildRecord(layout.columns, sheet[h + 1 + i]))
  }

  /** The record's cell under `key`, empty when the record has no such column. */
  function Get(rec: Record, key: string): Cell
  {
    if key in rec then rec[key] else Empty
  }

  /** The date value of a row once textual dates are parsed. */
  datatype DateValue =
    | NoDate                // None: no date column, or an empty cell
    | WithYear(year: int)   // a datetime or date, or ISO text that parsed
    | WithoutYear           // a value with no `.year`, such as a number

  /** Date resolution of one record; None when the row is dropped because its
      date text is not ISO-8601. */
  function ResolveDate(lib: Lib, columns: map<string, nat>, rec: Record): (r: Option<DateValue>)
    ensures r.None? <==> "date" in columns && Get(rec, "date").Str? && lib.isoYear(Get(rec, "date").text).None?
    ensures r == Some(NoDate) <==> "date" !in columns || Get(rec, "date") == Empty
    ensures "date" in columns && Get(rec, "date").Str? && lib.isoYear(Get(rec, "date").text).Some? ==>
              r == Some(WithYear(lib.isoYear(Get(rec, "date").text).value))
    ensures "date" in columns && Get(rec, "date").Stamp? ==> r == Some(WithYear(Get(rec, "date").year))
    ensures "date" in columns && Get(rec, "date").Other? ==> r == Some(WithoutYear)
  {
    if "date" !in columns then Some(NoDate)
    else
      match Get(rec, "date")
      case Empty => Some(NoDate)
      case Str(t) => (match lib.isoYear(t) case None => None case Some(y) => Some(WithYear(y)))
      case Stamp(y, _) => Some(WithYear(y))
      case Other(_) => Some(WithoutYear)
  }

  /** The year logic of the row loop. */
  function PassesYears(v: DateValue, q: Query): (ok: bool)
    ensures v == NoDate ==> ok
    ensures q.year.Some? && v != NoDate ==> (ok <==> v == WithYear(q.year.value))
    ensures q.year.None? && v.WithYear? ==>
              (ok <==> (q.startYear.None? || q.startYear.value <= v.year)
                       && (q.endYear.None? || v.year <= q.endYear.value))
    ensures q.year.None? && v == WithoutYear ==> ok
  {
    if q.year.Some? && v != NoDate then
      v.WithYear? && v.year == q.year.value
    else if v != NoDate then
      && !(q.startYear.Some? && v.WithYear? && v.year < q.startYear.value)
      && !(q.endYear.Some? && v.WithYear? && v.year > q.endYear.value)
    else
      true
  }

  /** The shown text of the record's cell under `key`; "" when there is no such column. */
  function FieldText(rec: Record, key: string): string
  {
    if key in rec then Show(rec[key]) else ""
  }

  /** One field filter of the row loop. */
  function PassesFilter(lib: Lib, key: string, value: string, rec: Record): (ok: bool)
    ensures value == "" ==> ok
    ensures value != "" && lib.normalizeText(key) == "complaint" ==>
              (ok <==> var cell := lib.normalizeText(FieldText(rec, "complaint"));
                       var v := lib.normalizeText(value);
                       Text.Contains(cell, v) || lib.Similar(v, cell))
    ensures value != "" && lib.normalizeText(key) != "complaint" ==>
              (ok <==> var cell := lib.normalizeText(FieldText(rec, lib.normalizeText(key)));
                       var v := lib.normalizeText(value);
                       cell == v || lib.Similar(v, cell))
  {
    if value == "" then true
    else
      var k := lib.normalizeText(key);
      var cell := lib.normalizeText(FieldText(rec, k));
      var v := lib.normalizeText(value);
      if k == "complaint" then Text.Contains(cell, v) || lib.Similar(v, cell)
      else cell == v || lib.Similar(v, cell)
  }

  /** Every field filter accepts the record. */
  predicate PassesAll(lib: Lib, filters: map<string, string>, rec: Record)
  {
    forall k | k in filters :: PassesFilter(lib, k, filters[k], rec)
  }

  /** Whether the row loop appends the record. */
  predicate Keeps(lib: Lib, columns: map<string, nat>, q: Query, rec: Record)
  {
    match ResolveDate(lib, columns, rec)
    case None => false
    case Some(v) =>
      && PassesYears(v, q)
      && PassesAll(lib, q.filters, rec)
  }

  /** `r` holds as many copies of each record of `src` as `src` does when the
      row loop keeps it, and none when it does not: `results.append` runs
      once per kept row. */
  ghost predicate KeepsEveryCopy(lib: Lib, columns: map<string, nat>, q: Query, r: seq<Record>, src: seq<Record>)
  {
    forall rec | rec in src :: multiset(r)[rec] == if Keeps(lib, columns, q, rec) then multiset(src)[rec] else 0
  }

  /** The claims search: the data records that pass every filter and the year test. */
  function Search(lib: Lib, book: Option<Sheet>, q: Query): (r: seq<Record>)
    ensures book.None? ==> r == []
    ensures book.Some? && LoadHeaders(lib, book.value).None? ==> r == []
    ensures book.Some? && LoadHeaders(lib, book.value).Some? ==>
              var layout := LoadHeaders(lib, book.value).value;
              && Seqs.IsSubsequence(r, DataRecords(layout, book.value))
              && (forall rec | rec in r :: rec.Keys == layout.columns.Keys && Keeps(lib, layout.columns, q, rec))
              && KeepsEveryCopy(lib, layout.columns, q, r, DataRecords(layout, book.value))
  {
    match book
    case None => []
    case Some(sheet) =>
      match LoadHeaders(lib, sheet)
      case None => []
      case Some(layout) =>
        SearchCounts(lib, layout, sheet, q);
        Seqs.Filter(rec => Keeps(lib, layout.columns, q, rec), DataRecords(layout, sheet))
  }

  /** The row loop appends every kept row, so each kept record appears as
      often as in the data records. */
  lemma SearchCounts(lib: Lib, layout: Layout, sheet: Sheet, q: Query)
    requires layout.headerRow < |sheet|
    ensures var src := DataRecords(layout, sheet);
            KeepsEveryCopy(lib, layout.columns, q, Seqs.Filter(rec => Keeps(lib, layout.columns, q, rec), src), src)
  {
    var p := rec => Keeps(lib, layout.columns, q, rec);
    Seqs.FilterCounts(p, DataRecords(layout, sheet));
  }

  /** `sorted({t for t in texts if t})`: the distinct non-empty texts, ascending. */
  function SortedDistinct(texts: seq<string>): (r: seq<string>)
    ensures Sorted.StrictlySorted(r)
    ensures forall x | x in r :: x != "" && x in texts
    ensures forall x | x in texts && x != "" :: x in r
  {
    if |texts| == 0 then []
    else
      var init := texts[..|texts| - 1];
      var last := texts[|texts| - 1];
      assert texts == init + [last];
      var acc := SortedDistinct(init);
      if last == "" then acc else Sorted.Insert(acc, last)
  }

  /** `texts` holds, for each data row in order, the stripped text of the
      cell under header `key` ("" for a short row or an empty cell). */
  predicate IsColumnOf(sheet: Sheet, layout: Layout, key: string, texts: seq<string>)
  {
    && layout.headerRow < |sheet|
    && key in layout.columns
    && |texts| == |sheet| - layout.headerRow - 1
    && forall i | 0 <= i < |texts| :: texts[i] == CellText(sheet[layout.headerRow + 1 + i], layout.columns[key])
  }

  /** The texts of the column `key` names, read from the rows below the header row. */
  function ColumnTexts(sheet: Sheet, layout: Layout, key: string): (r: seq<string>)
    requires layout.headerRow < |sheet| && key in layout.columns
    ensures IsColumnOf(sheet, layout, key, r)
  {
    var h := layout.headerRow;
    seq(|sheet| - h - 1, i requires 0 <= i < |sheet| - h - 1 => CellText(sheet[h + 1 + i], layout.columns[key]))
  }

  /** The texts of the column `field` names, one per data row; None when the
      workbook is missing, has no header row, or has no such column. */
  function FieldColumn(lib: Lib, book: Option<Sheet>, field: string): (r: Option<seq<string>>)
    ensures r.Some? ==>
              && book.Some? && LoadHeaders(lib, book.value).Some?
              && IsColumnOf(book.value, LoadHeaders(lib, book.value).value, lib.normalizeText(field), r.value)
    ensures r.None? <==>
              || book.None?
              || LoadHeaders(lib, book.value).None?
              || lib.normalizeText(field) !in LoadHeaders(lib, book.value).value.columns
  {
    match book
    case None => None
    case Some(sheet) =>
      match LoadHeaders(lib, sheet)
      case None => None
      case Some(layout) =>
        var key := lib.normalizeText(field);
        if key !in layout.columns then None
        else Some(ColumnTexts(sheet, layout, key))
  }

  /** `unique_values(field)`: ascending, duplicate-free, and exactly the
      non-empty stripped texts of the column; [] when there is no such column. */
  function UniqueValues(lib: Lib, book: Option<Sheet>, field: string): (r: seq<string>)
    ensures Sorted.StrictlySorted(r)
    ensures FieldColumn(lib, book, field).None? ==> r == []
    ensures FieldColumn(lib, book, field).Some? ==>
              && (forall x | x in r :: x != "" && x in FieldColumn(lib, book, field).value)
              && (forall x | x in FieldColumn(lib, book, field).value && x != "" :: x in r)
  {
    match FieldColumn(lib, book, field)
    case None => []
    case Some(texts) => SortedDistinct(texts)
  }

  /** `unique_values` row by row: a text is returned exactly when it is the
      non-empty stripped text, under the field's column, of some row below
      the header row. */
  lemma UniqueValuesMembership(lib: Lib, sheet: Sheet, field: string, x: string)
    requires LoadHeaders(lib, sheet).Some?
    requires lib.normalizeText(field) in LoadHeaders(lib, sheet).value.columns
    ensures var layout := LoadHeaders(lib, sheet).value;
            var col := layout.columns[lib.normalizeText(field)];
            x in UniqueValues(lib, Some(sheet), field) <==>
              x != "" && exists i | layout.headerRow < i < |sheet| :: CellText(sheet[i], col) == x
  {
    var layout := LoadHeaders(lib, sheet).value;
    var texts := FieldColumn(lib, Some(sheet), field).value;
    ColumnMembership(sheet, layout, lib.normalizeText(field), texts, x);
  }

  /** A text is in a column exactly when some data row holds it there. */
  lemma ColumnMembership(sheet: Sheet, layout: Layout, key: string, texts: seq<string>, x: string)
    requires IsColumnOf(sheet, layout, key, texts)
    ensures x in texts <==>
              exists i | layout.headerRow < i < |sheet| :: CellText(sheet[i], layout.columns[key]) == x
  {
    var h := layout.headerRow;
    var col := layout.columns[key];
    if x in texts {
      var j :| 0 <= j < |texts| && texts[j] == x;
      ColumnAt(sheet, layout, key, texts, h + 1 + j);
    }
    if exists i | h < i < |sheet| :: CellText(sheet[i], col) == x {
      var i :| h < i < |sheet| && CellText(sheet[i], col) == x;
      ColumnAt(sheet, layout, key, texts, i);
    }
  }

  /** The column holds row `i`'s text at position `i - headerRow - 1`. */
  lemma ColumnAt(sheet: Sheet, layout: Layout, key: string, texts: seq<string>, i: int)
    requires IsColumnOf(sheet, layout, key, texts) && layout.headerRow < i < |sheet|
    ensures texts[i - layout.headerRow - 1] == CellText(sheet[i], layout.columns[key])
  {
    var j := i - layout.headerRow - 1;
    assert layout.headerRow + 1 + j == i;
  }

  /** `sorted(values)` is the only strictly ascending list of the column's
      distinct non-empty texts. */
  lemma UniqueValuesIsSortedSet(lib: Lib, book: Option<Sheet>, field: string, xs: seq<string>)
    requires FieldColumn(lib, book, field).Some?
    requires Sorted.StrictlySorted(xs)
    requires forall x :: x in xs <==> x != "" && x in FieldColumn(lib, book, field).value
    ensures UniqueValues(lib, book, field) == xs
  {
    Sorted.StrictlySortedUnique(UniqueValues(lib, book, field), xs);
  }

  /** The data records are the records built from the rows below the header row. */
  lemma DataRecordsMembership(layout: Layout, sheet: Sheet, rec: Record)
    requires layout.headerRow < |sheet|
    ensures rec in DataRecords(layout, sheet) <==>
              exists i | layout.headerRow < i < |sheet| :: rec == BuildRecord(layout.columns, sheet[i])
  {
    var h := layout.headerRow;
    var d := DataRecords(layout, sheet);
    if rec in d {
      var j :| 0 <= j < |d| && d[j] == rec;
      assert rec == BuildRecord(layout.columns, sheet[h + 1 + j]);
    }
    if exists i | h < i < |sheet| :: rec == BuildRecord(layout.columns, sheet[i]) {
      var i :| h < i < |sheet| && rec == BuildRecord(layout.columns, sheet[i]);
      assert d[i - h - 1] == rec;
    }
  }

  /** The result of `search` holds exactly the records of data rows (rows below
      the header row) that the row loop keeps. */
  lemma SearchMembership(lib: Lib, sheet: Sheet, q: Query, rec: Record)
    requires LoadHeaders(lib, sheet).Some?
    ensures var layout := LoadHeaders(lib, sheet).value;
            rec in Search(lib, Some(sheet), q) <==>
              && Keeps(lib, layout.columns, q, rec)
              && exists i | layout.headerRow < i < |sheet| :: rec == BuildRecord(layout.columns, sheet[i])
  {
    DataRecordsMembership(LoadHeaders(lib, sheet).value, sheet, rec);
  }

  /** A record whose date is text that does not parse is never kept. */
  lemma UnparsableRecordDropped(lib: Lib, columns: map<string, nat>, q: Query, rec: Record)
    requires "date" in columns && Get(rec, "date").Str? && lib.isoYear(Get(rec, "date").text).None?
    ensures !Keeps(lib, columns, q, rec)
  {
  }

  /** A data row whose date cell holds text that is not ISO-8601 is dropped
      whatever the filters and years are. */
  lemma UnparsableDateExcluded(lib: Lib, sheet: Sheet, q: Query, i: int)
    requires LoadHeaders(lib, sheet).Some?
    requires var layout := LoadHeaders(lib, sheet).value;
             && layout.headerRow < i < |sheet|
             && "date" in layout.columns
             && var c := layout.columns["date"];
                c < |sheet[i]| && sheet[i][c].Str? && lib.isoYear(sheet[i][c].text).None?
    ensures BuildRecord(LoadHeaders(lib, sheet).value.columns, sheet[i]) !in Search(lib, Some(sheet), q)
  {
    var layout := LoadHeaders(lib, sheet).value;
    var rec := BuildRecord(layout.columns, sheet[i]);
    assert Get(rec, "date") == sheet[i][layout.columns["date"]];
    UnparsableRecordDropped(lib, layout.columns, q, rec);
  }

  /** Two queries that keep the same records under every layout give the
      same search result. */
  lemma SearchCongruent(lib: Lib, book: Option<Sheet>, q1: Query, q2: Query)
    requires forall columns, rec :: Keeps(lib, columns, q1, rec) == Keeps(lib, columns, q2, rec)
    ensures Search(lib, book, q1) == Search(lib, book, q2)
  {
    if book.Some? && LoadHeaders(lib, book.value).Some? {
      var layout := LoadHeaders(lib, book.value).value;
      Seqs.FilterCongruent(rec => Keeps(lib, layout.columns, q1, rec),
                           rec => Keeps(lib, layout.columns, q2, rec),
                           DataRecords(layout, book.value));
    }
  }

  /** A query that keeps no more records than another gives a subsequence of
      its result. */
  lemma SearchStronger(lib: Lib, book: Option<Sheet>, q1: Query, q2: Query)
    requires forall columns, rec :: Keeps(lib, columns, q1, rec) ==> Keeps(lib, columns, q2, rec)
    ensures Seqs.IsSubsequence(Search(lib, book, q1), Search(lib, book, q2))
  {
    if book.Some? && LoadHeaders(lib, book.value).Some? {
      var layout := LoadHeaders(lib, book.value).value;
      Seqs.FilterStronger(rec => Keeps(lib, layout.columns, q1, rec),
                          rec => Keeps(lib, layout.columns, q2, rec),
                          DataRecords(layout, book.value));
    } else {
      assert Search(lib, book, q1) == [];
    }
  }

  /** When `year` is given, `start_year` and `end_year` have no effect. */
  lemma YearOverridesRange(lib: Lib, book: Option<Sheet>, q: Query, startYear: Option<int>, endYear: Option<int>)
    requires q.year.Some?
    ensures Search(lib, book, q) == Search(lib, book, q.(startYear := startYear, endYear := endYear))
  {
    var q' := q.(startYear := startYear, endYear := endYear);
    forall columns, rec
      ensures Keeps(lib, columns, q, rec) == Keeps(lib, columns, q', rec)
    {
      var v := ResolveDate(lib, columns, rec);
      if v.Some? {
        assert PassesYears(v.value, q) == PassesYears(v.value, q');
      }
    }
    SearchCongruent(lib, book, q, q');
  }

  /** Without a `date` column the year constraints never exclude a row. */
  lemma NoDateColumnIgnoresYears(lib: Lib, book: Option<Sheet>, q: Query,
                                 year: Option<int>, startYear: Option<int>, endYear: Option<int>)
    requires book.Some? && LoadHeaders(lib, book.value).Some?
    requires "date" !in LoadHeaders(lib, book.value).value.columns
    ensures Search(lib, book, q) == Search(lib, book, q.(year := year, startYear := startYear, endYear := endYear))
  {
    var q' := q.(year := year, startYear := startYear, endYear := endYear);
    var sheet := book.value;
    var layout := LoadHeaders(lib, sheet).value;
    var p1 := rec => Keeps(lib, layout.columns, q, rec);
    var p2 := rec => Keeps(lib, layout.columns, q', rec);
    forall rec
      ensures p1(rec) == p2(rec)
    {
      NoDateKeeps(lib, layout.columns, q, rec);
      NoDateKeeps(lib, layout.columns, q', rec);
    }
    SearchIsFilter(lib, sheet, q, layout, p1);
    SearchIsFilter(lib, sheet, q', layout, p2);
    Seqs.FilterCongruent(p1, p2, DataRecords(layout, sheet));
  }

  /** Without a `date` column a record is kept exactly when every filter accepts it. */
  lemma NoDateKeeps(lib: Lib, columns: map<string, nat>, q: Query, rec: Record)
    requires "date" !in columns
    ensures Keeps(lib, columns, q, rec) == PassesAll(lib, q.filters, rec)
  {
    assert ResolveDate(lib, columns, rec) == Some(NoDate);
  }

  /** The filter test of the row loop, with one key's value blanked, agrees
      with the test without that key. */
  lemma BlankFilterSkipped(lib: Lib, q: Query, key: string, rec: Record)
    ensures PassesAll(lib, q.filters[key := ""], rec) == PassesAll(lib, q.filters - {key}, rec)
  {
    var f1, f2 := q.filters[key := ""], q.filters - {key};
    if PassesAll(lib, f2, rec) {
      forall k | k in f1
        ensures PassesFilter(lib, k, f1[k], rec)
      {
        if k != key {
          assert k in f2 && f1[k] == f2[k];
        }
      }
    }
    if PassesAll(lib, f1, rec) {
      forall k | k in f2
        ensures PassesFilter(lib, k, f2[k], rec)
      {
        assert k in f1 && f1[k] == f2[k];
      }
    }
  }

  /** A filter whose value is the empty string is skipped: it selects the same
      rows as leaving the key out. */
  lemma EmptyFilterValueIgnored(lib: Lib, book: Option<Sheet>, q: Query, key: string)
    ensures Search(lib, book, q.(filters := q.filters[key := ""]))
         == Search(lib, book, q.(filters := q.filters - {key}))
  {
    var q1 := q.(filters := q.filters[key := ""]);
    var q2 := q.(filters := q.filters - {key});
    forall columns, rec
      ensures Keeps(lib, columns, q1, rec) == Keeps(lib, columns, q2, rec)
    {
      BlankFilterSkipped(lib, q, key, rec);
    }
    SearchCongruent(lib, book, q1, q2);
  }

  /** Filters are AND-ed: adding filters on new keys keeps a subsequence of
      the rows kept before. */
  lemma MoreFiltersNarrow(lib: Lib, book: Option<Sheet>, q: Query, extra: map<string, string>)
    requires q.filters.Keys !! extra.Keys
    ensures Seqs.IsSubsequence(Search(lib, book, q.(filters := q.filters + extra)), Search(lib, book, q))
  {
    var q' := q.(filters := q.filters + extra);
    forall columns, rec | Keeps(lib, columns, q', rec)
      ensures Keeps(lib, columns, q, rec)
    {
      forall k | k in q.filters
        ensures PassesFilter(lib, k, q.filters[k], rec)
      {
        assert k in q'.filters && q'.filters[k] == q.filters[k];
      }
    }
    SearchStronger(lib, book, q', q);
  }

  /** No alias translation happens here: a non-empty filter on a key that names
      no discovered header compares against "" and so rejects every row. */
  lemma FilterOnAbsentColumnMatchesNothing(lib: Lib, book: Option<Sheet>, q: Query, key: string)
    requires lib.Valid() && lib.normalizeText("") == ""
    requires key in q.filters && q.filters[key] != "" && lib.normalizeText(q.filters[key]) != ""
    requires book.Some? && LoadHeaders(lib, book.value).Some?
    requires lib.normalizeText(key) !in LoadHeaders(lib, book.value).value.columns
    ensures Search(lib, book, q) == []
  {
    var layout := LoadHeaders(lib, book.value).value;
    var r := Search(lib, book, q);
    if r != [] {
      var rec := r[0];
      assert rec in r;
      var v := lib.normalizeText(q.filters[key]);
      assert FieldText(rec, lib.normalizeText(key)) == "";
      assert FieldText(rec, "complaint") == "" || lib.normalizeText(key) != "complaint";
      SimilarToEmpty(lib, v, "");
      if Text.Contains("", v) {
        Text.ContainsShorter("", v);
      }
    }
  }

  /** The workbook of tests/test_claims_excel.py: a header row and two data rows. */
  const ExampleHeader: Row := [Str("complaint"), Str("customer"), Str("subject"), Str("part_code"), Str("date")]
  const ExampleAcme: Row := [Str("noise"), Str("ACME"), Str("engine"), Str("X1"), Stamp(2023, "2023-01-01 00:00:00")]
  const ExampleBeta: Row := [Str("crack"), Str("BETA"), Str("body"), Str("X2"), Stamp(2022, "2022-05-01 00:00:00")]
  const ExampleSheet: Sheet := [ExampleHeader, ExampleAcme, ExampleBeta]

  /** The example's first row is its header row. */
  lemma ExampleHeaderRow(lib: Lib)
    ensures LoadHeaders(lib, ExampleSheet) == Some(Layout(0, HeaderMap(lib, ExampleHeader)))
  {
    var row := ExampleHeader;
    assert FilledCount(row[3..]) == 2;
    assert IsHeaderRow(row);
  }

  /** A header whose normalized text no other column shares names its own column. */
  lemma HeaderColumnUnique(lib: Lib, row: Row, i: nat, key: string)
    requires i < |row| && lib.normalizeText(HeaderText(row[i])) == key
    requires forall j | 0 <= j < |row| && j != i :: lib.normalizeText(HeaderText(row[j])) != key
    ensures key in HeaderMap(lib, row) && HeaderMap(lib, row)[key] == i
  {
  }

  /** In the example, "customer" names column 1 and "date" column 4. */
  lemma ExampleColumns(lib: Lib, row: Row)
    requires |row| == 5
    requires row[0] == Str("complaint") && row[1] == Str("customer") && row[2] == Str("subject")
    requires row[3] == Str("part_code") && row[4] == Str("date")
    requires lib.normalizeText("complaint") == "complaint" && lib.normalizeText("customer") == "customer"
    requires lib.normalizeText("subject") == "subject" && lib.normalizeText("part_code") == "part_code"
    requires lib.normalizeText("date") == "date"
    ensures var m := HeaderMap(lib, row);
            "customer" in m && m["customer"] == 1 && "date" in m && m["date"] == 4
  {
    forall j | 0 <= j < |row|
      ensures row[j].Str? && lib.normalizeText(row[j].text) == row[j].text
      ensures j == 1 || |row[j].text| != 8
      ensures j == 4 || |row[j].text| != 4
    {
      if j == 0 {
        assert |row[j].text| == 9;
      } else if j == 2 {
        assert |row[j].text| == 7;
      } else if j == 3 {
        assert |row[j].text| == 9;
      }
    }
    TextColumnUnique(lib, row, 1, "customer");
    TextColumnUnique(lib, row, 4, "date");
  }

  /** A text header that normalizes to itself and differs in length from every
      other header, which also normalize to themselves, names its own column. */
  lemma TextColumnUnique(lib: Lib, row: Row, i: nat, key: string)
    requires i < |row| && row[i] == Str(key) && lib.normalizeText(key) == key
    requires forall j | 0 <= j < |row| && j != i ::
               row[j].Str? && lib.normalizeText(row[j].text) == row[j].text && |row[j].text| != |key|
    ensures key in HeaderMap(lib, row) && HeaderMap(lib, row)[key] == i
  {
    HeaderColumnUnique(lib, row, i, key);
  }

  /** The example's data records are its two data rows, in order. */
  lemma ExampleData(layout: Layout)
    requires layout.headerRow == 0
    ensures DataRecords(layout, ExampleSheet)
            == [BuildRecord(layout.columns, ExampleAcme), BuildRecord(layout.columns, ExampleBeta)]
  {
  }

  /** Which example rows the test's first query keeps, for any column map
      that places "customer" at 1 and "date" at 4: the ACME row passes, and
      the BETA row fails the year test whatever its customer. */
  lemma ExampleVerdicts2023(lib: Lib, m: map<string, nat>)
    requires "customer" in m && m["customer"] == 1 && "date" in m && m["date"] == 4
    requires lib.normalizeText("customer") == "customer"
    ensures var q1 := Query(map["customer" := "ACME"], Some(2023), None, None);
            Keeps(lib, m, q1, BuildRecord(m, ExampleAcme)) && !Keeps(lib, m, q1, BuildRecord(m, ExampleBeta))
  {
    var a := BuildRecord(m, ExampleAcme);
    var b := BuildRecord(m, ExampleBeta);
    assert a["customer"] == Str("ACME") && a["date"] == Stamp(2023, "2023-01-01 00:00:00");
    assert b["date"] == Stamp(2022, "2022-05-01 00:00:00");
    assert FieldText(a, "customer") == "ACME";
    assert PassesFilter(lib, "customer", "ACME", a);
    assert ResolveDate(lib, m, a) == Some(WithYear(2023));
    assert ResolveDate(lib, m, b) == Some(WithYear(2022));
  }

  /** Which example rows the test's second query keeps: neither. The ACME row
      fails the year test; the BETA row fails the customer filter, given that
      "acme" and "beta" share fewer than four matching characters. */
  lemma ExampleVerdicts2022(lib: Lib, m: map<string, nat>)
    requires "customer" in m && m["customer"] == 1 && "date" in m && m["date"] == 4
    requires lib.normalizeText("customer") == "customer"
    requires lib.normalizeText("ACME") == "acme" && lib.normalizeText("BETA") == "beta"
    requires lib.matchCount("acme", "beta") < 4
    ensures var q2 := Query(map["customer" := "ACME"], Some(2022), None, None);
            !Keeps(lib, m, q2, BuildRecord(m, ExampleAcme)) && !Keeps(lib, m, q2, BuildRecord(m, ExampleBeta))
  {
    var a := BuildRecord(m, ExampleAcme);
    var b := BuildRecord(m, ExampleBeta);
    var q2 := Query(map["customer" := "ACME"], Some(2022), None, None);
    assert a["date"] == Stamp(2023, "2023-01-01 00:00:00");
    assert b["customer"] == Str("BETA") && b["date"] == Stamp(2022, "2022-05-01 00:00:00");
    assert FieldText(b, "customer") == "BETA";
    assert !lib.Similar("acme", "beta");
    assert !PassesFilter(lib, "customer", "ACME", b);
    assert "customer" in q2.filters;
    assert ResolveDate(lib, m, a) == Some(WithYear(2023));
  }

  /** `Search` over a workbook whose data records are exactly `a` and `b`
      keeps each of them exactly when the row loop does. */
  lemma SearchTwoRecords(lib: Lib, sheet: Sheet, q: Query, layout: Layout, a: Record, b: Record)
    requires LoadHeaders(lib, sheet) == Some(layout)
    requires layout.headerRow < |sheet| && DataRecords(layout, sheet) == [a, b]
    ensures Search(lib, Some(sheet), q)
            == (if Keeps(lib, layout.columns, q, a) then [a] else [])
             + (if Keeps(lib, layout.columns, q, b) then [b] else [])
  {
    var p := rec => Keeps(lib, layout.columns, q, rec);
    SearchIsFilter(lib, sheet, q, layout, p);
    Seqs.FilterPair(p, a, b);
  }

  /** Over a workbook with a header row, `Search` selects from the data
      records with the row loop's verdict. */
  lemma SearchIsFilter(lib: Lib, sheet: Sheet, q: Query, layout: Layout, p: Record -> bool)
    requires LoadHeaders(lib, sheet) == Some(layout)
    requires forall rec :: p(rec) == Keeps(lib, layout.columns, q, rec)
    ensures Search(lib, Some(sheet), q) == Seqs.Filter(p, DataRecords(layout, sheet))
  {
    Seqs.FilterCongruent(rec => Keeps(lib, layout.columns, q, rec), p, DataRecords(layout, sheet));
  }

  /** The schema and data records of the example workbook. */
  lemma ExampleLayout(lib: Lib, sheet: Sheet)
    requires sheet == ExampleSheet
    requires lib.normalizeText("complaint") == "complaint" && lib.normalizeText("customer") == "customer"
    requires lib.normalizeText("subject") == "subject" && lib.normalizeText("part_code") == "part_code"
    requires lib.normalizeText("date") == "date"
    ensures var m := HeaderMap(lib, ExampleHeader);
            && LoadHeaders(lib, sheet) == Some(Layout(0, m))
            && "customer" in m && m["customer"] == 1 && "date" in m && m["date"] == 4
            && DataRecords(Layout(0, m), sheet) == [BuildRecord(m, ExampleAcme), BuildRecord(m, ExampleBeta)]
  {
    ExampleHeaderRow(lib);
    ExampleColumns(lib, sheet[0]);
    ExampleData(Layout(0, HeaderMap(lib, ExampleHeader)));
  }

  /** The first query of tests/test_claims_excel.py, for any `normalize_text`
      that leaves the lower-case header words alone: year 2023 with customer
      ACME finds exactly the ACME row. */
  lemma ExampleSearchFinds(lib: Lib, sheet: Sheet)
    requires sheet == ExampleSheet
    requires lib.normalizeText("complaint") == "complaint" && lib.normalizeText("customer") == "customer"
    requires lib.normalizeText("subject") == "subject" && lib.normalizeText("part_code") == "part_code"
    requires lib.normalizeText("date") == "date"
    ensures Search(lib, Some(sheet), Query(map["customer" := "ACME"], Some(2023), None, None))
            == [BuildRecord(HeaderMap(lib, ExampleHeader), ExampleAcme)]
  {
    ExampleLayout(lib, sheet);
    var m := HeaderMap(lib, ExampleHeader);
    ExampleVerdicts2023(lib, m);
    var q := Query(map["customer" := "ACME"], Some(2023), None, None);
    SearchTwoRecords(lib, sheet, q, Layout(0, m), BuildRecord(m, ExampleAcme), BuildRecord(m, ExampleBeta));
  }

  /** The second query of tests/test_claims_excel.py: year 2022 with customer
      ACME finds nothing, given only that "acme" and "beta" share fewer than
      four matching characters. */
  lemma ExampleSearchFindsNothing(lib: Lib, sheet: Sheet)
    requires sheet == ExampleSheet
    requires lib.normalizeText("complaint") == "complaint" && lib.normalizeText("customer") == "customer"
    requires lib.normalizeText("subject") == "subject" && lib.normalizeText("part_code") == "part_code"
    requires lib.normalizeText("date") == "date"
    requires lib.normalizeText("ACME") == "acme" && lib.normalizeText("BETA") == "beta"
    requires lib.matchCount("acme", "beta") < 4
    ensures Search(lib, Some(sheet), Query(map["customer" := "ACME"], Some(2022), None, None)) == []
  {
    ExampleLayout(lib, sheet);
    var m := HeaderMap(lib, ExampleHeader);
    ExampleVerdicts2022(lib, m);
    var q := Query(map["customer" := "ACME"], Some(2022), None, None);
    SearchTwoRecords(lib, sheet, q, Layout(0, m), BuildRecord(m, ExampleAcme), BuildRecord(m, ExampleBeta));
  }
}
