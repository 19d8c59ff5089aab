# Plasma QR complaint retrieval, modelled in Dafny

This project models the complaint-retrieval core of Plasma QR:

- **`ComplaintStore`** is a JSON-file store of complaint records. It has a
  case-insensitive keyword search over the fields `complaint`, `customer`,
  `subject` and `part_code`.
- **`ExcelClaimsSearcher`** queries a claims worksheet:
  - it finds the header row heuristically: the first row with at least three
    filled cells;
  - it builds one record per data row, keyed by normalized header text;
  - it drops rows whose textual date is not ISO-8601;
  - it applies the `year`, `start_year` and `end_year` constraints, and the
    per-field filters, which are exact or substring matches with a difflib
    fallback (ratio >= 0.8);
  - its `unique_values` lists the sorted distinct texts of one column.
- **`EightDScanner`** extracts five key fields from 8D report workbooks. It
  finds each column through a list of alias headers and counts the rows that
  `scan` inserts.
- **The `complaints` and `options` HTTP handlers** are modelled in their pure
  part:
  - which query parameters become Excel filters;
  - the `ALIAS_TO_HEADER` renaming with stripped values, where a later
    parameter wins on a collision;
  - when each of the two searches runs.

Workbooks are modelled as their active sheet's rows of `Cells.Cell`. A missing
file is `None`, and the store's file is `Missing`, `Unparsable` or
`Stored(items)`. The repository's `normalize_text`, difflib's matching-block
count and `datetime.fromisoformat` are function-valued fields of
`Library.Lib`. Every property is therefore proved for any implementation of
them that meets `Lib.Valid()` and the `normalize_text` facts the property's
own `requires` name. `Lib.Valid()` states difflib's bound: the matched
characters are drawn from both strings. The `normalize_text` facts are
`normalize_text("") == ""`, the normalized form of particular words in the
examples, and `Api.AliasesDistinct`: aliases of different headers normalize
apart. One example, `ClaimsExcel.ExampleSearchFindsNothing` (with
`ClaimsExcel.ExampleVerdicts2022`), also assumes a fact about difflib: it
matches fewer than four characters of "acme" and "beta". Python's `dict`
construction is
`Assoc`: a later pair with the same key overwrites an earlier one.
`sorted(set)` is `Sorted`, and `str.strip`, `lower`, `replace(" ", "")` and
`in` are `Text`.

Modules: `Wrappers`, `Seqs`, `Assoc`, `Text`, `Sorted`, `Library`, `Cells`,
`ComplaintStore`, `ClaimsExcel`, `EightDScanner` and `Api`, one file each.

## Model

| member | source | states |
|---|---|---|
| `Text.Strip` | ComplaintSearch/claims_excel.py:179 | `str.strip()`: the result has no whitespace (Python's `isspace` set) at either end, is no longer than the input, and is empty exactly when the input is all whitespace |
| `Text.StripIsBlock` | ComplaintSearch/claims_excel.py:179 | what `str.strip()` keeps: the result is a block `s[i:j]` of the input with only whitespace before `i` and after `j`; with the trimmed ends from `Text.Strip` this is the block between the first and last non-whitespace characters |
| `Text.StripIdempotent` | EightDScanner/__init__.py:44 | stripping twice is stripping once |
| `Text.ContainsIsWindow` | ComplaintSearch/__init__.py:46 | the substring test `needle in hay` holds exactly when some window `hay[i:i+len(needle)]` equals the needle |
| `Library.SimilarLengths` | ComplaintSearch/claims_excel.py:126-132 | a ratio of at least 0.8 is only possible between strings whose lengths are within a factor 3/2 |
| `Library.SimilarToEmpty` | ComplaintSearch/claims_excel.py:126-127 | the empty string reaches ratio 0.8 against the empty string and against nothing else |
| `Assoc.EnumerateDict` | ComplaintSearch/claims_excel.py:45-47 | `{h: idx for idx, h in enumerate(...)}`: every header is a key, and each key maps to the LAST column carrying it |
| `Assoc.DictOfLast` | api/__init__.py:39-51 | a dict built from pairs holds, for each key, the value of the last pair with that key |
| `Sorted.StrictlySortedUnique` | ComplaintSearch/claims_excel.py:184 | two strictly ascending lists with the same elements are equal, so `sorted(set)` is determined by the set |
| `ComplaintStore.Open` | ComplaintSearch/__init__.py:13-17 | opening creates an empty list only when the file is missing; parsable or unparsable content is left as it is |
| `ComplaintStore.OpenIdempotent` | ComplaintSearch/__init__.py:13-17 | opening an opened store changes nothing |
| `ComplaintStore.Add` | ComplaintSearch/__init__.py:19-31 | the record is appended after the stored list; a missing or unparsable file becomes a one-record list |
| `ComplaintStore.Search` | ComplaintSearch/__init__.py:33-50 | nothing for a missing or unparsable file; otherwise a subsequence of the stored records (stored order kept) holding every copy of each matching record and no other record |
| `ComplaintStore.SearchAfterAdd` | ComplaintSearch/__init__.py:19-50 | after an add, the search gives the old results followed by the new record exactly when it matches |
| `ComplaintStore.AddThenSearch` | ComplaintSearch/__init__.py:13-50 | round trip: a record added to a fresh store is found by exactly the keywords it matches |
| `ComplaintStore.EmptyKeywordMatchesAll` | ComplaintSearch/__init__.py:42-50 | the empty keyword returns every stored record |
| `ComplaintStore.KeywordAbsentNoMatch` | ComplaintSearch/__init__.py:42-48 | a keyword longer than each field, or whose first letter a field lacks, matches no field |
| `ComplaintStore.ExampleSearchFinds` | tests/test_complaint_search.py:10-23 | the test's record is found by "noise" |
| `ComplaintStore.ExampleSearchFindsNothing` | tests/test_complaint_search.py:24-25 | the test's record is not found by "missing" |
| `ClaimsExcel.HeaderMap` | ComplaintSearch/claims_excel.py:44-47 | every normalized header of the row is a key mapping to a column carrying it, and no later column carries it |
| `ClaimsExcel.FirstHeaderFrom` | ComplaintSearch/claims_excel.py:41-43 | the first row at or after a position with at least three filled cells, or none |
| `ClaimsExcel.LoadHeaders` | ComplaintSearch/claims_excel.py:37-49 | no header exactly when no row has three filled cells; otherwise the first such row, with no header row above it, and its header map |
| `ClaimsExcel.DataRecords` | ComplaintSearch/claims_excel.py:91-95 | one record per row below the header row, in order, holding for every header the row's cell or None when the row is short |
| `ClaimsExcel.ResolveDate` | ComplaintSearch/claims_excel.py:96-104 | the row is dropped exactly when there is a date column and its cell is text that `fromisoformat` rejects; there is no date exactly when there is no date column or the cell is None; ISO text gives its parsed year, a datetime its `.year`, any other value a date without a year |
| `ClaimsExcel.PassesYears` | ComplaintSearch/claims_excel.py:106-114 | no date always passes; with `year` the date's year must equal it (a value with no year fails); otherwise each given bound is inclusive and only applies to a year |
| `ClaimsExcel.PassesFilter` | ComplaintSearch/claims_excel.py:115-134 | an empty value passes; the `complaint` key passes on a substring or a similar cell; other keys pass on an equal or a similar cell |
| `ClaimsExcel.Search` | ComplaintSearch/claims_excel.py:78-139 | nothing without a workbook or header row; otherwise a subsequence of the data records holding every copy of each record the date, year and filter tests keep and no other record |
| `ClaimsExcel.DataRecordsMembership` | ComplaintSearch/claims_excel.py:84-95 | a record is a data record exactly when it is built from a row strictly below the header row |
| `ClaimsExcel.SearchMembership` | ComplaintSearch/claims_excel.py:89-139 | a record is returned exactly when it comes from a row below the header row and passes the row loop |
| `ClaimsExcel.UnparsableRecordDropped` | ComplaintSearch/claims_excel.py:96-102 | a record with unparsable date text is never kept |
| `ClaimsExcel.UnparsableDateExcluded` | ComplaintSearch/claims_excel.py:96-102 | a data row with unparsable date text is missing from every search result, whatever the filters and years |
| `ClaimsExcel.SearchStronger` | ComplaintSearch/claims_excel.py:89-136 | a query that keeps no more records than another returns a subsequence of the other's result |
| `ClaimsExcel.YearOverridesRange` | ComplaintSearch/claims_excel.py:106-114 | with `year` given, `start_year` and `end_year` do not change the result |
| `ClaimsExcel.NoDateKeeps` | ComplaintSearch/claims_excel.py:103-104 | without a date column a record is kept exactly when every filter accepts it |
| `ClaimsExcel.NoDateColumnIgnoresYears` | ComplaintSearch/claims_excel.py:103-114 | without a date column no year parameter changes the result |
| `ClaimsExcel.BlankFilterSkipped` | ComplaintSearch/claims_excel.py:116-118 | a filter whose value is blank accepts what the filters without that key accept |
| `ClaimsExcel.EmptyFilterValueIgnored` | ComplaintSearch/claims_excel.py:116-118 | blanking one filter's value gives the result of dropping that filter |
| `ClaimsExcel.MoreFiltersNarrow` | ComplaintSearch/claims_excel.py:115-136 | adding filters can only remove rows, keeping the others in order |
| `ClaimsExcel.FilterOnAbsentColumnMatchesNothing` | ComplaintSearch/claims_excel.py:119-134 | a non-empty filter on a key that names no header matches no row, since no alias translation happens here |
| `ClaimsExcel.SortedDistinct` | ComplaintSearch/claims_excel.py:172-184 | strictly ascending, and exactly the non-empty texts given |
| `ClaimsExcel.FieldColumn` | ComplaintSearch/claims_excel.py:155-179 | none exactly when the workbook, the header row or the field's column is missing; otherwise the stripped text of the field's column for each data row |
| `ClaimsExcel.ColumnMembership` | ComplaintSearch/claims_excel.py:171-179 | a text is in a column exactly when some row below the header row holds it in that column |
| `ClaimsExcel.UniqueValues` | ComplaintSearch/claims_excel.py:141-184 | strictly ascending, empty when there is no such column, and exactly the column's non-empty texts |
| `ClaimsExcel.UniqueValuesMembership` | ComplaintSearch/claims_excel.py:166-182 | a text is returned exactly when it is non-empty and is the stripped cell text of some data row under the field's column |
| `ClaimsExcel.UniqueValuesIsSortedSet` | ComplaintSearch/claims_excel.py:172-184 | the result is the one strictly ascending list of the column's non-empty texts |
| `ClaimsExcel.ExampleLayout` | tests/test_claims_excel.py:13-19 | in the test's workbook the first row is the header row, "customer" names column 1, "date" names column 4, and the two data rows follow |
| `ClaimsExcel.ExampleVerdicts2023` | tests/test_claims_excel.py:26-28 | the ACME row passes customer ACME with year 2023, and the BETA row fails its year test |
| `ClaimsExcel.ExampleVerdicts2022` | tests/test_claims_excel.py:29-30 | with customer ACME and year 2022 both rows fail: ACME on its year, BETA on the customer filter when difflib matches fewer than four characters of "acme" and "beta" |
| `ClaimsExcel.ExampleSearchFinds` | tests/test_claims_excel.py:21-28 | customer ACME with year 2023 finds exactly the ACME row |
| `ClaimsExcel.ExampleSearchFindsNothing` | tests/test_claims_excel.py:29-30 | customer ACME with year 2022 finds nothing, when difflib matches fewer than four characters of "acme" and "beta" |
| `EightDScanner.Normalize` | EightDScanner/__init__.py:36-38 | the result has no spaces, no upper-case letters, no whitespace at either end, and is no longer than the input |
| `EightDScanner.NormalizeIsFilter` | EightDScanner/__init__.py:36-38 | what `_normalize` keeps: exactly the characters other than ' ' of the stripped, lower-cased text, in order |
| `EightDScanner.NormalizeIdempotent` | EightDScanner/__init__.py:36-38 | normalizing twice is normalizing once |
| `EightDScanner.Headers` | EightDScanner/__init__.py:44 | one text per cell of the first row, stripped, "" for an empty cell; none for a sheet without rows |
| `EightDScanner.HeaderMapping` | EightDScanner/__init__.py:45 | every normalized header is a key mapping to the last column carrying it |
| `EightDScanner.FirstPresent` | EightDScanner/__init__.py:55-58 | the position of the first alias present in the header map; none before it is present |
| `EightDScanner.Resolve` | EightDScanner/__init__.py:53-58 | a field is unresolved exactly when none of its aliases is a header; otherwise its column is that of the first alias that is a header |
| `EightDScanner.FirstAliasWins` | EightDScanner/__init__.py:54-58 | when the first alias is present it decides the column, whatever the later aliases name |
| `EightDScanner.ResolveColumns` | EightDScanner/__init__.py:46-62 | all five columns exactly when each field resolves, each column being its field's resolution |
| `EightDScanner.ProjectFrom` | EightDScanner/__init__.py:63-66 | one report per row from a position on, in order, each the stripped texts of the five columns |
| `EightDScanner.ExtractRows` | EightDScanner/__init__.py:40-70 | nothing when some field is unresolved; otherwise one report per row below the first, in sheet order |
| `EightDScanner.UnresolvedFieldGivesNothing` | EightDScanner/__init__.py:59-62 | a workbook without a customer header yields no rows, however many data rows it has |
| `EightDScanner.ScanCount` | EightDScanner/__init__.py:72-83 | the returned count is the number of rows inserted |
| `EightDScanner.ScanAppend` | EightDScanner/__init__.py:74-82 | scanning two batches of workbooks inserts the first batch's rows, then the second's |
| `EightDScanner.ScanOne` | EightDScanner/__init__.py:74-82 | scanning one workbook inserts exactly its extracted rows |
| `EightDScanner.ExampleColumns` | tests/test_eight_d_scanner.py:20-31 | the test's header row resolves the five fields to columns 0 to 4 |
| `EightDScanner.ExampleExtract` | tests/test_eight_d_scanner.py:20-31 | the test's workbook yields the one report ("123", "desc", "cust", "root", "action") |
| `EightDScanner.ExampleScan` | tests/test_eight_d_scanner.py:33-41 | scanning the test's workbook inserts that one report, and the count is 1 |
| `Api.AliasToHeader` | api/__init__.py:40-52 | the keys are exactly the normalized aliases |
| `Api.AliasTargets` | api/__init__.py:40-52 | every entry of the table names one of the four headers |
| `Api.MapKey` | api/__init__.py:146-147 | a key whose normalization is no alias comes back as given; any other key comes back as the header of an alias it normalizes to |
| `Api.AliasReachesHeader` | api/__init__.py:146-147 | any key that normalizes to an alias, whatever its case or spacing, is renamed to that alias's header |
| `Api.UnaliasedKeyKept` | api/__init__.py:147 | a key whose normalization is no alias is kept as written, not normalized |
| `Api.TranslateFilters` | api/__init__.py:140-150 | every filter value is stripped |
| `Api.TranslateKeys` | api/__init__.py:140-150 | the filter keys are exactly the renamed keys of the parameters other than `keyword`, `year`, `start_year` and `end_year` |
| `Api.TranslateLast` | api/__init__.py:144-150 | the value under a key is the stripped value of the last parameter renamed to it |
| `Api.OneFilter` | api/__init__.py:140-150 | a request with one filter parameter gives one filter, under the renamed key, with the stripped value |
| `Api.Param` | api/__init__.py:138 | `query_params.get(name)`: none exactly when no parameter has that name; otherwise the value of one that has it, and of the last one when the name repeats |
| `Api.Complaints` | api/__init__.py:129-161 | the store is searched only for a non-empty keyword; the Excel search runs with the renamed filters and the year parameters exactly when there is a filter or a year parameter, and is otherwise empty |
| `Api.ExcelRunsIff` | api/__init__.py:151-152 | the Excel search runs exactly when some parameter other than the four known ones is present, or a year parameter is given |
| `Api.EmptyRequest` | api/__init__.py:138-159 | a request without parameters returns two empty lists |
| `Api.KeywordOnly` | api/__init__.py:138-152 | a request holding only `keyword` reads that keyword and runs no Excel search |
| `Api.Options` | api/__init__.py:181-188 | every option value is non-empty; a field whose normalization is no alias reads its own column, and any other field the column of the header of an alias it normalizes to |
| `Api.OptionsOfAlias` | api/__init__.py:185-186 | any field that normalizes to an alias reads that alias's header's column |
| `Api.OptionsOfUnaliased` | api/__init__.py:185-186 | a field that is no alias is passed to `unique_values` as written |
| `Api.ExampleKeyword` | tests/test_api.py:57-60 | the test's query hands the keyword "k" to the store search |
| `Api.CustomerKey` | api/__init__.py:41 | "customer" is renamed to "Müşteri Adı" |
| `Api.ExampleFilters` | tests/test_api.py:57-61 | the test's query reaches the Excel search as the one filter "Müşteri Adı" = "c" |
| `Api.PersistedComplaintFound` | tests/test_api.py:98-107 | the posted complaint is found in a fresh store by the keyword "n" |
| `Api.ExamplePersistence` | tests/test_api.py:98-107 | after the post, the keyword query returns the posted complaint as its store list and runs no Excel search |

## Left out

- File and workbook I/O are not modelled: `openpyxl`, JSON encoding, SQLite,
  directory globbing and `Path.exists`. Their results are parameters: rows of
  cells, a store-file state, or a list of workbooks. The SQLite table is
  represented by the reports `scan` inserts.
- JSON values other than strings in stored records are not modelled: a record
  is a map from field name to string, which is what the handlers write.
- The path resolution of `ExcelClaimsSearcher.__init__` is not modelled: the
  `.env` file, the environment variable and package resources are I/O. The
  workbook is a parameter.
- The body of `normalize_text` is not modelled: it is in none of the source
  files of this model, and ComplaintSearch/claims_excel.py:17 and
  api/__init__.py:22 only import it from the ComplaintSearch package. It is a
  parameter, and properties that need `normalize_text("") == ""` or particular
  values of it say so in their `requires`.
- The algorithm of difflib's `SequenceMatcher` is not modelled: only its
  matching-character count M enters, bounded by both lengths. The ratio is
  compared with 0.8 as the integer test 5·M ≥ 2·(|a| + |b|), with no floating
  point.
- `datetime.fromisoformat` is not modelled: it is a parameter returning the
  year or None for ValueError. Dates other than ISO text carry their year,
  taken from `.year`.
- `Text.Lower` is not Unicode lower-casing: it lowers the ASCII letters only,
  and non-ASCII letters are left as they are.
- Concurrency is not modelled: the store's read-modify-write race, logging,
  the FastAPI and CORS plumbing, HTTP status codes and the conversion of the
  year parameters to integers (a 422 error on a non-integer) are all left out.
  The year parameters arrive as `Option<int>`.
- The query string is given as its dictionary's items: distinct names in
  order, one value each, which is how `query_params.items()` and `.get`
  present them. Repeated names in the raw query are left out.
- The `try`/`except Exception` around the row projection of `_extract_rows` is
  not modelled: with rows of cells and in-range columns nothing in it raises,
  so the handler never runs.
- Other endpoints are not modelled: `analyze`, `review`, `report` and
  `guide` call code outside this core. The POST body of `add_complaint` is
  not modelled either; the handler is `ComplaintStore.Add`.
- The `scan_8d` handler (api/__init__.py:200-211) is not modelled as its own
  member: it only wraps the count of `EightDScanner.scan` in
  `{"status": "ok", "count": count}`, and that count is `EightDScanner.ScanCount`.
  Its turning of an exception into an HTTP 500 is left out with the other
  HTTP plumbing.
- `Api.AliasReachesHeader` holds under `AliasesDistinct`: `normalize_text`
  must keep the aliases of different headers apart, which the table relies
  on. Without it a later alias of another header may take over a key.
- `Text.Strip` states the shape of its result. Which characters it keeps is
  stated by `Text.StripIsBlock`.
- `EightDScanner.Normalize` states the shape of its result. Which characters
  it keeps is stated by `EightDScanner.NormalizeIsFilter`.
- A store file that parses but does not hold a list of objects, such as `[1]`
  or `{}`, is not modelled; neither is a file that is not valid UTF-8. There
  `add_complaint` or `search` raises (ComplaintSearch/__init__.py:24-29 and
  37-46). `StoreFile` has only the missing, unparsable and list-of-records
  states.
- `Api.TranslateFilters` states only that the values are stripped. The keys
  and values are stated by `Api.TranslateKeys` and `Api.TranslateLast`.
- `Api.AliasToHeader` states only the keys. The values are stated by
  `Api.AliasTargets` and `Api.AliasReachesHeader`.
- Where the program's own text disagrees with its code, the code is modelled:
  - The docstring at ComplaintSearch/claims_excel.py:64-65 says fields other
    than `complaint` must match exactly. The code at lines 130-134 also
    accepts a difflib ratio of at least 0.8.
  - tests/test_api.py:61 and :68 expect the Excel searcher to receive the
    keys as written. `complaints` and `options` rename them through
    `ALIAS_TO_HEADER` first (api/__init__.py:146-147 and 185).
- The store search (ComplaintSearch/__init__.py:42-48) lower-cases the keyword
  and each field and tests for a substring. It does not call `normalize_text`
  and has no fuzzy fallback, and the model does the same.
