/** `EightDScanner`: the extraction of the five key fields of 8D reports from
    a worksheet whose first row names the columns. */
module EightDScanner {
  import opened Wrappers
  import opened Cells
  import Text
  import Seqs
  import Assoc

  /** One extracted report row, in the column order of the `reports` table. */
  datatype Report = Report(
    materialCode: string,
    description: string,
    customer: string,
    rootCause: string,
    permanentAction: string)

  /** `_normalize`: stripped, lower-cased, with every space removed. */
  function Normalize(t: string): (r: string)
    ensures |r| <= |t|
    ensures ' ' !in r
    ensures Text.IsTrimmed(r)
    ensures forall c | c in r :: !Text.IsUpper(c)
  {
    var lowered := Text.Lower(Text.Strip(t));
    Text.RemoveSpacesKeepsTrimmed(lowered);
    Text.RemoveSpaces(lowered)
  }

  /** What `_normalize` keeps: the characters of the stripped, lower-cased
      header other than ' ', in order. */
  lemma NormalizeIsFilter(t: string)
    ensures Normalize(t) == Seqs.Filter(c => c != ' ', Text.Lower(Text.Strip(t)))
  {
    Text.RemoveSpacesIsFilter(Text.Lower(Text.Strip(t)));
  }

  /** Normalizing a normalized header changes nothing. */
  lemma NormalizeIdempotent(t: string)
    ensures Normalize(Normalize(t)) == Normalize(t)
  {
    var n := Normalize(t);
    Text.StripKeepsTrimmed(n);
    Text.LowerNoUpper(n);
    Text.RemoveSpacesNoSpace(n);
  }

  /** The accepted normalized headers of each field, most preferred first. */
  const MaterialCodeAliases: seq<string> := ["malzemekodu", "parcakodu"]
  const DescriptionAliases: seq<string> := ["tanım", "tanim"]
  const CustomerAliases: seq<string> := ["müşteri", "musteri"]
  const RootCauseAliases: seq<string> := ["kökneden", "kokneden"]
  const PermanentActionAliases: seq<string> := ["kalıcıaksiyon", "kaliciaksiyon"]

  /** The header texts: the first row's cells stripped, "" for an empty
      cell; none when the sheet has no rows. */
  function Headers(sheet: Sheet): (h: seq<string>)
    ensures |sheet| == 0 ==> h == []
    ensures |sheet| > 0 ==> |h| == |sheet[0]|
    ensures forall i | 0 <= i < |h| :: h[i] == CellText(sheet[0], i)
  {
    if |sheet| == 0 then []
    else seq(|sheet[0]|, i requires 0 <= i < |sheet[0]| => CellText(sheet[0], i))
  }

  /** Each text normalized, in order. */
  function NormalizeAll(texts: seq<string>): (r: seq<string>)
    ensures |r| == |texts|
  {
    if |texts| == 0 then [] else [Normalize(texts[0])] + NormalizeAll(texts[1..])
  }

  /** The `i`-th normalized text is the normalization of the `i`-th text. */
  lemma {:induction false} NormalizeAllAt(texts: seq<string>, i: nat)
    requires i < |texts|
    ensures NormalizeAll(texts)[i] == Normalize(texts[i])
    decreases i
  {
    if i > 0 {
      NormalizeAllAt(texts[1..], i - 1);
    }
  }

  /** The normalized header texts, one per column of the first row. */
  function HeaderKeys(sheet: Sheet): (keys: seq<string>)
    ensures |keys| == |Headers(sheet)|
  {
    NormalizeAll(Headers(sheet))
  }

  /** `{normalize(h): idx for idx, h in enumerate(headers)}`: every normalized
      header is a key, mapped to the last column that carries it. */
  function HeaderMapping(sheet: Sheet): (m: map<string, nat>)
    ensures forall k | k in m :: k in HeaderKeys(sheet)
    ensures forall i | 0 <= i < |HeaderKeys(sheet)| :: HeaderKeys(sheet)[i] in m
    ensures forall k | k in m :: m[k] < |HeaderKeys(sheet)| && HeaderKeys(sheet)[m[k]] == k
    ensures forall k | k in m :: forall j | m[k] < j < |HeaderKeys(sheet)| :: HeaderKeys(sheet)[j] != k
  {
    Assoc.EnumerateDict(HeaderKeys(sheet))
  }

  /** The position of the first alias that is a key of `mapping`, or
      `|aliases|` when none is. */
  function FirstPresent(mapping: map<string, nat>, aliases: seq<string>): (i: nat)
    ensures i <= |aliases|
    ensures forall j | 0 <= j < i :: aliases[j] !in mapping
    ensures i < |aliases| ==> aliases[i] in mapping
  {
    if |aliases| == 0 then 0
    else if aliases[0] in mapping then 0
    else 1 + FirstPresent(mapping, aliases[1..])
  }

  /** The column of a field: that of its first alias present in the header
      map; later aliases are not consulted. */
  function Resolve(mapping: map<string, nat>, aliases: seq<string>): (r: Option<nat>)
    ensures r.None? <==> forall j | 0 <= j < |aliases| :: aliases[j] !in mapping
    ensures r.Some? ==>
              exists j | 0 <= j < |aliases| ::
                && aliases[j] in mapping
                && r.value == mapping[aliases[j]]
                && forall k | 0 <= k < j :: aliases[k] !in mapping
  {
    var i := FirstPresent(mapping, aliases);
    if i < |aliases| then Some(mapping[aliases[i]]) else None
  }

  /** The columns of the five fields. */
  datatype Columns = Columns(
    materialCode: nat,
    description: nat,
    customer: nat,
    rootCause: nat,
    permanentAction: nat)

  /** All five fields resolved, or None when any is missing (`len(indices) < 5`). */
  function ResolveColumns(mapping: map<string, nat>): (r: Option<Columns>)
    ensures r.Some? <==>
              && Resolve(mapping, MaterialCodeAliases).Some?
              && Resolve(mapping, DescriptionAliases).Some?
              && Resolve(mapping, CustomerAliases).Some?
              && Resolve(mapping, RootCauseAliases).Some?
              && Resolve(mapping, PermanentActionAliases).Some?
    ensures r.Some? ==>
              && Some(r.value.materialCode) == Resolve(mapping, MaterialCodeAliases)
              && Some(r.value.description) == Resolve(mapping, DescriptionAliases)
              && Some(r.value.customer) == Resolve(mapping, CustomerAliases)
              && Some(r.value.rootCause) == Resolve(mapping, RootCauseAliases)
              && Some(r.value.permanentAction) == Resolve(mapping, PermanentActionAliases)
  {
    match (Resolve(mapping, MaterialCodeAliases), Resolve(mapping, DescriptionAliases),
           Resolve(mapping, CustomerAliases), Resolve(mapping, RootCauseAliases),
           Resolve(mapping, PermanentActionAliases))
    case (Some(a), Some(b), Some(c), Some(d), Some(e)) => Some(Columns(a, b, c, d, e))
    case _ => None
  }

  /** One data row projected onto the five columns: the stripped text of
      each cell, "" when the row is too short or the cell is empty. */
  function Project(cols: Columns, row: Row): Report
  {
    Report(CellText(row, cols.materialCode), CellText(row, cols.description), CellText(row, cols.customer),
           CellText(row, cols.rootCause), CellText(row, cols.permanentAction))
  }

  /** The rows from position `from` on, each projected, in order. */
  function ProjectFrom(cols: Columns, sheet: Sheet, from: nat): (r: seq<Report>)
    requires from <= |sheet|
    ensures |r| == |sheet| - from
    ensures forall i | 0 <= i < |r| :: r[i] == Project(cols, sheet[i + from])
  {
    var rows := sheet[from..];
    assert forall i | 0 <= i < |rows| :: rows[i] == sheet[i + from];
    Seqs.Map(row => Project(cols, row), rows)
  }

  /** A sheet whose fields all resolve has a header row. */
  lemma ResolvedHasHeader(sheet: Sheet)
    requires ResolveColumns(HeaderMapping(sheet)).Some?
    ensures |sheet| > 0
  {
    var m := HeaderMapping(sheet);
    assert Resolve(m, CustomerAliases).Some?;
    var j :| 0 <= j < |CustomerAliases| && CustomerAliases[j] in m;
    assert CustomerAliases[j] in HeaderKeys(sheet);
  }

  /** `_extract_rows`: nothing when a field cannot be resolved (in particular
      for a sheet without rows); otherwise one report per row below the
      first, in sheet order. */
  function ExtractRows(sheet: Sheet): (r: seq<Report>)
    ensures ResolveColumns(HeaderMapping(sheet)).None? ==> r == []
    ensures ResolveColumns(HeaderMapping(sheet)).Some? ==>
              var cols := ResolveColumns(HeaderMapping(sheet)).value;
              |sheet| > 0 && |r| == |sheet| - 1 && forall i | 0 <= i < |r| :: r[i] == Project(cols, sheet[i + 1])
  {
    match ResolveColumns(HeaderMapping(sheet))
    case None => []
    case Some(cols) =>
      ResolvedHasHeader(sheet);
      ProjectFrom(cols, sheet, 1)
  }

  /** `scan`: the rows of every workbook, workbook after workbook. */
  function ScanAll(books: seq<Sheet>): seq<Report>
  {
    Seqs.Concat(Seqs.Map(ExtractRows, books))
  }

  /** `scan`'s count, accumulated workbook by workbook: the number of rows
      inserted. */
  function ScanCount(books: seq<Sheet>): (n: nat)
    ensures n == |ScanAll(books)|
  {
    Seqs.TotalLength(Seqs.Map(ExtractRows, books))
  }

  /** Scanning two batches of workbooks inserts the rows of the first batch,
      then those of the second. */
  lemma ScanAppend(a: seq<Sheet>, b: seq<Sheet>)
    ensures ScanAll(a + b) == ScanAll(a) + ScanAll(b)
  {
    Seqs.MapAppend(ExtractRows, a, b);
    Seqs.ConcatAppend(Seqs.Map(ExtractRows, a), Seqs.Map(ExtractRows, b));
  }

  /** A workbook without a header for some field contributes no rows, however
      many data rows it has. */
  lemma UnresolvedFieldGivesNothing(sheet: Sheet)
    requires forall j | 0 <= j < |CustomerAliases| :: CustomerAliases[j] !in HeaderMapping(sheet)
    ensures ExtractRows(sheet) == []
  {
  }

  /** The first alias wins even when a later alias names another column. */
  lemma FirstAliasWins(mapping: map<string, nat>, aliases: seq<string>)
    requires |aliases| > 0 && aliases[0] in mapping
    ensures Resolve(mapping, aliases) == Some(mapping[aliases[0]])
  {
  }

  /** The report workbook of tests/test_eight_d_scanner.py. */
  const ExampleHeader: Row :=
    [Str("Malzeme Kodu"), Str("Tanım"), Str("Müşteri"), Str("Kök Neden"), Str("Kalıcı Aksiyon")]
  const ExampleRow: Row := [Str("123"), Str("desc"), Str("cust"), Str("root"), Str("action")]
  const ExampleSheet: Sheet := [ExampleHeader, ExampleRow]

  /** Normalizing a stripped header of two space-free words joins them,
      lower-cased. */
  lemma NormalizeTwoWords(first: string, second: string)
    requires Text.IsTrimmed(first + " " + second) && ' ' !in first && ' ' !in second
    ensures Normalize(first + " " + second) == Text.Lower(first) + Text.Lower(second)
  {
    var t := first + " " + second;
    Text.StripKeepsTrimmed(t);
    Text.LowerAppend(first + " ", second);
    Text.LowerAppend(first, " ");
    assert Text.Lower(" ") == " ";
    Text.LowerKeepsSpaceFree(first);
    Text.LowerKeepsSpaceFree(second);
    Text.RemoveOneSpace(Text.Lower(first), Text.Lower(second));
  }

  /** Normalizing a stripped header without spaces lower-cases it. */
  lemma NormalizeOneWord(t: string)
    requires Text.IsTrimmed(t) && ' ' !in t
    ensures Normalize(t) == Text.Lower(t)
  {
    Text.StripKeepsTrimmed(t);
    Text.LowerKeepsSpaceFree(t);
    Text.RemoveSpacesNoSpace(Text.Lower(t));
  }

  /** A text cell that is already stripped reads back unchanged. */
  lemma CellTextOfTrimmed(row: Row, i: nat, t: string)
    requires i < |row| && row[i] == Str(t) && Text.IsTrimmed(t)
    ensures CellText(row, i) == t
  {
    Text.StripKeepsTrimmed(t);
  }

  /** A stripped text header contributes its normalization as the key of
      its column. */
  lemma HeaderKeyAt(sheet: Sheet, i: nat, t: string)
    requires |sheet| > 0 && i < |sheet[0]| && sheet[0][i] == Str(t) && Text.IsTrimmed(t)
    ensures i < |HeaderKeys(sheet)| && HeaderKeys(sheet)[i] == Normalize(t)
  {
    CellTextOfTrimmed(sheet[0], i, t);
    NormalizeAllAt(Headers(sheet), i);
  }

  /** A header of two space-free words contributes their lower-cased
      concatenation as the key of its column. */
  lemma TwoWordHeaderKey(sheet: Sheet, i: nat, first: string, second: string, key: string)
    requires |sheet| > 0 && i < |sheet[0]| && sheet[0][i] == Str(first + " " + second)
    requires Text.IsTrimmed(first + " " + second) && ' ' !in first && ' ' !in second
    requires Text.Lower(first) + Text.Lower(second) == key
    ensures HeaderKeys(sheet)[i] == key
  {
    NormalizeTwoWords(first, second);
    HeaderKeyAt(sheet, i, first + " " + second);
  }

  /** A header of one space-free word contributes it lower-cased. */
  lemma OneWordHeaderKey(sheet: Sheet, i: nat, word: string, key: string)
    requires |sheet| > 0 && i < |sheet[0]| && sheet[0][i] == Str(word)
    requires Text.IsTrimmed(word) && ' ' !in word
    requires Text.Lower(word) == key
    ensures HeaderKeys(sheet)[i] == key
  {
    NormalizeOneWord(word);
    HeaderKeyAt(sheet, i, word);
  }

  /** Each header of the example normalizes to the first alias of its field. */
  lemma MaterialCodeWords(first: string, second: string)
    requires first == "Malzeme" && second == "Kodu"
    ensures Text.IsTrimmed(first + " " + second) && ' ' !in first && ' ' !in second
    ensures Text.Lower(first) + Text.Lower(second) == MaterialCodeAliases[0]
  {
    assert Text.Lower(first) == "malzeme";
    assert Text.Lower(second) == "kodu";
  }

  lemma ExampleMaterialCode(sheet: Sheet)
    requires sheet == ExampleSheet
    ensures HeaderKeys(sheet)[0] == MaterialCodeAliases[0]
  {
    var t := sheet[0][0].text;
    var first, second := t[..7], t[8..];
    assert t == first + " " + second;
    MaterialCodeWords(first, second);
    TwoWordHeaderKey(sheet, 0, first, second, MaterialCodeAliases[0]);
  }

  lemma DescriptionWord(word: string)
    requires word == "Tanım"
    ensures Text.IsTrimmed(word) && ' ' !in word
    ensures Text.Lower(word) == DescriptionAliases[0]
  {
  }

  lemma ExampleDescription(sheet: Sheet)
    requires sheet == ExampleSheet
    ensures HeaderKeys(sheet)[1] == DescriptionAliases[0]
  {
    var word := sheet[0][1].text;
    DescriptionWord(word);
    OneWordHeaderKey(sheet, 1, word, DescriptionAliases[0]);
  }

  lemma CustomerWord(word: string)
    requires word == "Müşteri"
    ensures Text.IsTrimmed(word) && ' ' !in word
    ensures Text.Lower(word) == CustomerAliases[0]
  {
  }

  lemma ExampleCustomer(sheet: Sheet)
    requires sheet == ExampleSheet
    ensures HeaderKeys(sheet)[2] == CustomerAliases[0]
  {
    var word := sheet[0][2].text;
    CustomerWord(word);
    OneWordHeaderKey(sheet, 2, word, CustomerAliases[0]);
  }

  lemma RootCauseWords(first: string, second: string)
    requires first == "Kök" && second == "Neden"
    ensures Text.IsTrimmed(first + " " + second) && ' ' !in first && ' ' !in second
    ensures Text.Lower(first) + Text.Lower(second) == RootCauseAliases[0]
  {
    assert Text.Lower(first) == "kök";
    assert Text.Lower(second) == "neden";
  }

  lemma ExampleRootCause(sheet: Sheet)
    requires sheet == ExampleSheet
    ensures HeaderKeys(sheet)[3] == RootCauseAliases[0]
  {
    var t := sheet[0][3].text;
    var first, second := t[..3], t[4..];
    assert t == first + " " + second;
    RootCauseWords(first, second);
    TwoWordHeaderKey(sheet, 3, first, second, RootCauseAliases[0]);
  }

  lemma PermanentActionWords(first: string, second: string)
    requires first == "Kalıcı" && second == "Aksiyon"
    ensures Text.IsTrimmed(first + " " + second) && ' ' !in first && ' ' !in second
    ensures Text.Lower(first) + Text.Lower(second) == PermanentActionAliases[0]
  {
    assert Text.Lower(first) == "kalıcı";
    assert Text.Lower(second) == "aksiyon";
  }

  lemma ExamplePermanentAction(sheet: Sheet)
    requires sheet == ExampleSheet
    ensures HeaderKeys(sheet)[4] == PermanentActionAliases[0]
  {
    var t := sheet[0][4].text;
    var first, second := t[..6], t[7..];
    assert t == first + " " + second;
    PermanentActionWords(first, second);
    TwoWordHeaderKey(sheet, 4, first, second, PermanentActionAliases[0]);
  }

  /** The five first aliases have five different lengths, so no two of
      them are equal. */
  predicate FirstAliasLengths(keys: seq<string>)
  {
    |keys| == 5 && |keys[0]| == 11 && |keys[1]| == 5 && |keys[2]| == 7 && |keys[3]| == 8 && |keys[4]| == 13
  }

  lemma FirstAliasColumn(keys: seq<string>, i: nat)
    requires FirstAliasLengths(keys) && i < 5
    ensures keys[i] in Assoc.EnumerateDict(keys) && Assoc.EnumerateDict(keys)[keys[i]] == i
  {
    Assoc.EnumerateUnique(keys, i);
  }

  /** Header keys that are exactly the first aliases of the five fields, in
      order, resolve each field to its own column. */
  lemma ColumnsOfFirstAliases(keys: seq<string>)
    requires |keys| == 5
    requires keys[0] == MaterialCodeAliases[0]
    requires keys[1] == DescriptionAliases[0]
    requires keys[2] == CustomerAliases[0]
    requires keys[3] == RootCauseAliases[0]
    requires keys[4] == PermanentActionAliases[0]
    ensures ResolveColumns(Assoc.EnumerateDict(keys)) == Some(Columns(0, 1, 2, 3, 4))
  {
    assert FirstAliasLengths(keys);
    FirstAliasColumn(keys, 0);
    FirstAliasColumn(keys, 1);
    FirstAliasColumn(keys, 2);
    FirstAliasColumn(keys, 3);
    FirstAliasColumn(keys, 4);
    ResolveFirstAliases(Assoc.EnumerateDict(keys));
  }

  /** A mapping sending each field's first alias to a column resolves the
      fields to those columns. */
  lemma ResolveFirstAliases(m: map<string, nat>)
    requires MaterialCodeAliases[0] in m && m[MaterialCodeAliases[0]] == 0
    requires DescriptionAliases[0] in m && m[DescriptionAliases[0]] == 1
    requires CustomerAliases[0] in m && m[CustomerAliases[0]] == 2
    requires RootCauseAliases[0] in m && m[RootCauseAliases[0]] == 3
    requires PermanentActionAliases[0] in m && m[PermanentActionAliases[0]] == 4
    ensures ResolveColumns(m) == Some(Columns(0, 1, 2, 3, 4))
  {
    FirstAliasWins(m, MaterialCodeAliases);
    FirstAliasWins(m, DescriptionAliases);
    FirstAliasWins(m, CustomerAliases);
    FirstAliasWins(m, RootCauseAliases);
    FirstAliasWins(m, PermanentActionAliases);
  }

  /** The example's header row resolves the five fields to columns 0 to 4. */
  lemma ExampleColumns(sheet: Sheet)
    requires sheet == ExampleSheet
    ensures ResolveColumns(HeaderMapping(sheet)) == Some(Columns(0, 1, 2, 3, 4))
  {
    ExampleMaterialCode(sheet);
    ExampleDescription(sheet);
    ExampleCustomer(sheet);
    ExampleRootCause(sheet);
    ExamplePermanentAction(sheet);
    ColumnsOfFirstAliases(HeaderKeys(sheet));
  }

  /** A resolved sheet with one data row yields that row's projection. */
  lemma ExtractOneRow(sheet: Sheet, cols: Columns)
    requires ResolveColumns(HeaderMapping(sheet)) == Some(cols) && |sheet| == 2
    ensures ExtractRows(sheet) == [Project(cols, sheet[1])]
  {
  }

  /** A row of five stripped texts, projected onto columns 0 to 4, gives
      those texts. */
  lemma ProjectTrimmedRow(row: Row, a: string, b: string, c: string, d: string, e: string)
    requires |row| == 5 && row[0] == Str(a) && row[1] == Str(b) && row[2] == Str(c)
    requires row[3] == Str(d) && row[4] == Str(e)
    requires Text.IsTrimmed(a) && Text.IsTrimmed(b) && Text.IsTrimmed(c)
    requires Text.IsTrimmed(d) && Text.IsTrimmed(e)
    ensures Project(Columns(0, 1, 2, 3, 4), row) == Report(a, b, c, d, e)
  {
    CellTextOfTrimmed(row, 0, a);
    CellTextOfTrimmed(row, 1, b);
    CellTextOfTrimmed(row, 2, c);
    CellTextOfTrimmed(row, 3, d);
    CellTextOfTrimmed(row, 4, e);
  }

  /** The example's data row reads back as its five texts. */
  lemma ExampleProjection(row: Row)
    requires row == ExampleRow
    ensures Project(Columns(0, 1, 2, 3, 4), row) == Report("123", "desc", "cust", "root", "action")
  {
    ProjectTrimmedRow(row, "123", "desc", "cust", "root", "action");
  }

  /** The test's expectation: the one data row of the example is extracted
      as one report. */
  lemma ExampleExtract(sheet: Sheet)
    requires sheet == ExampleSheet
    ensures ExtractRows(sheet) == [Report("123", "desc", "cust", "root", "action")]
  {
    ExampleColumns(sheet);
    ExtractOneRow(sheet, Columns(0, 1, 2, 3, 4));
    ExampleProjection(sheet[1]);
  }

  /** Scanning a single workbook inserts exactly its extracted rows. */
  lemma ScanOne(sheet: Sheet)
    ensures ScanAll([sheet]) == ExtractRows(sheet)
  {
    Seqs.ConcatMapOne(ExtractRows, sheet);
  }

  /** The test's count: scanning the example workbook inserts one row, the
      expected report. */
  lemma ExampleScan(sheet: Sheet)
    requires sheet == ExampleSheet
    ensures ScanAll([sheet]) == [Report("123", "desc", "cust", "root", "action")]
    ensures ScanCount([sheet]) == 1
  {
    ExampleExtract(sheet);
    ScanOne(sheet);
  }
}
