/** The pure part of the HTTP handlers `complaints` and `options`: which
    query parameters become Excel filters, under which header names, and
    when each of the two searches runs. The query string is given as the
    items of its dictionary, in order; the year parameters arrive already
    converted to integers. */
module Api {
  import opened Wrappers
  import opened Library
  import Text
  import Assoc
  import Cells
  import ComplaintStore
  import ClaimsExcel

  /** `ALIAS_TO_HEADER` as written: each alias, before `normalize_text`, with
      the Excel header it stands for. */
  const AliasPairs: seq<(string, string)> := [
    ("customer", "Müşteri Adı"),
    ("musteri", "Müşteri Adı"),
    ("müşteri adı", "Müşteri Adı"),
    ("musteri adi", "Müşteri Adı"),
    ("subject", "Hata Tanımı - Kök Neden"),
    ("konu", "Konu"),
    ("hata tanımı - kök neden", "Hata Tanımı - Kök Neden"),
    ("part_code", "Parça Numarası"),
    ("parca kodu", "Parça Numarası"),
    ("parça kodu", "Parça Numarası"),
    ("parça numarası", "Parça Numarası")
  ]

  /** The header names the aliases stand for. */
  const HeaderNames: set<string> := {"Müşteri Adı", "Hata Tanımı - Kök Neden", "Konu", "Parça Numarası"}

  /** The aliases with `normalize_text` applied, in the order of the display. */
  function NormalizedPairs(lib: Lib): (ps: seq<(string, string)>)
    ensures |ps| == |AliasPairs|
    ensures forall i | 0 <= i < |ps| :: ps[i] == (lib.normalizeText(AliasPairs[i].0), AliasPairs[i].1)
  {
    seq(|AliasPairs|, i requires 0 <= i < |AliasPairs| => (lib.normalizeText(AliasPairs[i].0), AliasPairs[i].1))
  }

  /** `ALIAS_TO_HEADER`: keyed by the normalized aliases; should two aliases
      normalize alike, the later entry of the display wins. */
  function AliasToHeader(lib: Lib): (m: map<string, string>)
    ensures forall i | 0 <= i < |AliasPairs| :: lib.normalizeText(AliasPairs[i].0) in m
    ensures forall k | k in m :: exists i | 0 <= i < |AliasPairs| :: lib.normalizeText(AliasPairs[i].0) == k
  {
    Assoc.DictOf(NormalizedPairs(lib))
  }

  lemma AliasTargetNamed(i: nat)
    requires i < |AliasPairs|
    ensures AliasPairs[i].1 in HeaderNames
  {
  }

  /** Every entry of the table names one of the four headers. */
  lemma AliasTargets(lib: Lib, k: string)
    requires k in AliasToHeader(lib)
    ensures AliasToHeader(lib)[k] in HeaderNames
  {
    var ps := NormalizedPairs(lib);
    Assoc.DictOfValue(ps, k);
    var i :| 0 <= i < |ps| && ps[i].0 == k && Assoc.DictOf(ps)[k] == ps[i].1;
    AliasTargetNamed(i);
  }

  /** `normalize_text` keeps apart the aliases of different headers; it is
      what the table's authors rely on, and what makes each alias reach its
      own header. */
  ghost predicate AliasesDistinct(lib: Lib)
  {
    forall i, j | 0 <= i < |AliasPairs| && 0 <= j < |AliasPairs| && AliasPairs[i].1 != AliasPairs[j].1 ::
      lib.normalizeText(AliasPairs[i].0) != lib.normalizeText(AliasPairs[j].0)
  }

  /** The column header a query key names: the header of the alias the key
      normalizes to, or the key itself when it normalizes to no alias. */
  function MapKey(lib: Lib, key: string): (r: string)
    ensures r == key || r in HeaderNames
    ensures lib.normalizeText(key) !in AliasToHeader(lib) ==> r == key
    ensures lib.normalizeText(key) in AliasToHeader(lib) ==> IsHeaderOfAlias(lib, key, r)
  {
    var norm := lib.normalizeText(key);
    if norm in AliasToHeader(lib) then
      AliasTargets(lib, norm);
      Assoc.DictOfValue(NormalizedPairs(lib), norm);
      AliasToHeader(lib)[norm]
    else key
  }

  /** `key` normalizes to the `i`-th alias. */
  ghost predicate IsAliasOf(lib: Lib, key: string, i: int)
  {
    0 <= i < |AliasPairs| && lib.normalizeText(AliasPairs[i].0) == lib.normalizeText(key)
  }

  /** `header` is what the table gives to some alias that `key` normalizes to. */
  ghost predicate IsHeaderOfAlias(lib: Lib, key: string, header: string)
  {
    exists i | 0 <= i < |AliasPairs| :: IsAliasOf(lib, key, i) && header == AliasPairs[i].1
  }

  /** Any key that normalizes to an alias, however it is cased or spaced,
      reaches that alias's header when the aliases of different headers stay
      apart under normalization. */
  lemma AliasReachesHeader(lib: Lib, key: string, i: nat)
    requires AliasesDistinct(lib) && IsAliasOf(lib, key, i)
    ensures MapKey(lib, key) == AliasPairs[i].1
  {
    var ps := NormalizedPairs(lib);
    Assoc.DictOfAgrees(ps, i);
  }

  /** A key whose normalization is no alias stays as given, not normalized. */
  lemma UnaliasedKeyKept(lib: Lib, key: string)
    requires forall i | 0 <= i < |AliasPairs| :: lib.normalizeText(AliasPairs[i].0) != lib.normalizeText(key)
    ensures MapKey(lib, key) == key
  {
  }

  /** The parameters that are not filters. */
  const Known: set<string> := {"keyword", "year", "start_year", "end_year"}

  /** The `i`-th parameter is a filter and no later filter is renamed to the
      same key. */
  ghost predicate LastFor(rename: string -> string, params: seq<(string, string)>, i: int)
  {
    && 0 <= i < |params|
    && params[i].0 !in Known
    && forall j | i < j < |params| && params[j].0 !in Known :: rename(params[j].0) != rename(params[i].0)
  }

  /** The filter loop of `complaints`: every parameter other than the known
      ones is stored under its renamed key with its value stripped, in
      order, so that a later parameter renamed to the same key overwrites
      an earlier one. */
  function TranslateFilters(rename: string -> string, params: seq<(string, string)>): (m: map<string, string>)
    ensures forall k | k in m :: Text.IsTrimmed(m[k])
  {
    if |params| == 0 then map[]
    else
      var last := params[|params| - 1];
      var m := TranslateFilters(rename, params[..|params| - 1]);
      if last.0 in Known then m else m[rename(last.0) := Text.Strip(last.1)]
  }

  /** One step of the filter loop: the last parameter adds its renamed key
      unless it is a known one. */
  lemma TranslateStep(rename: string -> string, params: seq<(string, string)>)
    requires |params| > 0
    ensures var m, m0 := TranslateFilters(rename, params), TranslateFilters(rename, params[..|params| - 1]);
            var last := params[|params| - 1];
            && (last.0 in Known ==> m == m0)
            && (last.0 !in Known ==> m.Keys == m0.Keys + {rename(last.0)} && m[rename(last.0)] == Text.Strip(last.1))
            && (forall k | k in m0 && (last.0 in Known || k != rename(last.0)) :: m[k] == m0[k])
  {
  }

  /** Some parameter other than the known ones is renamed to `k`. */
  ghost predicate HasFilter(rename: string -> string, params: seq<(string, string)>, k: string)
  {
    exists i | 0 <= i < |params| :: params[i].0 !in Known && rename(params[i].0) == k
  }

  lemma HasFilterStep(rename: string -> string, params: seq<(string, string)>, k: string)
    requires |params| > 0
    ensures var last := params[|params| - 1];
            HasFilter(rename, params, k) <==>
              HasFilter(rename, params[..|params| - 1], k) || (last.0 !in Known && rename(last.0) == k)
  {
    var init := params[..|params| - 1];
    if HasFilter(rename, init, k) {
      var i :| 0 <= i < |init| && init[i].0 !in Known && rename(init[i].0) == k;
      assert params[i] == init[i];
    }
    if HasFilter(rename, params, k) {
      var i :| 0 <= i < |params| && params[i].0 !in Known && rename(params[i].0) == k;
      if i < |init| {
        assert params[i] == init[i];
        assert HasFilter(rename, init, k);
      }
    }
  }

  /** The filter keys are exactly the renamed keys of the parameters other
      than the known ones. */
  lemma {:induction false} TranslateKeys(rename: string -> string, params: seq<(string, string)>, k: string)
    ensures k in TranslateFilters(rename, params) <==> HasFilter(rename, params, k)
    decreases |params|
  {
    if |params| > 0 {
      TranslateKeys(rename, params[..|params| - 1], k);
      TranslateStep(rename, params);
      HasFilterStep(rename, params, k);
    }
  }

  /** Collisions: the value under a key is the stripped value of the last
      parameter renamed to it. */
  lemma {:induction false} TranslateLast(rename: string -> string, params: seq<(string, string)>, i: int)
    requires LastFor(rename, params, i)
    ensures rename(params[i].0) in TranslateFilters(rename, params)
    ensures TranslateFilters(rename, params)[rename(params[i].0)] == Text.Strip(params[i].1)
    decreases |params|
  {
    var init := params[..|params| - 1];
    var last := params[|params| - 1];
    var key := rename(params[i].0);
    TranslateStep(rename, params);
    if i < |init| {
      assert last.0 in Known || rename(last.0) != key;
      assert forall j | 0 <= j < |init| :: init[j] == params[j];
      assert LastFor(rename, init, i);
      TranslateLast(rename, init, i);
    }
  }

  /** The filters the Excel search receives: the parameters' keys renamed
      through the alias table. */
  function ExcelFilters(lib: Lib, params: seq<(string, string)>): map<string, string>
  {
    TranslateFilters(k => MapKey(lib, k), params)
  }

  /** The value of the query parameter called `name`; the last one when it repeats. */
  function Param(params: seq<(string, string)>, name: string): (r: Option<string>)
    ensures r.None? <==> forall i | 0 <= i < |params| :: params[i].0 != name
    ensures r.Some? ==> exists i | 0 <= i < |params| :: params[i] == (name, r.value)
    ensures forall i | Assoc.IsLast(params, i) && params[i].0 == name :: r == Some(params[i].1)
  {
    var d := Assoc.DictOf(params);
    Assoc.DictOfLastOf(params, name);
    if name in d then
      Assoc.DictOfValue(params, name);
      Some(d[name])
    else None
  }

  /** Whether the claims search runs: some filter or some year bound is given. */
  predicate ExcelRuns(filters: map<string, string>, year: Option<int>, startYear: Option<int>, endYear: Option<int>)
  {
    |filters| > 0 || year.Some? || startYear.Some? || endYear.Some?
  }

  /** The response of `complaints`: both lists, always. */
  datatype Response = Response(store: seq<ComplaintStore.Complaint>, excel: seq<ClaimsExcel.Record>)

  /** `complaints(request, year, start_year, end_year)` against the store's
      file and the claims workbook. */
  function Complaints(lib: Lib, file: ComplaintStore.StoreFile, book: Option<Cells.Sheet>,
                      params: seq<(string, string)>, year: Option<int>, startYear: Option<int>,
                      endYear: Option<int>): (r: Response)
    ensures Param(params, "keyword").None? || Param(params, "keyword") == Some("") ==> r.store == []
    ensures Param(params, "keyword").Some? && Param(params, "keyword").value != "" ==>
              r.store == ComplaintStore.Search(file, Param(params, "keyword").value)
    ensures !ExcelRuns(ExcelFilters(lib, params), year, startYear, endYear) ==> r.excel == []
    ensures ExcelRuns(ExcelFilters(lib, params), year, startYear, endYear) ==>
              r.excel == ClaimsExcel.Search(lib, book, ClaimsExcel.Query(ExcelFilters(lib, params), year, startYear, endYear))
  {
    var store := match Param(params, "keyword")
      case Some(keyword) => if keyword != "" then ComplaintStore.Search(file, keyword) else []
      case None => [];
    var filters := ExcelFilters(lib, params);
    var excel := if ExcelRuns(filters, year, startYear, endYear)
      then ClaimsExcel.Search(lib, book, ClaimsExcel.Query(filters, year, startYear, endYear))
      else [];
    Response(store, excel)
  }

  /** The Excel search runs exactly when some parameter other than the known
      ones is given, or one of the three year parameters is. */
  lemma ExcelRunsIff(rename: string -> string, params: seq<(string, string)>,
                     year: Option<int>, startYear: Option<int>, endYear: Option<int>)
    ensures ExcelRuns(TranslateFilters(rename, params), year, startYear, endYear) <==>
              (exists i | 0 <= i < |params| :: params[i].0 !in Known)
              || year.Some? || startYear.Some? || endYear.Some?
  {
    var m := TranslateFilters(rename, params);
    if exists i | 0 <= i < |params| :: params[i].0 !in Known {
      var i :| 0 <= i < |params| && params[i].0 !in Known;
      assert HasFilter(rename, params, rename(params[i].0));
      TranslateKeys(rename, params, rename(params[i].0));
    }
    if |m| > 0 {
      var k :| k in m;
      TranslateKeys(rename, params, k);
      var i :| 0 <= i < |params| && params[i].0 !in Known && rename(params[i].0) == k;
    }
  }

  /** `options(field)`: the unique values of the column the field's alias
      names, or of the field itself when it is no alias. */
  function Options(lib: Lib, book: Option<Cells.Sheet>, field: string): (r: seq<string>)
    ensures forall x | x in r :: x != ""
    ensures lib.normalizeText(field) !in AliasToHeader(lib) ==> r == ClaimsExcel.UniqueValues(lib, book, field)
    ensures lib.normalizeText(field) in AliasToHeader(lib) ==>
              exists header | IsHeaderOfAlias(lib, field, header) :: r == ClaimsExcel.UniqueValues(lib, book, header)
  {
    ClaimsExcel.UniqueValues(lib, book, MapKey(lib, field))
  }

  /** A field that normalizes to an alias reads its header's column. */
  lemma OptionsOfAlias(lib: Lib, book: Option<Cells.Sheet>, field: string, i: nat)
    requires AliasesDistinct(lib) && IsAliasOf(lib, field, i)
    ensures Options(lib, book, field) == ClaimsExcel.UniqueValues(lib, book, AliasPairs[i].1)
  {
    AliasReachesHeader(lib, field, i);
  }

  /** A field that is no alias is passed through unchanged. */
  lemma OptionsOfUnaliased(lib: Lib, book: Option<Cells.Sheet>, field: string)
    requires forall i | 0 <= i < |AliasPairs| :: lib.normalizeText(AliasPairs[i].0) != lib.normalizeText(field)
    ensures Options(lib, book, field) == ClaimsExcel.UniqueValues(lib, book, field)
  {
    UnaliasedKeyKept(lib, field);
  }

  /** A request without parameters searches nothing. */
  lemma EmptyRequest(lib: Lib, file: ComplaintStore.StoreFile, book: Option<Cells.Sheet>)
    ensures Complaints(lib, file, book, [], None, None, None) == Response([], [])
  {
    ExcelRunsIff(k => MapKey(lib, k), [], None, None, None);
  }

  /** A request with a single filter parameter gives a single filter. */
  lemma OneFilter(rename: string -> string, params: seq<(string, string)>, i: nat)
    requires i < |params| && params[i].0 !in Known
    requires forall j | 0 <= j < |params| && j != i :: params[j].0 in Known
    ensures TranslateFilters(rename, params) == map[rename(params[i].0) := Text.Strip(params[i].1)]
  {
    var m := TranslateFilters(rename, params);
    assert LastFor(rename, params, i);
    TranslateLast(rename, params, i);
    forall k | k in m
      ensures k == rename(params[i].0)
    {
      TranslateKeys(rename, params, k);
      var j :| 0 <= j < |params| && params[j].0 !in Known && rename(params[j].0) == k;
    }
  }

  /** The query of tests/test_api.py's `complaints` test: the keyword goes to
      the store, and "customer" reaches the Excel search under its header
      name, not as written. */
  lemma ExampleKeyword(params: seq<(string, string)>)
    requires params == [("keyword", "k"), ("customer", "c")]
    ensures Param(params, "keyword") == Some("k")
  {
    Assoc.DictOfLast(params, 0);
  }

  /** Under distinct aliases, "customer" names the customer header. */
  lemma CustomerKey(lib: Lib)
    requires AliasesDistinct(lib)
    ensures MapKey(lib, "customer") == "Müşteri Adı"
  {
    AliasReachesHeader(lib, "customer", 0);
  }

  lemma ExampleFilters(lib: Lib, params: seq<(string, string)>)
    requires AliasesDistinct(lib)
    requires params == [("keyword", "k"), ("customer", "c")]
    ensures ExcelFilters(lib, params) == map["Müşteri Adı" := "c"]
  {
    CustomerKey(lib);
    ExampleFiltersRenamed(k => MapKey(lib, k), params);
  }

  /** The filter loop over the test's query, for any renaming that sends
      "customer" to the customer header. */
  lemma ExampleFiltersRenamed(rename: string -> string, params: seq<(string, string)>)
    requires rename("customer") == "Müşteri Adı"
    requires params == [("keyword", "k"), ("customer", "c")]
    ensures TranslateFilters(rename, params) == map["Müşteri Adı" := "c"]
  {
    Text.StripKeepsTrimmed(params[1].1);
    assert params[0].0 in Known;
    OneFilter(rename, params, 1);
  }

  /** The store half of tests/test_api.py's persistence test: the posted
      complaint contains the keyword "n". */
  lemma PersistedComplaintFound(body: ComplaintStore.Complaint)
    requires body == map["complaint" := "n", "customer" := "AC", "subject" := "s", "part_code" := "p"]
    ensures ComplaintStore.Search(ComplaintStore.Add(ComplaintStore.Open(ComplaintStore.Missing), body), "n") == [body]
  {
    var n := "n";
    assert Text.Lower(n) == n;
    assert Text.IsPrefix(n, n);
    assert ComplaintStore.FieldText(body, ComplaintStore.SearchFields[0]) == n;
    assert Text.Contains(Text.Lower(ComplaintStore.FieldText(body, ComplaintStore.SearchFields[0])), Text.Lower(n));
    ComplaintStore.AddThenSearch(ComplaintStore.Missing, body, n);
  }

  /** A query holding only the keyword runs no Excel search. */
  lemma KeywordOnly(lib: Lib, params: seq<(string, string)>, keyword: string)
    requires params == [("keyword", keyword)]
    ensures Param(params, "keyword") == Some(keyword)
    ensures !ExcelRuns(ExcelFilters(lib, params), None, None, None)
  {
    Assoc.DictOfLast(params, 0);
    assert params[0].0 in Known;
    ExcelRunsIff(k => MapKey(lib, k), params, None, None, None);
  }

  /** tests/test_api.py's persistence test: a complaint posted to a fresh
      store is returned by a keyword query that it contains, and no Excel
      search runs. */
  lemma ExamplePersistence(lib: Lib, book: Option<Cells.Sheet>, body: ComplaintStore.Complaint)
    requires body == map["complaint" := "n", "customer" := "AC", "subject" := "s", "part_code" := "p"]
    ensures Complaints(lib, ComplaintStore.Add(ComplaintStore.Open(ComplaintStore.Missing), body), book,
                       [("keyword", "n")], None, None, None)
            == Response([body], [])
  {
    PersistedComplaintFound(body);
    KeywordOnly(lib, [("keyword", "n")], "n");
  }
}
