/** `ComplaintStore`: complaint records kept as a JSON list in one file, with
    a case-insensitive keyword search over four fields. The file is given by
    what reading it yields: nothing, content that does not parse, or a list. */
module ComplaintStore {
  import Text
  import Seqs

  /** One complaint record: field name to text. */
  type Complaint = map<string, string>

  /** What the store's file holds when it is read. */
  datatype StoreFile = Missing | Unparsable | Stored(items: seq<Complaint>)

  /** The fields the keyword is looked for in, in the order they are tried. */
  const SearchFields: seq<string> := ["complaint", "customer", "subject", "part_code"]

  /** Opening a store creates an empty list when the file is missing and
      leaves any existing file, parsable or not, as it is. */
  function Open(file: StoreFile): (r: StoreFile)
    ensures !r.Missing?
    ensures file.Missing? ==> r == Stored([])
    ensures !file.Missing? ==> r == file
  {
    if file.Missing? then Stored([]) else file
  }

  /** `add_complaint`: the record goes at the end of the stored list; a
      missing or unparsable file is replaced by a list holding only it. */
  function Add(file: StoreFile, info: Complaint): (r: StoreFile)
    ensures r.Stored? && |r.items| > 0 && r.items[|r.items| - 1] == info
    ensures file.Stored? ==> r.items[..|r.items| - 1] == file.items
    ensures !file.Stored? ==> r.items == [info]
  {
    match file
    case Stored(items) =>
      assert (items + [info])[..|items|] == items;
      Stored(items + [info])
    case _ => Stored([info])
  }

  /** The complaint's text under `field`; "" when it has no such field. */
  function FieldText(item: Complaint, field: string): string
  {
    if field in item then item[field] else ""
  }

  /** Some search field of `item`, lower-cased, contains the lower-cased `keyword`. */
  predicate Matches(item: Complaint, keyword: string)
  {
    exists i | 0 <= i < |SearchFields| ::
      Text.Contains(Text.Lower(FieldText(item, SearchFields[i])), Text.Lower(keyword))
  }

  /** `r` holds every copy of each stored record that matches and no copy of
      one that does not. */
  ghost predicate KeepsEveryMatch(r: seq<Complaint>, items: seq<Complaint>, keyword: string)
  {
    forall x | x in items :: multiset(r)[x] == if Matches(x, keyword) then multiset(items)[x] else 0
  }

  /** `search`: the stored records that match, in stored order; nothing when
      the file is missing or does not parse. */
  function Search(file: StoreFile, keyword: string): (r: seq<Complaint>)
    ensures !file.Stored? ==> r == []
    ensures file.Stored? ==> Seqs.IsSubsequence(r, file.items)
    ensures file.Stored? ==> forall x | x in r :: x in file.items && Matches(x, keyword)
    ensures file.Stored? ==> forall x | x in file.items && Matches(x, keyword) :: x in r
    ensures file.Stored? ==> KeepsEveryMatch(r, file.items, keyword)
  {
    match file
    case Stored(items) =>
      var p := item => Matches(item, keyword);
      Seqs.FilterCounts(p, items);
      Seqs.Filter(p, items)
    case _ => []
  }

  /** Opening an opened store changes nothing. */
  lemma OpenIdempotent(file: StoreFile)
    ensures Open(Open(file)) == Open(file)
  {
  }

  /** Adding a record leaves earlier search results alone and appends the
      new record exactly when it matches. */
  lemma SearchAfterAdd(file: StoreFile, info: Complaint, keyword: string)
    requires file.Stored?
    ensures Search(Add(file, info), keyword)
            == Search(file, keyword) + (if Matches(info, keyword) then [info] else [])
  {
    var p := item => Matches(item, keyword);
    Seqs.FilterAppend(p, file.items, [info]);
    assert Seqs.Filter(p, [info]) == (if Matches(info, keyword) then [info] else []) by {
      assert [info][1..] == [];
    }
  }

  /** Round trip: a record added to a freshly opened missing or unparsable
      store is found by exactly the keywords it matches, and alone. */
  lemma AddThenSearch(file: StoreFile, info: Complaint, keyword: string)
    requires !file.Stored?
    ensures Search(Add(Open(file), info), keyword) == (if Matches(info, keyword) then [info] else [])
  {
    assert Add(Open(file), info) == Add(Stored([]), info);
    SearchAfterAdd(Stored([]), info, keyword);
  }

  /** Every string contains the empty one. */
  lemma EverythingContainsEmpty(hay: string)
    ensures Text.Contains(hay, "")
  {
    assert Text.IsPrefix("", hay);
  }

  /** The empty keyword matches every record, so it returns the whole list. */
  lemma EmptyKeywordMatchesAll(file: StoreFile)
    requires file.Stored?
    ensures Search(file, "") == file.items
  {
    forall item | item in file.items
      ensures Matches(item, "")
    {
      EverythingContainsEmpty(Text.Lower(FieldText(item, SearchFields[0])));
      assert Text.Lower("") == "";
    }
    Seqs.FilterAllPass(item => Matches(item, ""), file.items);
  }

  /** The record of tests/test_complaint_search.py. */
  const ExampleComplaint: Complaint :=
    map["complaint" := "noise issue", "customer" := "ACME", "subject" := "engine", "part_code" := "X1"]

  /** The test's first search: "noise" finds the record. */
  lemma ExampleSearchFinds()
    ensures Search(Add(Open(Missing), ExampleComplaint), "noise") == [ExampleComplaint]
  {
    var c := ExampleComplaint;
    assert Text.Lower("noise") == "noise";
    assert Text.Lower(FieldText(c, SearchFields[0])) == "noise issue";
    assert Text.IsPrefix("noise", "noise issue");
    assert Text.Contains(Text.Lower(FieldText(c, SearchFields[0])), Text.Lower("noise"));
    AddThenSearch(Missing, c, "noise");
  }

  /** A non-empty keyword does not match a record when each lower-cased search
      field is either shorter than it or lacks its lower-cased first character. */
  lemma KeywordAbsentNoMatch(item: Complaint, keyword: string)
    requires |keyword| > 0
    requires forall i | 0 <= i < |SearchFields| ::
               var field := Text.Lower(FieldText(item, SearchFields[i]));
               |field| < |keyword| || Text.Lower(keyword)[0] !in field
    ensures !Matches(item, keyword)
  {
    forall i | 0 <= i < |SearchFields|
      ensures !Text.Contains(Text.Lower(FieldText(item, SearchFields[i])), Text.Lower(keyword))
    {
      var field := Text.Lower(FieldText(item, SearchFields[i]));
      if Text.Contains(field, Text.Lower(keyword)) {
        Text.ContainsShorter(field, Text.Lower(keyword));
        Text.ContainsFirstChar(field, Text.Lower(keyword));
      }
    }
  }

  /** The test's second search: "missing" finds nothing, since it is longer
      than three of the record's fields and the fourth, "noise issue", holds
      no 'm'. */
  lemma ExampleSearchFindsNothing()
    ensures Search(Add(Open(Missing), ExampleComplaint), "missing") == []
  {
    var c := ExampleComplaint;
    var keyword := "missing";
    assert Text.Lower(keyword)[0] == 'm';
    forall i | 0 <= i < |SearchFields|
      ensures var field := Text.Lower(FieldText(c, SearchFields[i]));
              |field| < |keyword| || 'm' !in field
    {
      if i == 0 {
        assert Text.Lower(FieldText(c, SearchFields[i])) == "noise issue";
      } else if i == 1 {
        assert FieldText(c, SearchFields[i]) == "ACME";
      } else if i == 2 {
        assert FieldText(c, SearchFields[i]) == "engine";
      } else {
        assert FieldText(c, SearchFields[i]) == "X1";
      }
    }
    KeywordAbsentNoMatch(c, keyword);
    AddThenSearch(Missing, c, keyword);
  }
}
