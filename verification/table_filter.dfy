/**
  The data model of the table component (column descriptors, rows, cells)
  and its first pipeline step: the global text filter.
 */
module TableData {

  /** A cell as the table sees it. `Null` stands for both `null` and
      `undefined` (including a key the row does not have). A present value
      carries its `toString()` text and its `rank`: the value's position in
      the order the sort comparator imposes on present values. */
  datatype Cell = Null | Value(text: string, rank: int)

  /** A row: an open-ended mapping from property names to values. */
  type Row = map<string, Cell>

  /** A column descriptor `{key, label, sortable}`; `label` is a reserved word in Dafny, hence `caption`. */
  datatype Header = Header(key: string, caption: string, sortable: bool)

  /** `row[key]`, where a missing property reads as `undefined`. */
  function CellAt(row: Row, key: string): (c: Cell)
    ensures key !in row ==> c.Null?
    ensures key in row ==> c == row[key]
  {
    if key in row then row[key] else Null
  }
}

module TableFilter {
  import opened Text
  import opened Seqs
  import opened TableData

  /** `value?.toString().toLowerCase().includes(filterText.toLowerCase())`:
      a null or undefined value never matches. */
  predicate CellMatches(c: Cell, filterText: string)
  {
    c.Value? && Includes(Lower(c.text), Lower(filterText))
  }

  /** Some declared column of the row matches the filter text. */
  predicate RowMatches(row: Row, headers: seq<Header>, filterText: string)
  {
    exists i :: 0 <= i < |headers| && CellMatches(CellAt(row, headers[i].key), filterText)
  }

  /** The `filteredData` step: pass-through when filtering is off or the text
      is empty, otherwise the matching rows in their original order. */
  function FilteredData(data: seq<Row>, headers: seq<Header>, filterable: bool, filterText: string): (r: seq<Row>)
    ensures !filterable || filterText == "" ==> r == data
    ensures filterable && filterText != "" ==>
      && IsSubseq(r, data)
      && (forall row :: row in r <==> row in data && RowMatches(row, headers, filterText))
      && (forall row :: multiset(r)[row] == if RowMatches(row, headers, filterText) then multiset(data)[row] else 0)
  {
    if !filterable || filterText == "" then data
    else Filter(data, row => RowMatches(row, headers, filterText))
  }

  /** A kept row's match is a plain substring occurrence of the lower-cased
      filter text inside the lower-cased text of one of its declared cells. */
  lemma KeptRowHasOccurrence(data: seq<Row>, headers: seq<Header>, filterText: string, row: Row)
    requires filterText != ""
    requires row in FilteredData(data, headers, true, filterText)
    ensures exists i, k :: 0 <= i < |headers| && CellAt(row, headers[i].key).Value?
                        && OccursAt(Lower(CellAt(row, headers[i].key).text), Lower(filterText), k)
  {
    var i :| 0 <= i < |headers| && CellMatches(CellAt(row, headers[i].key), filterText);
    IncludesIffOccurs(Lower(CellAt(row, headers[i].key).text), Lower(filterText));
  }

  /** A row whose declared cells are all null or undefined is dropped by any
      non-empty filter text. */
  lemma AllNullRowDropped(data: seq<Row>, headers: seq<Header>, filterText: string, row: Row)
    requires filterText != ""
    requires forall i :: 0 <= i < |headers| ==> CellAt(row, headers[i].key).Null?
    ensures row !in FilteredData(data, headers, true, filterText)
  {
  }

  /** Filtering `{name: "Bob"}`, `{name: "Alice"}` by "ali" keeps only Alice. */
  lemma AliceExample()
    ensures var bob, alice := map["name" := Value("Bob", 0)], map["name" := Value("Alice", 1)];
      FilteredData([bob, alice], [Header("name", "Name", true)], true, "ali") == [alice]
  {
    var bob, alice := map["name" := Value("Bob", 0)], map["name" := Value("Alice", 1)];
    var headers := [Header("name", "Name", true)];
    AliceMatches(bob, alice, headers);
    FilterCons(alice, [], row => RowMatches(row, headers, "ali"));
    FilterCons(bob, [alice], row => RowMatches(row, headers, "ali"));
    assert [alice] + [] == [alice] && [bob] + [alice] == [bob, alice];
  }

  lemma AliceMatches(bob: Row, alice: Row, headers: seq<Header>)
    requires headers == [Header("name", "Name", true)]
    requires bob == map["name" := Value("Bob", 0)] && alice == map["name" := Value("Alice", 1)]
    ensures RowMatches(alice, headers, "ali") && !RowMatches(bob, headers, "ali")
  {
    assert Lower("ali") == "ali";
    assert Lower("Alice") == "alice";
    assert Lower("Bob") == "bob";
    assert !Includes("bob", "ali") by {
      assert "bob"[1..] == "ob" && "ali"[0] != "bob"[0];
      ShorterExcludes("ob", "ali");
    }
    assert CellMatches(CellAt(alice, headers[0].key), "ali");
  }
}
