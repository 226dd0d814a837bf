/**
  The table's sort step: the tri-state click machine over the sort
  configuration, the comparator with its null policy, and the sorted view.
 */
module TableSort {
  import opened Optional
  import opened Seqs
  import opened TableData

  datatype Direction = Asc | Desc

  /** `sortConfig = {key, direction}`, both `null` when the table is unsorted. */
  datatype SortConfig = SortConfig(key: Option<string>, direction: Option<Direction>)

  const Unsorted: SortConfig := SortConfig(None, None)

  /** The key is null exactly when the direction is null. */
  predicate WellFormed(c: SortConfig)
  {
    c.key.None? <==> c.direction.None?
  }

  /** `handleSort(key)`: a click on a sortable header. */
  function HandleSort(c: SortConfig, key: string): (r: SortConfig)
    ensures WellFormed(r)
    ensures r.key.None? || r.key == Some(key)
    ensures c.key != Some(key) ==> r == SortConfig(Some(key), Some(Asc))
    ensures c == SortConfig(Some(key), Some(Asc)) ==> r == SortConfig(Some(key), Some(Desc))
    ensures c == SortConfig(Some(key), Some(Desc)) ==> r == Unsorted
  {
    if c.key == Some(key) && c.direction == Some(Asc) then SortConfig(Some(key), Some(Desc))
    else if c.key == Some(key) && c.direction == Some(Desc) then Unsorted
    else SortConfig(Some(key), Some(Asc))
  }

  /** Three clicks on one column: a well-formed configuration already sorted
      by that column comes back to itself; from anything else (unsorted
      included) the table ends unsorted. */
  lemma ThreeClicks(c: SortConfig, key: string)
    ensures HandleSort(HandleSort(HandleSort(c, key), key), key)
         == if c.key == Some(key) && WellFormed(c) then c else Unsorted
  {
    var a := HandleSort(c, key);
    var b := HandleSort(a, key);
    if c.key == Some(key) && c.direction == Some(Asc) {
      assert a == SortConfig(Some(key), Some(Desc));
      assert b == Unsorted;
    } else if c.key == Some(key) && c.direction == Some(Desc) {
      assert a == Unsorted;
    } else {
      assert a == SortConfig(Some(key), Some(Asc));
      assert c.key == Some(key) ==> c.direction.None? by {
        if c.direction.Some? {
          assert c.direction.value == Asc || c.direction.value == Desc;
        }
      }
    }
  }

  /** The direction the comparator uses: anything but `"asc"` sorts descending. */
  function DirectionOf(c: SortConfig): Direction
  {
    if c.direction == Some(Asc) then Asc else Desc
  }

  /** The comparator passed to `Array.prototype.sort`, with the value order
      abstracted to ranks: a null `a` is always "greater", then a null `b`,
      otherwise the rank difference, negated for a descending sort. */
  function Compare(a: Row, b: Row, key: string, dir: Direction): int
  {
    var x := CellAt(a, key);
    var y := CellAt(b, key);
    if x.Null? then 1
    else if y.Null? then -1
    else if dir == Asc then x.rank - y.rank
    else y.rank - x.rank
  }

  /** The comparator is not antisymmetric: two null values each claim to
      come after the other. */
  lemma CompareNullsInconsistent(a: Row, b: Row, key: string, dir: Direction)
    requires CellAt(a, key).Null? && CellAt(b, key).Null?
    ensures Compare(a, b, key, dir) > 0 && Compare(b, a, key, dir) > 0
  {
  }

  predicate Present(row: Row, key: string) { CellAt(row, key).Value? }

  /** `a` may precede `b`: the comparator does not put `a` after `b`. */
  predicate Le(a: Row, b: Row, key: string, dir: Direction)
  {
    Compare(a, b, key, dir) <= 0
  }

  lemma LeTotal(a: Row, b: Row, key: string, dir: Direction)
    requires Present(a, key) && Present(b, key)
    ensures Le(a, b, key, dir) || Le(b, a, key, dir)
  {
  }

  lemma LeTransitive(a: Row, b: Row, c: Row, key: string, dir: Direction)
    requires Present(a, key) && Present(b, key) && Present(c, key)
    requires Le(a, b, key, dir) && Le(b, c, key, dir)
    ensures Le(a, c, key, dir)
  {
  }

  /** Rows with a present value at `key` appear in comparator order. */
  predicate OrderedPresent(s: seq<Row>, key: string, dir: Direction)
  {
    forall i, j :: 0 <= i < j < |s| && Present(s[i], key) && Present(s[j], key) ==>
      Le(s[i], s[j], key, dir)
  }

  /** No present value follows a null one. */
  predicate NullsLast(s: seq<Row>, key: string)
  {
    forall i, j :: 0 <= i < j < |s| && !Present(s[i], key) ==> !Present(s[j], key)
  }

  predicate AllPresent(s: seq<Row>, key: string)
  {
    forall i :: 0 <= i < |s| ==> Present(s[i], key)
  }

  /** Every pair of rows appears in comparator order. */
  predicate Sorted(s: seq<Row>, key: string, dir: Direction)
  {
    forall i, j :: 0 <= i < j < |s| ==> Le(s[i], s[j], key, dir)
  }

  /** Neighbouring rows appear in comparator order. */
  predicate AdjacentSorted(s: seq<Row>, key: string, dir: Direction)
  {
    forall i :: 0 < i < |s| ==> Le(s[i - 1], s[i], key, dir)
  }

  /** For present values the comparator's order is transitive, so ordered
      neighbours give an ordered sequence. */
  lemma {:induction false} AdjacentSortedIsSorted(s: seq<Row>, key: string, dir: Direction)
    requires AllPresent(s, key) && AdjacentSorted(s, key, dir)
    ensures Sorted(s, key, dir)
    decreases |s|
  {
    if |s| > 1 {
      var t := s[1..];
      assert AllPresent(t, key) && AdjacentSorted(t, key, dir) by {
        forall i | 0 < i < |t| ensures Le(t[i - 1], t[i], key, dir) {
          assert t[i - 1] == s[i] && t[i] == s[i + 1];
        }
      }
      AdjacentSortedIsSorted(t, key, dir);
      forall i, j | 0 <= i < j < |s| ensures Le(s[i], s[j], key, dir) {
        if i == 0 {
          if j > 1 {
            assert Le(t[0], t[j - 1], key, dir);
            LeTransitive(s[0], s[1], s[j], key, dir);
          }
        } else {
          assert s[i] == t[i - 1] && s[j] == t[j - 1];
        }
      }
    }
  }

  /** Places `x` before the first row it does not compare after. */
  function Insert(x: Row, s: seq<Row>, key: string, dir: Direction): (r: seq<Row>)
    ensures multiset(r) == multiset(s) + multiset{x}
    decreases |s|
  {
    if s == [] then [x]
    else if Le(x, s[0], key, dir) then [x] + s
    else
      assert s == [s[0]] + s[1..];
      [s[0]] + Insert(x, s[1..], key, dir)
  }

  /** The tail of a sorted run of present rows is one too. */
  lemma TailSorted(s: seq<Row>, key: string, dir: Direction)
    requires s != [] && AllPresent(s, key) && AdjacentSorted(s, key, dir)
    ensures AllPresent(s[1..], key) && AdjacentSorted(s[1..], key, dir)
  {
    var t := s[1..];
    forall i | 0 < i < |t| ensures Le(t[i - 1], t[i], key, dir) {
      assert t[i - 1] == s[i] && t[i] == s[i + 1];
    }
  }

  /** Putting a present row in front of a sorted run it precedes keeps it sorted. */
  lemma ConsSorted(a: Row, t: seq<Row>, key: string, dir: Direction)
    requires Present(a, key) && AllPresent(t, key) && AdjacentSorted(t, key, dir)
    requires t != [] ==> Le(a, t[0], key, dir)
    ensures AllPresent([a] + t, key) && AdjacentSorted([a] + t, key, dir)
  {
    var r := [a] + t;
    forall i | 0 < i < |r| ensures Le(r[i - 1], r[i], key, dir) {
      if i > 1 {
        assert r[i - 1] == t[i - 2] && r[i] == t[i - 1];
      }
    }
  }

  /** Inserting a present row into a sorted run of present rows keeps it
      sorted; the run's new head is `x` or the old head. */
  lemma {:induction false} InsertSorted(x: Row, s: seq<Row>, key: string, dir: Direction)
    requires Present(x, key) && AllPresent(s, key) && AdjacentSorted(s, key, dir)
    ensures var r := Insert(x, s, key, dir);
      && AllPresent(r, key) && AdjacentSorted(r, key, dir)
      && (r[0] == x || (s != [] && r[0] == s[0]))
    decreases |s|
  {
    if s == [] {
      ConsSorted(x, s, key, dir);
    } else if Le(x, s[0], key, dir) {
      ConsSorted(x, s, key, dir);
    } else {
      var t := s[1..];
      TailSorted(s, key, dir);
      InsertSorted(x, t, key, dir);
      var rest := Insert(x, t, key, dir);
      if rest[0] == x {
        LeTotal(x, s[0], key, dir);
      } else {
        assert rest[0] == s[1];
      }
      ConsSorted(s[0], rest, key, dir);
    }
  }

  /** Insertion sort. */
  function SortPresent(s: seq<Row>, key: string, dir: Direction): (r: seq<Row>)
    ensures multiset(r) == multiset(s)
    decreases |s|
  {
    if s == [] then []
    else
      assert s == [s[0]] + s[1..];
      Insert(s[0], SortPresent(s[1..], key, dir), key, dir)
  }

  /** Insertion sort of present rows yields a sorted run of present rows. */
  lemma {:induction false} SortPresentSorted(s: seq<Row>, key: string, dir: Direction)
    requires AllPresent(s, key)
    ensures AllPresent(SortPresent(s, key, dir), key) && AdjacentSorted(SortPresent(s, key, dir), key, dir)
    decreases |s|
  {
    if s != [] {
      var t := s[1..];
      assert AllPresent(t, key) by {
        forall i | 0 <= i < |t| ensures Present(t[i], key) {
          assert t[i] == s[i + 1];
        }
      }
      SortPresentSorted(t, key, dir);
      InsertSorted(s[0], SortPresent(t, key, dir), key, dir);
    }
  }

  /** The filters that split rows by whether their value at `key` is present. */
  function PresentAt(key: string): Row -> bool { row => Present(row, key) }

  function NullAt(key: string): Row -> bool { row => !Present(row, key) }

  /** A sort under the source's comparator: the present rows in order, then
      the null rows. Because the comparator answers `1` for two nulls, the
      order among null rows is not promised, only their position. */
  function SortRows(rows: seq<Row>, key: string, dir: Direction): (r: seq<Row>)
    ensures multiset(r) == multiset(rows)
    ensures OrderedPresent(r, key, dir)
    ensures NullsLast(r, key)
  {
    SortRowsCorrect(rows, key, dir);
    SortPresent(Filter(rows, PresentAt(key)), key, dir) + Filter(rows, NullAt(key))
  }

  lemma SortRowsCorrect(rows: seq<Row>, key: string, dir: Direction)
    ensures var r := SortPresent(Filter(rows, PresentAt(key)), key, dir) + Filter(rows, NullAt(key));
      multiset(r) == multiset(rows) && OrderedPresent(r, key, dir) && NullsLast(r, key)
  {
    var present := Filter(rows, PresentAt(key));
    var nulls := Filter(rows, NullAt(key));
    FilterPartition(rows, PresentAt(key), NullAt(key));
    var sorted := SortPresent(present, key, dir);
    assert AllPresent(present, key) by {
      forall i | 0 <= i < |present| ensures Present(present[i], key) {
        assert present[i] in present;
      }
    }
    SortPresentSorted(present, key, dir);
    AdjacentSortedIsSorted(sorted, key, dir);
    forall row | row in nulls ensures !Present(row, key) {
      assert NullAt(key)(row);
    }
    ConcatOrdered(sorted, nulls, key, dir);
  }

  /** A sorted run of present rows followed by null rows satisfies both
      ordering promises. */
  lemma ConcatOrdered(sorted: seq<Row>, nulls: seq<Row>, key: string, dir: Direction)
    requires AllPresent(sorted, key) && Sorted(sorted, key, dir)
    requires forall row :: row in nulls ==> !Present(row, key)
    ensures OrderedPresent(sorted + nulls, key, dir)
    ensures NullsLast(sorted + nulls, key)
  {
    var r := sorted + nulls;
    forall i | |sorted| <= i < |r| ensures !Present(r[i], key) {
      assert r[i] == nulls[i - |sorted|];
    }
  }

  /** The rows whose value at `key` is present with rank `v`: the rows the
      comparator answers 0 for among themselves. */
  function HasRank(key: string, v: int): Row -> bool
  {
    row => Present(row, key) && CellAt(row, key).rank == v
  }

  /** Inserting `x` passes over no row of the same rank as `x`. */
  lemma {:induction false} InsertStable(x: Row, t: seq<Row>, key: string, dir: Direction, v: int)
    ensures Filter(Insert(x, t, key, dir), HasRank(key, v))
         == (if HasRank(key, v)(x) then [x] else []) + Filter(t, HasRank(key, v))
    decreases |t|
  {
    var p := HasRank(key, v);
    if t == [] {
      FilterCons(x, [], p);
    } else if Le(x, t[0], key, dir) {
      FilterCons(x, t, p);
    } else {
      var rest := Insert(x, t[1..], key, dir);
      assert Insert(x, t, key, dir) == [t[0]] + rest;
      assert t == [t[0]] + t[1..];
      InsertStable(x, t[1..], key, dir, v);
      PassOverStable(x, t[0], rest, t[1..], key, dir, v);
    }
  }

  /** Passing over a row `y` that `x` compares after: `y` does not share
      `x`'s rank, so the rows of that rank keep their order. */
  lemma PassOverStable(x: Row, y: Row, rest: seq<Row>, tail: seq<Row>, key: string, dir: Direction, v: int)
    requires !Le(x, y, key, dir)
    requires Filter(rest, HasRank(key, v)) == (if HasRank(key, v)(x) then [x] else []) + Filter(tail, HasRank(key, v))
    ensures Filter([y] + rest, HasRank(key, v)) == (if HasRank(key, v)(x) then [x] else []) + Filter([y] + tail, HasRank(key, v))
  {
    var p := HasRank(key, v);
    if p(x) {
      PassedRowOtherRank(x, y, key, dir, v);
    }
    FilterPrepend(y, rest, tail, p, if p(x) then [x] else []);
  }

  /** A row that `x` compares after does not share `x`'s rank. */
  lemma PassedRowOtherRank(x: Row, y: Row, key: string, dir: Direction, v: int)
    requires HasRank(key, v)(x) && !Le(x, y, key, dir)
    ensures !HasRank(key, v)(y)
  {
  }

  /** Insertion sort keeps the rows of each rank in their input order. */
  lemma {:induction false} SortPresentStable(s: seq<Row>, key: string, dir: Direction, v: int)
    ensures Filter(SortPresent(s, key, dir), HasRank(key, v)) == Filter(s, HasRank(key, v))
    decreases |s|
  {
    if s != [] {
      assert s == [s[0]] + s[1..];
      SortPresentStable(s[1..], key, dir, v);
      InsertStable(s[0], SortPresent(s[1..], key, dir), key, dir, v);
      FilterCons(s[0], s[1..], HasRank(key, v));
    }
  }

  /** The sort is stable, as `Array.prototype.sort` is required to be: rows
      that compare equal (present values of the same rank) keep their
      relative order. */
  lemma SortRowsStable(rows: seq<Row>, key: string, dir: Direction, v: int)
    ensures Filter(SortRows(rows, key, dir), HasRank(key, v)) == Filter(rows, HasRank(key, v))
  {
    var p := HasRank(key, v);
    var present := Filter(rows, PresentAt(key));
    var nulls := Filter(rows, NullAt(key));
    assert SortRows(rows, key, dir) == SortPresent(present, key, dir) + nulls;
    FilterAppend(SortPresent(present, key, dir), nulls, p);
    SortPresentStable(present, key, dir, v);
    FilterNarrows(rows, p, PresentAt(key));
    forall i | 0 <= i < |nulls| ensures !p(nulls[i]) {
      assert nulls[i] in nulls;
    }
    FilterNone(nulls, p);
  }

  /** The `sortedData` step. With no key (or the empty key, which JavaScript
      treats as false) the filtered rows come through untouched; otherwise the
      result rearranges a copy of them under the comparator. */
  function SortedData(filtered: seq<Row>, c: SortConfig): (r: seq<Row>)
    ensures c.key.None? || c.key == Some("") ==> r == filtered
    ensures multiset(r) == multiset(filtered)
    ensures c.key.Some? && c.key.value != "" ==>
      OrderedPresent(r, c.key.value, DirectionOf(c)) && NullsLast(r, c.key.value)
  {
    if c.key.None? || c.key.value == "" then filtered
    else SortRows(filtered, c.key.value, DirectionOf(c))
  }

  /** The sorted view keeps rows of equal rank in their filtered order. */
  lemma SortedDataStable(filtered: seq<Row>, c: SortConfig, v: int)
    requires c.key.Some? && c.key.value != ""
    ensures Filter(SortedData(filtered, c), HasRank(c.key.value, v)) == Filter(filtered, HasRank(c.key.value, v))
  {
    SortRowsStable(filtered, c.key.value, DirectionOf(c), v);
  }

  /** In both directions every present value precedes every null value in
      the active column. */
  lemma PresentBeforeNull(filtered: seq<Row>, c: SortConfig, i: int, j: int)
    requires c.key.Some? && c.key.value != ""
    requires 0 <= i < |SortedData(filtered, c)| && 0 <= j < |SortedData(filtered, c)|
    requires Present(SortedData(filtered, c)[i], c.key.value)
    requires !Present(SortedData(filtered, c)[j], c.key.value)
    ensures i < j
  {
  }

  /** Ascending order means non-decreasing ranks and descending order
      non-increasing ranks among the present values. */
  lemma SortedRanks(filtered: seq<Row>, c: SortConfig, i: int, j: int)
    requires c.key.Some? && c.key.value != ""
    requires 0 <= i < j < |SortedData(filtered, c)|
    requires Present(SortedData(filtered, c)[i], c.key.value)
    requires Present(SortedData(filtered, c)[j], c.key.value)
    ensures var r := SortedData(filtered, c);
            var k := c.key.value;
            if c.direction == Some(Asc) then CellAt(r[i], k).rank <= CellAt(r[j], k).rank
            else CellAt(r[i], k).rank >= CellAt(r[j], k).rank
  {
  }

  /** Rows `{n: 3}`, `{n: null}`, `{n: 1}`: ascending gives 1, 3, null and
      descending gives 3, 1, null. */
  lemma NullsSinkExample()
    ensures var r3, rn, r1 := map["n" := Value("3", 3)], map["n" := Null], map["n" := Value("1", 1)];
      && SortedData([r3, rn, r1], SortConfig(Some("n"), Some(Asc))) == [r1, r3, rn]
      && SortedData([r3, rn, r1], SortConfig(Some("n"), Some(Desc))) == [r3, r1, rn]
  {
    var r3, rn, r1 := map["n" := Value("3", 3)], map["n" := Null], map["n" := Value("1", 1)];
    assert CellAt(r3, "n") == Value("3", 3) && CellAt(rn, "n") == Null && CellAt(r1, "n") == Value("1", 1);
    ExampleSort(r3, rn, r1);
  }

  lemma ExampleSort(r3: Row, rn: Row, r1: Row)
    requires CellAt(r3, "n") == Value("3", 3) && CellAt(rn, "n") == Null && CellAt(r1, "n") == Value("1", 1)
    ensures SortedData([r3, rn, r1], SortConfig(Some("n"), Some(Asc))) == [r1, r3, rn]
    ensures SortedData([r3, rn, r1], SortConfig(Some("n"), Some(Desc))) == [r3, r1, rn]
  {
    SortedDataByKey([r3, rn, r1], "n", Asc);
    SortedDataByKey([r3, rn, r1], "n", Desc);
    ExampleSortIn(r3, rn, r1, Asc);
    ExampleSortIn(r3, rn, r1, Desc);
  }

  /** With a non-empty key, the sorted view is `SortRows` in the configured direction. */
  lemma SortedDataByKey(filtered: seq<Row>, key: string, dir: Direction)
    requires key != ""
    ensures SortedData(filtered, SortConfig(Some(key), Some(dir))) == SortRows(filtered, key, dir)
  {
  }

  lemma ExampleSortIn(r3: Row, rn: Row, r1: Row, dir: Direction)
    requires CellAt(r3, "n") == Value("3", 3) && CellAt(rn, "n") == Null && CellAt(r1, "n") == Value("1", 1)
    ensures SortRows([r3, rn, r1], "n", dir) == if dir == Asc then [r1, r3, rn] else [r3, r1, rn]
  {
    var present := Filter([r3, rn, r1], PresentAt("n"));
    var nulls := Filter([r3, rn, r1], NullAt("n"));
    SortRowsSplits([r3, rn, r1], "n", dir);
    ExamplePresent(r3, rn, r1);
    ExampleNulls(r3, rn, r1);
    ExampleInsert(r3, r1);
    ExampleConcat(r3, rn, r1, SortPresent(present, "n", dir), nulls, dir);
  }

  lemma ExampleConcat(r3: Row, rn: Row, r1: Row, sorted: seq<Row>, nulls: seq<Row>, dir: Direction)
    requires sorted == if dir == Asc then [r1, r3] else [r3, r1]
    requires nulls == [rn]
    ensures sorted + nulls == if dir == Asc then [r1, r3, rn] else [r3, r1, rn]
  {
  }

  /** `SortRows` sorts the present rows and appends the null rows in input order. */
  lemma SortRowsSplits(rows: seq<Row>, key: string, dir: Direction)
    ensures SortRows(rows, key, dir) == SortPresent(Filter(rows, PresentAt(key)), key, dir) + Filter(rows, NullAt(key))
  {
  }

  lemma ExamplePresent(r3: Row, rn: Row, r1: Row)
    requires Present(r3, "n") && !Present(rn, "n") && Present(r1, "n")
    ensures Filter([r3, rn, r1], PresentAt("n")) == [r3, r1]
  {
    ExamplePresentTail(rn, r1);
    FilterCons(r3, [rn, r1], PresentAt("n"));
    assert [r3] + [rn, r1] == [r3, rn, r1] && [r3] + [r1] == [r3, r1];
  }

  lemma ExamplePresentTail(rn: Row, r1: Row)
    requires !Present(rn, "n") && Present(r1, "n")
    ensures Filter([rn, r1], PresentAt("n")) == [r1]
  {
    FilterCons(r1, [], PresentAt("n"));
    FilterCons(rn, [r1], PresentAt("n"));
    assert [r1] + [] == [r1] && [rn] + [r1] == [rn, r1];
  }

  lemma ExampleNulls(r3: Row, rn: Row, r1: Row)
    requires Present(r3, "n") && !Present(rn, "n") && Present(r1, "n")
    ensures Filter([r3, rn, r1], NullAt("n")) == [rn]
  {
    var q := NullAt("n");
    FilterCons(r1, [], q);
    FilterCons(rn, [r1], q);
    FilterCons(r3, [rn, r1], q);
    assert [r1] + [] == [r1] && [rn] + [r1] == [rn, r1] && [r3] + [rn, r1] == [r3, rn, r1];
  }

  lemma ExampleInsert(r3: Row, r1: Row)
    requires CellAt(r3, "n") == Value("3", 3) && CellAt(r1, "n") == Value("1", 1)
    ensures SortPresent([r3, r1], "n", Asc) == [r1, r3]
    ensures SortPresent([r3, r1], "n", Desc) == [r3, r1]
  {
    assert [r3, r1][1..] == [r1] && [r1][1..] == [];
    assert SortPresent([r1], "n", Asc) == [r1];
    assert SortPresent([r1], "n", Desc) == [r1];
  }
}
