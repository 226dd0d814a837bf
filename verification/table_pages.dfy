/**
  The table's pagination step: when it is active, the page slice, the page
  count, the pager's visibility and its button states.
 */
module TablePages {
  import opened Optional

  /** `pagination != null && pagination > 5`. */
  predicate IsPaginated(pagination: Option<int>)
  {
    pagination.Some? && pagination.value > 5
  }

  /** How `Array.prototype.slice` resolves one index argument against a length:
      a negative index counts from the end, and the result is clamped to
      `[0, len]`. */
  function SliceIndex(i: int, len: nat): (r: nat)
    ensures r <= len
    ensures 0 <= i ==> r == if i < len then i else len
  {
    if i < 0 then (if len + i < 0 then 0 else len + i)
    else if i < len then i
    else len
  }

  /** `s.slice(start, end)`. */
  function Slice<T>(s: seq<T>, start: int, end: int): (r: seq<T>)
    ensures |r| <= |s|
    ensures 0 <= start <= end ==>
      var lo := if start < |s| then start else |s|;
      var hi := if end < |s| then end else |s|;
      r == s[lo..hi]
  {
    var lo := SliceIndex(start, |s|);
    var hi := SliceIndex(end, |s|);
    if hi <= lo then [] else s[lo..hi]
  }

  /** The `paginatedData` step: everything when pagination is off, otherwise
      the `currentPage`-th run of `pagination` rows (pages start at 1). */
  function PaginatedData<T>(sorted: seq<T>, currentPage: int, pagination: Option<int>): (r: seq<T>)
    ensures !IsPaginated(pagination) ==> r == sorted
    ensures IsPaginated(pagination) && currentPage >= 1 ==>
      var n := pagination.value;
      var start := (currentPage - 1) * n;
      && |r| <= n
      && |r| == (if start >= |sorted| then 0 else if |sorted| - start < n then |sorted| - start else n)
      && forall k :: 0 <= k < |r| ==> r[k] == sorted[start + k]
  {
    if !IsPaginated(pagination) then sorted
    else
      var start := (currentPage - 1) * pagination.value;
      Slice(sorted, start, start + pagination.value)
  }

  /** `Math.ceil(count / pagination)` when paginated, `1` otherwise. */
  function TotalPages(count: nat, pagination: Option<int>): (r: nat)
    ensures !IsPaginated(pagination) ==> r == 1
    ensures IsPaginated(pagination) ==>
      count <= r * pagination.value && (r == 0 || (r - 1) * pagination.value < count)
    ensures IsPaginated(pagination) ==> (r == 0 <==> count == 0)
  {
    if !IsPaginated(pagination) then 1
    else
      var n := pagination.value;
      var r := (count + n - 1) / n;
      CeilBounds(count, n);
      r
  }

  lemma CeilBounds(count: nat, n: int)
    requires n > 0
    ensures count <= ((count + n - 1) / n) * n
    ensures (count + n - 1) / n == 0 || ((count + n - 1) / n - 1) * n < count
  {
    var q := (count + n - 1) / n;
    var m := (count + n - 1) % n;
    assert count + n - 1 == q * n + m;
  }

  /** The pager renders only for an active pagination with several pages. */
  predicate ShowPager(pagination: Option<int>, totalPages: nat)
  {
    IsPaginated(pagination) && totalPages > 1
  }

  /** The pager shows exactly when pagination is active and the rows do not
      fit on one page. */
  lemma ShowPagerIffOverflow(count: nat, pagination: Option<int>)
    ensures ShowPager(pagination, TotalPages(count, pagination))
        <==> IsPaginated(pagination) && count > pagination.value
  {
    if IsPaginated(pagination) {
      var n := pagination.value;
      var t := TotalPages(count, pagination);
      if t > 1 {
        MulAtLeast(t - 1, n);
      } else {
        MulAtMost(t, n);
      }
    }
  }

  lemma MulAtLeast(a: int, n: int)
    requires a >= 1 && n > 0
    ensures a * n >= n
  {
    assert a * n == (a - 1) * n + n;
  }

  lemma MulAtMost(a: int, n: int)
    requires 0 <= a <= 1 && n > 0
    ensures a * n <= n
  {
  }

  /** "Previous" is disabled on the first page. */
  predicate PreviousDisabled(currentPage: int) { currentPage == 1 }

  /** "Next" is disabled on the page equal to the page count. */
  predicate NextDisabled(currentPage: int, totalPages: nat) { currentPage == totalPages }

  /** The rows of pages 1 to `k`, in page order. */
  function Pages<T>(sorted: seq<T>, n: int, k: nat): seq<T>
    requires n > 5
  {
    if k == 0 then [] else Pages(sorted, n, k - 1) + PaginatedData(sorted, k, Some(n))
  }

  function Min(a: int, b: int): int { if a < b then a else b }

  /** Page `k` is the slice from `(k - 1) * n` to `k * n`, both cut at the end. */
  lemma PageIsSlice<T>(sorted: seq<T>, n: int, k: int)
    requires n > 5 && k >= 1
    ensures 0 <= Min((k - 1) * n, |sorted|) <= Min(k * n, |sorted|)
    ensures PaginatedData(sorted, k, Some(n)) == sorted[Min((k - 1) * n, |sorted|)..Min(k * n, |sorted|)]
  {
    assert k * n == (k - 1) * n + n;
    MulAtLeast(k, n);
  }

  /** Pages 1 to `k` together are the first `k * n` rows. */
  lemma {:induction false} PagesPrefix<T>(sorted: seq<T>, n: int, k: nat)
    requires n > 5
    ensures Pages(sorted, n, k) == sorted[..Min(k * n, |sorted|)]
  {
    if k > 0 {
      PagesPrefix(sorted, n, k - 1);
      PageIsSlice(sorted, n, k);
      var lo, hi := Min((k - 1) * n, |sorted|), Min(k * n, |sorted|);
      assert sorted[..lo] + sorted[lo..hi] == sorted[..hi];
    }
  }

  /** Concatenating every page in order gives back the sorted rows exactly. */
  lemma PagesReassemble<T>(sorted: seq<T>, n: int)
    requires n > 5
    ensures Pages(sorted, n, TotalPages(|sorted|, Some(n))) == sorted
  {
    PagesPrefix(sorted, n, TotalPages(|sorted|, Some(n)));
  }

  /** The "Showing first to last of count entries" caption above a paginated
      table: on an existing page it counts exactly the rows the page shows. */
  lemma InfoRangeMatchesPage<T>(sorted: seq<T>, currentPage: int, n: int)
    requires n > 5
    requires 1 <= currentPage <= TotalPages(|sorted|, Some(n))
    ensures var first := (currentPage - 1) * n + 1;
            var last := if currentPage * n < |sorted| then currentPage * n else |sorted|;
            |PaginatedData(sorted, currentPage, Some(n))| == last - first + 1
  {
    PageIsSlice(sorted, n, currentPage);
    var t := TotalPages(|sorted|, Some(n));
    MulMono(currentPage - 1, t - 1, n);
  }

  lemma MulMono(a: int, b: int, n: int)
    requires a <= b && n > 0
    ensures a * n <= b * n
  {
    assert b * n == a * n + (b - a) * n;
  }

  /** An empty paginated table has zero pages (not one). */
  lemma EmptyHasNoPages(n: int)
    requires n > 5
    ensures TotalPages(0, Some(n)) == 0
  {
  }

  /** Page size 10 over 25 rows: three pages, the last holding rows 21 to 25. */
  lemma TwentyFiveRowsExample<T>(sorted: seq<T>)
    requires |sorted| == 25
    ensures TotalPages(|sorted|, Some(10)) == 3
    ensures PaginatedData(sorted, 3, Some(10)) == sorted[20..25]
  {
  }
}
