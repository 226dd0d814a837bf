/**
  The table component as a whole: its view state, the user events that
  change it, and the filter -> sort -> paginate pipeline derived from it.
 */
module TableView {
  import opened Optional
  import opened TableData
  import opened TableFilter
  import opened TableSort
  import opened TablePages
  import opened TableExport

  /** The configuration the caller passes in. */
  datatype TableProps = TableProps(
    headers: seq<Header>,
    data: seq<Row>,
    filterable: bool,
    pagination: Option<int>,
    exportable: bool)

  /** The component's own state. */
  datatype ViewState = ViewState(
    filterText: string,
    sort: SortConfig,
    currentPage: int,
    exportMenuOpen: bool)

  const Initial: ViewState := ViewState("", Unsorted, 1, false)

  /** What every state reachable under fixed props satisfies: a well-formed
      sort, and a current page between 1 and the page count (page 1 also
      when there are no pages at all). */
  predicate Invariant(props: TableProps, vs: ViewState)
  {
    && WellFormed(vs.sort)
    && vs.currentPage >= 1
    && (vs.currentPage == 1 || vs.currentPage <= PageCount(props, vs))
  }

  /** The rows after filtering and sorting: what the exports write. */
  function SortedRows(props: TableProps, vs: ViewState): seq<Row>
  {
    SortedData(FilteredData(props.data, props.headers, props.filterable, vs.filterText), vs.sort)
  }

  /** The rows of the body on the current page. */
  function VisibleRows(props: TableProps, vs: ViewState): seq<Row>
  {
    PaginatedData(SortedRows(props, vs), vs.currentPage, props.pagination)
  }

  function PageCount(props: TableProps, vs: ViewState): nat
  {
    TotalPages(|SortedRows(props, vs)|, props.pagination)
  }

  /** The user's interactions with the rendered table. */
  datatype Event =
    | EditFilter(text: string)      // typing in the filter box, or its clear button with ""
    | ClickHeader(column: int)      // a click on the `column`-th header cell
    | PreviousPage
    | NextPage
    | GoToPage(page: int)
    | ToggleExportMenu
    | ExportCsvClicked
    | ExportXlsClicked
    | ExportJsonClicked

  /** The state after one event. An event on a control that is not rendered
      (no filter box, no pager, a disabled button, no export menu) changes
      nothing. A change of filter text or of sort configuration resets the
      page to 1. */
  function Step(props: TableProps, vs: ViewState, ev: Event): ViewState
  {
    var total := PageCount(props, vs);
    var pager := ShowPager(props.pagination, total);
    match ev
    case EditFilter(text) =>
      if !props.filterable || text == vs.filterText then vs
      else vs.(filterText := text, currentPage := 1)
    case ClickHeader(column) =>
      if 0 <= column < |props.headers| && props.headers[column].sortable then
        vs.(sort := HandleSort(vs.sort, props.headers[column].key), currentPage := 1)
      else vs
    case PreviousPage =>
      if pager && !PreviousDisabled(vs.currentPage) then vs.(currentPage := vs.currentPage - 1) else vs
    case NextPage =>
      if pager && !NextDisabled(vs.currentPage, total) then vs.(currentPage := vs.currentPage + 1) else vs
    case GoToPage(page) =>
      if pager && 1 <= page <= total then vs.(currentPage := page) else vs
    case ToggleExportMenu =>
      if props.exportable then vs.(exportMenuOpen := !vs.exportMenuOpen) else vs
    case ExportCsvClicked =>
      if props.exportable && vs.exportMenuOpen then vs.(exportMenuOpen := false) else vs
    case ExportXlsClicked =>
      if props.exportable && vs.exportMenuOpen then vs.(exportMenuOpen := false) else vs
    case ExportJsonClicked =>
      if props.exportable && vs.exportMenuOpen then vs.(exportMenuOpen := false) else vs
  }

  /** Every event keeps the sort configuration well formed and the page
      within the page count; a changed filter text or sort configuration puts
      the table back on page 1; the filter text changes only by editing it. */
  lemma StepProperties(props: TableProps, vs: ViewState, ev: Event)
    requires Invariant(props, vs)
    ensures var r := Step(props, vs, ev);
      && Invariant(props, r)
      && (r.filterText != vs.filterText || r.sort != vs.sort ==> r.currentPage == 1)
      && (r.filterText != vs.filterText ==> ev == EditFilter(r.filterText))
  {
  }

  /** "Previous" on page 1 and "Next" on the last page leave the state alone. */
  lemma PagerBounds(props: TableProps, vs: ViewState)
    ensures vs.currentPage == 1 ==> Step(props, vs, PreviousPage) == vs
    ensures vs.currentPage == PageCount(props, vs) ==> Step(props, vs, NextPage) == vs
  {
  }

  /** Any event sequence from the initial state keeps the invariant. */
  function Run(props: TableProps, vs: ViewState, events: seq<Event>): ViewState
    decreases |events|
  {
    if events == [] then vs else Run(props, Step(props, vs, events[0]), events[1..])
  }

  lemma {:induction false} RunPreservesInvariant(props: TableProps, vs: ViewState, events: seq<Event>)
    requires Invariant(props, vs)
    ensures Invariant(props, Run(props, vs, events))
    decreases |events|
  {
    if events != [] {
      StepProperties(props, vs, events[0]);
      RunPreservesInvariant(props, Step(props, vs, events[0]), events[1..]);
    }
  }

  /** From the initial state, no event sequence leaves the table on a page
      past the page count, except page 1 of a table with no rows. */
  lemma ReachablePageInRange(props: TableProps, events: seq<Event>)
    ensures var r := Run(props, Initial, events);
      && Invariant(props, r)
      && (r.currentPage > PageCount(props, r) ==> r.currentPage == 1 && SortedRows(props, r) == [])
  {
    RunPreservesInvariant(props, Initial, events);
  }

  /** Every page in order together is the full sorted view, so the CSV of
      all pages is the CSV of the sorted rows. */
  lemma ExportCoversEveryPage(props: TableProps, vs: ViewState)
    requires IsPaginated(props.pagination)
    ensures ExportCsv(props.headers, Pages(SortedRows(props, vs), props.pagination.value, PageCount(props, vs)))
         == ExportCsv(props.headers, SortedRows(props, vs))
  {
    PagesReassemble(SortedRows(props, vs), props.pagination.value);
  }

  /** The page number is not clamped when the rows shrink: a page past the
      last one shows no rows, so the empty-table message appears. */
  lemma StalePageShowsNothing(props: TableProps, vs: ViewState)
    requires IsPaginated(props.pagination)
    requires vs.currentPage > PageCount(props, vs)
    ensures VisibleRows(props, vs) == []
  {
    var n := props.pagination.value;
    var rows := SortedRows(props, vs);
    PageIsSlice(rows, n, vs.currentPage);
    MulMono(PageCount(props, vs), vs.currentPage - 1, n);
  }

  /** The file an export button produces. The JSON file is represented by the
      rows it serialises. */
  datatype ExportFile =
    | CsvFile(text: string)
    | XlsFile(text: string)
    | JsonFile(rows: seq<Row>)

  /** What a click exports: only a rendered export button (export enabled,
      menu open) produces a file, and every file is built from the filtered,
      sorted rows, never from the page on screen. */
  function Exported(props: TableProps, vs: ViewState, ev: Event): (r: Option<ExportFile>)
    ensures r.Some? <==> props.exportable && vs.exportMenuOpen
                         && (ev.ExportCsvClicked? || ev.ExportXlsClicked? || ev.ExportJsonClicked?)
    ensures r.Some? && ev.ExportCsvClicked? ==> r.value == CsvFile(ExportCsv(props.headers, SortedRows(props, vs)))
    ensures r.Some? && ev.ExportXlsClicked? ==> r.value == XlsFile(ExportXls(props.headers, SortedRows(props, vs)))
    ensures r.Some? && ev.ExportJsonClicked? ==> r.value == JsonFile(SortedRows(props, vs))
  {
    if !props.exportable || !vs.exportMenuOpen then None
    else match ev
      case ExportCsvClicked => Some(CsvFile(ExportCsv(props.headers, SortedRows(props, vs))))
      case ExportXlsClicked => Some(XlsFile(ExportXls(props.headers, SortedRows(props, vs))))
      case ExportJsonClicked => Some(JsonFile(SortedRows(props, vs)))
      case _ => None
  }

  /** The exported file does not depend on the current page, and an export
      click closes the menu it was made from. */
  lemma ExportIgnoresPage(props: TableProps, vs: ViewState, ev: Event, page: int)
    ensures Exported(props, vs.(currentPage := page), ev) == Exported(props, vs, ev)
    ensures Exported(props, vs, ev).Some? ==> !Step(props, vs, ev).exportMenuOpen
  {
  }

  /** On a paginated table, the CSV file is the CSV of every page in order,
      not of the page on screen. */
  lemma ExportWritesEveryPage(props: TableProps, vs: ViewState)
    requires IsPaginated(props.pagination) && props.exportable && vs.exportMenuOpen
    ensures Exported(props, vs, ExportCsvClicked)
         == Some(CsvFile(ExportCsv(props.headers, Pages(SortedRows(props, vs), props.pagination.value, PageCount(props, vs)))))
  {
    ExportCoversEveryPage(props, vs);
  }
}
