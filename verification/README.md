# ITam UI components — a Dafny model

ITam is a React front end for IT asset management. This project models the
logic inside six of its components and proves properties of it:

- **UITable**: the data table.
  - The pipeline from `data` to the rendered page is filter → sort → paginate.
  - A header click runs a three-state sort cycle: ascending, descending, unsorted.
  - The pager shows only on an active pagination with more than one page.
  - The CSV, Excel and JSON exports write the filtered, sorted rows, never only the page on screen (`TableView.Exported`, `TableView.ExportIgnoresPage`).
  - The view state (filter text, sort configuration, current page, export
    menu) changes under user events.
- **UIDropdownlist**:
  - option filtering by label;
  - the displayed selection text;
  - the open / filter-text state of the custom widget: toggle, select, outside
    click, and the "no results" view.
- **UICheckbox**: the checked state, and what the change handler emits. In
  multi-choice mode it emits the updated value list; in single mode it
  forwards the event.
- **UserWidget**:
  - the initials shown when there is no avatar;
  - the open/closed state of the user menu.
- **MainMenu** and **LeftMenu**:
  - the active-route rule: an exact match for `/`, a plain string prefix
    otherwise;
  - the default main-menu items;
  - the left menu's per-section expand map;
  - the conditions under which a section shows its sub-items or a direct link.

The files and their modules:

| file | modules | contents |
|---|---|---|
| `seqs.dfy` | `Optional`, `Seqs` | `Option`, order-keeping filter, `join`, and one-character `split` with its round trip |
| `text.dfy` | `Text` | ASCII `toLowerCase`/`toUpperCase`, `includes`, `startsWith` |
| `table_filter.dfy` | `TableData`, `TableFilter` | cells, rows, headers; the global text filter |
| `table_sort.dfy` | `TableSort` | sort configuration, comparator, sorted view |
| `table_pages.dfy` | `TablePages` | page slice, page count, pager |
| `table_export.dfy` | `TableExport` | CSV / Excel export text |
| `table_view.dfy` | `TableView` | the table's state machine |
| `dropdown.dfy` | `Dropdown` | the dropdown list |
| `checkbox.dfy` | `Checkbox` | the checkbox |
| `user_widget.dfy` | `UserWidget` | the user widget |
| `navigation.dfy` | `Routes`, `MainMenu` | route rule and main menu |
| `left_menu.dfy` | `LeftMenu` | the left menu |

## Modelling choices

- **Cells.** A table cell is `Null` or `Value(text, rank)`.
  - `Null` covers `null`, `undefined` and a property the row lacks.
  - `text` is the value's `toString()`.
  - `rank` is the value's position in the order the comparator uses: numeric
    for two numbers, `localeCompare` otherwise.
  - A row is a `map<string, Cell>`.
- **Comparator.** The comparator answers `1` for every comparison whose
  first value is null, so it is not a consistent order on nulls
  (`TableSort.CompareNullsInconsistent`).
  - The model therefore promises only what every sort under that comparator
    gives:
    - the same rows;
    - present values in rank order for the direction;
    - every null after every present value.
  - `SortRows` is one concrete such arrangement.
- **Truthiness.**
  - A sort key of `""` is falsy, so the rows stay unsorted.
  - An empty `selectedValues` array is truthy, so the checkbox is still in
    multi-choice mode.
  - An empty `subItems` array is truthy, so a left-menu section shows neither
    sub-items nor a direct link.
- **Case conversion.** `toLowerCase`/`toUpperCase` are modelled on ASCII
  letters only.
- **Events.** Events on controls that are not rendered are no-ops in
  `TableView.Step`: no filter box, no pager, a disabled pager button, or a
  closed export menu.
- **Pages.** The current page is not clamped when the rows shrink. The
  source resets it only when the filter text or the sort configuration
  changes (`UITable.jsx:110-112`). Under fixed props the user's own events
  never leave the page past the page count (`TableView.ReachablePageInRange`),
  but a new `data` prop with fewer rows can. A stale page shows the
  empty-table message (`TableView.StalePageShowsNothing`).
- **Page count.** On an active pagination, an empty table has 0 pages, not
  1: the page count is `Math.ceil(0 / n)`.

## Model

| member | source | states |
|---|---|---|
| `TableData.CellAt` | src/components/uiHTMLElements/UITable.jsx:61 | a property the row lacks reads as null; a present one reads as its value |
| `TableFilter.FilteredData` | src/components/uiHTMLElements/UITable.jsx:56-68 | all rows when filtering is off or the text is empty; otherwise exactly the rows with a matching declared cell, in original order, with their multiplicities |
| `TableFilter.KeptRowHasOccurrence` | src/components/uiHTMLElements/UITable.jsx:60-65 | every kept row has a declared, non-null cell whose lower-cased text contains the lower-cased filter text at some position |
| `TableFilter.AllNullRowDropped` | src/components/uiHTMLElements/UITable.jsx:62-63 | a row whose declared cells are all null or undefined never survives a non-empty filter |
| `TableFilter.AliceExample` | src/components/uiHTMLElements/UITable.jsx:56-68 | filtering Bob and Alice by "ali" keeps only Alice: case-insensitive substring match |
| `TableSort.HandleSort` | src/components/uiHTMLElements/UITable.jsx:115-129 | a click on a new column sorts it ascending; ascending becomes descending; descending resets to unsorted; the configuration stays well formed |
| `TableSort.ThreeClicks` | src/components/uiHTMLElements/UITable.jsx:115-129 | three clicks on one column bring a configuration sorted by it back to itself, and take anything else to unsorted |
| `TableSort.CompareNullsInconsistent` | src/components/uiHTMLElements/UITable.jsx:79-80 | for two null values the comparator says each comes after the other |
| `TableSort.SortRows` | src/components/uiHTMLElements/UITable.jsx:74-94 | the result is a permutation of the input; present values are ordered by the comparator; every null comes after every present value |
| `TableSort.SortedData` | src/components/uiHTMLElements/UITable.jsx:71-95 | with no key or the empty key, the filtered rows unchanged; otherwise a permutation with present values ordered for the direction and nulls last |
| `TableSort.SortRowsStable` | src/components/uiHTMLElements/UITable.jsx:74-94 | the sort is stable: for each rank, the present rows of that rank keep their input order |
| `TableSort.SortedDataStable` | src/components/uiHTMLElements/UITable.jsx:71-95 | with a key, rows of equal rank keep their filtered order |
| `TableSort.PresentBeforeNull` | src/components/uiHTMLElements/UITable.jsx:79-80 | in both directions a present value precedes any null in the sort column |
| `TableSort.SortedRanks` | src/components/uiHTMLElements/UITable.jsx:84-91 | ascending gives non-decreasing ranks, any other direction non-increasing ranks |
| `TableSort.NullsSinkExample` | src/components/uiHTMLElements/UITable.jsx:71-95 | 3, null, 1 sorts to 1, 3, null ascending and to 3, 1, null descending |
| `TablePages.Slice` | src/components/uiHTMLElements/UITable.jsx:103 | `slice` with non-negative bounds is the sub-sequence between the bounds clamped to the length |
| `TablePages.PaginatedData` | src/components/uiHTMLElements/UITable.jsx:98-104 | pagination is active iff the page size is non-null and above 5; when active, page p holds rows (p-1)n onward, at most n of them, in order; when not active, every row |
| `TablePages.TotalPages` | src/components/uiHTMLElements/UITable.jsx:107 | the smallest page count whose pages cover every row when paginated, 0 exactly for no rows; 1 when not paginated |
| `TablePages.ShowPagerIffOverflow` | src/components/uiHTMLElements/UITable.jsx:296 | the pager shows exactly when pagination is active and the rows exceed one page |
| `TablePages.PagesPrefix` | src/components/uiHTMLElements/UITable.jsx:98-104 | pages 1 to k together are the first k·n rows |
| `TablePages.PagesReassemble` | src/components/uiHTMLElements/UITable.jsx:98-107 | all pages in order concatenate back to the sorted rows |
| `TablePages.InfoRangeMatchesPage` | src/components/uiHTMLElements/UITable.jsx:192 | the "showing first to last" caption counts exactly the rows on the current page |
| `TablePages.EmptyHasNoPages` | src/components/uiHTMLElements/UITable.jsx:107 | an empty paginated table has 0 pages |
| `TablePages.TwentyFiveRowsExample` | src/components/uiHTMLElements/UITable.jsx:98-107 | 25 rows at 10 per page make 3 pages, the last holding rows 21-25 |
| `TableExport.CellText` | src/components/uiHTMLElements/UITable.jsx:135 | `join` writes null and undefined as empty text |
| `TableExport.Fields` | src/components/uiHTMLElements/UITable.jsx:135 | a row's export fields are its declared cells in column order, and nothing else |
| `TableExport.ExportLayout` | src/components/uiHTMLElements/UITable.jsx:133-136 | without newlines in labels or cells, the export splits into the header line and one line per sorted row |
| `TableExport.CsvLayout` | src/components/uiHTMLElements/UITable.jsx:132-144 | without newlines or commas inside, each CSV line splits back into the labels, or into the row's fields |
| `TableExport.XlsLayout` | src/components/uiHTMLElements/UITable.jsx:156-170 | the Excel export starts with a byte-order mark; the rest splits at newlines and tabs into labels and fields |
| `TableExport.SmallCsvExample` | src/components/uiHTMLElements/UITable.jsx:132-136 | headers A, B over the row {a: 1, b: 2} export as "A,B\n1,2" |
| `TableView.StepProperties` | src/components/uiHTMLElements/UITable.jsx:109-129 | every event keeps the sort well formed and the page between 1 and the page count (or 1 when there are no pages); a changed filter or sort resets the page to 1; only filter edits change the filter text |
| `TableView.PagerBounds` | src/components/uiHTMLElements/UITable.jsx:298-324 | "Previous" on page 1 and "Next" on the last page change nothing |
| `TableView.RunPreservesInvariant` | src/components/uiHTMLElements/UITable.jsx:43-49 | any event sequence from a state with a well-formed sort and an in-range page keeps both |
| `TableView.ReachablePageInRange` | src/components/uiHTMLElements/UITable.jsx:107-112 | from the initial state no event sequence reaches a page past the page count, except page 1 of a table with no rows |
| `TableView.ExportCoversEveryPage` | src/components/uiHTMLElements/UITable.jsx:132-136 | the CSV of all pages in order equals the CSV of the sorted rows |
| `TableView.Exported` | src/components/uiHTMLElements/UITable.jsx:132-170 | a file is produced iff export is enabled, the menu is open and an export button is clicked; CSV and Excel files are the exports of the filtered, sorted rows, JSON serialises those rows |
| `TableView.ExportIgnoresPage` | src/components/uiHTMLElements/UITable.jsx:132-170 | the exported file is the same on every current page, and a click that exports closes the menu |
| `TableView.ExportWritesEveryPage` | src/components/uiHTMLElements/UITable.jsx:132-144 | on a paginated table the CSV click writes the CSV of every page in order |
| `TableView.StalePageShowsNothing` | src/components/uiHTMLElements/UITable.jsx:98-104 | a page beyond the page count shows no rows |
| `Dropdown.FilteredOptions` | src/components/uiHTMLElements/UIDropdownlist.jsx:43-47 | without a filter input, every option; otherwise exactly the options whose lower-cased label contains the lower-cased text, in order |
| `Dropdown.EmptyFilterKeepsAll` | src/components/uiHTMLElements/UIDropdownlist.jsx:43-47 | an empty filter text keeps every option |
| `Dropdown.FindByValue` | src/components/uiHTMLElements/UIDropdownlist.jsx:50 | no result iff no option has the value; otherwise the first option that has it |
| `Dropdown.DisplayText` | src/components/uiHTMLElements/UIDropdownlist.jsx:50-51 | the first matching option's label, or the placeholder when none matches |
| `Dropdown.Toggle` | src/components/uiHTMLElements/UIDropdownlist.jsx:79-83 | a disabled widget ignores clicks; otherwise the menu flips and the filter text stays |
| `Dropdown.EditFilter` | src/components/uiHTMLElements/UIDropdownlist.jsx:153 | typing replaces the filter text and keeps the menu open or closed |
| `Dropdown.SelectOption` | src/components/uiHTMLElements/UIDropdownlist.jsx:86-92 | selecting closes the menu and clears the filter; `onChange` receives exactly the option's value, if there is a handler |
| `Dropdown.OutsideClick` | src/components/uiHTMLElements/UIDropdownlist.jsx:54-69 | a click outside an open, mounted widget closes it and clears the filter; nothing else changes the state |
| `Dropdown.NoResultsIffNothingMatches` | src/components/uiHTMLElements/UIDropdownlist.jsx:161-177 | "no results" shows exactly when the menu is open and no label matches |
| `Dropdown.ReopenListsAll` | src/components/uiHTMLElements/UIDropdownlist.jsx:86-92 | after a selection or an outside click, reopening lists every option |
| `Checkbox.IsChecked` | src/components/uiElements/UICheckbox.jsx:43-45 | with a value list, checked iff the list contains the value; without one, the `checked` prop |
| `Checkbox.Check` | src/components/uiElements/UICheckbox.jsx:53 | checking appends the value at the end and keeps the list before it |
| `Checkbox.Uncheck` | src/components/uiElements/UICheckbox.jsx:55 | unchecking removes every occurrence of the value and keeps the other values in order with their counts |
| `Checkbox.HandleChange` | src/components/uiElements/UICheckbox.jsx:47-61 | no call without a handler; the event in single mode; otherwise the list after checking or unchecking |
| `Checkbox.EmittedListMatchesBox` | src/components/uiElements/UICheckbox.jsx:43-56 | fed back as `selectedValues`, the emitted list shows the box in the state the user chose |
| `Checkbox.CheckUncheckRoundTrip` | src/components/uiElements/UICheckbox.jsx:52-56 | checking and then unchecking a value that was absent restores the list |
| `Checkbox.UncheckLength` | src/components/uiElements/UICheckbox.jsx:55 | unchecking shortens the list by the number of occurrences of the value |
| `UserWidget.FirstChars` | src/components/uiStructure/UserWidget.jsx:62-63 | at most one character per word; with no empty word, exactly each word's first character |
| `UserWidget.Initials` | src/components/uiStructure/UserWidget.jsx:59-66 | at most two characters, none lower-case; an empty name gives none |
| `UserWidget.InitialsOfWords` | src/components/uiStructure/UserWidget.jsx:59-66 | for space-separated non-empty words, the upper-cased first letters of the first one or two words |
| `UserWidget.FirstCharsAppend` | src/components/uiStructure/UserWidget.jsx:62-63 | the first characters of two word lists joined are those of each list joined |
| `UserWidget.EmptyWordsSkipped` | src/components/uiStructure/UserWidget.jsx:61-63 | an empty word, from a leading, trailing or doubled space, contributes nothing wherever it sits among the words |
| `UserWidget.Toggle` | src/components/uiStructure/UserWidget.jsx:46-48 | a click on the trigger flips the menu |
| `UserWidget.ToggleTwice` | src/components/uiStructure/UserWidget.jsx:46-48 | two trigger clicks restore the menu state |
| `UserWidget.MenuItemClick` | src/components/uiStructure/UserWidget.jsx:51-56 | a menu item click closes first, and invokes the callback iff there is one |
| `UserWidget.MenuItemClickCloses` | src/components/uiStructure/UserWidget.jsx:51-56 | after a menu item click the menu is closed, and the close is requested before the callback is invoked |
| `UserWidget.OutsideClick` | src/components/uiStructure/UserWidget.jsx:29-43 | an outside click closes an open menu; otherwise nothing changes |
| `UserWidget.ClosedStaysClosed` | src/components/uiStructure/UserWidget.jsx:29-56 | a menu closed by an outside click or by a menu item click is left unchanged by any further document mousedown, inside the widget or not; a trigger click opens it again |
| `UserWidget.ClosingForgets` | src/components/uiStructure/UserWidget.jsx:29-56 | after a menu item click or an outside mousedown, the menu's state depends only on the later events |
| `UserWidget.TriggerParity` | src/components/uiStructure/UserWidget.jsx:29-48 | without a closing event, the menu is open iff its initial state was flipped by an odd number of trigger clicks |
| `UserWidget.Avatar` | src/components/uiStructure/UserWidget.jsx:77-82 | the image iff the avatar URL is a non-empty string, otherwise the name's initials |
| `UserWidget.AvatarExample` | src/components/uiStructure/UserWidget.jsx:59-82 | "Jean Dupont" without an avatar shows "JD" |
| `Routes.IsActive` | src/components/uiStructure/MainMenu.jsx:32-37 | "/" is active iff the pathname is exactly "/"; another path iff the pathname begins with it character for character |
| `Routes.ActiveBelow` | src/components/uiStructure/MainMenu.jsx:36 | a non-root path stays active on every pathname that extends it |
| `Routes.RootNotActiveBelow` | src/components/uiStructure/MainMenu.jsx:33-35 | the root item is not active on any longer pathname |
| `Routes.PrefixNotSegmentAligned` | src/components/uiStructure/MainMenu.jsx:36 | "/assets" is active on "/assetsX": the prefix is not aligned to path segments |
| `MainMenu.Items` | src/components/uiStructure/MainMenu.jsx:29 | the caller's items when there is at least one, otherwise the defaults; never empty |
| `MainMenu.DefaultRoutes` | src/components/uiStructure/MainMenu.jsx:21-27 | the defaults are the five routes "/", "/assets", "/eol", "/statistiques", "/administration", in order |
| `MainMenu.ActiveFlags` | src/components/uiStructure/MainMenu.jsx:47-50 | each rendered item is marked active iff the route rule holds for its path |
| `MainMenu.ClickActivates` | src/components/uiStructure/MainMenu.jsx:40-51 | clicking an item navigates to its path, where that item is active |
| `MainMenu.AtMostOneDefaultActive` | src/components/uiStructure/MainMenu.jsx:21-37 | on any pathname at most one default item is active |
| `LeftMenu.ToggleSection` | src/components/uiStructure/LeftMenu.jsx:26-31 | the section's flag becomes the negation of its old truthiness; every other entry is unchanged |
| `LeftMenu.FirstToggleExpands` | src/components/uiStructure/LeftMenu.jsx:21-31 | a section never toggled is collapsed, and its first toggle expands it |
| `LeftMenu.ToggleTwice` | src/components/uiStructure/LeftMenu.jsx:29 | toggling the same section twice restores every section's state |
| `LeftMenu.ExpandedIffOddClicks` | src/components/uiStructure/LeftMenu.jsx:21-31 | from the initial empty map, a section is expanded iff its header was clicked an odd number of times |
| `LeftMenu.RenderSection` | src/components/uiStructure/LeftMenu.jsx:53-103 | the arrow shows iff there are sub-items, pointing down iff expanded; sub-items show iff non-empty and expanded, each marked by the route rule; the direct link shows iff there is no sub-item array and the path is non-empty |
| `LeftMenu.ListOrLink` | src/components/uiStructure/LeftMenu.jsx:69-91 | a section never shows both a sub-item list and a direct link; with an empty array it shows neither |
| `LeftMenu.EmptyPathShowsNoLink` | src/components/uiStructure/LeftMenu.jsx:91 | a section whose path is the empty string shows no direct link, although the route rule would count that path active everywhere |
| `LeftMenu.ToggleChangesOneSection` | src/components/uiStructure/LeftMenu.jsx:50-57 | a header click changes only that section's view |
| `LeftMenu.SubItemClickActivates` | src/components/uiStructure/LeftMenu.jsx:73-79 | clicking a sub-item navigates to its path, where it is active |
| `Text.IncludesIffOccurs` | src/components/uiHTMLElements/UITable.jsx:65 | `includes` holds iff the substring occurs at some position |
| `Seqs.SplitJoin` | src/components/uiStructure/UserWidget.jsx:61 | splitting a join at the separator gives back the separator-free parts |

## Left out

- Export side effects: the JSON export's text (`JSON.stringify` of the
  sorted rows), the `Blob`s, the download links and the timestamped file
  names. They are I/O and a clock. `TableView.Exported` models which rows
  each file holds, with the JSON file as the rows it serialises.
- Value coercion: `Number`, `isNaN` and `localeCompare` are abstracted to
  each cell's `rank`. A column that mixes numbers and text can make the
  source comparator intransitive, and that case is not modelled.
- TableSort.SortRows, TableSort.SortedData: the order among null rows is not
  promised. `Array.prototype.sort` is stable, and the model proves the same
  for present values of equal rank (`TableSort.SortRowsStable`). But the
  comparator answers 1 for two nulls in either order, and with such an
  inconsistent comparator ECMAScript leaves the resulting order to the
  implementation. So once a column holds two or more nulls, the model gives
  one admissible order, present values sorted and nulls last in input order,
  rather than every order an engine may produce.
- Page sizes: non-integer values of `pagination`.
- Unicode: case conversion outside ASCII, and UTF-16 code units. In
  `getInitials`, `word[0]` and `substring` count code units, while Dafny's
  `char` is a Unicode scalar value.
- The native `<select>` of the dropdown when `filterInput` is off. It passes
  the chosen value to `onChange` and keeps no state of its own.
- Rendering: JSX markup, CSS classes other than the active and expanded
  markers (the dropdown's `selected` option class among them), focus handling, CSS class names passed in as `className`, and
  `defaultCollapsed`, which the left menu does not use.
- React's batching of state updates: a state setter only queues its update,
  which is committed after the event handler returns. `UserWidget.Apply`
  applies the effects in the order the handler issues them, so it states the
  order of requests, not what is on screen while the callback runs.
- Routing: `navigate` is modelled by taking the clicked path as the new
  pathname.
- The row-click callback, the user-menu callbacks' own effects, and
  language messages other than the default menu labels.
- Event listener registration: the document `mousedown` listeners are
  modelled by their effect, and only while the menu is open.
