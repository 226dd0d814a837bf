/**
  The dropdown list: option filtering by label, the displayed selection, and
  the open/filter-text state of the custom (filterable) widget.
 */
module Dropdown {
  import opened Optional
  import opened Text
  import opened Seqs

  /** An option `{value, label}`; `label` is a reserved word in Dafny, hence `caption`. */
  datatype DropdownOption = DropdownOption(value: string, caption: string)

  /** The option's lower-cased label contains the lower-cased filter text. */
  predicate LabelMatches(o: DropdownOption, filterText: string)
  {
    Includes(Lower(o.caption), Lower(filterText))
  }

  /** `filteredOptions`: all options without `filterInput`, otherwise those
      whose label matches, in their original order. */
  function FilteredOptions(options: seq<DropdownOption>, filterInput: bool, filterText: string): (r: seq<DropdownOption>)
    ensures !filterInput ==> r == options
    ensures filterInput ==>
      && IsSubseq(r, options)
      && (forall o :: o in r <==> o in options && LabelMatches(o, filterText))
      && (forall o :: multiset(r)[o] == if LabelMatches(o, filterText) then multiset(options)[o] else 0)
  {
    if filterInput then Filter(options, o => LabelMatches(o, filterText)) else options
  }

  /** An empty filter text keeps every option. */
  lemma EmptyFilterKeepsAll(options: seq<DropdownOption>, filterInput: bool)
    ensures FilteredOptions(options, filterInput, "") == options
  {
    if filterInput {
      forall i | 0 <= i < |options| ensures LabelMatches(options[i], "") {
        IncludesEmpty(Lower(options[i].caption));
      }
      FilterKeepsAll(options, o => LabelMatches(o, ""));
    }
  }

  /** `i` is the position of the first option whose value is `value`. */
  predicate FirstMatchAt(options: seq<DropdownOption>, value: string, i: int)
  {
    && 0 <= i < |options|
    && options[i].value == value
    && forall j :: 0 <= j < i ==> options[j].value != value
  }

  /** `options.find(opt => opt.value === value)`: the first option whose value matches. */
  function FindByValue(options: seq<DropdownOption>, value: string): (r: Option<DropdownOption>)
    ensures r.None? <==> forall i :: 0 <= i < |options| ==> options[i].value != value
    ensures r.Some? ==> exists i :: FirstMatchAt(options, value, i) && options[i] == r.value
    decreases |options|
  {
    if options == [] then None
    else if options[0].value == value then
      assert FirstMatchAt(options, value, 0);
      Some(options[0])
    else
      var r := FindByValue(options[1..], value);
      FirstMatchShift(options, value, r);
      r
  }

  /** The first match found in the tail, shifted by one, is the first match of
      the whole list when the head does not match. */
  lemma FirstMatchShift(options: seq<DropdownOption>, value: string, r: Option<DropdownOption>)
    requires options != [] && options[0].value != value
    requires r.Some? ==> exists i :: FirstMatchAt(options[1..], value, i) && options[1..][i] == r.value
    ensures r.Some? ==> exists i :: FirstMatchAt(options, value, i) && options[i] == r.value
  {
    if r.Some? {
      var i :| FirstMatchAt(options[1..], value, i) && options[1..][i] == r.value;
      assert forall j :: 0 < j <= i ==> options[j] == options[1..][j - 1];
      assert FirstMatchAt(options, value, i + 1);
    }
  }

  /** `displayText`: the label of the first option whose value is `value`,
      else the placeholder. */
  function DisplayText(options: seq<DropdownOption>, value: string, placeholder: string): (r: string)
    ensures (forall i :: 0 <= i < |options| ==> options[i].value != value) ==> r == placeholder
    ensures forall i :: FirstMatchAt(options, value, i) ==> r == options[i].caption
  {
    var found := FindByValue(options, value);
    FirstMatchUnique(options, value);
    if found.Some? then found.value.caption else placeholder
  }

  /** There is only one first match. */
  lemma FirstMatchUnique(options: seq<DropdownOption>, value: string)
    ensures forall i, k :: FirstMatchAt(options, value, i) && FirstMatchAt(options, value, k) ==> i == k
  {
  }

  /** The custom widget's state: whether the menu is open and the filter text. */
  datatype DropdownState = DropdownState(isOpen: bool, filterText: string)

  const Closed: DropdownState := DropdownState(false, "")

  /** `toggleDropdown`: a click on the widget. */
  function Toggle(s: DropdownState, disabled: bool): (r: DropdownState)
    ensures disabled ==> r == s
    ensures !disabled ==> r.isOpen != s.isOpen && r.filterText == s.filterText
  {
    if disabled then s else s.(isOpen := !s.isOpen)
  }

  /** Typing in the filter box. */
  function EditFilter(s: DropdownState, text: string): (r: DropdownState)
    ensures r.filterText == text && r.isOpen == s.isOpen
  {
    s.(filterText := text)
  }

  /** What choosing an option produces: the new state and the value passed to
      `onChange`, if there is one. */
  datatype Selection = Selection(state: DropdownState, emitted: Option<string>)

  /** `handleSelectOption(optionValue)`. */
  function SelectOption(s: DropdownState, optionValue: string, hasOnChange: bool): (r: Selection)
    ensures r.state == Closed
    ensures hasOnChange <==> r.emitted == Some(optionValue)
    ensures !hasOnChange <==> r.emitted.None?
  {
    Selection(Closed, if hasOnChange then Some(optionValue) else None)
  }

  /** The document mousedown listener. It is registered only while the menu
      is open, and it acts only when the custom widget is mounted (its ref is
      set) and the click lands outside it. */
  function OutsideClick(s: DropdownState, mounted: bool, inside: bool): (r: DropdownState)
    ensures s.isOpen && mounted && !inside ==> r == Closed
    ensures !s.isOpen || !mounted || inside ==> r == s
  {
    if s.isOpen && mounted && !inside then Closed else s
  }

  /** What the custom widget's menu area shows. */
  datatype MenuView = Hidden | NoResults | Listed(items: seq<DropdownOption>)

  function Menu(s: DropdownState, options: seq<DropdownOption>): (r: MenuView)
  {
    if !s.isOpen then Hidden
    else
      var filtered := FilteredOptions(options, true, s.filterText);
      if |filtered| > 0 then Listed(filtered) else NoResults
  }

  /** "No results" shows exactly when the menu is open and no option label
      contains the filter text. */
  lemma NoResultsIffNothingMatches(s: DropdownState, options: seq<DropdownOption>)
    ensures Menu(s, options) == NoResults
        <==> s.isOpen && forall i :: 0 <= i < |options| ==> !LabelMatches(options[i], s.filterText)
  {
    var filtered := FilteredOptions(options, true, s.filterText);
    if s.isOpen && |filtered| == 0 {
      forall i | 0 <= i < |options| ensures !LabelMatches(options[i], s.filterText) {
        assert options[i] !in filtered;
      }
    }
    if s.isOpen && |filtered| > 0 {
      assert filtered[0] in filtered;
    }
  }

  /** After a selection or an outside click, reopening the menu lists every option. */
  lemma ReopenListsAll(s: DropdownState, options: seq<DropdownOption>, v: string, hasOnChange: bool)
    requires |options| > 0
    ensures Menu(Toggle(SelectOption(s, v, hasOnChange).state, false), options) == Listed(options)
    ensures s.isOpen ==> Menu(Toggle(OutsideClick(s, true, false), false), options) == Listed(options)
  {
    EmptyFilterKeepsAll(options, true);
  }
}
