/**
  The checkbox: its checked state and what its change handler passes to
  `onChange`, in single-checkbox mode and in multi-choice mode.
 */
module Checkbox {
  import opened Optional
  import opened Seqs

  /** `isChecked`. Multi-choice mode is on whenever `selectedValues` is an
      array, even an empty one (an empty array is truthy). */
  function IsChecked(selectedValues: Option<seq<string>>, value: string, checked: bool): (r: bool)
    ensures selectedValues.Some? ==> (r <==> exists i :: 0 <= i < |selectedValues.value| && selectedValues.value[i] == value)
    ensures selectedValues.None? ==> r == checked
  {
    match selectedValues
    case Some(values) => value in values
    case None => checked
  }

  /** What the handler does with `onChange`. */
  datatype Emission =
    | NoCall                       // there is no `onChange`
    | EmitValues(values: seq<string>) // multi-choice mode: the updated list
    | ForwardEvent(checked: bool)  // single mode: the native event, unchanged

  /** The list with `value` appended at the end: no de-duplication. */
  function Check(values: seq<string>, value: string): (r: seq<string>)
    ensures |r| == |values| + 1
    ensures r[..|values|] == values && r[|values|] == value
  {
    values + [value]
  }

  /** The list without any occurrence of `value`, the others kept in order. */
  function Uncheck(values: seq<string>, value: string): (r: seq<string>)
    ensures value !in r
    ensures IsSubseq(r, values)
    ensures forall v :: v != value ==> multiset(r)[v] == multiset(values)[v]
  {
    Filter(values, v => v != value)
  }

  /** `handleChange(e)`, with `eventChecked` standing for `e.target.checked`. */
  function HandleChange(selectedValues: Option<seq<string>>, value: string, eventChecked: bool, hasOnChange: bool): (r: Emission)
    ensures !hasOnChange ==> r == NoCall
    ensures hasOnChange && selectedValues.None? ==> r == ForwardEvent(eventChecked)
    ensures hasOnChange && selectedValues.Some? ==> r.EmitValues?
    ensures hasOnChange && selectedValues.Some? && eventChecked ==> r.values == Check(selectedValues.value, value)
    ensures hasOnChange && selectedValues.Some? && !eventChecked ==> r.values == Uncheck(selectedValues.value, value)
  {
    if !hasOnChange then NoCall
    else match selectedValues
      case None => ForwardEvent(eventChecked)
      case Some(values) => EmitValues(if eventChecked then Check(values, value) else Uncheck(values, value))
  }

  /** Fed back as `selectedValues`, the emitted list makes the box checked
      after checking and unchecked after unchecking. */
  lemma EmittedListMatchesBox(values: seq<string>, value: string, eventChecked: bool, checked: bool)
    ensures var r := HandleChange(Some(values), value, eventChecked, true);
      IsChecked(Some(r.values), value, checked) == eventChecked
  {
    if eventChecked {
      assert Check(values, value)[|values|] == value;
    }
  }

  /** Checking then unchecking a value that was not selected restores the list. */
  lemma CheckUncheckRoundTrip(values: seq<string>, value: string)
    requires value !in values
    ensures Uncheck(Check(values, value), value) == values
  {
    FilterAppend(values, [value], v => v != value);
    FilterKeepsAll(values, v => v != value);
    assert Filter([value], v => v != value) == [];
  }

  /** Unchecking shortens the list by exactly the number of occurrences of
      the value, duplicates included. */
  lemma {:induction false} UncheckLength(values: seq<string>, value: string)
    ensures |Uncheck(values, value)| == |values| - multiset(values)[value]
  {
    if values != [] {
      UncheckLength(values[1..], value);
      assert values == [values[0]] + values[1..];
      assert multiset(values)[value] == multiset(values[1..])[value] + (if values[0] == value then 1 else 0);
    }
  }
}
