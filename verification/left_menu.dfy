/**
  The left menu: sections that expand and collapse independently, with
  either a list of sub-items or a direct link.
 */
module LeftMenu {
  import opened Optional
  import opened Routes

  /** `expandedSections`: section index to flag; a missing entry is `undefined`,
      which renders as collapsed. */
  type Expanded = map<int, bool>

  const NoneExpanded: Expanded := map[]

  predicate IsExpanded(m: Expanded, id: int)
  {
    id in m && m[id]
  }

  /** `toggleSection(sectionId)`: the entry becomes the negation of its old
      truthiness; every other entry is copied unchanged. */
  function ToggleSection(m: Expanded, id: int): (r: Expanded)
    ensures r.Keys == m.Keys + {id}
    ensures IsExpanded(r, id) == !IsExpanded(m, id)
    ensures forall k :: k in m && k != id ==> r[k] == m[k]
  {
    m[id := !IsExpanded(m, id)]
  }

  /** A section nobody has toggled is collapsed, and its first toggle expands it. */
  lemma FirstToggleExpands(m: Expanded, id: int)
    requires id !in m
    ensures !IsExpanded(m, id)
    ensures IsExpanded(ToggleSection(m, id), id)
  {
  }

  /** Toggling the same section twice restores every section's state. */
  lemma ToggleTwice(m: Expanded, id: int, k: int)
    ensures IsExpanded(ToggleSection(ToggleSection(m, id), id), k) == IsExpanded(m, k)
  {
  }

  /** The map after a sequence of header clicks. */
  function ToggleAll(m: Expanded, ids: seq<int>): Expanded
    decreases |ids|
  {
    if ids == [] then m else ToggleAll(ToggleSection(m, ids[0]), ids[1..])
  }

  /** Starting from the empty map, a section is expanded exactly when its
      header has been clicked an odd number of times; clicks on other
      sections do not matter. */
  lemma {:induction false} ExpandedIffOddClicks(ids: seq<int>, k: int)
    ensures IsExpanded(ToggleAll(NoneExpanded, ids), k) <==> multiset(ids)[k] % 2 == 1
  {
    ToggleAllParity(NoneExpanded, ids, k);
  }

  lemma {:induction false} ToggleAllParity(m: Expanded, ids: seq<int>, k: int)
    ensures IsExpanded(ToggleAll(m, ids), k) <==>
      (if multiset(ids)[k] % 2 == 0 then IsExpanded(m, k) else !IsExpanded(m, k))
    decreases |ids|
  {
    if ids != [] {
      ToggleAllParity(ToggleSection(m, ids[0]), ids[1..], k);
      assert ids == [ids[0]] + ids[1..];
      assert multiset(ids)[k] == multiset(ids[1..])[k] + (if ids[0] == k then 1 else 0);
    }
  }

  /** A sub-item `{label, path, icon?}`; `label` is a reserved word in Dafny, hence `caption`. */
  datatype SubItem = SubItem(caption: string, path: string, icon: Option<string>)

  /** A section `{title, icon?, path?, subItems?}`. */
  datatype Section = Section(
    title: string,
    icon: Option<string>,
    path: Option<string>,
    subItems: Option<seq<SubItem>>)

  /** `section.subItems && section.subItems.length > 0`. */
  predicate HasSubItems(s: Section)
  {
    s.subItems.Some? && |s.subItems.value| > 0
  }

  /** `!section.subItems && section.path`: no array at all, and a non-empty path.
      An empty array is truthy, so it suppresses the link too. */
  predicate HasDirectLink(s: Section)
  {
    s.subItems.None? && s.path.Some? && s.path.value != ""
  }

  /** The arrow beside a section title. */
  datatype Arrow = NoArrow | Down | Right

  /** What one section renders under a pathname: its header's expanded class,
      the arrow, the active flags of the listed sub-items if the list shows,
      and the active flag of the direct link if it shows. */
  datatype SectionView = SectionView(
    expandedClass: bool,
    arrow: Arrow,
    subItemsActive: Option<seq<bool>>,
    linkActive: Option<bool>)

  function RenderSection(s: Section, expanded: bool, pathname: string): (r: SectionView)
    ensures r.expandedClass == expanded
    ensures r.arrow == NoArrow <==> !HasSubItems(s)
    ensures r.arrow == Down <==> HasSubItems(s) && expanded
    ensures r.subItemsActive.Some? <==> HasSubItems(s) && expanded
    ensures r.subItemsActive.Some? ==>
      && |r.subItemsActive.value| == |s.subItems.value|
      && forall i :: 0 <= i < |s.subItems.value| ==>
           (r.subItemsActive.value[i] <==> IsActive(pathname, s.subItems.value[i].path))
    ensures r.linkActive.Some? <==> HasDirectLink(s)
    ensures r.linkActive.Some? ==> (r.linkActive.value <==> IsActive(pathname, s.path.value))
  {
    var arrow := if !HasSubItems(s) then NoArrow else if expanded then Down else Right;
    var items :=
      if HasSubItems(s) && expanded then
        var subs := s.subItems.value;
        Some(seq(|subs|, i requires 0 <= i < |subs| => IsActive(pathname, subs[i].path)))
      else None;
    var link := if HasDirectLink(s) then Some(IsActive(pathname, s.path.value)) else None;
    SectionView(expanded, arrow, items, link)
  }

  /** A section never shows both a sub-item list and a direct link, and a
      section whose sub-item list is empty shows neither. */
  lemma ListOrLink(s: Section, expanded: bool, pathname: string)
    ensures var v := RenderSection(s, expanded, pathname);
      && !(v.subItemsActive.Some? && v.linkActive.Some?)
      && (s.subItems == Some([]) ==> v.subItemsActive.None? && v.linkActive.None? && v.arrow == NoArrow)
  {
  }

  /** A section whose path is the empty string shows no direct link, although
      the route rule would count `""` as active on every pathname: the
      `section.path &&` guard treats `""` as absent. */
  lemma EmptyPathShowsNoLink(s: Section, expanded: bool, pathname: string)
    requires s.path == Some("")
    ensures RenderSection(s, expanded, pathname).linkActive.None?
    ensures forall p :: IsActive(p, "")
  {
  }

  /** The whole menu, one view per section, under the current expand map. */
  function Render(sections: seq<Section>, m: Expanded, pathname: string): (r: seq<SectionView>)
    ensures |r| == |sections|
    ensures forall i :: 0 <= i < |sections| ==> r[i] == RenderSection(sections[i], IsExpanded(m, i), pathname)
  {
    seq(|sections|, i requires 0 <= i < |sections| => RenderSection(sections[i], IsExpanded(m, i), pathname))
  }

  /** A click on a section header changes that section's view and no other. */
  lemma ToggleChangesOneSection(sections: seq<Section>, m: Expanded, pathname: string, id: int)
    requires 0 <= id < |sections|
    ensures var before := Render(sections, m, pathname);
      var after := Render(sections, ToggleSection(m, id), pathname);
      && after[id].expandedClass != before[id].expandedClass
      && forall k :: 0 <= k < |sections| && k != id ==> after[k] == before[k]
  {
  }

  /** Clicking a shown sub-item navigates to its path, where it is active. */
  lemma SubItemClickActivates(s: Section, i: int)
    requires HasSubItems(s) && 0 <= i < |s.subItems.value|
    ensures RenderSection(s, true, s.subItems.value[i].path).subItemsActive.value[i]
  {
    NavigatedPathIsActive(s.subItems.value[i].path);
  }
}
