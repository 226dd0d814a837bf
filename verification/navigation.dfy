/**
  The route-matching rule shared by the main menu and the left menu, and
  the main menu's item list.
 */
module Routes {
  import opened Text

  /** `isActive(path)` against the current `location.pathname`: the root path
      matches only itself; any other path matches every pathname that begins
      with it character for character, whether or not a segment boundary
      follows. */
  function IsActive(pathname: string, path: string): (r: bool)
    ensures path == "/" ==> (r <==> pathname == "/")
    ensures path != "/" ==>
      (r <==> |path| <= |pathname| && forall i :: 0 <= i < |path| ==> pathname[i] == path[i])
  {
    if path == "/" then pathname == "/" else StartsWith(pathname, path)
  }

  /** Navigating to an item's path makes that item active. */
  lemma NavigatedPathIsActive(path: string)
    ensures IsActive(path, path)
  {
  }

  /** A non-root path stays active on every pathname below it. */
  lemma ActiveBelow(path: string, rest: string)
    requires path != "/"
    ensures IsActive(path + rest, path)
  {
    assert (path + rest)[..|path|] == path;
  }

  /** A pathname below the root does not activate the root item. */
  lemma RootNotActiveBelow(rest: string)
    requires rest != ""
    ensures !IsActive("/" + rest, "/")
  {
    assert |"/" + rest| > 1;
  }

  /** The prefix is not aligned to path segments: `/assets` is active on
      `/assetsX`, a page that is not below it. */
  lemma PrefixNotSegmentAligned()
    ensures IsActive("/assetsX", "/assets")
    ensures !IsActive("/asset", "/assets")
  {
    ActiveBelow("/assets", "X");
    assert "/assets" + "X" == "/assetsX";
  }
}

/**
  The top navigation menu: the caller's items, or a built-in list when the
  caller gives none, each marked active by the route rule.
 */
module MainMenu {
  import opened Optional
  import opened Routes

  /** An item `{label, path, icon?}`; `label` is a reserved word in Dafny, hence `caption`. */
  datatype MenuItem = MenuItem(caption: string, path: string, icon: Option<string>)

  /** The built-in items, labelled from the navigation messages. */
  const DefaultMenuItems: seq<MenuItem> := [
    MenuItem("Dashboard", "/", Some("\U{1F4CA}")),
    MenuItem("Assets", "/assets", Some("\U{1F4BC}")),
    MenuItem("EOL", "/eol", Some("\U{23F3}")),
    MenuItem("Statistiques", "/statistiques", Some("\U{1F4C8}")),
    MenuItem("Administration", "/administration", Some("\U{2699}\U{FE0F}"))
  ]

  /** The items rendered: the caller's when there is at least one, else the defaults. */
  function Items(menuItems: seq<MenuItem>): (r: seq<MenuItem>)
    ensures |r| > 0
    ensures menuItems != [] ==> r == menuItems
    ensures menuItems == [] ==> r == DefaultMenuItems
  {
    if |menuItems| > 0 then menuItems else DefaultMenuItems
  }

  /** The paths of some items, in order. */
  function Paths(items: seq<MenuItem>): (r: seq<string>)
    ensures |r| == |items|
    ensures forall i :: 0 <= i < |items| ==> r[i] == items[i].path
  {
    seq(|items|, i requires 0 <= i < |items| => items[i].path)
  }

  /** Without caller items the menu shows the five default routes in order. */
  lemma DefaultRoutes()
    ensures Paths(Items([])) == ["/", "/assets", "/eol", "/statistiques", "/administration"]
  {
  }

  /** Whether each rendered item carries the `active` class. */
  function ActiveFlags(menuItems: seq<MenuItem>, pathname: string): (r: seq<bool>)
    ensures |r| == |Items(menuItems)|
    ensures forall i :: 0 <= i < |r| ==>
      (r[i] <==> IsActive(pathname, Items(menuItems)[i].path))
  {
    var items := Items(menuItems);
    seq(|items|, i requires 0 <= i < |items| => IsActive(pathname, items[i].path))
  }

  /** Clicking an item navigates to its path, where that item is active. */
  lemma ClickActivates(menuItems: seq<MenuItem>, i: int)
    requires 0 <= i < |Items(menuItems)|
    ensures ActiveFlags(menuItems, Items(menuItems)[i].path)[i]
  {
    NavigatedPathIsActive(Items(menuItems)[i].path);
  }

  /** Which default item a pathname activates, read off its first characters. */
  function DefaultIndexOf(pathname: string): int
  {
    if pathname == "/" then 0
    else if |pathname| < 3 then -1
    else if pathname[1] == 'e' then 2
    else if pathname[1] == 's' then 3
    else if pathname[2] == 's' then 1
    else 4
  }

  /** An active default item is the one its pathname's first characters select. */
  lemma DefaultActiveIndex(pathname: string, i: int)
    requires 0 <= i < 5
    requires ActiveFlags([], pathname)[i]
    ensures i == DefaultIndexOf(pathname)
  {
    assert Paths(DefaultMenuItems) == ["/", "/assets", "/eol", "/statistiques", "/administration"];
  }

  /** Among the defaults at most one item is active on any pathname, because
      no default path is a prefix of another non-root one. */
  lemma AtMostOneDefaultActive(pathname: string, i: int, j: int)
    requires 0 <= i < 5 && 0 <= j < 5
    requires ActiveFlags([], pathname)[i] && ActiveFlags([], pathname)[j]
    ensures i == j
  {
    DefaultActiveIndex(pathname, i);
    DefaultActiveIndex(pathname, j);
  }
}
