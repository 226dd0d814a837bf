/**
  The user widget: the initials shown in place of a missing avatar, and the
  open/closed state of its drop-down menu.
 */
module UserWidget {
  import opened Optional
  import opened Text
  import opened Seqs

  /** `words.map(word => word[0]).join("")`: each word's first character; an
      empty word gives `undefined`, which `join` renders as nothing. */
  function FirstChars(words: seq<string>): (r: string)
    ensures |r| <= |words|
    ensures (forall i :: 0 <= i < |words| ==> words[i] != "") ==>
      |r| == |words| && forall i :: 0 <= i < |words| ==> r[i] == words[i][0]
  {
    if words == [] then ""
    else
      var rest := FirstChars(words[1..]);
      if words[0] == "" then rest else [words[0][0]] + rest
  }

  /** `getInitials(name)`: split at spaces, first characters, upper-cased,
      cut to two characters. */
  function Initials(name: string): (r: string)
    ensures |r| <= 2
    ensures forall i :: 0 <= i < |r| ==> !IsLowerAscii(r[i])
    ensures name == "" ==> r == ""
  {
    var firsts := Upper(FirstChars(Split(name, ' ')));
    if |firsts| <= 2 then firsts else firsts[..2]
  }

  /** For a name made of non-empty, space-free words separated by single
      spaces, the initials are the upper-cased first characters of its first
      one or two words. */
  lemma InitialsOfWords(words: seq<string>)
    requires |words| >= 1
    requires forall i :: 0 <= i < |words| ==> words[i] != "" && ' ' !in words[i]
    ensures Initials(Join(words, " ")) ==
      if |words| == 1 then Upper([words[0][0]]) else Upper([words[0][0], words[1][0]])
  {
    SplitJoin(words, ' ');
    var firsts := FirstChars(words);
    if |words| > 1 {
      UpperPrefix(firsts, 2);
      assert firsts[..2] == [words[0][0], words[1][0]];
    } else {
      assert firsts == [words[0][0]];
    }
  }

  /** The first characters of two word lists joined are those of each list, joined. */
  lemma {:induction false} FirstCharsAppend(a: seq<string>, b: seq<string>)
    ensures FirstChars(a + b) == FirstChars(a) + FirstChars(b)
    decreases |a|
  {
    if a == [] {
      assert a + b == b;
    } else {
      assert (a + b)[1..] == a[1..] + b;
      FirstCharsAppend(a[1..], b);
    }
  }

  /** An empty word (from a leading, trailing or doubled space) contributes
      nothing, wherever it sits among the words. */
  lemma EmptyWordsSkipped(a: seq<string>, b: seq<string>)
    ensures FirstChars(a + [""] + b) == FirstChars(a + b)
  {
    FirstCharsAppend(a + [""], b);
    FirstCharsAppend(a, [""]);
    FirstCharsAppend(a, b);
    assert FirstChars([""]) == "" by {
      assert [""][1..] == [];
    }
  }

  /** Whether the drop-down menu is open. */
  datatype WidgetState = WidgetState(isDropdownOpen: bool)

  /** `toggleDropdown`: a click on the trigger flips the menu. */
  function Toggle(s: WidgetState): (r: WidgetState)
    ensures r.isDropdownOpen != s.isDropdownOpen
  {
    WidgetState(!s.isDropdownOpen)
  }

  /** The effects of `handleMenuItemClick(callback)`, in order. */
  datatype Effect = CloseDropdown | InvokeCallback

  function MenuItemClick(hasCallback: bool): (r: seq<Effect>)
    ensures |r| >= 1 && r[0] == CloseDropdown
    ensures InvokeCallback in r <==> hasCallback
  {
    [CloseDropdown] + (if hasCallback then [InvokeCallback] else [])
  }

  /** The widget state after a sequence of effects. */
  function Apply(s: WidgetState, effects: seq<Effect>): WidgetState
    decreases |effects|
  {
    if effects == [] then s
    else Apply(if effects[0] == CloseDropdown then WidgetState(false) else s, effects[1..])
  }

  /** After any menu item click the menu is closed, and the close is
      requested before the callback is invoked: applying only the effects
      that precede the callback already yields a closed menu. */
  lemma MenuItemClickCloses(s: WidgetState, hasCallback: bool)
    ensures !Apply(s, MenuItemClick(hasCallback)).isDropdownOpen
    ensures hasCallback ==> !Apply(s, MenuItemClick(hasCallback)[..1]).isDropdownOpen
  {
    var e := MenuItemClick(hasCallback);
    var closed := WidgetState(false);
    assert e[..1] == [CloseDropdown] && [CloseDropdown][1..] == [];
    if hasCallback {
      assert e == [CloseDropdown, InvokeCallback];
      assert e[1..] == [InvokeCallback] && [InvokeCallback][1..] == [];
      assert Apply(closed, [InvokeCallback]) == closed;
    } else {
      assert e == [CloseDropdown];
    }
  }

  /** The document mousedown listener, registered only while the menu is open. */
  function OutsideClick(s: WidgetState, inside: bool): (r: WidgetState)
    ensures s.isDropdownOpen && !inside ==> !r.isDropdownOpen
    ensures !s.isDropdownOpen || inside ==> r == s
  {
    if s.isDropdownOpen && !inside then WidgetState(false) else s
  }

  /** Two clicks on the trigger restore the menu state. */
  lemma ToggleTwice(s: WidgetState)
    ensures Toggle(Toggle(s)) == s
  {
  }

  /** Every way of leaving the menu (an outside click, a menu item click)
      ends closed; a further document mousedown then changes nothing, and
      only the trigger opens the menu again. */
  lemma ClosedStaysClosed(s: WidgetState, inside: bool, hasCallback: bool)
    ensures var c := OutsideClick(Toggle(WidgetState(false)), false);
      !c.isDropdownOpen && OutsideClick(c, inside) == c && Toggle(c).isDropdownOpen
    ensures var m := Apply(s, MenuItemClick(hasCallback));
      OutsideClick(m, inside) == m && Toggle(m).isDropdownOpen
  {
    MenuItemClickCloses(s, hasCallback);
  }

  /** The user's interactions with the widget: a click on the trigger, a
      click on a menu item (with or without a callback), and a mousedown
      anywhere in the document, inside the widget or not. */
  datatype WidgetEvent = TriggerClick | ItemClick(hasCallback: bool) | MouseDown(inside: bool)

  function WidgetStep(s: WidgetState, e: WidgetEvent): WidgetState
  {
    match e
    case TriggerClick => Toggle(s)
    case ItemClick(hasCallback) => Apply(s, MenuItemClick(hasCallback))
    case MouseDown(inside) => OutsideClick(s, inside)
  }

  function WidgetRun(s: WidgetState, events: seq<WidgetEvent>): WidgetState
    decreases |events|
  {
    if events == [] then s else WidgetRun(WidgetStep(s, events[0]), events[1..])
  }

  /** The events after which the menu is closed whatever its state before. */
  predicate Closing(e: WidgetEvent)
  {
    e.ItemClick? || (e.MouseDown? && !e.inside)
  }

  lemma ClosingStep(s: WidgetState, e: WidgetEvent)
    requires Closing(e)
    ensures WidgetStep(s, e) == WidgetState(false)
  {
    if e.ItemClick? {
      MenuItemClickCloses(s, e.hasCallback);
    }
  }

  /** A closing event forgets the past: the menu's state depends only on the
      events after it. */
  lemma {:induction false} ClosingForgets(s: WidgetState, events: seq<WidgetEvent>, i: int)
    requires 0 <= i < |events| && Closing(events[i])
    ensures WidgetRun(s, events) == WidgetRun(WidgetState(false), events[i + 1..])
    decreases i
  {
    if i == 0 {
      ClosingStep(s, events[0]);
    } else {
      assert events[1..][i - 1] == events[i];
      assert events[1..][i..] == events[i + 1..];
      ClosingForgets(WidgetStep(s, events[0]), events[1..], i - 1);
    }
  }

  /** Without a closing event, the menu is open exactly when its initial state
      was flipped by an odd number of trigger clicks. */
  lemma {:induction false} TriggerParity(s: WidgetState, events: seq<WidgetEvent>)
    requires forall i :: 0 <= i < |events| ==> !Closing(events[i])
    ensures WidgetRun(s, events).isDropdownOpen
        <==> (s.isDropdownOpen != (multiset(events)[TriggerClick] % 2 == 1))
    decreases |events|
  {
    if events != [] {
      assert events == [events[0]] + events[1..];
      assert !Closing(events[0]);
      TriggerParity(WidgetStep(s, events[0]), events[1..]);
    }
  }

  /** What the avatar area shows. */
  datatype AvatarView = Image(src: string) | Placeholder(initials: string)

  /** The avatar: the image when `avatarUrl` is a non-empty string, otherwise
      (`null` or `""`, both falsy) the user name's initials. */
  function Avatar(avatarUrl: Option<string>, userName: string): (r: AvatarView)
    ensures r.Image? <==> avatarUrl.Some? && avatarUrl.value != ""
    ensures r.Image? ==> r.src == avatarUrl.value
    ensures r.Placeholder? ==> r.initials == Initials(userName) && |r.initials| <= 2
  {
    match avatarUrl
    case Some(url) => if url != "" then Image(url) else Placeholder(Initials(userName))
    case None => Placeholder(Initials(userName))
  }

  /** "Jean Dupont" without an avatar shows "JD". */
  lemma AvatarExample()
    ensures Avatar(None, "Jean Dupont") == Placeholder("JD")
  {
    var words := ["Jean", "Dupont"];
    assert ' ' !in words[0] && ' ' !in words[1];
    InitialsOfWords(words);
    assert Join(words[1..], " ") == "Dupont";
    assert Join(words, " ") == "Jean Dupont";
    var u := Upper(['J', 'D']);
    assert u[0] == 'J' && u[1] == 'D';
    assert u == "JD";
  }
}
