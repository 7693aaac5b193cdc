/** The contact dropdown of `assets/main.js`: the button's `aria-expanded`
    flag, the menu's `hidden` flag, and where keyboard focus sits. The number
    of menu items is an input; the browser's own focus movement on Tab is not
    modelled. */
module ContactMenu {

  /** Where focus is: the contact button, the `i`-th menu item, or elsewhere. */
  datatype Focus = OnButton | OnItem(i: nat) | Elsewhere

  datatype Menu = Menu(expanded: bool, hidden: bool, focus: Focus)

  /** What the page can do to the menu. */
  datatype Event =
    | ButtonClick
    | ButtonKey(key: string)
    | MenuKey(key: string)
    | DocumentClick(outside: bool)
    | Resize

  /** The two visibility flags agree: open exactly when shown. */
  predicate Consistent(m: Menu) {
    m.hidden == !m.expanded
  }

  /** `openMenu`: show, mark expanded, focus the first item if there is one. */
  function OpenMenu(m: Menu, len: nat): (r: Menu)
    ensures r.expanded && !r.hidden
    ensures len > 0 ==> r.focus == OnItem(0)
    ensures len == 0 ==> r.focus == m.focus
  {
    Menu(true, false, if len > 0 then OnItem(0) else m.focus)
  }

  /** `closeMenu`: hide and mark collapsed. A menu item that had focus is
      hidden with the menu, so focus falls back to the document; focus
      anywhere else stays put. */
  function CloseMenu(m: Menu): (r: Menu)
    ensures !r.expanded && r.hidden
    ensures !r.focus.OnItem?
    ensures !m.focus.OnItem? ==> r.focus == m.focus
  {
    m.(expanded := false, hidden := true, focus := if m.focus.OnItem? then Elsewhere else m.focus)
  }

  // ---------------------------------------------------------------------------
  // Arrow-key index arithmetic

  /** JavaScript's `%` on integers: truncating division, so the remainder
      takes the sign of the dividend. */
  function JsRem(a: int, b: int): (r: int)
    requires b > 0
    ensures -b < r < b
    ensures a >= 0 ==> r >= 0
    ensures a <= 0 ==> r <= 0
    ensures (a - r) % b == 0
  {
    if a >= 0 then
      ModUnique(a - a % b, b, a / b, 0);
      a % b
    else
      ModUnique(a + (-a) % b, b, -((-a) / b), 0);
      -((-a) % b)
  }

  /** `items.indexOf(document.activeElement)`: -1 unless an item has focus. */
  function FocusedIndex(f: Focus, len: nat): (idx: int)
    ensures -1 <= idx < len
    ensures idx >= 0 <==> f.OnItem? && f.i < len
    ensures f.OnItem? && f.i < len ==> idx == f.i
  {
    if f.OnItem? && f.i < len then f.i else -1
  }

  /** The item ArrowDown targets. */
  function DownTarget(idx: int, len: nat): (r: int)
    requires len > 0
    ensures -1 <= idx < len ==> 0 <= r < len && r == (idx + 1) % len
  {
    JsRem(idx + 1, len)
  }

  /** The item ArrowUp targets. */
  function UpTarget(idx: int, len: nat): (r: int)
    requires len > 0
    ensures -1 <= idx < len ==> 0 <= r < len && r == (idx - 1 + len) % len
  {
    JsRem(idx - 1 + len, len)
  }

  /** From any focused index (or from none) the targets stay among the items,
      and JavaScript's `%` agrees with the mathematical modulus there. */
  lemma TargetsInRange(idx: int, len: nat)
    requires len > 0 && -1 <= idx < len
    ensures 0 <= DownTarget(idx, len) < len && DownTarget(idx, len) == (idx + 1) % len
    ensures 0 <= UpTarget(idx, len) < len && UpTarget(idx, len) == (idx - 1 + len) % len
  {
  }

  /** ArrowDown wraps from the last item to the first, ArrowUp from the first
      to the last; with no item focused ArrowDown picks the first. */
  lemma TargetsWrap(len: nat)
    requires len > 0
    ensures DownTarget(len - 1, len) == 0
    ensures UpTarget(0, len) == len - 1
    ensures DownTarget(-1, len) == 0
  {
  }

  /** ArrowUp undoes ArrowDown and ArrowDown undoes ArrowUp. */
  lemma DownUpInverse(i: int, len: nat)
    requires len > 0 && 0 <= i < len
    ensures UpTarget(DownTarget(i, len), len) == i
    ensures DownTarget(UpTarget(i, len), len) == i
  {
    if i == len - 1 {
      ModWrap(len, len);
      ModSmall(len - 1, len);
    } else {
      ModSmall(i + 1, len);
      ModWrap(i + len, len);
    }
    if i == 0 {
      ModSmall(len - 1, len);
      ModWrap(len, len);
    } else {
      ModWrap(i - 1 + len, len);
      ModSmall(i, len);
    }
  }

  /** `items[j]?.focus()`: focus moves only when `j` names an item. */
  function FocusItem(m: Menu, j: int, len: nat): (r: Menu)
    ensures 0 <= j < len ==> r == m.(focus := OnItem(j))
    ensures !(0 <= j < len) ==> r == m
  {
    if 0 <= j < len then m.(focus := OnItem(j)) else m
  }

  // ---------------------------------------------------------------------------
  // Event handlers

  /** A click on the contact button toggles on the `aria-expanded` flag. */
  function OnButtonClick(m: Menu, len: nat): (r: Menu)
    ensures r.expanded == !m.expanded && Consistent(r)
    ensures !m.expanded && len > 0 ==> r.focus == OnItem(0)
    ensures m.expanded ==> !r.focus.OnItem?
  {
    if m.expanded then CloseMenu(m) else OpenMenu(m, len)
  }

  /** ArrowDown, Enter or Space on the contact button opens the menu. */
  function OnButtonKey(m: Menu, key: string, len: nat): (r: Menu)
    ensures key in {"ArrowDown", "Enter", " "} ==>
              r.expanded && !r.hidden && (len > 0 ==> r.focus == OnItem(0))
    ensures key !in {"ArrowDown", "Enter", " "} ==> r == m
  {
    if key == "ArrowDown" || key == "Enter" || key == " " then OpenMenu(m, len) else m
  }

  /** A key inside the menu: Escape closes and returns focus to the button,
      the arrows move focus cyclically, Tab closes. */
  function OnMenuKey(m: Menu, key: string, len: nat): (r: Menu)
    ensures key == "Escape" ==> !r.expanded && r.hidden && r.focus == OnButton
    ensures key == "Tab" ==> !r.expanded && r.hidden && !r.focus.OnItem?
    ensures key == "ArrowDown" || key == "ArrowUp" ==> r.expanded == m.expanded && r.hidden == m.hidden
    ensures key == "ArrowDown" && len > 0 ==> r.focus == OnItem((FocusedIndex(m.focus, len) + 1) % len)
    ensures key == "ArrowUp" && len > 0 ==> r.focus == OnItem((FocusedIndex(m.focus, len) - 1 + len) % len)
    ensures key !in {"Escape", "ArrowDown", "ArrowUp", "Tab"} ==> r == m
  {
    var idx := FocusedIndex(m.focus, len);
    if key == "Escape" then CloseMenu(m).(focus := OnButton)
    else if key == "ArrowDown" then (if len == 0 then m else FocusItem(m, DownTarget(idx, len), len))
    else if key == "ArrowUp" then (if len == 0 then m else FocusItem(m, UpTarget(idx, len), len))
    else if key == "Tab" then CloseMenu(m)
    else m
  }

  /** A click anywhere on the page closes a shown menu unless it landed on
      the menu or on the button. */
  function OnDocumentClick(m: Menu, outside: bool): (r: Menu)
    ensures !m.hidden && outside ==> !r.expanded && r.hidden
    ensures !(!m.hidden && outside) ==> r == m
  {
    if !m.hidden && outside then CloseMenu(m) else m
  }

  /** One page event; every event keeps the two visibility flags in agreement. */
  function Step(m: Menu, e: Event, len: nat): (r: Menu)
    ensures Consistent(m) ==> Consistent(r)
    ensures e == Resize ==> !r.expanded && r.hidden && !r.focus.OnItem?
  {
    match e
    case ButtonClick => OnButtonClick(m, len)
    case ButtonKey(k) => OnButtonKey(m, k, len)
    case MenuKey(k) => OnMenuKey(m, k, len)
    case DocumentClick(outside) => OnDocumentClick(m, outside)
    case Resize => CloseMenu(m)
  }

  // ---------------------------------------------------------------------------
  // Properties

  /** A click on the button flips the expanded flag, from any state. */
  lemma ClickToggles(m: Menu, len: nat)
    ensures Step(m, ButtonClick, len).expanded == !m.expanded
    ensures Consistent(Step(m, ButtonClick, len))
  {
  }

  /** Two clicks from a consistent state restore both flags. */
  lemma ClickTwiceRestoresFlags(m: Menu, len: nat)
    requires Consistent(m)
    ensures var r := Step(Step(m, ButtonClick, len), ButtonClick, len);
            r.expanded == m.expanded && r.hidden == m.hidden
  {
  }

  /** ArrowDown, Enter and Space on the button always leave the menu open
      with focus on its first item (when it has one); other keys do nothing. */
  lemma ButtonKeysOpen(m: Menu, key: string, len: nat)
    ensures var r := Step(m, ButtonKey(key), len);
            && (key in {"ArrowDown", "Enter", " "} ==>
                  r.expanded && !r.hidden && (len > 0 ==> r.focus == OnItem(0)))
            && (key !in {"ArrowDown", "Enter", " "} ==> r == m)
  {
  }

  /** Escape, Tab and resize always leave the menu closed; Escape also puts
      focus back on the button. */
  lemma ClosingEvents(m: Menu, len: nat)
    ensures var r := Step(m, MenuKey("Escape"), len); !r.expanded && r.hidden && r.focus == OnButton
    ensures var r := Step(m, MenuKey("Tab"), len);
            !r.expanded && r.hidden && r.focus == (if m.focus.OnItem? then Elsewhere else m.focus)
    ensures var r := Step(m, Resize, len);
            !r.expanded && r.hidden && r.focus == (if m.focus.OnItem? then Elsewhere else m.focus)
  {
  }

  /** Arrow keys only move focus, always onto an item, and follow the
      cyclic index arithmetic. */
  lemma ArrowKeysMoveFocusOnly(m: Menu, len: nat)
    requires len > 0
    ensures var r := Step(m, MenuKey("ArrowDown"), len);
            r.expanded == m.expanded && r.hidden == m.hidden &&
            r.focus == OnItem((FocusedIndex(m.focus, len) + 1) % len)
    ensures var r := Step(m, MenuKey("ArrowUp"), len);
            r.expanded == m.expanded && r.hidden == m.hidden &&
            r.focus == OnItem((FocusedIndex(m.focus, len) - 1 + len) % len)
  {
    TargetsInRange(FocusedIndex(m.focus, len), len);
  }

  /** ArrowDown then ArrowUp returns focus to the item it started on. */
  lemma DownThenUpReturns(m: Menu, i: nat, len: nat)
    requires i < len && m.focus == OnItem(i)
    ensures Step(Step(m, MenuKey("ArrowDown"), len), MenuKey("ArrowUp"), len) == m
  {
    TargetsInRange(i, len);
    DownUpInverse(i, len);
  }

  /** With no items the arrow keys do nothing. */
  lemma ArrowKeysWithoutItems(m: Menu)
    ensures Step(m, MenuKey("ArrowDown"), 0) == m
    ensures Step(m, MenuKey("ArrowUp"), 0) == m
  {
  }

  /** Every event keeps the two visibility flags in agreement. */
  lemma StepKeepsConsistent(m: Menu, e: Event, len: nat)
    requires Consistent(m)
    ensures Consistent(Step(m, e, len))
  {
  }

  /** A click outside closes an open menu; a click on it or on the button
      changes nothing. */
  lemma DocumentClickCloses(m: Menu, outside: bool, len: nat)
    requires Consistent(m)
    ensures outside ==> !Step(m, DocumentClick(outside), len).expanded
    ensures !outside ==> Step(m, DocumentClick(outside), len) == m
  {
  }

  /** `k` presses of ArrowDown inside the menu. */
  function DownTimes(m: Menu, k: nat, len: nat): Menu
    decreases k
  {
    if k == 0 then m else DownTimes(Step(m, MenuKey("ArrowDown"), len), k - 1, len)
  }

  /** Pressing ArrowDown `k` times from item `i` lands on item `(i + k) mod len`. */
  lemma {:induction false} DownTimesCycles(m: Menu, i: nat, k: nat, len: nat)
    requires i < len && m.focus == OnItem(i)
    ensures DownTimes(m, k, len) == m.(focus := OnItem((i + k) % len))
    decreases k
  {
    if k > 0 {
      TargetsInRange(i, len);
      var m' := Step(m, MenuKey("ArrowDown"), len);
      assert m' == m.(focus := OnItem((i + 1) % len));
      DownTimesCycles(m', (i + 1) % len, k - 1, len);
      ModAddAssoc(i, k, len);
    }
  }

  lemma ModAddAssoc(i: nat, k: nat, len: nat)
    requires len > 0 && k > 0 && i < len
    ensures ((i + 1) % len + (k - 1)) % len == (i + k) % len
  {
    if i + 1 < len {
      ModSmall(i + 1, len);
    } else {
      ModWrap(i + 1, len);
      ModPlus(k - 1, len);
    }
  }

  // Arithmetic facts about `%` that the solver does not find on its own.

  lemma ModSmall(a: int, len: int)
    requires len > 0 && 0 <= a < len
    ensures a % len == a
  {
  }

  lemma ModWrap(a: int, len: int)
    requires len > 0 && len <= a < 2 * len
    ensures a % len == a - len
  {
  }

  lemma MulAtLeast(y: int, k: int)
    requires y > 0 && k >= 1
    ensures y * k >= y
    decreases k
  {
    if k > 1 {
      MulAtLeast(y, k - 1);
      assert y * k == y * (k - 1) + y;
    }
  }

  /** The remainder is the unique `r` in `[0, len)` with `a = q * len + r`. */
  lemma ModUnique(a: int, len: int, q: int, r: int)
    requires len > 0 && 0 <= r < len && a == q * len + r
    ensures a % len == r
  {
    var q', r' := a / len, a % len;
    assert q * len + r == q' * len + r';
    if q > q' {
      MulAtLeast(len, q - q');
    } else if q < q' {
      MulAtLeast(len, q' - q);
    }
  }

  lemma ModPlus(a: int, len: int)
    requires len > 0 && 0 <= a
    ensures (a + len) % len == a % len
  {
    var q := a / len;
    assert a + len == (q + 1) * len + a % len;
    ModUnique(a + len, len, q + 1, a % len);
  }

  /** `len` presses of ArrowDown come back to the starting item. */
  lemma FullCycleReturns(m: Menu, i: nat, len: nat)
    requires i < len && m.focus == OnItem(i)
    ensures DownTimes(m, len, len) == m
  {
    DownTimesCycles(m, i, len, len);
    ModPlus(i, len);
    ModSmall(i, len);
  }
}
