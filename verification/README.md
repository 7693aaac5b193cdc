# Portfolio page behaviour: a Dafny model

This project models the small amount of deterministic logic in the client-side
script `assets/main.js` of a personal portfolio page. It is written as pure functions over
immutable state records, and it proves what the script promises about them.

- **Skills carousel** (`carousel.dfy`, module `Carousel`). This is the core. It holds the
  current slide index, a pointer drag (`startX`, `curX`, `dragging`) and
  everything `updateSkills` writes into the page: the track transform and
  transition, `aria-hidden` and `tabindex` on every slide, the disabled flags of
  the prev and next buttons, and the status line `Card {idx+1} of {total}`.
  Navigation (`go`, the buttons, the arrow keys) clamps the index. Releasing a
  drag moves back one slide, forward one slide, or snaps back, using a threshold
  of 15% of one slide's width.
- **Contact dropdown** (`contact_menu.dfy`, module `ContactMenu`). This covers the
  `aria-expanded` and `hidden` flags, focus, and the cyclic arrow-key arithmetic.
  The arithmetic uses JavaScript's truncating `%`, written out as `JsRem`.
- **Projects grid** (`projects.dfy`, module `Projects`). This covers the "ongoing"
  test on a card's end date, the "ongoing only" filter, and the four sort
  comparators plus the fallback for an unknown mode. It also includes a stable
  insertion sort that is proved to return a sorted permutation.
- **Theme switch** (`theme.dfy`, module `Theme`). This covers validation of the stored
  value, the toggle rule, and `aria-pressed`.
- `text.dfy` (module `Text`) holds decimal rendering of naturals, which stands for
  template-literal interpolation, together with its parse-back. It also holds ASCII
  lower-casing. `wrappers.dfy` holds `Option`.

The following are all inputs to the model:

- the slide count;
- the width of one slide, as an exact `real`;
- pointer positions;
- the reduced-motion preference (`motionOk`);
- the number of menu items;
- the clock reading used by the "nearest" sort;
- the system colour-scheme preference.

Three behaviours of the carousel code are easy to misread, and the model keeps
each of them as written:

- `go` on an empty carousel sets the index to 0 rather than doing nothing.
- The next button is disabled when `idx == total - 1`, an equality test, so with
  no slides it stays enabled. The status line then reads "Card 1 of 0".
- Releasing a drag clears only `dragging` and keeps `startX` and `curX`.

## Model

| member | source | states |
|---|---|---|
| Carousel.Clamp | assets/main.js:192 | the index is a slide position when there are slides, and 0 when there are none; an in-range request is kept; below range gives the first slide; above range gives the last |
| Carousel.ClampIsNearest | assets/main.js:192 | the clamped index is at least as close to the requested index as any slide position |
| Carousel.GoState | assets/main.js:190-192 | `go` leaves the index in range, honours in-range requests, saturates at both ends, and touches no drag field |
| Carousel.Go | assets/main.js:190-194 | `go` changes the state as `GoState` does and replaces the whole view with the rendering for the new index |
| Carousel.Render | assets/main.js:176-189 | offset is `-(idx*100)`%; exactly slide `idx` has aria-hidden "false" and tabindex "0", and every other slide has "true" and "-1"; prev is disabled iff `idx == 0`; next is disabled iff `idx == total-1`; the status line parses to `(idx+1, total)`, which by `ParseStatusExact` pins it to "Card {idx+1} of {total}"; the transition is eased iff motion is allowed |
| Carousel.StatusText | assets/main.js:188 | the status line parses back to exactly the two numbers it was built from, and it is the only text that parses to that pair |
| Carousel.ParseStatusExact | assets/main.js:188 | any text that parses to a pair `(a, b)` is exactly "Card a of b" with no leading zeros |
| Carousel.UpdateSkills | assets/main.js:176-189 | re-rendering leaves the controller state unchanged and replaces the view with the rendering for the current index |
| Carousel.Next | assets/main.js:196 | the next button moves one slide forward from a slide position, stays put on the last slide, and re-renders |
| Carousel.Prev | assets/main.js:195 | the prev button moves one slide back from a slide position, stays put on the first slide, and re-renders |
| Carousel.KeyDown | assets/main.js:197-200 | ArrowRight moves the state as the next button does and ArrowLeft as the prev button does, each followed by a re-render for the new index; any other key changes nothing |
| Carousel.KeyDownMovesOneStep | assets/main.js:195-200 | an arrow key moves one slide in its direction, or stays put at the matching end; other keys do nothing |
| Carousel.NextSaturates | assets/main.js:192-196 | Next on the last slide changes nothing, and the next button is disabled there |
| Carousel.PrevSaturates | assets/main.js:192-195 | Prev on the first slide changes nothing, and the prev button is disabled there |
| Carousel.GoIdempotent | assets/main.js:190-194 | `go(n)` twice equals `go(n)` once, view included |
| Carousel.GoCurrentIsUpdate | assets/main.js:190-194 | `go(idx)` on an in-range index is exactly a re-render with unchanged state |
| Carousel.NextTimesSaturates | assets/main.js:196-198 | from a slide position, `k` presses of Next reach `min(idx+k, total-1)` |
| Carousel.PrevTimesSaturates | assets/main.js:195-199 | from a slide position, `k` presses of Prev reach `max(idx-k, 0)` |
| Carousel.OnStart | assets/main.js:204 | a press starts a fresh drag with `curX = startX = x` and keeps the index; it drops the transition only when motion is allowed |
| Carousel.OnMove | assets/main.js:205-207 | this is a no-op unless dragging; it never moves the index or the origin; it records `x` and moves the track to `x - startX - idx*width` pixels |
| Carousel.OnEnd | assets/main.js:208-211 | this is a no-op unless dragging; afterwards `dragging` is false, `startX` and `curX` are kept, and the index stays in range |
| Carousel.OnEndDecision | assets/main.js:208-211 | for width >= 0, with dragging cleared: `dx > 0.15*width` gives Prev's state; `dx < -0.15*width` gives Next's state; anything else keeps the state; in every case the view is re-rendered for the resulting index |
| Carousel.OnEndAtThresholdStays | assets/main.js:210 | a displacement of exactly plus or minus the threshold never navigates |
| Carousel.StartThenEndStays | assets/main.js:204-211 | a press released without movement never navigates, and it leaves `startX = curX = x` with dragging off |
| Carousel.MovesKeepLast | assets/main.js:205-207 | during a drag, any run of moves leaves the state as if only the last position had been seen |
| Carousel.GestureOutcome | assets/main.js:203-211 | press, moves and release: the new index depends only on the net displacement to the last position |
| Carousel.InitialRender | assets/main.js:174-220 | the first render at page load shows slide 0 with offset 0%, prev disabled, next disabled iff there is one slide, and status "Card 1 of total" |
| Carousel.FiveSlideScenario | assets/main.js:186-199 | 5 slides starting at index 2: three Nexts reach index 4 with next disabled, and one Prev gives "Card 4 of 5" |
| Carousel.SingleSlideScenario | assets/main.js:186-199 | with 1 slide, Next and Prev do nothing and both buttons are disabled |
| Carousel.EmptyScenario | assets/main.js:186-194 | with 0 slides, the index is 0, prev is disabled, next is enabled, there are no slide attributes, and the status reads "Card 1 of 0" |
| ContactMenu.OpenMenu | assets/main.js:104-108 | opening shows and expands the menu and focuses item 0 if any item exists |
| ContactMenu.CloseMenu | assets/main.js:109-112 | closing hides and collapses the menu; a focused item loses focus with it, and focus anywhere else stays put |
| ContactMenu.FocusedIndex | assets/main.js:123 | the index is exactly the focused item's position when an item has focus, and -1 otherwise |
| ContactMenu.JsRem | assets/main.js:125-126 | the truncating remainder lies strictly between `-b` and `b`, has the sign of the dividend, and differs from it by a multiple of `b` |
| ContactMenu.DownTarget | assets/main.js:125 | from any index in `[-1, len)` the ArrowDown target is the item `(i+1) mod len` |
| ContactMenu.UpTarget | assets/main.js:126 | from any index in `[-1, len)` the ArrowUp target is the item `(i-1+len) mod len` |
| ContactMenu.OnButtonClick | assets/main.js:114-117 | a click flips `aria-expanded` and keeps the flags consistent; opening focuses the first item and closing takes focus off any item |
| ContactMenu.OnButtonKey | assets/main.js:118-120 | ArrowDown, Enter and Space open the menu and focus the first item; other keys change nothing |
| ContactMenu.OnMenuKey | assets/main.js:121-128 | Escape closes and focuses the button; Tab closes; arrow keys keep the flags and focus the next or previous item cyclically; other keys change nothing |
| ContactMenu.OnDocumentClick | assets/main.js:129-131 | the menu is closed iff it was showing and the click was outside it and the button; otherwise nothing changes |
| ContactMenu.Step | assets/main.js:113-132 | every event keeps `hidden == !expanded`, and resize always closes the menu |
| ContactMenu.TargetsInRange | assets/main.js:125-126 | from any index in `[-1, len)`, both arrow targets lie in `[0, len)` and agree with `(i+1) mod len` and `(i-1+len) mod len` |
| ContactMenu.TargetsWrap | assets/main.js:125-126 | ArrowDown wraps from the last item to the first, ArrowUp from the first to the last, and ArrowDown with nothing focused picks the first |
| ContactMenu.DownUpInverse | assets/main.js:125-126 | the ArrowUp target undoes the ArrowDown target and vice versa |
| ContactMenu.ClickToggles | assets/main.js:114-117 | a button click flips `aria-expanded` and leaves the flags consistent |
| ContactMenu.ClickTwiceRestoresFlags | assets/main.js:114-117 | from a consistent state, two clicks restore both flags |
| ContactMenu.ButtonKeysOpen | assets/main.js:118-120 | ArrowDown, Enter and Space on the button open the menu and focus the first item; other keys change nothing |
| ContactMenu.ClosingEvents | assets/main.js:121-132 | Escape, Tab and resize always leave the menu closed; Escape returns focus to the button, and Tab and resize take focus off a hidden item |
| ContactMenu.ArrowKeysMoveFocusOnly | assets/main.js:121-126 | arrow keys change only focus, onto item `(i+1) mod len` or `(i-1+len) mod len` |
| ContactMenu.DownThenUpReturns | assets/main.js:125-126 | ArrowDown then ArrowUp restores the whole menu state |
| ContactMenu.ArrowKeysWithoutItems | assets/main.js:122-126 | with no items, the arrow keys do nothing |
| ContactMenu.StepKeepsConsistent | assets/main.js:104-132 | every event keeps `hidden == !expanded` |
| ContactMenu.DocumentClickCloses | assets/main.js:129-131 | a click outside closes an open menu, and a click on the menu or the button changes nothing |
| ContactMenu.DownTimesCycles | assets/main.js:125 | `k` presses of ArrowDown from item `i` land on item `(i+k) mod len` |
| ContactMenu.FullCycleReturns | assets/main.js:125 | `len` presses of ArrowDown return to the starting item |
| Projects.IsOngoingIff | assets/main.js:141 | a card is ongoing iff its end text is empty or is seven letters, each the matching letter of "present" in lower or upper case |
| Projects.OngoingExamples | assets/main.js:141 | "", "Present" and "PRESENT" are ongoing; a date and "presently" are not |
| Projects.ApplyFilter | assets/main.js:153-161 | one style per card; a card is hidden (display none, aria-hidden "true", opacity 0, scaled) iff the checkbox is on and the card is not ongoing |
| Projects.FilterShowsExactlyOngoing | assets/main.js:155-157 | with the checkbox off, every card is shown; with it on, exactly the ongoing cards are shown |
| Projects.ParseMode | assets/main.js:145-150 | each of the four comparator names selects its own comparator, and every other value selects the constant-0 comparator |
| Projects.CompareAntisymmetric | assets/main.js:145-150 | every comparator changes sign when its arguments are swapped |
| Projects.CompareTransitive | assets/main.js:145-150 | for every comparator, "not after" is transitive |
| Projects.Compare | assets/main.js:145-150 | newest and oldest order by start date, nearest orders by distance from today, ongoingfirst puts ongoing cards first and then the newest, and unknown compares everything as equal |
| Projects.Insert | assets/main.js:151 | inserting into a sorted list gives a sorted list holding one more copy of the card |
| Projects.SortProjects | assets/main.js:143-152 | the result is sorted under the comparator and is a permutation of the cards |
| Projects.OngoingFirstOrder | assets/main.js:149-151 | after an "ongoingfirst" sort, every ongoing card precedes every finished one, and cards of equal status run newest first |
| Projects.NewestOldestOrder | assets/main.js:146-151 | "newest" gives non-increasing start dates and "oldest" gives non-decreasing ones |
| Projects.NearestOrder | assets/main.js:148-151 | "nearest" gives non-decreasing distance from today |
| Projects.UnknownModeKeepsOrder | assets/main.js:150-151 | an unknown mode leaves the order of the cards unchanged |
| Theme.LoadSaved | assets/main.js:5-6 | a stored value is applied iff it is exactly "light" or "dark"; otherwise nothing changes |
| Theme.CurrentTheme | assets/main.js:24-25 | a non-empty attribute wins; otherwise the colour-scheme preference decides between light and dark |
| Theme.Toggled | assets/main.js:26 | the result is a valid theme that differs from the current one, and it is dark iff the current one is light |
| Theme.SetTheme | assets/main.js:13-18 | the attribute and the storage take the new theme, and `aria-pressed` is "true" iff it is dark |
| Theme.OnClick | assets/main.js:23-27 | a click shows and stores a valid theme opposite to the one in force, and `aria-pressed` is "true" iff it is dark |
| Theme.ClickSwitchesTheme | assets/main.js:13-27 | a click always shows a valid theme different from the previous one, and `aria-pressed` is "true" exactly for dark |
| Theme.ClickSurvivesReload | assets/main.js:5-27 | what a click stores is accepted on reload and shows the same theme |
| Theme.ClickTwiceRestores | assets/main.js:23-27 | two clicks from a valid theme return to it |
| Theme.UnknownThemeBecomesLight | assets/main.js:23-27 | a non-empty attribute other than "light" switches to light |
| Text.DigitsToNatOfNatToString | assets/main.js:188 | decimal interpolation of a natural reads back as the same natural |
| Text.NatToStringOfDigitsToNat | assets/main.js:188 | a digit string without leading zeros is the interpolation of the number it denotes |

## Left out

- DOM access, event-listener registration, `localStorage`, `matchMedia` and View
  Transitions. Their values are parameters and their effects are results.
- Theme.OnClick: each click's update is taken to be applied before the next
  event. When motion is allowed and View Transitions exist (lines 19-20), the
  update runs later, so a second click that arrives first reads the old
  attribute. Theme.ClickTwiceRestores holds only when the clicks do not overlap.
- The footer year, the cursor-blob easing loop, card tilt, magnetic buttons and aurora parallax (lines 2 and 29-99),
  and the scroll-reveal stagger (lines 56-71). These are floating-point visual
  effects or observer plumbing with no logic to state.
- `parseISO` (lines 139-140). Start dates are already-parsed integer timestamps.
  A missing or unparsable start yields `null`, which JavaScript subtraction
  turns into 0, so it is represented as timestamp 0. A start of "present"
  reads the clock anew on every comparator call and is not modelled.
- Projects.SortProjects: the engine's `Array.prototype.sort` algorithm is not
  modelled. It is replaced by an insertion sort over the same comparators, which
  are proved to be consistent orderings. Stability is not proved.
- Projects.ParseMode: select values that name inherited `Object.prototype`
  members (for example "constructor") are treated as unknown. The lookup on line 150
  would find those members.
- Projects.IsOngoing: ASCII lower-casing is used rather than full Unicode
  `toLowerCase`. No non-ASCII character lower-cases to a letter of "present",
  so the test gives the same answer.
- Projects.ApplyFilter: a missing checkbox is passed as unchecked, which matches
  `undefined` being falsy.
- The slide width is taken as an input. The script computes it as the track's
  pixel width divided by the slide count, and that division by zero with no
  slides is not modelled. Pointer positions and the 0.15 factor are exact reals,
  not IEEE doubles.
- Carousel.OnEndDecision: stated only for a non-negative slide width. The same
  holds for Carousel.OnEndAtThresholdStays, Carousel.StartThenEndStays and
  Carousel.GestureOutcome. With a negative width both thresholds could be
  crossed at once, and a measured width is never negative.
- ContactMenu.CloseMenu: when a hidden item loses focus, the browser moves focus
  to the document at its next rendering update, not at once. The model applies
  this at once. Where the Tab key's default action then sends focus is not modelled.
  The `data-open` attribute always equals the expanded flag and is folded into it.
- The guard that wires the menu only when both elements exist (line 113), and
  the initial markup state of the flags, are not modelled. The flags are
  arbitrary inputs, and consistency is proved to be preserved.
- The menu item list and the slide list are re-read on every event. Their
  lengths are per-call parameters, and the elements themselves are not modelled.
