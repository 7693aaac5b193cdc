/** The light/dark theme switch of `assets/main.js`: the `data-theme`
    attribute on the root element, the value kept in local storage under
    `kwj-theme`, and the button's `aria-pressed` flag. Storage and the
    colour-scheme media query are inputs. */
module Theme {
  import opened Wrappers

  const Light := "light"
  const Dark := "dark"

  predicate IsTheme(s: string) {
    s == Light || s == Dark
  }

  datatype ThemeState = ThemeState(dataTheme: Option<string>, stored: Option<string>, ariaPressed: Option<string>)

  /** Page load: a stored value is applied only when it is exactly "light" or
      "dark"; anything else leaves the attribute as the markup had it. */
  function LoadSaved(st: ThemeState): (r: ThemeState)
    ensures st.stored.Some? && IsTheme(st.stored.value) ==> r.dataTheme == st.stored
    ensures !(st.stored.Some? && IsTheme(st.stored.value)) ==> r == st
    ensures r.stored == st.stored && r.ariaPressed == st.ariaPressed
  {
    match st.stored
    case Some(saved) => if saved == Light || saved == Dark then st.(dataTheme := Some(saved)) else st
    case None => st
  }

  /** The theme in force when the button is clicked: the attribute if it is
      set to a non-empty value, otherwise the system colour-scheme preference. */
  function CurrentTheme(dataTheme: Option<string>, prefersLight: bool): (t: string)
    ensures dataTheme.Some? && dataTheme.value != "" ==> t == dataTheme.value
    ensures (dataTheme.None? || dataTheme.value == "") ==> IsTheme(t) && (t == Light <==> prefersLight)
  {
    match dataTheme
    case Some(v) => if v != "" then v else (if prefersLight then Light else Dark)
    case None => if prefersLight then Light else Dark
  }

  /** "light" becomes "dark"; anything else becomes "light". */
  function Toggled(current: string): (next: string)
    ensures IsTheme(next) && next != current
    ensures current == Light <==> next == Dark
  {
    if current == Light then Dark else Light
  }

  /** `setTheme`: write the attribute and the storage, and press the button
      exactly for the dark theme. */
  function SetTheme(st: ThemeState, next: string): (r: ThemeState)
    ensures r.dataTheme == Some(next) && r.stored == Some(next)
    ensures r.ariaPressed == Some(if next == Dark then "true" else "false")
  {
    ThemeState(Some(next), Some(next), Some(if next == Dark then "true" else "false"))
  }

  /** A click on the theme button: the opposite of the theme in force is
      shown, stored, and reflected in `aria-pressed`. */
  function OnClick(st: ThemeState, prefersLight: bool): (r: ThemeState)
    ensures r.dataTheme.Some? && IsTheme(r.dataTheme.value)
    ensures r.dataTheme.value != CurrentTheme(st.dataTheme, prefersLight)
    ensures r.stored == r.dataTheme
    ensures r.ariaPressed == Some("true") <==> r.dataTheme == Some(Dark)
  {
    SetTheme(st, Toggled(CurrentTheme(st.dataTheme, prefersLight)))
  }

  /** After a click the page shows a valid theme different from the one in
      force before, and `aria-pressed` is "true" exactly for dark. */
  lemma ClickSwitchesTheme(st: ThemeState, prefersLight: bool)
    ensures var r := OnClick(st, prefersLight);
            && r.dataTheme.Some? && IsTheme(r.dataTheme.value)
            && r.dataTheme.value != CurrentTheme(st.dataTheme, prefersLight)
            && (r.ariaPressed == Some("true") <==> r.dataTheme == Some(Dark))
            && (r.ariaPressed == Some("false") <==> r.dataTheme == Some(Light))
  {
  }

  /** What a click writes to storage is accepted on the next load, which then
      shows the same theme whatever the markup says. */
  lemma ClickSurvivesReload(st: ThemeState, prefersLight: bool, markup: Option<string>)
    ensures var r := OnClick(st, prefersLight);
            LoadSaved(r.(dataTheme := markup)).dataTheme == r.dataTheme
  {
  }

  /** Two clicks from a valid theme come back to it, whatever the preference. */
  lemma ClickTwiceRestores(st: ThemeState, prefersLight: bool)
    requires st.dataTheme.Some? && IsTheme(st.dataTheme.value)
    ensures OnClick(OnClick(st, prefersLight), prefersLight).dataTheme == st.dataTheme
  {
  }

  /** A non-empty attribute that is not "light" (a stale or misspelt value)
      is treated as dark: the click switches to light. */
  lemma UnknownThemeBecomesLight(st: ThemeState, prefersLight: bool)
    requires st.dataTheme.Some? && st.dataTheme.value != "" && st.dataTheme.value != Light
    ensures OnClick(st, prefersLight).dataTheme == Some(Light)
    ensures OnClick(st, prefersLight).ariaPressed == Some("false")
  {
  }
}
