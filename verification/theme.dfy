/**
 * The theme toggle: the stored theme is any string (it is read back from storage as it
 * was saved), the button cycles light, dark and system, and the theme shown resolves
 * "system" through the colour-scheme preference.
 */
module Theme {
  import opened Wrappers

  const Light := "light"
  const Dark := "dark"
  const System := "system"

  /** `toggleTheme`: light to dark, dark to system, anything else to light. */
  function Toggle(prev: string): (r: string)
    ensures r in {Light, Dark, System}
  {
    if prev == Light then Dark
    else if prev == Dark then System
    else Light
  }

  /** The cycle has period three on the three themes, and any other value joins it at light. */
  lemma ToggleCycle(t: string)
    ensures t in {Light, Dark, System} ==> Toggle(Toggle(Toggle(t))) == t
    ensures t !in {Light, Dark} ==> Toggle(t) == Light
    ensures Toggle(Light) == Dark && Toggle(Dark) == System && Toggle(System) == Light
  {
  }

  /**
   * `getCurrentTheme`: "system" resolves through the dark-scheme preference, or to light
   * when rendering without a window (`None`); any other value is shown as it is.
   */
  function Resolve(theme: string, prefersDark: Option<bool>): (r: string)
    ensures r != System
    ensures theme != System ==> r == theme
    ensures theme == System ==> r in {Light, Dark}
  {
    if theme == System then
      if prefersDark == Some(true) then Dark else Light
    else theme
  }

  /** The restore effect: a non-empty saved value replaces the initial "system". */
  function Restore(saved: Option<string>): (r: string)
    ensures saved.Some? && saved.value != "" ==> r == saved.value
    ensures saved.None? || saved == Some("") ==> r == System
  {
    if saved.Some? && saved.value != "" then saved.value else System
  }

  /** After at most one press from any restored theme, only the three themes are ever shown as stored. */
  lemma ToggleEntersCycle(saved: Option<string>, prefersDark: Option<bool>)
    ensures Toggle(Restore(saved)) in {Light, Dark, System}
    ensures Resolve(Toggle(Restore(saved)), prefersDark) in {Light, Dark}
  {
  }
}
