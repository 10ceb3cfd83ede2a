/**
 * The colour theme: `loadTheme` (js/app.js:129-143) picks the mode from the stored
 * preference and the operating system's dark-scheme flag, and the theme switcher
 * (js/app.js:164-171) flips it and stores the new mode.
 */
module Theme {
  import opened Wrappers

  const Dark := "dark"
  const Light := "light"

  /** The mode `loadTheme` writes: a non-empty stored value decides (`dark` exactly
      when it is `"dark"`); without one the dark-scheme flag decides. */
  function ResolveMode(stored: Option<string>, prefersDark: bool): (mode: string)
    ensures mode == Dark || mode == Light
    ensures stored.Some? && stored.value != "" ==> (mode == Dark <==> stored.value == Dark)
    ensures stored.None? || stored.value == "" ==> (mode == Dark <==> prefersDark)
  {
    if stored.Some? && stored.value != "" then
      (if stored.value == Dark then Dark else Light)
    else if prefersDark then Dark else Light
  }

  /** The mode the switcher sets: `light` from `dark`, `dark` from anything else. */
  function Toggled(mode: string): (r: string)
    ensures r == Dark || r == Light
    ensures r == Dark <==> mode != Dark
  {
    if mode == Dark then Light else Dark
  }

  /** Two presses of the switcher from a mode `loadTheme` can write restore it. */
  lemma ToggleTwice(mode: string)
    requires mode == Dark || mode == Light
    ensures Toggled(Toggled(mode)) == mode
  {
  }

  /** After a press, loading the theme again (as on the next visit) gives the mode the
      press set, whatever the dark-scheme flag says. */
  lemma ToggleSurvivesReload(mode: string, prefersDark: bool)
    ensures ResolveMode(Some(Toggled(mode)), prefersDark) == Toggled(mode)
  {
  }

  /** The `data-theme` attribute of the root element and the `dark-mode` entry of the
      local storage. */
  class ThemeManager {
    var theme: string
    var stored: Option<string>

    constructor (stored: Option<string>)
      ensures this.stored == stored && theme == ""
    {
      this.stored := stored;
      theme := "";
    }

    /** `loadTheme`: `mode` starts as `light`, becomes `dark` when the dark scheme is
        preferred, and is then overridden by a non-empty stored value. */
    method LoadTheme(prefersDark: bool)
      modifies this
      ensures theme == ResolveMode(stored, prefersDark)
      ensures stored == old(stored)
    {
      var mode := Light;
      if prefersDark {
        mode := Dark;
      }
      if stored.Some? && stored.value != "" {
        mode := if stored.value == Dark then Dark else Light;
      }
      theme := mode;
    }

    /** The switcher's click handler: flip the attribute and store the new mode. */
    method Toggle()
      modifies this
      ensures theme == Toggled(old(theme))
      ensures stored == Some(theme)
    {
      var mode := if theme == Dark then Light else Dark;
      theme := mode;
      stored := Some(mode);
    }
  }

  /** Loading, pressing twice, and loading again ends in the mode first loaded, with
      that mode stored. */
  method LoadToggleTwiceReload(stored: Option<string>, prefersDark: bool) returns (first: string, last: string)
    ensures first == ResolveMode(stored, prefersDark)
    ensures last == first
  {
    var m := new ThemeManager(stored);
    m.LoadTheme(prefersDark);
    first := m.theme;
    m.Toggle();
    m.Toggle();
    ToggleTwice(first);
    m.LoadTheme(prefersDark);
    last := m.theme;
  }
}
