/** The colour theme (scripts.js:362-402): `applyTheme` sets the body class, the toggle's
    icon and label, and, only for a manual change, the stored choice; `initializeTheme`
    prefers a stored choice over the system preference; the toggle button flips the
    current theme as a manual change. */
module Theme {
  import opened Options

  const StorageKey: string := "theme"
  const DarkValue: string := "dark"
  const LightValue: string := "light"
  const MoonIcon: string := "\U{1F319}"
  const SunIcon: string := "\U{2600}\U{FE0F}"
  const ToLightLabel: string := "Switch to light theme"
  const ToDarkLabel: string := "Switch to dark theme"

  /** The state `applyTheme` writes: the body's `dark-mode` class, the toggle's text and
      `aria-label`, and the `theme` entry of `localStorage` (`None` when absent). */
  datatype Look = Look(dark: bool, icon: string, ariaLabel: string, stored: Option<string>)

  /** `if (storedTheme)`: a stored entry counts only when present and not empty. */
  predicate HasChoice(stored: Option<string>) {
    stored.Some? && stored.value != []
  }

  /** The theme `initializeTheme` picks. */
  function InitialDark(stored: Option<string>, prefersDark: bool): bool {
    if HasChoice(stored) then stored.value == DarkValue else prefersDark
  }

  /** The value the toggle stores for a theme. */
  function StoredValue(isDark: bool): string {
    if isDark then DarkValue else LightValue
  }

  /** `applyTheme(isDark, isManual)`. */
  function Applied(s: Look, isDark: bool, isManual: bool): (r: Look)
    ensures r.dark == isDark
    ensures isManual ==> r.stored == Some(StoredValue(isDark))
    ensures !isManual ==> r.stored == s.stored
  {
    Look(isDark, if isDark then MoonIcon else SunIcon, if isDark then ToLightLabel else ToDarkLabel,
      if isManual then Some(StoredValue(isDark)) else s.stored)
  }

  /** `initializeTheme()` with the system preference `prefersDark`: a stored choice, when
      there is one, decides; the stored entry itself is left as it was. */
  function Initialized(s: Look, prefersDark: bool): (r: Look)
    ensures HasChoice(s.stored) ==> (r.dark <==> s.stored.value == DarkValue)
    ensures !HasChoice(s.stored) ==> r.dark == prefersDark
    ensures r.stored == s.stored && Consistent(r)
  {
    Applied(s, InitialDark(s.stored, prefersDark), false)
  }

  /** The toggle's click handler: the theme flips and the new one is stored as a choice. */
  function Toggled(s: Look): (r: Look)
    ensures r.dark == !s.dark
    ensures r.stored == Some(if r.dark then DarkValue else LightValue) && Consistent(r)
  {
    Applied(s, !s.dark, true)
  }

  /** The icon and label match the theme: the moon and "to light" in dark mode, the sun and
      "to dark" in light mode. */
  predicate Consistent(s: Look) {
    && (s.dark ==> s.icon == MoonIcon && s.ariaLabel == ToLightLabel)
    && (!s.dark ==> s.icon == SunIcon && s.ariaLabel == ToDarkLabel)
  }

  /** Every application leaves icon and label consistent with the theme. */
  lemma AppliedConsistent(s: Look, isDark: bool, isManual: bool)
    ensures Consistent(Applied(s, isDark, isManual))
  {
  }

  /** Applying the same theme again changes nothing. */
  lemma ApplyIdempotent(s: Look, isDark: bool, isManual: bool)
    ensures Applied(Applied(s, isDark, isManual), isDark, isManual) == Applied(s, isDark, isManual)
  {
  }

  /** The start-up theme is dark exactly when a stored choice says "dark", or when there is no
      stored choice and the system prefers dark. Any other stored text means light. */
  lemma InitialDarkIff(stored: Option<string>, prefersDark: bool)
    ensures InitialDark(stored, prefersDark) <==>
      (HasChoice(stored) && stored.value == DarkValue) || (!HasChoice(stored) && prefersDark)
    ensures HasChoice(stored) && stored.value != DarkValue ==> !InitialDark(stored, prefersDark)
  {
  }

  /** Toggling twice gives back the theme, now stored as a choice. */
  lemma ToggleTwice(s: Look)
    requires Consistent(s)
    ensures Toggled(Toggled(s)) == s.(stored := Some(StoredValue(s.dark)))
  {
  }

  /** What a toggle stores wins at the next start-up, whatever the system prefers: the stored
      value reads back as the theme it was written for. */
  lemma ToggleSurvivesReload(s: Look, reloaded: Look, prefersDark: bool)
    requires reloaded.stored == Toggled(s).stored
    ensures Initialized(reloaded, prefersDark).dark == Toggled(s).dark
  {
  }

  /** The page's body class, toggle button and storage entry, updated in place. */
  class ThemeController {
    var dark: bool
    var icon: string
    var ariaLabel: string
    var stored: Option<string>

    function State(): Look
      reads this
    {
      Look(dark, icon, ariaLabel, stored)
    }

    /** A page load: no `dark-mode` class yet, the button's markup text (not part of this
        model, so empty here) and whatever storage already holds. */
    constructor (storage: Option<string>)
      ensures State() == Look(false, "", "", storage)
    {
      dark, icon, ariaLabel, stored := false, "", "", storage;
    }

    method ApplyTheme(isDark: bool, isManual: bool)
      modifies this
      ensures State() == Applied(old(State()), isDark, isManual)
    {
      dark := isDark;
      if isDark {
        icon := MoonIcon;
        ariaLabel := ToLightLabel;
      } else {
        icon := SunIcon;
        ariaLabel := ToDarkLabel;
      }
      if isManual {
        stored := Some(if isDark then DarkValue else LightValue);
      }
    }

    method InitializeTheme(prefersDark: bool)
      modifies this
      ensures State() == Initialized(old(State()), prefersDark)
    {
      if stored.Some? && stored.value != [] {
        ApplyTheme(stored.value == DarkValue, false);
      } else {
        ApplyTheme(prefersDark, false);
      }
    }

    method Toggle()
      modifies this
      ensures State() == Toggled(old(State()))
    {
      var isDark := !dark;
      ApplyTheme(isDark, true);
    }
  }
}
