/**
 * The theme preference (src/hooks/useTheme.ts): a two-valued mode, read
 * once from storage with `dark` as the fallback, and flipped by a toggle.
 */
module Theme {
  import opened Types

  datatype ThemeMode = Light | Dark

  /** The text stored for a mode; it is one of the two accepted names and reads back as the mode. */
  function Name(mode: ThemeMode): (name: string)
    ensures name == "light" || name == "dark"
    ensures InitialTheme(Some(name)) == mode
  {
    match mode
    case Light => "light"
    case Dark => "dark"
  }

  /** The initial mode: the saved text when it names a mode exactly, otherwise dark. */
  function InitialTheme(saved: Option<string>): (mode: ThemeMode)
    ensures saved == Some("dark") ==> mode == Dark
    ensures saved == Some("light") ==> mode == Light
    ensures saved != Some("dark") && saved != Some("light") ==> mode == Dark
  {
    if saved == Some("dark") || saved == Some("light") then
      (if saved.value == "light" then Light else Dark)
    else Dark
  }

  /** Flips the mode: light becomes dark and dark becomes light. */
  function ToggleTheme(prev: ThemeMode): (next: ThemeMode)
    ensures next != prev
  {
    if prev == Light then Dark else Light
  }

  /** Toggling twice gives back the original mode. */
  lemma ToggleThemeTwice(mode: ThemeMode)
    ensures ToggleTheme(ToggleTheme(mode)) == mode
  {
  }

  /** The stored text of a mode reads back as that mode on the next start-up. */
  lemma InitialThemeAfterSave(mode: ThemeMode)
    ensures InitialTheme(Some(Name(mode))) == mode
  {
  }

  /** Applies `n` toggles to the initial mode. */
  function ThemeAfter(saved: Option<string>, n: nat): ThemeMode
  {
    if n == 0 then InitialTheme(saved) else ToggleTheme(ThemeAfter(saved, n - 1))
  }

  /** After n toggles the mode is the initial one exactly when n is even. */
  lemma {:induction false} ThemeAfterParity(saved: Option<string>, n: nat)
    ensures ThemeAfter(saved, n) == InitialTheme(saved) <==> n % 2 == 0
  {
    if n > 0 {
      ThemeAfterParity(saved, n - 1);
    }
  }
}
