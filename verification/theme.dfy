/**
 * Theme management (js/main.js:23-60): the `data-theme` attribute on the root
 * element, its copy in local storage, the toggle, the load-time choice and
 * the reaction to operating-system colour-scheme changes.
 */
module Theme {
  import opened Wrappers
  import opened PageState

  const ThemeKey: string := "portfolio-theme"
  const Dark: string := "dark"
  const Light: string := "light"

  /** `getSystemTheme`: the theme named by the colour-scheme media query. */
  function SystemTheme(systemDark: bool): (t: string)
    ensures t == Dark || t == Light
    ensures t == Dark <==> systemDark
  {
    if systemDark then Dark else Light
  }

  /** `getSavedTheme`: `localStorage.getItem`, None standing for `null`. */
  function SavedTheme(p: Page): (r: Option<string>)
    ensures r.None? <==> ThemeKey !in p.storage
    ensures r.Some? ==> r.value == p.storage[ThemeKey]
  {
    if ThemeKey in p.storage then Some(p.storage[ThemeKey]) else None
  }

  /** JavaScript truthiness of a stored string: present and not empty. */
  predicate Truthy(v: Option<string>) {
    v.Some? && v.value != ""
  }

  /** The applied attribute and the persisted preference are present and equal. */
  predicate Agree(p: Page) {
    p.attr.Some? && SavedTheme(p) == p.attr
  }

  /**
   * `setTheme`: write the attribute, then the storage entry. Every other
   * storage key and every other part of the page stays as it was.
   */
  function SetTheme(p: Page, theme: string): (r: Page)
    ensures Agree(r) && r.attr == Some(theme)
    ensures r.storage.Keys == p.storage.Keys + {ThemeKey}
    ensures forall k :: k in p.storage && k != ThemeKey ==> r.storage[k] == p.storage[k]
    ensures r == p.(attr := r.attr, storage := r.storage)
  {
    p.(attr := Some(theme), storage := p.storage[ThemeKey := theme])
  }

  /** The theme `toggleTheme` chooses from the attribute it reads. */
  function Flipped(current: Option<string>): string {
    if current == Some(Dark) then Light else Dark
  }

  /**
   * `toggleTheme`: reads the attribute (not storage) and sets the other theme;
   * anything that is not exactly `dark`, absent attribute included, becomes `dark`.
   */
  function ToggleTheme(p: Page): (r: Page)
    ensures Agree(r)
    ensures r.attr == Some(Light) <==> p.attr == Some(Dark)
    ensures r.attr == Some(Dark) <==> p.attr != Some(Dark)
    ensures r == p.(attr := r.attr, storage := r.storage)
  {
    SetTheme(p, Flipped(p.attr))
  }

  /**
   * `initTheme`: a truthy saved value is re-applied; otherwise the system theme
   * is applied, and because it goes through `setTheme` it is persisted too.
   */
  function InitTheme(p: Page): (r: Page)
    ensures Agree(r) && Truthy(SavedTheme(r))
    ensures Truthy(SavedTheme(p)) ==> r.attr == SavedTheme(p)
    ensures !Truthy(SavedTheme(p)) ==> r.attr == Some(SystemTheme(p.systemDark))
    ensures r == p.(attr := r.attr, storage := r.storage)
  {
    var saved := SavedTheme(p);
    if Truthy(saved) then SetTheme(p, saved.value) else SetTheme(p, SystemTheme(p.systemDark))
  }

  /**
   * The `change` listener on the colour-scheme media query. The new query state
   * `matches` is recorded as the system preference; the theme follows it only
   * while storage holds no truthy preference.
   */
  function OsThemeChange(p: Page, matches: bool): (r: Page)
    ensures r.systemDark == matches
    ensures Truthy(SavedTheme(p)) ==> r == p.(systemDark := matches)
    ensures !Truthy(SavedTheme(p)) ==> Agree(r) && r.attr == Some(SystemTheme(matches))
    ensures r == p.(systemDark := matches, attr := r.attr, storage := r.storage)
  {
    var p' := p.(systemDark := matches);
    if Truthy(SavedTheme(p)) then p' else SetTheme(p', SystemTheme(matches))
  }

  /** Toggling twice restores a `light` or `dark` attribute, and with it an agreeing storage entry. */
  lemma ToggleTwice(p: Page)
    requires p.attr == Some(Light) || p.attr == Some(Dark)
    ensures ToggleTheme(ToggleTheme(p)).attr == p.attr
    ensures Agree(p) ==> ToggleTheme(ToggleTheme(p)) == p
  {
    var r := ToggleTheme(ToggleTheme(p));
    if Agree(p) {
      assert r.storage == p.storage[ThemeKey := p.attr.value];
      assert r.storage == p.storage;
    }
  }

  /** Toggling twice from an absent or unrecognised attribute settles on `light`. */
  lemma ToggleTwiceFromOther(p: Page)
    requires p.attr != Some(Light) && p.attr != Some(Dark)
    ensures ToggleTheme(ToggleTheme(p)).attr == Some(Light)
  {
  }

  /** The toggle reads only the attribute: the stored value, however it drifted, has no say. */
  lemma ToggleIgnoresStorage(p: Page, q: Page)
    requires p.attr == q.attr
    ensures ToggleTheme(p).attr == ToggleTheme(q).attr
    ensures SavedTheme(ToggleTheme(p)) == SavedTheme(ToggleTheme(q))
  {
  }

  /** After `initTheme` a preference is persisted, so every later OS change leaves the theme alone. */
  lemma OsChangeAfterInitIsInert(p: Page, matches: bool)
    ensures OsThemeChange(InitTheme(p), matches) == InitTheme(p).(systemDark := matches)
  {
  }

  /**
   * With nothing saved and a dark system preference, loading the page stores `dark`:
   * the system-derived choice is persisted, not only applied.
   */
  lemma InitPersistsSystemTheme(p: Page)
    requires SavedTheme(p) == None && p.systemDark
    ensures InitTheme(p).attr == Some(Dark) && SavedTheme(InitTheme(p)) == Some(Dark)
  {
  }

  /**
   * A second page load keeps the first load's theme whatever the system
   * preference has become in between (the attribute is reset by the reload).
   */
  lemma ReloadKeepsTheme(p: Page, systemDark: bool)
    ensures InitTheme(InitTheme(p).(attr := None, systemDark := systemDark)).attr == InitTheme(p).attr
  {
  }
}
