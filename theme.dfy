/** Dark mode (script.js:8-34): the `data-theme` attribute of the document element and the
    `theme` entry of the page's preference storage, taken as plain values. The values of the
    storage and of the `(prefers-color-scheme: dark)` media query are parameters. */
module Theme {

  import opened Optional

  const Dark: string := "dark"
  const Light: string := "light"

  /** The theme state of the page: the document's `data-theme` attribute and the stored
      `theme` preference (None when the attribute is not set or the key is absent). */
  datatype Page = Page(theme: Option<string>, stored: Option<string>)

  /** JavaScript truthiness of a stored value: `null` and the empty string are false. */
  predicate Truthy(v: Option<string>)
  {
    v.Some? && v.value != ""
  }

  /** The theme attribute at load time. `markup` is the attribute the page was served with,
      `saved` what the storage holds and `systemPrefersDark` the media query's answer. A
      non-empty saved value wins; else a dark system preference gives "dark"; else the
      attribute stays as the markup set it. */
  function Load(markup: Option<string>, saved: Option<string>, systemPrefersDark: bool): (p: Page)
    ensures p.stored == saved
    ensures Truthy(saved) ==> p.theme == saved
    ensures !Truthy(saved) && systemPrefersDark ==> p.theme == Some(Dark)
    ensures !Truthy(saved) && !systemPrefersDark ==> p.theme == markup
    ensures p.theme != markup ==> Truthy(saved) || systemPrefersDark
  {
    if Truthy(saved) then Page(saved, saved)
    else if systemPrefersDark then Page(Some(Dark), saved)
    else Page(markup, saved)
  }

  /** A click on the theme toggle: "dark" becomes "light" and everything else, an unset
      attribute included, becomes "dark"; the new theme is also stored. */
  function Toggle(p: Page): (q: Page)
    ensures q.theme == q.stored
    ensures q.theme == Some(Dark) || q.theme == Some(Light)
    ensures q.theme == Some(Light) <==> p.theme == Some(Dark)
    ensures Truthy(q.stored)
  {
    var newTheme := if p.theme == Some(Dark) then Light else Dark;
    Page(Some(newTheme), Some(newTheme))
  }

  /** A change of the system colour-scheme preference: it is applied only when no
      (truthy) preference is stored, and it never writes the storage. */
  function SystemChange(p: Page, matchesDark: bool): (q: Page)
    ensures q.stored == p.stored
    ensures Truthy(p.stored) ==> q == p
    ensures !Truthy(p.stored) ==> q.theme == Some(if matchesDark then Dark else Light)
  {
    if !Truthy(p.stored) then Page(Some(if matchesDark then Dark else Light), p.stored)
    else p
  }

  /** Toggling twice restores the theme when it was "dark" or "light", and after two toggles
      the stored preference equals that theme. */
  lemma ToggleTwice(p: Page)
    requires p.theme == Some(Dark) || p.theme == Some(Light)
    ensures Toggle(Toggle(p)).theme == p.theme
    ensures Toggle(Toggle(p)).stored == p.theme
  {
  }

  /** Toggling twice from any other attribute (unset, or a value that is neither theme)
      settles on "light": the first toggle yields "dark". */
  lemma ToggleTwiceFromOther(p: Page)
    requires p.theme != Some(Dark) && p.theme != Some(Light)
    ensures Toggle(p).theme == Some(Dark)
    ensures Toggle(Toggle(p)).theme == Some(Light)
  {
  }

  /** Once the user has toggled, system-preference changes have no effect any more. */
  lemma SystemChangeAfterToggle(p: Page, matchesDark: bool)
    ensures SystemChange(Toggle(p), matchesDark) == Toggle(p)
  {
  }

  /** The theme chosen at load survives a system change exactly when a preference was
      saved; without one, the system change alone decides the theme. */
  lemma SystemChangeAfterLoad(markup: Option<string>, saved: Option<string>, systemPrefersDark: bool, matchesDark: bool)
    ensures Truthy(saved) ==> SystemChange(Load(markup, saved, systemPrefersDark), matchesDark).theme == saved
    ensures !Truthy(saved) ==>
      SystemChange(Load(markup, saved, systemPrefersDark), matchesDark).theme == Some(if matchesDark then Dark else Light)
  {
  }
}
