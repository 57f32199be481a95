/**
  `initDarkMode`: restoring the dark-mode preference from storage when the
  page starts, and persisting it whenever the checkbox changes.
 */
module DarkMode {
  import opened ClassList
  import opened Storage

  /** The storage key holding the preference. */
  const DarkModeKey := "darkMode"

  /** The body class that turns the dark theme on. */
  const DarkModeClass := "dark-mode"

  /** What the feature touches: the body's classes, the `darkModeToggle`
      checkbox (`None` when the page has no such element, `Some(checked)`
      otherwise) and the store. */
  datatype Page = Page(body: Classes, toggle: Option<bool>, store: Store)

  /** The stored preference reads as dark: exactly the string `"true"`. */
  predicate StoredDark(store: Store) {
    GetItem(store, DarkModeKey) == Some("true")
  }

  /** Start-up: without the checkbox nothing happens; otherwise a stored
      `"true"` adds the dark class and checks the box. Any other stored value,
      or none, leaves the page as the markup made it. */
  function InitDarkMode(p: Page): (r: Page)
    ensures r.store == p.store
    ensures p.toggle.None? ==> r == p
    ensures p.toggle.Some? && StoredDark(p.store) ==>
      DarkModeClass in r.body && r.toggle == Some(true)
    ensures p.toggle.Some? && !StoredDark(p.store) ==> r == p
    ensures forall c :: c != DarkModeClass ==> (c in r.body <==> c in p.body)
  {
    if p.toggle.None? then p
    else if GetItem(p.store, DarkModeKey) == Some("true") then
      p.(body := SetClass(p.body, DarkModeClass, true), toggle := Some(true))
    else p
  }

  /** The `change` listener, run after the checkbox took its new state: the
      body class follows the box and the store records `"true"` or `"false"`.
      The listener exists only on pages that have the checkbox. */
  function OnToggleChange(p: Page): (r: Page)
    requires p.toggle.Some?
    ensures r.toggle == p.toggle
    ensures DarkModeClass in r.body <==> p.toggle.value
    ensures StoredDark(r.store) <==> p.toggle.value
    ensures GetItem(r.store, DarkModeKey) == Some(if p.toggle.value then "true" else "false")
    ensures forall c :: c != DarkModeClass ==> (c in r.body <==> c in p.body)
    ensures forall k :: k != DarkModeKey ==> GetItem(r.store, k) == GetItem(p.store, k)
  {
    var checked := p.toggle.value;
    Page(SetClass(p.body, DarkModeClass, checked),
         p.toggle,
         SetItem(p.store, DarkModeKey, if checked then "true" else "false"))
  }

  /** A fresh load of the page: the markup's body classes and an unchecked box,
      with the store carried over from before. */
  function Reload(store: Store, markup: Classes): Page {
    Page(markup, Some(false), store)
  }

  /** The preference survives a reload: whatever the box was switched to,
      the next start-up shows the same theme and the same box state. */
  lemma PreferenceRoundTrip(p: Page, checked: bool, markup: Classes)
    requires DarkModeClass !in markup
    ensures var after := InitDarkMode(Reload(OnToggleChange(p.(toggle := Some(checked))).store, markup));
      && (DarkModeClass in after.body <==> checked)
      && after.toggle == Some(checked)
      && forall c :: c != DarkModeClass ==> (c in after.body <==> c in markup)
  {
  }

  /** Start-up is idempotent: running it twice is running it once. */
  lemma InitIdempotent(p: Page)
    ensures InitDarkMode(InitDarkMode(p)) == InitDarkMode(p)
  {
  }
}
