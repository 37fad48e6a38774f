/** The theme store of js/main.js (`initThemeToggle`).

    The document-level `data-theme` attribute is only ever set to "dark" or
    removed, so it is modelled as a bool (`dark`).  Browser-local storage is
    modelled by the one entry this code uses, the value under the key
    "theme": `None` when absent.  `window.matchMedia` is an input: `None`
    when the API does not exist, otherwise whether the system prefers a dark
    colour scheme. */
module Theme {
  import opened Wrappers

  const Dark := "dark"
  const Light := "light"

  /** The page state the theme store owns. */
  datatype ThemeState = ThemeState(dark: bool, stored: Option<string>)

  /** The storage value that describes an attribute state. */
  function NameOf(dark: bool): (r: string)
    ensures r == Dark <==> dark
  {
    if dark then Dark else Light
  }

  /** JavaScript truthiness of `localStorage.getItem(...)`: null and the
      empty string are falsy. */
  predicate Present(saved: Option<string>) {
    saved.Some? && saved.value != ""
  }

  /** `window.matchMedia && window.matchMedia('(prefers-color-scheme: dark)').matches` */
  predicate PrefersDark(media: Option<bool>) {
    media == Some(true)
  }

  /** The theme name chosen at load: the saved value when it is truthy,
      otherwise the system preference. */
  function InitialName(saved: Option<string>, media: Option<bool>): (r: string)
    ensures Present(saved) ==> r == saved.value
    ensures !Present(saved) ==> (r == Dark <==> PrefersDark(media))
    ensures !Present(saved) ==> r == Dark || r == Light
  {
    if Present(saved) then saved.value else NameOf(PrefersDark(media))
  }

  /** Load-time initialisation: the attribute is set exactly when the
      chosen name is "dark"; storage is read but not written. */
  function Init(saved: Option<string>, media: Option<bool>): (s: ThemeState)
    ensures s.stored == saved
    ensures s.dark <==> (Present(saved) && saved.value == Dark) || (!Present(saved) && PrefersDark(media))
  {
    ThemeState(InitialName(saved, media) == Dark, saved)
  }

  /** Click on any `[data-theme-toggle]` control: flip the attribute and
      persist the new state. */
  function Toggle(s: ThemeState): (r: ThemeState)
    ensures r.dark == !s.dark
    ensures r.stored == Some(NameOf(r.dark))
  {
    if s.dark then ThemeState(false, Some(Light)) else ThemeState(true, Some(Dark))
  }

  /** The persisted value agrees with the applied attribute. */
  predicate Persisted(s: ThemeState) {
    s.stored == Some(NameOf(s.dark))
  }

  /** `n` clicks on toggle controls. */
  function Clicks(s: ThemeState, n: nat): ThemeState
    decreases n
  {
    if n == 0 then s else Clicks(Toggle(s), n - 1)
  }

  /** Two clicks restore the original attribute and leave storage in step with it. */
  lemma ToggleTwice(s: ThemeState)
    ensures Toggle(Toggle(s)).dark == s.dark
    ensures Persisted(Toggle(Toggle(s)))
  {
  }

  /** After any positive number of clicks the attribute reflects the parity
      of the click count and storage matches the attribute. */
  lemma {:induction false} ClicksParity(s: ThemeState, n: nat)
    ensures Clicks(s, n).dark == (s.dark != (n % 2 == 1))
    ensures n > 0 ==> Persisted(Clicks(s, n))
    ensures n == 0 ==> Clicks(s, n) == s
    decreases n
  {
    if n > 0 {
      ClicksParity(Toggle(s), n - 1);
    }
  }

  /** What a toggle writes is what the next page load applies, whatever the
      system preference is then. */
  lemma ReloadAfterToggle(s: ThemeState, media: Option<bool>)
    ensures Init(Toggle(s).stored, media).dark == Toggle(s).dark
  {
  }

  /** More generally, a persisted state survives a reload unchanged. */
  lemma ReloadPersisted(s: ThemeState, media: Option<bool>)
    requires Persisted(s)
    ensures Init(s.stored, media) == s
  {
  }

  /** With nothing saved, the system preference decides, and the default
      without a preference (or without the media-query API) is light. */
  lemma NoSavedValue(media: Option<bool>)
    ensures Init(None, media).dark <==> media == Some(true)
    ensures Init(None, None).dark == false
    ensures Init(Some(""), media) == ThemeState(media == Some(true), Some(""))
  {
  }

  /** A saved value other than "dark" (including an unrecognised one) yields
      the light attribute, and is left in storage untouched. */
  lemma SavedNonDarkIsLight(v: string, media: Option<bool>)
    requires v != "" && v != Dark
    ensures Init(Some(v), media) == ThemeState(false, Some(v))
  {
  }
}
