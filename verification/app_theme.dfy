/** The application shell's dark-mode flag: read from storage once at
    startup, written back after every change, and turned into the theme's
    palette. */
module AppTheme {
  import opened Common
  import opened LocalStorage

  const DarkModeKey := "darkMode"

  /** `darkMode.toString()` */
  function EncodeDarkMode(dark: bool): (v: string)
    ensures v == "true" || v == "false"
  {
    if dark then "true" else "false"
  }

  /** The startup reading: a non-empty stored value means dark exactly when
      it is the text `true`; nothing stored, or an empty value, means
      light. */
  function DecodeDarkMode(saved: Option<string>): (dark: bool)
    ensures dark <==> saved == Some("true")
  {
    if Truthy(saved) then saved.value == "true" else false
  }

  /** What is written is read back as the same flag. */
  lemma DarkModeRoundTrip(dark: bool)
    ensures DecodeDarkMode(Some(EncodeDarkMode(dark))) == dark
  {
  }

  /** The shell's state: the flag and the store. */
  datatype State = State(darkMode: bool, store: Store)

  /** Startup: the flag is read from storage, and the effect that runs
      after the first render writes it straight back, so from then on the
      key holds `true` or `false` whatever was stored before. */
  function Init(store: Store): (s: State)
    ensures s.darkMode <==> GetItem(store, DarkModeKey) == Some("true")
    ensures GetItem(s.store, DarkModeKey) == Some(EncodeDarkMode(s.darkMode))
    ensures forall k :: k != DarkModeKey ==> GetItem(s.store, k) == GetItem(store, k)
  {
    var dark := DecodeDarkMode(GetItem(store, DarkModeKey));
    State(dark, SetItem(store, DarkModeKey, EncodeDarkMode(dark)))
  }

  /** A second startup finds what the first one wrote and changes nothing:
      the same flag, and the same stored value under every key. */
  lemma RestartIsStable(store: Store)
    ensures Init(Init(store).store).darkMode == Init(store).darkMode
    ensures forall k :: GetItem(Init(Init(store).store).store, k) == GetItem(Init(store).store, k)
  {
    DarkModeRoundTrip(Init(store).darkMode);
  }

  /** `setDarkMode` followed by the effect that persists it. */
  function SetDarkMode(s: State, dark: bool): (r: State)
    ensures r.darkMode == dark
    ensures GetItem(r.store, DarkModeKey) == Some(EncodeDarkMode(dark))
    ensures forall k :: k != DarkModeKey ==> GetItem(r.store, k) == GetItem(s.store, k)
  {
    State(dark, SetItem(s.store, DarkModeKey, EncodeDarkMode(dark)))
  }

  /** A reload after any change starts with the flag that was set. */
  lemma ReloadKeepsDarkMode(s: State, dark: bool)
    ensures Init(SetDarkMode(s, dark).store).darkMode == dark
  {
    DarkModeRoundTrip(dark);
  }

  /** The parts of the theme that depend on the flag. */
  datatype Palette = Palette(mode: string, background: string, paper: string)

  function PaletteFor(dark: bool): (p: Palette)
    ensures p.mode == "dark" <==> dark
    ensures p.mode == "light" <==> !dark
    ensures dark ==> p.background == "#121212" && p.paper == "#1e1e1e"
    ensures !dark ==> p.background == "#f5f5f5" && p.paper == "#ffffff"
  {
    if dark then Palette("dark", "#121212", "#1e1e1e") else Palette("light", "#f5f5f5", "#ffffff")
  }
}
