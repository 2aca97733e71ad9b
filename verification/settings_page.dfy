/** The settings page: the language menu, the dark-mode switch (whose
    value the application shell owns), three local switches and a storage
    gauge. */
module SettingsPage {
  import opened Common
  import opened LocalStorage
  import AppTheme

  datatype Language = Language(code: string, name: string)

  /** The language menu, in display order. */
  const Languages: seq<Language> := [
    Language("en", "English"),
    Language("bn", "বাংলা (Bengali)"),
    Language("hi", "हिंदी (Hindi)"),
    Language("zh", "中文 (Chinese)"),
    Language("ja", "日本語 (Japanese)"),
    Language("ru", "Русский (Russian)")]

  /** The languages the translation resources have a table for. */
  const ResourceLanguages: set<string> := {"en", "bn", "hi", "zh", "ja", "ru"}

  const LanguageKey := "language"
  const DefaultLanguage := "en"

  /** Storage capacity in GB; the page never changes it. */
  const StorageTotal: real := 10.0

  /** The page's own state, the active language and the store. */
  datatype State = State(
    language: string,
    store: Store,
    cloudSync: bool,
    offlineMode: bool,
    notifications: bool,
    storageUsed: real)

  /** The language activated at startup: the stored code when there is a
      non-empty one, otherwise English. */
  function StartupLanguage(store: Store): (code: string)
    ensures Truthy(GetItem(store, LanguageKey)) ==> code == store[LanguageKey]
    ensures !Truthy(GetItem(store, LanguageKey)) ==> code == DefaultLanguage
  {
    OrElse(GetItem(store, LanguageKey), DefaultLanguage)
  }

  /** Opening the page: sync, offline mode and notifications start off,
      off and on; 2.5 GB is in use. */
  function Init(store: Store): (s: State)
    ensures s.language == StartupLanguage(store) && s.store == store
    ensures !s.cloudSync && !s.offlineMode && s.notifications
    ensures s.storageUsed == 2.5
  {
    State(StartupLanguage(store), store, false, false, true, 2.5)
  }

  /** `handleLanguageChange`: the code becomes active and is stored. */
  function ChangeLanguage(s: State, code: string): (r: State)
    ensures r.language == code
    ensures GetItem(r.store, LanguageKey) == Some(code)
    ensures forall k :: k != LanguageKey ==> GetItem(r.store, k) == GetItem(s.store, k)
    ensures r.cloudSync == s.cloudSync && r.offlineMode == s.offlineMode
    ensures r.notifications == s.notifications && r.storageUsed == s.storageUsed
  {
    s.(language := code, store := SetItem(s.store, LanguageKey, code))
  }

  /** A language picked from the menu is the one the next startup
      activates, and it has a translation table. */
  lemma LanguageRoundTrip(s: State, k: nat)
    requires k < |Languages|
    ensures StartupLanguage(ChangeLanguage(s, Languages[k].code).store) == Languages[k].code
    ensures Languages[k].code in ResourceLanguages
  {
  }

  /** Every code the menu offers has a translation table, and the default
      is one of them. */
  lemma MenuCodesHaveResources()
    ensures forall k :: 0 <= k < |Languages| ==> Languages[k].code in ResourceLanguages
    ensures DefaultLanguage in ResourceLanguages
  {
  }

  /** `handleDarkModeToggle`: the value it hands to the shell's setter. */
  function DarkModeToggle(darkMode: bool): (v: bool)
    ensures v != darkMode
  {
    !darkMode
  }

  /** The switch on the page, with the shell's flag and store: it flips
      the flag and persists it, so a reload shows the flipped value. */
  lemma DarkModeSwitch(app: AppTheme.State)
    ensures AppTheme.SetDarkMode(app, DarkModeToggle(app.darkMode)).darkMode == !app.darkMode
    ensures AppTheme.Init(AppTheme.SetDarkMode(app, DarkModeToggle(app.darkMode)).store).darkMode == !app.darkMode
  {
    AppTheme.ReloadKeepsDarkMode(app, DarkModeToggle(app.darkMode));
  }

  function ToggleCloudSync(s: State): (r: State)
    ensures r.cloudSync != s.cloudSync
    ensures r == s.(cloudSync := r.cloudSync)
  {
    s.(cloudSync := !s.cloudSync)
  }

  function ToggleOfflineMode(s: State): (r: State)
    ensures r.offlineMode != s.offlineMode
    ensures r == s.(offlineMode := r.offlineMode)
  {
    s.(offlineMode := !s.offlineMode)
  }

  function ToggleNotifications(s: State): (r: State)
    ensures r.notifications != s.notifications
    ensures r == s.(notifications := r.notifications)
  {
    s.(notifications := !s.notifications)
  }

  /** Each switch pressed twice restores the page. */
  lemma TogglesInvolutive(s: State)
    ensures ToggleCloudSync(ToggleCloudSync(s)) == s
    ensures ToggleOfflineMode(ToggleOfflineMode(s)) == s
    ensures ToggleNotifications(ToggleNotifications(s)) == s
  {
  }

  /** `handleClearStorage`: nothing is in use any more; the capacity is a
      constant and stays. */
  function ClearStorage(s: State): (r: State)
    ensures r.storageUsed == 0.0
    ensures r == s.(storageUsed := 0.0)
  {
    s.(storageUsed := 0.0)
  }

  /** The gauge's value, in percent of the capacity. */
  function UsagePercent(used: real): (p: real)
    ensures 0.0 <= used <= StorageTotal ==> 0.0 <= p <= 100.0
    ensures p == 100.0 <==> used == StorageTotal
    ensures p == 0.0 <==> used == 0.0
  {
    used / StorageTotal * 100.0
  }

  /** A larger use shows a larger value; the page opens at 25% and shows
      0% after clearing. */
  lemma UsagePercentFacts(s: State, a: real, b: real)
    ensures a <= b ==> UsagePercent(a) <= UsagePercent(b)
    ensures UsagePercent(Init(s.store).storageUsed) == 25.0
    ensures UsagePercent(ClearStorage(s).storageUsed) == 0.0
  {
  }
}
