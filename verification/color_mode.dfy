/** The colour-mode hook: a mode string read from storage once, a toggle,
    and an effect that stores the mode and sets the body's `dark-mode`
    class. */
module ColorMode {
  import opened Common
  import opened LocalStorage

  const ColorModeKey := "colorMode"

  /** The startup mode: whatever non-empty text is stored (it is cast, not
      checked), otherwise `light`. */
  function InitialMode(saved: Option<string>): (m: string)
    ensures Truthy(saved) ==> m == saved.value
    ensures !Truthy(saved) ==> m == "light"
    ensures m != ""
  {
    OrElse(saved, "light")
  }

  /** `toggleColorMode`: `light` becomes `dark`, every other value
      becomes `light`. */
  function Toggle(m: string): (r: string)
    ensures r == "dark" <==> m == "light"
    ensures r == "light" <==> m != "light"
  {
    if m == "light" then "dark" else "light"
  }

  /** On the two modes the hook itself produces, toggling twice changes
      nothing; any other stored text is lost on the first toggle. */
  lemma ToggleTwice(m: string)
    ensures m == "light" || m == "dark" ==> Toggle(Toggle(m)) == m
    ensures m != "light" && m != "dark" ==> Toggle(Toggle(m)) == "dark" && Toggle(Toggle(m)) != m
  {
  }

  /** The hook's state: the mode, the store, and whether the body carries
      the `dark-mode` class. */
  datatype State = State(mode: string, store: Store, bodyDark: bool)

  /** The effect that runs after every change of the mode. */
  function Sync(mode: string, store: Store): (s: State)
    ensures s.mode == mode
    ensures GetItem(s.store, ColorModeKey) == Some(mode)
    ensures forall k :: k != ColorModeKey ==> GetItem(s.store, k) == GetItem(store, k)
    ensures s.bodyDark <==> mode == "dark"
  {
    State(mode, SetItem(store, ColorModeKey, mode), mode == "dark")
  }

  /** Mounting the hook: the startup mode, then its effect. */
  function Mount(store: Store): (s: State)
    ensures s.mode == InitialMode(GetItem(store, ColorModeKey))
    ensures GetItem(s.store, ColorModeKey) == Some(s.mode)
  {
    Sync(InitialMode(GetItem(store, ColorModeKey)), store)
  }

  function ToggleColorMode(s: State): (r: State)
    ensures r.mode == Toggle(s.mode)
    ensures GetItem(r.store, ColorModeKey) == Some(r.mode)
    ensures r.bodyDark <==> s.mode == "light"
  {
    Sync(Toggle(s.mode), s.store)
  }

  /** Remounting after any number of changes gives back the mode the
      effect stored last. */
  lemma RemountKeepsMode(s: State)
    requires s.mode != ""
    ensures Mount(Sync(s.mode, s.store).store).mode == s.mode
  {
  }

  /** After mounting, the mode is `light` or `dark` unless the store held
      some other non-empty text, which is then taken as it is. */
  lemma MountedMode(store: Store)
    ensures var m := Mount(store).mode;
      m == "light" || m == "dark" || (ColorModeKey in store && m == store[ColorModeKey])
  {
  }
}
