/** The browser's `localStorage` as a value: a map from keys to strings,
    with `getItem` giving `null` for a missing key. */
module LocalStorage {
  import opened Common

  type Store = map<string, string>

  function GetItem(st: Store, key: string): (v: Option<string>)
    ensures v.Some? <==> key in st
    ensures v.Some? ==> v.value == st[key]
  {
    if key in st then Some(st[key]) else None
  }

  /** `setItem`: the key now reads back the value, every other key reads
      as before. */
  function SetItem(st: Store, key: string, value: string): (r: Store)
    ensures GetItem(r, key) == Some(value)
    ensures forall other :: other != key ==> GetItem(r, other) == GetItem(st, other)
  {
    st[key := value]
  }

  /** The JavaScript truthiness of what `getItem` returns: `null` and the
      empty string are false. */
  predicate Truthy(v: Option<string>)
  {
    v.Some? && v.value != ""
  }

  /** `getItem(key) || fallback` */
  function OrElse(v: Option<string>, fallback: string): (r: string)
    ensures Truthy(v) ==> Some(r) == v
    ensures !Truthy(v) ==> r == fallback
  {
    if Truthy(v) then v.value else fallback
  }
}
