/**
  `localStorage` as a finite map from keys to string values. `getItem` of an
  absent key yields `null`, written here as `None`.
 */
module Storage {

  datatype Option<T> = None | Some(value: T)

  type Store = map<string, string>

  function GetItem(store: Store, key: string): (r: Option<string>)
    ensures r.Some? <==> key in store
  {
    if key in store then Some(store[key]) else None
  }

  function SetItem(store: Store, key: string, value: string): (r: Store)
    ensures r.Keys == store.Keys + {key}
  {
    store[key := value]
  }

  /** A value written is read back, and no other key changes. */
  lemma GetAfterSet(store: Store, key: string, value: string, other: string)
    ensures GetItem(SetItem(store, key, value), key) == Some(value)
    ensures other != key ==> GetItem(SetItem(store, key, value), other) == GetItem(store, other)
  {
  }
}
