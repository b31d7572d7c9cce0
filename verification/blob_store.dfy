/** The release-file storage, as a map from key (path) to stored file. */
module BlobStore {
  import opened Migrations

  /** What `json.load` makes of a stored file: the items of a JSON object of
      strings in file order (its keys distinct, see DistinctApps), a JSON value that is not an object (a list, a
      number, a string, null), or bytes that do not decode as JSON. */
  datatype Content = Document(entries: seq<Entry>) | NotAnObject | Opaque(bytes: seq<bv8>)

  /** A stored file and its creation time in whole seconds since the epoch. */
  datatype Blob = Blob(content: Content, created: int)

  type Store = map<string, Blob>

  /** `storage.save(key, content)` at time `now`, as a write under exactly `key`. */
  function Save(store: Store, key: string, content: Content, now: int): (r: Store)
    ensures r.Keys == store.Keys + {key}
    ensures r[key] == Blob(content, now)
    ensures forall k :: k in store && k != key ==> r[k] == store[k]
  {
    store[key := Blob(content, now)]
  }

  /** `storage.delete(key)`. */
  function Delete(store: Store, key: string): (r: Store)
    ensures r.Keys == store.Keys - {key}
    ensures forall k :: k in r ==> r[k] == store[k]
  {
    store - {key}
  }
}
