/** The URL store of store/store.go: a map from short code to URL with
    upsert and point lookup. The lock is not modelled; each operation is
    atomic, and `Get` is a pure function, so it cannot change the map. */
module Store {

  datatype UrlStore = UrlStore(entries: map<string, string>)

  /** A unit of work for the worker pool: commit `url` under `shortCode`. */
  datatype Task = Task(shortCode: string, url: string)

  /** The two results of `Get`: the URL (Go's empty string when absent) and
      whether the code was present. */
  datatype Lookup = Lookup(url: string, found: bool)

  /** `NewURLStore`: no code has a mapping. */
  function NewUrlStore(): (s: UrlStore)
    ensures forall code :: code !in s.entries
  {
    UrlStore(map[])
  }

  /** `Store`: an upsert. The code maps to the new URL and every other
      code keeps its mapping, or lack of one. */
  function Store(s: UrlStore, shortCode: string, url: string): (r: UrlStore)
    ensures r.entries.Keys == s.entries.Keys + {shortCode}
    ensures shortCode in r.entries && r.entries[shortCode] == url
    ensures forall c :: c != shortCode && c in s.entries ==> r.entries[c] == s.entries[c]
  {
    UrlStore(s.entries[shortCode := url])
  }

  /** `Get`: found exactly when the code has a mapping, with that URL;
      otherwise the empty string. */
  function Get(s: UrlStore, shortCode: string): (r: Lookup)
    ensures r.found <==> shortCode in s.entries
    ensures r.found ==> r.url == s.entries[shortCode]
    ensures !r.found ==> r.url == ""
  {
    if shortCode in s.entries then Lookup(s.entries[shortCode], true) else Lookup("", false)
  }

  /** Storing then looking up the same code yields the stored URL. */
  lemma StoreThenGet(s: UrlStore, shortCode: string, url: string)
    ensures Get(Store(s, shortCode, url), shortCode) == Lookup(url, true)
  {
  }

  /** A code never stored is not found in a new store, nor after storing
      other codes. */
  lemma GetNeverStored(s: UrlStore, shortCode: string, other: string, url: string)
    requires shortCode != other
    ensures Get(NewUrlStore(), shortCode) == Lookup("", false)
    ensures Get(Store(s, other, url), shortCode) == Get(s, shortCode)
  {
  }

  /** The last write to a code wins. */
  lemma LastWriteWins(s: UrlStore, shortCode: string, first: string, second: string)
    ensures Store(Store(s, shortCode, first), shortCode, second) == Store(s, shortCode, second)
  {
  }

  /** Storing an identical pair again changes nothing. */
  lemma StoreIdempotent(s: UrlStore, shortCode: string, url: string)
    ensures Store(Store(s, shortCode, url), shortCode, url) == Store(s, shortCode, url)
  {
  }

  /** Writes to different codes commute. */
  lemma StoreCommutes(s: UrlStore, a: string, u: string, b: string, v: string)
    requires a != b
    ensures Store(Store(s, a, u), b, v) == Store(Store(s, b, v), a, u)
  {
  }
}
