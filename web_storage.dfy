/** The page's window.localStorage: a string-to-string namespace that may be unavailable
    (storage disabled), in which case every access fails and callers fall back. */
module WebStorage {
  class LocalStorage {
    var available: bool
    var items: map<string, string>

    constructor (available: bool, items: map<string, string>)
      ensures this.available == available && this.items == items
    {
      this.available := available;
      this.items := items;
    }
  }
}
