/**
 * The configuration shared by the background worker and the options page,
 * stored under one key of the extension's local storage.
 */
module Configuration {
  import opened Wrappers
  import opened JsonValue

  /** The storage key; the inner field happens to carry the same name. */
  const StorageKey: string := "privateDomains"

  /**
   * `isUnlocked` only changes what the options page shows; every key of
   * `privateDomains` is an active pattern, and its value is the page's
   * visibility flag (normally `true` or `false`, but an imported file may
   * put any JSON value there).
   */
  datatype Config = Config(isUnlocked: bool, privateDomains: map<string, Json>)

  /** The configuration of a first run: locked, no patterns. */
  const DefaultConfig: Config := Config(false, map[])

  /** What a read of the stored configuration gave: the stored value (absent or falsy as None), or a failure. */
  datatype LoadResult = Loaded(stored: Option<Config>) | LoadFailed

  /** Every key of the pattern map, each exactly once, in the order the enumeration yields them (`Object.keys`). */
  method GetAllDomains(domains: map<string, Json>) returns (keys: seq<string>)
    ensures forall k :: k in keys <==> k in domains
    ensures forall i, j :: 0 <= i < j < |keys| ==> keys[i] != keys[j]
  {
    keys := [];
    var rest := domains.Keys;
    while rest != {}
      invariant forall k :: k in domains <==> k in keys || k in rest
      invariant forall k :: k in keys ==> k !in rest
      invariant forall i, j :: 0 <= i < j < |keys| ==> keys[i] != keys[j]
      decreases |rest|
    {
      var k :| k in rest;
      keys := keys + [k];
      rest := rest - {k};
    }
  }
}
