/** The two pieces of browser state the client code changes: `localStorage`, a
    string-to-string store, and `window.location`, whose assignments and
    reloads are recorded rather than performed. */
module Browser {
  import opened JsStrings

  /** `localStorage.getItem(key)` on a store's contents: null for a missing key. */
  function Get(items: map<string, string>, key: string): (r: Option<string>)
    ensures r.Some? <==> key in items
    ensures r.Some? ==> r.value == items[key]
  {
    if key in items then Some(items[key]) else None
  }

  /** The contents after removing `keys`: those keys are gone, every other
      entry is kept. */
  function Without(items: map<string, string>, keys: set<string>): (r: map<string, string>)
    ensures forall k :: k in r <==> k in items && k !in keys
    ensures forall k :: k in r ==> r[k] == items[k]
  {
    map k | k in items && k !in keys :: items[k]
  }

  class LocalStorage {
    var items: map<string, string>

    constructor (initial: map<string, string>)
      ensures items == initial
    {
      items := initial;
    }

    /** `localStorage.getItem(key)` */
    function GetItem(key: string): (r: Option<string>)
      reads this
      ensures r == Get(items, key)
    {
      if key in items then Some(items[key]) else None
    }

    /** `localStorage.setItem(key, value)` */
    method SetItem(key: string, value: string)
      modifies this
      ensures items == old(items)[key := value]
    {
      items := items[key := value];
    }

    /** `localStorage.removeItem(key)`; removing a missing key does nothing. */
    method RemoveItem(key: string)
      modifies this
      ensures items == Without(old(items), {key})
    {
      items := Without(items, {key});
    }
  }

  /** `window.location`: every `href` assignment in order and the number of
      reloads. In a browser the last assignment is the page that loads. */
  class Location {
    var navigations: seq<string>
    var reloads: nat

    constructor ()
      ensures navigations == [] && reloads == 0
    {
      navigations := [];
      reloads := 0;
    }

    /** `window.location.href = url` */
    method Assign(url: string)
      modifies this
      ensures navigations == old(navigations) + [url] && reloads == old(reloads)
    {
      navigations := navigations + [url];
    }

    /** `window.location.reload()` */
    method Reload()
      modifies this
      ensures navigations == old(navigations) && reloads == old(reloads) + 1
    {
      reloads := reloads + 1;
    }
  }
}
