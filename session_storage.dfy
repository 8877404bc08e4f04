/** The browser's page-session key-value store (`sessionStorage`), reduced
    to the three calls the layout makes. Other scripts may have filled it
    before; the layout only sees its current contents. */
module SessionStorage {
  import opened Wrappers

  class Store {
    var items: map<string, string>

    constructor (initial: map<string, string>)
      ensures items == initial
    {
      items := initial;
    }

    /** `getItem(key)`: the stored string, or `None` (JavaScript `null`)
        when the key is absent. */
    method GetItem(key: string) returns (value: Option<string>)
      ensures value.Some? <==> key in items
      ensures value.Some? ==> value.value == items[key]
    {
      value := if key in items then Some(items[key]) else None;
    }

    /** `setItem(key, value)`: inserts or overwrites one entry. */
    method SetItem(key: string, value: string)
      modifies this
      ensures items == old(items)[key := value]
    {
      items := items[key := value];
    }

    /** `removeItem(key)`: deletes one entry; a missing key is no error. */
    method RemoveItem(key: string)
      modifies this
      ensures items == old(items) - {key}
    {
      items := items - {key};
    }
  }
}
