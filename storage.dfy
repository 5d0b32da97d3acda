/**
 * The device's persistent key-value storage (`AsyncStorage`): string keys
 * mapped to string values. Reads and writes always succeed in this model.
 */
module Storage {
  import opened Wrappers

  /** The key under which every screen stores and reads the bearer token. */
  const AuthTokenKey: string := "authToken"

  class KeyValueStore {
    var items: map<string, string>

    constructor (initial: map<string, string>)
      ensures items == initial
    {
      items := initial;
    }

    /** `getItem`: the stored value, or `None` (JavaScript `null`) for a missing key. */
    method GetItem(key: string) returns (value: Option<string>)
      ensures value.Some? <==> key in items
      ensures value.Some? ==> value.value == items[key]
    {
      value := if key in items then Some(items[key]) else None;
    }

    /** `setItem`: stores `value` under `key`, replacing what was there. */
    method SetItem(key: string, value: string)
      modifies this
      ensures items == old(items)[key := value]
    {
      items := items[key := value];
    }
  }

  /** JavaScript truthiness of a read value: `null` and `""` are false. */
  predicate Truthy(value: Option<string>)
  {
    value.Some? && value.value != ""
  }
}
