/** The browser's origin-scoped `localStorage`, as an immutable string-keyed map.
    The access token lives under "authToken", the refresh token under
    "refreshToken"; the logout handler also clears "user". */
module TokenStore {
  import opened Wrappers

  type Store = map<string, string>

  const AuthToken := "authToken"
  const RefreshToken := "refreshToken"
  const UserKey := "user"

  /** `localStorage.getItem(key)`: `null` when the key is absent. */
  function GetItem(s: Store, key: string): (r: Option<string>)
    ensures r.Some? <==> key in s
    ensures r.Some? ==> r.value == s[key]
  {
    if key in s then Some(s[key]) else None
  }

  /** `localStorage.setItem(key, value)`: adds or overwrites one key. */
  function SetItem(s: Store, key: string, value: string): (r: Store)
    ensures r.Keys == s.Keys + {key}
    ensures r[key] == value
    ensures forall k :: k in s && k != key ==> r[k] == s[k]
  {
    s[key := value]
  }

  /** `localStorage.removeItem(key)`: a no-op when the key is absent. */
  function RemoveItem(s: Store, key: string): (r: Store)
    ensures r.Keys == s.Keys - {key}
    ensures forall k :: k in r ==> r[k] == s[k]
  {
    s - {key}
  }

  /** JavaScript truthiness of a `getItem` result: `null` and `""` are falsy. */
  predicate Truthy(v: Option<string>) {
    v.Some? && v.value != ""
  }

  /** `setItem` coerces its value to a string, so `undefined` is stored as "undefined". */
  function JsString(v: Option<string>): (r: string)
    ensures v.Some? ==> r == v.value
  {
    match v
    case Some(x) => x
    case None => "undefined"
  }

  lemma GetAfterSet(s: Store, key: string, other: string, value: string)
    ensures GetItem(SetItem(s, key, value), key) == Some(value)
    ensures other != key ==> GetItem(SetItem(s, key, value), other) == GetItem(s, other)
  {
  }

  lemma GetAfterRemove(s: Store, key: string, other: string)
    ensures GetItem(RemoveItem(s, key), key) == None
    ensures other != key ==> GetItem(RemoveItem(s, key), other) == GetItem(s, other)
  {
  }
}
