/** The `Session` object of js/config.js: a key/value store over the
    browser's `localStorage`, which keeps text only (objects go through
    JSON), and the login check on the stored `admin_token`. `JSON.stringify`,
    `JSON.parse` and `atob` are parameters; `Date.now()` is the `now` argument. */
module SessionStore {
  import opened JsText

  /** A JavaScript value as the store meets it; numbers are integers. */
  datatype JsValue =
    | JNull
    | JBool(b: bool)
    | JNum(n: int)
    | JStr(s: string)
    | JObj(props: map<string, JsValue>)

  /** `!!v`. */
  predicate Truthy(v: JsValue) {
    match v
    case JNull => false
    case JBool(b) => b
    case JNum(n) => n != 0
    case JStr(s) => s != ""
    case JObj(_) => true
  }

  /** `String(v)`. */
  function ToJsString(v: JsValue): string {
    match v
    case JNull => "null"
    case JBool(b) => if b then "true" else "false"
    case JNum(n) => IntToString(n)
    case JStr(s) => s
    case JObj(_) => "[object Object]"
  }

  /** `JSON.stringify`, and `JSON.parse` with `None` where it throws. */
  datatype JsonCodec = JsonCodec(stringify: JsValue -> string, parse: string -> Option<JsValue>)

  /** What the store relies on from the platform's JSON: parsing undoes
      stringifying, the empty text does not parse, and `null`, booleans and
      numbers are written exactly as `String` writes them. */
  ghost predicate FaithfulJson(json: JsonCodec) {
    (forall v: JsValue :: json.parse(json.stringify(v)) == Some(v)) &&
    json.parse("") == None &&
    (forall v: JsValue :: !v.JStr? && !v.JObj? ==> json.stringify(v) == ToJsString(v))
  }

  const AdminTokenKey := "admin_token"

  /** The text `Session.set` hands to `localStorage.setItem`: JSON for what
      `typeof` calls an object (`null` included), `String(value)` otherwise.
      A string is stored as itself; with a faithful JSON, the text of any
      other value parses back to that value. */
  function StorageText(value: JsValue, json: JsonCodec): (r: string)
    ensures value.JStr? ==> r == value.s
    ensures FaithfulJson(json) && !value.JStr? ==> json.parse(r) == Some(value)
  {
    if value.JNull? || value.JObj? then json.stringify(value) else ToJsString(value)
  }

  /** `localStorage.getItem(key)`: `None` is null. */
  function Lookup(items: map<string, string>, key: string): Option<string> {
    if key in items then Some(items[key]) else None
  }

  /** What `Session.get` makes of the stored text: null when it is missing
      or empty, the parsed value when it is JSON, the text itself otherwise.
      So null comes back exactly for a missing or empty entry or the text
      of JSON `null`. */
  function Retrieve(raw: Option<string>, json: JsonCodec): (r: JsValue)
    ensures r == JNull <==> raw.None? || raw.value == "" || json.parse(raw.value) == Some(JNull)
  {
    if raw.None? || raw.value == "" then JNull
    else
      match json.parse(raw.value)
      case Some(v) => v
      case None => JStr(raw.value)
  }

  /** Every value that is not a string comes back from `get` as it went
      into `set`: objects and `null` through JSON, booleans and numbers
      because their text is their JSON. */
  lemma GetAfterSet(value: JsValue, json: JsonCodec)
    requires FaithfulJson(json)
    requires !value.JStr?
    ensures Retrieve(Some(StorageText(value, json)), json) == value
  {
    var text := StorageText(value, json);
    assert text == json.stringify(value);
    assert json.parse(text) == Some(value);
  }

  /** A string comes back from `get` as itself only when it is not empty
      and is not JSON text; the empty string comes back as null, and JSON
      text comes back parsed. */
  lemma GetAfterSetText(s: string, json: JsonCodec)
    ensures s == "" ==> Retrieve(Some(StorageText(JStr(s), json)), json) == JNull
    ensures s != "" && json.parse(s).None? ==> Retrieve(Some(StorageText(JStr(s), json)), json) == JStr(s)
    ensures s != "" && json.parse(s).Some? ==> Retrieve(Some(StorageText(JStr(s), json)), json) == json.parse(s).value
  {
  }

  /** `isLoggedIn` on the value `get('admin_token')` returned: a truthy
      token whose `atob` decoding splits on ':' into at least two pieces,
      the second of which `parseInt` reads as a number above `now`. A live
      token is truthy and decodes to text holding ':'. */
  function TokenLive(token: JsValue, atob: string -> Option<string>, now: int): (r: bool)
    ensures r ==> Truthy(token) && atob(ToJsString(token)).Some? && ':' in atob(ToJsString(token)).value
    ensures r ==> var parts := Split(atob(ToJsString(token)).value, ':');
      |parts| >= 2 && ParseInt(parts[1]).Some? && ParseInt(parts[1]).value > now
    ensures (Truthy(token) && atob(ToJsString(token)).Some? &&
             var parts := Split(atob(ToJsString(token)).value, ':');
             |parts| >= 2 && ParseInt(parts[1]).None?) ==> !r
  {
    if !Truthy(token) then false
    else
      match atob(ToJsString(token))
      case None => false
      case Some(decoded) =>
        var parts := Split(decoded, ':');
        |parts| >= 2 &&
        match ParseInt(parts[1])
        case None => false
        case Some(expiry) => expiry > now
  }

  /** A token that decodes to `username:expiry` is live exactly until its expiry. */
  lemma TokenLiveWellFormed(token: string, username: string, expiry: nat,
                            atob: string -> Option<string>, now: int)
    requires token != ""
    requires ':' !in username
    requires atob(token) == Some(username + ":" + NatToString(expiry))
    ensures TokenLive(JStr(token), atob, now) <==> expiry > now
  {
    var e := NatToString(expiry);
    assert forall i :: 0 <= i < |e| ==> e[i] != ':';
    SplitJoin([username, e], ':');
    assert Join([username, e], ':') == username + ":" + e;
    ParseIntOfNat(expiry, "");
    assert e + "" == e;
  }

  /** A decoded token without ':' has no expiry piece: never live. */
  lemma TokenWithoutSeparatorNotLive(token: JsValue, atob: string -> Option<string>, now: int)
    requires atob(ToJsString(token)).Some? && ':' !in atob(ToJsString(token)).value
    ensures !TokenLive(token, atob, now)
  {
    var d := atob(ToJsString(token)).value;
    assert IndexOf(d, ':') == |d|;
  }

  /** The store: `items` is what `localStorage` holds. A `fails` argument
      says that the storage layer throws on this call. */
  class Session {
    var items: map<string, string>
    const json: JsonCodec

    /** The store as the page finds it on load. */
    constructor (json: JsonCodec, items: map<string, string>)
      ensures this.json == json && this.items == items
    {
      this.json := json;
      this.items := items;
    }

    /** `Session.set(key, value)`: true when stored, false when storage threw. */
    method Set(key: string, value: JsValue, fails: bool) returns (ok: bool)
      modifies this
      ensures ok == !fails
      ensures items == if fails then old(items) else old(items)[key := StorageText(value, json)]
    {
      if fails {
        return false;
      }
      items := items[key := StorageText(value, json)];
      return true;
    }

    /** `Session.get(key)`: null for a missing or empty entry and when storage throws. */
    method Get(key: string, fails: bool) returns (v: JsValue)
      ensures v == if fails then JNull else Retrieve(Lookup(items, key), json)
      ensures key !in items || items[key] == "" ==> v == JNull
    {
      if fails {
        return JNull;
      }
      if key !in items || items[key] == "" {
        return JNull;
      }
      var raw := items[key];
      match json.parse(raw) {
        case Some(parsed) => v := parsed;
        case None => v := JStr(raw);
      }
    }

    /** `Session.remove(key)`. */
    method Remove(key: string, fails: bool) returns (ok: bool)
      modifies this
      ensures ok == !fails
      ensures items == if fails then old(items) else old(items) - {key}
    {
      if fails {
        return false;
      }
      items := items - {key};
      return true;
    }

    /** `Session.clear()`. */
    method Clear(fails: bool) returns (ok: bool)
      modifies this
      ensures ok == !fails
      ensures items == if fails then old(items) else map[]
    {
      if fails {
        return false;
      }
      items := map[];
      return true;
    }

    /** `Session.isLoggedIn()` at time `now`. */
    method IsLoggedIn(atob: string -> Option<string>, now: int, fails: bool) returns (b: bool)
      ensures b == TokenLive(if fails then JNull else Retrieve(Lookup(items, AdminTokenKey), json), atob, now)
      ensures fails || AdminTokenKey !in items ==> !b
    {
      var token := Get(AdminTokenKey, fails);
      if !Truthy(token) {
        return false;
      }
      var decoded := atob(ToJsString(token));
      if decoded.None? {
        return false;
      }
      var parts := Split(decoded.value, ':');
      if |parts| < 2 {
        return false;
      }
      var expiry := ParseInt(parts[1]);
      b := expiry.Some? && expiry.value > now;
    }

    /** `Session.login(token)`. */
    method Login(token: JsValue, fails: bool) returns (ok: bool)
      modifies this
      ensures ok == !fails
      ensures items == if fails then old(items) else old(items)[AdminTokenKey := StorageText(token, json)]
    {
      ok := Set(AdminTokenKey, token, fails);
    }

    /** `Session.logout()`, without the navigation to index.html that follows. */
    method Logout(fails: bool)
      modifies this
      ensures items == if fails then old(items) else old(items) - {AdminTokenKey}
    {
      var _ := Remove(AdminTokenKey, fails);
    }
  }

  /** After `login` with a token that decodes to `username:expiry` (and is
      not itself JSON text), `isLoggedIn` holds exactly while `now` is
      before the expiry. */
  lemma LoginThenLoggedIn(items: map<string, string>, json: JsonCodec, token: string, username: string,
                          expiry: nat, atob: string -> Option<string>, now: int)
    requires token != "" && json.parse(token).None?
    requires ':' !in username
    requires atob(token) == Some(username + ":" + NatToString(expiry))
    ensures var stored := items[AdminTokenKey := StorageText(JStr(token), json)];
      TokenLive(Retrieve(Lookup(stored, AdminTokenKey), json), atob, now) <==> expiry > now
  {
    assert Retrieve(Lookup(items[AdminTokenKey := StorageText(JStr(token), json)], AdminTokenKey), json) == JStr(token);
    TokenLiveWellFormed(token, username, expiry, atob, now);
  }

  /** After `logout` nobody is logged in, whatever the clock says. */
  lemma LogoutThenLoggedOut(items: map<string, string>, json: JsonCodec, atob: string -> Option<string>, now: int)
    ensures !TokenLive(Retrieve(Lookup(items - {AdminTokenKey}, AdminTokenKey), json), atob, now)
  {
  }
}
