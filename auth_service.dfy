/** The client's token store: the three `localStorage` keys written after a
    successful login or registration, read back by `getToken`/`getUser`, and
    removed on logout; plus the role-to-dashboard map. Server replies are
    inputs (`Reply`); the HTTP traffic itself is not modelled. */
module AuthService {
  import opened JsStrings
  import opened Browser

  const TokenKey := "avh_auth_token"
  const RefreshTokenKey := "avh_refresh_token"
  const UserKey := "avh_user"
  const SessionKeys: set<string> := {TokenKey, RefreshTokenKey, UserKey}

  /** The part of a user record the client reads: its role, which may be
      absent (`user.role` is then undefined). */
  datatype User = User(role: Option<string>)

  /** The JSON body of a reply: `success`, `token`, `refreshToken`, `user`. */
  datatype Body = Body(success: bool, token: Option<string>, refreshToken: Option<string>, user: Option<User>)

  /** What `fetch` followed by `response.json()` produced: a response with its
      `ok` flag and parsed body, or an exception (network failure or a body
      that is not JSON). */
  datatype Reply = Response(ok: bool, body: Body) | NetworkError

  /** `response.ok && data.success` */
  predicate Succeeded(reply: Reply) {
    reply.Response? && reply.ok && reply.body.success
  }

  // ---------------------------------------------------------------------------
  // The stored user: JSON.stringify and a JSON.parse for what it writes

  function LowerHexDigit(d: int): char
    requires 0 <= d < 16
  {
    if d < 10 then ('0' as int + d) as char else ('a' as int + (d - 10)) as char
  }

  predicate IsHexChar(c: char) {
    '0' <= c <= '9' || 'a' <= c <= 'f' || 'A' <= c <= 'F'
  }

  function HexCharValue(c: char): (v: int)
    requires IsHexChar(c)
    ensures 0 <= v < 16
  {
    if c <= '9' then c as int - '0' as int
    else if c <= 'F' then c as int - 'A' as int + 10
    else c as int - 'a' as int + 10
  }

  /** How `JSON.stringify` writes one character inside a string literal. */
  function EscapeJsonChar(c: char): string {
    if c == '"' then "\\\""
    else if c == '\\' then "\\\\"
    else if c == '\U{0008}' then "\\b"
    else if c == '\t' then "\\t"
    else if c == '\n' then "\\n"
    else if c == '\U{000C}' then "\\f"
    else if c == '\r' then "\\r"
    else if (c as int) < 0x20 then "\\u00" + [LowerHexDigit(c as int / 16), LowerHexDigit(c as int % 16)]
    else [c]
  }

  function EscapeJson(s: string): string {
    if s == [] then "" else EscapeJsonChar(s[0]) + EscapeJson(s[1..])
  }

  function Prepend(c: char, rest: Option<string>): Option<string> {
    if rest.Some? then Some([c] + rest.value) else None
  }

  /** The characters a JSON string literal's body denotes; None where
      `JSON.parse` would throw (a raw quote or control character, an unknown
      escape). A `\u` escape of a surrogate half is not read. */
  function UnescapeJson(s: string): Option<string>
    decreases |s|
  {
    if s == [] then Some("")
    else if s[0] == '"' || (s[0] as int) < 0x20 then None
    else if s[0] != '\\' then Prepend(s[0], UnescapeJson(s[1..]))
    else if |s| < 2 then None
    else
      var e := s[1];
      if e == '"' || e == '\\' || e == '/' then Prepend(e, UnescapeJson(s[2..]))
      else if e == 'b' then Prepend('\U{0008}', UnescapeJson(s[2..]))
      else if e == 't' then Prepend('\t', UnescapeJson(s[2..]))
      else if e == 'n' then Prepend('\n', UnescapeJson(s[2..]))
      else if e == 'f' then Prepend('\U{000C}', UnescapeJson(s[2..]))
      else if e == 'r' then Prepend('\r', UnescapeJson(s[2..]))
      else if e == 'u' && |s| >= 6 && IsHexChar(s[2]) && IsHexChar(s[3]) && IsHexChar(s[4]) && IsHexChar(s[5]) then
        var v := ((HexCharValue(s[2]) * 16 + HexCharValue(s[3])) * 16 + HexCharValue(s[4])) * 16 + HexCharValue(s[5]);
        if 0xD800 <= v < 0xE000 then None else Prepend(v as char, UnescapeJson(s[6..]))
      else None
  }

  const RolePrefix := "{\"role\":\""
  const RoleSuffix := "\"}"

  /** `JSON.stringify(user)` */
  function UserJson(u: User): string {
    if u.role.None? then "{}" else RolePrefix + EscapeJson(u.role.value) + RoleSuffix
  }

  /** `JSON.parse(text)` for the texts a user record can be stored as; None
      where the model reads no user (the source throws on malformed text). */
  function ParseUser(text: string): Option<User> {
    if text == "{}" then Some(User(None))
    else if |text| >= |RolePrefix| + |RoleSuffix| && text[..|RolePrefix|] == RolePrefix
            && text[|text| - |RoleSuffix|..] == RoleSuffix then
      var role := UnescapeJson(text[|RolePrefix|..|text| - |RoleSuffix|]);
      if role.Some? then Some(User(Some(role.value))) else None
    else None
  }

  lemma EscapeJsonCharRoundTrip(c: char, t: string)
    ensures UnescapeJson(EscapeJsonChar(c) + t) == Prepend(c, UnescapeJson(t))
  {
    if c == '"' || c == '\\' || c == '\U{0008}' || c == '\t' || c == '\n' || c == '\U{000C}' || c == '\r' {
      ShortEscapeRoundTrip(c, t);
    } else if (c as int) < 0x20 {
      UnicodeEscapeRoundTrip(c, t);
    } else {
      var s := EscapeJsonChar(c) + t;
      assert s[1..] == t;
    }
  }

  lemma ShortEscapeRoundTrip(c: char, t: string)
    requires c == '"' || c == '\\' || c == '\U{0008}' || c == '\t' || c == '\n' || c == '\U{000C}' || c == '\r'
    ensures UnescapeJson(EscapeJsonChar(c) + t) == Prepend(c, UnescapeJson(t))
  {
    var s := EscapeJsonChar(c) + t;
    assert s[2..] == t;
  }

  lemma UnicodeEscapeRoundTrip(c: char, t: string)
    requires (c as int) < 0x20
    requires !(c == '\U{0008}' || c == '\t' || c == '\n' || c == '\U{000C}' || c == '\r')
    ensures UnescapeJson(EscapeJsonChar(c) + t) == Prepend(c, UnescapeJson(t))
  {
    var hi, lo := LowerHexDigit(c as int / 16), LowerHexDigit(c as int % 16);
    var s := "\\u00" + [hi, lo] + t;
    assert EscapeJsonChar(c) + t == s;
    assert s[0] == '\\' && s[1] == 'u' && s[2] == '0' && s[3] == '0' && s[4] == hi && s[5] == lo;
    assert HexCharValue(hi) == c as int / 16 && HexCharValue(lo) == c as int % 16;
    assert s[6..] == t;
  }

  /** Reading back what `JSON.stringify` wrote for a string gives the string. */
  lemma {:induction false} EscapeJsonRoundTrip(s: string)
    ensures UnescapeJson(EscapeJson(s)) == Some(s)
  {
    if s != [] {
      EscapeJsonRoundTrip(s[1..]);
      EscapeJsonCharRoundTrip(s[0], EscapeJson(s[1..]));
      assert [s[0]] + s[1..] == s;
    }
  }

  /** `JSON.parse(JSON.stringify(user))` gives the user back. */
  lemma UserJsonRoundTrip(u: User)
    ensures ParseUser(UserJson(u)) == Some(u)
  {
    if u.role.Some? {
      var text := UserJson(u);
      var body := EscapeJson(u.role.value);
      assert text[..|RolePrefix|] == RolePrefix;
      assert text[|text| - |RoleSuffix|..] == RoleSuffix;
      assert text[|RolePrefix|..|text| - |RoleSuffix|] == body;
      assert text != "{}" by { assert text[0] == '{' && text[1] == '"'; }
      EscapeJsonRoundTrip(u.role.value);
    }
  }

  // ---------------------------------------------------------------------------
  // Reading the store

  /** `getToken()` */
  function GetToken(items: map<string, string>): (token: Option<string>)
    ensures token.Some? <==> TokenKey in items
    ensures token.Some? ==> token.value == items[TokenKey]
  {
    Get(items, TokenKey)
  }

  /** `isAuthenticated()`: a non-empty token is stored. */
  predicate IsAuthenticated(items: map<string, string>): (b: bool)
    ensures b <==> TokenKey in items && items[TokenKey] != ""
  {
    Truthy(GetToken(items))
  }

  /** The outcome of `getUser()`: null, a user, or the exception JSON.parse
      raises on text that is not a user record. */
  datatype UserLookup = NoUser | Found(user: User) | Unreadable

  /** `getUser()`: null unless a non-empty text is stored under the user key. */
  function GetUser(items: map<string, string>): (r: UserLookup)
    ensures r == NoUser <==> !Truthy(Get(items, UserKey))
    ensures r.Found? ==> UserKey in items && ParseUser(items[UserKey]) == Some(r.user)
    ensures Truthy(Get(items, UserKey)) ==> (r.Found? <==> ParseUser(items[UserKey]).Some?)
  {
    var text := Get(items, UserKey);
    if !Truthy(text) then NoUser
    else match ParseUser(text.value)
      case Some(u) => Found(u)
      case None => Unreadable
  }

  // ---------------------------------------------------------------------------
  // Writing the store

  /** The store after `saveSession(data)`: each of token, refresh token and
      user is written when present and truthy; every other entry is kept. */
  function SavedSession(items: map<string, string>, body: Body): (r: map<string, string>)
    ensures Get(r, TokenKey) == (if Truthy(body.token) then body.token else Get(items, TokenKey))
    ensures Get(r, RefreshTokenKey) == (if Truthy(body.refreshToken) then body.refreshToken else Get(items, RefreshTokenKey))
    ensures Get(r, UserKey) == (if body.user.Some? then Some(UserJson(body.user.value)) else Get(items, UserKey))
    ensures forall k :: k !in SessionKeys ==> Get(r, k) == Get(items, k)
  {
    var a := if Truthy(body.token) then items[TokenKey := body.token.value] else items;
    var b := if Truthy(body.refreshToken) then a[RefreshTokenKey := body.refreshToken.value] else a;
    if body.user.Some? then b[UserKey := UserJson(body.user.value)] else b
  }

  /** `saveSession(sessionData)` */
  method SaveSession(store: LocalStorage, body: Body)
    modifies store
    ensures store.items == SavedSession(old(store.items), body)
  {
    if Truthy(body.token) {
      store.SetItem(TokenKey, body.token.value);
    }
    if Truthy(body.refreshToken) {
      store.SetItem(RefreshTokenKey, body.refreshToken.value);
    }
    if body.user.Some? {
      store.SetItem(UserKey, UserJson(body.user.value));
    }
  }

  /** Saving a session with a token and a user makes the client authenticated
      as that token and user. */
  lemma SessionRoundTrip(items: map<string, string>, body: Body)
    requires Truthy(body.token) && body.user.Some?
    ensures GetToken(SavedSession(items, body)) == body.token
    ensures IsAuthenticated(SavedSession(items, body))
    ensures GetUser(SavedSession(items, body)) == Found(body.user.value)
  {
    var u := body.user.value;
    UserJsonRoundTrip(u);
    assert UserJson(u) != "" by {
      if u.role.Some? { assert UserJson(u)[0] == '{'; }
    }
  }

  /** `login(credentials)`: the session is saved exactly when the reply
      reports success. */
  method Login(store: LocalStorage, reply: Reply) returns (success: bool)
    modifies store
    ensures success == Succeeded(reply)
    ensures store.items == if success then SavedSession(old(store.items), reply.body) else old(store.items)
  {
    success := Succeeded(reply);
    if success {
      SaveSession(store, reply.body);
    }
  }

  /** `register(userData)`: success is reported as for login, but the session is
      saved only when the reply also carries a token and a user. */
  method Register(store: LocalStorage, reply: Reply) returns (success: bool)
    modifies store
    ensures success == Succeeded(reply)
    ensures store.items ==
      if success && Truthy(reply.body.token) && reply.body.user.Some?
      then SavedSession(old(store.items), reply.body) else old(store.items)
  {
    success := Succeeded(reply);
    if success && Truthy(reply.body.token) && reply.body.user.Some? {
      SaveSession(store, reply.body);
    }
  }

  /** `logout()`: the logout request is sent only when a token is stored; the
      three keys are removed whatever the request does, and the result is
      always success. */
  method Logout(store: LocalStorage) returns (success: bool, requested: bool)
    modifies store
    ensures requested == IsAuthenticated(old(store.items))
    ensures success
    ensures store.items == Without(old(store.items), SessionKeys)
  {
    requested := IsAuthenticated(store.items);
    store.RemoveItem(TokenKey);
    store.RemoveItem(RefreshTokenKey);
    store.RemoveItem(UserKey);
    success := true;
  }

  /** After logout nobody is authenticated and no user is cached. */
  lemma LoggedOut(items: map<string, string>)
    ensures !IsAuthenticated(Without(items, SessionKeys))
    ensures GetUser(Without(items, SessionKeys)) == NoUser
    ensures Get(Without(items, SessionKeys), RefreshTokenKey) == None
  {
  }

  /** The result of `validateSession()`: whether a request was made, the
      verdict, and the user the server returned. */
  datatype Validation = Validation(requested: bool, valid: bool, user: Option<User>)

  /** `validateSession()`: without a token there is no request and the session
      is invalid; otherwise the verdict is the reply's success. */
  function ValidateSession(items: map<string, string>, reply: Reply): (v: Validation)
    ensures !IsAuthenticated(items) ==> v == Validation(false, false, None)
    ensures v.requested <==> IsAuthenticated(items)
    ensures v.valid <==> IsAuthenticated(items) && Succeeded(reply)
  {
    if !IsAuthenticated(items) then Validation(false, false, None)
    else match reply
      case NetworkError => Validation(true, false, None)
      case Response(ok, body) => Validation(true, ok && body.success, body.user)
  }

  // ---------------------------------------------------------------------------
  // redirectToDashboard

  /** The own entries of `redirectMap`. */
  const DashboardRoutes: map<string, string> := map[
    "admin" := "/admin-dashboard.html",
    "expert" := "/expert-dashboard.html",
    "learner" := "/dashboard.html",
    "organizer" := "/dashboard.html",
    "resources" := "/dashboard.html",
    "researcher" := "/dashboard.html"
  ]

  /** The property key a role becomes: `redirectMap[undefined]` looks up "undefined". */
  function RoleKey(role: Option<string>): string {
    if role.Some? then role.value else "undefined"
  }

  /** The dashboard for a role, looking only at the map's own entries. */
  function DashboardFor(role: Option<string>): (url: string)
    ensures role == Some("admin") ==> url == "/admin-dashboard.html"
    ensures role == Some("expert") ==> url == "/expert-dashboard.html"
    ensures role != Some("admin") && role != Some("expert") ==> url == "/dashboard.html"
    ensures url in DashboardRoutes.Values
  {
    var key := RoleKey(role);
    assert DashboardRoutes["learner"] == "/dashboard.html";
    if key in DashboardRoutes then DashboardRoutes[key] else "/dashboard.html"
  }

  /** `redirectToDashboard(role)` with the own-entry lookup. */
  method RedirectToDashboard(loc: Location, role: Option<string>)
    modifies loc
    ensures loc.navigations == old(loc.navigations) + [DashboardFor(role)]
    ensures loc.reloads == old(loc.reloads)
  {
    loc.Assign(DashboardFor(role));
  }

  /** Members every plain object inherits from `Object.prototype`. */
  const ObjectPrototypeFunctions: set<string> := {
    "constructor", "hasOwnProperty", "isPrototypeOf", "propertyIsEnumerable",
    "toLocaleString", "toString", "valueOf", "__defineGetter__",
    "__defineSetter__", "__lookupGetter__", "__lookupSetter__"
  }

  /** What `redirectMap[role] || '/dashboard.html'` evaluates to as written: a
      URL string, an inherited function, or `Object.prototype` itself. */
  datatype Lookup = Url(url: string) | InheritedFunction(name: string) | PrototypeObject

  function DashboardLookupAsWritten(role: Option<string>): Lookup {
    var key := RoleKey(role);
    if key in DashboardRoutes then Url(DashboardRoutes[key])
    else if key in ObjectPrototypeFunctions then InheritedFunction(key)
    else if key == "__proto__" then PrototypeObject
    else Url("/dashboard.html")
  }

  /** As written, the role "toString" is not sent to any dashboard: the lookup
      finds the inherited function, which is truthy, and assigns it to `href`. */
  lemma DashboardLookupAsWrittenInherited()
    ensures DashboardLookupAsWritten(Some("toString")) == InheritedFunction("toString")
    ensures DashboardLookupAsWritten(Some("__proto__")) == PrototypeObject
    ensures DashboardFor(Some("toString")) == "/dashboard.html"
  {
    assert "toString" !in DashboardRoutes;
    assert "__proto__" !in DashboardRoutes;
  }

  /** Away from the inherited names the as-written lookup and DashboardFor agree. */
  lemma DashboardLookupAgrees(role: Option<string>)
    requires RoleKey(role) !in ObjectPrototypeFunctions && RoleKey(role) != "__proto__"
    ensures DashboardLookupAsWritten(role) == Url(DashboardFor(role))
  {
  }
}
