/** The session-keeping rules of the lattice security layer: when a token is
    due for refresh, what verifying and refreshing the session do to the token
    store, the cross-tab logout trigger, and the XOR placeholder cipher behind
    `secureStore`/`secureRetrieve`. The cipher is labelled insecure in the
    source; only its round trip is claimed here. */
module LatticeSecurity {
  import opened JsStrings
  import opened Browser
  import opened AuthService
  import Base64

  /** Refresh when fewer than this many milliseconds remain (five minutes). */
  const TokenRefreshTimeBuffer := 5 * 60 * 1000
  /** Period of the refresh check (one minute); scheduling is not modelled. */
  const TokenCheckInterval := 60 * 1000

  const SessionExpiredUrl := "/login.html?session=expired"

  // ---------------------------------------------------------------------------
  // getTokenData and the refresh check

  /** The claims of a token payload the client reads: `exp`, in seconds since
      the epoch, when it is a number. */
  datatype Claims = Claims(exp: Option<int>)

  /** `getTokenData()`. `JSON.parse` of the decoded payload is the parameter
      `parse`; None stands for an exception or a falsy payload. */
  function GetTokenData(items: map<string, string>, parse: seq<Base64.Byte> -> Option<Claims>): (r: Option<Claims>)
    ensures !IsAuthenticated(items) ==> r == None
    ensures IsAuthenticated(items) && |Split(GetToken(items).value, '.')| != 3 ==> r == None
    ensures r.Some? ==>
              var payload := Base64.Atob(Split(GetToken(items).value, '.')[1]);
              payload.Some? && r == parse(payload.value)
    ensures IsAuthenticated(items) && |Split(GetToken(items).value, '.')| == 3 ==>
              var payload := Base64.Atob(Split(GetToken(items).value, '.')[1]);
              r == if payload.Some? then parse(payload.value) else None
  {
    var token := GetToken(items);
    if !Truthy(token) then None
    else
      var parts := Split(token.value, '.');
      if |parts| != 3 then None
      else match Base64.Atob(parts[1])
        case None => None
        case Some(payload) => parse(payload)
  }

  /** The test `checkToken` applies: the payload has a truthy `exp` and fewer
      than `TokenRefreshTimeBuffer / 1000` whole seconds are left. */
  predicate NeedsRefresh(claims: Option<Claims>, nowMs: nat): (due: bool)
    ensures due ==> claims.Some? && claims.value.exp.Some? && claims.value.exp.value != 0
    ensures due ==> nowMs / 1000 > claims.value.exp.value - 300
  {
    claims.Some? && claims.value.exp.Some? && claims.value.exp.value != 0
    && claims.value.exp.value - nowMs / 1000 < TokenRefreshTimeBuffer / 1000
  }

  /** A refresh is due exactly from 299 seconds before `exp` on: the check
      rounds the clock down to whole seconds and uses a strict comparison. */
  lemma NeedsRefreshWindow(exp: int, nowMs: nat)
    requires exp != 0
    ensures NeedsRefresh(Some(Claims(Some(exp))), nowMs) <==> nowMs >= (exp - 299) * 1000
  {
    WholeSeconds(nowMs, exp - 299);
  }

  /** The clock rounded down to whole seconds reaches `k` exactly when the
      clock in milliseconds reaches `k * 1000`. */
  lemma WholeSeconds(ms: nat, k: int)
    ensures ms / 1000 >= k <==> ms >= k * 1000
  {
    var secs := ms / 1000;
    assert secs * 1000 <= ms < secs * 1000 + 1000;
    if secs >= k {
      assert secs * 1000 >= k * 1000;
    } else {
      assert secs * 1000 + 1000 <= k * 1000;
    }
  }

  /** Once a refresh is due it stays due as the clock advances. */
  lemma NeedsRefreshMonotone(claims: Option<Claims>, t0: nat, t1: nat)
    requires t0 <= t1 && NeedsRefresh(claims, t0)
    ensures NeedsRefresh(claims, t1)
  {
    var exp := claims.value.exp.value;
    NeedsRefreshWindow(exp, t0);
    NeedsRefreshWindow(exp, t1);
  }

  /** Without a payload, or with `exp` absent or 0, no refresh is ever due. */
  lemma NoExpNoRefresh(claims: Option<Claims>, nowMs: nat)
    requires claims.None? || claims.value.exp.None? || claims.value.exp.value == 0
    ensures !NeedsRefresh(claims, nowMs)
  {
  }

  // ---------------------------------------------------------------------------
  // Invalidating, verifying and refreshing the session

  /** `handleInvalidSession()`: the three session keys are removed and the page
      goes to the login form with `session=expired`. */
  method HandleInvalidSession(store: LocalStorage, loc: Location)
    modifies store, loc
    ensures store.items == Without(old(store.items), SessionKeys)
    ensures loc.navigations == old(loc.navigations) + [SessionExpiredUrl]
    ensures loc.reloads == old(loc.reloads)
  {
    store.RemoveItem(TokenKey);
    store.RemoveItem(RefreshTokenKey);
    store.RemoveItem(UserKey);
    loc.Assign(SessionExpiredUrl);
  }

  /** A reply that rejects the session: a response that is not ok or not a
      success. A network error does not reject it. */
  predicate Rejected(reply: Reply) {
    reply.Response? && !Succeeded(reply)
  }

  /** `verifySession()`: valid only with a stored token and a successful reply;
      a rejecting reply invalidates the session; no token or a network error
      changes nothing. */
  method VerifySession(store: LocalStorage, loc: Location, reply: Reply) returns (valid: bool)
    modifies store, loc
    ensures valid <==> IsAuthenticated(old(store.items)) && Succeeded(reply)
    ensures IsAuthenticated(old(store.items)) && Rejected(reply) ==>
              store.items == Without(old(store.items), SessionKeys)
              && loc.navigations == old(loc.navigations) + [SessionExpiredUrl]
    ensures !(IsAuthenticated(old(store.items)) && Rejected(reply)) ==>
              store.items == old(store.items) && loc.navigations == old(loc.navigations)
    ensures loc.reloads == old(loc.reloads)
  {
    var token := store.GetItem(TokenKey);
    if !Truthy(token) {
      return false;
    }
    match reply {
      case NetworkError =>
        valid := false;
      case Response(ok, body) =>
        if !ok || !body.success {
          HandleInvalidSession(store, loc);
          valid := false;
        } else {
          valid := true;
        }
    }
  }

  /** What `localStorage.setItem` stores for `data.token`: the string, or
      "undefined" when the reply has no token. */
  function StoredText(value: Option<string>): string {
    if value.Some? then value.value else "undefined"
  }

  /** The store after a successful refresh. */
  function Refreshed(items: map<string, string>, body: Body): (r: map<string, string>)
    ensures Get(r, TokenKey) == Some(StoredText(body.token))
    ensures Get(r, RefreshTokenKey) == (if Truthy(body.refreshToken) then body.refreshToken else Get(items, RefreshTokenKey))
    ensures forall k :: k != TokenKey && k != RefreshTokenKey ==> Get(r, k) == Get(items, k)
  {
    var a := items[TokenKey := StoredText(body.token)];
    if Truthy(body.refreshToken) then a[RefreshTokenKey := body.refreshToken.value] else a
  }

  /** `refreshToken()`: nothing happens without a refresh token or on a network
      error; a rejecting reply invalidates the session; a successful one
      replaces the access token and, when one is sent, the refresh token. */
  method RefreshToken(store: LocalStorage, loc: Location, reply: Reply) returns (ok: bool)
    modifies store, loc
    ensures ok <==> Truthy(Get(old(store.items), RefreshTokenKey)) && Succeeded(reply)
    ensures ok ==> store.items == Refreshed(old(store.items), reply.body)
                   && loc.navigations == old(loc.navigations)
    ensures Truthy(Get(old(store.items), RefreshTokenKey)) && Rejected(reply) ==>
              store.items == Without(old(store.items), SessionKeys)
              && loc.navigations == old(loc.navigations) + [SessionExpiredUrl]
    ensures !Truthy(Get(old(store.items), RefreshTokenKey)) || reply.NetworkError? ==>
              store.items == old(store.items) && loc.navigations == old(loc.navigations)
    ensures loc.reloads == old(loc.reloads)
  {
    var refresh := store.GetItem(RefreshTokenKey);
    if !Truthy(refresh) {
      return false;
    }
    match reply {
      case NetworkError =>
        ok := false;
      case Response(responseOk, body) =>
        if !responseOk || !body.success {
          HandleInvalidSession(store, loc);
          ok := false;
        } else {
          store.SetItem(TokenKey, StoredText(body.token));
          if Truthy(body.refreshToken) {
            store.SetItem(RefreshTokenKey, body.refreshToken.value);
          }
          ok := true;
        }
    }
  }

  /** A successful refresh keeps the cached user and leaves the client
      authenticated whenever the reply carries a token. */
  lemma RefreshKeepsUser(items: map<string, string>, body: Body)
    ensures GetUser(Refreshed(items, body)) == GetUser(items)
    ensures Truthy(body.token) ==> IsAuthenticated(Refreshed(items, body))
  {
    assert Get(Refreshed(items, body), UserKey) == Get(items, UserKey);
  }

  /** `checkToken`: when a refresh is due, refresh with the given reply, with
      the outcomes of `RefreshToken`. Returns whether a refresh was attempted. */
  method CheckToken(store: LocalStorage, loc: Location, nowMs: nat,
                    parse: seq<Base64.Byte> -> Option<Claims>, reply: Reply) returns (attempted: bool)
    modifies store, loc
    ensures attempted == NeedsRefresh(GetTokenData(old(store.items), parse), nowMs)
    ensures attempted && Truthy(Get(old(store.items), RefreshTokenKey)) && Succeeded(reply) ==>
              store.items == Refreshed(old(store.items), reply.body)
              && loc.navigations == old(loc.navigations)
    ensures attempted && Truthy(Get(old(store.items), RefreshTokenKey)) && Rejected(reply) ==>
              store.items == Without(old(store.items), SessionKeys)
              && loc.navigations == old(loc.navigations) + [SessionExpiredUrl]
    ensures !attempted || !Truthy(Get(old(store.items), RefreshTokenKey)) || reply.NetworkError? ==>
              store.items == old(store.items) && loc.navigations == old(loc.navigations)
    ensures loc.reloads == old(loc.reloads)
  {
    var claims := GetTokenData(store.items, parse);
    attempted := NeedsRefresh(claims, nowMs);
    if attempted {
      var _ := RefreshToken(store, loc, reply);
    }
  }

  // ---------------------------------------------------------------------------
  // Cross-tab logout

  /** The storage listener reloads the page when another tab removed or
      emptied the access token. */
  function StorageEventForcesReload(key: Option<string>, newValue: Option<string>): (reload: bool)
    ensures reload <==> key == Some(TokenKey) && (newValue.None? || newValue == Some(""))
  {
    key == Some(TokenKey) && !Truthy(newValue)
  }

  method OnStorageEvent(loc: Location, key: Option<string>, newValue: Option<string>)
    modifies loc
    ensures loc.navigations == old(loc.navigations)
    ensures loc.reloads == old(loc.reloads) + (if StorageEventForcesReload(key, newValue) then 1 else 0)
  {
    if StorageEventForcesReload(key, newValue) {
      loc.Reload();
    }
  }

  /** A logout in another tab removes the token, and the event it raises
      reloads this tab; writing a new token does not. */
  lemma LogoutElsewhereReloads(items: map<string, string>, token: string)
    requires token != ""
    ensures Get(Without(items, SessionKeys), TokenKey).None?
    ensures StorageEventForcesReload(Some(TokenKey), Get(Without(items, SessionKeys), TokenKey))
    ensures !StorageEventForcesReload(Some(TokenKey), Some(token))
  {
  }

  // ---------------------------------------------------------------------------
  // The XOR placeholder cipher

  /** Bitwise exclusive or of two naturals, one binary digit at a time. */
  function Xor(a: nat, b: nat): nat
    decreases a + b
  {
    if a == 0 && b == 0 then 0
    else (a % 2 + b % 2) % 2 + 2 * Xor(a / 2, b / 2)
  }

  function Pow2(m: nat): (p: nat)
    ensures p >= 1
  {
    if m == 0 then 1 else 2 * Pow2(m - 1)
  }

  lemma XorDigits(a: nat, b: nat)
    ensures Xor(a, b) % 2 == (a % 2 + b % 2) % 2
    ensures Xor(a, b) / 2 == Xor(a / 2, b / 2)
  {
  }

  lemma BitCancel(p: nat, q: nat)
    requires p < 2 && q < 2
    ensures ((p + q) % 2 + q) % 2 == p
  {
  }

  lemma Halves(n: nat)
    ensures n == 2 * (n / 2) + n % 2
  {
  }

  /** Exclusive or with the same value twice is the identity. */
  lemma {:induction false} XorInvolutive(a: nat, b: nat)
    ensures Xor(Xor(a, b), b) == a
    decreases a + b
  {
    if a == 0 && b == 0 {
    } else {
      var x := Xor(a, b);
      XorDigits(a, b);
      XorDigits(x, b);
      XorInvolutive(a / 2, b / 2);
      BitCancel(a % 2, b % 2);
      var y := Xor(x, b);
      assert y / 2 == a / 2;
      assert y % 2 == a % 2;
      Halves(y);
      Halves(a);
    }
  }

  /** Exclusive or of two m-bit values is an m-bit value. */
  lemma {:induction false} XorBound(a: nat, b: nat, m: nat)
    requires a < Pow2(m) && b < Pow2(m)
    ensures Xor(a, b) < Pow2(m)
  {
    if m > 0 && !(a == 0 && b == 0) {
      XorBound(a / 2, b / 2, m - 1);
    }
  }

  lemma {:induction false} XorZero(a: nat)
    ensures Xor(a, 0) == a
    decreases a
  {
    if a != 0 {
      XorZero(a / 2);
    }
  }

  /** XORing a value of at least 2^m with one below 2^m leaves it at least 2^m:
      the high bits are untouched. */
  lemma {:induction false} XorKeepsHigh(a: nat, b: nat, m: nat)
    requires b < Pow2(m) <= a
    ensures Xor(a, b) >= Pow2(m)
  {
    if m == 0 {
      XorZero(a);
    } else {
      XorKeepsHigh(a / 2, b / 2, m - 1);
    }
  }

  lemma Pow2Values()
    ensures Pow2(8) == 0x100 && Pow2(16) == 0x10000
  {
    assert Pow2(2) == 4;
    assert Pow2(4) == 16;
    assert Pow2(6) == 64;
    assert Pow2(8) == 0x100;
    assert Pow2(10) == 0x400;
    assert Pow2(12) == 0x1000;
    assert Pow2(14) == 0x4000;
  }

  /** `x ^ y` on two code units: a code unit again. */
  function XorUnit(x: CodeUnit, y: CodeUnit): CodeUnit {
    Pow2Values();
    XorBound(x, y, 16);
    Xor(x, y)
  }

  /** `key.charCodeAt(i % key.length)`. For an empty key the index is NaN, the
      code is NaN, and `^` treats NaN as 0. */
  function KeyUnit(key: seq<CodeUnit>, i: nat): CodeUnit {
    if |key| == 0 then 0 else key[i % |key|]
  }

  /** The code units `encryptData`'s loop builds: each data unit XORed with the
      key unit at the same position, the key repeated as often as needed. */
  function XorWithKey(data: seq<CodeUnit>, key: seq<CodeUnit>): (r: seq<CodeUnit>)
    ensures |r| == |data|
  {
    seq(|data|, i requires 0 <= i < |data| => XorUnit(data[i], KeyUnit(key, i)))
  }

  /** Applying the keyed XOR twice with the same key gives the data back. */
  lemma XorWithKeyInvolutive(data: seq<CodeUnit>, key: seq<CodeUnit>)
    ensures XorWithKey(XorWithKey(data, key), key) == data
  {
    var once := XorWithKey(data, key);
    forall i | 0 <= i < |data| ensures XorWithKey(once, key)[i] == data[i] {
      XorInvolutive(data[i], KeyUnit(key, i));
    }
  }

  /** What `encryptData(data, key)` returns; None where `btoa` throws because a
      XORed unit is above 0xFF. */
  function Encrypted(data: string, key: string): Option<string> {
    Base64.Btoa(XorWithKey(Utf16(data), Utf16(key)))
  }

  /** What `decryptData(encryptedData, key)` returns, as code units; None where
      `atob` throws and the function returns null. */
  function Decrypted(encryptedData: string, key: string): Option<seq<CodeUnit>> {
    match Base64.Atob(encryptedData)
      case None => None
      case Some(bytes) => Some(XorWithKey(bytes, Utf16(key)))
  }

  /** `encryptData(data, key)`: the index loop over the data's code units. */
  method EncryptData(data: string, key: string) returns (r: Option<string>)
    ensures r == Encrypted(data, key)
    ensures r.Some? ==> Decrypted(r.value, key) == Some(Utf16(data))
  {
    var units := Utf16(data);
    var keyUnits := Utf16(key);
    var result: seq<CodeUnit> := [];
    var i := 0;
    while i < |units|
      invariant 0 <= i <= |units| && |result| == i
      invariant forall j :: 0 <= j < i ==> result[j] == XorUnit(units[j], KeyUnit(keyUnits, j))
    {
      result := result + [XorUnit(units[i], KeyUnit(keyUnits, i))];
      i := i + 1;
    }
    assert result == XorWithKey(units, keyUnits);
    r := Base64.Btoa(result);
    if r.Some? {
      DecryptEncrypted(data, key);
    }
  }

  /** `decryptData(encryptedData, key)`: null when `atob` throws, otherwise the
      loop over the decoded bytes. */
  method DecryptData(encryptedData: string, key: string) returns (r: Option<seq<CodeUnit>>)
    ensures r == Decrypted(encryptedData, key)
  {
    var decoded := Base64.Atob(encryptedData);
    if decoded.None? {
      return None;
    }
    var data: seq<CodeUnit> := decoded.value;
    var keyUnits := Utf16(key);
    ghost var full := XorWithKey(data, keyUnits);
    var result: seq<CodeUnit> := [];
    var i := 0;
    while i < |data|
      invariant 0 <= i <= |data|
      invariant result == full[..i]
    {
      PrefixStep(full, i);
      result := result + [XorUnit(data[i], KeyUnit(keyUnits, i))];
      i := i + 1;
    }
    assert full[..|data|] == full;
    r := Some(result);
  }

  lemma PrefixStep(s: seq<CodeUnit>, i: nat)
    requires i < |s|
    ensures s[..i + 1] == s[..i] + [s[i]]
  {
  }

  /** Decrypting with the key used to encrypt gives back the data's code units,
      for every key, the empty one included. */
  lemma DecryptEncrypted(data: string, key: string)
    requires Encrypted(data, key).Some?
    ensures Decrypted(Encrypted(data, key).value, key) == Some(Utf16(data))
  {
    var x := XorWithKey(Utf16(data), Utf16(key));
    assert Base64.IsBinary(x);
    var bytes: seq<Base64.Byte> := x;
    Base64.AtobBtoa(bytes);
    XorWithKeyInvolutive(Utf16(data), Utf16(key));
  }

  /** `btoa` refuses the ciphertext as soon as the data holds a code unit above
      0xFF and the key does not: with a Latin-1 key (an ASCII token, say), data
      with any character above U+00FF cannot be encrypted. */
  lemma EncryptRefusesWideUnits(data: string, key: string, i: nat)
    requires forall j :: 0 <= j < |Utf16(key)| ==> Utf16(key)[j] < 0x100
    requires i < |Utf16(data)| && Utf16(data)[i] >= 0x100
    ensures Encrypted(data, key) == None
  {
    var x := XorWithKey(Utf16(data), Utf16(key));
    var k := KeyUnit(Utf16(key), i);
    Pow2Values();
    XorKeepsHigh(Utf16(data)[i], k, 8);
    assert x[i] >= 0x100;
  }

  // ---------------------------------------------------------------------------
  // secureStore and secureRetrieve

  /** The storage key `secure_${key}`. */
  function SecureKey(key: string): (k: string)
    ensures k !in SessionKeys
  {
    assert ("secure_" + key)[0] == 's';
    "secure_" + key
  }

  datatype StoreOutcome = NoToken | Stored | Threw

  /** `secureStore(key, data)` for string data: nothing without a token; the
      ciphertext under the access token is written to `secure_${key}`; when
      `btoa` throws, the exception escapes and nothing is written. */
  method SecureStore(store: LocalStorage, key: string, data: string) returns (outcome: StoreOutcome)
    modifies store
    ensures outcome == NoToken <==> !IsAuthenticated(old(store.items))
    ensures outcome == Threw <==>
              IsAuthenticated(old(store.items)) && Encrypted(data, GetToken(old(store.items)).value).None?
    ensures store.items ==
              if outcome == Stored
              then old(store.items)[SecureKey(key) := Encrypted(data, GetToken(old(store.items)).value).value]
              else old(store.items)
  {
    var token := store.GetItem(TokenKey);
    if !Truthy(token) {
      return NoToken;
    }
    var encrypted := EncryptData(data, token.value);
    if encrypted.None? {
      return Threw;
    }
    store.SetItem(SecureKey(key), encrypted.value);
    outcome := Stored;
  }

  /** What `secureRetrieve(key)` finds before its `JSON.parse` attempt: null, or
      the decrypted text as code units. */
  datatype Retrieved = Null | Text(units: seq<CodeUnit>)

  /** `secureRetrieve(key)` on a store's contents: null without a token, without
      a stored ciphertext, when decoding fails, or when the text is empty. */
  function Retrieve(items: map<string, string>, key: string): (r: Retrieved)
    ensures !IsAuthenticated(items) ==> r == Null
    ensures r.Text? ==> r.units != []
  {
    var token := GetToken(items);
    var encrypted := Get(items, SecureKey(key));
    if !Truthy(token) || !Truthy(encrypted) then Null
    else match Decrypted(encrypted.value, token.value)
      case None => Null
      case Some(units) => if units == [] then Null else Text(units)
  }

  method SecureRetrieve(store: LocalStorage, key: string) returns (r: Retrieved)
    ensures r == Retrieve(store.items, key)
  {
    var token := store.GetItem(TokenKey);
    if !Truthy(token) {
      return Null;
    }
    var encrypted := store.GetItem(SecureKey(key));
    if !Truthy(encrypted) {
      return Null;
    }
    var decrypted := DecryptData(encrypted.value, token.value);
    if decrypted.None? || decrypted.value == [] {
      return Null;
    }
    r := Text(decrypted.value);
  }

  /** What `secureStore` writes, `secureRetrieve` reads back while the same
      token is stored: the data's code units, or null for empty data. */
  lemma SecureRoundTrip(items: map<string, string>, key: string, data: string)
    requires IsAuthenticated(items)
    requires Encrypted(data, GetToken(items).value).Some?
    ensures var after := items[SecureKey(key) := Encrypted(data, GetToken(items).value).value];
            Retrieve(after, key) == if data == "" then Null else Text(Utf16(data))
  {
    var token := GetToken(items).value;
    var encrypted := Encrypted(data, token).value;
    var after := items[SecureKey(key) := encrypted];
    assert GetToken(after) == GetToken(items);
    assert Get(after, SecureKey(key)) == Some(encrypted);
    DecryptEncrypted(data, token);
    if encrypted == "" {
      // atob("") is empty, so the data's code units are empty too
      EmptyDecryptsEmpty(token);
      assert |Utf16(data)| == 0;
    }
  }

  /** An empty ciphertext decrypts to no code units. */
  lemma EmptyDecryptsEmpty(key: string)
    ensures Decrypted("", key) == Some([])
  {
    assert Base64.Atob("") == Some([]);
  }
}
