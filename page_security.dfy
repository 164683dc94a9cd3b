/** Page protection: which paths are public, which need a role, and what
    `checkPageAccess` does on page load — allow, send the visitor to the login
    form with the path to come back to, or send a user without the role to
    their own dashboard. The current path and the server's reply to the
    session check are inputs. */
module PageSecurity {
  import opened JsStrings
  import opened Browser
  import opened AuthService
  import LatticeSecurity
  import Uri

  /** The public pages of a fresh instance. */
  const DefaultPublicRoutes: seq<string> := [
    "/index.html", "/login.html", "/signup.html", "/forgot-password.html",
    "/reset-password.html", "/terms.html", "/privacy.html"
  ]

  /** The role-protected pages of a fresh instance, in key order. */
  const DefaultRoleRoutes: seq<(string, seq<string>)> := [
    ("/admin-dashboard.html", ["admin"]),
    ("/expert-dashboard.html", ["expert", "admin"]),
    ("/data-analytics.html", ["admin", "researcher"]),
    ("/manage-users.html", ["admin"])
  ]

  // ---------------------------------------------------------------------------
  // The route tables

  /** `roleRoutes` is an object: its keys are distinct. */
  predicate DistinctKeys(t: seq<(string, seq<string>)>) {
    forall i, j :: 0 <= i < j < |t| ==> t[i].0 != t[j].0
  }

  /** `Object.keys(roleRoutes)` */
  function Keys(t: seq<(string, seq<string>)>): (keys: seq<string>)
    ensures |keys| == |t|
    ensures forall i :: 0 <= i < |t| ==> keys[i] == t[i].0
  {
    if t == [] then [] else [t[0].0] + Keys(t[1..])
  }

  /** `roleRoutes[key]`: the roles stored under a key, if any. */
  function RolesOf(t: seq<(string, seq<string>)>, key: string): (r: Option<seq<string>>)
    ensures r.None? <==> key !in Keys(t)
  {
    if t == [] then None
    else
      assert Keys(t) == [t[0].0] + Keys(t[1..]);
      if t[0].0 == key then Some(t[0].1) else RolesOf(t[1..], key)
  }

  /** `isPublicRoute(path)`: some public route equals the path or is a suffix
      of it. Equality is a special case of the suffix test, so the path is
      public exactly when it ends with a public route. */
  function IsPublicRoute(routes: seq<string>, path: string): (r: bool)
    ensures r <==> exists i :: 0 <= i < |routes| && EndsWith(path, routes[i])
  {
    if routes == [] then false
    else
      assert routes[0] == path ==> EndsWith(path, routes[0]) by {
        assert path[|path| - |path|..] == path;
      }
      var rest := IsPublicRoute(routes[1..], path);
      assert forall i :: 1 <= i < |routes| ==> routes[i] == routes[1..][i - 1];
      routes[0] == path || EndsWith(path, routes[0]) || rest
  }

  /** `requiresRole(path)`: some role-protected route is a suffix of the path. */
  function RequiresRole(t: seq<(string, seq<string>)>, path: string): (r: bool)
    ensures r <==> exists i :: 0 <= i < |t| && EndsWith(path, t[i].0)
  {
    if t == [] then false
    else
      var rest := RequiresRole(t[1..], path);
      assert forall i :: 1 <= i < |t| ==> t[i] == t[1..][i - 1];
      EndsWith(path, t[0].0) || rest
  }

  /** The route `hasRequiredRole` finds: the first key, in key order, that is
      a suffix of the path. */
  function FindRoleRoute(t: seq<(string, seq<string>)>, path: string): (r: Option<nat>)
    ensures r.Some? ==> r.value < |t| && EndsWith(path, t[r.value].0)
                        && forall j :: 0 <= j < r.value ==> !EndsWith(path, t[j].0)
    ensures r.None? <==> !RequiresRole(t, path)
  {
    if t == [] then None
    else if EndsWith(path, t[0].0) then Some(0)
    else
      match FindRoleRoute(t[1..], path)
      case None => None
      case Some(i) =>
        assert forall j :: 1 <= j <= i ==> t[j] == t[1..][j - 1];
        Some(i + 1)
  }

  /** `hasRequiredRole(path, userRole)`: a path no route protects needs no
      role; otherwise the user's role must be among those of the first route
      that matches. An absent role (`undefined`) never is. A first match that
      is the empty key "" is falsy, and the source then requires nothing. */
  function HasRequiredRole(t: seq<(string, seq<string>)>, path: string, role: Option<string>): (r: bool)
    ensures !RequiresRole(t, path) ==> r
    ensures RequiresRole(t, path) ==>
              (r <==> t[FindRoleRoute(t, path).value].0 == ""
                      || (role.Some? && role.value in t[FindRoleRoute(t, path).value].1))
    ensures RequiresRole(t, path) && t[FindRoleRoute(t, path).value].0 != "" && role.None? ==> !r
  {
    match FindRoleRoute(t, path)
    case None => true
    case Some(i) => t[i].0 == "" || (role.Some? && role.value in t[i].1)
  }

  /** The table after `roleRoutes[route] = roles`: an existing key keeps its
      place and gets the new roles, a new key goes last. */
  function SetRoute(t: seq<(string, seq<string>)>, route: string, roles: seq<string>): (r: seq<(string, seq<string>)>)
    ensures |r| == if route in Keys(t) then |t| else |t| + 1
  {
    if t == [] then [(route, roles)]
    else if t[0].0 == route then [(route, roles)] + t[1..]
    else
      assert Keys(t) == [t[0].0] + Keys(t[1..]);
      [t[0]] + SetRoute(t[1..], route, roles)
  }

  /** After `roleRoutes[route] = roles` the route reads back `roles` and every
      other key reads what it read before. */
  lemma {:induction false} SetRouteRoles(t: seq<(string, seq<string>)>, route: string, roles: seq<string>)
    ensures RolesOf(SetRoute(t, route, roles), route) == Some(roles)
    ensures forall k :: k != route ==> RolesOf(SetRoute(t, route, roles), k) == RolesOf(t, k)
  {
    var r := SetRoute(t, route, roles);
    if t != [] {
      if t[0].0 == route {
        assert r[1..] == t[1..];
      } else {
        SetRouteRoles(t[1..], route, roles);
        assert r[1..] == SetRoute(t[1..], route, roles);
      }
    }
  }

  /** An existing key keeps its place; a new key goes last. */
  lemma {:induction false} SetRouteKeys(t: seq<(string, seq<string>)>, route: string, roles: seq<string>)
    ensures Keys(SetRoute(t, route, roles)) == if route in Keys(t) then Keys(t) else Keys(t) + [route]
  {
    var r := SetRoute(t, route, roles);
    if t != [] {
      assert Keys(t) == [t[0].0] + Keys(t[1..]);
      if t[0].0 == route {
        assert r[1..] == t[1..];
        assert Keys(r) == [route] + Keys(t[1..]);
      } else {
        SetRouteKeys(t[1..], route, roles);
        assert r[1..] == SetRoute(t[1..], route, roles);
        assert Keys(r) == [t[0].0] + Keys(r[1..]);
      }
    }
  }

  lemma {:induction false} SetRouteDistinct(t: seq<(string, seq<string>)>, route: string, roles: seq<string>)
    requires DistinctKeys(t)
    ensures DistinctKeys(SetRoute(t, route, roles))
  {
    var r := SetRoute(t, route, roles);
    SetRouteKeys(t, route, roles);
    var keys := Keys(r);
    forall i, j | 0 <= i < j < |r| ensures r[i].0 != r[j].0 {
      assert keys[i] == r[i].0 && keys[j] == r[j].0;
      if route in Keys(t) {
        assert Keys(t)[i] == t[i].0 && Keys(t)[j] == t[j].0;
      } else if j < |t| {
        assert Keys(t)[i] == t[i].0 && Keys(t)[j] == t[j].0;
      } else {
        assert Keys(t)[i] == t[i].0;
        assert keys[j] == route;
      }
    }
  }

  /** A route just protected with `roles` decides access to a path ending in
      it when no other key also matches the path; the empty route "" is falsy
      and so lets every role in. */
  lemma {:induction false} AddedRouteGuards(t: seq<(string, seq<string>)>, route: string, roles: seq<string>, path: string, role: Option<string>)
    requires EndsWith(path, route)
    requires forall i :: 0 <= i < |t| && t[i].0 != route ==> !EndsWith(path, t[i].0)
    ensures HasRequiredRole(SetRoute(t, route, roles), path, role) <==> route == "" || (role.Some? && role.value in roles)
  {
    var r := SetRoute(t, route, roles);
    OnlyRouteMatches(t, route, roles, path);
    var k := FindRoleRoute(r, path).value;
    assert r[k].0 == route;
    assert r[k].1 == roles by {
      RolesFirst(r, k);
      SetRouteRoles(t, route, roles);
    }
  }

  /** When only `route` matches the path among the old keys, only `route`
      matches it after the assignment, and the path is then protected. */
  lemma {:induction false} OnlyRouteMatches(t: seq<(string, seq<string>)>, route: string, roles: seq<string>, path: string)
    requires EndsWith(path, route)
    requires forall i :: 0 <= i < |t| && t[i].0 != route ==> !EndsWith(path, t[i].0)
    ensures RequiresRole(SetRoute(t, route, roles), path)
    ensures forall i :: 0 <= i < |SetRoute(t, route, roles)| && SetRoute(t, route, roles)[i].0 != route ==>
              !EndsWith(path, SetRoute(t, route, roles)[i].0)
  {
    var r := SetRoute(t, route, roles);
    if t == [] || t[0].0 == route {
      assert r[0].0 == route;
      forall i | 0 <= i < |r| && r[i].0 != route ensures !EndsWith(path, r[i].0) {
        assert r[i] == t[i];
      }
    } else {
      var t' := t[1..];
      forall i | 0 <= i < |t'| && t'[i].0 != route ensures !EndsWith(path, t'[i].0) {
        assert t'[i] == t[i + 1];
      }
      OnlyRouteMatches(t', route, roles, path);
      var r' := SetRoute(t', route, roles);
      assert r == [t[0]] + r';
      var k :| 0 <= k < |r'| && EndsWith(path, r'[k].0);
      assert r[k + 1] == r'[k];
      forall i | 0 <= i < |r| && r[i].0 != route ensures !EndsWith(path, r[i].0) {
        if i > 0 { assert r[i] == r'[i - 1]; }
      }
    }
  }

  /** The first entry with a key holds the roles `RolesOf` reads. */
  lemma {:induction false} RolesFirst(t: seq<(string, seq<string>)>, k: nat)
    requires k < |t|
    requires forall j :: 0 <= j < k ==> t[j].0 != t[k].0
    ensures RolesOf(t, t[k].0) == Some(t[k].1)
  {
    if k > 0 {
      RolesFirst(t[1..], k - 1);
    }
  }

  /** A path that is public stays public under any prefix, such as a locale
      directory: "/en/login.html" is as public as "/login.html". */
  lemma PublicUnderPrefix(routes: seq<string>, prefix: string, path: string)
    requires IsPublicRoute(routes, path)
    ensures IsPublicRoute(routes, prefix + path)
  {
    var i :| 0 <= i < |routes| && EndsWith(path, routes[i]);
    var route := routes[i];
    assert path == path[..|path| - |route|] + route;
    EndsWithAppend(prefix + path[..|path| - |route|], route);
    assert prefix + path == (prefix + path[..|path| - |route|]) + route;
  }

  /** With the default routes "/en/login.html" is public: it ends with
      "/login.html". */
  lemma LocaleLoginIsPublic()
    ensures IsPublicRoute(DefaultPublicRoutes, "/en/login.html")
  {
    var route := DefaultPublicRoutes[1];
    EndsWithAppend("/en", route);
    assert "/en" + route == "/en/login.html";
  }

  /** With the default table an admin may open every page: every protected
      route lists "admin". */
  lemma AdminOpensEveryPage(path: string)
    ensures HasRequiredRole(DefaultRoleRoutes, path, Some("admin"))
  {
    var t := DefaultRoleRoutes;
    assert "admin" in t[0].1 && "admin" in t[1].1 && "admin" in t[2].1 && "admin" in t[3].1;
    RoleInEveryRoute(t, path, "admin");
  }

  /** A role every protected route lists may open every page. */
  lemma RoleInEveryRoute(t: seq<(string, seq<string>)>, path: string, role: string)
    requires forall i :: 0 <= i < |t| ==> role in t[i].1
    ensures HasRequiredRole(t, path, Some(role))
  {
    if RequiresRole(t, path) {
      var k := FindRoleRoute(t, path).value;
      assert role in t[k].1;
    }
  }

  /** With the default table an expert may open the expert dashboard. */
  lemma ExpertOpensExpertDashboard()
    ensures HasRequiredRole(DefaultRoleRoutes, "/expert-dashboard.html", Some("expert"))
  {
    var p := "/expert-dashboard.html";
    assert p[|p| - |p|..] == p;
    assert !EndsWith(p, "/admin-dashboard.html");
    assert FindRoleRoute(DefaultRoleRoutes, p) == Some(1);
  }

  /** With the default table an expert may not open the admin dashboard. */
  lemma ExpertKeptFromAdminDashboard()
    ensures !HasRequiredRole(DefaultRoleRoutes, "/admin-dashboard.html", Some("expert"))
  {
    var p := "/admin-dashboard.html";
    assert p[|p| - |p|..] == p;
    assert FindRoleRoute(DefaultRoleRoutes, p) == Some(0);
  }

  // ---------------------------------------------------------------------------
  // Redirect targets

  const LoginRedirectPrefix := "/login.html?redirect="

  /** `redirectToLogin(returnPath)`: the login page with the path as its
      `redirect` parameter. The parameter holds no character that could end it
      or start another, and percent-decoding it gives back the UTF-8 bytes of
      the path. */
  function LoginRedirect(path: string): (url: string)
    ensures |url| >= |LoginRedirectPrefix| && url[..|LoginRedirectPrefix|] == LoginRedirectPrefix
    ensures Uri.IsComponent(url[|LoginRedirectPrefix|..])
    ensures '&' !in url[|LoginRedirectPrefix|..] && '#' !in url[|LoginRedirectPrefix|..]
    ensures Uri.PercentDecode(url[|LoginRedirectPrefix|..]) == Uri.Utf8String(path)
  {
    var param := Uri.EncodeURIComponent(path);
    Uri.EncodeURIComponentBytes(path);
    var url := LoginRedirectPrefix + param;
    assert url[|LoginRedirectPrefix|..] == param;
    url
  }

  /** Where `redirectUnauthorized()` sends the visitor: at most one page, which
      is the login page exactly when there is no user record and otherwise a
      dashboard; `getUser` throws on an unreadable record and nothing is
      assigned. */
  function UnauthorizedUrls(user: UserLookup): (urls: seq<string>)
    ensures |urls| <= 1
    ensures urls == [] <==> user.Unreadable?
    ensures urls == ["/login.html"] <==> user.NoUser?
    ensures forall url <- urls :: url == "/login.html" || url in DashboardRoutes.Values
    ensures user.Found? ==> urls == [DashboardFor(user.user.role)]
  {
    match user
    case NoUser => ["/login.html"]
    case Found(u) => [DashboardFor(u.role)]
    case Unreadable => []
  }

  // ---------------------------------------------------------------------------
  // checkPageAccess

  /** How `checkPageAccess()` ends: its promise resolves to true or false, or
      is rejected because `getUser` threw. */
  datatype Access = Allowed | Denied | Threw

  /** An ending and the URLs assigned to `location.href` on the way, in order. */
  datatype Decision = Decision(access: Access, urls: seq<string>)

  /** The decision of `checkPageAccess()` for a path, a store and the reply to
      the session check, with the URLs assigned to `location.href` in order. */
  function Decide(publicRoutes: seq<string>, roleRoutes: seq<(string, seq<string>)>,
                  items: map<string, string>, path: string, reply: Reply): (r: Decision)
    ensures IsPublicRoute(publicRoutes, path) ==> r == Decision(Allowed, [])
    ensures r.access == Allowed ==> r.urls == []
    ensures r.access == Threw ==>
              r.urls == [] && GetUser(items).Unreadable? && RequiresRole(roleRoutes, path)
  {
    if IsPublicRoute(publicRoutes, path) then Decision(Allowed, [])
    else if !IsAuthenticated(items) then Decision(Denied, [LoginRedirect(path)])
    else if !Succeeded(reply) then
      Decision(Denied, (if LatticeSecurity.Rejected(reply) then [LatticeSecurity.SessionExpiredUrl] else []) + [LoginRedirect(path)])
    else if !RequiresRole(roleRoutes, path) then Decision(Allowed, [])
    else
      match GetUser(items)
      case Unreadable => Decision(Threw, [])
      case NoUser => Decision(Denied, UnauthorizedUrls(NoUser))
      case Found(u) =>
        if HasRequiredRole(roleRoutes, path, u.role) then Decision(Allowed, [])
        else Decision(Denied, UnauthorizedUrls(Found(u)))
  }

  /** Access is granted exactly to public paths, and otherwise to a visitor
      with a token the server confirms who, on a protected path, has a user
      record holding a role the first matching route lists, or whose first
      matching route is the empty key. */
  lemma AllowedIff(publicRoutes: seq<string>, roleRoutes: seq<(string, seq<string>)>,
                   items: map<string, string>, path: string, reply: Reply)
    ensures Decide(publicRoutes, roleRoutes, items, path, reply).access == Allowed <==>
              (exists i :: 0 <= i < |publicRoutes| && EndsWith(path, publicRoutes[i]))
              || (Truthy(Get(items, TokenKey)) && reply.Response? && reply.ok && reply.body.success
                  && ((forall i :: 0 <= i < |roleRoutes| ==> !EndsWith(path, roleRoutes[i].0))
                      || (GetUser(items).Found?
                          && (roleRoutes[FindRoleRoute(roleRoutes, path).value].0 == ""
                              || (GetUser(items).user.role.Some?
                                  && GetUser(items).user.role.value in roleRoutes[FindRoleRoute(roleRoutes, path).value].1)))))
  {
  }

  /** A granted visit assigns no URL; a refused one ends on the login form
      (with the path to return to, or plain) or on the user's dashboard. */
  lemma Redirects(publicRoutes: seq<string>, roleRoutes: seq<(string, seq<string>)>,
                  items: map<string, string>, path: string, reply: Reply)
    ensures var d := Decide(publicRoutes, roleRoutes, items, path, reply);
            (d.access != Denied ==> d.urls == [])
            && (d.access == Denied ==>
                  |d.urls| >= 1
                  && (d.urls[|d.urls| - 1] == LoginRedirect(path) || d.urls[|d.urls| - 1] == "/login.html"
                      || d.urls[|d.urls| - 1] in DashboardRoutes.Values || d.urls[|d.urls| - 1] == "/dashboard.html"))
  {
    var d := Decide(publicRoutes, roleRoutes, items, path, reply);
    if d.access == Denied && GetUser(items).Found? {
      var role := GetUser(items).user.role;
      if RoleKey(role) in DashboardRoutes {
        assert DashboardFor(role) == DashboardRoutes[RoleKey(role)];
      }
    }
  }

  /** Each refusal after the token check ends where its branch sends it: a
      session the server does not confirm goes to the login form with the
      path (after the expiry page when the server rejected it), and a user
      record without the role goes where `redirectUnauthorized` sends it. */
  lemma DenialTargets(publicRoutes: seq<string>, roleRoutes: seq<(string, seq<string>)>,
                      items: map<string, string>, path: string, reply: Reply)
    ensures !IsPublicRoute(publicRoutes, path) && IsAuthenticated(items) && !Succeeded(reply) ==>
              Decide(publicRoutes, roleRoutes, items, path, reply)
              == Decision(Denied, (if LatticeSecurity.Rejected(reply) then [LatticeSecurity.SessionExpiredUrl] else [])
                                  + [LoginRedirect(path)])
    ensures !IsPublicRoute(publicRoutes, path) && IsAuthenticated(items) && Succeeded(reply)
            && RequiresRole(roleRoutes, path) && !GetUser(items).Unreadable?
            && !(GetUser(items).Found? && HasRequiredRole(roleRoutes, path, GetUser(items).user.role)) ==>
              Decide(publicRoutes, roleRoutes, items, path, reply) == Decision(Denied, UnauthorizedUrls(GetUser(items)))
  {
  }

  /** A table whose only key is "" lets every role open every page. */
  lemma EmptyKeyLetsEveryRoleIn(path: string, role: Option<string>)
    ensures HasRequiredRole([("", ["admin"])], path, role)
  {
    assert path[|path|..] == "";
    assert EndsWith(path, "");
  }

  /** A visitor without a token never reaches a non-public page: they are
      sent to the login form, which brings them back to the same path. */
  lemma NoTokenGoesToLogin(publicRoutes: seq<string>, roleRoutes: seq<(string, seq<string>)>,
                           items: map<string, string>, path: string, reply: Reply)
    requires !IsPublicRoute(publicRoutes, path)
    requires !Truthy(Get(items, TokenKey))
    ensures Decide(publicRoutes, roleRoutes, items, path, reply) == Decision(Denied, [LoginRedirect(path)])
  {
  }

  /** The page guard: the two route tables and the operations that change them. */
  class PageSecurity {
    var publicRoutes: seq<string>
    var roleRoutes: seq<(string, seq<string>)>

    /** `roleRoutes` has the distinct keys of an object. */
    predicate Valid()
      reads this
    {
      DistinctKeys(roleRoutes)
    }

    /** `new PageSecurity()`: the default tables. Registering the load handler
        is not modelled; `CheckPageAccess` is that handler. */
    constructor ()
      ensures publicRoutes == DefaultPublicRoutes && roleRoutes == DefaultRoleRoutes
      ensures Valid()
    {
      publicRoutes := DefaultPublicRoutes;
      roleRoutes := DefaultRoleRoutes;
    }

    /** `addPublicRoute(route)`: appended unless already present. */
    method AddPublicRoute(route: string)
      requires Valid()
      modifies this
      ensures Valid()
      ensures publicRoutes == if route in old(publicRoutes) then old(publicRoutes) else old(publicRoutes) + [route]
      ensures roleRoutes == old(roleRoutes)
      ensures IsPublicRoute(publicRoutes, route)
      ensures forall p :: IsPublicRoute(old(publicRoutes), p) ==> IsPublicRoute(publicRoutes, p)
    {
      if route !in publicRoutes {
        publicRoutes := publicRoutes + [route];
      }
      var i :| 0 <= i < |publicRoutes| && publicRoutes[i] == route;
      assert route[|route| - |route|..] == route;
      assert EndsWith(route, publicRoutes[i]);
      forall p | IsPublicRoute(old(publicRoutes), p) ensures IsPublicRoute(publicRoutes, p) {
        var j :| 0 <= j < |old(publicRoutes)| && EndsWith(p, old(publicRoutes)[j]);
        assert publicRoutes[j] == old(publicRoutes)[j];
      }
    }

    /** `addRoleRoute(route, roles)`: a single role becomes a one-element list;
        the route's roles are replaced or the route is added last. */
    method AddRoleRoute(route: string, roles: RoleSpec)
      requires Valid()
      modifies this
      ensures roleRoutes == SetRoute(old(roleRoutes), route, RoleArray(roles))
      ensures RolesOf(roleRoutes, route) == Some(RoleArray(roles))
      ensures forall k :: k != route ==> RolesOf(roleRoutes, k) == RolesOf(old(roleRoutes), k)
      ensures publicRoutes == old(publicRoutes)
      ensures Valid()
    {
      SetRouteDistinct(roleRoutes, route, RoleArray(roles));
      SetRouteRoles(roleRoutes, route, RoleArray(roles));
      roleRoutes := SetRoute(roleRoutes, route, RoleArray(roles));
    }

    /** `redirectToLogin(returnPath)` */
    method RedirectToLogin(loc: Location, returnPath: string)
      modifies loc
      ensures loc.navigations == old(loc.navigations) + [LoginRedirect(returnPath)]
      ensures loc.reloads == old(loc.reloads)
    {
      loc.Assign(LoginRedirect(returnPath));
    }

    /** `redirectUnauthorized()`: reads the user record again. */
    method RedirectUnauthorized(store: LocalStorage, loc: Location) returns (threw: bool)
      modifies loc
      ensures threw <==> GetUser(store.items).Unreadable?
      ensures loc.navigations == old(loc.navigations) + UnauthorizedUrls(GetUser(store.items))
      ensures loc.reloads == old(loc.reloads)
    {
      match GetUser(store.items)
      case Unreadable =>
        threw := true;
      case NoUser =>
        loc.Assign("/login.html");
        threw := false;
      case Found(u) =>
        RedirectToDashboard(loc, u.role);
        threw := false;
    }

    /** `checkPageAccess()` on the page at `path`, with `reply` the server's
        answer to the session check. Only a rejected session changes the store. */
    method CheckPageAccess(store: LocalStorage, loc: Location, path: string, reply: Reply) returns (access: Access)
      modifies store, loc
      ensures access == Decide(publicRoutes, roleRoutes, old(store.items), path, reply).access
      ensures loc.navigations == old(loc.navigations) + Decide(publicRoutes, roleRoutes, old(store.items), path, reply).urls
      ensures store.items ==
                if !IsPublicRoute(publicRoutes, path) && IsAuthenticated(old(store.items)) && LatticeSecurity.Rejected(reply)
                then Without(old(store.items), SessionKeys) else old(store.items)
      ensures loc.reloads == old(loc.reloads)
    {
      if IsPublicRoute(publicRoutes, path) {
        return Allowed;
      }
      if !IsAuthenticated(store.items) {
        RedirectToLogin(loc, path);
        return Denied;
      }
      var valid := LatticeSecurity.VerifySession(store, loc, reply);
      if !valid {
        RedirectToLogin(loc, path);
        return Denied;
      }
      if RequiresRole(roleRoutes, path) {
        var user := GetUser(store.items);
        if user.Unreadable? {
          return Threw;
        }
        if user.NoUser? || !HasRequiredRole(roleRoutes, path, user.user.role) {
          var threw := RedirectUnauthorized(store, loc);
          return Denied;
        }
      }
      return Allowed;
    }
  }

  /** The `roles` argument of `addRoleRoute`: an array, or a single role. */
  datatype RoleSpec = One(role: string) | Many(roles: seq<string>)

  /** `Array.isArray(roles) ? roles : [roles]` */
  function RoleArray(roles: RoleSpec): (r: seq<string>)
    ensures roles.One? ==> r == [roles.role]
    ensures roles.Many? ==> r == roles.roles
  {
    match roles
    case One(role) => [role]
    case Many(rs) => rs
  }
}
