# ApproVideo Hub client: access gate, token store, form rules and pagination

This project models the decision and state logic of the ApproVideo Hub browser
client in Dafny, and proves properties of that model. Five JavaScript modules
are covered:

- **page-security.js**: the page guard. Public pages are matched by suffix.
  Role-protected pages use a first-match lookup over an ordered table.
  `checkPageAccess` allows, sends the visitor to the login form with a return
  path, or sends a user without the role to their own dashboard.
- **auth-service.js**: the token store. The three `localStorage` keys are
  written by `saveSession`, read by `getToken`/`getUser`/`isAuthenticated`,
  and cleared by `logout`. Also covered: the success logic of
  `login`/`register`, `validateSession`, and the role-to-dashboard map.
- **lattice-security.js**: session keeping. This covers:
  - the refresh-due test, `verifySession`, `refreshToken` and
    `handleInvalidSession`;
  - the cross-tab logout trigger;
  - the XOR placeholder cipher behind `secureStore`/`secureRetrieve`.

  The source labels the cipher as insecure; only its round trip is claimed.
- **form-validator.js**: rule evaluation. `validateField` returns the first
  failing rule. `validateForm` folds it over a form's controls. The password
  strength meter computes a score, a level and feedback.
- **dashboard.js**: the `currentPages` pagination state. Pagination clicks and
  the loaders' callback change it; the button flags and page label are
  derived from it.

Some helper modules model the built-ins the client relies on:

- `JsStrings`: truthiness, `endsWith`, `trim` with ECMAScript white space,
  `split`/`join`, `length` in UTF-16 code units, and `String(n)`.
- `Base64`: `btoa`/`atob`.
- `Uri`: `encodeURIComponent` as UTF-8 percent-encoding.
- `Browser`: `localStorage` as a class over a `map<string, string>`, and
  `window.location` as a record of `href` assignments and reloads.

Server replies are inputs of type `AuthService.Reply`. A reply is either a
response with `ok` and a parsed body, or `NetworkError`. The current time is
the parameter `nowMs`.

`PageSecurity.Decide` gives `checkPageAccess` as a function. It returns how
the call ends (allowed, denied, or the exception `getUser` raises on an
unreadable record) and the URLs assigned to `location.href` in order.
`PageSecurity.PageSecurity.CheckPageAccess` is the imperative version over the
store and the location, proved equal to it.

## Model

| member | source | states |
|---|---|---|
| PageSecurity.IsPublicRoute | public/js/page-security.js:90-105 | a path is public exactly when some public route is a suffix of it; the exact-match branch adds nothing |
| PageSecurity.PublicUnderPrefix | public/js/page-security.js:97-100 | a public path stays public under any prefix, such as a locale directory |
| PageSecurity.LocaleLoginIsPublic | public/js/page-security.js:10-18 | with the default routes "/en/login.html" is public |
| PageSecurity.RequiresRole | public/js/page-security.js:112-114 | a path needs a role exactly when some role-route key is a suffix of it |
| PageSecurity.FindRoleRoute | public/js/page-security.js:124 | the route found is the first key in key order that the path ends with, and none is found exactly when no role is required |
| PageSecurity.HasRequiredRole | public/js/page-security.js:122-132 | true when no key matches; otherwise true exactly when the first matching key is the falsy empty key "" or the role is present and listed by that key; an absent role never passes a non-empty first match |
| PageSecurity.EmptyKeyLetsEveryRoleIn | public/js/page-security.js:124-128 | a table whose only key is "" lets every role, and a missing one, open every path, since `find` returns the falsy "" |
| PageSecurity.RolesOf | public/js/page-security.js:130 | the roles under a key are absent exactly when the key is not in the table |
| PageSecurity.RolesFirst | public/js/page-security.js:130 | the roles read under a key are those of the first entry with that key |
| PageSecurity.SetRoute | public/js/page-security.js:176 | the table grows by one entry exactly when the route is a new key |
| PageSecurity.SetRouteRoles | public/js/page-security.js:176 | after the assignment the route reads the new roles and every other key reads what it read before |
| PageSecurity.SetRouteKeys | public/js/page-security.js:176 | an existing key keeps its place and a new key goes last |
| PageSecurity.SetRouteDistinct | public/js/page-security.js:176 | the keys stay distinct, as an object's keys are |
| PageSecurity.AddedRouteGuards | public/js/page-security.js:122-132 | a newly protected route decides access to a path ending in it, when no other key matches: allowed exactly for the given roles, or for every role when the route is the empty key "" |
| PageSecurity.RoleInEveryRoute | public/js/page-security.js:122-132 | a role that every protected route lists may open every path |
| PageSecurity.AdminOpensEveryPage | public/js/page-security.js:21-26 | with the default table, "admin" may open every path |
| PageSecurity.ExpertOpensExpertDashboard | public/js/page-security.js:23 | with the default table, "expert" may open the expert dashboard |
| PageSecurity.ExpertKeptFromAdminDashboard | public/js/page-security.js:22 | with the default table, "expert" may not open the admin dashboard |
| PageSecurity.LoginRedirect | public/js/page-security.js:138-141 | the URL is "/login.html?redirect=" followed by a parameter. The parameter has only URI-component characters and no '&' or '#'. Percent-decoding it gives the UTF-8 bytes of the path |
| PageSecurity.UnauthorizedUrls | public/js/page-security.js:146-157 | at most one URL. No URL exactly when the record is unreadable (getUser throws). The login page exactly when there is no record. Otherwise the role's dashboard, always a page of the dashboard map |
| PageSecurity.Decide | public/js/page-security.js:46-83 | a public path is allowed with no URL assigned; an allowed visit assigns nothing; the check throws only on a protected path with an unreadable user record, before any assignment |
| PageSecurity.DenialTargets | public/js/page-security.js:63-82 | a session the server does not confirm is denied with the login redirect for the path, preceded by the session-expired page when the server rejected it; on a protected path, a missing user record or one without the role is denied with exactly the URLs of `redirectUnauthorized` |
| PageSecurity.AllowedIff | public/js/page-security.js:46-83 | access is allowed exactly on a public path, or for a visitor with a token whose session the server confirms, who either needs no role on that path or has a user record and either a role listed by the first matching route or a first match that is the empty key |
| PageSecurity.Redirects | public/js/page-security.js:46-83 | an allowed or throwing check assigns no URL; a denied one ends on the login form, with or without a return path, or on a dashboard |
| PageSecurity.NoTokenGoesToLogin | public/js/page-security.js:55-60 | on a non-public path without a token, access is denied and the only URL is the login redirect for that path; the session is never verified |
| PageSecurity.PageSecurity.constructor | public/js/page-security.js:9-26 | the default public routes and role table, with distinct keys |
| PageSecurity.PageSecurity.AddPublicRoute | public/js/page-security.js:163-167 | the route is appended only if absent, so there are no duplicates. It is public afterwards, and every path that was public stays public |
| PageSecurity.PageSecurity.AddRoleRoute | public/js/page-security.js:174-177 | the route is set or overwritten with the wrapped roles, other keys read as before, and the keys stay distinct |
| PageSecurity.PageSecurity.RedirectToLogin | public/js/page-security.js:138-141 | exactly one assignment, of the login redirect for the path |
| PageSecurity.PageSecurity.RedirectUnauthorized | public/js/page-security.js:146-157 | assigns the URLs of UnauthorizedUrls for the stored user, and throws exactly when the record is unreadable |
| PageSecurity.PageSecurity.CheckPageAccess | public/js/page-security.js:46-83 | the result and the assigned URLs are those of Decide. The store changes only when a non-public path has a token and the server rejects the session; then the three session keys are removed |
| AuthService.GetUser | public/js/auth-service.js:110-113 | null exactly when no non-empty text is stored under the user key; otherwise a user is found exactly when the stored text parses, and it is what the text parses to |
| AuthService.GetToken | public/js/auth-service.js:102-104 | the token is present exactly when the key is stored, and is the stored text |
| AuthService.IsAuthenticated | public/js/auth-service.js:94-96 | authenticated exactly when a non-empty token is stored |
| AuthService.UserJsonRoundTrip | public/js/auth-service.js:112 | parsing what `JSON.stringify` wrote for a user gives the user back |
| AuthService.EscapeJsonRoundTrip | public/js/auth-service.js:130 | reading back the string-literal body `JSON.stringify` writes for a string gives the string |
| AuthService.EscapeJsonCharRoundTrip | public/js/auth-service.js:130 | one escaped character reads back as that character, followed by the rest |
| AuthService.SavedSession | public/js/auth-service.js:120-132 | token, refresh token and user are each written only when present (truthy for the two tokens), else keep their previous values; every other key is unchanged |
| AuthService.SaveSession | public/js/auth-service.js:120-132 | the store becomes SavedSession of the old store |
| AuthService.SessionRoundTrip | public/js/auth-service.js:102-113 | after saving a session with a token and a user, getToken returns that token, the client is authenticated, and getUser returns that user |
| AuthService.Login | public/js/auth-service.js:59-88 | success is `ok && success`, and the session is saved exactly then |
| AuthService.Register | public/js/auth-service.js:20-52 | success is `ok && success`; the session is saved only when the reply also has a token and a user |
| AuthService.Logout | public/js/auth-service.js:138-163 | the request is made only with a token; the three keys are removed in every case and the result is success |
| AuthService.LoggedOut | public/js/auth-service.js:157-160 | after logout nobody is authenticated, getUser is null and no refresh token is left |
| AuthService.ValidateSession | public/js/auth-service.js:169-192 | without a token: no request and `{valid: false}`; otherwise valid exactly when the reply succeeds |
| AuthService.DashboardFor | public/js/auth-service.js:198-211 | admin goes to the admin dashboard, expert to the expert dashboard, every other role (unknown or absent) to "/dashboard.html"; every URL is a page of the map |
| AuthService.RedirectToDashboard | public/js/auth-service.js:198-212 | exactly one assignment, of DashboardFor of the role |
| AuthService.DashboardLookupAsWrittenInherited | public/js/auth-service.js:200-210 | as written, the role "toString" finds an inherited function and "__proto__" finds the prototype, where the intended map sends both to "/dashboard.html" |
| AuthService.DashboardLookupAgrees | public/js/auth-service.js:200-210 | for every role that is not an inherited property name, the lookup as written and DashboardFor agree |
| LatticeSecurity.GetTokenData | public/js/lattice-security.js:110-126 | null without a token and for a token that does not split into three '.'-separated parts. With three parts, the result is the parse of the decoded middle part, or null when it does not decode |
| LatticeSecurity.NeedsRefresh | public/js/lattice-security.js:66-73 | a refresh is due only for a payload with a non-zero `exp` and fewer than 300 whole seconds left |
| LatticeSecurity.NeedsRefreshWindow | public/js/lattice-security.js:63-75 | with a non-zero `exp`, a refresh is due exactly from 299 seconds before `exp` on: the clock is floored to seconds and compared strictly with 300 |
| LatticeSecurity.NeedsRefreshMonotone | public/js/lattice-security.js:66-73 | once a refresh is due it stays due as time passes |
| LatticeSecurity.NoExpNoRefresh | public/js/lattice-security.js:66 | without a payload or with `exp` absent or 0, no refresh is due |
| LatticeSecurity.CheckToken | public/js/lattice-security.js:63-75 | a refresh is attempted exactly when it is due, with the outcomes of refreshToken: the store becomes Refreshed on success. A rejection removes the session keys and goes to the session-expired page. Nothing changes when no refresh is due, without a refresh token or on a network error |
| LatticeSecurity.HandleInvalidSession | public/js/lattice-security.js:162-170 | the three session keys are removed and the only URL assigned is "/login.html?session=expired" |
| LatticeSecurity.VerifySession | public/js/lattice-security.js:132-157 | valid exactly with a token and a successful reply. A rejecting reply invalidates the session. No token or a network error changes nothing |
| LatticeSecurity.Refreshed | public/js/lattice-security.js:197-201 | the access token is replaced, and the refresh token only when one is sent; every other key, the user included, is unchanged |
| LatticeSecurity.RefreshToken | public/js/lattice-security.js:176-208 | true exactly with a refresh token and a successful reply, and the store is then Refreshed. A rejecting reply invalidates the session. No refresh token or a network error changes nothing |
| LatticeSecurity.RefreshKeepsUser | public/js/lattice-security.js:197-201 | a refresh keeps the cached user, and a refresh that carries a token keeps the client authenticated |
| LatticeSecurity.StorageEventForcesReload | public/js/lattice-security.js:98-103 | reload exactly when the key is the access-token key and the new value is null or empty |
| LatticeSecurity.OnStorageEvent | public/js/lattice-security.js:98-103 | one reload exactly when StorageEventForcesReload, and no assignment |
| LatticeSecurity.LogoutElsewhereReloads | public/js/lattice-security.js:98-103 | the event a logout in another tab raises reloads this tab; writing a new token does not |
| LatticeSecurity.XorInvolutive | public/js/lattice-security.js:224 | `(a ^ b) ^ b == a` |
| LatticeSecurity.XorBound | public/js/lattice-security.js:224 | the XOR of two m-bit values is an m-bit value, so a code unit again |
| LatticeSecurity.XorWithKeyInvolutive | public/js/lattice-security.js:222-225 | XORing twice with the repeated key gives the data back |
| LatticeSecurity.EncryptData | public/js/lattice-security.js:216-228 | the loop's result under `btoa` is Encrypted, and when it does not throw, decrypting with the same key gives the data's code units |
| LatticeSecurity.DecryptData | public/js/lattice-security.js:236-255 | null when `atob` throws, otherwise the XOR loop over the decoded bytes |
| LatticeSecurity.DecryptEncrypted | public/js/lattice-security.js:216-255 | decrypting with the encryption key gives back the data's code units, for every key including the empty one |
| LatticeSecurity.EncryptRefusesWideUnits | public/js/lattice-security.js:224-227 | with a key of code units below 0x100, data holding any code unit of 0x100 or above cannot be encrypted, because `btoa` throws |
| LatticeSecurity.SecureKey | public/js/lattice-security.js:275 | the storage key `secure_${key}` never collides with a session key |
| LatticeSecurity.SecureStore | public/js/lattice-security.js:262-276 | nothing without a token; otherwise the ciphertext under the token goes to `secure_${key}`, unless `btoa` throws |
| LatticeSecurity.Retrieve | public/js/lattice-security.js:283-306 | null without a token; any text found is non-empty |
| LatticeSecurity.SecureRetrieve | public/js/lattice-security.js:283-306 | the result is Retrieve of the store |
| LatticeSecurity.SecureRoundTrip | public/js/lattice-security.js:262-306 | with the same token stored, retrieving what was stored gives the data's code units, or null for empty data |
| FormValidator.NewValidator | public/js/form-validator.js:12-31 | each of the seven messages, the two length-message functions included, is the given one when given and the default otherwise; with no messages given the defaults stand; the custom validators are those given |
| FormValidator.GivenRequiredMessageShown | public/js/form-validator.js:45-50 | a required message given to the constructor is what an empty required field without its own message reports |
| FormValidator.EmailShape | public/js/form-validator.js:59 | an address the email pattern accepts holds exactly one '@' and no white space |
| FormValidator.EmailExamples | public/js/form-validator.js:59 | "ada@example.org" matches the pattern and "ada@example" does not |
| FormValidator.ValidateField | public/js/form-validator.js:41-55 | a required field whose trimmed value is empty fails with its required message; a field that is not required and empty is valid, whatever its other rules |
| FormValidator.Verdict | public/js/form-validator.js:57-122 | with no rule set no check fails. Each check fails exactly when its rule is set and violated: a non-empty value that is not an address; a set minimum above the length; a set maximum below it; a named match field present with a different value; an unchecked required checkbox; a validator or registered named validator returning anything but true. Each failure reports the rule's own message, else the validator's text or the configured default |
| FormValidator.ValidateFieldFirstFailure | public/js/form-validator.js:57-125 | a non-empty trimmed value gets the verdict of the first failing check in the order email, minLength, maxLength, matchField, checkbox, validator, customValidator |
| FormValidator.FirstFailureIsFirst | public/js/form-validator.js:57-125 | the result is valid exactly when every check passes, and otherwise the verdict of a failing check all of whose predecessors pass |
| FormValidator.MatchComparesUntrimmed | public/js/form-validator.js:84-92 | the trimmed value is compared with the other field's untrimmed value, so a value with surrounding white space fails against an identical confirmation |
| FormValidator.TrailingSpaceExample | public/js/form-validator.js:41 | "secret " trims to "secret" |
| FormValidator.ValidateForm | public/js/form-validator.js:201-246 | the form is valid exactly when every named, enabled, non-button control passes against the whole form's values. `errors` and the callback calls are those of the two loops |
| FormValidator.CheckFields | public/js/form-validator.js:214-240 | the validation loop: valid exactly when every validated control passes, with its errors and reports |
| FormValidator.ErrorsNames | public/js/form-validator.js:225-228 | `errors` holds exactly the names of validated controls that fail |
| FormValidator.ValidIffNoErrors | public/js/form-validator.js:214-245 | the form is valid exactly when `errors` is empty |
| FormValidator.CheckStrength | public/js/form-validator.js:284-348 | score is one point per check met, from 0 to 5 out of 5, and the percentage is 20 times the score. Level and colour follow the score: weak/red, fair/orange, good/blue, strong/green. The length check holds exactly when the password is long enough. Each other check holds exactly when its flag is off or the password meets it. So the feedback lists the required checks this password fails, in order |
| FormValidator.Score | public/js/form-validator.js:301-310 | the score counts length, upper, lower, digit and special, whatever the flags |
| FormValidator.Level | public/js/form-validator.js:315-328 | weak and red up to 1, fair and orange at 2, good and blue at 3, strong and green from 4 |
| FormValidator.Feedback | public/js/form-validator.js:330-345 | the lines appended one check at a time are the unmet required checks in order |
| FormValidator.FeedbackCostsPoints | public/js/form-validator.js:301-345 | score plus the number of feedback lines is at most 5 |
| FormValidator.StrongExample | public/js/form-validator.js:268-328 | with the defaults "Ab1!" scores 4, strong, though it is too short for the length point |
| FormValidator.AlphanumericExample | public/js/form-validator.js:268-328 | with the defaults "Abcdefg1" scores 4, strong: length, upper case, lower case and digit, and no other character |
| FormValidator.WeakExample | public/js/form-validator.js:268-275 | with the defaults "abc" scores 1, weak |
| Dashboard.PageFor | public/js/dashboard.js:127 | the tracked page, or 1 for a missing or zero entry; at least 1 when every tracked page is |
| Dashboard.ClickTarget | public/js/dashboard.js:242-259 | a click commits exactly when both attributes are present and non-empty, the section is tracked, and the new page is at least 1. The new page is one more for "next" and one less for any other direction |
| Dashboard.Clicked | public/js/dashboard.js:246-262 | only the clicked section's entry changes, only on a committed click, and the tracked sections stay the same |
| Dashboard.ClickKeepsPagesPositive | public/js/dashboard.js:251-254 | clicks keep every tracked page at least 1 |
| Dashboard.PrevOnFirstPageRefused | public/js/dashboard.js:248-251 | "previous" on page 1 changes nothing |
| Dashboard.NextThenPrev | public/js/dashboard.js:242-259 | "next" then "previous" on a section returns every page to where it was |
| Dashboard.ControlsFor | public/js/dashboard.js:181-194 | previous is disabled exactly at or before page 1, next exactly at or after the last page, and the label reads "No pages" exactly when there are none |
| Dashboard.LabelIsNotNoPages | public/js/dashboard.js:193 | the label is "No pages" exactly when the page count is not positive |
| Dashboard.PageLabelInjective | public/js/dashboard.js:193 | two labels "Page c of t" agree only when both numbers do |
| Dashboard.EnabledClickStaysInRange | public/js/dashboard.js:181-191 | from page c of t, an enabled button commits its click, and the new page stays between 1 and t |
| Dashboard.Dashboard.constructor | public/js/dashboard.js:29-33 | learning, workshops and projects each start at page 1 |
| Dashboard.Dashboard.LoadDataForSection | public/js/dashboard.js:123-160 | a paginated section is loaded at PageFor its entry; the pages are unchanged |
| Dashboard.Dashboard.HandlePaginationClick | public/js/dashboard.js:242-263 | the pages become Clicked; a committed click on a paginated section loads it at the new page |
| Dashboard.Dashboard.OnPaginationClick | public/js/dashboard.js:208-214 | a click outside any pagination button, or on a disabled one, changes nothing. An enabled button updates the pages as HandlePaginationClick does and reloads the section when the click commits |
| Dashboard.Dashboard.UpdatePaginationUI | public/js/dashboard.js:166-195 | records the page under the section, adding the key if new, and shows ControlsFor when the controls exist |
| JsStrings.Trim | public/js/form-validator.js:41 | the input is the result with white space on both sides, the result neither starts nor ends with white space, and it is empty exactly when the input is all white space |
| JsStrings.SplitJoin | public/js/lattice-security.js:116 | splitting gives one more part than separators, no part holds the separator, and joining gives the string back |
| JsStrings.IntToStringInjective | public/js/dashboard.js:193 | `String(n)` is injective on integers |
| Base64.AtobBtoa | public/js/lattice-security.js:227 | `atob` reads back the bytes `btoa` encoded |
| Base64.Btoa | public/js/lattice-security.js:227 | `btoa` succeeds exactly when every code unit is below 0x100 |
| Uri.EncodeURIComponent | public/js/page-security.js:139 | the encoding has only URI-component characters and none of '/', '?', '&', '#', '=' |
| Uri.EncodeURIComponentBytes | public/js/page-security.js:139 | percent-decoding the encoding gives the UTF-8 bytes of the string |
| Browser.LocalStorage.SetItem | public/js/auth-service.js:122 | the key now holds the value and nothing else changes |
| Browser.LocalStorage.RemoveItem | public/js/auth-service.js:158-160 | the key is gone and nothing else changes |

## Left out

- HTTP traffic is not modelled. Each `fetch` followed by `response.json()` is an input `Reply`, either a response with `ok` and a parsed body, or `NetworkError`. A body that is not JSON counts as a network error, as the source's catch treats it.
- Timers and listeners are not modelled as schedules: `setInterval`, the immediate `checkToken` call, `visibilitychange` and `DOMContentLoaded`. `CheckToken`, `OnStorageEvent` and `CheckPageAccess` are the handlers. `Date.now()` is the parameter `nowMs`.
- `checkSecureConnection` is not modelled. It reads the protocol and writes the DOM.
- DOM effects are not modelled: `showError`, `clearError`, `findErrorElement`, the strength meter's `updateUI`, and the button, `aria-disabled` and text writes of `updatePaginationUI`.
- Dashboard.Dashboard.UpdatePaginationUI: one flag `hasControls` stands for the presence of the `.pagination-controls` element. The prev button, next button and `.page-info` element are taken to be present together.
- Dashboard.Dashboard.UpdatePaginationUI: it records any page it is given, 0 and negatives included. So "every tracked page is at least 1" is proved for clicks only (`ClickKeepsPagesPositive`) and is not kept as a class invariant.
- The loaders of dashboard-loaders.js are not modelled beyond the `(section, page)` pairs in `loads`. This includes the dashboard and timeline loaders, which take no page.
- Not modelled: `initializeDashboard`, `handleLogout` and `handleWorkshopRegistration`.
- PageSecurity.HasRequiredRole: `addRoleRoute(route)` called without roles stores `[undefined]`, a list that lets a user with no role pass; `RoleSpec` holds only strings, so the model cannot express that list.
- AuthService.GetUser: a user is only its role. `JSON.parse` is modelled only for the records `JSON.stringify` writes for such a user, `{}` and `{"role": ...}`, which are all that `SaveSession` stores here. A record with other members, such as `{"id":7,"role":"admin"}`, is one the source reads. The model treats it as unreadable, so `Decide` ends in `Threw` where the source goes on to check `user.role`. A `\u` escape of a surrogate half is not read.
- The payload parse in `getTokenData` is the parameter `parse`.
- LatticeSecurity.Retrieve / LatticeSecurity.SecureRetrieve: the final `JSON.parse` attempt of `secureRetrieve` is not modelled. Its result is the decrypted text, as code units, before that attempt.
- `secureStore` is modelled for string data only. An object passes through `JSON.stringify` first.
- `roleRoutes` is an ordered list of distinct keys in insertion order. Two things are not modelled: `Object.keys` listing integer-like keys first, and keys that collide with `Object.prototype` members.
- `currentPages.hasOwnProperty(section)` is map membership. A section named after an inherited member is not modelled.
- Rule limits (`minLength`, `maxLength`) and `exp` are integers. Other values are not modelled: non-integer numbers, NaN, and numeric strings.
- The percentage `Math.round(score / 5 * 100)` is exactly `20 * score` for the scores that occur, so it is an integer product.
- The user-supplied `validator` and named custom validators are functions given to the model. A result that is not `true` is `Fail(message)`, where the falsy results are `Fail("")`.
- The `data-name` label computed by `validateField` is not modelled; nothing reads it.
- Console logging is not modelled.

## Findings

| source | as written | input that shows it | evidently intended | confidence | as-written member | corrected member |
|---|---|---|---|---|---|---|
| public/js/auth-service.js:200-210 | `redirectMap[role] \|\| '/dashboard.html'` looks the role up on a plain object, so inherited properties answer too | role "toString" (or "constructor", "__proto__", ...): the lookup returns a function or `Object.prototype`, which is truthy and is assigned to `location.href` | every role not in the map goes to "/dashboard.html" | not executed | AuthService.DashboardLookupAsWritten (lemma AuthService.DashboardLookupAsWrittenInherited) | AuthService.DashboardFor (agreement elsewhere: AuthService.DashboardLookupAgrees) |
