# Authentication request decisions of `server.js`, in Dafny

This project models the decision logic of the Express server in
`server.js`: the three route handlers that do more than pass a request
through (`POST /api/register`, `POST /api/login`,
`POST /api/user/changepassword`) and the login-attempt throttle inside the
login handler, which reads a client-held `login` cookie, refuses logins once
it reaches 5 and increments it after every failed login.

Each handler is a pure function from the request (its JSON body fields, the
raw `Cookie` header, or the token claims the auth middleware attached) and
the answers of its collaborators to an `Outcome`: the response the client
receives (status, body, cookies set) and the list of collaborator calls made,
in order. The collaborators are oracles: the user store `con` (`getUser`,
`createUser`, `changePassword`), bcrypt's `hash` and `compare`, the salt that
`crypto.randomBytes(32)` yields, and `jwt.sign` with the signing key already
applied. Drawing the salt appears in the list as `DrawSalt`. A token is described by the `Sign(claims, lifetime)` call that made
it.

Modules:

- `Wrappers` — `Option`, used for JavaScript's `undefined`.
- `Strings` — JavaScript's `includes`, `indexOf` and `split` on strings,
  following String.prototype.split in ECMA-262, with `Join`, which undoes
  `Split`. It also has decimal digit strings as `Number(..)` reads them and
  `String(..)` writes them.
- `LoginCounter` — the scan of the `Cookie` header: cut at `"; "`, take the
  last segment that contains `login=` anywhere, and keep the text between its
  first and second `=`. It also has the coercion of that text to a number
  (`Attempts(n)` or `NaN`), the gate `>= 5`, the increment, and the text
  written back.
- `Api` — request fields, user records, claims, oracles, collaborator calls,
  responses.
- `Routes` — `HandleRegister`, `HandleLogin`, `HandleChangePassword`, and
  the corrected `RegisterEarlyExit`.
- `Sessions` — properties across requests. A browser keeps the `login`
  cookie and sends it back. A store backed by a map answers `getUser` and
  applies the calls each request makes.

Behaviour of the code worth knowing:

- A non-numeric `login` cookie value is NaN, not 0: the text is compared and
  incremented as a JavaScript number. The gate never fires on NaN, and each
  failure writes `NaN` back, which turns the throttle off for good
  (`Sessions.NonNumericCookieDisablesThrottle`).
- The missing-field check of registration does not end the request (see
  Findings).
- On change-password, the current-password check applies only when the store
  finds the caller. A caller it does not find goes straight on to
  `changePassword`.
- A successful login never writes the `login` cookie, so the counter is never
  reset.
- The login token's `user_email` claim is the email from the request body,
  not the one in the stored record.

## Model

| member | source | states |
|---|---|---|
| Strings.ContainsIffOccurs | server.js:98 | `Contains`, the model of `includes('login=')`, is a substring test: true exactly when the text occurs at some index, not only at the front |
| Strings.IndexFrom | server.js:95 | the search `split` relies on returns the first occurrence at or after the start index, or -1 when there is none |
| Strings.Split | server.js:95 | `split('; ')` yields at least one segment, and a header without the separator is exactly one segment, the whole header |
| Strings.SplitJoin | server.js:95 | joining the pieces of `split('; ')` with the separator gives back the header |
| Strings.SplitPieces | server.js:95 | no piece of a `split` contains the separator |
| Strings.SplitWithSeparator | server.js:99 | a text containing the separator splits into at least two pieces, the first ending at the first occurrence, so `temp[1]` exists |
| Strings.ShowNatRoundTrip | server.js:136-138 | the number written into the cookie reads back as the same number |
| LoginCounter.LoginValue | server.js:98-100 | the value taken from a matching segment is the text between its first and second `=` and holds no `=` |
| LoginCounter.LastLoginValue | server.js:97-102 | whatever segment the loop last takes a value from, that value holds no `=` |
| LoginCounter.LastLoginValueSpec | server.js:97-102 | when segment `i` contains `login=` and no later one does, the scan yields the value of segment `i` |
| LoginCounter.LastLoginValueUnset | server.js:93-102 | the scan leaves the initial 0 exactly when no segment contains `login=` |
| LoginCounter.ScanHeader | server.js:91-103 | an absent or empty header leaves `loginCount` at its initial 0; a non-empty one leaves it there exactly when no segment contains `login=`; a value taken holds no `=` |
| LoginCounter.AttemptsInLastSegment | server.js:91-105 | `AttemptsIn`, the counter the gate sees, is the value of the last segment containing `login=`, read as a number: its digits' value, or NaN when it is not a digit string |
| LoginCounter.ReadLoginCount | server.js:91-103 | the handler's forward loop, overwriting at every match, computes the last-match value; no header gives the initial 0 |
| LoginCounter.NoCookieIsZero | server.js:91-94 | an absent or empty `Cookie` header gives the counter 0 |
| LoginCounter.NoLoginSegmentIsZero | server.js:93-102 | a header without a segment containing `login=` gives the counter 0 |
| LoginCounter.LeadingZeroIgnored | server.js:100-105 | `ToCount`, the model of `Number(..)` on the cookie text: leading zeros do not change the count (`"05"` is 5) and the empty text is 0 |
| LoginCounter.GateAndBump | server.js:105-136 | `Throttled` and `Bump`, the models of `>= 5` and `++`: NaN never trips the gate and stays NaN, a number goes up by one, a tripped count stays tripped, and the gate first fires after the failure that takes the count from four to five |
| LoginCounter.Render | server.js:136-138 | the value `res.cookie` writes back holds no `;` or `=`, so the next scan takes it whole, and `Number(..)` turns it into the same count |
| LoginCounter.RenderRoundTrip | server.js:136-141 | the counter written after a failure, `Attempts(n)` or `NaN`, is read again as the same counter when the browser returns it as `login=<value>` |
| Routes.HandleRegister | server.js:33-78 | always looks the email up. Missing fields give 400, a known email 409 with no other call. `createUser`, and the salt draw before it, happen exactly when the email is unknown. 201 exactly when all fields are present and the email is unknown, with a `2h` token claiming the new id and the request email |
| Routes.RegisterEarlyExit | server.js:39-41 | with an early exit, a missing field yields 400 and touches neither the store nor anything else; complete requests behave as the handler does |
| Routes.MissingFieldStillCreatesUser | server.js:39-54 | as written, a request missing a field, whose email is unknown, is answered 400 but still inserts a row |
| Routes.MissingPasswordExample | server.js:39-54 | the concrete input: only an email; the inserted row carries the hash of `"undefined"` + salt |
| Routes.HandleLogin | server.js:80-146 | missing input gives 400 with no call. Counter at least 5 gives 400 "Too many login attempts…" with no call. 200 exactly when the store knows the email and bcrypt accepts, with a `15m` token for `{user.id, request email}` set as the `token` cookie and no `login` cookie. Otherwise 400 "Invalid Credentials" and `login` set to the counter plus one. Login never writes the store |
| Routes.ThrottleIgnoresCredentials | server.js:105-108 | once the gate fires, the outcome does not depend on the credentials or on any store or bcrypt answer |
| Routes.HandleChangePassword | server.js:157-186 | missing fields give 400, then a new/confirm mismatch gives 400 "Passwords do not match", both with no call. A found user with a rejected current password gets 400 "Incorrect Password" and no `changePassword`. 200 exactly when a fresh salt is drawn and `changePassword` is called, with the new hash, that salt and the caller id |
| Routes.UnknownCallerStillChangesPassword | server.js:171-181 | a caller the store does not find skips the current-password check and reaches `changePassword` |
| Sessions.JarRoundTrip | server.js:91-105 | the counter a browser's `login` cookie stands for is the counter last written, and 0 without a cookie |
| Sessions.StepNeverLowers | server.js:105-141 | one attempt never lowers the counter: a failure below the limit adds one, and success, the gate or missing input leave the cookie as it was |
| Sessions.FailuresCount | server.js:136-141 | from no cookie, k failed attempts (k at most 5) leave the counter at k |
| Sessions.SixthAttemptThrottled | server.js:105-108 | after five failures from no cookie, a sixth attempt gets the throttle error whatever its credentials, and the counter stays at 5 |
| Sessions.NonNumericCookieDisablesThrottle | server.js:100-105 | a NaN counter stays NaN through any attempts and the gate never fires |
| Sessions.HandSetCookieIsNaN | server.js:98-105 | a hand-set `login=abc` reads as NaN |
| Sessions.RegisteredRow | server.js:50-54 | a registration with an unknown email stores the names, the email, and the hash of password + salt with that salt |
| Sessions.RegisterThenLogin | server.js:110-112 | a user who has just registered can log in with the same email and password (given that bcrypt accepts a text against its own hash) |
| Sessions.RegisterTwiceConflicts | server.js:44-48 | a second registration with a just-registered email gets 409 and inserts nothing |
| Sessions.ChangedRow | server.js:178-181 | a successful change stores the hash of new password + fresh salt, with that salt, for the caller |
| Sessions.ChangeThenLogin | server.js:171-181 | after a successful change the caller can log in with the new password |

## Left out

- `POST /api/users/names`, `POST /api/user/logout` and `GET /` only pass the request through, clear a cookie or render a page.
- The auth middleware lives in `./middleware/auth`, which is not part of this model. Protected routes take the claims it attaches (`req.user`) as a parameter.
- bcrypt, `crypto.randomBytes` and `jwt.sign` are foreign library calls. They are oracles. Bcrypt's correctness is a premise (`HonestCrypto`) only where a lemma needs it.
- The store `con` is not defined in `server.js` (its `require` is commented out), so it is an oracle. `Sessions.DbStore` is one possible store, used only for the multi-request lemmas.
- A collaborator that throws is not modelled: the handlers' `catch` logs the error and sends nothing. Oracles here always answer. The one throw that is modelled is the second send after the register 400, which is why the first response wins.
- Body fields are absent or strings. JSON `null`, numbers, booleans and objects in a body field are not modelled.
- `Store.getUser` answers `undefined`/`null` (modelled as `None`) or a user record. Register tests the answer with `!= undefined` (server.js:46) while login and change-password test its truthiness (server.js:112, 173); the two tests agree only for such answers. A falsy answer that is not nullish (`0`, `""`, `false`) would give 409 at register but "not found" at login, and is not modelled.
- `Sessions.Replay` and `Sessions.Commit` take requests one after another. Concurrent requests are not modelled: parallel login attempts carrying the same `login` cookie all read the same count, and two concurrent registrations of one email can both get `undefined` from `getUser` (server.js:44) and both insert.
- Cookie attributes (`secure`, `httpOnly`), `NODE_ENV`, static serving, `listen` and Express setup.
- LoginCounter.ToCount: only the empty string and plain decimal digit strings become numbers. Every other text becomes NaN, including texts JavaScript's `Number(..)` would accept: surrounding whitespace, a sign, a fraction, an exponent, a `0x`/`0o`/`0b` prefix, or `Infinity`.
- LoginCounter.Bump: the counter is an unbounded integer. Precision loss of JavaScript numbers above 2^53 is not modelled.
- Sessions.CookieHeader: the browser is modelled as sending only the `login` cookie. Headers with other cookies are covered by `LoginCounter.LastLoginValueSpec` and `LoginCounter.LastLoginValueUnset`.

## Findings

| source | as written | input that shows it | evidently intended | confidence | as-written member | corrected member |
|---|---|---|---|---|---|---|
| server.js:39-41 | the 400 for a missing field has no `return`, so the handler goes on to `getUser`, `bcrypt.hash`, `createUser` and `jwt.sign`; the second send throws and is only logged | a body with only `user_email`, set to an address the store does not know | a missing field ends the request with the 400 and no store call | not executed | Routes.MissingFieldStillCreatesUser | Routes.RegisterEarlyExit |
