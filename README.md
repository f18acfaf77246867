# Session authentication and the rate-limit counter store of classroom_seating, in Dafny

This project models the authentication core of the classroom_seating Go
service. It covers two generations of that core and the counter store that
the rate limiter writes to.

- **The API variant** (`api/`). `Login` checks a user's password and then
  inserts a row into the `sessions` table. The row holds the client's own
  `X-Client-Token` and a server token that the database generates. The
  client gets back a signed web token. Its audience is the *binding tag*:
  the base64 of HMAC-SHA-256 over the server token, keyed by the client
  token. On every request the gate `MakeAuthenticate` does four things:
  1. It looks up the session by client token and expiry.
  2. It takes the web token from the `Authorization: Bearer` header.
  3. It moves the session's expiry to one month from now.
  4. It opens the web token and checks that its audience contains the tag.

  `Logout` soft-deletes all of the user's sessions.
- **The root variant**. Each row of the `authentications` table holds one
  opaque token. A token is good for fifteen minutes after it was last used.
  `Login` reuses a recently used token, or inserts a new one. Either way it
  then soft-deletes every other live token of the user. The gate admits a
  request only if the `X-Auth-Token` header names a live token used within
  the window, and then it stamps that token with the current time.
- **The GCRA counter store** `GcraStore`. A map from rate-limit keys to int64
  values, with three operations: read (an absent key reads as -1),
  set-if-absent, and compare-and-swap.

The model's shape:

- Each table is a sequence of rows, held in a field of one of the two
  `Database` classes. The module-level methods `Login`, `Logout` and
  `Authenticate` take the `Database` object as an argument and update those
  fields in place.
- Each method is proved equal to a pure step function of the old tables
  (`LoginStep`, `LogoutStep`, `Gate`, `GateStep`).
- The lemmas state what the source promises about those step functions.
- `Rows.FindFirst` models a single-row `Scan` of a `SELECT … WHERE`.
  `Rows.UpdateWhere` models an `UPDATE … SET … WHERE`.
- Base64 (section 4 of RFC 4648) is modelled concretely. Its partner is a
  strict decoder that requires the unused bits of a padded final quantum to
  be zero (section 3.5 of RFC 4648). Encoding and decoding are proved inverse
  in both directions, so every byte sequence has exactly one string that
  decodes to it.
- Times are integer nanoseconds, the unit of Go's `time.Duration`.

Some things the code uses cannot be seen here, so they become parameters:

| Source | Parameter in the model |
|---|---|
| HMAC-SHA-256 | `Mac`, an opaque function that always returns 32 bytes |
| go-jose (signing, parsing, decryption, reading claims) | the `Jose` record of opaque, possibly failing functions |
| bcrypt's comparison | `passwordMatches` |
| `time.Now()` | `now` |
| `AddDate(0, 1, 0)` | `monthLater` |
| columns the database fills in on insert | `NewSessionDefaults` and `NewAuthentication` |

Three facts about the API gate shape the model:
- It moves the session's expiry *before* it verifies the web token. Both
  `ApiMiddleware.GateAsWritten` and `ApiMiddleware.Gate` keep that order.
- It never checks the expiry in the claims. Neither gate does.
- Its session lookup ignores `deleted_at`. `ApiMiddleware.GateAsWritten` does
  too. `ApiMiddleware.Gate`, which is what `ApiMiddleware.Authenticate` runs,
  skips soft-deleted sessions. This is the third finding below.

## Model

| member | source | states |
|---|---|---|
| `Base64.Encode` | api/internal/common/functions.go:14 | every group of up to three bytes becomes four characters, so n bytes encode to 4·⌈n/3⌉ characters |
| `Base64.DecodeEncode` | api/internal/common/functions.go:14 | decoding the standard padded encoding gives back the exact bytes |
| `Base64.EncodeDecode` | api/internal/common/functions.go:14 | a string the strict decoder accepts is exactly the encoding of what it decodes to |
| `Base64.DecodeInjective` | api/internal/common/functions.go:14 | two strings that decode to the same bytes are the same string |
| `Base64.EncodeInjective` | api/internal/common/functions.go:14 | different byte strings always get different encodings |
| `Base64.EncodeShape` | api/internal/common/functions.go:14 | an encoding ends in exactly (3 − n mod 3) mod 3 '=' characters, and every other character is one of A–Z a–z 0–9 + / |
| `ApiCommon.SymmetricEncryptBase64Encode` | api/internal/common/functions.go:10-17 | the tag is the padded base64 of the 32-byte HMAC of (key, data): 44 characters, the last one '=', the other 43 from the alphabet, and it decodes back to the digest; the discarded hex encoding plays no part |
| `ApiCommon.TagIsCanonical` | api/internal/common/functions.go:10-17 | the only string that decodes to the MAC is the tag, so the tag's contract fixes the exact string the gate compares |
| `ApiCommon.TagDeterminesDigest` | api/internal/common/functions.go:10-17 | two equal tags come from equal digests |
| `Rows.FindFirst` | api/internal/middleware/middleware.go:51-63 | the row a query reads satisfies its filter, and no earlier row does; "no rows" is reported exactly when no row satisfies the filter |
| `Rows.UpdateWhere` | api/request_handlers.go:191-195 | an UPDATE keeps the table's length, rewrites exactly the rows that match its WHERE, and leaves every other row as it was |
| `ApiGcraStore.GcraStore.constructor` | api/internal/middleware/gcrastore.go:11-15 | a new store is empty |
| `ApiGcraStore.GcraStore.GetWithTime` | api/internal/middleware/gcrastore.go:17-24 | returns the stored value of a present key and -1 for an absent one, together with the clock reading and no error; the map does not change |
| `ApiGcraStore.GcraStore.SetIfNotExistsWithTTL` | api/internal/middleware/gcrastore.go:26-34 | changes the map as `SetIfAbsent` does and returns its success flag, with no error; the ttl has no effect |
| `ApiGcraStore.GcraStore.CompareAndSwapWithTTL` | api/internal/middleware/gcrastore.go:36-48 | changes the map as `CompareAndSwap` does and returns its success flag, with no error; the ttl has no effect |
| `ApiGcraStore.GetReportsStoredValue` | api/internal/middleware/gcrastore.go:17-24 | any key of the empty store reads as -1; a key that was just written reads as its value |
| `ApiGcraStore.SetIfAbsentCases` | api/internal/middleware/gcrastore.go:26-34 | set-if-absent succeeds exactly when the key is absent, and then the key reads as the value; when it fails, the map is unchanged |
| `ApiGcraStore.CompareAndSwapCases` | api/internal/middleware/gcrastore.go:36-48 | CAS succeeds exactly when the key is present and holds `old`, and then the key reads as `new`; when it fails, the map is unchanged; on an absent key it never creates the key |
| `ApiGcraStore.WritesAreLocal` | api/internal/middleware/gcrastore.go:26-48 | a write changes no other key and adds no other key |
| `ApiGcraStore.SecondSwapFails` | api/internal/middleware/gcrastore.go:42-47 | after a successful CAS(k, old, new) with new ≠ old, a second CAS(k, old, x) fails |
| `ApiMiddleware.Split` | api/internal/middleware/middleware.go:67 | `strings.Split(h, " ")` returns at least one field, and no field contains a space |
| `ApiMiddleware.JoinSplit` | api/internal/middleware/middleware.go:67 | joining the fields with spaces gives back the original header |
| `ApiMiddleware.SplitTwoFields` | api/internal/middleware/middleware.go:67-72 | "a b", where neither a nor b contains a space, splits into exactly [a, b] |
| `ApiMiddleware.BearerToken` | api/internal/middleware/middleware.go:66-72 | a token is extracted exactly when the header has at least two fields and the first one is "Bearer"; the token is the second field, `parts[1]`, and contains no space |
| `ApiMiddleware.Authenticate` | api/internal/middleware/middleware.go:46-120 | the request gets the corrected gate's verdict, and the sessions table becomes the corrected gate's table; the users table does not change |
| `ApiMiddleware.TouchEffect` | api/internal/middleware/middleware.go:75-79 | the touch sets `updated_at = now` and `expires_at = monthLater(now)` on the rows with that id, and changes nothing else |
| `ApiMiddleware.TouchIdempotent` | api/internal/middleware/middleware.go:75-79 | touching twice at the same `now` gives the same table as touching once: the expiry is set, not extended |
| `ApiMiddleware.GateAsWritten` | api/internal/middleware/middleware.go:46-120 | the gate as the code is written. It panics exactly when a session is found and the header has no second field. A stray 401 is written only when the first field is not "Bearer". `next` receives the user of a found unexpired session. The table is either unchanged or that session has been touched |
| `ApiMiddleware.Gate` | api/internal/middleware/middleware.go:46-120 | the corrected gate never panics and writes no stray 401. `next` receives the user of a found unexpired, undeleted session. The table is either unchanged or that session has been touched |
| `ApiMiddleware.GateAsWrittenStray401` | api/internal/middleware/middleware.go:68-71 | as written, once a session is found, the 401 for a wrong scheme is written exactly when the header's first field is not "Bearer" |
| `ApiMiddleware.GateAsWrittenTouchesBeforeVerifying` | api/internal/middleware/middleware.go:75-108 | as written, once a session is found and the header has a second field, whatever the first field is, that session is refreshed whether or not the token verifies |
| `ApiMiddleware.GateAsWrittenWithoutSession` | api/internal/middleware/middleware.go:49-63 | as written, with no unexpired session for the client token, the result is 401, `next` is not called, and no row changes |
| `ApiMiddleware.GateAsWrittenAcceptance` | api/internal/middleware/middleware.go:49-119 | as written, acceptance requires an unexpired session for the client token, which may be deleted. It also requires a header with a second field, whatever the first field is, and a token in that field that opens under the session's client token into claims whose audience contains the session's binding tag. `next` then receives that session's user id, and the session has been touched |
| `ApiMiddleware.GateWithoutSession` | api/internal/middleware/middleware.go:49-63 | with no unexpired session for the client token, the result is 401, `next` is not called, and no row changes |
| `ApiMiddleware.GateMalformedHeader` | api/internal/middleware/middleware.go:66-72 | with no "Bearer <token>" header, the corrected gate returns 401 and changes no row |
| `ApiMiddleware.GateTouchesBeforeVerifying` | api/internal/middleware/middleware.go:75-108 | once a session is found and the header is well formed, that session is refreshed, whatever the verification later decides |
| `ApiMiddleware.GateAcceptance` | api/internal/middleware/middleware.go:49-119 | acceptance requires four things: an unexpired, undeleted session for the client token; a Bearer header; a token that parses, decrypts and yields claims under that session's client token; an audience containing that session's binding tag. `next` then receives that session's user id, and the session has been touched |
| `ApiMiddleware.GateAcceptsValidToken` | api/internal/middleware/middleware.go:89-119 | if the client token has exactly one live session, and the token opens into claims naming its tag, the gate accepts it for that session's user |
| `ApiMiddleware.VerifyFailuresRefuse` | api/internal/middleware/middleware.go:89-116 | after the touch, any failure to parse, decrypt or read claims, and any audience without the tag, gives 401; nothing else does |
| `ApiMiddleware.AsWrittenIgnoresScheme` | api/internal/middleware/middleware.go:66-72 | as written, with the header "x t": the gate writes a 401, touches the session and still calls `next` with the user id; the corrected gate refuses |
| `ApiMiddleware.AsWrittenPanicsOnShortHeader` | api/internal/middleware/middleware.go:67-72 | as written, an empty `Authorization` header makes `parts[1]` panic; the corrected gate answers 401 |
| `ApiMiddleware.AsWrittenAcceptsDeletedSession` | api/internal/middleware/middleware.go:51-55 | as written, the gate accepts a soft-deleted session that has not expired; the corrected gate refuses it |
| `ApiHandlers.Login` | api/request_handlers.go:84-185 | the response, and the sessions table afterwards, are those of `LoginStep`; the users table does not change |
| `ApiHandlers.Logout` | api/request_handlers.go:187-205 | the response, and the sessions table afterwards, are those of `LogoutStep` |
| `ApiHandlers.LoginRejectsUnknownCredentials` | api/request_handlers.go:108-128 | when no live user of that name has a matching password, the answer is 404 and no session is created, whatever the client token is |
| `ApiHandlers.UserQueryReads` | api/request_handlers.go:108-121 | the user query reads the first live user of that name |
| `ApiHandlers.LoginRejectsEmptyClientToken` | api/request_handlers.go:132-137 | with an empty client token no session is created. The answer is 401 exactly when the first live user of that name has a matching password, and 404 otherwise, including when only a later user of that name matches |
| `ApiHandlers.LoginInsertsOneSession` | api/request_handlers.go:139-170 | past those checks, exactly one session is added: it is live, belongs to the first live user of that name, holds the client token and the database defaults, and every existing row is kept. This holds even when signing then fails with a 500. A returned jwt is makeJwt of that row |
| `ApiHandlers.MakeClaims` | api/request_handlers.go:229-234 | makeJwt's audience has one element, that element passes the gate's audience check for the same session, and its expiry is the session's `expires_at` in whole seconds |
| `ApiHandlers.MakeJwt` | api/request_handlers.go:220-242 | the result is the signer's result on `MakeClaims` of the session under its client token: a token whenever signing succeeds and nothing when it fails. A returned token signs claims that have a single audience entry the gate accepts for that session and that carry the session's expiry in seconds |
| `ApiHandlers.TouchKeepsAudience` | api/internal/middleware/middleware.go:75-79 | claims made for a session still pass the audience check against that session's row after a touch |
| `ApiHandlers.SoftDeleteEffect` | api/request_handlers.go:191-195 | Logout sets `deleted_at = now` on every not-yet-deleted session of the user; rows of other users and rows already deleted do not change |
| `ApiHandlers.LogoutIdempotent` | api/request_handlers.go:191-202 | a second Logout of the same user changes nothing |
| `ApiHandlers.GateRefusesAfterLogout` | api/request_handlers.go:191-195 | after Logout, the corrected gate never admits a request as that user |
| `ApiHandlers.AsWrittenAcceptsAfterLogout` | api/internal/middleware/middleware.go:51-55 | as written, the gate still admits a user who has logged out, as long as the session has not expired |
| `RootTables.TouchTokenEffect` | request_handlers.go:128-133 | refreshing a token sets `updated_at = now` on its live rows and changes no other row or column |
| `RootTables.SoftDeleteLiveEffect` | request_handlers.go:160-165 | the soft delete stamps `deleted_at = now` on exactly the user's live rows whose token differs from the one kept, and changes no other row |
| `RootHandlers.FifteenMinutesBefore` | request_handlers.go:217-219 | the result lies exactly 15 minutes before its argument |
| `RootHandlers.AuthenticatedUser` | request_handlers.go:100-120 | a user id is returned exactly when the first live user of that name has a non-null id and the password matches, and it is that user's id |
| `RootHandlers.ReuseOrCreate` | request_handlers.go:122-156 | afterwards the token has a live row of the user; at most one row is added; an existing row either stays as it was or is a live row of that token with `updated_at = now` |
| `RootHandlers.FindLoginAuthToken` | request_handlers.go:221-239 | returns a token only if the user has a live row with that token used after fifteen minutes ago; returns none exactly when the user has no such row |
| `RootHandlers.Login` | request_handlers.go:80-194 | the response, and the authentications table afterwards, are those of `LoginStep`; the users table does not change |
| `RootHandlers.Logout` | request_handlers.go:196-213 | the response, and the authentications table afterwards, are those of `LogoutStep` |
| `RootHandlers.LoginRejectsUnknownCredentials` | request_handlers.go:100-120 | a missing or deleted user, a null id, or a wrong password all give 404, and no row changes |
| `RootHandlers.ReuseRefreshes` | request_handlers.go:124-141 | when a recent token exists it is reused: nothing is inserted, and its live rows get `updated_at = now` |
| `RootHandlers.CreateInserts` | request_handlers.go:142-156 | when no recent token exists, exactly one new live row is appended for the user, and its generated token is the one returned |
| `RootHandlers.LoginLeavesOneLiveToken` | request_handlers.go:158-185 | after login, the returned token is the user's only live token, and it still has a live row; the cookie is "authtoken", holds that token, and expires 15 minutes after now |
| `RootHandlers.LoginKeepsOtherRows` | request_handlers.go:126-172 | if each token belongs to one user, Login changes neither another user's rows nor any row already deleted |
| `RootHandlers.LogoutLeavesNoToken` | request_handlers.go:199-203 | after Logout, `findLoginAuthToken` finds no token for that user at any time |
| `RootHandlers.LogoutEffect` | request_handlers.go:199-210 | Logout changes only the user's live rows, and a second Logout changes nothing |
| `RootMiddleware.Authenticate` | internal/middleware/middleware.go:50-94 | the request gets `GateStep`'s verdict, and the table becomes `GateStep`'s table; the users table does not change |
| `RootMiddleware.Cors` | internal/middleware/middleware.go:34-37 | Cors is the identity: it returns the handler it wraps, so every request reaches that handler unchanged |
| `RootMiddleware.GateAdmitsExactly` | internal/middleware/middleware.go:53-70 | a request is admitted exactly when some live row carries the `X-Auth-Token` value and was used after fifteen minutes ago; `next` receives such a row's user id |
| `RootMiddleware.GateRefusalChangesNothing` | internal/middleware/middleware.go:65-69 | a refused request gets 401 and no row changes |
| `RootMiddleware.GateRefreshes` | internal/middleware/middleware.go:71-85 | an admitted request sets `updated_at = now` on the token's live rows; deleted rows and other tokens' rows do not change |
| `RootMiddleware.GateSlidingWindow` | internal/middleware/middleware.go:55-85 | a token admitted at `now` is admitted again at any time less than 15 minutes later, and for the same user if each token belongs to one user |

## Findings

| source | as written | input that shows it | evidently intended | confidence | as-written member | corrected member |
|---|---|---|---|---|---|---|
| api/internal/middleware/middleware.go:68-71 | a first field other than "Bearer" writes 401 but does not return, so the session is touched and `next` may still run | the header `Authorization: x t`, with a token that opens into claims naming the tag | a `return` after the 401 | high (not executed) | `ApiMiddleware.AsWrittenIgnoresScheme` | `ApiMiddleware.GateMalformedHeader` |
| api/internal/middleware/middleware.go:67-72 | `parts[1]` is read without checking that the split gave two fields | an empty `Authorization` header, or just `Bearer` | answer 401 | high (not executed) | `ApiMiddleware.AsWrittenPanicsOnShortHeader` | `ApiMiddleware.GateMalformedHeader` |
| api/internal/middleware/middleware.go:51-55 | the session lookup has no `deleted_at IS NULL` filter, so Logout does not end a session | Login, then Logout, then a request whose client token and web token are unchanged, before the expiry | refuse soft-deleted sessions | medium (not executed) | `ApiHandlers.AsWrittenAcceptsAfterLogout` | `ApiHandlers.GateRefusesAfterLogout` |

`ApiMiddleware.GateAsWritten` follows the code exactly. `ApiMiddleware.Gate`
corrects the three defects above and keeps everything else, including the
touch before verification. `ApiMiddleware.Authenticate` uses `Gate`.

## Left out

- `Throttle` and the GCRA algorithm are out. They live in the `throttled`
  library, which is not part of this model. The source only sets a quota of
  20 per minute with a burst of 5, varied by path.
- HTTP and process wiring are out: `main.go`, `api/main.go`, the router,
  CORS options, config reading, database connections and the `Log`
  middlewares. They are I/O.
- `CreateUser`, bcrypt, JSON and spew are out. They are library calls.
  Login's body is taken as already decoded. In the source, a body read or
  unmarshal error writes 400 but does not return, so the handler carries on
  with empty fields. The model does not capture that path.
- Database failures other than "no rows" are out: lost connections and
  constraint violations. So are the 500 responses they cause. The model
  keeps one 500, for signing failure in the API Login.
  - The re-read of a just-inserted session (api/request_handlers.go:153-163)
    is modelled as returning the inserted row.
  - The touch's `RETURNING id` (api/internal/middleware/middleware.go:81-87)
    always finds the row, because the row was just read.
- `ApiHandlers.Login`: the session that is signed is the inserted row.
  Whether go-jose accepts a `string` signing key is library behaviour. The
  model does not capture it, and signing is an opaque function that may
  fail.
- The internals of JOSE and HMAC are left out. So is any end-to-end
  round trip from makeJwt to the gate. makeJwt produces a token that is
  signed only, while the gate parses a signed-and-encrypted one.
- Calendar arithmetic is out. `AddDate(0, 1, 0)` is the parameter
  `monthLater`. `jwt.NewNumericDate` of Go's zero time gives nil, and the
  model does not represent that.
- All `time.Now()` calls in one request are read as one instant, `now`.
- SQL leaves the order of a result set open. The model reads the first
  matching row. Lemmas about "the" user of a token or session say so
  through `TokensOwned`, or through a single-live-session hypothesis.
- Concurrency is out. `GcraStore`'s map is not synchronised, and requests
  race on the store and on the tables. The model runs every operation one
  at a time.
- `ApiMiddleware.Authenticate` updates the database by the corrected gate.
  The gate as written is modelled only as the function
  `ApiMiddleware.GateAsWritten`, with its own lemmas; no method runs it on a
  `Database`.
- TTL expiry of store entries is out. The source ignores `ttl`, and so
  does the model.
- `RootHandlers.LoginKeepsOtherRows` is stated only for tables where rows
  that share a token belong to one user. The schema that would guarantee
  that is not part of this model.
- The root `main.go` routes `/logout` without `MakeAuthenticate`. Logout's
  context value is then missing and the type assertion panics, which
  `LogoutStep` models as `Crash`. The wiring itself is not modelled.
