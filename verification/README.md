# Session-token lifecycle: a Dafny model

This project models the credential and session-token core of a small
Express/SQLite authentication server (`server.js`, `db.js`). It covers
registration, login, refresh, logout, the `authenticateToken` guard with its
`Authorization` header parsing, and the read-only `GET /api/profile`. It also
covers the store behind them: the `users` table, the `refresh_tokens`
ledger, the constraints of their schema, and the seeding of the default
`admin` and `user` accounts at start-up.

Every endpoint is a pure step function. It takes the store, the request and,
where tokens are signed or checked, the current time `now` in whole seconds.
It returns a `Reply(status, body, store)`. The store is immutable: a map from
user id to user, a map from refresh-token string to user id, and the
AUTOINCREMENT counter of `users`. Its schema constraints are the invariant
`Db.Valid`:

- usernames are unique;
- every user id was handed out by the counter;
- every ledger entry names an existing user.

Ledger token strings are unique because the ledger is a map.

Bcrypt and JSON Web Tokens (RFC 7519) are symbolic:

- **Bcrypt.** `Bcrypt.Hash(password, salt)` makes a digest that records the
  cost factor (10) and the salt. `Bcrypt.Compare` accepts the password it
  was made from.
- **Tokens.** A `Jwt.Token` is its claims (`id`, `username`), its issue and
  expiry times, and the key that signed it. That key is the access secret,
  the refresh secret or a secret the server does not hold. `Jwt.Verify`
  accepts a token string when it decodes, was signed with the expected key,
  and `now < exp`.
- **Wire form.** Tokens travel as strings: five dot-separated lower-case hex
  segments. This form has no spaces, and each accepted string decodes to
  exactly one token. Both directions of the round trip are proved.
- **Lifetimes.** Access tokens live one year (31 557 600 s). Refresh tokens
  live seven days (604 800 s).

As in the code, refresh checks only the signature and the expiry and never
reads the ledger. Logout therefore removes a token from the ledger without
revoking it: `Session.LogoutDoesNotRevoke` proves this.

Files:

- `wrappers.dfy`: `Option` and `Result`.
- `text.dfy`: JavaScript's one-character `split` and `join`, with both round trips.
- `hex.dfy`: the numeral and character encoding of the token wire form.
- `bcrypt.dfy`: the password hasher.
- `jwt.dfy`: signing, encoding and verification of tokens.
- `db.dfy`: the store, its statements and invariants, and `initializeUsers`.
- `server.dfy`: the endpoints and the guard.
- `session.dfy`: properties that span several calls.

## Model

| member | source | states |
|---|---|---|
| Server.Register | server.js:28-64 | A missing or empty username or password gives 400 "Username and password required", and a taken name gives 400 "User already exists"; neither changes the store. A 201 adds exactly one user under a fresh id, storing the bcrypt digest of the password (never the plaintext) and the nickname or null, and changes nothing else. |
| Session.RegisterValid | server.js:37-51 | On a well-formed store, registration keeps the store well formed and never reaches the 500 branch. It succeeds exactly when both fields are present and no user has the name. |
| Server.OrNull | server.js:50 | `nickname \|\| null` keeps a non-empty nickname and turns an absent or empty one into null. |
| Server.Login | server.js:67-137 | A missing field gives 400. Every 401 carries the same body, "Invalid credentials", and leaves the store unchanged. A 200 means the user was found and the password matched the stored digest. Its access token decodes to the user's id and username signed with the access secret for one year, and its refresh token to the same claims signed with the refresh secret for seven days. The response echoes the username. The only change to the store is `ledger[refreshToken] := id`. |
| Server.StoreRefreshToken | server.js:108-120 | A plain insert, then insert-or-replace when it fails, has the effect of `ledger[token] := owner` with nothing else changed. It fails only when the owner does not exist. |
| Session.LoginValid | server.js:109-120 | On a well-formed store, login keeps the store well formed and never reaches the 500 branch: the token's owner exists, so the foreign key holds. |
| Session.LoginKnownUser | server.js:86-93 | For an existing user, login succeeds (200) exactly when the password matches the stored digest, and otherwise gives 401. |
| Session.LoginFailuresAlike | server.js:79-93 | An unknown username and a wrong password for a known user produce the identical reply: 401 with "Invalid credentials", with the store unchanged. |
| Server.Refresh | server.js:140-167 | Never changes the store. It gives 401 "Refresh token required" exactly when the token is absent or empty, and 403 "Invalid refresh token" when verification fails. A present token gets 200 exactly when it verifies under the refresh secret at `now`. On 200, the token decodes to a refresh-secret token that has not expired, and the new access token carries the same claims, signed with the access secret at `now` for one year. |
| Session.RefreshIgnoresLedger | server.js:144-161 | Refresh answers identically on any two stores: it never reads the ledger. |
| Server.Logout | server.js:170-202 | Always answers 200 "Logged out successfully". It removes exactly the given token's ledger key and keeps every other entry, all users and the id counter. With no token it changes nothing. |
| Session.LogoutIdempotent | server.js:190-197 | A second logout with the same token gives the same reply and store as the first. A logout without a token is a 200 that changes nothing. |
| Session.OtherEndpointsValid | server.js:140-202 | Refresh, logout and reading the profile keep a well-formed store well formed. |
| Text.Split | server.js:207 | Like JavaScript's `split` with a one-character separator: at least one field, and no field contains the separator. |
| Server.Credential | server.js:206-207 | The credential is the header's second space-separated field, which contains no space. |
| Server.Authenticate | server.js:205-220 | Gives 401 "Access token required" exactly when the credential is absent or empty. Otherwise a failed verification gives 403 "Invalid or expired token". The request is admitted with token `t` as `req.user` exactly when the credential is the encoding of `t`, `t` is signed with the access secret, and `t` has not expired. |
| Session.HeaderAccepted | server.js:207 | A header of the form `scheme SP credential` (optionally followed by a space and more) yields that credential, whatever the scheme word is. |
| Session.AcceptedHeaderShape | server.js:207-211 | Conversely, a header that gives a non-empty credential has exactly that shape: a first word with no space, one space, the credential, then the end or a space. |
| Session.OneWordRejected | server.js:206-211 | An absent header, or a header that is one word such as `"Bearer"`, is refused with 401. |
| Session.DoubleSpaceRejected | server.js:207-211 | Two spaces after the first word, as in `"Bearer  x"`, leave an empty credential, and the request is refused with 401. |
| Session.SchemeIgnored | server.js:207 | `"Basic <token>"` is treated exactly like `"Bearer <token>"`. |
| Session.BearerAdmits | server.js:205-219 | `"Bearer <token>"` is admitted with that token when it is signed with the access secret and not expired, and refused with 403 otherwise. |
| Server.ProfileOf | server.js:260-275 | Read-only. It gives 404 "User not found" exactly when `req.user.id` is not a user. Otherwise it gives 200 with the id and username, and with the nickname and description, each mapped to "" when null. |
| Server.GetProfile | server.js:205-275 | Read-only. A request the guard denies gets the guard's own 401 or 403 reply. An admitted request gets 200 exactly when the token's id is a user. A 200 means the guard admitted the request and the profile is that of the user named by the token's id. |
| Session.RegisterThenLogin | server.js:28-132 | After registering a new name, logging in with the same password gives 200. The reply holds the tokens for the new user's id and name, and the ledger gains exactly that refresh token. |
| Session.IssuedPairWorks | server.js:96-161 | For a token pair issued as login issues it, `Bearer <access>` passes the guard for one year and the refresh token mints a fresh access token for seven days. An access token is refused by refresh and a refresh token by the guard, both with 403. |
| Session.LogoutDoesNotRevoke | server.js:149-191 | After logout the refresh token is no longer in the ledger, yet refresh with it still succeeds until it expires. |
| Session.ProfileAfterRegister | server.js:258-275 | Registering, logging in and reading the profile with the issued access token returns the registered name, the nickname or "", and an empty description. |
| Bcrypt.Hash | server.js:45 | The digest records cost factor 10 and its salt, and the password it was made from matches it. |
| Bcrypt.SaltedHashesDiffer | server.js:45 | The same password hashed with two different salts gives two different digests. |
| Jwt.Sign | server.js:96-106 | A signed token carries the given claims and key, is issued at `now`, and expires after exactly the given lifetime. |
| Jwt.Encode | server.js:128-132 | The wire form of a token is non-empty and contains no space, so it fits in a `Bearer` header. |
| Jwt.DecodeEncode | server.js:213 | Decoding the wire form of a token gives back that token. |
| Jwt.EncodeDecode | server.js:213 | Every string the decoder accepts is the wire form of the token it decodes to, so no other string is accepted for that token. |
| Jwt.Verify | server.js:149-152 | Verification accepts a string exactly when it is the encoding of a token signed with the expected key that has not expired, and then yields that token. |
| Jwt.VerifyIssued | server.js:213-216 | A token issued with a key for a given lifetime verifies under another key at a given time exactly when the keys agree and the lifetime has not run out. |
| Db.EmptyValid | db.js:21-55 | The freshly created tables satisfy the schema invariants. |
| Db.FindUserByName | db.js:67-69 | The lookup by username returns an existing user's id with that name. When it returns none, no allocated id carries the name. |
| Db.FindUserByNameExact | db.js:24 | On a well-formed store, the lookup finds a user exactly when one has the name, and then it finds that user, because usernames are unique. |
| Db.FindUserById | server.js:261-264 | The lookup by id finds a user exactly when the id is in the table, and returns that row. |
| Db.InsertUser | db.js:73-76 | A successful insert adds exactly one row, with the next AUTOINCREMENT id and no description, and keeps every other row and the ledger. A failure means the name is taken or the id is occupied. |
| Db.InsertUserValid | db.js:22-30 | On a well-formed store, the insert succeeds exactly when the username is free, and it keeps the store well formed, so UNIQUE is never broken. |
| Db.InsertToken | db.js:48-54 | The insert fails exactly on a duplicate token (UNIQUE) or an unknown user (FOREIGN KEY). On success the ledger gains exactly that entry and the users are untouched. |
| Db.InsertOrReplaceToken | server.js:116-119 | Insert-or-replace fails only on an unknown user. On success the ledger maps the token to the owner, replacing any previous owner, and the users are untouched. |
| Db.DeleteToken | server.js:191 | Removes exactly the given token's ledger key and keeps every other entry and all users. An absent token binds NULL and deletes nothing. |
| Db.DeleteUser | db.js:51-53 | Removing a user removes exactly that row and, by ON DELETE CASCADE, exactly the tokens it owned. |
| Db.LedgerStatementsValid | db.js:50-53 | Every ledger statement, and deleting a user with its cascade, keeps the store well formed. After the delete the user's name is free. |
| Db.SeedUser | db.js:66-83 | One pass of the seeding loop never touches existing users or tokens. If it changes the store at all, it did not fail, the name was absent, and it added exactly one user with that name and the hash of the default password. |
| Db.SeedUsers | db.js:65-84 | Seeding keeps every existing user, password hash included, and the ledger unchanged. Each new user is a default account whose pass did not fail and whose name was absent from the store before seeding. |
| Db.InitializeUsers | db.js:59-85 | `initializeUsers` only ever adds users. It changes no existing row or token. |
| Db.SeedUserValid | db.js:71-76 | A pass keeps the store well formed. When the pass does not fail, the account exists afterwards. |
| Db.SeedUsersValid | db.js:65-84 | Seeding keeps the store well formed, and every default account whose pass does not fail exists afterwards. |
| Db.InitializeUsersCreates | db.js:60-83 | Absent failures, both `admin` and `user` exist afterwards. A failure for one of them does not stop the other from being created. |
| Db.SeedUsersPresent | db.js:67-71 | Seeding a store that already has every default name changes nothing. |
| Db.InitializeUsersIdempotent | db.js:67-71 | Whatever its salts and failures, a second run after a failure-free first run leaves the store exactly as the first run left it. |

## Left out

- Express plumbing is not modelled: cors, JSON body parsing, static files, `console.log` auditing, `app.listen` and the ngrok tunnel. These are transport and I/O.
- The `/heapdump` endpoint is not modelled. It does filesystem and V8 I/O.
- `PUT /api/profile/description` is not modelled. It interpolates the request into SQL text, so its effect depends on SQL parsing. As a result, descriptions in the model only ever come from an existing store.
- `GET /api/protected` is not modelled. It only echoes `req.user`, and the guard in front of it is modelled.
- The SQLite and promisify plumbing is not modelled: `prepare`, `PRAGMA`, and the `ALTER TABLE` migrations that ignore their own errors. The `created_at` columns and the ledger's own row ids are also left out, because nothing in the core reads them.
- Store I/O failures (disk, locking) are not modelled, so neither are the 500 replies they cause in the endpoints. Statements fail only on UNIQUE, PRIMARY KEY and FOREIGN KEY violations. Those 500 branches are modelled and proved unreachable on a well-formed store. The exception is `initializeUsers`, where a set of failing default usernames stands for a throwing pass, because there the catch is the behaviour.
- Concurrency is not modelled. Under a register race, the UNIQUE constraint makes the losing insert throw, which gives 500 rather than 400. A sequential model cannot show this.
- The secrets come from environment variables, which are not modelled. The model keeps the access and refresh secrets distinct, as the fallback values are; if both variables were set to the same value, the two token classes would become interchangeable.
- Bcrypt.Compare: matches only the exact password the digest was made from. Real bcrypt reads only the first 72 bytes of the password's UTF-8 encoding, so the model is stronger than bcrypt for longer passwords. The cost factor and the salt are recorded but no work is done.
- Jwt.Encode: the wire form is a stand-in for the compact serialization, which is base64url header, payload and HMAC-SHA256 signature. The signature is symbolic: a token names the key that signed it. So the model assumes that only a holder of a key can produce a token under that key.
- Jwt.Verify: all verification errors (malformed, bad signature, expired) become the same failure, as both call sites answer them alike. The `nbf` and `maxAge` options are not modelled, because the server sets neither.
- Request fields are absent or strings. Other JSON values (numbers, objects, `null`) and a missing request body are not modelled.
- Node strips leading and trailing whitespace from header values before the guard sees them. The model takes the header value as it reaches the handler.
- Session.LoginFailuresAlike: the two failures are alike in content, not in timing. An unknown username is answered before any bcrypt comparison runs, so it is answered faster than a wrong password.
- Server.Login: both tokens are signed at one time `now`. The code reads the clock again at each signing call, so their `iat` values could differ by a second. Server.Refresh likewise uses one `now` for verifying the refresh token and for signing the new access token.
- Request fields are Dafny strings, which hold Unicode scalar values. JavaScript strings are UTF-16 code units and can hold lone surrogates, which the model cannot represent.
- Logout's lookup of the owning username is not modelled, because it only feeds a log line and its errors are ignored.
