# fit-and-fix authentication service — Dafny model

A model of the request-decision logic of a small credential service
(`src/index.ts`): registering users, logging them in, logging out, and
reading a profile behind a bearer token. The `users` table is a sequence of
rows held by a class (`Server.App`); each handler's chain of early returns
is a function of the request, the table and the auth helpers
(`Handlers`), and the class methods are proved to follow those functions.
Password hashing (bcrypt) and JWT signing and verification (jose) are
uninterpreted functions in a `Helpers` value (`Crypto`); the bcrypt salt
and the clock are explicit parameters.

Modules, one file each:

- `Wrappers` — `Option` and `Result`.
- `Crypto` — the helper interface of `src/auth.ts`: `hash`, `compare`, `sign`, `verify`.
- `Users` — table rows, the password-free `Profile` projection, the lookups
  `SELECT ... WHERE email/id` (first matching row in table order) and the
  table invariant `WellFormed` (serial ids from 1, unique ids, unique emails).
- `Session` — `getUserFromAuth`: the `"Bearer "` prefix test, `slice(7)`,
  verification and the truthy-`userId` test.
- `Handlers` — responses (status plus body), request records, and the
  decision functions: `RegisterCheck` and `Register` (src/index.ts:8-31),
  `Login` (src/index.ts:34-55), `Logout` (src/index.ts:58-60) and
  `GetProfile` (src/index.ts:75-87). `ErrorTag` gives the `error` string
  each failure kind is sent as.
- `Properties` — the ordering, indistinguishability and end-to-end lemmas.
- `Server` — `App`, whose `Register` method appends to the table and whose
  `Login` and `Profile` methods only read it.

Modelling choices:

- A request field is `Option<string>`; "missing" follows JavaScript
  truthiness for strings (`None` or `""`).
- A verified token's `userId` is `Option<int>`; it is truthy when present
  and non-zero. `WHERE id = payload.userId` looks that integer up.
- Rows carry every column the INSERT writes plus `id` and
  `created_at`; `created_at` is the `now` parameter. The table schema is
  not part of the repository; the model takes `id` to be a serial starting
  at 1 and the columns to be exactly these, so `SELECT *` minus
  `password_hash` is the same projection as `RETURNING ...`.
- `users[0]` of a query is the first matching row in sequence order.
- The `Failure` body's `detail` field is the JSON `message` field.
- Responses carry an `ErrorCode`; `Handlers.ErrorTag` maps each code to its
  wire string (`INVALID_INPUT`, `EMAIL_ALREADY_EXISTS`, `WEAK_PASSWORD`,
  `INVALID_CREDENTIALS`, `UNAUTHORIZED`, `USER_NOT_FOUND`), and the
  messages are constants of `Handlers`.

Behaviour of the code worth noting:

- A password/confirmation mismatch is reported as `INVALID_INPUT` with a
  message, not as a separate failure kind.
- Required fields are checked by truthiness, so an empty string counts as missing.
- The guard rejects a payload whose `userId` is 0, not only one that lacks it.
- A uniqueness conflict from the database is not mapped to
  `EMAIL_ALREADY_EXISTS`: the code has no such mapping, and the model,
  being sequential, never produces one.

## Model

| member | source | states |
|---|---|---|
| Users.FirstMatch | src/index.ts:20-21 | the index found is of a row matching the WHERE clause with no matching row before it; `None` only when no row matches |
| Users.Select | src/index.ts:42-46 | the row returned is the first matching row of the table; `None` exactly when no row matches |
| Users.SelectAppendedRow | src/index.ts:28 | after appending a row with a key no earlier row has, a lookup by that key returns the new row |
| Session.BearerToken | src/index.ts:66-68 | a token is extracted exactly when the header is present and starts with `"Bearer "`, and then the header is that prefix followed by the token (so `slice(7)` removes exactly the prefix) |
| Session.GetUserFromAuth | src/index.ts:63-72 | a payload is returned only for a header `"Bearer " + t` whose `t` verifies to that payload, and only with a truthy `userId` |
| Session.GuardNeedsBearerPrefix | src/index.ts:67 | an absent header or one without the prefix is rejected whatever the verifier says |
| Session.GuardVerifiesSuffix | src/index.ts:68-71 | for `"Bearer " + t` the guard verifies exactly `t`, and returns the payload iff it exists and has a truthy `userId` |
| Properties.RegisterMissingField | src/index.ts:13-15 | any missing required field gives 400 `INVALID_INPUT` without a message, on every table, and leaves the table and counter unchanged |
| Properties.RegisterPasswordMismatch | src/index.ts:16-18 | all fields present and password different from confirmation gives 400 `INVALID_INPUT` with "Passwords do not match", whether or not the email is taken and whatever the password length; table unchanged |
| Properties.RegisterDuplicateEmail | src/index.ts:20-23 | matching passwords and an email already in the table give 409 `EMAIL_ALREADY_EXISTS` whatever the password length; table unchanged |
| Properties.RegisterWeakPassword | src/index.ts:24-26 | a fresh email and a password shorter than 8 give 400 `WEAK_PASSWORD` with its message; table unchanged |
| Properties.RegisterCreatedIff | src/index.ts:13-30 | register answers 201 if and only if all four checks pass, and on any other answer the table and counter are unchanged |
| Properties.RegisterSuccess | src/index.ts:27-30 | success appends exactly one row (next id, given fields, hash of the password under the salt, `created_at` now) after the unchanged old rows, and answers 201 with that row minus its hash and a token signed over `{userId: new id, email}` |
| Properties.RegisterPreservesWellFormed | src/index.ts:20-28 | register keeps ids unique and below the serial counter and keeps emails unique |
| Properties.SelectByUniqueEmail | src/index.ts:42-46 | in a well-formed table the email lookup returns the one row with that email |
| Properties.LoginFailuresIndistinguishable | src/index.ts:42-50 | an unknown email and a known email with a password its hash rejects get the identical 401 `INVALID_CREDENTIALS` response |
| Properties.LoginSuccess | src/index.ts:46-54 | a known email whose hash accepts the password gives 200 with that row minus its hash and a token for its id and email |
| Properties.LoginMissingField | src/index.ts:39-41 | a missing or empty email or password gives 400 `INVALID_INPUT` without a message on every table, before any lookup |
| Properties.LoginSucceedsOnlyWithMatch | src/index.ts:39-54 | a 200 login implies both fields were present and some row with that email had a hash accepting the password, and the body is that row's profile and token |
| Properties.ErrorTagsDistinct | src/index.ts:14-84 | the six failure kinds are sent as six distinct `error` strings |
| Properties.LogoutAlwaysNoContent | src/index.ts:58-60 | logout answers 204 with no body whatever the request |
| Properties.ProfileUnauthorizedIff | src/index.ts:78-81 | the profile route answers 401 `UNAUTHORIZED` exactly when the guard rejects |
| Properties.ProfileRejectionsIndistinguishable | src/index.ts:66-81 | a bearer token that fails verification and a missing header get the identical 401 response |
| Properties.ProfileLookup | src/index.ts:82-86 | for a token verifying to a truthy `userId`, the answer is 404 `USER_NOT_FOUND` when no row has that id and 200 with the row (minus its hash) when one does |
| Properties.RegisterThenLogin | src/index.ts:27-54 | on every table, after a successful register, login with the same email and password answers 200 with the registered profile, given that `compare` accepts a password against its own hash |
| Properties.RegisterThenProfile | src/index.ts:27-86 | the token a successful register returns opens the new user's profile, given that `verify` returns the claims `sign` was given |
| Server.App.Register | src/index.ts:8-31 | the response, the new table and the new counter are those of `Handlers.Register` on the old table, and the table stays well formed |
| Server.App.Login | src/index.ts:34-55 | the response is `Handlers.Login` on the current table, with status 200, 400 or 401; the method cannot change the table |
| Server.App.Profile | src/index.ts:75-87 | the response is `Handlers.GetProfile` on the current table, with status 200, 401 or 404; the method cannot change the table |

## Left out

- bcrypt hashing and comparison, JWT HS256 signing (with `iat` and the
  7-day `exp`) and `jwtVerify` with its catch-to-null (`src/auth.ts`): code
  of the bcryptjs and jose libraries, modelled as uninterpreted functions.
  Properties that need their behaviour (a password matches its own hash,
  a token verifies to what was signed) are stated as preconditions of the
  lemmas that use them.
- The `'supersecret'` fallback for a missing signing secret: configuration,
  folded into the choice of `Helpers`.
- The Neon SQL client (`src/db.ts`), network I/O and async/await: the table
  is an in-memory sequence and every handler runs to completion in order.
- Failures of the collaborators: a failing SQL query, or an exception
  from `hashPassword` or `signJWT`, escapes the handler and the framework
  answers 500. The model's store, hasher and signer never fail, so no
  such response is produced.
- The race between the email check and the insert under concurrent
  registrations, and any database uniqueness constraint: the model is
  sequential.
- Hono routing and `c.req.json()` parsing: requests arrive already split
  into fields. Non-string JSON values in string fields and non-numeric
  `userId` claims are not modelled.
- `password.length` counts UTF-16 code units in JavaScript; the model counts
  Dafny characters (Unicode scalar values), which differ for characters
  outside the Basic Multilingual Plane.
- SQL string comparison is taken to be exact equality (no collation effects).
- The `/debug/db` and `/debug/env` endpoints: I/O and introspection.
