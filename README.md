# Authentication core of a small Express/Postgres user service

This project models, in Dafny, the authentication logic of a Node.js user
service: the auth model (`registerUser`, `loginUser`, `generateToken`,
`verifyToken`, `getUserById`) and the `protect` middleware that gates
protected routes with a bearer token.

- `wrappers.dfy`: `Option` (JavaScript's `undefined`) and `Result` (a thrown `Error`).
- `js_string.dfy` (`JsString`): `startsWith` and `split(' ')` with JavaScript's
  semantics, plus `Join`. Splitting and joining are proved to be inverse.
- `auth_model.dfy` (`AuthModel`): the `users` table is a `Store` object. It holds
  a map from id to row and the SERIAL counter `nextId`. Its invariant is that
  rows sit under their own id and emails are unique (the UNIQUE constraint).
  `RegisterUser` is a method that updates the map in place. Login, lookup and
  the token wrappers are functions over the table value. bcrypt is a `Hasher`
  value and jsonwebtoken a `Codec` value, both passed in. Their only assumed
  properties are named predicates that appear in `requires` clauses or as the
  premise of an `ensures`:
  `HasherSound` (a password matches its own hash under every salt), `CodecSound`
  (a fresh token decodes to its id) and `WireSafe` (issued tokens are non-empty
  and contain no space).
- `auth_middleware.dfy` (`AuthMiddleware`): `ExtractToken` (header parsing) and
  `Protect`. `Protect` returns the outcome (`Continue(user)` or
  `Reject(status, message)`) and the list of collaborator calls it made.

The model follows the code:
- emails are compared exactly, with no case normalisation;
- a decoded id with no user is a 401 at the gate, not a distinct error;
- `protect`'s 500 branch cannot be reached once header parsing is total (see below).

The table DDL (`server/data/craeteUsertable.js`) declares no `password` column.
The INSERT in `registerUser` writes one, so the model's row includes it.

## Model

| member | source | states |
|---|---|---|
| JsString.Split | server/middlewires/authMiddleware.js:11 | `split(' ')` always yields at least one field; no field contains the separator; there is exactly one field iff the string has no separator |
| JsString.JoinSplit | server/middlewires/authMiddleware.js:11 | joining the fields of a split with the separator gives back the original header |
| JsString.SplitJoin | server/middlewires/authMiddleware.js:11 | splitting a join of separator-free fields gives back those fields, so `split` loses nothing |
| JsString.StartsWith | server/middlewires/authMiddleware.js:9 | `startsWith('Bearer')` holds iff the header is at least as long as the prefix and agrees with it character by character (case-sensitive); the header is then the prefix followed by the rest |
| AuthModel.Sanitize | server/models/authModel.js:51-53 | removing the password column keeps the row's id, name, email and created_at unchanged; the result type has no password field. The same projection is the `RETURNING` list at line 23 and the column list at line 77 |
| AuthModel.SanitizeHidesPassword | server/models/authModel.js:52 | the user returned without its password is the same whatever the stored hash, so it reveals nothing about it |
| AuthModel.EmailTaken | server/models/authModel.js:8-13 | `userExists.rows.length > 0` holds iff the email is among the emails of the stored rows |
| AuthModel.FindByEmail | server/models/authModel.js:33-42 | the email lookup finds a row iff some stored row has that email, and the row found is a stored row with that email |
| AuthModel.Store.constructor | server/data/craeteUsertable.js:5-10 | a new table is empty, its ids start at 1, and it satisfies the unique-email invariant |
| AuthModel.Store.RegisterUser | server/models/authModel.js:6-28 | a taken email fails with "User already exists with this email" and leaves the table and counter unchanged. Otherwise exactly one row is added under the next id, carrying the name, the email and, in the password column, `hash(password, salt)` as the hasher computes it (the contract does not rule out a hasher that returns its input). Existing rows are kept, the counter advances, the result is the new row without a password, and unique emails are preserved |
| AuthModel.LoginUser | server/models/authModel.js:31-54 | every failure is the single error InvalidCredentials, whose message is "Invalid email or password". An unknown email fails. Success holds iff a row with that email has a hash the password verifies against. A successful result is that row with the password removed |
| AuthModel.GenerateToken | server/models/authModel.js:57-63 | under a sound codec, the issued token passes verifyToken with payload `{id: userId}` |
| AuthModel.VerifyToken | server/models/authModel.js:66-72 | fails iff the codec rejects the token, and every codec failure (malformed, bad signature, expired, not yet active) becomes the one error InvalidToken, whose message is "Invalid or expired token". Success returns the decoded payload unchanged |
| AuthModel.GetUserById | server/models/authModel.js:75-86 | fails with UserNotFound (message "User not found") iff the id is absent; otherwise returns that row's id, name, email and created_at without the password |
| AuthModel.RegisterThenLogin | server/models/authModel.js:17-53 | under a sound hasher (a password always matches its own hash), registering a fresh email keeps the table valid, and logging in with the same email and password then succeeds with the new user's public fields |
| AuthModel.RegisterKeepsOtherLogins | server/models/authModel.js:21-25 | after a registration, logging in with any other email and password gives exactly the result it gave before |
| AuthModel.RegisterThenGetUser | server/models/authModel.js:75-86 | after a registration, getUserById returns the new user for the new id and the previous answer for every other id |
| AuthMiddleware.ExtractToken | server/middlewires/authMiddleware.js:9-12 | a token is found iff the header exists, starts with "Bearer" and contains a space. The token is then free of spaces and may be empty |
| AuthMiddleware.Truthy | server/middlewires/authMiddleware.js:15 | `!token` for a token that is a string or undefined: undefined and the empty string are falsy, every non-empty string is truthy |
| AuthMiddleware.ExtractSecondField | server/middlewires/authMiddleware.js:9-12 | for a header "Bearer" + p + " " + t + r, where p and t have no space and r is empty or starts with a space, the token is exactly t |
| AuthMiddleware.BearerAloneHasNoToken | server/middlewires/authMiddleware.js:9-12 | no header, "Bearer" alone, and the lower-case "bearer x" all give no token: the prefix match is case-sensitive and a second field needs a space |
| AuthMiddleware.DoubleSpaceGivesEmptyToken | server/middlewires/authMiddleware.js:9-20 | "Bearer  x" (two spaces) gives the empty token, which is falsy and so counts as no token |
| AuthMiddleware.GluedPrefixIsSkipped | server/middlewires/authMiddleware.js:9-12 | "BearerX y" gives the token "y": whatever is glued to the "Bearer" prefix is skipped |
| AuthMiddleware.LaterFieldsAreIgnored | server/middlewires/authMiddleware.js:9-12 | "Bearer x y" gives the token "x": fields after the second are ignored |
| AuthMiddleware.IssuedTokenExtracted | server/middlewires/authMiddleware.js:9-12 | under a wire-safe codec (issued tokens are non-empty and contain no space), a token from generateToken sent as "Bearer <token>" is extracted unchanged and is truthy |
| AuthMiddleware.Protect | server/middlewires/authMiddleware.js:4-47 | every rejection is a 401, never a 500. A missing or empty token gives "Not authorized ..." with no call to verifyToken or getUserById. A codec failure, or a decoded id with no user, gives "Invalid or expired token ..." after exactly those calls. Otherwise `req.user` is getUserById's result for the decoded id and next is called. next is called iff both calls succeeded. Under a sound, wire-safe codec, a token issued for an id continues as that user if the id exists and is a 401 otherwise |

## Left out

- Password hashing internals (bcrypt salt generation, cost factor 10, constant-time compare): `hash` and `compare` are parameters. The random salt is an argument of `RegisterUser`, and only `compare(p, hash(p, s))` is assumed, never the opposite direction.
- Token signing internals (the secret from `process.env.JWT_SECRET`, the expiry `JWT_EXPIRE`, the clock): `sign` and `decode` are parameters. `decode` stands for a verification at the instant of the request, so expiry is one of its failure kinds and is never computed. A missing secret, which makes `jwt.sign` throw, is not modelled.
- A decoded payload without an `id` field is not modelled: `Claims` always carries an id.
- The Postgres pool and SQL text: the table is an in-memory map. Driver and connection errors, which would escape `registerUser` and `loginUser` as raw errors, are not modelled. In getUserById such an error is caught by protect's inner catch (server/middlewires/authMiddleware.js:34-38) and answered 401 "Invalid or expired token. Please login again."; the model's lookup cannot fail, so Protect has no such path. Non-integer ids are excluded by the type `nat`.
- AuthModel.Store.RegisterUser: the column constraints of the table DDL are not modelled. `id SERIAL` (server/data/craeteUsertable.js:6) is a 32-bit sequence whose `nextval` fails after 2147483647, while `nextId` is an unbounded `nat`. `VARCHAR(100) NOT NULL` on name and email (lines 7-8) makes the INSERT throw a raw database error for a value longer than 100 characters. In the model a fresh email always inserts successfully.
- `created_at` (`DEFAULT NOW()`) is the `now` argument of `RegisterUser`.
- Concurrency: each call is atomic. The race between the duplicate check and the INSERT, which only the database's UNIQUE constraint resolves, is not modelled.
- AuthMiddleware.Protect: the outer `catch` that answers 500 "Server error during authentication" is unreachable in the model. The header is an optional string, and `startsWith` and `split` on a string cannot throw. A failure while sending a response is not modelled either.
- AuthMiddleware.Protect: `req.user` and `res` are not objects here. The outcome value says which of the two happens: `req.user` is set and `next()` is called, or one response is sent.
- The Express wiring (`server/index.js`, the route files), the CRUD controller (`server/controller/userController.js`, whose services are never defined), the Joi validator (`server/middlewires/inputValidator.js`) and the `authController.js` that the routes import are not part of this model.
