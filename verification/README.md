# To-do backend: accounts, tokens and the bearer gate

This project models, in Dafny, the part of the to-do list backend that makes
decisions: the user registry with its signup and login endpoints, the issuing
and checking of time-limited bearer tokens, and the bearer gate that stands in
front of every protected route. Everything is a pure function. The `users`
table is a finite map from username to the rest of the row. The clock is an
explicit integer `now`. The configuration (`KEY`, `ALGORITHM`, `EXPIRY_TIME`)
is a `Config` value.

Modules:

- `Wrappers`: `Option` and `Result`.
- `Http`: status codes and the response shape the handlers answer with.
- `Decimal`: the canonical decimal spelling of a natural number and its inverse.
- `TokenCodec`: a stand-in for the signing library's `jwt.encode` and `jwt.decode`.
  A token is three length-prefixed segments: the algorithm, the claims and a
  signature. The signature segment is the key itself. So the codec records which
  key signed a token but has no cryptographic strength. The rest of the model
  relies on two proved facts about it. `TokenCodec.DecodeIff`: decoding
  succeeds with claims `c` exactly when the token is `c` encoded with that key
  and algorithm. `TokenCodec.ForeignTokenFails`: a token signed with one key
  or algorithm does not decode under another.
- `JwtHandler`: `token_response`, `sign_jwt`, `decode_jwt` and `verify_jwt`
  (`backend/utils/jwt_handler.py`).
- `AuthHandler`: `JWTBearer.__call__` as the pure function `Authenticate`
  (`backend/middlewares/auth_handler.py`).
- `UserService`: the lookups, the email test, the credential check and the
  insert (`backend/services/user.py`). It also states the unique-email
  constraint of `backend/models/user.py` as the predicate `EmailsUnique`.
- `UserRouter`: `user_signup` and `user_login` (`backend/routers/user.py`).
- `Scenarios`: properties that run from signup or login through to the gate.

`Http`, `Wrappers`, `Decimal`, `TokenCodec` and `Scenarios` model no source
file of their own.

## Behaviour of the code worth knowing

- Signup conflicts are answered with 403.
- Login tells an unknown username ("Not found user with username …!") apart
  from a wrong password ("Invalid username or password!").
- The gate never resolves the token's username to a user. A signed, unexpired
  token is accepted even when it names no registered user, or no user at all.
  `AuthHandler.AcceptsAnyNamedUser` states this.
- No password hashing happens on these paths. Login compares the submitted
  secret with the stored `password_hash` as plain strings, and signup stores
  whatever the client sent as `password_hash`.
- The user schema makes `email` and `name` optional, but the table makes both
  non-null. A signup without an email passes both conflict checks, because no
  row has a null email. The insert is then refused by the table, and the client
  gets a server error (500), not a 4xx answer. This rests on two assumptions
  listed under "## Left out".
  `UserRouter.SignupWithoutEmailIsServerError` states this.

## Model

| member | source | states |
|---|---|---|
| `TokenCodec.DecodeIff` | backend/utils/jwt_handler.py:26-32 | decoding with the server's key and algorithm yields claims `c` if and only if the token is exactly `c` signed with that key and algorithm; no other string decodes |
| `TokenCodec.ForeignTokenFails` | backend/utils/jwt_handler.py:32-35 | a token signed with a different key or algorithm fails to decode, whatever its claims; every library failure, including a disallowed algorithm, is the one decode failure `None` |
| `JwtHandler.TokenResponse` | backend/utils/jwt_handler.py:13-17 | the transport shape has exactly the fields `access_token` (the given token) and `token_type` (always "bearer") |
| `JwtHandler.SignJwt` | backend/utils/jwt_handler.py:20-27 | the issued response is bearer-typed, and its access token decodes under the server key to the given username with `expires` = issue time + `EXPIRY_TIME` |
| `JwtHandler.DecodeJwt` | backend/utils/jwt_handler.py:30-37 | a non-empty payload is the token's decoded claims, it carries `expires`, and `expires` ≥ `now` (the boundary instant is still valid); the payload is empty whenever every claim set the token could encode lacks `expires` or has `expires` < `now`, which covers decode failures |
| `JwtHandler.VerifyJwt` | backend/utils/jwt_handler.py:40-48 | a token is valid if and only if `decode_jwt` returns a non-empty payload, which holds if and only if the token is some claim set signed with the server's key and algorithm whose `expires` is present and not before `now` |
| `JwtHandler.SignedTokenLifetime` | backend/utils/jwt_handler.py:20-37 | round trip: a token signed at `t` for `u` decodes to `{u, t + EXPIRY_TIME}` and is valid for every `now` ≤ `t + EXPIRY_TIME`, and is empty and invalid for every later `now` |
| `JwtHandler.ForeignKeyTokenInvalid` | backend/utils/jwt_handler.py:32-35 | a token signed with another key under the server's algorithm is never valid; the library's decode error is absorbed into "invalid", not raised |
| `JwtHandler.MissingExpiresInvalid` | backend/utils/jwt_handler.py:33-37 | a correctly signed payload without `expires` yields the empty payload |
| `AuthHandler.Authenticate` | backend/middlewares/auth_handler.py:16-23 | the gate accepts if and only if credentials are present, the scheme is exactly "Bearer" and the token is valid, and then returns the raw token unchanged; it rejects with 403 and "Invalid authentication scheme." for any other scheme, "Invalid or Expired token!" for an invalid token, and "Invalid authorization code." for absent credentials |
| `AuthHandler.SchemeCheckedFirst` | backend/middlewares/auth_handler.py:17-21 | a token the gate would accept under "Bearer" still gets the scheme message under any other scheme word |
| `AuthHandler.SignedTokenAdmitted` | backend/middlewares/auth_handler.py:19-21 | an issued token is accepted up to and including its expiry instant, and is rejected with "Invalid or Expired token!" after it |
| `AuthHandler.AcceptsAnyNamedUser` | backend/middlewares/auth_handler.py:19-21 | the gate does not consult the registry: every correctly signed, unexpired token is accepted, whatever username it names or if it names none |
| `UserService.GetUserByUsername` | backend/services/user.py:11-12 | the primary-key lookup returns the row stored under the username, and nothing if and only if there is none |
| `UserService.ExistsUserIff` | backend/services/user.py:14-16 | `exists_user` applied to the primary-key lookup holds if and only if the username has a row |
| `UserService.ExistsUserEmail` | backend/services/user.py:18-20 | true if and only if the email is present and some stored user has exactly that email; an absent email matches no row |
| `UserService.ValidateCredentials` | backend/services/user.py:22-30 | false for a username with no row; true if and only if the row exists and its `password_hash` equals the supplied string exactly |
| `UserService.CreateUser` | backend/services/user.py:32-35 | the insert succeeds if and only if the username is new, email and name are present, and no row has that email; it then adds exactly the one key, stores the input's fields under it, and leaves every other row untouched |
| `UserService.CreateUserAddsOne` | backend/services/user.py:32-35 | a successful insert grows the table by exactly one row |
| `UserService.CreateUserKeepsEmailsUnique` | backend/models/user.py:23 | a successful insert keeps every email unique |
| `UserRouter.UserSignup` | backend/routers/user.py:18-47 | a taken username gets 403 with `Username-Conflict` and leaves the registry unchanged, even when the email is also taken; otherwise a taken email gets 403 with `Email-Conflict` and nothing is inserted; otherwise, with email and name present, exactly one row is added under the username and the response is 201 whose body holds username, email and name but never `password_hash`; with either missing, the table refuses the insert and the answer is 500; the registry changes only on 201 |
| `UserRouter.UserLogin` | backend/routers/user.py:50-75 | the status is 200 if and only if the user exists and the stored `password_hash` equals the submitted secret; an unknown username gets 403 "Not found user…", a wrong secret gets 403 "Invalid username or password!", and neither carries a token; success returns exactly `sign_jwt(username)`; the registry is an input only, so login cannot modify it |
| `UserRouter.SecondSignupRefused` | backend/routers/user.py:23-32 | after a successful signup, a second signup with the same username is refused with the username conflict, whatever its email, and the first user's row is unchanged |
| `UserRouter.SignupKeepsEmailsUnique` | backend/routers/user.py:34-47 | because the email check runs before the insert, signup preserves the unique-email invariant of the registry |
| `UserRouter.SignupThenLogin` | backend/routers/user.py:43-75 | after a successful signup, logging in with the same secret returns 200 and a token for that username, and any other secret is refused as a wrong password |
| `UserRouter.SignupWithoutEmailIsServerError` | backend/routers/user.py:34-44 | a signup with a new username and no email passes both conflict checks and ends with status 500 and the registry unchanged |
| `Scenarios.LoginTokenOpensGate` | backend/routers/user.py:75 | the token a successful login returns at `now` passes the bearer gate at a later time if and only if that time is at most `now + EXPIRY_TIME` |
| `Scenarios.SignupLoginAccess` | backend/routers/user.py:43-75 | signup, then login with the same secret, then a request before expiry: the login succeeds and the gate accepts its token |

## Left out

- The list and to-do endpoints and services: they are queries and inserts with no decision logic. No ownership check exists in them, so none is modelled.
- Storage: sessions, the ORM, and the check-then-insert race between concurrent signups. The table constraints appear only as `CreateUser`'s integrity error. The `registration_time` column is filled in by the database's clock and is not modelled.
- Cryptography: HMAC signing inside the signing library is replaced by `TokenCodec`, whose signature is the key itself. Resistance to tampering is therefore not modelled. Password hashing in `backend/utils/hash_handler.py` is not modelled either, because no modelled path calls it.
- TokenCodec.ForeignTokenFails: signing-library errors other than a decode error, for example a disallowed algorithm in the header, are treated as decode failures. The library may instead raise them out of `decode_jwt` and the gate, and then the request fails without the gate's 403. The model does not show that outcome.
- `JwtHandler.DecodeJwt`: claims other than `username` and `expires`, and an `expires` that is not a number, are not modelled.
- Time: `time.time()` is a float. The model uses a whole-second integer `now`, so expiry instants are whole seconds.
- Framework: routing, async dispatch, and `HTTPBearer`'s own parsing of the `Authorization` header. That parser already refuses a missing header or a non-bearer scheme before `JWTBearer` sees the request. `Authenticate` takes its result as an optional `Credentials`.
- UserRouter.UserSignup: `UserRegistration`, imported at `backend/routers/user.py:10`, is not defined in `backend/schemas/user.py`, which defines only `User`. `Registration` assumes `User`'s optional `email` and `name`. The 500 answer to a refused insert is produced by the application's `ErrorHandler` middleware, installed at `backend/main.py:14`. That middleware is not part of this model, so only the status is promised, not the body.
- Request validation: the field-length limits of the request schemas. The `UserRegistration` and `UserLogin` schemas are not part of this model. `Registration` follows the user schema in `backend/schemas/user.py`, with `email` and `name` optional. `Login` carries the two fields the handler reads.
- `backend/middlewares/jwt_handler.py` and `backend/middlewares/jwt_bearer.py`: earlier revisions that no router uses.
- `backend/main.py`, the database configuration and the web front end.
