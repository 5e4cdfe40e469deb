# Chirpy core, modelled in Dafny

Chirpy is a small Go HTTP service for short messages ("chirps"). Users log in
and get a one-hour JWT access token and a 60-day refresh token. The refresh
token can be exchanged for new access tokens and can be revoked. Chirps are
checked against a 140-character limit and cleaned by a profanity filter
before they are stored.

This project models the core of that service and proves what it promises:

- **Refresh-token sessions** (`auth_handler.dfy`, module `AuthHandler`).
  The class `AuthHandler` holds the users table (keyed by email) and the
  refresh-token table (`token -> {userId, expiresAt, revokedAt?}`) as map
  fields. `LoginHandler` and `RevokeRefreshTokenHandler` are methods that
  change the table. `RefreshTokenHandler` and `ValidateRefreshToken` are
  read-only functions.
- **Token helpers** (`jwt.dfy`, module `Jwt`). `GetBearerToken` is modelled
  concretely. `MakeJWT`/`ValidateJWT` are an HS256 JWT codec (section 3.2 of
  RFC 7518) with the claims `iss`, `sub`, `iat` and `exp` (sections 4.1.1,
  4.1.2, 4.1.6 and 4.1.4 of RFC 7519). The MAC and the wire format are
  function parameters (`Jwt.Primitives`). What the model assumes of them is
  the predicate `Jwt.Sound`, passed as a precondition: parsing undoes
  serialising, the empty string is not a token, and a different secret
  gives a different tag. The last is an idealisation of HMAC-SHA256, which
  zero-pads short keys and hashes long ones: the secrets "k" and "k\0"
  give the same tag. `Jwt.WrongSecretRejected` holds only for secrets the
  MAC tells apart.
- **Refresh-token rendering** (`refresh_token.dfy`, `hex.dfy`). A 32-byte
  array is filled from an arbitrary entropy sequence. The bytes read are
  then rendered as lower-case base16 (section 8 of RFC 4648).
- **UUIDs** (`uuids.dfy`). 16-byte identifiers, their canonical 36-character
  rendering, and the parser for that form.
- **Chirp validation and the profanity filter** (`text.dfy`,
  `profanity.dfy`, `chirpy_handler.dfy`, `validate_chirp.dfy`). Strings are
  sequences of code points. The UTF-8 byte length follows section 3 of
  RFC 3629. `Profanity.Censor` is the specification of `replaceBadWords`.
  Both copies of `replaceBadWords` are loops proved equal to it. The two
  length gates differ: `CreateChirpy` counts code points, while the
  stand-alone validator counts bytes. The model shows this difference.

The database, the clock, the random source, bcrypt and the JWT library are
parameters. Store queries appear as function parameters or as the
`faults: set<Query>` parameter (the queries that fail with a driver error
on this request). The clock is an integer `now` in seconds. The random
source is the `entropy` byte sequence. An `Authorization` header is its
string value, with `""` for an absent header. A JSON body that does not
decode is `None`.

In these places the model follows the code as written:

- `validateRefreshToken` accepts a refresh token whose expiry equals the
  current time, because the code tests `ExpiresAt.Before(now)`
  (`AuthHandler.ExpiryBoundary`).
- A failed insert of a refresh token calls `log.Fatalf`, which ends the
  process. It is modelled as the reply `Abort("Refresh Token  error")`, with
  the table unchanged.
- `MakeJWT` never reports an error, so the `Fatalf` branches after it in
  `LoginHandler` and `RefreshTokenHandler` cannot be taken and are not
  modelled.
- `GetChirpyById` answers the store row as it is, not the mapped
  `ChirpResponse`.

## Model

| member | source | states |
|---|---|---|
| Hex.Encode | internal/auth/refresh_token.go:11 | hex.EncodeToString: the rendering has exactly two characters per byte |
| Hex.EncodeAt | internal/auth/refresh_token.go:11 | byte `i` becomes characters `2i` (high nibble) and `2i+1` (low nibble), as section 8 of RFC 4648 orders them |
| Hex.EncodeIsLowerHex | internal/auth/refresh_token.go:11 | every character of the rendering is in `0-9a-f` |
| Hex.DecodeEncode | internal/auth/refresh_token.go:11 | decoding the rendering gives the bytes back |
| Hex.EncodeInjective | internal/auth/refresh_token.go:11 | distinct byte buffers give distinct renderings |
| Hex.EncodeAppend | internal/auth/refresh_token.go:11 | the rendering of a concatenation is the concatenation of the renderings |
| RefreshToken.ReadRandom | internal/auth/refresh_token.go:9-10 | rand.Read into the 32-byte buffer: reports `n = min(available, 32)`, fills the first `n` bytes from the source and leaves the rest as they were |
| RefreshToken.MakeRefreshToken | internal/auth/refresh_token.go:8-12 | the token is the hex of the first `n` bytes read, has length `2n <= 64`, is all lower-case hex, decodes back to those bytes, and never fails |
| Uuids.ToString | internal/auth/jwt.go:18 | uuid.UUID.String gives 36 characters |
| Uuids.Parse | internal/handlers/chirpyHandler.go:128 | uuid.Parse succeeds if and only if the string has 36 characters, dashes at 8, 13, 18 and 23, and 32 hex digits of either case elsewhere; the result is the bytes those digits decode to |
| Uuids.ParseToString | internal/auth/jwt.go:18-35 | parsing the rendering of a UUID gives the UUID back, so the subject MakeJWT writes is the subject ValidateJWT reads |
| Uuids.ToStringInjective | internal/auth/jwt.go:18 | distinct UUIDs render to distinct subjects |
| Jwt.IssuedClaims | internal/auth/jwt.go:14-19 | the claims carry issuer "chirpy", a subject that parses back to the user, `iat = now`, and an `exp` exactly `expiresIn` after `iat` |
| Jwt.MakeJWT | internal/auth/jwt.go:13-23 | the token parses to claims with issuer "chirpy", subject `id.String()`, `iat = now`, `exp = now + expiresIn`, and a tag that is the MAC of those claims under the secret; no error result |
| Jwt.ValidateJWT | internal/auth/jwt.go:25-41 | a token is accepted if and only if it parses, its tag is the MAC under the secret, it has not expired (`now < exp`) and its subject parses as a UUID, which is then the result; every failure yields `uuid.Nil` with the error of the first failing check (malformed, bad signature, expired, bad subject) |
| Jwt.RoundTrip | internal/auth/jwt.go:13-40 | a token made with a secret validates with that secret to the same user until `now + expiresIn` |
| Jwt.WrongSecretRejected | internal/auth/jwt_test.go:32-38 | a token made with one secret is refused with a signature error under any other secret |
| Jwt.ExpiredRejected | internal/auth/jwt.go:27-33 | a correctly signed token is refused as expired from its `exp` on |
| Jwt.BadSubjectRejected | internal/auth/jwt.go:35-38 | a correctly signed, unexpired token whose subject is not a UUID is refused for its subject, with `uuid.Nil` |
| Jwt.EmptyTokenRejected | internal/auth/jwt.go:27-33 | the empty string never validates |
| Jwt.GetBearerToken | internal/auth/jwt.go:43-50 | succeeds exactly when the header starts with the case-sensitive "Bearer ", and then the header is "Bearer " followed by the result; otherwise `""` with "invalid token" |
| Jwt.BearerRoundTrip | internal/auth/jwt_test.go:49-62 | `GetBearerToken("Bearer " + t)` is `t` with no error, for every `t` |
| Jwt.BearerEdgeCases | internal/auth/jwt.go:44-49 | `""` and `"bearer x"` fail; `"Bearer "` gives `""`; `"Bearer Bearer x"` gives `"Bearer x"` (one prefix removed) |
| Text.ToLower | internal/handlers/chirpyHandler.go:151 | strings.ToLower keeps the length and lower-cases each character on its own |
| Text.Split | internal/handlers/chirpyHandler.go:152 | strings.Split(s, " ") gives one more piece than `s` has spaces, so at least one |
| Text.Join | internal/handlers/chirpyHandler.go:159 | strings.Join(ws, " ") of a non-empty list is as long as the words plus one space between each two |
| Text.Utf8Len | validate_chirp.go:27 | len of the UTF-8 encoding; on ASCII text it equals the number of characters |
| Text.LowerIdempotent | internal/handlers/chirpyHandler.go:151 | lower-casing twice is lower-casing once |
| Text.JoinSplit | internal/handlers/chirpyHandler.go:152-159 | `Join(Split(s, " "), " ") == s` |
| Text.SplitJoin | internal/handlers/chirpyHandler.go:152-159 | splitting a join of space-free words gives the words back |
| Text.SplitLower | internal/handlers/chirpyHandler.go:151-152 | word `i` of the lower-cased text is the lower-cased word `i` |
| Text.Utf8LenBounds | validate_chirp.go:27 | a string has at least as many UTF-8 bytes as code points, and at most four times as many |
| Profanity.Censor | internal/handlers/chirpyHandler.go:149-160 | the specification of replaceBadWords; its result is already lower case |
| Profanity.CensoredWords | internal/handlers/chirpyHandler.go:150-158 | the output has as many words as the input, and word `i` is "****" if the lower-cased input word `i` is kerfuffle, sharbert or fornax, and that lower-cased word otherwise |
| Profanity.MaskedExactly | validate_chirp.go:38-46 | output word `i` is "****" if and only if the lower-cased input word `i` is a bad word or was "****" already |
| Profanity.WordCountPreserved | internal/handlers/chirpyHandler.go:152-159 | the number of space-separated words does not change |
| Profanity.MatchIgnoresCase | internal/handlers/chirpyHandler.go:151-156 | "Kerfuffle" is cleaned to "****" |
| Profanity.MatchWholeWordsOnly | internal/handlers/chirpyHandler.go:152-156 | "kerfuffle!" is left as it is |
| Profanity.Idempotent | internal/handlers/chirpyHandler.go:149-160 | cleaning a cleaned chirp changes nothing |
| Profanity.CleanChirpOnlyLowered | validate_chirp.go:39-47 | a chirp without bad words is only lower-cased |
| ChirpyHandler.MapChirp | internal/handlers/chirpyHandler.go:38-46 | every field of the row is copied unchanged into the response |
| ChirpyHandler.MapChirps | internal/handlers/chirpyHandler.go:48-56 | the result has the input's length and element `i` is `mapChirp(rows[i])` |
| ChirpyHandler.ReplaceBadWords | internal/handlers/chirpyHandler.go:149-160 | the loop that overwrites bad words in place computes `Profanity.Censor` |
| ChirpyHandler.TooLong | internal/handlers/chirpyHandler.go:81 | the gate counts code points; on ASCII text it decides as a gate on UTF-8 bytes would |
| ChirpyHandler.CreateChirpy | internal/handlers/chirpyHandler.go:65-107 | 401 "Unauthorized" whenever the token does not validate; an insert is issued only for a decoded body within the limit, holds the cleaned body and is filed under the id of the user the store found for the token's subject; 201 carries the mapped inserted row |
| ChirpyHandler.CreateChirpyStatus | internal/handlers/chirpyHandler.go:66-106 | 401 exactly when the token fails, 400 exactly for an undecodable or over-long body, 404 exactly for a failed user lookup (a store error included), 500 exactly when the insert fails, 201 otherwise; the insert is issued exactly when the user lookup succeeds |
| ChirpyHandler.MissingHeaderUnauthorized | internal/handlers/chirpyHandler.go:66-72 | without a "Bearer " header the answer is 401 before the body is read: the overwritten GetBearerToken error leaves `""`, which does not validate |
| ChirpyHandler.OverLimitRejected | internal/handlers/chirpyHandler.go:81-84 | with a valid token, a body of more than 140 code points is refused with 400 and nothing is written |
| ChirpyHandler.AtLimitStored | internal/handlers/chirpyHandler.go:81-106 | a body of exactly 140 code points from a known user with a fresh token is stored cleaned and answered 201 |
| ChirpyHandler.GetAllChirps | internal/handlers/chirpyHandler.go:109-119 | 500 "Could not fetch chirps" on a store error, otherwise 200 with every row mapped in order |
| ChirpyHandler.GetChirpyById | internal/handlers/chirpyHandler.go:121-147 | empty id 400 "Chirp ID is required", non-UUID 400 "Invalid UUID format", no row 404 "Chirp Not Found", store error 500 "Could not retrieve chirp", otherwise 200 with the row |
| ChirpyHandler.GetChirpyStatus | internal/handlers/chirpyHandler.go:122-144 | 400 exactly for ids that are not UUIDs, 404 exactly when the store has no row, 500 exactly on a store error |
| ValidateChirp.ReplaceBadWords | validate_chirp.go:37-48 | this file's copy of the loop also computes `Profanity.Censor` |
| ValidateChirp.HandlerValidateChirp | validate_chirp.go:10-35 | 400 "Something went wrong" for an undecodable body, 400 "Chirp is too long" above 140 bytes, otherwise 200 with exactly the cleaned body |
| ValidateChirp.TooLong | validate_chirp.go:27 | the gate counts UTF-8 bytes, and refuses every body CreateChirpy's code-point gate refuses |
| ValidateChirp.GatesDisagree | validate_chirp.go:27-30 | 71 copies of U+00E9 (142 bytes) are refused by the byte gate but accepted by CreateChirpy's gate |
| AuthHandler.ValidateRefreshToken | internal/handlers/authHandler.go:119-133 | the record's user is returned if and only if the read succeeds, the record exists, it is not revoked and its expiry is not before now; otherwise `uuid.Nil` with an error |
| AuthHandler.Revoked | internal/handlers/authHandler.go:115 | RevokeRefreshToken sets `revokedAt` on the matching record only, and no key is added or removed |
| AuthHandler.ExpiryBoundary | internal/handlers/authHandler.go:128 | a record expiring exactly now is accepted; one that expired a second ago is refused |
| AuthHandler.RevokedNeverValidates | internal/handlers/authHandler.go:115-130 | after a revoke the token never validates again, and every other token validates as before |
| AuthHandler.RevokeTwice | internal/handlers/authHandler.go:115 | two revokes leave the table as one revoke at the later time |
| AuthHandler.AuthHandler.constructor | internal/handlers/authHandler.go:25-27 | the handler starts with the given tables, secret and primitives |
| AuthHandler.AuthHandler.Authenticate | internal/handlers/authHandler.go:47-62 | a user is found if and only if the email is known and the password matches its hash |
| AuthHandler.AuthHandler.LoginHandler | internal/handlers/authHandler.go:38-83 | 400 for an undecodable body; 500 on a user-store error; the same 401 "unauthorized" for an unknown email and a wrong password; abort on a failed insert; otherwise 200 with the user and both tokens, and exactly one new record (owned by the user, expiring in 60 days, not revoked) with the other records unchanged |
| AuthHandler.AuthHandler.RefreshTokenHandler | internal/handlers/authHandler.go:85-107 | reads the table only; 401 "Access toke is required" without a bearer token; 401 with the validation error; otherwise 200 with an access token for the record's user |
| AuthHandler.AuthHandler.RevokeRefreshTokenHandler | internal/handlers/authHandler.go:109-117 | 400 "invalid token" with the table unchanged without a bearer token; otherwise 204 whether or not the token exists, with the record revoked unless the store fails |
| AuthHandler.RefreshIssuesOwnerToken | internal/handlers/authHandler.go:97-106 | the access token a successful refresh hands out validates to the owner of the refresh token for the next hour |
| AuthHandler.RefreshStoreErrorUnauthorized | internal/handlers/authHandler.go:91-94 | a store error while reading the refresh token is answered 401 "Unexpected error", not 500 |
| AuthHandler.SessionLifecycle | internal/handlers/authHandler.go:38-133 | login, then refresh to an access token naming the user, revoke (204), a refused refresh (401 "Refresh token is no longer valid") and a second revoke that still answers 204 |

## Left out

- main.go: routing, environment loading, the database connection and the hit counter (wiring and a concurrency primitive).
- internal/utils/response.go: JSON marshalling and writing responses. Replies are values, and a marshalling failure is not modelled.
- internal/handlers/userHandler.go: user creation is bcrypt plus an insert, with no logic of its own.
- internal/mappers/userMappers.go: `MapUserLogin` is not part of this model. `LoginResponse` carries the user and both tokens instead.
- HMAC-SHA256, base64url and JSON inside golang-jwt are the parameters of `Jwt.Primitives`. The library's other checks (algorithm choice, `nbf`, `iat`, `aud`) are not modelled.
- Jwt.MakeJWT: reads the clock once. The code calls `time.Now()` twice and NumericDate truncates to seconds; both are left out.
- `CheckPasswordHash` (bcrypt) is the function field `checkPasswordHash`. Its error result counts as a mismatch, as the code does.
- `crypto/rand` is the `entropy` parameter, and read errors are swallowed as in the code.
- The SQL of `CreateRefreshToken` and `RevokeRefreshToken` is not part of this model. The insert is assumed to fail on a driver error or an existing token, and the revoke to set `revokedAt` on the matching record.
- Time is whole seconds. `AddDate(0, 0, 60)` is a fixed 60 days of 86400 seconds, without calendar or time-zone effects.
- Text.ToLower: lower-cases ASCII letters only, not the full Unicode case tables (for example the Kelvin sign).
- Uuids.Parse: accepts only the canonical 36-character form. uuid.Parse also accepts 32 bare digits, braces and the `urn:uuid:` prefix.
- Strings are sequences of code points, so invalid UTF-8 in a request body cannot be expressed.
- `log.Fatalf` ends the process. Here it is the reply `Abort` and nothing after it is modelled.
- Logging through `log.Logger` is left out.
- Handlers serve one request at a time here. Concurrent requests against the store are not modelled.
