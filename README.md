# Chirpy authentication core, modelled in Dafny

Chirpy (jthughes/chirpynetwork) is a small social-posting API written in Go.
This project models the part of it that carries real logic:

- the parsing of the `Authorization` header (`GetBearerToken`, `GetAPIKey`);
- the access tokens: JWTs signed with HS256, carrying the issuer "chirpy", the
  user id as subject, the issue time and an expiry one hour later, and
  `ValidateJWT`'s ordered checks;
- the refresh tokens: 32 random bytes in lower-case hex, stored for sixty days,
  and the login, refresh and revoke handlers over that store;
- the chirp rules: the profanity filter `clean_message`, the 140-byte limit and
  the order of the checks when a chirp is created;
- the Polka webhook that upgrades a user to Chirpy Red;
- the development-only reset of the users table.

The model follows the code as written, except the reset handler's reply
(see "## Findings"). These behaviours of the code are
stated and proved in the model:

- The header test in `GetBearerToken`/`GetAPIKey` is "fewer or more than two
  parts AND a foreign first part". So any two-part header is accepted whatever
  its scheme, and `"Bearer a b"` yields `"a"`. The lone header `"Bearer"` passes
  the test and indexes past the end of the split, which panics (`Auth.Panic`
  results). `Auth.WellFormed` is the two-part, scheme-first test, and
  `Auth.AcceptsExactlyTheseMalformed` says exactly where the code's test and it
  differ.
- The header is split on every space, not only on the first one.
- A second revocation of the same token, sent after the first has been
  answered, fails with 404: `handlerRevoke` sends
  every failure of `authenticateRefresh`, "revoked" included, to its 404 branch
  (`Server.RevokeTwice`).
- A refresh token is usable while its expiry is *not before* now, so a token
  whose expiry equals now is still accepted (`Sessions.AcceptedAtExpiryInstant`).
- An expired and a revoked refresh token both produce "refresh token expired".
- `ValidateJWT` reads the clock twice: the library compares `exp` with its own
  reading, and `ValidateJWT` compares it again with `time.Now()`. The second
  check answers "token expired" exactly when the first reading is before `exp`
  and the second after it; with equal readings it never fires
  (`Jwt.ValidateJWT`, `Jwt.MadeTokenLifetime`).
- `handlerResetUsers` has no `return` after it reports a failed delete (see
  "## Findings").

## How things are represented

- Go's `error` and run-time panics are a `Result` with three cases: `Ok`,
  `Err` with a typed error, and `Panic`. A handler that panics answers
  `Aborted`: the server recovers and drops the connection.
- Times are whole seconds, passed in by the caller. `ValidateJWT` and its
  callers take two readings, `libraryNow` for the library's check and `now`
  for `ValidateJWT`'s own. Every other handler takes one `now` for all its
  readings.
- An absent header is the empty string, as `http.Header.Get` returns it.
- HMAC-SHA256 is a parameter `hmac: (key, message) -> tag`. Nothing is assumed
  about it. The one property that needs a MAC to be a MAC, rejection under a
  wrong secret, takes "the two secrets give different tags" as a hypothesis.
- The token's wire format is a compact stand-in for base64url JSON with the
  same structure: three segments joined by `.`, each hex-encoded. This covers
  the header naming the algorithm, the four registered claims and the tag. What
  matters is that the stand-in decodes back to what was encoded
  (`Jose.DecodeClaimsEncode`).
- The database is three maps, keyed by id or by token, held by
  `Server.ApiConfig`. The handlers update these maps in place. A lookup that
  finds no row is the "not found" error, and an insert whose key is taken is
  the insert error.
- bcrypt's comparison is a parameter `checkPassword(password, hash)`.
  `rand.Read` becomes the 32 `random` bytes, and `uuid.New()` the `chirpId`
  argument.
- Responses are the status of the first `WriteHeader` plus the JSON documents
  written, in order. An error document carries the description the handler
  passes to `ResponseError`.

## Model

| member | source | states |
|---|---|---|
| Text.Split | internal/auth/auth.go:14 | `strings.Split` always yields at least one part, and no part contains the separator |
| Text.JoinSplit | chirps.go:35-44 | joining the parts of a split with the same separator gives back the original string |
| Text.SplitJoin | chirps.go:44 | splitting a join of separator-free parts gives back exactly those parts |
| Text.JoinAvoids | chirps.go:44 | a character that is neither the separator nor in any part is not in the join |
| Text.ToLower | chirps.go:38 | the result has the same length and no upper-case ASCII letter; each such letter becomes its lower-case partner and every other character stays in place |
| Text.ToLowerIdempotent | chirps.go:38 | lower-casing twice is lower-casing once |
| Text.Utf8LengthBounds | chirps.go:64 | the UTF-8 byte length lies between the character count and four times it, and equals the count exactly for ASCII text |
| Base16.Encode | internal/auth/jwt.go:84 | `hex.EncodeToString` gives two lower-case hex digits per byte |
| Base16.DecodeEncode | internal/auth/jwt.go:84 | hex decoding inverts hex encoding for every byte string |
| Base16.DecodeAccepts | internal/auth/jwt.go:84 | hex decoding succeeds exactly on even-length strings of hex digits of either case |
| Uuids.ToString | internal/auth/jwt.go:26 | `UUID.String` is 36 characters: dashes at 8, 13, 18 and 23 and lower-case hex digits everywhere else |
| Uuids.FromDigits | internal/auth/jwt.go:71 | 32 characters read as a UUID exactly when all are hex digits |
| Uuids.Parse | internal/auth/jwt.go:71 | `uuid.Parse` succeeds exactly on the canonical dashed 36-character form and on 32 bare hex digits, either case |
| Uuids.ParseToString | internal/auth/jwt.go:71 | `uuid.Parse` of a UUID's canonical string is that UUID, so the subject written by `MakeJWT` reads back |
| Auth.ExtractCredential | internal/auth/auth.go:9-20 | the missing-header error is returned exactly when the header is empty, and no returned credential contains a space |
| Auth.GetBearerToken | internal/auth/auth.go:9-20 | empty header gives "missing authorization header"; every other error is "invalid authorization header"; a token holds no space |
| Auth.GetAPIKey | internal/auth/auth.go:22-33 | the same shape with scheme "ApiKey" and the error "invalid apikey header" |
| Auth.BearerRoundTrip | internal/auth/auth_test.go:12-32 | `"Bearer " + t` yields exactly `t` for every token `t` without spaces, the empty one included |
| Auth.ApiKeyRoundTrip | internal/auth/auth.go:27-32 | `"ApiKey " + k` yields exactly `k` for every key without spaces |
| Auth.TwoPartsAccepted | internal/auth/auth.go:16-19 | any two-part header yields its second part, whatever the scheme word |
| Auth.SinglePartRejected | internal/auth/auth.go:16-17 | a non-empty single-part header other than the scheme gets the extractor's "invalid" error |
| Auth.BareTokenRejected | internal/auth/auth_test.go:58-79 | a bare token as bearer header is rejected with "invalid authorization header" |
| Auth.BareApiKeyRejected | internal/auth/auth.go:29-30 | a bare key as API-key header is rejected with the API-key error |
| Auth.PanicsExactlyOnBareScheme | internal/auth/auth.go:16-19 | extraction panics if and only if the header is the scheme alone |
| Auth.LoneSchemePanics | internal/auth/auth.go:14-19 | the headers "Bearer" and "ApiKey" on their own index past the end of the split |
| Auth.ExtraPartsDropped | internal/auth/auth.go:16-19 | `"Bearer a b"` and any longer header with the scheme first yields the second part |
| Auth.WellFormedAccepted | internal/auth/auth.go:16-19 | every header of exactly two parts with the scheme first yields its second part |
| Auth.AcceptsExactlyTheseMalformed | internal/auth/auth.go:16 | the code lets a malformed header through iff it has two parts with a foreign scheme or another part count with the scheme first, and rejects iff both tests fail |
| Jose.SignSegments | internal/auth/jwt.go:20-29 | a signed token splits on '.' into exactly the header naming HS256, the claim set and the encoded HMAC tag of the two under the secret, and contains no space |
| Jose.DecodeClaimsEncode | internal/auth/jwt.go:20-29 | the claims segment decodes back to the issuer, subject, issue and expiry times encoded |
| Jose.ParseWithClaims | internal/auth/jwt.go:38-47 | parsing never panics; for any token string, an accepted token has three segments, a header naming HS256, a claim set decoding to the claims returned, a signature segment that decodes to the HMAC tag of the first two segments under the secret, and any `exp` after now |
| Jose.SignedTokenParses | internal/auth/jwt.go:38-47 | a token signed under the secret parses to its claims unless its `exp` is not after now, when it is "token is expired" |
| Jose.OtherKeyRejected | internal/auth/jwt_test.go:28-44 | under a key whose tag differs from the signer's, parsing fails with "signature is invalid" |
| Jose.AppendedRejected | internal/auth/auth_test.go:45-54 | a signed token with characters appended is malformed or has an invalid signature |
| Jwt.MakeJWT | internal/auth/jwt.go:18-34 | the token has three segments whose claims are issuer "chirpy", subject the user id string, issued now, expiring `expiresIn` later; it holds no space |
| Jwt.MakeAccessToken | internal/auth/jwt.go:13-16 | the access token expires exactly 3600 s after it is made |
| Jwt.ValidateJWT | internal/auth/jwt.go:36-76 | an accepted token verified under the secret at the library's reading of the clock, names issuer "chirpy", expires after that reading and not before `ValidateJWT`'s own, and its subject parses to the UUID returned; "token expired" is answered iff the token is otherwise good and its `exp` lies strictly between the two readings |
| Jwt.SignedTokenCheckOrder | internal/auth/jwt.go:36-76 | for a signed token, `ValidateJWT` checks expiry (in the library), then issuer, then presence of `exp`, then expiry again, then the subject, and returns the parsed UUID |
| Jwt.MadeTokenLifetime | internal/auth/jwt.go:18-76 | a token made for a user validates to that user iff neither reading of the clock is past its expiry; the library refuses it iff its reading is at or past the expiry; "token expired" iff the expiry lies between the two readings |
| Jwt.ValidateMakeJWT | internal/auth/jwt_test.go:11-26 | round trip: a token made for a user validates under the same secret to that user while the library's reading is before its expiry and the second reading is not after it |
| Jwt.ExpiredJWTRejected | internal/auth/jwt_test.go:46-70 | once the library's reading of the clock reaches the expiry, the token fails with "token is expired" |
| Jwt.AccessTokenLifetime | internal/auth/jwt.go:13-16 | an access token validates to its user iff neither reading is more than an hour after issue; the library refuses it iff its reading is at least an hour after issue; "token expired" iff the hour ends between the readings |
| Jwt.OtherSecretRejected | internal/auth/jwt_test.go:28-44 | a token validated under another secret fails at the parse step with "signature is invalid" |
| Jwt.AppendedTokenRejected | internal/auth/auth_test.go:34-56 | a token with characters appended fails validation at the parse step |
| Jwt.MakeRefreshToken | internal/auth/jwt.go:78-86 | 64 lower-case hex digits that decode back to the 32 random bytes |
| Chirps.CleanMessage | chirps.go:33-45 | the loop builds exactly the cleaned message `Chirps.Cleaned` |
| Chirps.Cleaned | chirps.go:33-45 | the words of the cleaned message are the original words, each censored or kept |
| Chirps.WordByWord | main.go:81-93 | word count is preserved; word i is "****" iff it lower-cases to "kerfuffle", "sharbert" or "fornax", and otherwise is the original word, case included |
| Chirps.CleanWithoutProfanity | chirps.go:33-45 | a message with no listed word is returned unchanged |
| Chirps.CleanIdempotent | chirps.go:33-45 | cleaning a cleaned message changes nothing |
| Chirps.AttachedPunctuationKept | chirps.go:38 | a word with a non-letter attached, such as "kerfuffle!", is kept verbatim |
| Chirps.LengthLimit | chirps.go:64-67 | over 140 characters is always too long; an ASCII body is too long iff it has over 140 characters, so exactly 140 is accepted |
| Chirps.ValidateChirp | chirps.go:47-73 | a body over 140 bytes gets 400 "Chirp is too long"; any other gets 200 with the cleaned body |
| Chirps.NewChirpRejection | chirps.go:90-99 | an unknown author is "User does not exist" whatever the body; a known author with a long body is "Chirp is too long"; otherwise nothing |
| Sessions.AuthenticateRequest | authentication.go:16-26 | a header error becomes "access token not found", a validation error "invalid access token", and success returns `ValidateJWT`'s user |
| Sessions.AccessTokenAuthenticates | authentication.go:21-25 | a request bearing a freshly made access token authenticates as its user while neither reading of the clock is more than an hour after issue, and is an invalid access token once either is |
| Sessions.AuthenticateRefresh | authentication.go:28-41 | succeeds iff the bearer token names a stored record that is not expired before now and not revoked, returning that record's token and user; each failure kind is tied to its cause |
| Sessions.AcceptedAtExpiryInstant | authentication.go:37 | an unrevoked refresh token is accepted at the very second its record expires and is "refresh token expired" one second later |
| Sessions.RefreshTokenLifetime | authentication.go:37 | a token stored at login authenticates as its user up to and including 60 days later and is "refresh token expired" after |
| Sessions.Revoked | authentication.go:143-149 | revocation keeps the same tokens, sets the target's `revoked_at` to now and leaves its other columns and every other record as they were |
| Sessions.RevokedNeverAuthenticates | authentication.go:143-149 | after revocation the token fails with "refresh token expired" at any time |
| Sessions.RevokeTouchesOnlyTarget | authentication.go:143-149 | revoking one token leaves the outcome for every header naming another unchanged |
| Sessions.UnusableStaysUnusable | authentication.go:37 | an expired or revoked record stays unusable at every later time |
| Sessions.FailureIsPermanent | authentication.go:28-41 | a failed refresh authentication on a store fails again at every later time |
| Sessions.UserByEmail | authentication.go:58 | the user found has that email and is in the table; none is found iff no user has it |
| Sessions.CheckLogin | authentication.go:58-65 | a user is returned only if its email matches and the password checks; none iff the email is unknown or the password is wrong |
| Sessions.CheckLoginOf | authentication.go:58-61 | with emails unique, the check is decided by the one user holding the email |
| Webhooks.WebhookGate | webhooks.go:22-40 | a header error or a different key refuses whatever the event; with the right key, "user.upgraded" is applied and every other event ignored |
| Webhooks.ApiKeyHeaderPasses | webhooks.go:22-26 | `"ApiKey " + key` passes the gate |
| Webhooks.AnySchemePasses | webhooks.go:22-26 | the right key passes under any scheme word, since a two-part header's scheme is not checked |
| Webhooks.Upgraded | webhooks.go:42-45 | after the upgrade the user is on Chirpy Red; every other field and every other user is unchanged |
| Webhooks.UpgradeIdempotent | webhooks.go:42-45 | upgrading twice equals upgrading once, and upgrading a Chirpy Red user changes none of the modelled columns |
| Webhooks.UpgradeKeepsConsistency | webhooks.go:42-45 | the table stays keyed by id with unique emails |
| Admin.ResetUsersReplyAsWritten | main.go:326-346 | the code's answer: 403 off "dev"; on "dev" the `deleted: true` document is written even when the delete failed |
| Admin.FailedResetClaimsDeletion | main.go:337-345 | after a failed delete the answer is 500 and carries both the error and `deleted: true` |
| Admin.ResetUsersReply | main.go:326-346 | with the missing `return` supplied, every answer is one document |
| Admin.ResetReportsTruthfully | main.go:332-335 | 403 iff the platform is not exactly "dev"; `deleted: true` and 200 iff on "dev" the delete succeeded; otherwise as written |
| Server.RefreshTokenHasNoSpace | internal/auth/jwt.go:84 | a refresh token contains no space, so it can be sent back as a bearer header |
| Server.ApiConfig.CheckCredentials | authentication.go:58-65 | the user lookup and password check return exactly `Sessions.CheckLogin` |
| Server.ApiConfig.Login | authentication.go:43-111 | unknown email and wrong password give the same 401 "Incorrect email or password" with no change; otherwise one record is added for the user (or 500 if taken) and 200 returns the user, an access token for an hour and the refresh token |
| Server.ApiConfig.IssuedTokenAuthenticates | authentication.go:86-108 | the refresh token of a successful login authenticates as the user for 60 days and is expired after |
| Server.ApiConfig.StoreRefreshToken | authentication.go:86-96 | the insert adds the record iff its token is not already stored, and changes nothing else |
| Server.ApiConfig.Refresh | authentication.go:113-134 | any refresh-authentication failure gives 401 "Invalid refresh token"; success gives 200 with an access token for the record's user; nothing changes |
| Server.ApiConfig.RefreshedTokenAuthenticates | authentication.go:115-121 | the access token a refresh returns authenticates as the record's user while neither reading of the clock is more than an hour after the refresh, and is invalid once either is |
| Server.ApiConfig.Revoke | authentication.go:136-155 | a usable token is revoked with 204 and never authenticates again; every failure is 404 "Invalid refresh token" with the store unchanged |
| Server.RevokeTwice | authentication.go:137-141 | of two sequential revocations the second never succeeds, and after a successful first one it is 404 |
| Server.ApiConfig.NewChirp | chirps.go:75-116 | author first, then length, then insert; a new row stores the body as sent (not cleaned) and 201 returns it; an id collision is 500 |
| Server.ApiConfig.WebhookPolkaUpgraded | webhooks.go:13-52 | 401 on a bad key, 204 with no change for other events, 404 with no change for an unknown user, otherwise the user is upgraded with 204 |
| Server.ApiConfig.ResetUsers | main.go:326-346 | off "dev" nothing is deleted; on "dev" the users table is emptied when the delete succeeds; the answer is `Admin.ResetUsersReply` |

Six definitions have no row of their own, because their contracts would
only repeat their bodies; the rows that prove what they mean are named:

- `Text.Join` (`strings.Join`, chirps.go:44): `Text.JoinSplit`,
  `Text.SplitJoin`, `Text.JoinAvoids`.
- `Jose.Sign` (`SignedString`, internal/auth/jwt.go:20-29): `Jose.SignSegments`,
  `Jose.SignedTokenParses`.
- `Models.ViewOf` (`dbUserToUser`, users.go:22, the user part of the login answer):
  `Server.ApiConfig.Login`.
- `Sessions.Usable` (authentication.go:37): `Sessions.AuthenticateRefresh`,
  `Sessions.UnusableStaysUnusable`, `Sessions.AcceptedAtExpiryInstant`.
- `Sessions.NewRefreshRecord` (authentication.go:86-92):
  `Sessions.RefreshTokenLifetime`, `Server.ApiConfig.IssuedTokenAuthenticates`.
- `Chirps.DbChirpToChirp` (chirps.go:23-31): `Server.ApiConfig.NewChirp`,
  whose 201 answer carries the stored row's five fields.

`main.go` carries an older copy of `clean_message`, `handlerValidateChirp` and
`handlerNewChirp` (main.go:81-93, main.go:134-215). It is the same code as in
chirps.go, with the response built field by field instead of through
`dbChirpToChirp`. The chirps.go members model both copies.

## Left out

- HTTP and JSON plumbing (request decoding, `ResponseError`, `SetJSONResponse`, routing, `ListenAndServe`): I/O with no logic beyond the status codes modelled. The decode-failure 500 answers are therefore not modelled.
- An error document's text: the code writes "description: cause"; the model keeps the description only.
- Server.ApiConfig: each handler is one atomic step and requests are served one at a time. net/http runs each request in its own goroutine, and `handlerRevoke` and `handlerLogin` read the store and then write it. Interleaved requests are not modelled, so `Server.RevokeTwice` is about sequential requests: two concurrent revocations of one token can both answer 204.
- The hit counter and its middleware: concurrency, no sequential logic.
- users.go (user creation and `handlerUpdateLogin`) and bcrypt: `checkPassword` is a parameter, and the users table is given to the constructor.
- The `fmt.Println` debug output in `GetBearerToken`/`GetAPIKey`: output only.
- main.go's `apiConfig` lacks the secret and the Polka key that the handlers read; `Server.ApiConfig` holds them as fixed fields.
- Jose.ParseWithClaims: models a compact hex stand-in for base64url JSON, and only HS256; HS384/HS512 and the library's `nbf` check are not modelled (the tokens here carry no `nbf`; `iat` is checked only when the parser is built with `WithIssuedAt`, which the code does not do).
- Jwt.OtherSecretRejected: holds under the hypothesis that the two secrets give different tags, because HMAC is a parameter with no axioms.
- Jwt.MakeJWT: the signing error of `SignedString` is not modelled; with HS256 and a byte key it does not occur.
- Jwt.MakeRefreshToken: the error of `rand.Read` is not modelled; the random bytes are an input.
- Uuids.Parse: only the canonical 36-character form and the 32-digit form are read; the `urn:uuid:` and braced forms `uuid.Parse` also accepts are not.
- Text.ToLower: ASCII only; Go's Unicode lower-casing (for example the Kelvin sign becoming "k") is not modelled.
- Sessions.Revoked: sets `revoked_at` only; the SQL of `RevokeRefreshToken` is not part of this model, so whether it also touches `updated_at` is unknown. The 404 "Unable to revoke refresh token" branch cannot occur, because revocation is attempted only on a token just found.
- Server.ApiConfig.Login: the handler's separate `time.Now()` readings (the access token's issue time and the record's created, updated and expiry columns) are one `now`; nothing in the handler compares them.
- Webhooks.Upgraded: sets `is_chirpy_red` only. The SQL of `SetUserSubscription` is not part of this model, so whether it also touches `updated_at` is unknown. `Webhooks.UpgradeIdempotent`'s "changes nothing" is about the modelled columns.
- Sessions.CheckLogin: assumes emails are unique in the users table (`Models.UsersConsistent`); the schema is not part of this model.
- Server.ApiConfig.StoreRefreshToken: assumes the token is the table's primary key, so a duplicate is an insert error; the schema is not part of this model.
- Server.ApiConfig.ResetUsers: the delete's failure is the `deleteFails` argument; chirps and refresh tokens of deleted users are left as they are, since any cascade is in the schema, which is not part of this model.

## Findings

| source | as written | input that shows it | evidently intended | confidence | as-written member | corrected member |
|---|---|---|---|---|---|---|
| main.go:337-345 | after `DeleteAllUsers` fails, the error is written but there is no `return`, so `{"deleted": true}` is written as well | platform "dev" with a failing delete: status 500 followed by both the error and `deleted: true` | stop after the 500 error; report a deletion only when it happened | not executed | Admin.FailedResetClaimsDeletion | Admin.ResetReportsTruthfully |

The same block appears in users.go:95-116. `Server.ApiConfig.ResetUsers`
uses the corrected answer.
