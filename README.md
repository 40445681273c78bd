# Auth service: a Dafny model of its decision layer

The modelled system is the authentication service of a Rust course project
(`auth-service`). Users sign up with an email address and a password and
log in. A user who asked for two-factor authentication is first answered
with a login attempt id, and a six-digit code is mailed out. That user gets
the auth cookie only after submitting the id and the code. The auth cookie
(`jwt`) holds a JSON Web Token that expires ten minutes after issue. On
logout the cookie is dropped, and verify-token checks a token against the
banned-token list. The model leaves out HTTP, Redis and Postgres and keeps
what decides each answer.

- **Validated values**: `Emails`, `Passwords` and `TwoFACodes`.
  - An email must contain `@`.
  - A password must be at least 8 bytes long in UTF-8.
  - A two-factor code is exactly six ASCII digits.
  - A login attempt id is anything the `uuid` crate parses, and it is stored in its canonical lower-case hyphenated form.
  - `Text` (UTF-8 length, decimal and hexadecimal rendering) and `Uuid` (the `uuid` crate's textual forms and `new_v4`) state the library behaviour these checks rely on.
- **In-memory stores**: each is a class whose map or set field the operations update in place.
  - `UserService.HashMapUserStore` keys users by `Email`. `LegacyUserService.HashMapUserStore` is the earlier version, keyed by plain strings.
  - `TwoFACodeService.HashmapTwoFACodeStore` holds the pending codes.
  - `BannedTokenService.HashsetBannedTokenStore` returns `Result`s; `LegacyBannedTokenService.HashsetBannedTokenStore` is the earlier unit/bool version.
- **Token service**: `Auth`.
  - Issuance computes `exp = now + 600` with chrono's range check and the `usize` conversion.
  - Validation asks the banned store first and only then decodes.
  - The auth cookie is built in `Auth` as well. JWT signing is a codec value, and the lemmas assume of it only `Auth.WellBehaved`.
- **Routes**: `Signup`, `Login`, `Verify2FA`, `Logout` and `VerifyToken`.
  - Each route is a pure function over the stores' maps and sets (`SignupSpec`, `LoginSpec`, `Verify2FASpec`, `LogoutSpec`).
  - Each route also has a method that runs against the store classes and is proved equal to that function.
  - After each fallible store call, the route goes on with a pure function of that call's `Result` (`AfterAddUser`, `AfterLookup`, `AfterAddCode`, `AfterRemoveCode`, `AfterBan`). These functions state the error paths of the store interfaces, which the in-memory stores never take.
  - `Scenarios` holds request sequences taken from the integration tests.

Parameters stand in for the clock (`now`, in whole seconds), the random
values and the email client's verdict (`sendOk`):

- 16 random bytes for the attempt id;
- a number in 100000..999999 for the code.

The signup tests describe the minimum password length as 8 characters
(`auth-service/tests/api/signup.rs:60`). The code checks `String::len`,
which counts UTF-8 bytes, so the model follows the code:
`Passwords.FourTwoByteCharactersAccepted` shows that four `é` pass.

`logout.rs` calls `validate_token` with only the token, but the function in
`utils/auth.rs` also takes the banned-token store. The model passes the
store.

## Model

| member | source | states |
|---|---|---|
| Emails.Parse | auth-service/src/domain/email.rs:8-14 | succeeds iff the input contains `@`; on success the email's `as_ref` is the input unchanged; otherwise the error is "Could not parse email address" |
| Emails.ParseAsRef | auth-service/src/domain/email.rs:41-46 | parsing an email's own text gives back that email |
| Emails.EqualIffSameAddress | auth-service/src/domain/email.rs:1-2 | two emails are equal iff their strings are equal (derived equality) |
| Emails.ParseExamples | auth-service/src/domain/email.rs:27-39 | "hello" and "" are rejected with the fixed message; "ken@cttm.io" is accepted verbatim |
| Passwords.Parse | auth-service/src/domain/password.rs:8-14 | succeeds iff the UTF-8 length is at least 8 bytes; the value is kept unchanged; otherwise the error is "Password too short" |
| Passwords.LongStringAccepted | auth-service/src/domain/password.rs:9-10 | any string of at least 8 characters is accepted verbatim |
| Passwords.AsciiThreshold | auth-service/src/domain/password.rs:9 | for ASCII input the bound is exactly 8 characters: 8 accepted, 7 rejected |
| Passwords.FourTwoByteCharactersAccepted | auth-service/src/domain/password.rs:9 | four two-byte characters already meet the 8-byte bound |
| Passwords.ParseExamples | auth-service/src/domain/password.rs:27-39 | "a" is rejected with the fixed message; the 24-character test password is accepted verbatim |
| Text.Utf8Width | auth-service/src/domain/password.rs:9 | a character takes 1 to 4 bytes, and exactly 1 iff it is ASCII |
| Text.Utf8LenAtLeastLength | auth-service/src/domain/password.rs:9 | the byte length of a string is never below its character count |
| Text.Utf8LenIsLengthIffAscii | auth-service/src/domain/data_stores/two_fa_code_store.rs:63 | byte length equals character count iff every character is ASCII |
| Text.DecimalStringDigits | auth-service/src/domain/data_stores/two_fa_code_store.rs:80 | the decimal rendering of a number consists of digits only |
| Text.DecimalStringValue | auth-service/src/domain/data_stores/two_fa_code_store.rs:80 | the digits of a number's decimal rendering read back as that number |
| Text.DecimalStringLength | auth-service/src/domain/data_stores/two_fa_code_store.rs:79-80 | a number between 10^k and 10^(k+1) renders with k+1 digits |
| Text.HexDigitValue | auth-service/src/domain/data_stores/two_fa_code_store.rs:38 | each lower-case hex digit reads back as its value |
| Text.HexStringAppend | auth-service/src/domain/data_stores/two_fa_code_store.rs:38 | rendering concatenated bytes is concatenating their renderings |
| Text.ParseHexRoundTrip | auth-service/src/domain/data_stores/two_fa_code_store.rs:36-38 | the hex rendering of any bytes parses back to those bytes |
| Uuid.Hyphenated | auth-service/src/domain/data_stores/two_fa_code_store.rs:38 | the canonical rendering of a UUID has 36 characters |
| Uuid.ParseStrLength | auth-service/src/domain/data_stores/two_fa_code_store.rs:36 | whatever `parse_str` accepts yields exactly 16 bytes |
| Uuid.HyphenatedGroups | auth-service/src/domain/data_stores/two_fa_code_store.rs:38 | the canonical rendering has hyphens at 8, 13, 18 and 23, and the groups together are the plain hex rendering |
| Uuid.ParseHyphenatedRoundTrip | auth-service/src/domain/data_stores/two_fa_code_store.rs:36-38 | `parse_str` of the canonical rendering gives back the bytes |
| Uuid.NewV4 | auth-service/src/domain/data_stores/two_fa_code_store.rs:47 | a version-4 UUID has 16 bytes |
| Uuid.NewV4Fields | auth-service/src/domain/data_stores/two_fa_code_store.rs:47 | `new_v4` sets the version nibble to 4 and the variant bits to 10, and keeps every other random byte |
| TwoFACodes.ParseLoginAttemptId | auth-service/src/domain/data_stores/two_fa_code_store.rs:34-41 | succeeds iff the input is a UUID in one of the four textual forms; the stored id is the canonical rendering of the parsed bytes; otherwise the error is "could not parse login attempt id" |
| TwoFACodes.ParsedLoginAttemptIdIsCanonical | auth-service/src/domain/data_stores/two_fa_code_store.rs:38 | re-parsing a parsed id's text gives the same id |
| TwoFACodes.DefaultLoginAttemptIdParses | auth-service/src/domain/data_stores/two_fa_code_store.rs:44-49 | a generated attempt id parses back to itself |
| TwoFACodes.PlainFormCanonicalised | auth-service/src/domain/data_stores/two_fa_code_store.rs:36-38 | the 32-digit form is stored in hyphenated form, not as given |
| TwoFACodes.BracedFormCanonicalised | auth-service/src/domain/data_stores/two_fa_code_store.rs:36-38 | the braced form is stored without the braces |
| TwoFACodes.UrnFormCanonicalised | auth-service/src/domain/data_stores/two_fa_code_store.rs:36-38 | the `urn:uuid:` form is stored without the prefix |
| TwoFACodes.ShortIdRejected | auth-service/tests/api/verify_2fa.rs:22-46 | "oij" is not a login attempt id |
| TwoFACodes.ParseTwoFACode | auth-service/src/domain/data_stores/two_fa_code_store.rs:61-71 | succeeds iff the input has 6 characters, all ASCII digits, kept verbatim; a byte length other than 6 gives the length error even with non-digits; 6 bytes with a non-digit gives the digit error |
| TwoFACodes.DefaultTwoFACode | auth-service/src/domain/data_stores/two_fa_code_store.rs:74-82 | a generated code's digits read back as the random number drawn |
| TwoFACodes.DefaultTwoFACodeParses | auth-service/src/domain/data_stores/two_fa_code_store.rs:79-80 | any number in 100000..999999 renders as a code that re-parses to itself |
| TwoFACodes.ParseTwoFACodeExamples | auth-service/src/domain/data_stores/two_fa_code_store.rs:63-70 | "12" and "ab" get the length error, "12345a" the digit error; "111111" is accepted |
| TwoFACodeService.HashmapTwoFACodeStore.constructor | auth-service/src/services/hashmap_two_fa_code_store.rs:10-13 | a new store holds no codes |
| TwoFACodeService.HashmapTwoFACodeStore.AddCode | auth-service/src/services/hashmap_two_fa_code_store.rs:17-25 | always Ok; the email now maps to the new pair, replacing any earlier one; every other entry is unchanged |
| TwoFACodeService.HashmapTwoFACodeStore.RemoveCode | auth-service/src/services/hashmap_two_fa_code_store.rs:27-30 | always Ok, also when absent; the email no longer has an entry; every other entry is unchanged |
| TwoFACodeService.HashmapTwoFACodeStore.GetCode | auth-service/src/services/hashmap_two_fa_code_store.rs:32-40 | the stored pair if present, else `LoginAttemptIdNotFound`; does not modify the store |
| TwoFACodeService.AddCodeToNewStore | auth-service/src/services/hashmap_two_fa_code_store.rs:49-55 | adding a generated pair to a new store succeeds, and the pair reads back |
| UserService.HashMapUserStore.constructor | auth-service/src/services/data_stores/hashmap_user_store.rs:11-14 | a new store holds no users |
| UserService.HashMapUserStore.AddUser | auth-service/src/services/data_stores/hashmap_user_store.rs:18-27 | a known email gives `UserAlreadyExists` with the map unchanged; a new one is inserted under its email and gives Ok; every user stays filed under its own email |
| UserService.HashMapUserStore.GetUser | auth-service/src/services/data_stores/hashmap_user_store.rs:35-40 | the stored user if present, else `UserNotFound`; under the store invariant the returned user carries the requested email; reads only |
| UserService.HashMapUserStore.ValidateUser | auth-service/src/services/data_stores/hashmap_user_store.rs:48-58 | Ok when present with an equal password, `InvalidCredentials` when present with another, `UserNotFound` when absent; reads only |
| UserService.AddGetValidate | auth-service/src/services/data_stores/hashmap_user_store.rs:68-119 | after adding a user to a new store, get returns that user, validate with its own password is Ok, and a second add is refused |
| LegacyUserService.HashMapUserStore.constructor | auth-service/src/services/hashmap_user_store.rs:9-12 | a new store holds no users |
| LegacyUserService.HashMapUserStore.AddUser | auth-service/src/services/hashmap_user_store.rs:15-24 | a known email string gives `UserAlreadyExists` with the map unchanged; a new one is inserted and gives Ok |
| LegacyUserService.HashMapUserStore.GetUser | auth-service/src/services/hashmap_user_store.rs:32-37 | the stored user or `UserNotFound`; under the store invariant the returned user carries the requested email; reads only |
| LegacyUserService.HashMapUserStore.ValidateUser | auth-service/src/services/hashmap_user_store.rs:45-55 | Ok when present with an equal password string, `InvalidCredentials` when present with another, `UserNotFound` when absent |
| LegacyUserService.AddGetValidate | auth-service/src/services/hashmap_user_store.rs:63-110 | add to a new store succeeds, get returns the same user, validate with its password is Ok |
| BannedTokenService.HashsetBannedTokenStore.constructor | auth-service/src/services/data_stores/hashset_banned_token_store.rs:5-8 | a new store bans nothing |
| BannedTokenService.HashsetBannedTokenStore.AddToken | auth-service/src/services/data_stores/hashset_banned_token_store.rs:12-15 | always Ok; the token is banned afterwards, only its membership can change, and adding it again changes nothing |
| BannedTokenService.HashsetBannedTokenStore.ContainsToken | auth-service/src/services/data_stores/hashset_banned_token_store.rs:17-23 | never an error; true exactly for banned tokens; reads only |
| LegacyBannedTokenService.HashsetBannedTokenStore.constructor | auth-service/src/services/hashset_banned_token_store.rs:5-8 | a new store bans nothing |
| LegacyBannedTokenService.HashsetBannedTokenStore.AddToken | auth-service/src/services/hashset_banned_token_store.rs:11-13 | the token is banned afterwards, only its membership can change, and re-adding is idempotent |
| LegacyBannedTokenService.HashsetBannedTokenStore.ContainsToken | auth-service/src/services/hashset_banned_token_store.rs:15-21 | true exactly for tokens added before; reads only |
| LegacyBannedTokenService.AddThenContains | auth-service/src/services/hashset_banned_token_store.rs:11-21 | after adding t, t is reported banned and a token never added is not |
| Auth.TrySeconds | auth-service/src/utils/auth.rs:41-42 | a duration exists iff its magnitude is at most i64::MAX/1000 seconds |
| Auth.CheckedAddSeconds | auth-service/src/utils/auth.rs:45-48 | adding to a time succeeds iff the sum stays in the date-time range, and then is the sum |
| Auth.ToUsize | auth-service/src/utils/auth.rs:51-54 | the conversion succeeds iff the value is in 0..2^64-1, and keeps it |
| Auth.AuthClaims | auth-service/src/utils/auth.rs:40-58 | claims are formed iff 0 <= now+600 <= the last representable second; then sub is the email and exp is now+600; past the range is `TimestampOutOfRange`, before the epoch `ExpiryNotUsize` |
| Auth.Occurrences | auth-service/src/utils/auth.rs:124 | counts a character; zero iff the character does not occur |
| Auth.CreateToken | auth-service/src/utils/auth.rs:95-102 | Ok iff the codec signs the claims, and then it is the signed token; otherwise "failed to create token" |
| Auth.GenerateAuthToken | auth-service/src/utils/auth.rs:40-61 | Ok iff the claims can be formed and signed, and then the token is the signed `AuthClaims`; a claims failure is passed on |
| Auth.ValidateToken | auth-service/src/utils/auth.rs:71-91 | a definite "banned" gives `BannedToken` before decoding; otherwise Ok iff the token decodes, with the decoded claims, and every failure is `InvalidToken`; `IssueWithBannedStore` is never returned |
| Auth.CheckToken | auth-service/src/utils/auth.rs:75-82 | validation against the store itself; a banned token is refused; the store is only read |
| Auth.CreateAuthCookie | auth-service/src/utils/auth.rs:25-33 | the cookie is named `jwt`, holds the token, has path `/`, HttpOnly and SameSite=Lax |
| Auth.GenerateAuthCookie | auth-service/src/utils/auth.rs:18-21 | Ok iff a token is issued, and then it is the auth cookie around that token |
| Auth.GeneratedTokenIsCompact | auth-service/src/utils/auth.rs:141-146 | an issued token splits on '.' into three parts |
| Auth.GenerateThenValidate | auth-service/src/utils/auth.rs:148-166 | an issued, unbanned token validates within the next minute to sub = email and exp = now+600, more than nine minutes ahead |
| Auth.MalformedTokenRejected | auth-service/src/utils/auth.rs:84-90 | a string not in three-part form is never accepted, whatever the store answers |
| Auth.InvalidTokenLiteralNotCompact | auth-service/src/utils/auth.rs:168-175 | "invalid_token" is not in three-part form, so it is rejected |
| Auth.BannedTokenRejected | auth-service/src/utils/auth.rs:78-79 | a token in the banned set is refused with `BannedToken` |
| Cookies.CookieJar.Get | auth-service/src/routes/logout.rs:11-14 | a cookie is found iff the jar has one of that name |
| Cookies.CookieJar.Add | auth-service/src/routes/login.rs:119 | afterwards the jar yields the added cookie under its name and is otherwise unchanged |
| Cookies.CookieJar.Remove | auth-service/src/routes/logout.rs:27 | afterwards the jar has no cookie of that name and is otherwise unchanged |
| Signup.RequestUser | auth-service/src/routes/signup.rs:30-45 | a user is formed iff the email contains `@` and the password parses, keeping the email, password and two-factor flag; otherwise `InvalidCredentials` |
| Signup.PreCheckAgreesWithParse | auth-service/src/routes/signup.rs:30-36 | the handler's empty-or-no-`@` pre-check rejects exactly what `Email::parse` rejects |
| Signup.AfterAddUser | auth-service/src/routes/signup.rs:47-57 | only `UserAlreadyExists` is reported; success and every other store error give 201 "User created successfully!" |
| Signup.SignupSpec | auth-service/src/routes/signup.rs:26-58 | an invalid request leaves the users unchanged with `InvalidCredentials`; a known email leaves them unchanged with `UserAlreadyExists`; a new user is stored under its email with the requested flag and gets the created message |
| Signup.SignupHandler | auth-service/src/routes/signup.rs:26-58 | the handler on the in-memory store changes its map and answers as `SignupSpec` |
| Signup.DuplicateSignupRefused | auth-service/tests/api/signup.rs:99-121 | a first signup is created; a second with the same email is refused with `UserAlreadyExists` and changes nothing |
| Signup.SignupThenCredentialsMatch | auth-service/tests/api/signup.rs:29-53 | after a successful signup the stored user has the submitted password and flag |
| Login.Credentials | auth-service/src/routes/login.rs:28-36 | both fields parse, with their values kept; otherwise `InvalidCredentials` |
| Login.AfterLookup | auth-service/src/routes/login.rs:40-50 | any failure of `validate_user` or of `get_user` is `IncorrectCredentials`; otherwise the user found |
| Login.HandleNo2FA | auth-service/src/routes/login.rs:103-122 | with a token issued, the jar gains the auth cookie for it and the answer is `RegularAuth`; otherwise the jar is unchanged with `UnexpectedError` |
| Login.AfterAddCode | auth-service/src/routes/login.rs:72-99 | a storage failure gives `UnexpectedError` and mails nothing; otherwise the stored code is mailed with subject "login now", and the answer is 206 "2FA required" with the attempt id, or `UnexpectedError` when sending fails |
| Login.Handle2FA | auth-service/src/routes/login.rs:60-100 | the email's pending pair becomes the fresh one, and the answer and mail are `AfterAddCode`'s |
| Login.LoginSpec | auth-service/src/routes/login.rs:23-57 | unparsable input gives `InvalidCredentials` and an unknown user or wrong password gives `IncorrectCredentials`, both touching nothing; success needs matching credentials; without 2FA the code store is untouched and the jar gains the cookie; with 2FA a fresh pair replaces the old one, the mailed code is the stored code, the answer carries the stored id, and a failed send still leaves the pair stored |
| Login.LoginHandler | auth-service/src/routes/login.rs:23-57 | the handler on the in-memory stores changes the code map and answers as `LoginSpec` |
| Verify2FA.ParseRequest | auth-service/src/routes/verify_2fa.rs:30-46 | email, code and attempt id all parse, with their parsed values; otherwise `InvalidCredentials` |
| Verify2FA.AfterRemoveCode | auth-service/src/routes/verify_2fa.rs:57-72 | a failed removal is `InvalidCredentials` with no cookie; a failed issue is `UnexpectedError`; otherwise the jar gains the auth cookie with `RegularAuth` |
| Verify2FA.Verify2FASpec | auth-service/src/routes/verify_2fa.rs:24-76 | unparsable input gives `InvalidCredentials` with the store untouched; no pending pair, or one differing in id or code, gives `IncorrectCredentials` with the store untouched; a match removes the pair before a token is issued; success implies the pair matched and is gone |
| Verify2FA.InvalidInputsRejected | auth-service/tests/api/verify_2fa.rs:22-46 | an attempt id "oij" or a code "12" is refused with `InvalidCredentials`, with the store and the jar unchanged |
| Verify2FA.Verify2FAHandler | auth-service/src/routes/verify_2fa.rs:24-76 | the handler on the in-memory store changes its map and answers as `Verify2FASpec` |
| Logout.TokenIn | auth-service/src/routes/logout.rs:11-14 | the jwt cookie's value, if there is one |
| Logout.LogoutAsWritten | auth-service/src/routes/logout.rs:6-30 | no cookie gives `MissingToken`, a token that fails validation gives `InvalidToken`, both with the jar unchanged; otherwise Ok with the jwt cookie removed |
| Logout.LogoutAsWrittenLeavesTokenValid | auth-service/src/routes/logout.rs:20-29 | a freshly issued, unbanned token is logged out successfully and still validates afterwards |
| Logout.AfterBan | auth-service/tests/api/logout.rs:40-55 | a failed ban keeps the cookie and gives `UnexpectedError`; otherwise the cookie is removed |
| Logout.LogoutSpec | auth-service/tests/api/logout.rs:40-55 | answers and returns the jar as the route as written does, and bans the token exactly when logout succeeds |
| Logout.LogoutHandler | auth-service/tests/api/logout.rs:40-55 | the corrected handler on the in-memory banned store changes its set and answers as `LogoutSpec` |
| Logout.LogoutRevokesToken | auth-service/tests/api/logout.rs:53-54 | after a successful logout the token is refused as banned at any later time |
| Logout.LogoutTwice | auth-service/tests/api/logout.rs:58-71 | a second logout on the returned jar gives `MissingToken` and changes nothing |
| VerifyToken.VerifyTokenResult | auth-service/src/routes/verify_token.rs:23-26 | Ok iff validation succeeded; every rejection is `InvalidToken` |
| VerifyToken.VerifyTokenHandler | auth-service/src/routes/verify_token.rs:19-27 | a banned token gives `InvalidToken`; an unbanned one is accepted iff it decodes; the store is only read |
| VerifyToken.AllRejectionsAreInvalidToken | auth-service/src/routes/verify_token.rs:25 | each validation error variant becomes `InvalidToken` |
| VerifyToken.BannedTokenRefused | auth-service/tests/api/verify_token.rs:44-62 | a banned token is refused even when it would decode |
| VerifyToken.MalformedTokenRefused | auth-service/tests/api/verify_token.rs:32-41 | a string not in three-part form is refused |
| VerifyToken.FreshTokenAccepted | auth-service/tests/api/verify_token.rs:17-29 | a freshly issued, unbanned token is accepted within the next minute |
| Scenarios.VerifyRequestParses | auth-service/src/routes/verify_2fa.rs:30-46 | a request built from an email, a generated id and a generated code parses back to them |
| Scenarios.CodeIsSingleUse | auth-service/tests/api/verify_2fa.rs:196-258 | after one successful verification the same request gives `IncorrectCredentials` and changes nothing |
| Scenarios.LoginThenVerify2FA | auth-service/tests/api/verify_2fa.rs:141-193 | a 2FA login followed by the mailed code and the answered id succeeds, removes the pair and sets a jwt cookie whose value is a non-empty three-part compact token |
| Scenarios.ReloginSupersedesCode | auth-service/tests/api/verify_2fa.rs:93-138 | after a second login the first login's id and code are refused with `IncorrectCredentials`, so is the second login's id with the first code when the codes differ, and the second pair stays pending |
| Scenarios.LoginThenVerifyToken | auth-service/tests/api/login.rs:53-82 | a login without 2FA answers `RegularAuth`, leaves the code store alone, and sets a jwt cookie whose token then passes verify-token if unbanned |

## Findings

| source | as written | input that shows it | evidently intended | confidence | as-written member | corrected member |
|---|---|---|---|---|---|---|
| auth-service/src/routes/logout.rs:20-29 | after the token is validated, only the cookie is removed; the token never goes into the banned-token store | a jar holding a freshly issued, unbanned token: logout answers Ok, and the same token still validates afterwards | the token is banned before the cookie is removed, as auth-service/tests/api/logout.rs:53-54 asserts | high (not executed) | Logout.LogoutAsWrittenLeavesTokenValid | Logout.LogoutSpec |

## Left out

- Postgres and Redis stores (`postgres_user_store.rs`, `redis_two_fa_code_store.rs`, `redis_banned_token_store.rs`): SQL, password hashing, network I/O and time-based expiry. The in-memory stores have no expiry.
- The email client (`mock_email_client.rs`): it only prints. Sending is the boolean `sendOk`, and the message handed over is returned as an `OutgoingEmail`.
- Startup, the router and shared state (`main.rs`, `lib.rs`, `app_state.rs`): the locks and `async` are concurrency, so the model is sequential.
- `Secret` wrappers, tracing, serde request parsing (the 422 answers) and HTTP status codes. `auth-service/src/domain/error.rs` is not part of this model; errors are named by their variants.
- Configuration (`constants.rs`): only `JWT_COOKIE_NAME` = "jwt" is used. The JWT secret is part of the codec.
- Randomness: `Uuid::new_v4` and `gen_range` are parameters, and the distribution is not modelled.
- The clock: `now` is a parameter in whole seconds. Sub-second digits do not change any outcome here.
- Auth.WellBehaved: the JWT library is a hypothesis used only by lemmas. It assumes a round trip up to the expiry time, not the library's 60-second leeway. Header and signature checks beyond the three-part shape are not modelled.
- Auth.ValidateToken: it takes the store's answer, `contains_token`'s `Result`, rather than the store. `Auth.CheckToken` connects the two.
- Cookies.CookieJar.Remove: the removal cookie the jar sends to the browser is not modelled; only "the jar no longer yields it" is.
- Signup.SignupSpec: the in-memory user store never fails, so the store's other errors appear only in `Signup.AfterAddUser`.
- Login.LoginSpec: the in-memory stores never fail, so `get_user` and `add_code` failures appear only in `Login.AfterLookup` and `Login.AfterAddCode`.
- Verify2FA.Verify2FASpec: a failing `remove_code` appears only in `Verify2FA.AfterRemoveCode`.
- BannedTokenService.BannedTokenStoreError: the repository snapshot never defines this type, so it is a one-variant stand-in that the in-memory store never returns.
- LegacyUserService.LegacyUser: the earlier `User` with string fields (described by the comment at `auth-service/src/domain/user.rs:3-4`) no longer exists in the snapshot. It is reconstructed from that store's tests.
- The `UnexpectedError` report text is dropped.
