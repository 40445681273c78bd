/** Properties of sequences of requests, as the service's integration
    tests exercise them (auth-service/tests/api/verify_2fa.rs and
    auth-service/tests/api/login.rs), stated over the route models. */
module Scenarios {
  import opened Wrappers
  import opened Emails
  import opened TwoFACodes
  import opened Cookies
  import opened ApiErrors
  import Users
  import Auth
  import TwoFACodeService
  import Login
  import Verify2FA
  import VerifyToken

  /** The verification request a user makes with the attempt id and the
      code of a login. */
  function VerifyRequestFor(email: string, id: LoginAttemptId, code: TwoFACode): (r: Verify2FA.Verify2FARequest)
    ensures r.email == email && r.loginAttemptId == id.AsRef() && r.code == code.AsRef()
  {
    Verify2FA.Verify2FARequest(email, id.AsRef(), code.AsRef())
  }

  /** Such a request parses back to the very email, id and code. */
  lemma VerifyRequestParses(email: Email, random: seq<Text.Byte>, n: nat)
    requires |random| == 16 && MIN_CODE <= n < MAX_CODE_EXCLUSIVE
    ensures Verify2FA.ParseRequest(VerifyRequestFor(email.AsRef(), DefaultLoginAttemptId(random), DefaultTwoFACode(n)))
            == Ok((email, DefaultLoginAttemptId(random), DefaultTwoFACode(n)))
  {
    Emails.ParseAsRef(email);
    DefaultLoginAttemptIdParses(random);
    DefaultTwoFACodeParses(n);
  }

  /** Codes are single use: after one successful verification the same
      request is refused with `IncorrectCredentials`. */
  lemma CodeIsSingleUse(codes: TwoFACodeService.CodeMap, jar: CookieJar, request: Verify2FA.Verify2FARequest,
                        now: Auth.Timestamp, later: Auth.Timestamp, codec: Auth.JwtCodec)
    requires Verify2FA.Verify2FASpec(codes, jar, request, now, codec).2.Ok?
    ensures var (codes', jar', _) := Verify2FA.Verify2FASpec(codes, jar, request, now, codec);
            Verify2FA.Verify2FASpec(codes', jar', request, later, codec) == (codes', jar', Err(IncorrectCredentials))
  {
  }

  /** A user with two-factor authentication logs in and then submits the
      mailed code with the answered attempt id: the pending pair is
      consumed and an auth cookie is issued. */
  lemma LoginThenVerify2FA(users: map<Email, Users.User>, codes: TwoFACodeService.CodeMap, jar: CookieJar,
                           request: Login.LoginRequest, random: seq<Text.Byte>, n: nat,
                           now: Auth.Timestamp, later: Auth.Timestamp, codec: Auth.JwtCodec)
    requires |random| == 16 && MIN_CODE <= n < MAX_CODE_EXCLUSIVE
    requires Login.Credentials(request).Ok?
    requires Login.Matches(users, Login.Credentials(request).value.0, Login.Credentials(request).value.1)
    requires users[Login.Credentials(request).value.0].requires2fa
    requires Auth.WellBehaved(codec)
    requires 0 <= later + Auth.TOKEN_TTL_SECONDS <= Auth.MAX_TIMESTAMP
    ensures var outcome := Login.LoginSpec(users, codes, jar, request, random, n, true, now, codec);
            && outcome.result.Ok? && outcome.result.value.TwoFactorAuth? && outcome.sent.Some?
            && var email := Login.Credentials(request).value.0;
               var verify := Verify2FA.Verify2FARequest(request.email, outcome.result.value.loginAttemptId,
                                                        outcome.sent.value.content);
               var (codes', jar', result) := Verify2FA.Verify2FASpec(outcome.codes, outcome.jar, verify, later, codec);
               && result == Ok(Login.RegularAuth)
               && codes' == codes - {email}
               && jar'.Get(Auth.JWT_COOKIE_NAME).Some?
               && |jar'.Get(Auth.JWT_COOKIE_NAME).value.value| > 0
               && Auth.IsCompactJws(jar'.Get(Auth.JWT_COOKIE_NAME).value.value)
  {
    var email := Login.Credentials(request).value.0;
    VerifyRequestParses(email, random, n);
    Auth.GeneratedTokenIsCompact(email, later, codec);
    var id := DefaultLoginAttemptId(random);
    var code := DefaultTwoFACode(n);
    assert codes[email := (id, code)] - {email} == codes - {email};
  }

  /** Logging in again replaces the pending pair: the first login's id and
      code are then refused with `IncorrectCredentials`, so is the second
      login's id sent with the first login's code when the two codes
      differ, and the second login's pair stays pending. */
  lemma ReloginSupersedesCode(users: map<Email, Users.User>, codes: TwoFACodeService.CodeMap, jar: CookieJar,
                              request: Login.LoginRequest, random1: seq<Text.Byte>, n1: nat,
                              random2: seq<Text.Byte>, n2: nat, sendOk: bool,
                              now: Auth.Timestamp, codec: Auth.JwtCodec)
    requires |random1| == 16 && MIN_CODE <= n1 < MAX_CODE_EXCLUSIVE
    requires |random2| == 16 && MIN_CODE <= n2 < MAX_CODE_EXCLUSIVE
    requires (DefaultLoginAttemptId(random1), DefaultTwoFACode(n1)) != (DefaultLoginAttemptId(random2), DefaultTwoFACode(n2))
    requires Login.Credentials(request).Ok?
    requires Login.Matches(users, Login.Credentials(request).value.0, Login.Credentials(request).value.1)
    requires users[Login.Credentials(request).value.0].requires2fa
    ensures var first := Login.LoginSpec(users, codes, jar, request, random1, n1, sendOk, now, codec);
            var second := Login.LoginSpec(users, first.codes, jar, request, random2, n2, sendOk, now, codec);
            var email := Login.Credentials(request).value.0;
            var stale := VerifyRequestFor(request.email, DefaultLoginAttemptId(random1), DefaultTwoFACode(n1));
            && Verify2FA.Verify2FASpec(second.codes, jar, stale, now, codec) == (second.codes, jar, Err(IncorrectCredentials))
            && (DefaultTwoFACode(n1) != DefaultTwoFACode(n2) ==>
                  var crossed := VerifyRequestFor(request.email, DefaultLoginAttemptId(random2), DefaultTwoFACode(n1));
                  Verify2FA.Verify2FASpec(second.codes, jar, crossed, now, codec) == (second.codes, jar, Err(IncorrectCredentials)))
            && second.codes[email] == (DefaultLoginAttemptId(random2), DefaultTwoFACode(n2))
  {
    var email := Login.Credentials(request).value.0;
    assert request.email == email.AsRef();
    VerifyRequestParses(email, random1, n1);
    VerifyRequestParses(email, random2, n1);
  }

  /** A user without two-factor authentication logs in; the token in the
      returned jwt cookie passes the token-verification route within the
      following minute, unless it is banned. */
  lemma LoginThenVerifyToken(users: map<Email, Users.User>, codes: TwoFACodeService.CodeMap, jar: CookieJar,
                             request: Login.LoginRequest, random: seq<Text.Byte>, n: nat, sendOk: bool,
                             now: Auth.Timestamp, later: int, banned: set<string>, codec: Auth.JwtCodec)
    requires |random| == 16 && MIN_CODE <= n < MAX_CODE_EXCLUSIVE
    requires Login.Credentials(request).Ok?
    requires Login.Matches(users, Login.Credentials(request).value.0, Login.Credentials(request).value.1)
    requires !users[Login.Credentials(request).value.0].requires2fa
    requires Auth.WellBehaved(codec)
    requires 0 <= now + Auth.TOKEN_TTL_SECONDS <= Auth.MAX_TIMESTAMP
    requires now <= later < now + 60
    ensures var outcome := Login.LoginSpec(users, codes, jar, request, random, n, sendOk, now, codec);
            && outcome.result == Ok(Login.RegularAuth)
            && outcome.codes == codes
            && outcome.jar.Get(Auth.JWT_COOKIE_NAME).Some?
            && var token := outcome.jar.Get(Auth.JWT_COOKIE_NAME).value.value;
               token !in banned ==>
                 VerifyToken.VerifyTokenResult(Auth.ValidateToken(token, Ok(token in banned), later, codec)) == Ok(Unit)
  {
    var email := Login.Credentials(request).value.0;
    Auth.GenerateThenValidate(email, now, later, Ok(false), codec);
  }
}
