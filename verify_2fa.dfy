/** The two-factor verification route (auth-service/src/routes/verify_2fa.rs):
    parse the email, the code and the login attempt id; compare them with
    the pair stored for the email; on a match remove the pair and issue an
    auth cookie. */
module Verify2FA {
  import opened Wrappers
  import opened Emails
  import opened TwoFACodes
  import opened Cookies
  import opened ApiErrors
  import Auth
  import TwoFACodeService
  import Login

  datatype Verify2FARequest = Verify2FARequest(email: string, loginAttemptId: string, code: string)

  /** The request's fields parsed in the order email, code, attempt id;
      any failure is `InvalidCredentials`. */
  function ParseRequest(request: Verify2FARequest): (r: Result<(Email, LoginAttemptId, TwoFACode), AuthAPIError>)
    ensures r.Ok? <==> Emails.Parse(request.email).Ok? && ParseTwoFACode(request.code).Ok?
                       && ParseLoginAttemptId(request.loginAttemptId).Ok?
    ensures r.Ok? ==> r.value == (Emails.Parse(request.email).value, ParseLoginAttemptId(request.loginAttemptId).value,
                                  ParseTwoFACode(request.code).value)
    ensures r.Err? ==> r.error == InvalidCredentials
  {
    match Emails.Parse(request.email)
    case Err(_) => Err(InvalidCredentials)
    case Ok(email) =>
      match ParseTwoFACode(request.code)
      case Err(_) => Err(InvalidCredentials)
      case Ok(code) =>
        match ParseLoginAttemptId(request.loginAttemptId)
        case Err(_) => Err(InvalidCredentials)
        case Ok(id) => Ok((email, id, code))
  }

  /** What the handler answers once `remove_code` has returned `removed`:
      a failed removal is `InvalidCredentials` and no cookie is issued;
      otherwise the jar gains an auth cookie, or is returned unchanged with
      `UnexpectedError` when no token can be issued. */
  function AfterRemoveCode(removed: Result<Unit, TwoFACodeStoreError>, email: Email, jar: CookieJar,
                           now: Auth.Timestamp, codec: Auth.JwtCodec)
    : (r: (CookieJar, Result<Login.LoginResponse, AuthAPIError>))
    ensures removed.Err? ==> r == (jar, Err(InvalidCredentials))
    ensures removed.Ok? && Auth.GenerateAuthToken(email, now, codec).Err? ==> r == (jar, Err(AuthAPIError.UnexpectedError))
    ensures r.1.Ok? <==> removed.Ok? && Auth.GenerateAuthToken(email, now, codec).Ok?
    ensures r.1.Ok? ==> r.1.value == Login.RegularAuth
                        && r.0 == jar.Add(Auth.CreateAuthCookie(Auth.GenerateAuthToken(email, now, codec).value))
  {
    if removed.Err? then
      (jar, Err(InvalidCredentials))
    else
      match Auth.GenerateAuthCookie(email, now, codec)
      case Err(_) => (jar, Err(AuthAPIError.UnexpectedError))
      case Ok(cookie) => (jar.Add(cookie), Ok(Login.RegularAuth))
  }

  /** The whole route over the in-memory code store's map: the new map, the
      returned jar and the answer. */
  function Verify2FASpec(codes: TwoFACodeService.CodeMap, jar: CookieJar, request: Verify2FARequest,
                         now: Auth.Timestamp, codec: Auth.JwtCodec)
    : (r: (TwoFACodeService.CodeMap, CookieJar, Result<Login.LoginResponse, AuthAPIError>))
    // unparsable input: the store is untouched
    ensures ParseRequest(request).Err? ==> r == (codes, jar, Err(InvalidCredentials))
    // no pending code for the email
    ensures ParseRequest(request).Ok? && ParseRequest(request).value.0 !in codes
            ==> r == (codes, jar, Err(IncorrectCredentials))
    // a pending pair that differs in the id or in the code stays in place
    ensures ParseRequest(request).Ok? && ParseRequest(request).value.0 in codes
            && codes[ParseRequest(request).value.0] != (ParseRequest(request).value.1, ParseRequest(request).value.2)
            ==> r == (codes, jar, Err(IncorrectCredentials))
    // a match consumes the pair, whether or not a token can then be issued
    ensures ParseRequest(request).Ok? && ParseRequest(request).value.0 in codes
            && codes[ParseRequest(request).value.0] == (ParseRequest(request).value.1, ParseRequest(request).value.2)
            ==> r.0 == codes - {ParseRequest(request).value.0}
                && (r.1, r.2) == AfterRemoveCode(Ok(Unit), ParseRequest(request).value.0, jar, now, codec)
    // success means exactly: the pending pair matched and was removed
    ensures r.2.Ok? ==> ParseRequest(request).Ok?
                        && var (email, id, code) := ParseRequest(request).value;
                           email in codes && codes[email] == (id, code) && email !in r.0
  {
    match ParseRequest(request)
    case Err(e) => (codes, jar, Err(e))
    case Ok((email, id, code)) =>
      if email !in codes then
        (codes, jar, Err(IncorrectCredentials))
      else if codes[email] == (id, code) then
        var (jar', result) := AfterRemoveCode(Ok(Unit), email, jar, now, codec);
        (codes - {email}, jar', result)
      else
        (codes, jar, Err(IncorrectCredentials))
  }

  /** `verify_2fa_handler` against the in-memory code store. */
  method Verify2FAHandler(codes: TwoFACodeService.HashmapTwoFACodeStore, jar: CookieJar,
                          request: Verify2FARequest, now: Auth.Timestamp, codec: Auth.JwtCodec)
    returns (jar': CookieJar, result: Result<Login.LoginResponse, AuthAPIError>)
    modifies codes
    ensures (codes.codes, jar', result) == Verify2FASpec(old(codes.codes), jar, request, now, codec)
  {
    var parsed := ParseRequest(request);
    if parsed.Err? {
      return jar, Err(InvalidCredentials);
    }
    var (email, id, code) := parsed.value;
    var entry := codes.GetCode(email);
    if entry.Err? {
      return jar, Err(IncorrectCredentials);
    }
    if entry.value == (id, code) {
      var removed := codes.RemoveCode(email);
      var outcome := AfterRemoveCode(removed, email, jar, now, codec);
      jar', result := outcome.0, outcome.1;
    } else {
      jar', result := jar, Err(IncorrectCredentials);
    }
  }

  /** The integration test's invalid inputs: an attempt id that is no UUID
      ("oij") or a code of the wrong length ("12") is refused with
      `InvalidCredentials`, leaving the store and the jar as they were. */
  lemma InvalidInputsRejected(codes: TwoFACodeService.CodeMap, jar: CookieJar, email: string, id: string,
                              code: string, now: Auth.Timestamp, codec: Auth.JwtCodec)
    ensures Verify2FASpec(codes, jar, Verify2FARequest(email, "oij", code), now, codec) == (codes, jar, Err(InvalidCredentials))
    ensures Verify2FASpec(codes, jar, Verify2FARequest(email, id, "12"), now, codec) == (codes, jar, Err(InvalidCredentials))
  {
    ShortIdRejected();
    ParseTwoFACodeExamples();
  }
}
