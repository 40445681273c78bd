/** The login route (auth-service/src/routes/login.rs): check the
    credentials against the user store; a user without two-factor
    authentication gets an auth cookie straight away, a user with it gets a
    fresh login attempt id while a fresh code is stored and mailed.

    The random login attempt id (16 bytes) and code (a number in
    100000..999999), the clock and the email client's verdict are
    parameters. */
module Login {
  import opened Wrappers
  import opened Emails
  import Passwords
  import Users
  import opened TwoFACodes
  import opened Cookies
  import opened ApiErrors
  import Auth
  import UserService
  import TwoFACodeService

  datatype LoginRequest = LoginRequest(email: string, password: string)

  /** The two successful answers: 200 with a cookie, or 206 asking for the
      code, with the id of the login attempt. */
  datatype LoginResponse = RegularAuth | TwoFactorAuth(message: string, loginAttemptId: string)

  /** A message handed to the email client. */
  datatype OutgoingEmail = OutgoingEmail(recipient: Email, subject: string, content: string)

  const TWO_FA_MESSAGE: string := "2FA required"
  const EMAIL_SUBJECT: string := "login now"

  /** Both fields parsed; either failure is `InvalidCredentials`. */
  function Credentials(request: LoginRequest): (r: Result<(Email, Passwords.Password), AuthAPIError>)
    ensures r.Ok? <==> Emails.Parse(request.email).Ok? && Passwords.Parse(request.password).Ok?
    ensures r.Ok? ==> r.value.0.AsRef() == request.email && r.value.1.AsRef() == request.password
    ensures r.Err? ==> r.error == InvalidCredentials
  {
    match (Emails.Parse(request.email), Passwords.Parse(request.password))
    case (Ok(email), Ok(password)) => Ok((email, password))
    case _ => Err(InvalidCredentials)
  }

  /** The user to log in, given the answers of `validate_user` and then
      `get_user`: any failure of either is `IncorrectCredentials`. */
  function AfterLookup(validated: Result<Unit, Users.UserStoreError>, user: Result<Users.User, Users.UserStoreError>)
    : (r: Result<Users.User, AuthAPIError>)
    ensures r.Ok? <==> validated.Ok? && user.Ok?
    ensures r.Ok? ==> r.value == user.value
    ensures r.Err? ==> r.error == IncorrectCredentials
  {
    if validated.Err? || user.Err? then Err(IncorrectCredentials) else Ok(user.value)
  }

  /** `handle_no_2fa`: the jar gains an auth cookie for the email; if no
      token can be issued the jar is returned as it was, with
      `UnexpectedError`. */
  function HandleNo2FA(email: Email, jar: CookieJar, now: Auth.Timestamp, codec: Auth.JwtCodec)
    : (r: (CookieJar, Result<LoginResponse, AuthAPIError>))
    ensures r.1.Ok? <==> Auth.GenerateAuthToken(email, now, codec).Ok?
    ensures r.1.Ok? ==> r.1.value == RegularAuth
                        && r.0 == jar.Add(Auth.CreateAuthCookie(Auth.GenerateAuthToken(email, now, codec).value))
    ensures r.1.Err? ==> r == (jar, Err(AuthAPIError.UnexpectedError))
  {
    match Auth.GenerateAuthCookie(email, now, codec)
    case Err(_) => (jar, Err(AuthAPIError.UnexpectedError))
    case Ok(cookie) => (jar.Add(cookie), Ok(RegularAuth))
  }

  /** What `handle_2fa` answers once `add_code` has returned `add`: a
      storage failure is `UnexpectedError` and nothing is mailed; otherwise
      the stored code is mailed to the user, and the answer carries the
      attempt id, or is `UnexpectedError` when the mail could not be sent.
      The second component is the message handed to the email client. */
  function AfterAddCode(add: Result<Unit, TwoFACodeStoreError>, sendOk: bool, email: Email,
                        id: LoginAttemptId, code: TwoFACode)
    : (r: (Result<LoginResponse, AuthAPIError>, Option<OutgoingEmail>))
    ensures add.Err? ==> r == (Err(AuthAPIError.UnexpectedError), None)
    ensures add.Ok? ==> r.1 == Some(OutgoingEmail(email, EMAIL_SUBJECT, code.AsRef()))
    ensures r.0.Ok? <==> add.Ok? && sendOk
    ensures r.0.Ok? ==> r.0.value == TwoFactorAuth(TWO_FA_MESSAGE, id.AsRef())
    ensures r.0.Err? ==> r.0.error == AuthAPIError.UnexpectedError
  {
    if add.Err? then
      (Err(AuthAPIError.UnexpectedError), None)
    else
      var message := OutgoingEmail(email, EMAIL_SUBJECT, code.AsRef());
      if !sendOk then (Err(AuthAPIError.UnexpectedError), Some(message))
      else (Ok(TwoFactorAuth(TWO_FA_MESSAGE, id.AsRef())), Some(message))
  }

  /** `handle_2fa` against the in-memory code store: stores a fresh
      (attempt id, code) pair for the email, replacing any earlier one,
      then mails the code. */
  method Handle2FA(codes: TwoFACodeService.HashmapTwoFACodeStore, email: Email,
                   random: seq<Text.Byte>, n: nat, sendOk: bool)
    returns (result: Result<LoginResponse, AuthAPIError>, sent: Option<OutgoingEmail>)
    requires |random| == 16 && MIN_CODE <= n < MAX_CODE_EXCLUSIVE
    modifies codes
    ensures codes.codes == old(codes.codes)[email := (DefaultLoginAttemptId(random), DefaultTwoFACode(n))]
    ensures (result, sent) == AfterAddCode(Ok(Unit), sendOk, email, DefaultLoginAttemptId(random), DefaultTwoFACode(n))
  {
    var id := DefaultLoginAttemptId(random);
    var code := DefaultTwoFACode(n);
    var add := codes.AddCode(email, id, code);
    var outcome := AfterAddCode(add, sendOk, email, id, code);
    result, sent := outcome.0, outcome.1;
  }

  /** The effect of one login: the code store's new map, the returned jar,
      the answer, and the message handed to the email client, if any. */
  datatype LoginOutcome = LoginOutcome(codes: TwoFACodeService.CodeMap, jar: CookieJar,
                                       result: Result<LoginResponse, AuthAPIError>,
                                       sent: Option<OutgoingEmail>)

  /** The credentials match a stored user. */
  predicate Matches(users: map<Email, Users.User>, email: Email, password: Passwords.Password)
  {
    email in users && users[email].password == password
  }

  /** The whole route over the in-memory stores' maps. */
  function LoginSpec(users: map<Email, Users.User>, codes: TwoFACodeService.CodeMap, jar: CookieJar,
                     request: LoginRequest, random: seq<Text.Byte>, n: nat, sendOk: bool,
                     now: Auth.Timestamp, codec: Auth.JwtCodec)
    : (r: LoginOutcome)
    requires |random| == 16 && MIN_CODE <= n < MAX_CODE_EXCLUSIVE
    // unparsable input: rejected before either store is consulted
    ensures Credentials(request).Err? ==> r == LoginOutcome(codes, jar, Err(InvalidCredentials), None)
    // unknown user or wrong password
    ensures Credentials(request).Ok? && !Matches(users, Credentials(request).value.0, Credentials(request).value.1)
            ==> r == LoginOutcome(codes, jar, Err(IncorrectCredentials), None)
    // success only for matching credentials, and then as the user's flag says
    ensures r.result.Ok? ==>
              && Credentials(request).Ok?
              && var email := Credentials(request).value.0;
                 && Matches(users, email, Credentials(request).value.1)
                 && (r.result.value.TwoFactorAuth? <==> users[email].requires2fa)
    // no two-factor authentication: the code store is untouched, nothing is mailed
    ensures Credentials(request).Ok? && Matches(users, Credentials(request).value.0, Credentials(request).value.1)
            && !users[Credentials(request).value.0].requires2fa
            ==> r.codes == codes && r.sent == None
                && (r.jar, r.result) == HandleNo2FA(Credentials(request).value.0, jar, now, codec)
    // two-factor authentication: a fresh pair replaces any earlier one, the
    // code mailed is the code stored, and the answer names the stored id
    ensures Credentials(request).Ok? && Matches(users, Credentials(request).value.0, Credentials(request).value.1)
            && users[Credentials(request).value.0].requires2fa
            ==> var email := Credentials(request).value.0;
                var id := DefaultLoginAttemptId(random);
                var code := DefaultTwoFACode(n);
                && r.codes == codes[email := (id, code)]
                && r.jar == jar
                && r.sent == Some(OutgoingEmail(email, EMAIL_SUBJECT, code.AsRef()))
                && (r.result.Ok? <==> sendOk)
                && (r.result.Ok? ==> r.result.value == TwoFactorAuth(TWO_FA_MESSAGE, id.AsRef()))
  {
    match Credentials(request)
    case Err(e) => LoginOutcome(codes, jar, Err(e), None)
    case Ok((email, password)) =>
      if !Matches(users, email, password) then
        LoginOutcome(codes, jar, Err(IncorrectCredentials), None)
      else if users[email].requires2fa then
        var id := DefaultLoginAttemptId(random);
        var code := DefaultTwoFACode(n);
        var (result, sent) := AfterAddCode(Ok(Unit), sendOk, email, id, code);
        LoginOutcome(codes[email := (id, code)], jar, result, sent)
      else
        var (jar', result) := HandleNo2FA(email, jar, now, codec);
        LoginOutcome(codes, jar', result, None)
  }

  /** `login_handler` against the in-memory stores. */
  method LoginHandler(users: UserService.HashMapUserStore, codes: TwoFACodeService.HashmapTwoFACodeStore,
                      jar: CookieJar, request: LoginRequest, random: seq<Text.Byte>, n: nat, sendOk: bool,
                      now: Auth.Timestamp, codec: Auth.JwtCodec)
    returns (jar': CookieJar, result: Result<LoginResponse, AuthAPIError>, sent: Option<OutgoingEmail>)
    requires |random| == 16 && MIN_CODE <= n < MAX_CODE_EXCLUSIVE
    modifies codes
    ensures LoginOutcome(codes.codes, jar', result, sent)
            == LoginSpec(users.users, old(codes.codes), jar, request, random, n, sendOk, now, codec)
  {
    var credentials := Credentials(request);
    if credentials.Err? {
      return jar, Err(InvalidCredentials), None;
    }
    var (email, password) := credentials.value;
    var validated := users.ValidateUser(email, password);
    if validated.Err? {
      return jar, Err(IncorrectCredentials), None;
    }
    var found := users.GetUser(email);
    var user := AfterLookup(validated, found);
    if user.Ok? && user.value.requires2fa {
      jar' := jar;
      result, sent := Handle2FA(codes, email, random, n, sendOk);
    } else if user.Ok? {
      var outcome := HandleNo2FA(email, jar, now, codec);
      jar', result := outcome.0, outcome.1;
      sent := None;
    } else {
      jar', result, sent := jar, Err(IncorrectCredentials), None;
    }
  }
}
