/** The signup route (auth-service/src/routes/signup.rs): validate the
    email and the password, then add the user to the user store. */
module Signup {
  import opened Wrappers
  import Emails
  import Passwords
  import Users
  import opened ApiErrors
  import UserService

  datatype SignupRequest = SignupRequest(email: string, password: string, requires2fa: bool)
  datatype SignupResponse = SignupResponse(message: string)

  const CREATED_MESSAGE: string := "User created successfully!"

  /** The request's user, when both fields are valid. The handler's own
      pre-check (non-empty and containing '@') comes first, then the email
      and the password are parsed; every failure is `InvalidCredentials`. */
  function RequestUser(request: SignupRequest): (r: Result<Users.User, AuthAPIError>)
    ensures r.Ok? <==> '@' in request.email && Passwords.Parse(request.password).Ok?
    ensures r.Ok? ==>
              && r.value.email.AsRef() == request.email
              && r.value.password.AsRef() == request.password
              && r.value.requires2fa == request.requires2fa
    ensures r.Err? ==> r.error == InvalidCredentials
  {
    if |request.email| == 0 || '@' !in request.email then
      Err(InvalidCredentials)
    else
      match Emails.Parse(request.email)
      case Err(_) => Err(InvalidCredentials)
      case Ok(email) =>
        match Passwords.Parse(request.password)
        case Err(_) => Err(InvalidCredentials)
        case Ok(password) => Ok(Users.User(email, password, request.requires2fa))
  }

  /** The handler's pre-check decides nothing that `Email::parse` would not:
      the empty string has no '@'. */
  lemma PreCheckAgreesWithParse(s: string)
    ensures (|s| == 0 || '@' !in s) <==> Emails.Parse(s).Err?
  {
  }

  /** What the handler answers once `add_user` has returned `add`: only
      `UserAlreadyExists` is reported; success and every other store error
      both give the "created" response. */
  function AfterAddUser(add: Result<Unit, Users.UserStoreError>): (r: Result<SignupResponse, AuthAPIError>)
    ensures r.Err? <==> add == Err(Users.UserStoreError.UserAlreadyExists)
    ensures r.Err? ==> r.error == AuthAPIError.UserAlreadyExists
    ensures r.Ok? ==> r.value == SignupResponse(CREATED_MESSAGE)
  {
    if add.Err? && add.error == Users.UserStoreError.UserAlreadyExists then
      Err(AuthAPIError.UserAlreadyExists)
    else
      Ok(SignupResponse(CREATED_MESSAGE))
  }

  /** The whole route over the in-memory user store's map: the new map and
      the answer. An invalid request or a known email leaves the users as
      they were; a valid new user is stored under its email with the
      requested two-factor flag. */
  function SignupSpec(users: map<Emails.Email, Users.User>, request: SignupRequest)
    : (r: (map<Emails.Email, Users.User>, Result<SignupResponse, AuthAPIError>))
    ensures RequestUser(request).Err? ==> r == (users, Err(InvalidCredentials))
    ensures RequestUser(request).Ok? && RequestUser(request).value.email in users
            ==> r == (users, Err(AuthAPIError.UserAlreadyExists))
    ensures RequestUser(request).Ok? && RequestUser(request).value.email !in users
            ==> r == (users[RequestUser(request).value.email := RequestUser(request).value],
                      Ok(SignupResponse(CREATED_MESSAGE)))
  {
    match RequestUser(request)
    case Err(e) => (users, Err(e))
    case Ok(user) =>
      if user.email in users then (users, AfterAddUser(Err(Users.UserStoreError.UserAlreadyExists)))
      else (users[user.email := user], AfterAddUser(Ok(Unit)))
  }

  /** `signup_handler` against the in-memory user store. */
  method SignupHandler(store: UserService.HashMapUserStore, request: SignupRequest)
    returns (r: Result<SignupResponse, AuthAPIError>)
    requires store.Valid()
    modifies store
    ensures store.Valid()
    ensures (store.users, r) == SignupSpec(old(store.users), request)
  {
    var user := RequestUser(request);
    if user.Err? {
      return Err(user.error);
    }
    var add := store.AddUser(user.value);
    r := AfterAddUser(add);
  }

  /** Signing up twice with the same email: the first call creates the
      user, the second is refused with `UserAlreadyExists` (409) and
      changes nothing, whatever its password and flag. */
  lemma DuplicateSignupRefused(users: map<Emails.Email, Users.User>, first: SignupRequest, second: SignupRequest)
    requires RequestUser(first).Ok? && RequestUser(second).Ok?
    requires first.email == second.email
    requires RequestUser(first).value.email !in users
    ensures SignupSpec(users, first).1 == Ok(SignupResponse(CREATED_MESSAGE))
    ensures var after := SignupSpec(users, first).0;
            SignupSpec(after, second) == (after, Err(AuthAPIError.UserAlreadyExists))
  {
    Emails.EqualIffSameAddress(RequestUser(first).value.email, RequestUser(second).value.email);
  }

  /** A valid new user can afterwards be validated with the password it
      signed up with. */
  lemma SignupThenCredentialsMatch(users: map<Emails.Email, Users.User>, request: SignupRequest)
    requires RequestUser(request).Ok? && RequestUser(request).value.email !in users
    ensures var u := RequestUser(request).value;
            var after := SignupSpec(users, request).0;
            u.email in after && after[u.email].password == u.password
            && after[u.email].requires2fa == request.requires2fa
  {
  }
}
