/** The logout route (auth-service/src/routes/logout.rs): take the jwt
    cookie, check the token, and return the jar without the cookie.

    `LogoutAsWritten` is the route as the source has it: the token is never
    added to the banned-token store, so it stays usable until it expires.
    `LogoutSpec` and `LogoutHandler` are the route as its integration test
    expects it (auth-service/tests/api/logout.rs:53-54): a valid token is
    banned before the cookie is removed. */
module Logout {
  import opened Wrappers
  import opened Cookies
  import opened ApiErrors
  import Emails
  import Auth
  import BannedTokenService

  /** The jwt cookie's token, if the jar has one. */
  function TokenIn(jar: CookieJar): (r: Option<string>)
    ensures r.Some? <==> jar.Get(Auth.JWT_COOKIE_NAME).Some?
    ensures r.Some? ==> r.value == jar.Get(Auth.JWT_COOKIE_NAME).value.value
  {
    match jar.Get(Auth.JWT_COOKIE_NAME)
    case None => None
    case Some(cookie) => Some(cookie.value)
  }

  /** `logout_handler` as written; `banned` is what the banned-token store
      holds when the token is checked. No cookie is `MissingToken`, a token
      that does not validate is `InvalidToken`, both with the jar unchanged;
      otherwise the cookie is removed. */
  function LogoutAsWritten(jar: CookieJar, banned: set<string>, now: int, codec: Auth.JwtCodec)
    : (r: (CookieJar, Result<Unit, AuthAPIError>))
    ensures TokenIn(jar).None? ==> r == (jar, Err(MissingToken))
    ensures TokenIn(jar).Some? && Auth.ValidateToken(TokenIn(jar).value, Ok(TokenIn(jar).value in banned), now, codec).Err?
            ==> r == (jar, Err(InvalidToken))
    ensures r.1.Ok? <==> TokenIn(jar).Some?
                         && Auth.ValidateToken(TokenIn(jar).value, Ok(TokenIn(jar).value in banned), now, codec).Ok?
    ensures r.1.Ok? ==> r.0 == jar.Remove(Auth.JWT_COOKIE_NAME) && r.0.Get(Auth.JWT_COOKIE_NAME).None?
  {
    match TokenIn(jar)
    case None => (jar, Err(MissingToken))
    case Some(token) =>
      match Auth.ValidateToken(token, Ok(token in banned), now, codec)
      case Err(_) => (jar, Err(InvalidToken))
      case Ok(_) => (jar.Remove(Auth.JWT_COOKIE_NAME), Ok(Unit))
  }

  /** The defect: a freshly issued, unbanned token is accepted by logout,
      and afterwards, the banned-token store being untouched, the same
      token is still accepted by `validate_token`. */
  lemma LogoutAsWrittenLeavesTokenValid(email: Emails.Email, now: Auth.Timestamp, banned: set<string>, codec: Auth.JwtCodec)
    requires Auth.WellBehaved(codec)
    requires 0 <= now + Auth.TOKEN_TTL_SECONDS <= Auth.MAX_TIMESTAMP
    requires Auth.GenerateAuthToken(email, now, codec).Ok? ==> Auth.GenerateAuthToken(email, now, codec).value !in banned
    ensures Auth.GenerateAuthToken(email, now, codec).Ok?
    ensures var token := Auth.GenerateAuthToken(email, now, codec).value;
            var jar := EmptyJar.Add(Auth.CreateAuthCookie(token));
            && LogoutAsWritten(jar, banned, now, codec).1 == Ok(Unit)
            && token !in banned
            && Auth.ValidateToken(token, Ok(token in banned), now, codec).Ok?
  {
    Auth.GenerateThenValidate(email, now, now, Ok(false), codec);
  }

  /** What the corrected route answers once `add_token` has returned
      `added`: a failed ban is `UnexpectedError` with the cookie kept;
      otherwise the cookie is removed. */
  function AfterBan(added: Result<Unit, BannedTokenService.BannedTokenStoreError>, jar: CookieJar)
    : (r: (CookieJar, Result<Unit, AuthAPIError>))
    ensures added.Err? ==> r == (jar, Err(UnexpectedError))
    ensures added.Ok? ==> r == (jar.Remove(Auth.JWT_COOKIE_NAME), Ok(Unit))
  {
    if added.Err? then (jar, Err(UnexpectedError)) else (jar.Remove(Auth.JWT_COOKIE_NAME), Ok(Unit))
  }

  /** The corrected route over the banned-token set: the returned jar, the
      new set and the answer. It answers as `LogoutAsWritten` does, and in
      addition bans the token exactly when logout succeeds. */
  function LogoutSpec(jar: CookieJar, banned: set<string>, now: int, codec: Auth.JwtCodec)
    : (r: (CookieJar, set<string>, Result<Unit, AuthAPIError>))
    ensures (r.0, r.2) == LogoutAsWritten(jar, banned, now, codec)
    ensures r.2.Ok? ==> r.1 == banned + {TokenIn(jar).value}
    ensures r.2.Err? ==> r.1 == banned
  {
    match TokenIn(jar)
    case None => (jar, banned, Err(MissingToken))
    case Some(token) =>
      match Auth.ValidateToken(token, Ok(token in banned), now, codec)
      case Err(_) => (jar, banned, Err(InvalidToken))
      case Ok(_) =>
        var (jar', result) := AfterBan(Ok(Unit), jar);
        (jar', banned + {token}, result)
  }

  /** `logout_handler` with the ban, against the in-memory banned-token
      store. */
  method LogoutHandler(jar: CookieJar, store: BannedTokenService.HashsetBannedTokenStore,
                       now: int, codec: Auth.JwtCodec)
    returns (jar': CookieJar, result: Result<Unit, AuthAPIError>)
    modifies store
    ensures (jar', store.tokens, result) == LogoutSpec(jar, old(store.tokens), now, codec)
  {
    var token := TokenIn(jar);
    if token.None? {
      return jar, Err(MissingToken);
    }
    var validation := Auth.CheckToken(token.value, store, now, codec);
    if validation.Err? {
      return jar, Err(InvalidToken);
    }
    var added := store.AddToken(token.value);
    var outcome := AfterBan(added, jar);
    jar', result := outcome.0, outcome.1;
  }

  /** After a successful logout the token is refused as banned, at any later
      time. */
  lemma LogoutRevokesToken(jar: CookieJar, banned: set<string>, now: int, later: int, codec: Auth.JwtCodec)
    requires LogoutSpec(jar, banned, now, codec).2.Ok?
    ensures var token := TokenIn(jar).value;
            Auth.ValidateToken(token, Ok(token in LogoutSpec(jar, banned, now, codec).1), later, codec)
              == Err(Auth.BannedToken)
  {
  }

  /** Logging out twice in a row: the second call finds no cookie and
      answers `MissingToken`, changing nothing. */
  lemma LogoutTwice(jar: CookieJar, banned: set<string>, now: int, codec: Auth.JwtCodec)
    requires LogoutSpec(jar, banned, now, codec).2.Ok?
    ensures var (jar', banned', _) := LogoutSpec(jar, banned, now, codec);
            LogoutSpec(jar', banned', now, codec) == (jar', banned', Err(MissingToken))
  {
  }
}
