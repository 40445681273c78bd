/** The token-verification route (auth-service/src/routes/verify_token.rs):
    200 for a token that `validate_token` accepts, `InvalidToken` for
    every rejection. */
module VerifyToken {
  import opened Wrappers
  import opened ApiErrors
  import Emails
  import Auth
  import BannedTokenService

  /** The answer for the outcome of `validate_token`. */
  function VerifyTokenResult(validation: Result<Auth.Claims, Auth.TokenValidationError>): (r: Result<Unit, AuthAPIError>)
    ensures r.Ok? <==> validation.Ok?
    ensures r.Err? ==> r.error == InvalidToken
  {
    match validation
    case Ok(_) => Ok(Unit)
    case Err(_) => Err(InvalidToken)
  }

  /** `verify_token` against the in-memory banned-token store, which it
      only reads. */
  method VerifyTokenHandler(token: string, store: BannedTokenService.HashsetBannedTokenStore,
                            now: int, codec: Auth.JwtCodec)
    returns (r: Result<Unit, AuthAPIError>)
    ensures r == VerifyTokenResult(Auth.ValidateToken(token, Ok(token in store.tokens), now, codec))
    ensures token in store.tokens ==> r == Err(InvalidToken)
    ensures token !in store.tokens ==> (r.Ok? <==> codec.decode(token, now).Some?)
  {
    var validation := Auth.CheckToken(token, store, now, codec);
    r := VerifyTokenResult(validation);
  }

  /** Every rejection reason, a banned token, an undecodable one or a store
      failure, collapses to `InvalidToken`. */
  lemma AllRejectionsAreInvalidToken(e: Auth.TokenValidationError)
    ensures VerifyTokenResult(Err(e)) == Err(InvalidToken)
  {
  }

  /** A banned token is refused even when it would decode. */
  lemma BannedTokenRefused(token: string, banned: set<string>, now: int, codec: Auth.JwtCodec)
    requires token in banned
    requires codec.decode(token, now).Some?
    ensures VerifyTokenResult(Auth.ValidateToken(token, Ok(token in banned), now, codec)) == Err(InvalidToken)
  {
  }

  /** A string that is not a compact token is refused. */
  lemma MalformedTokenRefused(token: string, banned: set<string>, now: int, codec: Auth.JwtCodec)
    requires Auth.WellBehaved(codec)
    requires !Auth.IsCompactJws(token)
    ensures VerifyTokenResult(Auth.ValidateToken(token, Ok(token in banned), now, codec)) == Err(InvalidToken)
  {
    Auth.MalformedTokenRejected(token, Ok(token in banned), now, codec);
  }

  /** A token freshly issued for an email and not banned is accepted within
      the following minute. */
  lemma FreshTokenAccepted(email: Emails.Email, now: Auth.Timestamp, later: int, banned: set<string>, codec: Auth.JwtCodec)
    requires Auth.WellBehaved(codec)
    requires 0 <= now + Auth.TOKEN_TTL_SECONDS <= Auth.MAX_TIMESTAMP
    requires now <= later < now + 60
    requires Auth.GenerateAuthToken(email, now, codec).Ok? ==> Auth.GenerateAuthToken(email, now, codec).value !in banned
    ensures Auth.GenerateAuthToken(email, now, codec).Ok?
    ensures var token := Auth.GenerateAuthToken(email, now, codec).value;
            VerifyTokenResult(Auth.ValidateToken(token, Ok(token in banned), later, codec)) == Ok(Unit)
  {
    Auth.GenerateThenValidate(email, now, later, Ok(false), codec);
  }
}
