/** The token service (auth-service/src/utils/auth.rs): JWT issuance with a
    ten-minute expiry, validation against the banned-token store, and the
    auth cookie that carries the token.

    The clock is the parameter `now` (whole seconds since the Unix epoch).
    JSON Web Token signing and verification are a codec given as a value;
    what the service relies on of it is the hypothesis `WellBehaved`. */
module Auth {
  import opened Wrappers
  import opened Emails
  import opened Cookies
  import BannedTokenService

  /** How long an issued token stays valid. */
  const TOKEN_TTL_SECONDS: int := 600

  /** The name of the cookie that carries the token. */
  const JWT_COOKIE_NAME: string := "jwt"

  /** The range of the UTC date-time type, in seconds since the epoch:
      January 1 of year -262143 (262144 BCE) up to December 31 of 262142 CE, 23:59:59. */
  const MIN_TIMESTAMP: int := -8334601315200
  const MAX_TIMESTAMP: int := 8210266876799
  type Timestamp = t: int | MIN_TIMESTAMP <= t <= MAX_TIMESTAMP

  const I64_MAX: int := 0x7fff_ffff_ffff_ffff
  const USIZE_MAX: int := 0xffff_ffff_ffff_ffff
  type Usize = x: int | 0 <= x <= USIZE_MAX

  /** The JWT payload. */
  datatype Claims = Claims(sub: string, exp: Usize)

  /** The ways issuing a token can fail, one per fallible step. */
  datatype TokenError =
    | DeltaOutOfRange       // "failed to create 10 minute time delta"
    | TimestampOutOfRange   // "failed to add 10 minutes to current time"
    | ExpiryNotUsize        // "failed to cast exp time to usize"
    | EncodingFailed        // "failed to create token"

  datatype TokenValidationError = BannedToken | InvalidToken | IssueWithBannedStore

  /** `TimeDelta::try_seconds`: a duration exists for at most
      `i64::MAX / 1000` seconds either way. */
  function TrySeconds(seconds: int): (r: Option<int>)
    ensures r.Some? <==> -(I64_MAX / 1000) <= seconds <= I64_MAX / 1000
    ensures r.Some? ==> r.value == seconds
  {
    if seconds < -(I64_MAX / 1000) || seconds > I64_MAX / 1000 then None else Some(seconds)
  }

  /** `DateTime::checked_add_signed`: `None` when the sum leaves the
      date-time range. */
  function CheckedAddSeconds(t: Timestamp, delta: int): (r: Option<Timestamp>)
    ensures r.Some? <==> MIN_TIMESTAMP <= t + delta <= MAX_TIMESTAMP
    ensures r.Some? ==> r.value == t + delta
  {
    if MIN_TIMESTAMP <= t + delta <= MAX_TIMESTAMP then Some(t + delta) else None
  }

  /** `i64::try_into::<usize>` on a 64-bit target. */
  function ToUsize(x: int): (r: Option<Usize>)
    ensures r.Some? <==> 0 <= x <= USIZE_MAX
    ensures r.Some? ==> r.value == x
  {
    if 0 <= x <= USIZE_MAX then Some(x) else None
  }

  /** The claims `generate_auth_token` signs for `email` at time `now`:
      subject the email, expiry `now + 600`. Issuance is refused when that
      expiry lies past the end of the date-time range or before the epoch
      (it would not fit a `usize`). */
  function AuthClaims(email: Email, now: Timestamp): (r: Result<Claims, TokenError>)
    ensures r.Ok? <==> 0 <= now + TOKEN_TTL_SECONDS <= MAX_TIMESTAMP
    ensures r.Ok? ==> r.value.sub == email.AsRef() && r.value.exp == now + TOKEN_TTL_SECONDS
    ensures now + TOKEN_TTL_SECONDS > MAX_TIMESTAMP ==> r == Err(TimestampOutOfRange)
    ensures now + TOKEN_TTL_SECONDS < 0 ==> r == Err(ExpiryNotUsize)
  {
    match TrySeconds(TOKEN_TTL_SECONDS)
    case None => Err(DeltaOutOfRange)
    case Some(delta) =>
      match CheckedAddSeconds(now, delta)
      case None => Err(TimestampOutOfRange)
      case Some(exp) =>
        match ToUsize(exp)
        case None => Err(ExpiryNotUsize)
        case Some(exp) => Ok(Claims(email.AsRef(), exp))
  }

  /** JSON Web Token signing and verification with the service's secret:
      `encode` may fail; `decode(token, now)` yields the claims of a token
      that carries a valid signature and has not expired at `now`. */
  datatype JwtCodec = JwtCodec(encode: Claims -> Option<string>,
                               decode: (string, int) -> Option<Claims>)

  /** The number of occurrences of `c` in `s`; splitting `s` on `c` gives
      one more part than this. */
  function Occurrences(s: string, c: char): (n: nat)
    ensures n <= |s|
    ensures n == 0 <==> c !in s
  {
    if |s| == 0 then 0 else (if s[0] == c then 1 else 0) + Occurrences(s[1..], c)
  }

  /** A token in compact JWS form: header, payload and signature separated
      by two dots. */
  predicate IsCompactJws(token: string)
  {
    Occurrences(token, '.') == 2
  }

  /** What the service assumes of the JWT library: signing never fails and
      yields a compact token; a token it signed decodes to the signed claims
      at any time up to their expiry; only compact tokens decode. */
  ghost predicate WellBehaved(codec: JwtCodec)
  {
    && (forall c: Claims :: codec.encode(c).Some? && IsCompactJws(codec.encode(c).value))
    && (forall c: Claims, now: int :: now <= c.exp && codec.encode(c).Some? ==>
          codec.decode(codec.encode(c).value, now) == Some(c))
    && (forall token: string, now: int :: codec.decode(token, now).Some? ==> IsCompactJws(token))
  }

  /** `create_token`: the claims signed by the codec. */
  function CreateToken(claims: Claims, codec: JwtCodec): (r: Result<string, TokenError>)
    ensures r.Ok? <==> codec.encode(claims).Some?
    ensures r.Ok? ==> Some(r.value) == codec.encode(claims)
    ensures r.Err? ==> r.error == EncodingFailed
  {
    match codec.encode(claims)
    case None => Err(EncodingFailed)
    case Some(token) => Ok(token)
  }

  /** `generate_auth_token`: fails exactly when the claims cannot be formed
      or not be signed; otherwise the token is the signed `AuthClaims`. */
  function GenerateAuthToken(email: Email, now: Timestamp, codec: JwtCodec): (r: Result<string, TokenError>)
    ensures r.Ok? <==> AuthClaims(email, now).Ok? && codec.encode(AuthClaims(email, now).value).Some?
    ensures r.Ok? ==> Some(r.value) == codec.encode(AuthClaims(email, now).value)
    ensures AuthClaims(email, now).Err? ==> r == Err(AuthClaims(email, now).error)
  {
    match AuthClaims(email, now)
    case Err(e) => Err(e)
    case Ok(claims) => CreateToken(claims, codec)
  }

  /** `validate_token`, given the banned store's answer `lookup` for this
      token: only a definite "banned" rejects the token before decoding;
      a "not banned" or a store error both fall through to the decoder,
      whose every failure is `InvalidToken`. `IssueWithBannedStore` is
      never produced. */
  function ValidateToken(token: string, lookup: Result<bool, BannedTokenService.BannedTokenStoreError>,
                         now: int, codec: JwtCodec): (r: Result<Claims, TokenValidationError>)
    ensures lookup == Ok(true) ==> r == Err(BannedToken)
    ensures lookup != Ok(true) ==> (r.Ok? <==> codec.decode(token, now).Some?)
    ensures lookup != Ok(true) && r.Ok? ==> Some(r.value) == codec.decode(token, now)
    ensures lookup != Ok(true) && r.Err? ==> r.error == InvalidToken
    ensures r != Err(IssueWithBannedStore)
  {
    if lookup == Ok(true) then
      Err(BannedToken)
    else
      match codec.decode(token, now)
      case None => Err(InvalidToken)
      case Some(claims) => Ok(claims)
  }

  /** `validate_token` against the banned-token store itself; only reads
      the store. */
  method CheckToken(token: string, store: BannedTokenService.HashsetBannedTokenStore, now: int, codec: JwtCodec)
    returns (r: Result<Claims, TokenValidationError>)
    ensures r == ValidateToken(token, Ok(token in store.tokens), now, codec)
    ensures token in store.tokens ==> r == Err(BannedToken)
  {
    var lookup := store.ContainsToken(token);
    r := ValidateToken(token, lookup, now, codec);
  }

  /** `create_auth_cookie`. */
  function CreateAuthCookie(token: string): (c: Cookie)
    ensures c.name == JWT_COOKIE_NAME && c.value == token
    ensures c.path == Some("/") && c.httpOnly == Some(true) && c.sameSite == Some(Lax)
  {
    Cookie(JWT_COOKIE_NAME, token, Some("/"), Some(true), Some(Lax))
  }

  /** `generate_auth_cookie`: the auth cookie around a freshly issued token,
      failing exactly when issuance fails. */
  function GenerateAuthCookie(email: Email, now: Timestamp, codec: JwtCodec): (r: Result<Cookie, TokenError>)
    ensures r.Ok? <==> GenerateAuthToken(email, now, codec).Ok?
    ensures r.Ok? ==> r.value == CreateAuthCookie(GenerateAuthToken(email, now, codec).value)
    ensures r.Err? ==> r.error == GenerateAuthToken(email, now, codec).error
  {
    match GenerateAuthToken(email, now, codec)
    case Err(e) => Err(e)
    case Ok(token) => Ok(CreateAuthCookie(token))
  }

  /** Issuance at any time at which the expiry fits the date-time range
      produces a compact three-part token. */
  lemma GeneratedTokenIsCompact(email: Email, now: Timestamp, codec: JwtCodec)
    requires WellBehaved(codec)
    requires 0 <= now + TOKEN_TTL_SECONDS <= MAX_TIMESTAMP
    ensures GenerateAuthToken(email, now, codec).Ok?
    ensures IsCompactJws(GenerateAuthToken(email, now, codec).value)
  {
    var c := AuthClaims(email, now).value;
    assert codec.encode(c).Some? && IsCompactJws(codec.encode(c).value);
  }

  /** The round trip: a token issued at `now` and not banned validates at
      any `later` within the following minute to its own claims, whose
      subject is the email and whose expiry is more than nine minutes after
      `later`. */
  lemma GenerateThenValidate(email: Email, now: Timestamp, later: int, lookup: Result<bool, BannedTokenService.BannedTokenStoreError>, codec: JwtCodec)
    requires WellBehaved(codec)
    requires 0 <= now + TOKEN_TTL_SECONDS <= MAX_TIMESTAMP
    requires now <= later < now + 60
    requires lookup != Ok(true)
    ensures GenerateAuthToken(email, now, codec).Ok?
    ensures var r := ValidateToken(GenerateAuthToken(email, now, codec).value, lookup, later, codec);
            r == Ok(Claims(email.AsRef(), now + TOKEN_TTL_SECONDS)) && r.value.exp > later + 9 * 60
  {
    var c := AuthClaims(email, now).value;
    assert codec.encode(c).Some?;
    assert later <= c.exp;
    assert codec.decode(codec.encode(c).value, later) == Some(c);
  }

  /** A string that is not in compact form, such as `"invalid_token"`, is
      never accepted, whatever the banned store answers. */
  lemma MalformedTokenRejected(token: string, lookup: Result<bool, BannedTokenService.BannedTokenStoreError>, now: int, codec: JwtCodec)
    requires WellBehaved(codec)
    requires !IsCompactJws(token)
    ensures ValidateToken(token, lookup, now, codec).Err?
  {
    assert codec.decode(token, now).None?;
  }

  lemma InvalidTokenLiteralNotCompact()
    ensures !IsCompactJws("invalid_token")
  {
    var t := "invalid_token";
    assert forall i :: 0 <= i < |t| ==> t[i] != '.';
  }

  /** A banned token is refused whatever the decoder would say of it. */
  lemma BannedTokenRejected(token: string, store: set<string>, now: int, codec: JwtCodec)
    requires token in store
    ensures ValidateToken(token, Ok(token in store), now, codec) == Err(BannedToken)
  {
  }
}
