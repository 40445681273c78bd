/** The values of the two-factor code store
    (auth-service/src/domain/data_stores/two_fa_code_store.rs): the login
    attempt id, the six-digit code and the store's error values. Random
    sources (`Uuid::new_v4`, `thread_rng`) are parameters of the defaults. */
module TwoFACodes {
  import opened Wrappers
  import opened Text
  import Uuid

  datatype TwoFACodeStoreError = LoginAttemptIdNotFound | UnexpectedError

  // ---------------------------------------------------------------------
  // LoginAttemptId

  datatype LoginAttemptId = LoginAttemptId(id: string) {
    /** `LoginAttemptId::as_ref`. */
    function AsRef(): string {
      id
    }
  }

  const ATTEMPT_ID_ERROR: string := "could not parse login attempt id"

  /** `LoginAttemptId::parse`: the input must be a UUID in one of the forms
      `Uuid::parse_str` accepts; the id kept is its canonical rendering, not
      the input. */
  function ParseLoginAttemptId(s: string): (r: Result<LoginAttemptId, string>)
    ensures r.Ok? <==> Uuid.ParseStr(s).Some?
    ensures r.Ok? ==> exists b: Uuid.Bytes :: |b| == 16 && Uuid.ParseStr(s) == Some(b) && r.value.AsRef() == Uuid.Hyphenated(b)
    ensures r.Err? ==> r.error == ATTEMPT_ID_ERROR
  {
    Uuid.ParseStrLength(s);
    match Uuid.ParseStr(s)
    case Some(b) => Ok(LoginAttemptId(Uuid.Hyphenated(b)))
    case None => Err(ATTEMPT_ID_ERROR)
  }

  /** `LoginAttemptId::default`, given the 16 random bytes `new_v4` draws. */
  function DefaultLoginAttemptId(random: Uuid.Bytes): LoginAttemptId
    requires |random| == 16
  {
    LoginAttemptId(Uuid.Hyphenated(Uuid.NewV4(random)))
  }

  /** A parsed id is canonical: parsing its own string gives it back. */
  lemma ParsedLoginAttemptIdIsCanonical(s: string)
    requires ParseLoginAttemptId(s).Ok?
    ensures ParseLoginAttemptId(ParseLoginAttemptId(s).value.AsRef()) == ParseLoginAttemptId(s)
  {
    Uuid.ParseStrLength(s);
    Uuid.ParseHyphenatedRoundTrip(Uuid.ParseStr(s).value);
  }

  /** A freshly generated id is accepted by the parser unchanged. */
  lemma DefaultLoginAttemptIdParses(random: Uuid.Bytes)
    requires |random| == 16
    ensures ParseLoginAttemptId(DefaultLoginAttemptId(random).AsRef()) == Ok(DefaultLoginAttemptId(random))
  {
    Uuid.ParseHyphenatedRoundTrip(Uuid.NewV4(random));
  }

  /** The other forms `Uuid::parse_str` accepts (plain hex digits, braces,
      the URN prefix) are stored in the hyphenated form: the stored id need
      not be the string submitted. */
  lemma PlainFormCanonicalised(b: Uuid.Bytes)
    requires |b| == 16
    ensures ParseLoginAttemptId(HexString(b)) == Ok(LoginAttemptId(Uuid.Hyphenated(b)))
  {
    ParseHexRoundTrip(b);
    assert Uuid.ParseStr(HexString(b)) == Some(b);
  }

  lemma BracedFormCanonicalised(b: Uuid.Bytes)
    requires |b| == 16
    ensures ParseLoginAttemptId("{" + Uuid.Hyphenated(b) + "}") == Ok(LoginAttemptId(Uuid.Hyphenated(b)))
  {
    var h := Uuid.Hyphenated(b);
    var s := "{" + h + "}";
    assert |s| == 38 && s[0] == '{' && s[37] == '}' && s[1..37] == h;
    Uuid.ParseHyphenatedRoundTrip(b);
    assert Uuid.ParseStr(s) == Uuid.ParseHyphenated(h);
  }

  lemma UrnFormCanonicalised(b: Uuid.Bytes)
    requires |b| == 16
    ensures ParseLoginAttemptId(Uuid.URN_PREFIX + Uuid.Hyphenated(b)) == Ok(LoginAttemptId(Uuid.Hyphenated(b)))
  {
    var h := Uuid.Hyphenated(b);
    var s := Uuid.URN_PREFIX + h;
    assert |s| == 45 && s[..9] == Uuid.URN_PREFIX && s[9..] == h;
    Uuid.ParseHyphenatedRoundTrip(b);
    assert Uuid.ParseStr(s) == Uuid.ParseHyphenated(h);
  }

  /** A malformed id such as "oij" is rejected. */
  lemma ShortIdRejected()
    ensures ParseLoginAttemptId("oij") == Err(ATTEMPT_ID_ERROR)
  {
  }

  // ---------------------------------------------------------------------
  // TwoFACode

  datatype TwoFACodeValue = TwoFACodeValue(code: string) {
    /** `TwoFACode::as_ref`. */
    function AsRef(): string {
      code
    }
  }

  /** The wrapped string is private, so every code has six decimal digits. */
  type TwoFACode = c: TwoFACodeValue | |c.code| == 6 && AllDigits(c.code) witness TwoFACodeValue("000000")

  const CODE_LENGTH_ERROR: string := "could not parse FA Code"
  const CODE_DIGIT_ERROR: string := "could not parse FA Code because a non-digit was found"

  /** `TwoFACode::parse`: the byte length must be 6, and then every
      character a decimal digit; the length is tested first. */
  function ParseTwoFACode(s: string): (r: Result<TwoFACode, string>)
    ensures r.Ok? <==> |s| == 6 && AllDigits(s)
    ensures r.Ok? ==> r.value.AsRef() == s
    ensures Utf8Len(s) != 6 ==> r == Err(CODE_LENGTH_ERROR)
    ensures Utf8Len(s) == 6 && !AllDigits(s) ==> r == Err(CODE_DIGIT_ERROR)
  {
    Utf8LenIsLengthIffAscii(s);
    if Utf8Len(s) != 6 then Err(CODE_LENGTH_ERROR)
    else if !AllDigits(s) then Err(CODE_DIGIT_ERROR)
    else Ok(TwoFACodeValue(s))
  }

  const MIN_CODE: nat := 100000
  const MAX_CODE_EXCLUSIVE: nat := 1000000

  /** `TwoFACode::default`, given the number `gen_range(100000..1000000)`
      draws: its decimal rendering, which always has six digits. */
  function DefaultTwoFACode(n: nat): (c: TwoFACode)
    requires MIN_CODE <= n < MAX_CODE_EXCLUSIVE
    ensures DigitsValue(c.AsRef()) == n
  {
    DecimalStringLength(n, 5);
    DecimalStringValue(n);
    TwoFACodeValue(DecimalString(n))
  }

  /** A generated code passes the parser unchanged. */
  lemma DefaultTwoFACodeParses(n: nat)
    requires MIN_CODE <= n < MAX_CODE_EXCLUSIVE
    ensures ParseTwoFACode(DefaultTwoFACode(n).AsRef()) == Ok(DefaultTwoFACode(n))
  {
  }

  /** Too-short input gets the length error, even with non-digits in it. */
  lemma ParseTwoFACodeExamples()
    ensures ParseTwoFACode("12") == Err(CODE_LENGTH_ERROR)
    ensures ParseTwoFACode("ab") == Err(CODE_LENGTH_ERROR)
    ensures ParseTwoFACode("12345a") == Err(CODE_DIGIT_ERROR)
    ensures ParseTwoFACode("111111") == Ok(TwoFACodeValue("111111"))
  {
    assert !IsDigit("12345a"[5]);
  }
}
