/** The password policy (auth-service/src/domain/password.rs). The length
    checked is `String::len`, the UTF-8 byte length, not the number of
    characters. The wrapped string is public in the source, so a `Password`
    can also be built directly. */
module Passwords {
  import opened Wrappers
  import opened Text

  const MIN_PASSWORD_BYTES: nat := 8

  datatype Password = Password(value: string) {
    /** `Password::as_ref`. */
    function AsRef(): string {
      value
    }
  }

  datatype PasswordError = PasswordError(message: string)

  const TOO_SHORT_MESSAGE: string := "Password too short"

  /** `Password::parse`. */
  function Parse(s: string): (r: Result<Password, PasswordError>)
    ensures r.Ok? <==> Utf8Len(s) >= MIN_PASSWORD_BYTES
    ensures r.Ok? ==> r.value.AsRef() == s
    ensures r.Err? ==> r.error == PasswordError(TOO_SHORT_MESSAGE)
  {
    if Utf8Len(s) >= MIN_PASSWORD_BYTES then Ok(Password(s)) else Err(PasswordError(TOO_SHORT_MESSAGE))
  }

  /** Any string of at least eight characters is long enough. */
  lemma LongStringAccepted(s: string)
    requires |s| >= 8
    ensures Parse(s) == Ok(Password(s))
  {
    Utf8LenAtLeastLength(s);
  }

  /** For ASCII input the byte length is the character count, so exactly the
      strings of eight or more characters are accepted (8 passes, 7 fails). */
  lemma AsciiThreshold(s: string)
    requires forall i :: 0 <= i < |s| ==> IsAscii(s[i])
    ensures Parse(s).Ok? <==> |s| >= 8
  {
    Utf8LenIsLengthIffAscii(s);
  }

  /** Four two-byte characters make eight bytes, so such a password is
      accepted although it has only four characters. */
  lemma FourTwoByteCharactersAccepted()
    ensures Parse("éééé").Ok?
  {
    var s := "éééé";
    assert Utf8Width('é') == 2;
    assert s[1..][1..][1..][1..] == [];
    assert Utf8Len(s) == 8;
  }

  /** The cases of the module's unit tests. */
  lemma ParseExamples()
    ensures Parse("a") == Err(PasswordError(TOO_SHORT_MESSAGE))
    ensures Parse("woefijwoeifjweoifjwoifja") == Ok(Password("woefijwoeifjweoifjwoifja"))
  {
    assert Utf8Len("a") == 1;
    LongStringAccepted("woefijwoeifjweoifjwoifja");
  }
}
