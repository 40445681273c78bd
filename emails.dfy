/** The validated email address that identifies a user
    (auth-service/src/domain/email.rs). The wrapped string is private in the
    source, so `Parse` is the only way to build one and every `Email`
    contains '@'. Equality is the derived, field-wise one. */
module Emails {
  import opened Wrappers

  datatype EmailValue = EmailValue(address: string) {
    /** `Email::as_ref`: the address as written. */
    function AsRef(): string {
      address
    }
  }

  type Email = e: EmailValue | '@' in e.address witness EmailValue("@")

  datatype EmailError = EmailError(message: string)

  const PARSE_ERROR_MESSAGE: string := "Could not parse email address"

  /** `Email::parse`. */
  function Parse(s: string): (r: Result<Email, EmailError>)
    ensures r.Ok? <==> '@' in s
    ensures r.Ok? ==> r.value.AsRef() == s
    ensures r.Err? ==> r.error == EmailError(PARSE_ERROR_MESSAGE)
  {
    if '@' in s then Ok(EmailValue(s)) else Err(EmailError(PARSE_ERROR_MESSAGE))
  }

  /** Every email re-parses to itself from its own string. */
  lemma ParseAsRef(e: Email)
    ensures Parse(e.AsRef()) == Ok(e)
  {
  }

  /** Two emails are equal exactly when their strings are. */
  lemma EqualIffSameAddress(a: Email, b: Email)
    ensures a == b <==> a.AsRef() == b.AsRef()
  {
  }

  /** The cases of the module's unit tests. */
  lemma ParseExamples()
    ensures Parse("hello") == Err(EmailError(PARSE_ERROR_MESSAGE))
    ensures Parse("") == Err(EmailError(PARSE_ERROR_MESSAGE))
    ensures Parse("ken@cttm.io") == Ok(EmailValue("ken@cttm.io"))
  {
    assert "ken@cttm.io"[3] == '@';
  }
}
