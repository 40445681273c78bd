/** The in-memory two-factor code store
    (auth-service/src/services/hashmap_two_fa_code_store.rs): at most one
    (login attempt id, code) pair per email, overwritten by each new login. */
module TwoFACodeService {
  import opened Wrappers
  import opened Emails
  import opened TwoFACodes

  type CodeMap = map<Email, (LoginAttemptId, TwoFACode)>

  class HashmapTwoFACodeStore {
    var codes: CodeMap

    /** `HashmapTwoFACodeStore::default`: no pending codes. */
    constructor ()
      ensures codes == map[]
    {
      codes := map[];
    }

    /** `add_code`: never fails; the new pair replaces any earlier one for
        the same email (last write wins) and no other entry changes. */
    method AddCode(email: Email, loginAttemptId: LoginAttemptId, code: TwoFACode)
      returns (r: Result<Unit, TwoFACodeStoreError>)
      modifies this
      ensures r == Ok(Unit)
      ensures codes == old(codes)[email := (loginAttemptId, code)]
      ensures forall e :: e != email ==> (e in codes <==> e in old(codes))
      ensures forall e :: e != email && e in codes ==> codes[e] == old(codes)[e]
    {
      codes := codes[email := (loginAttemptId, code)];
      r := Ok(Unit);
    }

    /** `remove_code`: never fails, also when nothing is stored; afterwards
        the email has no entry and no other entry changes. */
    method RemoveCode(email: Email) returns (r: Result<Unit, TwoFACodeStoreError>)
      modifies this
      ensures r == Ok(Unit)
      ensures codes == old(codes) - {email}
      ensures email !in codes
      ensures forall e :: e != email ==> (e in codes <==> e in old(codes))
      ensures forall e :: e != email && e in codes ==> codes[e] == old(codes)[e]
    {
      codes := codes - {email};
      r := Ok(Unit);
    }

    /** `get_code`: the stored pair, or `LoginAttemptIdNotFound`; reads only. */
    method GetCode(email: Email) returns (r: Result<(LoginAttemptId, TwoFACode), TwoFACodeStoreError>)
      ensures email in codes ==> r == Ok(codes[email])
      ensures email !in codes ==> r == Err(LoginAttemptIdNotFound)
    {
      if email in codes {
        r := Ok(codes[email]);
      } else {
        r := Err(LoginAttemptIdNotFound);
      }
    }
  }

  /** The module's unit test: adding a generated code to a new store
      succeeds, and the pair can then be read back. */
  method AddCodeToNewStore(email: Email, random: seq<Text.Byte>, n: nat)
    returns (r: Result<Unit, TwoFACodeStoreError>, got: Result<(LoginAttemptId, TwoFACode), TwoFACodeStoreError>)
    requires |random| == 16 && MIN_CODE <= n < MAX_CODE_EXCLUSIVE
    ensures r == Ok(Unit)
    ensures got == Ok((DefaultLoginAttemptId(random), DefaultTwoFACode(n)))
  {
    var store := new HashmapTwoFACodeStore();
    r := store.AddCode(email, DefaultLoginAttemptId(random), DefaultTwoFACode(n));
    got := store.GetCode(email);
  }
}
