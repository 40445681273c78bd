/** The earlier user store (auth-service/src/services/hashmap_user_store.rs),
    written when a user's email and password were still plain strings: the
    map is keyed by the email string and nothing is validated. */
module LegacyUserService {
  import opened Wrappers
  import opened Users

  /** The user record of that stage: unvalidated strings. */
  datatype LegacyUser = LegacyUser(email: string, password: string, requires2fa: bool)

  class HashMapUserStore {
    var users: map<string, LegacyUser>

    ghost predicate Valid()
      reads this
    {
      forall e :: e in users ==> users[e].email == e
    }

    constructor ()
      ensures users == map[] && Valid()
    {
      users := map[];
    }

    /** `add_user`: a known email string is refused with `UserAlreadyExists`
        and the map is unchanged; a new one is inserted and the call succeeds. */
    method AddUser(user: LegacyUser) returns (r: Result<Unit, UserStoreError>)
      requires Valid()
      modifies this
      ensures Valid()
      ensures old(user.email in users) ==> r == Err(UserAlreadyExists) && users == old(users)
      ensures old(user.email !in users) ==> r == Ok(Unit) && users == old(users)[user.email := user]
    {
      if user.email in users {
        r := Err(UserAlreadyExists);
      } else {
        users := users[user.email := user];
        r := Ok(Unit);
      }
    }

    /** `get_user`: the stored user or `UserNotFound`; reads only. */
    method GetUser(email: string) returns (r: Result<LegacyUser, UserStoreError>)
      ensures email in users ==> r == Ok(users[email])
      ensures email !in users ==> r == Err(UserNotFound)
      ensures Valid() && r.Ok? ==> r.value.email == email
    {
      if email in users {
        r := Ok(users[email]);
      } else {
        r := Err(UserNotFound);
      }
    }

    /** `validate_user`: Ok exactly when the email is known and its password
        string equals `password`; `InvalidCredentials` for a known email with
        another password; `UserNotFound` otherwise; reads only. */
    method ValidateUser(email: string, password: string) returns (r: Result<Unit, UserStoreError>)
      ensures email in users && users[email].password == password ==> r == Ok(Unit)
      ensures email !in users ==> r == Err(UserNotFound)
      ensures email in users && users[email].password != password ==> r == Err(InvalidCredentials)
    {
      if email in users {
        if users[email].password == password {
          r := Ok(Unit);
        } else {
          r := Err(InvalidCredentials);
        }
      } else {
        r := Err(UserNotFound);
      }
    }
  }

  /** The module's unit tests: add to a new store succeeds, the user is read
      back unchanged, and its own password validates. */
  method AddGetValidate(user: LegacyUser)
    returns (added: Result<Unit, UserStoreError>, got: Result<LegacyUser, UserStoreError>,
             validated: Result<Unit, UserStoreError>)
    ensures added == Ok(Unit)
    ensures got == Ok(user)
    ensures validated == Ok(Unit)
  {
    var store := new HashMapUserStore();
    added := store.AddUser(user);
    got := store.GetUser(user.email);
    validated := store.ValidateUser(user.email, user.password);
  }
}
