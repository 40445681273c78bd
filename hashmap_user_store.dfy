/** The in-memory user store
    (auth-service/src/services/data_stores/hashmap_user_store.rs): users
    keyed by their validated `Email`. */
module UserService {
  import opened Wrappers
  import opened Emails
  import opened Passwords
  import opened Users

  class HashMapUserStore {
    var users: map<Email, User>

    /** Every stored user is filed under its own email, which is what
        `add_user` keys the map by. */
    ghost predicate Valid()
      reads this
    {
      forall e :: e in users ==> users[e].email == e
    }

    /** `HashMapUserStore::default`: no users. */
    constructor ()
      ensures users == map[] && Valid()
    {
      users := map[];
    }

    /** `add_user`: a known email is refused with `UserAlreadyExists` and the
        map is left as it was; a new one is inserted under its email and the
        call succeeds. */
    method AddUser(user: User) returns (r: Result<Unit, UserStoreError>)
      requires Valid()
      modifies this
      ensures Valid()
      ensures old(user.email in users) ==> r == Err(UserAlreadyExists) && users == old(users)
      ensures old(user.email !in users) ==> r == Ok(Unit) && users == old(users)[user.email := user]
    {
      if user.email in users {
        r := Err(UserAlreadyExists);
      } else {
        users := users[user.email := user];
        r := Ok(Unit);
      }
    }

    /** `get_user`: a copy of the stored user, or `UserNotFound`; reads only. */
    method GetUser(email: Email) returns (r: Result<User, UserStoreError>)
      ensures email in users ==> r == Ok(users[email])
      ensures email !in users ==> r == Err(UserNotFound)
      ensures Valid() && r.Ok? ==> r.value.email == email
    {
      if email in users {
        r := Ok(users[email]);
      } else {
        r := Err(UserNotFound);
      }
    }

    /** `validate_user`: Ok exactly when the email is known and its password
        equals `password`; a known email with another password gives
        `InvalidCredentials`, an unknown one `UserNotFound`; reads only. */
    method ValidateUser(email: Email, password: Password) returns (r: Result<Unit, UserStoreError>)
      ensures email in users && users[email].password == password ==> r == Ok(Unit)
      ensures email !in users ==> r == Err(UserNotFound)
      ensures email in users && users[email].password != password ==> r == Err(InvalidCredentials)
    {
      if email in users {
        if users[email].password == password {
          r := Ok(Unit);
        } else {
          r := Err(InvalidCredentials);
        }
      } else {
        r := Err(UserNotFound);
      }
    }
  }

  /** The module's unit tests: into a new store a user is added, then read
      back unchanged and validated with its own password, and adding it a
      second time is refused. */
  method AddGetValidate(user: User)
    returns (added: Result<Unit, UserStoreError>, got: Result<User, UserStoreError>,
             validated: Result<Unit, UserStoreError>, again: Result<Unit, UserStoreError>)
    ensures added == Ok(Unit)
    ensures got == Ok(user)
    ensures validated == Ok(Unit)
    ensures again == Err(UserAlreadyExists)
  {
    var store := new HashMapUserStore();
    added := store.AddUser(user);
    got := store.GetUser(user.email);
    validated := store.ValidateUser(user.email, user.password);
    again := store.AddUser(user);
  }
}
