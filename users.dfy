/** The user record (auth-service/src/domain/user.rs) and the error values
    of the user-store interface (auth-service/src/domain/data_stores/mod.rs). */
module Users {
  import opened Emails
  import opened Passwords

  datatype User = User(email: Email, password: Password, requires2fa: bool)

  datatype UserStoreError = UserAlreadyExists | UserNotFound | InvalidCredentials | UnexpectedError
}
