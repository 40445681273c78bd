/** The errors a route handler answers with. The type itself
    (auth-service/src/domain/error.rs) is not part of this model; its
    variants are the ones the handlers construct. `UnexpectedError`
    carries a report in the service, which is left out here. */
module ApiErrors {
  datatype AuthAPIError =
    | UserAlreadyExists
    | InvalidCredentials
    | IncorrectCredentials
    | MissingToken
    | InvalidToken
    | UnexpectedError
}
