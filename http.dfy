/** Results and the HTTP errors the handlers raise. An `HTTPException` of the
    web framework becomes an `Err` carrying its status, detail text and the
    optional `WWW-Authenticate` challenge header. */
module Http {

  datatype Option<+T> = None | Some(value: T)

  datatype HttpError = HttpError(status: int, detail: string, wwwAuthenticate: Option<string>)

  datatype Result<+T> = Ok(value: T) | Err(error: HttpError)

  /** The one error `get_current_user` raises for every kind of bad token. */
  const CredentialsError := HttpError(401, "Could not validate credentials", Some("Bearer"))

  /** The error `login` raises for an unknown email or a wrong password. */
  const LoginFailed := HttpError(401, "Incorrect email or password", Some("Bearer"))

  /** The error `signup` raises when the lower-cased email is already stored. */
  const EmailTaken := HttpError(400, "Email already registered", None)

  /** The error of the ownership guard: the note is absent or not the caller's. */
  const NoteNotFound := HttpError(404, "Note not found", None)

  /** The error `update_note` raises for a payload with neither field set. */
  const NoUpdates := HttpError(400, "No updates provided", None)

  /** What the framework answers when a handler raises an exception that is
      not an `HTTPException`. */
  const InternalError := HttpError(500, "Internal Server Error", None)
}
