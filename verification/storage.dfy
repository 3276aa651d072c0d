/**
 The vocabulary shared by every page store: a saved page, the errors the
 store reports, and the outcome of one store call.
 */
module Storage {

  /** A saved link: the URL and the name of the user who saved it. */
  datatype Page = Page(url: string, userName: string)

  /** The errors a store call reports.
      - ErrNoSavedPages: the user has no saved pages (PickRandom).
      - ErrURLNotFound: the exact (url, user) pair is not stored (Remove).
      - DbFailure: the database call itself failed; `op` names the operation
        that wrapped the driver's error. */
  datatype Error = ErrNoSavedPages | ErrURLNotFound | DbFailure(op: string)

  /** The outcome of one store call: a value, or an error. */
  datatype Outcome<+T> = Ok(value: T) | Err(error: Error)
}
