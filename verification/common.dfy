/** Vocabulary shared by the user model, the message model and the message routes. */
module Common {

  /** The users table's primary key. */
  type Username = string

  /** A value of the database's CURRENT_TIMESTAMP, supplied by the caller. */
  type Timestamp = int

  /** The messages table's primary key. */
  type MessageId = int

  datatype Option<+T> = None | Some(value: T)

  /** The failures a request can end with.
      NotFound and Unauthorized are the application's own errors; DuplicateUsername is the
      users table's primary-key violation; NoCaller is the TypeError raised when a route reads
      the username of a caller that the authentication middleware did not resolve. */
  datatype Error = NotFound | Unauthorized | DuplicateUsername | NoCaller

  datatype Result<+T> = Ok(value: T) | Err(error: Error)

  /** The public profile of a user as nested in message views:
      {username, first_name, last_name, phone}. */
  datatype Profile = Profile(username: Username, firstName: string, lastName: string, phone: string)
}
