/** What every route handler shares: the session and the response envelope. */
module Http {
  import opened Wrappers

  /** A user's identity as the session and the stored documents carry it. */
  type UserId = nat

  /** A document id (Mongo's `_id`); malformed id strings are not modelled. */
  type DocId = nat

  /** `getServerSession(...)` reduced to what the handlers use: the signed-in
      user's id, or None when there is no session (or it has no user). */
  type Session = Option<UserId>

  /** A `NextResponse.json(...)`: a success body with status 200, or an error
      status with the `{ message }` body. */
  datatype Response<T> = Ok(body: T) | Fail(status: int, message: string)
  {
    function Status(): int
    {
      match this
      case Ok(_) => 200
      case Fail(s, _) => s
    }
  }

  /** A success that carries only `{ message }` (for instance 'Deleted'). */
  datatype Ack = Ack(message: string)

  function Unauthorized<T>(): (r: Response<T>)
    ensures r.Status() == 401
  {
    Fail(401, "Unauthorized")
  }

  /** How Next.js answers when a handler throws (here: a schema
      validation error raised by the store, which the handlers do not catch). */
  function UncaughtError<T>(): (r: Response<T>)
    ensures r.Status() == 500
  {
    Fail(500, "Internal Server Error")
  }
}
