/** The HTTP answers the services build: a status and the entries of the
    response map. */
module Responses {
  import opened Common
  import opened Entities
  import opened TokenService

  const Ok: int := 200
  const Created: int := 201
  const BadRequest: int := 400
  const Unauthorized: int := 401
  const Forbidden: int := 403
  const NotFound: int := 404
  const Conflict: int := 409
  const InternalServerError: int := 500

  /** The keys a response map may hold; an absent key is `None`. */
  datatype Body = Body(
    message: Option<string>,
    token: Option<Token>,
    appointments: Option<seq<AppointmentDto>>,
    patient: Option<Patient>)

  /** A `ResponseEntity`, or an exception that escapes the service (which the
      framework turns into status 500). */
  datatype Reply = Reply(status: int, body: Body) | Threw

  const EmptyBody: Body := Body(None, None, None, None)

  function Message(status: int, text: string): Reply {
    Reply(status, EmptyBody.(message := Some(text)))
  }

  function Listed(rows: seq<AppointmentDto>): Reply {
    Reply(Ok, EmptyBody.(appointments := Some(rows)))
  }
}
