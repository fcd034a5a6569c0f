/** The rows of the record store, the values the route handlers exchange with
    their collaborators, and the HTTP responses they produce. */
module Records {
  import opened JsValues

  newtype byte = x: int | 0 <= x < 256

  /** The bytes of a stored file. */
  type Bytes = seq<byte>

  /** A row of the user table. Rows provisioned from the identity provider
      carry a `clerkId`; rows created by the registration form carry a
      password hash instead. */
  datatype User = User(
    id: string,
    clerkId: Option<string>,
    email: string,
    name: string,
    image: Option<string>,
    password: Option<string>)

  /** A row of the job table. The status is free text: nothing on the write
      path restricts it to the three values the front end declares. */
  datatype Job = Job(
    id: string,
    userId: string,
    position: string,
    company: string,
    status: string,
    description: string,
    createdAt: int)

  /** A row of the résumé table; `fileUrl` is the object-store path, not a URL. */
  datatype Resume = Resume(
    id: string,
    userId: string,
    fileUrl: string,
    name: Option<string>,
    createdAt: int)

  /** One entry of the résumé listing: `{ id, createdAt, url }`. */
  datatype ResumeEntry = ResumeEntry(id: string, createdAt: int, url: string)

  /** The job statuses the front end's `JobForm` type declares. */
  datatype JobStatus = Applied | Interviewing | Rejected {
    function Name(): string {
      match this
      case Applied => "applied"
      case Interviewing => "interviewing"
      case Rejected => "rejected"
    }
  }

  /** The identity provider's current user, as far as provisioning reads it. */
  datatype ClerkUser = ClerkUser(
    id: string,
    emailAddresses: seq<string>,
    firstName: Option<string>,
    fullName: Option<string>,
    imageUrl: Option<string>)

  /** `session.user` of the session provider; a missing session is `None`. */
  datatype SessionUser = SessionUser(id: Option<string>, email: Option<string>)

  /** `session?.user?.id` is truthy. */
  predicate HasUserId(session: Option<SessionUser>) {
    session.Some? && Truthy(session.value.id)
  }

  /** `session?.user?.email` is truthy. */
  predicate HasEmail(session: Option<SessionUser>) {
    session.Some? && Truthy(session.value.email)
  }

  /** The `error` field of an error response: a fixed text, or the message of
      a caught exception or of a collaborator's error object, which the model
      does not track. */
  datatype ErrorMessage = Says(text: string) | Relayed

  /** What a handler answers. `Crash` is an exception nothing in the handler
      catches, which the framework turns into a bare 500 answer. */
  datatype Response<T> =
    | Success(status: nat, body: T)
    | Failure(status: nat, error: ErrorMessage)
    | Crash
  {
    function Code(): nat {
      match this
      case Success(s, _) => s
      case Failure(s, _) => s
      case Crash => 500
    }
  }

  /** The answer of a route that consults the text service, together with
      the prompt it sent (`None` when it sent none). */
  datatype AiExchange = AiExchange(response: Response<string>, prompt: Option<string>)
}
