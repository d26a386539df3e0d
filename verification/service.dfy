/**
 * The remote text-generation service seen as an oracle, and the Python
 * exceptions that can reach the pipeline's code.
 */
module Service {
  import opened Wrappers

  /** Python truthiness of a value that is a string or `None`. */
  predicate Truthy(s: Option<string>) {
    s.Some? && s.value != ""
  }

  /** One question put to the service. The prompt wording, model name, token
      limit and temperature are fixed strings in the source and are not
      modelled; only the texts that vary are kept. */
  datatype Request =
    | TopicRequest(presentationText: string)
    | SlideRequest(slideText: string, topic: string)

  /** What one remote call comes back with: the generated content, an
      authentication failure, or any other service error with its message. */
  datatype Reply = Ok(content: string) | AuthErr | OtherErr(message: string)

  /** The service itself, as a function the model is given. */
  type Oracle = Request -> Reply

  /** The exceptions the modelled code raises or catches. */
  datatype Exception =
    | AuthenticationError
    | OpenAIError(message: string)
    | KeyError
    | TypeError
    | ValueError
    | IndexError
    | FileNotFoundError
    | IntegrityError

  /** The Python exception a failed reply surfaces as. */
  function ReplyError(reply: Reply): (e: Exception)
    requires !reply.Ok?
    ensures e.AuthenticationError? <==> reply.AuthErr?
  {
    match reply
    case AuthErr => AuthenticationError
    case OtherErr(m) => OpenAIError(m)
  }

  /** How a Python call ends: it returns a value or raises. */
  datatype Outcome<+T> = Returned(value: T) | Raised(error: Exception)

  /** A call's outcome together with the remote requests it issued, in order. */
  datatype Traced<+T> = Traced(outcome: Outcome<T>, calls: seq<Request>)

  /** Every request some calls issue, call by call. */
  function AllCalls<T>(ts: seq<Traced<T>>): seq<Request> {
    if |ts| == 0 then [] else ts[0].calls + AllCalls(ts[1..])
  }

  /** A call on an object that keeps state: the state afterwards, the
      exception the call raised if it raised one, and the remote requests it
      issued, in order. */
  datatype Effect<S> = Effect(state: S, error: Option<Exception>, calls: seq<Request>)
}
