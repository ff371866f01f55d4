/**
 * The HTTP errors the API raises (`api/errors.py`): each kind has a fixed
 * status and a default message that a given message replaces unless it is
 * missing or empty; a bad-request error may carry a map of field errors.
 */
module ApiErrors {
  import opened Wrappers

  /** Why one field of a request was refused (the wording of each is not modelled). */
  datatype FieldError = MissingData | NullValue | InvalidType | OutOfRange | UnknownField

  /** The `errors` payload of a validation failure: one complaint per offending field. */
  type ErrorMap = map<string, FieldError>

  datatype ApiError =
    | BadRequestError(message: string, errors: Option<ErrorMap>)
    | NotFoundError(message: string)
    | MethodNotAllowedError(message: string)

  const BadRequestStatus := 400
  const NotFoundStatus := 404
  const MethodNotAllowedStatus := 405

  const BadRequestDefault := "The request is incorrect"
  const NotFoundDefault := "The requested resource not found"
  const MethodNotAllowedDefault := "This method is not allowed to use with this URL"

  /** The status of each error kind; every one is a client error, and no two kinds share one. */
  function Status(e: ApiError): (code: int)
    ensures 400 <= code < 500
    ensures code == BadRequestStatus <==> e.BadRequestError?
    ensures code == NotFoundStatus <==> e.NotFoundError?
    ensures code == MethodNotAllowedStatus <==> e.MethodNotAllowedError?
  {
    match e
    case BadRequestError(_, _) => BadRequestStatus
    case NotFoundError(_) => NotFoundStatus
    case MethodNotAllowedError(_) => MethodNotAllowedStatus
  }

  /** The default message of each error kind. */
  function DefaultMessage(e: ApiError): string {
    match e
    case BadRequestError(_, _) => BadRequestDefault
    case NotFoundError(_) => NotFoundDefault
    case MethodNotAllowedError(_) => MethodNotAllowedDefault
  }

  /**
   * `message or self.message`: a given message that is neither missing nor
   * empty wins, anything else falls back to the class default.
   */
  function Fallback(given: Option<string>, default: string): (m: string)
    ensures given.Some? && given.value != "" ==> m == given.value
    ensures given.None? || given.value == "" ==> m == default
  {
    match given
    case Some(text) => if text != "" then text else default
    case None => default
  }

  /** `BadRequestError(message, errors)`; `errors` is kept as given, missing when not supplied. */
  function BadRequest(message: Option<string>, errors: Option<ErrorMap>): (e: ApiError)
    ensures e.BadRequestError? && e.errors == errors
    ensures e.message == Fallback(message, BadRequestDefault)
  {
    BadRequestError(Fallback(message, BadRequestDefault), errors)
  }

  /** `NotFoundError(message)`. */
  function NotFound(message: Option<string>): (e: ApiError)
    ensures e.NotFoundError? && e.message == Fallback(message, NotFoundDefault)
  {
    NotFoundError(Fallback(message, NotFoundDefault))
  }

  /** `MethodNotAllowedError(message)`. */
  function MethodNotAllowed(message: Option<string>): (e: ApiError)
    ensures e.MethodNotAllowedError? && e.message == Fallback(message, MethodNotAllowedDefault)
  {
    MethodNotAllowedError(Fallback(message, MethodNotAllowedDefault))
  }

  /** Whatever message is passed, an error built by the constructors carries a non-empty one. */
  lemma ConstructedMessageNeverEmpty(message: Option<string>, errors: Option<ErrorMap>)
    ensures BadRequest(message, errors).message != ""
    ensures NotFound(message).message != ""
    ensures MethodNotAllowed(message).message != ""
  {
    assert BadRequestDefault != "" && NotFoundDefault != "" && MethodNotAllowedDefault != "";
  }

  /**
   * Passing no message, or an empty one, gives the kind's default; passing a
   * non-empty one keeps it.
   */
  lemma ConstructedMessage(message: Option<string>, errors: Option<ErrorMap>)
    ensures var es := [BadRequest(message, errors), NotFound(message), MethodNotAllowed(message)];
      forall k :: 0 <= k < |es| ==>
        && (message.None? || message == Some("") ==> es[k].message == DefaultMessage(es[k]))
        && (message.Some? && message.value != "" ==> es[k].message == message.value)
  {
  }
}
