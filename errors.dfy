/**
 * The gateway's exception taxonomy and its mapping to HTTP responses
 * (`CustomExceptionHandler` and the custom exception data classes).
 */
module Errors {
  import opened Wrappers
  import opened Strings

  /**
   * The exceptions the gateway can raise. The first six are the gateway's own, each built
   * from an `errorDetails` string that it also passes to `RuntimeException` as its message;
   * the next three are the framework's; `IllegalArgument`, `IO` and `Other` stand for any
   * other exception, whose message may be null.
   */
  datatype Exception =
    | BadRequest(errorDetails: string)
    | NotFound(errorDetails: string)
    | Forbidden(errorDetails: string)
    | Unauthorized(errorDetails: string)
    | InternalServerError(errorDetails: string)
    | Conflict(errorDetails: string)
    | NoHandlerFound(text: string)
    | HttpMessageNotReadable(text: string)
    | MissingServletRequestParameter(text: string)
    | IllegalArgument(message: Option<string>)
    | IO(message: Option<string>)
    | Other(name: string, message: Option<string>)
  {
    /** One of the gateway's own exception data classes. */
    predicate IsCustom() {
      BadRequest? || NotFound? || Forbidden? || Unauthorized? || InternalServerError? || Conflict?
    }

    /** `localizedMessage`: the message the exception was constructed with. */
    function LocalizedMessage(): (m: Option<string>)
      ensures IsCustom() ==> m == Some(errorDetails)
    {
      match this
      case BadRequest(d) => Some(d)
      case NotFound(d) => Some(d)
      case Forbidden(d) => Some(d)
      case Unauthorized(d) => Some(d)
      case InternalServerError(d) => Some(d)
      case Conflict(d) => Some(d)
      case NoHandlerFound(t) => Some(t)
      case HttpMessageNotReadable(t) => Some(t)
      case MissingServletRequestParameter(t) => Some(t)
      case IllegalArgument(m) => m
      case IO(m) => m
      case Other(_, m) => m
    }
  }

  const BAD_REQUEST := 400
  const UNAUTHORIZED := 401
  const FORBIDDEN := 403
  const NOT_FOUND := 404
  const CONFLICT := 409
  const INTERNAL_SERVER_ERROR := 500

  const UnhandledSuffix := ", this exception was not handled properly on backend side"
  const NoHandlerPrefix := "No handler found "

  /** The single-field error body `CustomErrorDetails`. */
  datatype CustomErrorDetails = CustomErrorDetails(errorDetails: string)

  datatype ErrorEntity = ErrorEntity(status: int, body: CustomErrorDetails)

  /**
   * The `handle` overloads: Spring picks the most specific handler, and every exception
   * without one of its own reaches the generic `Exception` handler.
   */
  function Handle(e: Exception): (r: ErrorEntity)
    ensures 400 <= r.status < 600
    ensures e.IsCustom() ==> r.body.errorDetails == e.errorDetails
    ensures e.NoHandlerFound? ==> r.body.errorDetails == NoHandlerPrefix + e.text
  {
    match e
    case BadRequest(d) => ErrorEntity(BAD_REQUEST, CustomErrorDetails(d))
    case NotFound(d) => ErrorEntity(NOT_FOUND, CustomErrorDetails(d))
    case Forbidden(d) => ErrorEntity(FORBIDDEN, CustomErrorDetails(d))
    case Unauthorized(d) => ErrorEntity(UNAUTHORIZED, CustomErrorDetails(d))
    case InternalServerError(d) => ErrorEntity(INTERNAL_SERVER_ERROR, CustomErrorDetails(d))
    case NoHandlerFound(_) =>
      ErrorEntity(NOT_FOUND, CustomErrorDetails(NoHandlerPrefix + Template(e.LocalizedMessage())))
    case HttpMessageNotReadable(t) => ErrorEntity(BAD_REQUEST, CustomErrorDetails(t))
    case Conflict(_) => ErrorEntity(CONFLICT, CustomErrorDetails(e.LocalizedMessage().value))
    case MissingServletRequestParameter(t) => ErrorEntity(BAD_REQUEST, CustomErrorDetails(t))
    case _ =>
      ErrorEntity(INTERNAL_SERVER_ERROR, CustomErrorDetails(Template(e.LocalizedMessage()) + UnhandledSuffix))
  }

  /** Which exceptions produce each status: the mapping read backwards. */
  lemma StatusClasses(e: Exception)
    ensures Handle(e).status == BAD_REQUEST <==>
      e.BadRequest? || e.HttpMessageNotReadable? || e.MissingServletRequestParameter?
    ensures Handle(e).status == NOT_FOUND <==> e.NotFound? || e.NoHandlerFound?
    ensures Handle(e).status == FORBIDDEN <==> e.Forbidden?
    ensures Handle(e).status == UNAUTHORIZED <==> e.Unauthorized?
    ensures Handle(e).status == CONFLICT <==> e.Conflict?
    ensures Handle(e).status == INTERNAL_SERVER_ERROR <==>
      e.InternalServerError? || e.IllegalArgument? || e.IO? || e.Other?
    ensures Handle(e).status in {BAD_REQUEST, UNAUTHORIZED, FORBIDDEN, NOT_FOUND, CONFLICT, INTERNAL_SERVER_ERROR}
  {
  }

  /** The framework's request errors are reported with their own message as the body. */
  lemma FrameworkMessagesPassThrough(e: Exception)
    requires e.HttpMessageNotReadable? || e.MissingServletRequestParameter?
    ensures Handle(e).body.errorDetails == e.LocalizedMessage().value
  {
  }

  /** An unhandled exception's body is its message (or "null") with the fixed suffix. */
  lemma UnhandledBody(e: Exception)
    requires e.IllegalArgument? || e.IO? || e.Other?
    ensures Handle(e).body.errorDetails == Template(e.message) + UnhandledSuffix
  {
  }
}
