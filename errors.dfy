/**
 * The service's error enum, its Display text and its translation into an
 * HTTP response (src/errors.rs).
 */
module Errors {
  import opened Http

  datatype ServiceError =
    | InternalServerError
    | BadRequest(message: string)
    | JWKSFetchError
    | AuthenticationError(message: string)
    | RegistrationError(message: string)
  {
    /** The variants that carry a message of their own. */
    predicate HasMessage()
    {
      BadRequest? || AuthenticationError? || RegistrationError?
    }
  }

  const INTERNAL_ERROR_BODY: string := "Internal Server Error, Please try later"
  const JWKS_ERROR_BODY: string := "Could not fetch JWKS"

  /** The `#[display(fmt = ..)]` text of each variant. */
  function Display(e: ServiceError): (s: string)
    ensures |s| > 0
    ensures e.HasMessage() ==> |e.message| < |s| && s[|s| - |e.message|..] == e.message
  {
    match e
    case InternalServerError => "Internal Server Error"
    case BadRequest(m) => "BadRequest: " + m
    case JWKSFetchError => "JWKSFetchError"
    case AuthenticationError(m) => "AuthenticationError: " + m
    case RegistrationError(m) => "RegistrationError: " + m
  }

  /**
   * `ResponseError::error_response`: the two server-side faults answer 500
   * with a fixed text, every variant with a message answers 400 (an
   * authentication failure included, not 401) with that message as body.
   */
  function ErrorResponse(e: ServiceError): (r: Response)
    ensures r.status == INTERNAL_SERVER_ERROR <==> !e.HasMessage()
    ensures r.status == BAD_REQUEST <==> e.HasMessage()
    ensures e.HasMessage() ==> r.body == JsonBody(JString(e.message))
    ensures e.InternalServerError? <==> r.body == JsonBody(JString(INTERNAL_ERROR_BODY)) && r.status == INTERNAL_SERVER_ERROR
    ensures e.JWKSFetchError? <==> r.body == JsonBody(JString(JWKS_ERROR_BODY)) && r.status == INTERNAL_SERVER_ERROR
  {
    match e
    case InternalServerError => Response(INTERNAL_SERVER_ERROR, JsonBody(JString(INTERNAL_ERROR_BODY)))
    case BadRequest(m) => Response(BAD_REQUEST, JsonBody(JString(m)))
    case JWKSFetchError => Response(INTERNAL_SERVER_ERROR, JsonBody(JString(JWKS_ERROR_BODY)))
    case AuthenticationError(m) => Response(BAD_REQUEST, JsonBody(JString(m)))
    case RegistrationError(m) => Response(BAD_REQUEST, JsonBody(JString(m)))
  }

  lemma PrefixCancels(p: string, a: string, b: string)
    requires p + a == p + b
    ensures a == b
  {
    assert a == (p + a)[|p|..];
    assert b == (p + b)[|p|..];
  }

  /** Display loses nothing: distinct errors never print the same text. */
  lemma DisplayInjective(a: ServiceError, b: ServiceError)
    requires Display(a) == Display(b)
    ensures a == b
  {
    assert Display(a)[0] == Display(b)[0];
    match a
    case BadRequest(m) =>
      PrefixCancels("BadRequest: ", m, b.message);
    case AuthenticationError(m) =>
      PrefixCancels("AuthenticationError: ", m, b.message);
    case RegistrationError(m) =>
      PrefixCancels("RegistrationError: ", m, b.message);
    case _ =>
  }

  /**
   * Two errors with a message receive the same response exactly when they
   * carry the same message: the response hides which variant it was.
   */
  lemma MessageResponsesHideVariant(a: ServiceError, b: ServiceError)
    requires a.HasMessage() && b.HasMessage()
    ensures ErrorResponse(a) == ErrorResponse(b) <==> a.message == b.message
  {
  }
}
