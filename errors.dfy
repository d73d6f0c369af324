/** `AppError` of src/web/error.rs: an error message with an HTTP status, and
    the page fragment the client receives for it. */
module Errors {

  const BAD_REQUEST: int := 400
  const PAYLOAD_TOO_LARGE: int := 413
  const INTERNAL_SERVER_ERROR: int := 500

  /** `StatusCode::is_client_error`: the 4xx range. */
  predicate IsClientError(status: int)
  {
    400 <= status < 500
  }

  /** The message is what `anyhow::Error`'s `to_string` gives. */
  datatype AppError = AppError(error: string, status: int)

  /** The response: its status, the class of its `div`, and the text inside. */
  datatype Response = Response(status: int, divClass: string, text: string)

  const INTERNAL_ERROR_TEXT: string := "Internal Error"

  /** `into_response`: a client error shows its own message on a warning
      background; anything else shows only a fixed text on a danger background. */
  function IntoResponse(e: AppError): (r: Response)
    ensures r.status == e.status
    ensures IsClientError(e.status) ==> r.text == e.error && r.divClass == "text-bg-warning p-3"
    ensures !IsClientError(e.status) ==> r.text == INTERNAL_ERROR_TEXT && r.divClass == "text-bg-danger p-3"
  {
    var (err, cssClass) :=
      if IsClientError(e.status) then (e.error, "text-bg-warning")
      else (INTERNAL_ERROR_TEXT, "text-bg-danger");
    Response(e.status, cssClass + " p-3", err)
  }

  /** `AppError::bad_request`: answered 400, message shown. */
  function BadRequest(err: string): (e: AppError)
    ensures IntoResponse(e) == Response(400, "text-bg-warning p-3", err)
  {
    AppError(err, BAD_REQUEST)
  }

  /** `AppError::payload_too_large`: answered 413, message shown. */
  function PayloadTooLarge(err: string): (e: AppError)
    ensures IntoResponse(e) == Response(413, "text-bg-warning p-3", err)
  {
    AppError(err, PAYLOAD_TOO_LARGE)
  }

  /** `From<E> for AppError`, which every `?` in a handler goes through:
      answered 500 with the message hidden. */
  function FromError(err: string): (e: AppError)
    ensures e.error == err
    ensures IntoResponse(e) == Response(500, "text-bg-danger p-3", INTERNAL_ERROR_TEXT)
  {
    AppError(err, INTERNAL_SERVER_ERROR)
  }

  /** A server-side error's response does not depend on its message, so no
      internal detail reaches the client. */
  lemma ServerErrorHidesMessage(e1: AppError, e2: AppError)
    requires e1.status == e2.status && !IsClientError(e1.status)
    ensures IntoResponse(e1) == IntoResponse(e2)
  {
  }

  /** A client error's response tells messages apart. */
  lemma ClientErrorShowsMessage(e1: AppError, e2: AppError)
    requires e1.status == e2.status && IsClientError(e1.status)
    ensures IntoResponse(e1) == IntoResponse(e2) <==> e1.error == e2.error
  {
  }
}
