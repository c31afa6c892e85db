/** The HTTP errors the handlers raise (FastAPI's HTTPException), as plain values:
    a status code and a human-readable detail. */
module Errors {

  datatype HttpError = HttpError(status: int, detail: string)

  const BadRequestStatus := 400
  const NotFoundStatus := 404
  const InternalErrorStatus := 500

  /** An exception the handler does not catch: the server answers 500 with a plain
      "Internal Server Error" body. */
  const InternalServerError := HttpError(InternalErrorStatus, "Internal Server Error")

  /** raise_400_bad_request */
  function BadRequest(detail: string): HttpError
  {
    HttpError(BadRequestStatus, detail)
  }

  /** raise_404_not_found */
  function NotFound(detail: string): HttpError
  {
    HttpError(NotFoundStatus, detail)
  }
}
