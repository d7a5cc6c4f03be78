/** The configuration and the fixed responses of the gateway. */
module Constrains {

  /** A response: a status code and its body text. */
  datatype HttpResponse = HttpResponse(status: int, data: string)

  /** Body of the answer to a request the rate limiter turns away. */
  const MAX_LIMIT_RESPONSE: string := "Maximum number of requests. Please try again"

  /** The configured window: one second, in milliseconds. */
  const SECONDS_WINDOW_MILLIS: int := 1000

  /** The configured number of requests admitted per window. */
  const REQUEST_LIMIT: int := 1

  /** The route of the document-creation endpoint. */
  const CREATE_DOCS_PATH: string := "/api/create"

  /** Declared beside the others; no handler answers with it. */
  const SUCCESS_RESPONSE: HttpResponse := HttpResponse(200, "Success")

  /** The answer to a failure other than a bad argument. */
  const FAIL_RESPONSE: HttpResponse := HttpResponse(500, "Fail")
  /** The answer to an unreadable body or a bad path variable. */
  const BAD_REQUEST_RESPONSE: HttpResponse := HttpResponse(400, "Bad request")
  /** The answer to any method but POST. */
  const NOT_FOUND_RESPONSE: HttpResponse := HttpResponse(404, "Not Found")

  /** What maxLimitRequest writes: status 502 with the fixed text. */
  const MAX_LIMIT_REJECTION: HttpResponse := HttpResponse(502, MAX_LIMIT_RESPONSE)
}
