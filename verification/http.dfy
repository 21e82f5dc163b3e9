/** The HTTP vocabulary the handlers answer in: status codes and responses. */
module Http {

  const HTTP_200_OK: int := 200
  const HTTP_201_CREATED: int := 201
  const HTTP_403_FORBIDDEN: int := 403
  const HTTP_500_INTERNAL_SERVER_ERROR: int := 500

  /** An HTTP response: status code, extra headers and the JSON object of the body. */
  datatype Response = Response(status: int, headers: map<string, string>, body: map<string, string>)

  /** What a raised `HTTPException` turns into: the detail message as the body. */
  function HttpException(status: int, detail: string, headers: map<string, string>): Response {
    Response(status, headers, map["detail" := detail])
  }

  /**
   * The answer to an exception the handler does not catch. The application's
   * own error middleware (`ErrorHandler`) sees that exception first; it is not
   * part of this model, so only the 500 status is meant here. The empty
   * headers and body are placeholders.
   */
  const InternalServerError: Response := Response(HTTP_500_INTERNAL_SERVER_ERROR, map[], map[])
}
