/** The NestJS HttpException the backend services raise or return: a message and an HTTP
    status code (the HttpStatus values the services use). */
module Http {
  const BAD_REQUEST := 400
  const NOT_FOUND := 404
  const INTERNAL_SERVER_ERROR := 500

  datatype HttpException = HttpException(message: string, status: int)
}
