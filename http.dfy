/** The HTTP status codes the handlers answer with. */
module Http {

  const OK := 200
  const CREATED := 201
  const SEE_OTHER := 303
  const BAD_REQUEST := 400
  const UNAUTHORIZED := 401
  const NOT_FOUND := 404
  const INTERNAL_SERVER_ERROR := 500
}
