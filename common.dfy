/** Values shared by every part of the model: optional values, Go's
    `(value, error)` results, bytes and what an HTTP handler writes back. */
module Common {

  datatype Option<+T> = None | Some(value: T)

  /** The pair `(T, error)` that a Go function returns; `err == None` is a nil error. */
  datatype Fallible<+T, +E> = Fallible(value: T, err: Option<E>)

  type Byte = b: int | 0 <= b < 256

  function Min(a: int, b: int): int
  {
    if a < b then a else b
  }

  const StatusOK := 200
  const StatusCreated := 201
  const StatusBadRequest := 400
  const StatusUnauthorized := 401
  const StatusNotFound := 404
  const StatusInternalServerError := 500

  /** What a handler does with its `http.ResponseWriter`: a JSON body with a
      status, an `{"error": message}` body with a status, a bare 204, or
      `Abort` when it calls `log.Fatalf` and the process exits. */
  datatype Reply<+P> =
    | Json(status: int, payload: P)
    | Fail(status: int, message: string)
    | NoContent
    | Abort(log: string)
}
