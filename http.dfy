/** Handler results, in place of `res.status(...)` followed by `res.json` or `throw`. */
module Http {

  const StatusOk := 200
  const StatusCreated := 201
  const StatusBadRequest := 400
  const StatusUnauthorized := 401
  const StatusNotFound := 404

  /**
   * What a handler produces: a JSON reply with its status (`Ok`), an error thrown after
   * `res.status(code)` (`Fail`), or an error thrown by a library call before the handler set any
   * status (`Thrown`), whose final status the error middleware decides.
   */
  datatype Outcome<+T> = Ok(code: int, value: T) | Fail(code: int, message: string) | Thrown(message: string)
  {
    /** The same failure, carried into the result type of another step. */
    function Forward<U>(): (r: Outcome<U>)
      requires !Ok?
      ensures !r.Ok?
    {
      if Fail? then Fail(code, message) else Thrown(message)
    }
  }
}
