/** Small failure-carrying datatypes shared by the whole model. */
module Outcomes {

  /** A value that may be absent: Go's nil pointer or an unparsable input. */
  datatype Option<T> = None | Some(value: T)

  /** An HTTP status code as written by a handler. */
  type Status = int

  const StatusOk: Status := 200
  const StatusCreated: Status := 201
  const StatusNoContent: Status := 204
  const StatusBadRequest: Status := 400
  const StatusUnauthorized: Status := 401
  const StatusForbidden: Status := 403
  const StatusNotFound: Status := 404
  const StatusUnprocessable: Status := 422
  const StatusInternalError: Status := 500
}
