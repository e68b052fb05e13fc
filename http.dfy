/** The HTTP statuses the handlers answer with. */
module Http {

  datatype Status =
    | Ok            // 200
    | Created       // 201
    | BadRequest    // 400
    | Unauthorized  // 401
    | Forbidden     // 403
    | NotFound      // 404
    | Conflict      // 409
    | Unprocessable // 422
    | ServerError   // 500: a thrown error, answered by the global error handler
  {
    function Code(): int {
      match this
      case Ok => 200
      case Created => 201
      case BadRequest => 400
      case Unauthorized => 401
      case Forbidden => 403
      case NotFound => 404
      case Conflict => 409
      case Unprocessable => 422
      case ServerError => 500
    }

    predicate Success() {
      Ok? || Created?
    }
  }
}
