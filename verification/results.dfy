/** Failure-carrying wrappers shared by the whole model.

    `Failure` lists the error outcomes the HTTP handlers produce, each named
    after what the handler reports rather than after the status code. */
module Results {

  datatype Option<+T> = None | Some(value: T) {
    function GetOr(default: T): T {
      match this
      case Some(v) => v
      case None => default
    }
  }

  datatype Failure =
    | NotFound           // 404 'No encontrado'
    | CodeTaken          // 400 'Código ya existe'
    | OutOfRange         // 422: a parameter outside the bounds the handler declares
    | NotNullViolation   // the store refuses a NULL in a NOT NULL column
    | DateOverflow       // date arithmetic leaves years 1..9999
    | BadDate            // 400 'Fecha inválida, use YYYY-MM-DD'
    | MissingField       // 422: a required form field is absent or empty
    | FileWriteFailed    // 500: storing an uploaded photo raised before the commit

  datatype Result<+T> = Ok(value: T) | Err(error: Failure) {
    predicate IsFailure() {
      Err?
    }

    function PropagateFailure<U>(): Result<U>
      requires Err?
    {
      Err(error)
    }

    function Extract(): T
      requires Ok?
    {
      value
    }
  }
}
