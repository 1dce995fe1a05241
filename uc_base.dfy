/**
  The use-case layer's shared pieces: the business error `BaseUCError`, the
  exceptions a use case can record, the response `UCResponse` that collects
  them, and the outcome of an `execute` that may also raise.
*/
module UseCase {
  import opened Wrappers
  import BaseDal

  const DefaultUCErrorMessage := "Server error"
  const DefaultUCErrorCode := -1

  /** A `BaseUCError` as constructed: its message and its code. */
  datatype BaseUCError = BaseUCError(message: string, errorCode: int)

  /**
    `BaseUCError(message, error_code)`. An argument that is left out (`None`) or
    falsy (`""`, `0`) falls back to the class default, as `x or default` does.
  */
  function NewBaseUCError(message: Option<string>, errorCode: Option<int>): (e: BaseUCError)
    ensures message.Some? && message.value != "" ==> e.message == message.value
    ensures message.None? || message.value == "" ==> e.message == DefaultUCErrorMessage
    ensures errorCode.Some? && errorCode.value != 0 ==> e.errorCode == errorCode.value
    ensures errorCode.None? || errorCode.value == 0 ==> e.errorCode == DefaultUCErrorCode
  {
    BaseUCError(
      if message.Some? && message.value != "" then message.value else DefaultUCErrorMessage,
      if errorCode.Some? && errorCode.value != 0 then errorCode.value else DefaultUCErrorCode)
  }

  /** Whatever the arguments, the error never holds a falsy message or code. */
  lemma UCErrorNeverFalsy(message: Option<string>, errorCode: Option<int>)
    ensures NewBaseUCError(message, errorCode).message != ""
    ensures NewBaseUCError(message, errorCode).errorCode != 0
  {
  }

  /** Rebuilding an error from its own message and code gives the same error. */
  lemma UCErrorRebuild(message: Option<string>, errorCode: Option<int>)
    ensures var e := NewBaseUCError(message, errorCode);
      NewBaseUCError(Some(e.message), Some(e.errorCode)) == e
  {
  }

  /** What `UCResponse.errors` may hold: a plain exception or a `BaseUCError`. */
  datatype Exception =
    | ValueError(message: string)
    | UCError(error: BaseUCError)

  /** `str(e)`: the message the exception was constructed with. */
  function Str(e: Exception): string {
    match e
    case ValueError(m) => m
    case UCError(err) => err.message
  }

  /**
    The result of an `execute` that may raise: the value it returned, or the
    unexpected storage exception that escaped it.
  */
  datatype Outcome<T> = Returned(value: T) | Raised(error: BaseDal.StorageError)

  /** `UCResponse`: the errors a use case collected, in the order they were added. */
  class UCResponse {
    var errors: seq<Exception>

    /** `UCResponse()`: no errors. */
    constructor ()
      ensures errors == []
      ensures !HasErrors() && IsTruthy() && FirstError() == None
    {
      errors := [];
    }

    /** `UCResponse.build_from_exception(e)`: a new response whose only error is `e`. */
    static method BuildFromException(e: Exception) returns (r: UCResponse)
      ensures fresh(r)
      ensures r.errors == [e]
      ensures r.HasErrors() && !r.IsTruthy() && r.FirstError() == Some(e)
    {
      r := new UCResponse();
      r.errors := r.errors + [e];
    }

    /** `add_error`: append `e` after the errors already recorded. */
    method AddError(e: Exception)
      modifies this
      ensures errors == old(errors) + [e]
      ensures HasErrors() && !IsTruthy()
      ensures FirstError() == if old(errors) == [] then Some(e) else old(FirstError())
    {
      errors := errors + [e];
    }

    /** `has_errors()` */
    predicate HasErrors()
      reads this
    {
      |errors| > 0
    }

    /** `bool(response)`: a response is truthy exactly when it holds no error. */
    predicate IsTruthy()
      reads this
    {
      !HasErrors()
    }

    /** `first_error`: nothing for a truthy response, the oldest error otherwise. */
    function FirstError(): (r: Option<Exception>)
      reads this
      ensures r.None? <==> errors == []
      ensures r.Some? ==> r.value == errors[0]
    {
      if IsTruthy() then None else Some(errors[0])
    }
  }
}
