/**
  The application exceptions the HTTP layer turns into error responses:
  `AppException` and its subclasses `FormValidationError`, `FormFieldError`
  and `MultipleFormFieldError`, each a variant with the shared fields.
*/
module AppExceptions {
  import opened Wrappers
  import opened OrderedDict

  /** `HTTPStatus.BAD_REQUEST` */
  const BadRequest := 400

  datatype AppException =
    | AppException(errorKey: string, errorMessage: string, statusCode: int, errorLoc: Option<seq<string>>)
    | FormFieldError(errorKey: string, errorMessage: string, statusCode: int, errorLoc: Option<seq<string>>,
                     fieldName: string)
    | MultipleFormFieldError(errorKey: string, errorMessage: string, statusCode: int, errorLoc: Option<seq<string>>,
                             fieldErrors: Dict<string>)

  /** `str(exc)`: the exception is raised with its error message as its only argument. */
  function Str(e: AppException): string {
    e.errorMessage
  }

  /** `AppException(error_key, error_message, status_code, error_loc)` */
  function NewAppException(errorKey: string, errorMessage: string, statusCode: int,
                           errorLoc: Option<seq<string>>): (e: AppException)
    ensures e.errorKey == errorKey && e.errorMessage == errorMessage
    ensures e.statusCode == statusCode && e.errorLoc == errorLoc
    ensures Str(e) == errorMessage
  {
    AppException(errorKey, errorMessage, statusCode, errorLoc)
  }

  /**
    `FormValidationError(...)`; an argument that is left out (`None`) takes the
    default: key "form_validation", message "Form validation error", status 400.
  */
  function NewFormValidationError(errorKey: Option<string>, errorMessage: Option<string>, statusCode: Option<int>,
                                  errorLoc: Option<seq<string>>): (e: AppException)
    ensures e.AppException?
    ensures e.errorKey == if errorKey.Some? then errorKey.value else "form_validation"
    ensures e.errorMessage == if errorMessage.Some? then errorMessage.value else "Form validation error"
    ensures e.statusCode == if statusCode.Some? then statusCode.value else BadRequest
    ensures e.errorLoc == errorLoc
  {
    NewAppException(
      match errorKey case Some(k) => k case None => "form_validation",
      match errorMessage case Some(m) => m case None => "Form validation error",
      match statusCode case Some(s) => s case None => BadRequest,
      errorLoc)
  }

  /**
    `FormFieldError(field_name, error_message, status_code)`: key "form." plus
    the field, location `["body", field]` for a non-empty field and none for an
    empty one, status 400 when left out.
  */
  function NewFormFieldError(fieldName: string, errorMessage: string, statusCode: Option<int>): (e: AppException)
    ensures e.FormFieldError? && e.fieldName == fieldName && e.errorMessage == errorMessage
    ensures e.errorKey == "form." + fieldName
    ensures fieldName != "" ==> e.errorLoc == Some(["body", fieldName])
    ensures fieldName == "" ==> e.errorLoc.None?
    ensures e.statusCode == if statusCode.Some? then statusCode.value else BadRequest
  {
    FormFieldError(
      "form." + fieldName,
      errorMessage,
      match statusCode case Some(s) => s case None => BadRequest,
      if fieldName != "" then Some(["body", fieldName]) else None,
      fieldName)
  }

  /**
    `MultipleFormFieldError(field_errors, status_code)`: key "form_validation",
    message "Multiple validation errors", the fields as location, status 400
    when left out; the per-field messages are kept.
  */
  function NewMultipleFormFieldError(fieldErrors: Dict<string>, statusCode: Option<int>): (e: AppException)
    ensures e.MultipleFormFieldError? && e.fieldErrors == fieldErrors
    ensures e.errorKey == "form_validation" && e.errorMessage == "Multiple validation errors"
    ensures e.errorLoc == Some(Keys(fieldErrors))
    ensures e.statusCode == if statusCode.Some? then statusCode.value else BadRequest
  {
    MultipleFormFieldError(
      "form_validation",
      "Multiple validation errors",
      match statusCode case Some(s) => s case None => BadRequest,
      Some(Keys(fieldErrors)),
      fieldErrors)
  }
}
