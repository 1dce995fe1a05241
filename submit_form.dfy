/**
  The `SubmitForm` use case: validate the two names, record an error per
  offending name, and store the entry only when both are clean. An unexpected
  storage exception rolls the session back and propagates
  (`rollback_db_on_exception` around `execute`).
*/
module SubmitFormUC {
  import opened Wrappers
  import opened BaseDal
  import opened FormHistoryDal
  import opened UseCase

  datatype SubmitFormRequest = SubmitFormRequest(date: Date, firstName: string, lastName: string)

  /** `SubmitFormResponse`: the collected errors and whether the entry was stored. */
  datatype SubmitFormResponse = SubmitFormResponse(response: UCResponse, success: bool)

  /** The text of the error recorded for a name field with a space in it. */
  function WhitespaceMessage(field: string): string {
    field + ": No whitespace in " + field + " is allowed"
  }

  const FirstNameError := ValueError(WhitespaceMessage("first_name"))
  const LastNameError := ValueError(WhitespaceMessage("last_name"))

  /**
    The errors validation records, in the order it records them: the first-name
    check, then the last-name check. Only the space character is looked for.
  */
  function ValidationErrors(firstName: string, lastName: string): (errs: seq<Exception>)
    ensures |errs| == (if ' ' in firstName then 1 else 0) + (if ' ' in lastName then 1 else 0)
    ensures errs == [] <==> ' ' !in firstName && ' ' !in lastName
    ensures forall e :: e in errs <==> (e == FirstNameError && ' ' in firstName) || (e == LastNameError && ' ' in lastName)
    ensures ' ' in firstName ==> errs[0] == FirstNameError
  {
    (if ' ' in firstName then [FirstNameError] else []) + (if ' ' in lastName then [LastNameError] else [])
  }

  class SubmitForm {
    const dal: BaseDAL

    constructor (dal: BaseDAL)
      ensures this.dal == dal
    {
      this.dal := dal;
    }

    /**
      `execute` as decorated by `rollback_db_on_exception`: the undecorated body
      runs; if it raises, `_rollback_db` rolls the session back and the same
      exception propagates; otherwise its result passes through untouched.
    */
    method Execute(request: SubmitFormRequest) returns (out: Outcome<SubmitFormResponse>)
      requires dal.Valid()
      modifies dal
      ensures dal.Valid()
      ensures dal.committed == old(dal.committed) && dal.available == old(dal.available)
      && dal.defaultOrderBy == old(dal.defaultOrderBy)
      ensures var errs := ValidationErrors(request.firstName, request.lastName);
        errs != [] ==>
          out.Returned? && fresh(out.value.response) && out.value.response.errors == errs &&
          !out.value.success && dal.rows == old(dal.rows)
      ensures ValidationErrors(request.firstName, request.lastName) == [] && old(dal.available) ==>
        out.Returned? && fresh(out.value.response) && out.value.response.errors == [] && out.value.success &&
        EntryAppended(old(dal.rows), dal.rows, request.date, request.firstName, request.lastName)
      ensures ValidationErrors(request.firstName, request.lastName) == [] && !old(dal.available) ==>
        out == Raised(StorageUnavailable) && dal.rows == old(dal.committed)
    {
      out := ExecuteBody(request);
      if out.Raised? {
        RollbackDb();
      }
    }

    /** The body of `execute`, without the decorator. */
    method ExecuteBody(request: SubmitFormRequest) returns (out: Outcome<SubmitFormResponse>)
      requires dal.Valid()
      modifies dal
      ensures dal.Valid()
      ensures dal.committed == old(dal.committed) && dal.available == old(dal.available)
      && dal.defaultOrderBy == old(dal.defaultOrderBy)
      ensures var errs := ValidationErrors(request.firstName, request.lastName);
        errs != [] ==>
          out.Returned? && fresh(out.value.response) && out.value.response.errors == errs &&
          !out.value.success && dal.rows == old(dal.rows)
      ensures ValidationErrors(request.firstName, request.lastName) == [] && old(dal.available) ==>
        out.Returned? && fresh(out.value.response) && out.value.response.errors == [] && out.value.success &&
        EntryAppended(old(dal.rows), dal.rows, request.date, request.firstName, request.lastName)
      ensures ValidationErrors(request.firstName, request.lastName) == [] && !old(dal.available) ==>
        out == Raised(StorageUnavailable) && dal.rows == old(dal.rows)
    {
      var response := new UCResponse();
      var hasErrors := false;

      if ' ' in request.firstName {
        response.AddError(FirstNameError);
        hasErrors := true;
      }

      if ' ' in request.lastName {
        response.AddError(LastNameError);
        hasErrors := true;
      }

      if hasErrors {
        return Returned(SubmitFormResponse(response, false));
      }

      var created := CreateFormEntry(dal, request.date, request.firstName, request.lastName);
      if created.Failure? {
        return Raised(created.error);
      }
      var succeeded := new UCResponse();
      out := Returned(SubmitFormResponse(succeeded, true));
    }

    /** `_rollback_db`: `session.rollback()`. */
    method RollbackDb()
      requires dal.Valid()
      modifies dal
      ensures dal.Valid()
      ensures dal.rows == old(dal.committed)
      ensures dal.committed == old(dal.committed) && dal.available == old(dal.available)
      && dal.defaultOrderBy == old(dal.defaultOrderBy)
    {
      dal.Rollback();
    }
  }
}
