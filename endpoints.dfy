/**
  The three history routes: `submit_form` turns the use case's errors into a
  field error or a multiple-field error, `get_history` copies the use case's
  items and total, `get_unique_names` passes the DAL's name lists through.
*/
module HistoryEndpoints {
  import opened Wrappers
  import opened OrderedDict
  import Text
  import Seqs
  import opened BaseDal
  import opened FormHistoryDal
  import opened UseCase
  import opened SubmitFormUC
  import opened GetHistoryUC
  import opened AppExceptions

  const FirstNameMessage := "No whitespace in first_name is allowed"
  const LastNameMessage := "No whitespace in last_name is allowed"

  /** What `submit_form` ends with: a response, an application error, or an unexpected exception. */
  datatype SubmitOutcome =
    | Responded(success: bool)
    | AppError(exc: AppException)
    | ServerError(error: StorageError)

  /** The field the loop files a use-case error under. */
  datatype NamedField = FirstNameField | LastNameField | NoField

  /** `"first_name" in str(error).lower()`, else `"last_name" in ...`, else neither. */
  function FieldNamedBy(e: Exception): NamedField {
    var errorStr := Text.Lower(UseCase.Str(e));
    if Text.Contains(errorStr, "first_name") then FirstNameField
    else if Text.Contains(errorStr, "last_name") then LastNameField
    else NoField
  }

  /** The field each error is filed under, in order. */
  function FieldsNamed(errors: seq<Exception>): (ns: seq<NamedField>)
    ensures |ns| == |errors|
    ensures forall i :: 0 <= i < |errors| ==> ns[i] == FieldNamedBy(errors[i])
  {
    if errors == [] then []
    else
      var init := errors[..|errors| - 1];
      assert forall i :: 0 <= i < |init| ==> init[i] == errors[i];
      FieldsNamed(init) + [FieldNamedBy(errors[|errors| - 1])]
  }

  /** The `field_errors` assignments the loop makes, in order: one per error filed under a field. */
  function Entries(ns: seq<NamedField>): (ps: seq<(string, string)>)
    ensures forall k :: 0 <= k < |ps| ==>
      ps[k] == ("first_name", FirstNameMessage) || ps[k] == ("last_name", LastNameMessage)
  {
    if ns == [] then []
    else
      var ps := Entries(ns[..|ns| - 1]);
      match ns[|ns| - 1]
      case FirstNameField => ps + [("first_name", FirstNameMessage)]
      case LastNameField => ps + [("last_name", LastNameMessage)]
      case NoField => ps
  }

  /** The `field_errors` dictionary after the loop. */
  function FieldErrors(errors: seq<Exception>): Dict<string> {
    PutAll(Entries(FieldsNamed(errors)))
  }

  /** The fields of one more error: those before, then its own. */
  lemma FieldsNamedStep(errors: seq<Exception>, i: int)
    requires 0 <= i < |errors|
    ensures FieldsNamed(errors[..i + 1]) == FieldsNamed(errors[..i]) + [FieldNamedBy(errors[i])]
  {
    Seqs.TakeStep(errors, i);
  }

  /** A field is among those named exactly when some error is filed under it. */
  lemma FieldsNamedHas(errors: seq<Exception>, n: NamedField)
    ensures n in FieldsNamed(errors) <==> exists i :: 0 <= i < |errors| && FieldNamedBy(errors[i]) == n
  {
    var ns := FieldsNamed(errors);
    if n in ns {
      var i :| 0 <= i < |ns| && ns[i] == n;
      assert FieldNamedBy(errors[i]) == n;
    }
  }

  /** The assignments for one more field: those before, then the field's own, if any. */
  lemma EntriesStep(ns: seq<NamedField>, n: NamedField)
    ensures Entries(ns + [n]) ==
      match n
      case FirstNameField => Entries(ns) + [("first_name", FirstNameMessage)]
      case LastNameField => Entries(ns) + [("last_name", LastNameMessage)]
      case NoField => Entries(ns)
  {
    assert (ns + [n])[..|ns|] == ns;
  }

  /** One more error either assigns its field's message or leaves `field_errors` as it was. */
  lemma FieldErrorsStep(errors: seq<Exception>, i: int)
    requires 0 <= i < |errors|
    ensures FieldErrors(errors[..i + 1]) ==
      match FieldNamedBy(errors[i])
      case FirstNameField => Put(FieldErrors(errors[..i]), "first_name", FirstNameMessage)
      case LastNameField => Put(FieldErrors(errors[..i]), "last_name", LastNameMessage)
      case NoField => FieldErrors(errors[..i])
  {
    FieldsNamedStep(errors, i);
    EntriesStep(FieldsNamed(errors[..i]), FieldNamedBy(errors[i]));
    var ps := Entries(FieldsNamed(errors[..i]));
    match FieldNamedBy(errors[i])
    case FirstNameField =>
      PutAllStep(ps, ("first_name", FirstNameMessage));
    case LastNameField =>
      PutAllStep(ps, ("last_name", LastNameMessage));
    case NoField =>
  }

  /** The value assigned last to each key is the key's fixed message, once some error is filed under it. */
  lemma {:induction false} EntriesLastValue(ns: seq<NamedField>)
    ensures LastValue(Entries(ns), "first_name") == if FirstNameField in ns then Some(FirstNameMessage) else None
    ensures LastValue(Entries(ns), "last_name") == if LastNameField in ns then Some(LastNameMessage) else None
  {
    if ns != [] {
      var init := ns[..|ns| - 1];
      EntriesLastValue(init);
      var before := Entries(init);
      assert ns == init + [ns[|ns| - 1]];
      assert "first_name" != "last_name" by { assert "first_name"[0] != "last_name"[0]; }
      match ns[|ns| - 1]
      case FirstNameField =>
        assert (before + [("first_name", FirstNameMessage)])[..|before|] == before;
      case LastNameField =>
        assert (before + [("last_name", LastNameMessage)])[..|before|] == before;
      case NoField =>
    }
  }

  /** Distinct strings drawn from a set are no more than the set holds. */
  lemma {:induction false} DistinctWithin(s: seq<string>, within: set<string>)
    requires forall i :: 0 <= i < |s| ==> s[i] in within
    requires forall i, j :: 0 <= i < j < |s| ==> s[i] != s[j]
    ensures |s| <= |within|
  {
    if s != [] {
      var rest := within - {s[0]};
      forall i | 0 <= i < |s[1..]| ensures s[1..][i] in rest {
        assert s[1..][i] == s[i + 1];
      }
      DistinctWithin(s[1..], rest);
    }
  }

  /** Assignments whose keys all come from `within` fill a dictionary with at most that many distinct keys. */
  lemma PutAllWithin(ps: seq<(string, string)>, within: set<string>)
    requires forall k :: 0 <= k < |ps| ==> ps[k].0 in within
    ensures UniqueKeys(PutAll(ps))
    ensures forall k :: k in Keys(PutAll(ps)) ==> k in within
    ensures |PutAll(ps)| <= |within|
  {
    PutAllKeys(ps);
    var ks := Keys(PutAll(ps));
    forall i | 0 <= i < |ks| ensures ks[i] in within {
      assert ks[i] in Keys(ps);
      var j :| 0 <= j < |Keys(ps)| && Keys(ps)[j] == ks[i];
      assert ps[j].0 == ks[i];
    }
    DistinctWithin(ks, within);
  }

  /** A set of two given elements has at most two. */
  lemma PairSize(a: string, b: string)
    ensures |{a, b}| <= 2
  {
  }

  /** `field_errors` has distinct keys, only the two name fields, so at most two entries. */
  lemma FieldErrorsKeys(errors: seq<Exception>)
    ensures UniqueKeys(FieldErrors(errors))
    ensures forall k :: k in Keys(FieldErrors(errors)) ==> k == "first_name" || k == "last_name"
    ensures |FieldErrors(errors)| <= 2
  {
    var names := {"first_name", "last_name"};
    var ps := Entries(FieldsNamed(errors));
    assert forall k :: 0 <= k < |ps| ==> ps[k].0 in names;
    PutAllWithin(ps, names);
    PairSize("first_name", "last_name");
  }

  /** `field_errors` maps each name field to its message exactly when some error is filed under it. */
  lemma FieldErrorsGet(errors: seq<Exception>)
    ensures Get(FieldErrors(errors), "first_name") ==
      if FirstNameField in FieldsNamed(errors) then Some(FirstNameMessage) else None
    ensures Get(FieldErrors(errors), "last_name") ==
      if LastNameField in FieldsNamed(errors) then Some(LastNameMessage) else None
  {
    var ns := FieldsNamed(errors);
    PutAllGet(Entries(ns), "first_name");
    PutAllGet(Entries(ns), "last_name");
    EntriesLastValue(ns);
  }

  /**
    `field_errors` holds "first_name" exactly when some error names the first
    name, "last_name" exactly when some other error names the last name, each
    with its fixed message, and nothing else: repeated errors for one field
    collapse into one entry.
  */
  lemma FieldErrorsSpec(errors: seq<Exception>)
    ensures UniqueKeys(FieldErrors(errors))
    ensures forall k :: k in Keys(FieldErrors(errors)) ==> k == "first_name" || k == "last_name"
    ensures |FieldErrors(errors)| <= 2
    ensures Get(FieldErrors(errors), "first_name") ==
      if exists i :: 0 <= i < |errors| && FieldNamedBy(errors[i]) == FirstNameField then Some(FirstNameMessage) else None
    ensures Get(FieldErrors(errors), "last_name") ==
      if exists i :: 0 <= i < |errors| && FieldNamedBy(errors[i]) == LastNameField then Some(LastNameMessage) else None
  {
    FieldErrorsKeys(errors);
    FieldErrorsGet(errors);
    FieldsNamedHas(errors, FirstNameField);
    FieldsNamedHas(errors, LastNameField);
  }

  /** An error whose text starts with "first_name" is filed under the first name. */
  lemma FiledUnderFirstName(text: string)
    requires Text.IsPrefix("first_name", text)
    ensures FieldNamedBy(ValueError(text)) == FirstNameField
  {
    var lowered := Text.Lower(text);
    forall i | 0 <= i < 10 ensures lowered[i] == "first_name"[i] {
      assert text[i] == text[..10][i];
    }
    assert lowered[..10] == "first_name";
    Text.ContainsPrefix(lowered, "first_name");
  }

  /**
    An error whose text starts with "last_name" and has no "f" in either case
    is filed under the last name.
  */
  lemma FiledUnderLastName(text: string)
    requires Text.IsPrefix("last_name", text) && 'f' !in text && 'F' !in text
    ensures FieldNamedBy(ValueError(text)) == LastNameField
  {
    var lowered := Text.Lower(text);
    assert 'f' !in lowered by {
      forall i | 0 <= i < |lowered| ensures lowered[i] != 'f' {
        assert text[i] in text;
      }
    }
    Text.NotContainsWithoutHead(lowered, "first_name");
    forall i | 0 <= i < 9 ensures lowered[i] == "last_name"[i] {
      assert text[i] == text[..9][i];
    }
    assert lowered[..9] == "last_name";
    Text.ContainsPrefix(lowered, "last_name");
  }

  /** The first-name validation error is filed under the first name. */
  lemma FirstNameErrorFiled()
    ensures FieldNamedBy(FirstNameError) == FirstNameField
  {
    FiledUnderFirstName(WhitespaceMessage("first_name"));
  }

  /** The last-name validation error is filed under the last name, not the first. */
  lemma LastNameErrorFiled()
    ensures FieldNamedBy(LastNameError) == LastNameField
  {
    assert 'f' !in ": No whitespace in " && 'F' !in ": No whitespace in ";
    assert 'f' !in " is allowed" && 'F' !in " is allowed";
    FiledUnderLastName(WhitespaceMessage("last_name"));
  }

  /**
    The field errors `submit_form` reports for a first-name error and a
    last-name error, each present or not: the fields in that order, each with
    its message.
  */
  function ReportedFields(hasFirst: bool, hasLast: bool): (d: Dict<string>)
    ensures UniqueKeys(d)
    ensures |d| == (if hasFirst then 1 else 0) + (if hasLast then 1 else 0)
    ensures Get(d, "first_name") == if hasFirst then Some(FirstNameMessage) else None
    ensures Get(d, "last_name") == if hasLast then Some(LastNameMessage) else None
  {
    var d := (if hasFirst then [("first_name", FirstNameMessage)] else []) +
             (if hasLast then [("last_name", LastNameMessage)] else []);
    assert "first_name"[0] != "last_name"[0];
    assert |d| == 2 ==> d[0].0 == "first_name" && d[1].0 == "last_name";
    d
  }

  /** The fields a first-name error and a last-name error, each present or not, are filed under. */
  function Tags(hasFirst: bool, hasLast: bool): seq<NamedField> {
    (if hasFirst then [FirstNameField] else []) + (if hasLast then [LastNameField] else [])
  }

  /** Assigning the messages for those fields builds `ReportedFields`. */
  lemma TagsReported(hasFirst: bool, hasLast: bool)
    ensures PutAll(Entries(Tags(hasFirst, hasLast))) == ReportedFields(hasFirst, hasLast)
  {
    var expected := ReportedFields(hasFirst, hasLast);
    EntriesStep([], FirstNameField);
    EntriesStep([], LastNameField);
    EntriesStep([FirstNameField], LastNameField);
    assert Entries(Tags(hasFirst, hasLast)) == expected;
    PutAllDistinct(expected);
  }

  /** The loop turns a first-name error and a last-name error, each present or not, into `ReportedFields`. */
  lemma TaggedFieldErrors(hasFirst: bool, hasLast: bool, firstError: Exception, lastError: Exception)
    requires FieldNamedBy(firstError) == FirstNameField && FieldNamedBy(lastError) == LastNameField
    ensures FieldErrors((if hasFirst then [firstError] else []) + (if hasLast then [lastError] else [])) ==
      ReportedFields(hasFirst, hasLast)
  {
    var errs := (if hasFirst then [firstError] else []) + (if hasLast then [lastError] else []);
    assert FieldsNamed(errs) == Tags(hasFirst, hasLast);
    TagsReported(hasFirst, hasLast);
  }

  /**
    From the names to the field errors: the endpoint reports a field exactly
    when the use case found a space in it, first name before last name.
  */
  lemma ValidationFieldErrors(firstName: string, lastName: string)
    ensures FieldErrors(ValidationErrors(firstName, lastName)) == ReportedFields(' ' in firstName, ' ' in lastName)
  {
    FirstNameErrorFiled();
    LastNameErrorFiled();
    TaggedFieldErrors(' ' in firstName, ' ' in lastName, FirstNameError, LastNameError);
  }

  /**
    How `submit_form` ends for the field errors it collected: the use case's
    `success` when there are none, a 400 `FormFieldError` for one field, a 400
    `MultipleFormFieldError` carrying all of them for more.
  */
  function OutcomeFor(fieldErrors: Dict<string>, success: bool): (out: SubmitOutcome)
    ensures out.Responded? <==> fieldErrors == []
    ensures out.Responded? ==> out.success == success
    ensures out.AppError? ==> out.exc.statusCode == BadRequest
    ensures |fieldErrors| == 1 ==>
      out.AppError? && out.exc.FormFieldError? &&
      out.exc.fieldName == fieldErrors[0].0 && out.exc.errorMessage == fieldErrors[0].1
    ensures |fieldErrors| >= 2 ==>
      out.AppError? && out.exc.MultipleFormFieldError? && out.exc.fieldErrors == fieldErrors
  {
    if fieldErrors == [] then Responded(success)
    else if |fieldErrors| == 1 then AppError(NewFormFieldError(fieldErrors[0].0, fieldErrors[0].1, None))
    else AppError(NewMultipleFormFieldError(fieldErrors, None))
  }

  /** How `submit_form` ends for the reported name fields: one field alone, or both in one error. */
  lemma ReportedOutcome(hasFirst: bool, hasLast: bool, success: bool)
    ensures hasFirst && hasLast ==>
      OutcomeFor(ReportedFields(hasFirst, hasLast), success) ==
      AppError(NewMultipleFormFieldError([("first_name", FirstNameMessage), ("last_name", LastNameMessage)], None))
    ensures hasFirst && !hasLast ==>
      OutcomeFor(ReportedFields(hasFirst, hasLast), success) == AppError(NewFormFieldError("first_name", FirstNameMessage, None))
    ensures !hasFirst && hasLast ==>
      OutcomeFor(ReportedFields(hasFirst, hasLast), success) == AppError(NewFormFieldError("last_name", LastNameMessage, None))
    ensures !hasFirst && !hasLast ==> OutcomeFor(ReportedFields(hasFirst, hasLast), success) == Responded(success)
  {
    var reported := ReportedFields(hasFirst, hasLast);
    if hasFirst && hasLast {
      assert reported == [("first_name", FirstNameMessage), ("last_name", LastNameMessage)];
    } else if hasFirst {
      assert reported == [("first_name", FirstNameMessage)];
    } else if hasLast {
      assert reported == [("last_name", LastNameMessage)];
    }
  }

  /**
    From the names to the end of `submit_form`, once the use case returned: a
    name with a space is reported on its field, both names in one error.
  */
  lemma ValidationOutcome(firstName: string, lastName: string, success: bool)
    ensures OutcomeFor(FieldErrors(ValidationErrors(firstName, lastName)), success) ==
      OutcomeFor(ReportedFields(' ' in firstName, ' ' in lastName), success)
  {
    ValidationFieldErrors(firstName, lastName);
  }

  /**
    The part of `submit_form` after the use case ran: with errors, collect the
    field errors and raise one `FormFieldError` for a single field or a
    `MultipleFormFieldError` for more; otherwise, or when no error names a
    field, respond with the use case's `success`.
  */
  method SubmitFormResult(errors: seq<Exception>, success: bool) returns (out: SubmitOutcome)
    ensures out == OutcomeFor(FieldErrors(errors), success)
  {
    if |errors| > 0 {
      var fieldErrors: Dict<string> := [];
      var i := 0;
      while i < |errors|
        invariant 0 <= i <= |errors|
        invariant fieldErrors == FieldErrors(errors[..i])
      {
        var errorStr := Text.Lower(UseCase.Str(errors[i]));
        if Text.Contains(errorStr, "first_name") {
          fieldErrors := Put(fieldErrors, "first_name", FirstNameMessage);
        } else if Text.Contains(errorStr, "last_name") {
          fieldErrors := Put(fieldErrors, "last_name", LastNameMessage);
        }
        FieldErrorsStep(errors, i);
        i := i + 1;
      }
      assert errors[..|errors|] == errors;
      if fieldErrors != [] {
        if |fieldErrors| == 1 {
          var (fieldName, errorMessage) := fieldErrors[0];
          return AppError(NewFormFieldError(fieldName, errorMessage, None));
        } else {
          return AppError(NewMultipleFormFieldError(fieldErrors, None));
        }
      }
    }
    return Responded(success);
  }

  /**
    `submit_form` end to end, for a request that passed the `min_length=1`
    checks: a name with a space is reported as a 400 error on that field (both
    fields in one error when both have spaces) and nothing is stored; clean
    names store one row and respond with success; a storage failure rolls back
    and propagates.
  */
  method SubmitFormRoute(uc: SubmitForm, form: SubmitFormRequest) returns (out: SubmitOutcome)
    requires |form.firstName| >= 1 && |form.lastName| >= 1
    requires uc.dal.Valid()
    modifies uc.dal
    ensures uc.dal.Valid()
    ensures uc.dal.committed == old(uc.dal.committed) && uc.dal.defaultOrderBy == old(uc.dal.defaultOrderBy)
    ensures ' ' in form.firstName || ' ' in form.lastName ==> uc.dal.rows == old(uc.dal.rows)
    ensures ' ' in form.firstName && ' ' in form.lastName ==>
      out == AppError(NewMultipleFormFieldError(
        [("first_name", FirstNameMessage), ("last_name", LastNameMessage)], None))
    ensures ' ' in form.firstName && ' ' !in form.lastName ==>
      out == AppError(NewFormFieldError("first_name", FirstNameMessage, None))
    ensures ' ' !in form.firstName && ' ' in form.lastName ==>
      out == AppError(NewFormFieldError("last_name", LastNameMessage, None))
    ensures ' ' !in form.firstName && ' ' !in form.lastName && old(uc.dal.available) ==>
      out == Responded(true) &&
      EntryAppended(old(uc.dal.rows), uc.dal.rows, form.date, form.firstName, form.lastName)
    ensures ' ' !in form.firstName && ' ' !in form.lastName && !old(uc.dal.available) ==>
      out == ServerError(StorageUnavailable) && uc.dal.rows == old(uc.dal.committed)
  {
    var ucRequest := SubmitFormRequest(form.date, form.firstName, form.lastName);
    var ucOutcome := uc.Execute(ucRequest);
    if ucOutcome.Raised? {
      return ServerError(ucOutcome.error);
    }
    var ucResponse := ucOutcome.value;
    ValidationOutcome(form.firstName, form.lastName, ucResponse.success);
    ReportedOutcome(' ' in form.firstName, ' ' in form.lastName, ucResponse.success);
    out := SubmitFormResult(ucResponse.response.errors, ucResponse.success);
  }

  /** `HistoryItem` of the API. */
  datatype ApiHistoryItem = ApiHistoryItem(date: Date, firstName: string, lastName: string, count: nat)

  /** `HistoryResponse` of the API. */
  datatype HistoryResponse = HistoryResponse(items: seq<ApiHistoryItem>, total: nat)

  /** The use case's items as API items, one for one, in order. */
  function ApiItems(items: seq<HistoryItem>): (r: seq<ApiHistoryItem>)
    ensures |r| == |items|
    ensures forall k :: 0 <= k < |items| ==>
      r[k] == ApiHistoryItem(items[k].date, items[k].firstName, items[k].lastName, items[k].count)
  {
    seq(|items|, k requires 0 <= k < |items| =>
      ApiHistoryItem(items[k].date, items[k].firstName, items[k].lastName, items[k].count))
  }

  /**
    `get_history`: the page of the DAL's history with each row's count of
    previous entries, and the total count of matching rows.
  */
  method GetHistoryRoute(uc: GetHistory, dateFilter: Date, firstName: Option<string>, lastName: Option<string>)
    returns (resp: HistoryResponse)
    ensures resp.total == CountFilteredHistory(uc.dal.rows, dateFilter, firstName, lastName)
    ensures var page := GetFilteredHistory(uc.dal.rows, dateFilter, firstName, lastName, PageSize);
      |resp.items| == |page| &&
      forall k :: 0 <= k < |page| ==>
        resp.items[k] == ApiHistoryItem(page[k].date, page[k].firstName, page[k].lastName,
                                        CountPreviousEntries(uc.dal.rows, page[k].date, page[k].firstName,
                                                             page[k].lastName))
    ensures |resp.items| <= PageSize && |resp.items| <= resp.total
  {
    var ucResponse := uc.Execute(GetHistoryRequest(dateFilter, firstName, lastName));
    resp := HistoryResponse(ApiItems(ucResponse.items), ucResponse.total);
  }

  datatype UniqueNamesResponse = UniqueNamesResponse(firstNames: seq<string>, lastNames: seq<string>)

  /** `get_unique_names`: the DAL's two name lists, unchanged. */
  method GetUniqueNamesRoute(dal: BaseDAL) returns (resp: UniqueNamesResponse)
    ensures resp.firstNames == GetUniqueFirstNames(dal.rows) && resp.lastNames == GetUniqueLastNames(dal.rows)
    ensures forall n :: n in resp.firstNames <==> n != "" && exists k :: 0 <= k < |dal.rows| && dal.rows[k].firstName == n
    ensures forall n :: n in resp.lastNames <==> n != "" && exists k :: 0 <= k < |dal.rows| && dal.rows[k].lastName == n
  {
    var firstNames := GetUniqueFirstNames(dal.rows);
    var lastNames := GetUniqueLastNames(dal.rows);
    resp := UniqueNamesResponse(firstNames, lastNames);
  }
}
