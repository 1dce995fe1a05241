/**
  The error responses of the HTTP layer: an `AppException` flattened into a
  `{field: [message]}` body, the 500 body for any other exception (with a
  location and a trimmed traceback in debug mode), and the 422 body the
  request-validation handler builds from the validation errors.
*/
module Middlewares {
  import opened Wrappers
  import opened OrderedDict
  import Text
  import Seqs
  import opened AppExceptions

  const UnprocessableEntity := 422
  const InternalServerError := 500

  /** A JSON error response: its status and the `SubmitFormErrorResponse` body. */
  datatype ErrorResponse = ErrorResponse(statusCode: int, success: bool, error: Dict<seq<string>>)

  /*
   * The application-error body.
   */

  /** The else-branch key: `error_key` with "form." removed when it starts with it. */
  function ErrorKeyField(errorKey: string): (r: string)
    ensures !Text.IsPrefix("form.", errorKey) ==> r == errorKey
    ensures Text.IsPrefix("form.", errorKey) && !Text.Contains(errorKey[5..], "form.") ==> r == errorKey[5..]
  {
    if Text.IsPrefix("form.", errorKey) then
      assert !Text.Contains(errorKey[5..], "form.") ==> Text.RemoveAll(errorKey, "form.") == errorKey[5..] by {
        if !Text.Contains(errorKey[5..], "form.") { Text.RemoveAllAbsent(errorKey[5..], "form."); }
      }
      Text.RemoveAll(errorKey, "form.")
    else errorKey
  }

  /** Each field of a field-error dictionary with its message as a one-element list. */
  function Singletons(fieldErrors: Dict<string>): (r: Dict<seq<string>>)
    ensures |r| == |fieldErrors|
    ensures forall k :: 0 <= k < |r| ==> r[k] == (fieldErrors[k].0, [fieldErrors[k].1])
  {
    seq(|fieldErrors|, k requires 0 <= k < |fieldErrors| => (fieldErrors[k].0, [fieldErrors[k].1]))
  }

  /** The body `_wrap_application_logic_error` builds for `e`. */
  function ApplicationErrorDict(e: AppException): (d: Dict<seq<string>>)
    ensures e.MultipleFormFieldError? && e.fieldErrors != [] ==> d == Singletons(e.fieldErrors)
    ensures e.FormFieldError? && e.fieldName != "" ==> d == [(e.fieldName, [e.errorMessage])]
    ensures !(e.MultipleFormFieldError? && e.fieldErrors != []) && !(e.FormFieldError? && e.fieldName != "") ==>
      d == [(ErrorKeyField(e.errorKey), [e.errorMessage])]
  {
    if e.MultipleFormFieldError? && e.fieldErrors != [] then Singletons(e.fieldErrors)
    else if e.FormFieldError? && e.fieldName != "" then [(e.fieldName, [e.errorMessage])]
    else [(ErrorKeyField(e.errorKey), [e.errorMessage])]
  }

  /** A field-error dictionary gives one key per field, in its order. */
  lemma SingletonsKeys(fieldErrors: Dict<string>)
    ensures Keys(Singletons(fieldErrors)) == Keys(fieldErrors)
    ensures UniqueKeys(fieldErrors) ==> UniqueKeys(Singletons(fieldErrors))
  {
    var s := Singletons(fieldErrors);
    assert forall k :: 0 <= k < |s| ==> Keys(s)[k] == Keys(fieldErrors)[k];
  }

  /** Assigning the singleton of one more field error extends the singletons by it. */
  lemma SingletonsStep(fieldErrors: Dict<string>, i: nat)
    requires UniqueKeys(fieldErrors) && i < |fieldErrors|
    ensures Put(Singletons(fieldErrors[..i]), fieldErrors[i].0, [fieldErrors[i].1]) == Singletons(fieldErrors[..i + 1])
  {
    var before := Singletons(fieldErrors[..i]);
    assert fieldErrors[i].0 !in Keys(before) by {
      forall k | 0 <= k < i ensures Keys(before)[k] != fieldErrors[i].0 {
        assert Keys(before)[k] == before[k].0 == fieldErrors[k].0;
      }
    }
    PutAppendsNew(before, fieldErrors[i].0, [fieldErrors[i].1]);
    SingletonsTake(fieldErrors, i);
  }

  /** The singletons of one more field error: those before, then its own. */
  lemma SingletonsTake(fieldErrors: Dict<string>, i: nat)
    requires i < |fieldErrors|
    ensures Singletons(fieldErrors[..i + 1]) == Singletons(fieldErrors[..i]) + [(fieldErrors[i].0, [fieldErrors[i].1])]
  {
    var before := Singletons(fieldErrors[..i]);
    var entry := (fieldErrors[i].0, [fieldErrors[i].1]);
    var after := Singletons(fieldErrors[..i + 1]);
    forall k | 0 <= k < |after| ensures after[k] == (before + [entry])[k] {
      assert fieldErrors[..i + 1][k] == fieldErrors[k];
      if k < i { assert fieldErrors[..i][k] == fieldErrors[k]; }
    }
  }

  /** A `FormFieldError` always comes back as its own field with its own message. */
  lemma FormFieldErrorBody(fieldName: string, errorMessage: string, statusCode: Option<int>)
    ensures ApplicationErrorDict(NewFormFieldError(fieldName, errorMessage, statusCode)) ==
      [(fieldName, [errorMessage])]
  {
    if fieldName == "" {
      var key := "form." + fieldName;
      assert Text.IsPrefix("form.", key);
      assert key[5..] == [];
      assert Text.RemoveAll(key, "form.") == Text.RemoveAll(key[5..], "form.");
    }
  }

  /**
    A `MultipleFormFieldError` comes back as one entry per field; with no field
    errors it falls back to its own key and message.
  */
  lemma MultipleFormFieldErrorBody(fieldErrors: Dict<string>, statusCode: Option<int>)
    ensures fieldErrors != [] ==>
      ApplicationErrorDict(NewMultipleFormFieldError(fieldErrors, statusCode)) == Singletons(fieldErrors)
    ensures fieldErrors == [] ==>
      ApplicationErrorDict(NewMultipleFormFieldError(fieldErrors, statusCode)) ==
        [("form_validation", ["Multiple validation errors"])]
  {
    assert !Text.IsPrefix("form.", "form_validation") by {
      assert "form_validation"[4] != "form."[4];
    }
  }

  /** An `AppException` keyed "form." plus a field is reported under that field. */
  lemma FormKeyedAppExceptionBody(field: string, errorMessage: string, statusCode: int, errorLoc: Option<seq<string>>)
    requires !Text.Contains(field, "form.")
    ensures ApplicationErrorDict(NewAppException("form." + field, errorMessage, statusCode, errorLoc)) ==
      [(field, [errorMessage])]
  {
    var key := "form." + field;
    assert key[..5] == "form." && key[5..] == field;
  }

  /** A `FormValidationError` with the default key is reported under "form_validation". */
  lemma FormValidationErrorBody(errorMessage: Option<string>, statusCode: Option<int>, errorLoc: Option<seq<string>>)
    ensures var e := NewFormValidationError(None, errorMessage, statusCode, errorLoc);
      ApplicationErrorDict(e) == [("form_validation", [e.errorMessage])]
  {
    assert !Text.IsPrefix("form.", "form_validation") by {
      assert "form_validation"[4] != "form."[4];
    }
  }

  /*
   * Unexpected exceptions.
   */

  /**
    What the middleware reads from an unexpected exception: the reprs of its
    `args`, `format_exception_only` of it, and the formatted frames of its
    traceback.
  */
  datatype UnexpectedError = UnexpectedError(args: seq<string>, description: seq<string>, frames: seq<string>)

  /** The dictionary `_get_error_loc` returns; a missing key is `None`. */
  datatype ErrorLoc = ErrorLoc(args: seq<string>, cause: Option<seq<string>>, trace: Option<seq<string>>)

  /**
    One traceback line cut at the first "site-packages", else at the first
    "python", else at the first occurrence of the project name; a line with
    none of them is kept whole.
  */
  function CleanPath(path: string, projectName: string): string {
    var sitePackages := Text.Find(path, "site-packages");
    var python := if sitePackages == -1 then Text.Find(path, "python") else sitePackages;
    var cleanIdx := if python == -1 then Text.Find(path, projectName) else python;
    if cleanIdx == -1 then path else path[cleanIdx..]
  }

  /**
    A cleaned line is a suffix of the line, starting at the first occurrence
    of the first marker the line contains ("site-packages", then "python",
    then the service name); a line without any marker is left as it is.
  */
  lemma CleanPathSpec(path: string, projectName: string)
    ensures var r := CleanPath(path, projectName);
      |r| <= |path| && r == path[|path| - |r|..]
    ensures var r := CleanPath(path, projectName);
      Text.Contains(path, "site-packages") ==>
        Text.IsPrefix("site-packages", r) &&
        forall j :: 0 <= j < |path| - |r| ==> !Text.OccursAt(path, "site-packages", j)
    ensures var r := CleanPath(path, projectName);
      !Text.Contains(path, "site-packages") && Text.Contains(path, "python") ==>
        Text.IsPrefix("python", r) &&
        forall j :: 0 <= j < |path| - |r| ==> !Text.OccursAt(path, "python", j)
    ensures var r := CleanPath(path, projectName);
      !Text.Contains(path, "site-packages") && !Text.Contains(path, "python") && Text.Contains(path, projectName) ==>
        Text.IsPrefix(projectName, r) &&
        forall j :: 0 <= j < |path| - |r| ==> !Text.OccursAt(path, projectName, j)
    ensures var r := CleanPath(path, projectName);
      !Text.Contains(path, "site-packages") && !Text.Contains(path, "python") && !Text.Contains(path, projectName) ==>
        r == path
  {
    if Text.Contains(path, "site-packages") {
      Text.FindCut(path, "site-packages");
    } else if Text.Contains(path, "python") {
      Text.FindCut(path, "python");
    } else if Text.Contains(path, projectName) {
      Text.FindCut(path, projectName);
    }
  }

  /** Every traceback line cleaned, in order. */
  function CleanedTrace(paths: seq<string>, projectName: string): (r: seq<string>)
    ensures |r| == |paths|
    ensures forall i :: 0 <= i < |paths| ==> r[i] == CleanPath(paths[i], projectName)
  {
    seq(|paths|, i requires 0 <= i < |paths| => CleanPath(paths[i], projectName))
  }

  /** Python's `repr` of a string (escaping is not modelled). */
  function ReprStr(s: string): string {
    "'" + s + "'"
  }

  /** Python's `repr` of a list whose elements' reprs are `items`. */
  function ReprList(items: seq<string>): string {
    "[" + Text.Join(items, ", ") + "]"
  }

  function ReprStrList(strs: seq<string>): string {
    ReprList(seq(|strs|, i requires 0 <= i < |strs| => ReprStr(strs[i])))
  }

  /** `str(error_loc)`: the dictionary's repr, keys in insertion order. */
  function ReprErrorLoc(loc: ErrorLoc): (r: string)
    ensures Text.IsPrefix("{'args': ", r)
  {
    var head := "{'args': ";
    var cause := match loc.cause case Some(c) => ", 'cause': " + ReprStrList(c) case None => "";
    var trace := match loc.trace case Some(t) => ", 'trace': " + ReprStrList(t) case None => "";
    var r := head + ReprList(loc.args) + cause + trace + "}";
    assert r[..|head|] == head;
    r
  }

  /*
   * Request validation errors.
   */

  /** One entry of `RequestValidationError.errors()`: its `loc` (as strings), `msg` and `type`. */
  datatype ValidationIssue = ValidationIssue(loc: seq<string>, msg: Option<string>, errorType: Option<string>)

  /** The parts of a location that name the request section rather than a field. */
  predicate IsSectionName(part: string) {
    part == "body" || part == "query" || part == "path"
  }

  /** The location without its section names, in order. */
  function FieldParts(loc: seq<string>): (r: seq<string>)
    ensures |r| <= |loc|
    ensures forall p :: p in r <==> p in loc && !IsSectionName(p)
    ensures |loc| == 1 ==> r == if IsSectionName(loc[0]) then [] else loc
  {
    if loc == [] then []
    else
      var init, last := loc[..|loc| - 1], loc[|loc| - 1];
      assert loc == init + [last];
      if IsSectionName(last) then FieldParts(init) else FieldParts(init) + [last]
  }

  /** Dropping section names keeps the other parts in order: it distributes over concatenation. */
  lemma {:induction false} FieldPartsAppend(a: seq<string>, b: seq<string>)
    ensures FieldParts(a + b) == FieldParts(a) + FieldParts(b)
    decreases |b|
  {
    if b == [] {
      assert a + b == a;
    } else {
      var init, last := b[..|b| - 1], b[|b| - 1];
      FieldPartsAppend(a, init);
      assert (a + b)[..|a + b| - 1] == a + init;
      assert (a + b)[|a + b| - 1] == last;
      if IsSectionName(last) {
        assert FieldParts(a + b) == FieldParts(a + init);
        assert FieldParts(b) == FieldParts(init);
      } else {
        assert FieldParts(a + b) == FieldParts(a + init) + [last];
        assert FieldParts(b) == FieldParts(init) + [last];
      }
    }
  }

  /**
    The field an issue is reported under: the non-section parts joined by ".";
    with none left, the last part of the location, or "unknown" for an empty one.
  */
  function FieldPath(loc: seq<string>): (field: string)
    ensures FieldParts(loc) != [] ==> field == Text.Join(FieldParts(loc), ".")
    ensures FieldParts(loc) == [] && loc != [] ==> field == loc[|loc| - 1] && IsSectionName(field)
    ensures loc == [] ==> field == "unknown"
  {
    var parts := FieldParts(loc);
    var fieldParts := if parts != [] then parts else if loc != [] then [loc[|loc| - 1]] else ["unknown"];
    if |fieldParts| == 1 then fieldParts[0] else Text.Join(fieldParts, ".")
  }

  /** `error.get("msg", "Validation error")` */
  function RawMessage(issue: ValidationIssue): string {
    match issue.msg case Some(m) => m case None => "Validation error"
  }

  /** `str(error.get("type", ""))` */
  function TypeText(issue: ValidationIssue): string {
    match issue.errorType case Some(t) => t case None => ""
  }

  /** A whitespace complaint, by message (any case) or by type. */
  predicate MentionsWhitespace(issue: ValidationIssue) {
    Text.Contains(Text.Lower(RawMessage(issue)), "whitespace") || Text.Contains(TypeText(issue), "whitespace")
  }

  /** The message reported for an issue under `field`. */
  function IssueMessage(issue: ValidationIssue, field: string): (m: string)
    ensures MentionsWhitespace(issue) ==> m == "No whitespace in " + field + " is allowed"
    ensures !MentionsWhitespace(issue) ==> m == RawMessage(issue)
  {
    if MentionsWhitespace(issue) then "No whitespace in " + field + " is allowed" else RawMessage(issue)
  }

  /**
    The handler's update of its dictionary: a new field gets an empty list,
    then the message is appended to the field's list.
  */
  function AddMessage(errors: Dict<seq<string>>, field: string, message: string): (r: Dict<seq<string>>)
    ensures Keys(r) == if field in Keys(errors) then Keys(errors) else Keys(errors) + [field]
    ensures forall f ::
              Get(r, f) ==
              (if f == field then Some((match Get(errors, field) case Some(ms) => ms case None => []) + [message])
               else Get(errors, f))
    ensures UniqueKeys(errors) ==> UniqueKeys(r)
  {
    var withField := if field in Keys(errors) then errors else Put(errors, field, []);
    Put(withField, field, Get(withField, field).value + [message])
  }

  /** The field and the message the handler reports for one issue. */
  function ReportOf(issue: ValidationIssue): (string, string) {
    var field := FieldPath(issue.loc);
    (field, IssueMessage(issue, field))
  }

  /** The field and the message the handler reports for each issue, in order. */
  function Reported(issues: seq<ValidationIssue>): (ps: seq<(string, string)>)
    ensures |ps| == |issues|
    ensures forall i :: 0 <= i < |issues| ==> ps[i] == ReportOf(issues[i])
  {
    seq(|issues|, i requires 0 <= i < |issues| => ReportOf(issues[i]))
  }

  /** Reporting one more issue adds its field and message at the end. */
  lemma ReportedStep(issues: seq<ValidationIssue>, i: int)
    requires 0 <= i < |issues|
    ensures Reported(issues[..i + 1]) == Reported(issues[..i]) + [ReportOf(issues[i])]
  {
    var before, after := Reported(issues[..i]), Reported(issues[..i + 1]);
    forall k | 0 <= k < |after| ensures after[k] == (before + [ReportOf(issues[i])])[k] {
      if k < i { assert issues[..i + 1][k] == issues[..i][k]; }
    }
  }

  /** The messages reported under `field`, in order. */
  function MessagesUnder(ps: seq<(string, string)>, field: string): (r: seq<string>)
    ensures |r| <= |ps|
    ensures field !in Keys(ps) ==> r == []
  {
    if ps == [] then []
    else
      var init, last := ps[..|ps| - 1], ps[|ps| - 1];
      assert forall i :: 0 <= i < |init| ==> Keys(init)[i] == Keys(ps)[i];
      var m := MessagesUnder(init, field);
      if last.0 == field then m + [last.1] else m
  }

  /** The dictionary the handler's loop builds from the reported pairs. */
  function GroupMessages(ps: seq<(string, string)>): Dict<seq<string>> {
    if ps == [] then []
    else AddMessage(GroupMessages(ps[..|ps| - 1]), ps[|ps| - 1].0, ps[|ps| - 1].1)
  }

  /** Grouping gives one key per distinct field, in order of first appearance. */
  lemma {:induction false} GroupMessagesKeys(ps: seq<(string, string)>)
    ensures UniqueKeys(GroupMessages(ps))
    ensures Keys(GroupMessages(ps)) == Text.Dedup(Keys(ps))
  {
    if ps != [] {
      var init, field, message := ps[..|ps| - 1], ps[|ps| - 1].0, ps[|ps| - 1].1;
      assert ps == init + [(field, message)];
      KeysAppend(init, (field, message));
      GroupMessagesKeys(init);
      var keys := Keys(ps);
      assert keys[..|keys| - 1] == Keys(init);
      assert Text.Dedup(keys) ==
        if field in Text.Dedup(Keys(init)) then Text.Dedup(Keys(init)) else Text.Dedup(Keys(init)) + [field];
    }
  }

  /** Grouping one more pair adds its message under its field. */
  lemma GroupMessagesAppend(ps: seq<(string, string)>, p: (string, string))
    ensures GroupMessages(ps + [p]) == AddMessage(GroupMessages(ps), p.0, p.1)
  {
    assert (ps + [p])[..|ps|] == ps;
  }

  /** The messages under a field after one more pair: one more when the pair is for that field. */
  lemma MessagesUnderAppend(ps: seq<(string, string)>, p: (string, string), f: string)
    ensures MessagesUnder(ps + [p], f) == if p.0 == f then MessagesUnder(ps, f) + [p.1] else MessagesUnder(ps, f)
  {
    assert (ps + [p])[..|ps|] == ps;
  }

  /** Under each field, grouping keeps that field's messages in order; other fields are absent. */
  lemma {:induction false} GroupMessagesGet(ps: seq<(string, string)>, f: string)
    ensures Get(GroupMessages(ps), f) == if f in Keys(ps) then Some(MessagesUnder(ps, f)) else None
  {
    if ps != [] {
      var init, last := ps[..|ps| - 1], ps[|ps| - 1];
      Seqs.SplitLast(ps);
      KeysAppend(init, last);
      GroupMessagesGet(init, f);
      GroupMessagesAppend(init, last);
      MessagesUnderAppend(init, last, f);
      assert f in Keys(ps) <==> f in Keys(init) || f == last.0;
    }
  }

  /** The two grouping lemmas together, for every field. */
  lemma GroupMessagesSpec(ps: seq<(string, string)>)
    ensures UniqueKeys(GroupMessages(ps)) && Keys(GroupMessages(ps)) == Text.Dedup(Keys(ps))
    ensures forall f ::
              Get(GroupMessages(ps), f) ==
              (if f in Keys(ps) then Some(MessagesUnder(ps, f)) else None)
  {
    GroupMessagesKeys(ps);
    forall f ensures Get(GroupMessages(ps), f) == if f in Keys(ps) then Some(MessagesUnder(ps, f)) else None {
      GroupMessagesGet(ps, f);
    }
  }

  /**
    `ExceptionTraceHandlerMiddleware` with the settings it reads: the service
    name it trims traceback paths to and the debug flag.
  */
  class ExceptionTraceHandlerMiddleware {
    const projectName: string
    const debug: bool

    constructor (projectName: string, debug: bool)
      ensures this.projectName == projectName && this.debug == debug
    {
      this.projectName := projectName;
      this.debug := debug;
    }

    /** `_wrap_application_logic_error`: the exception's status with its flattened body. */
    method WrapApplicationLogicError(e: AppException) returns (resp: ErrorResponse)
      requires e.MultipleFormFieldError? ==> UniqueKeys(e.fieldErrors)
      ensures resp.statusCode == e.statusCode && !resp.success
      ensures resp.error == ApplicationErrorDict(e)
      ensures UniqueKeys(resp.error)
      ensures e.MultipleFormFieldError? && e.fieldErrors != [] ==>
        Keys(resp.error) == Keys(e.fieldErrors) &&
        forall k :: 0 <= k < |resp.error| ==> resp.error[k].1 == [e.fieldErrors[k].1]
      ensures !(e.MultipleFormFieldError? && e.fieldErrors != []) ==> |resp.error| == 1 && resp.error[0].1 == [e.errorMessage]
    {
      var errorDict: Dict<seq<string>> := [];
      if e.MultipleFormFieldError? && e.fieldErrors != [] {
        var i := 0;
        while i < |e.fieldErrors|
          invariant 0 <= i <= |e.fieldErrors|
          invariant errorDict == Singletons(e.fieldErrors[..i])
        {
          var (fieldName, errorMessage) := e.fieldErrors[i];
          SingletonsStep(e.fieldErrors, i);
          errorDict := Put(errorDict, fieldName, [errorMessage]);
          i := i + 1;
        }
        assert e.fieldErrors[..i] == e.fieldErrors;
        SingletonsKeys(e.fieldErrors);
      } else if e.FormFieldError? && e.fieldName != "" {
        errorDict := Put(errorDict, e.fieldName, [e.errorMessage]);
      } else {
        var errorKey := if Text.IsPrefix("form.", e.errorKey) then Text.RemoveAll(e.errorKey, "form.") else e.errorKey;
        errorDict := Put(errorDict, errorKey, [e.errorMessage]);
      }
      resp := ErrorResponse(e.statusCode, false, errorDict);
    }

    /** `_hide_full_path_in_trace`: every line cleaned, same length, same order. */
    method HideFullPathInTrace(paths: seq<string>) returns (result: seq<string>)
      ensures |result| == |paths|
      ensures forall i :: 0 <= i < |paths| ==> result[i] == CleanPath(paths[i], projectName)
    {
      result := [];
      var i := 0;
      while i < |paths|
        invariant 0 <= i <= |paths|
        invariant |result| == i
        invariant forall k :: 0 <= k < i ==> result[k] == CleanPath(paths[k], projectName)
      {
        var cleanedPath := CleanTraceLine(paths[i]);
        result := result + [cleanedPath];
        i := i + 1;
      }
    }

    /** One line of `_hide_full_path_in_trace`'s loop. */
    method CleanTraceLine(path: string) returns (cleanedPath: string)
      ensures cleanedPath == CleanPath(path, projectName)
    {
      var cleanIdx := Text.Find(path, "site-packages");
      if cleanIdx == -1 {
        cleanIdx := Text.Find(path, "python");
      }
      if cleanIdx == -1 {
        cleanIdx := Text.Find(path, projectName);
      }
      cleanedPath := if cleanIdx == -1 then path else path[cleanIdx..];
    }

    /** `_get_error_loc`: the arguments always; the cause and trimmed trace only in debug mode. */
    method GetErrorLoc(e: UnexpectedError) returns (loc: ErrorLoc)
      ensures loc.args == e.args
      ensures !debug ==> loc.cause.None? && loc.trace.None?
      ensures debug ==> loc.cause == Some(e.description) && loc.trace == Some(CleanedTrace(e.frames, projectName))
    {
      loc := ErrorLoc(e.args, None, None);
      if debug {
        var trace := HideFullPathInTrace(e.frames);
        assert trace == CleanedTrace(e.frames, projectName);
        loc := loc.(cause := Some(e.description), trace := Some(trace));
      }
    }

    /**
      `_wrap_to_500_error`: status 500, the generic server error, and in debug
      mode one more message under the same key: the error location.
    */
    method WrapTo500Error(e: UnexpectedError) returns (resp: ErrorResponse)
      ensures resp.statusCode == InternalServerError && !resp.success
      ensures Keys(resp.error) == ["server_error"]
      ensures !debug ==> resp.error == [("server_error", ["Internal Server Error"])]
      ensures debug ==> resp.error == [("server_error", ["Internal Server Error",
        ReprErrorLoc(ErrorLoc(e.args, Some(e.description), Some(CleanedTrace(e.frames, projectName))))])]
    {
      var errorLoc := GetErrorLoc(e);
      var errorDict: Dict<seq<string>> := [("server_error", ["Internal Server Error"])];
      if debug {
        var serverError := Get(errorDict, "server_error").value;
        assert serverError == ["Internal Server Error"];
        var extended := serverError + [ReprErrorLoc(errorLoc)];
        assert extended == ["Internal Server Error", ReprErrorLoc(errorLoc)];
        assert Put(errorDict, "server_error", extended) == [("server_error", extended)] + errorDict[1..];
        errorDict := Put(errorDict, "server_error", extended);
      }
      resp := ErrorResponse(InternalServerError, false, errorDict);
    }

    /**
      `validation_exception_handler`: status 422 and the messages grouped by
      field; the fields in order of first appearance, the messages in order.
    */
    method ValidationExceptionHandler(issues: seq<ValidationIssue>) returns (resp: ErrorResponse)
      ensures resp.statusCode == UnprocessableEntity && !resp.success
      ensures resp.error == GroupMessages(Reported(issues))
      ensures UniqueKeys(resp.error) && Keys(resp.error) == Text.Dedup(Keys(Reported(issues)))
      ensures forall f ::
                Get(resp.error, f) ==
                (if f in Keys(Reported(issues)) then Some(MessagesUnder(Reported(issues), f)) else None)
    {
      var errors: Dict<seq<string>> := [];
      var i := 0;
      while i < |issues|
        invariant 0 <= i <= |issues|
        invariant errors == GroupMessages(Reported(issues[..i]))
      {
        var issue := issues[i];
        var field := FieldPath(issue.loc);
        var message := IssueMessage(issue, field);
        errors := AddMessage(errors, field, message);
        ReportedStep(issues, i);
        assert ReportOf(issue) == (field, message);
        GroupMessagesAppend(Reported(issues[..i]), (field, message));
        i := i + 1;
      }
      assert issues[..|issues|] == issues;
      GroupMessagesSpec(Reported(issues));
      resp := ErrorResponse(UnprocessableEntity, false, errors);
    }
  }
}
