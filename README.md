# Form history service: a verified model

This project models the form-history domain of a FastAPI service. Users submit a form with a date, a first name and a last name. The service:

- stores every valid submission in a history table;
- lists the history one page of ten rows at a time. The date filter is mandatory and the two name filters are optional. Each row carries how many earlier submissions the same person made;
- returns the distinct names that have been submitted;
- turns every failure into a JSON error body of the form `{field: [message, ...]}`.

The model covers these parts of the service:

- **History store** (`BaseDal`, `FormHistoryDal`, `HistoryOrder`). The SQL table is a sequence of rows in insertion order, owned by the class `BaseDAL`. The class keeps:
  - the rows the session currently sees;
  - the last committed rows, which a rollback restores;
  - a counter that hands out fresh ids;
  - a flag saying whether storage accepts writes;
  - the default ordering.

  The read queries are functions over the rows, and each one comes with its properties:
  - filtering by date and by the optional exact names;
  - ordering by date descending, then first name, then last name;
  - the page limit;
  - the unlimited count;
  - the count of previous entries of a name pair;
  - the distinct non-empty names.
- **Use cases** (`UseCase`, `SubmitFormUC`, `GetHistoryUC`):
  - `UCResponse`, a class whose error list is updated in place;
  - the defaults of `BaseUCError`;
  - `SubmitForm.execute`, which checks each name for a space, records one error per offending name, stores the entry only when both names are clean, and rolls the session back when storing raises;
  - `GetHistory.execute`, whose loop builds the items of a page.
- **HTTP layer** (`HistoryEndpoints`, `AppExceptions`, `Middlewares`):
  - the three routes. `submit_form` files the use case's errors into a field dictionary and raises `FormFieldError` or `MultipleFormFieldError`;
  - the exception constructors;
  - the middleware that builds the error bodies: an application error, the 500 fallback with the debug-only error location and trimmed traceback, and the 422 body grouped by field for request-validation errors.

Python dictionaries are association lists with unique keys in insertion order (`OrderedDict`). Assigning to an existing key keeps that key's position, as Python does.

## Model

| member | source | states |
|---|---|---|
| BaseDal.GetByIdOrNone | backend/project/core/db/postgres/base.py:56-60 | none exactly when no row has the id; otherwise a row with that id, and with unique ids it is the row with that id |
| BaseDal.GetById | backend/project/core/db/postgres/base.py:42-50 | succeeds exactly when a row has the id and returns such a row; otherwise fails with the not-found error for that id |
| BaseDal.GetByIds | backend/project/core/db/postgres/base.py:52-54 | the result holds exactly the stored rows whose id is in the given list, each at most as often as it is stored |
| BaseDal.GetAllIdsFetchable | backend/project/core/db/postgres/base.py:66-70 | an id is listed by get_all_ids exactly when get_by_id finds it |
| BaseDal.ApplyPatch | backend/project/core/db/postgres/base.py:80-83 | the given columns take the new values, the others and the id are kept |
| BaseDal.UpdateSpec | backend/project/core/db/postgres/base.py:38-40 | update keeps the ids and their uniqueness; the row with the id becomes the patched row; every other id finds the same row as before |
| BaseDal.DeleteSpec | backend/project/core/db/postgres/base.py:62-64 | after delete no row has the id; the remaining rows are exactly the old rows with another id; deleting an absent id changes nothing |
| BaseDal.DeleteKeepsIds | backend/project/core/db/postgres/base.py:62-64 | delete keeps ids unique and below the id counter |
| BaseDal.BaseDAL.constructor | backend/project/core/db/postgres/base.py:24-28 | the table starts as given and committed; an omitted order_by defaults to the id column, and an explicit None or empty order_by leaves no default ordering |
| BaseDal.BaseDAL.Create | backend/project/core/db/postgres/base.py:32-36 | with storage available, exactly one row is appended with the given columns and an id no earlier row has, and get_by_id finds it; otherwise it fails and nothing changes |
| BaseDal.BaseDAL.Update | backend/project/core/db/postgres/base.py:38-40 | the rows become the patched rows; the id invariant is kept |
| BaseDal.BaseDAL.Delete | backend/project/core/db/postgres/base.py:62-64 | the rows become the rows without that id; the id invariant is kept |
| BaseDal.BaseDAL.SetOrderBy | backend/project/core/db/postgres/base.py:74-75 | the default ordering becomes the given one and nothing else changes |
| BaseDal.BaseDAL.Rollback | backend/project/core/uc/history/submit_form.py:46-47 | the session's rows return to the last committed rows |
| HistoryOrder.PrecedesTotal | backend/project/core/db/postgres/form_history.py:48-51 | any two rows are ordered one way or the other by (date desc, first_name asc, last_name asc) |
| HistoryOrder.PrecedesTransitive | backend/project/core/db/postgres/form_history.py:48-51 | the history order is transitive |
| HistoryOrder.SortHistory | backend/project/core/db/postgres/form_history.py:48-51 | the result is sorted in history order and is a permutation of the input |
| FormHistoryDal.Matching | backend/project/core/db/postgres/form_history.py:41-46 | keeps exactly the rows with date <= filter whose names equal the non-empty name filters |
| FormHistoryDal.Take | backend/project/core/db/postgres/form_history.py:52 | the first min(limit, length) rows |
| FormHistoryDal.GetFilteredHistory | backend/project/core/db/postgres/form_history.py:33-55 | every row is stored, dated no later than the filter and matches the name filters; sorted in history order; length is min(limit, count_filtered_history) |
| FormHistoryDal.PageFromMatches | backend/project/core/db/postgres/form_history.py:33-55 | the page lists each matching row at most as often as the table holds it |
| FormHistoryDal.PageIsTopRows | backend/project/core/db/postgres/form_history.py:48-52 | every matching row left off the page comes after every row on it; when all matches fit, the page is all of them |
| FormHistoryDal.CountFilteredHistory | backend/project/core/db/postgres/form_history.py:57-72 | never more than the number of rows |
| FormHistoryDal.CountFilteredHistoryAppend | backend/project/core/db/postgres/form_history.py:57-72 | zero on an empty table; one more row adds one exactly when it matches the same filter |
| FormHistoryDal.EmptyNameIsNoFilter | backend/project/core/db/postgres/form_history.py:43-46 | an empty name filter gives the same page and count as no filter |
| FormHistoryDal.MatchingEmptyName | backend/project/core/db/postgres/form_history.py:43-46 | an empty name filter selects the same rows as no filter |
| FormHistoryDal.CountPreviousEntries | backend/project/core/db/postgres/form_history.py:74-89 | at most the number of rows; zero exactly when no row has the same name pair and an earlier date |
| FormHistoryDal.CountPreviousOwnRows | backend/project/core/db/postgres/form_history.py:81-87 | only rows of the same name pair count |
| FormHistoryDal.CountPreviousRank | backend/project/core/db/postgres/form_history.py:74-89 | for any listing of a pair's rows in strictly increasing date order, whatever order the table stores them in, the i-th entry has exactly i previous entries (so the earliest has 0) |
| FormHistoryDal.CountPreviousConcat | backend/project/core/db/postgres/form_history.py:81-89 | the count over two parts of a table is the sum of the counts over each part |
| FormHistoryDal.CountPreviousPermutation | backend/project/core/db/postgres/form_history.py:81-89 | the count does not depend on the order the table stores its rows in |
| FormHistoryDal.CountPreviousMonotone | backend/project/core/db/postgres/form_history.py:85 | a later date never has fewer previous entries |
| FormHistoryDal.GetFilteredHistoryWithCounts | backend/project/core/uc/history/get_history.py:18-23 | the page of get_filtered_history in order, each row paired with its count_previous_entries |
| FormHistoryDal.GetUniqueFirstNames | backend/project/core/db/postgres/form_history.py:91-95 | exactly the non-empty stored first names, each once |
| FormHistoryDal.GetUniqueLastNames | backend/project/core/db/postgres/form_history.py:97-101 | exactly the non-empty stored last names, each once |
| FormHistoryDal.CreateFormEntry | backend/project/core/db/postgres/form_history.py:19-31 | appends one row with the given date and names and a fresh id, leaving earlier rows as they were; fails and changes nothing when storage is unavailable; the committed rows, availability and default ordering stay as they were |
| UseCase.NewBaseUCError | backend/project/core/uc/base.py:16-23 | a missing or empty message becomes "Server error", and a missing or zero code becomes -1; otherwise the given values are kept |
| UseCase.UCErrorNeverFalsy | backend/project/core/uc/base.py:22-23 | the stored message is never empty and the code never zero |
| UseCase.UCErrorRebuild | backend/project/core/uc/base.py:20-23 | rebuilding an error from its own message and code gives the same error |
| UseCase.UCResponse.constructor | backend/project/core/uc/base.py:31-33 | a fresh response has no errors, is truthy and has no first error |
| UseCase.UCResponse.BuildFromException | backend/project/core/uc/base.py:38-42 | a new response whose errors are exactly the exception, which is its first error |
| UseCase.UCResponse.AddError | backend/project/core/uc/base.py:50-51 | appends at the end and keeps the earlier errors; the response then has errors and is falsy |
| UseCase.UCResponse.FirstError | backend/project/core/uc/base.py:44-48 | none exactly when there are no errors, otherwise the first error |
| SubmitFormUC.ValidationErrors | backend/project/core/uc/history/submit_form.py:24-33 | one error per name containing a space, the first-name error first; none when both names are clean |
| SubmitFormUC.SubmitForm.ExecuteBody | backend/project/core/uc/history/submit_form.py:19-44 | with errors: returns them, success false, nothing stored; clean names: one entry stored with the request's date and names, success true, no errors; storage failure propagates; the committed rows, availability and default ordering stay as they were |
| SubmitFormUC.SubmitForm.Execute | backend/project/core/uc/base.py:72-87 | the body's result passes through unchanged; when the body raises, the session is rolled back to the committed rows and the same exception propagates; the committed rows, availability and default ordering stay as they were |
| SubmitFormUC.SubmitForm.RollbackDb | backend/project/core/uc/history/submit_form.py:46-47 | the session returns to the committed rows; the committed rows, availability and default ordering stay as they were |
| GetHistoryUC.GetHistory.Execute | backend/project/core/uc/history/get_history.py:16-42 | one item per counted row in the same order, copying date, names and count; the total is the unlimited count; at most 10 items and no more than the total; every item passes the filters, is in history order and carries its previous-entry count |
| AppExceptions.NewAppException | backend/project/core/exceptions.py:9-20 | stores key, message, status and location; str(exc) is the message |
| AppExceptions.NewFormValidationError | backend/project/core/exceptions.py:26-35 | an argument that is left out defaults to "form_validation", "Form validation error" or 400 |
| AppExceptions.NewFormFieldError | backend/project/core/exceptions.py:41-52 | key "form." + field; location ["body", field] for a non-empty field and none for an empty one; status defaults to 400; the field is kept |
| AppExceptions.NewMultipleFormFieldError | backend/project/core/exceptions.py:58-69 | key "form_validation", message "Multiple validation errors", the location is the field keys, the field errors are kept, status defaults to 400 |
| Middlewares.ErrorKeyField | backend/project/core/middlewares.py:84 | a key not starting with "form." is kept; a key starting with it loses it |
| Middlewares.Singletons | backend/project/core/middlewares.py:78-80 | one entry per field error, in order, with the message as a one-element list |
| Middlewares.SingletonsKeys | backend/project/core/middlewares.py:78-80 | same keys as the field errors, still unique |
| Middlewares.ApplicationErrorDict | backend/project/core/middlewares.py:76-85 | non-empty field_errors give one singleton list per field; else a non-empty field_name gives {field_name: [message]}; else the stripped key gives {key: [message]} |
| Middlewares.FormFieldErrorBody | backend/project/core/middlewares.py:81-82 | a FormFieldError is reported under its field with its message |
| Middlewares.MultipleFormFieldErrorBody | backend/project/core/middlewares.py:78-85 | a MultipleFormFieldError reports every field with its one message; with no fields it falls back to its key "form_validation" |
| Middlewares.FormKeyedAppExceptionBody | backend/project/core/middlewares.py:83-85 | an AppException keyed "form." + field is reported under the field |
| Middlewares.FormValidationErrorBody | backend/project/core/middlewares.py:83-85 | a FormValidationError with the default key is reported under "form_validation" |
| Middlewares.CleanPathSpec | backend/project/core/middlewares.py:127-133 | a cleaned line is a suffix of the line that starts at the first "site-packages", else the first "python", else the first project name; a line with none of them is unchanged |
| Middlewares.CleanedTrace | backend/project/core/middlewares.py:124-135 | same length and order, each line cleaned |
| Middlewares.ReprErrorLoc | backend/project/core/middlewares.py:101 | the text of the error location starts with its "args" entry |
| Middlewares.FieldParts | backend/project/core/middlewares.py:156 | exactly the location parts other than "body", "query" and "path"; a one-part location is kept unless it is a section name |
| Middlewares.FieldPartsAppend | backend/project/core/middlewares.py:156 | dropping section names distributes over concatenation, so the kept parts stay in their original order |
| Middlewares.FieldPath | backend/project/core/middlewares.py:156-160 | the remaining parts joined by "."; with none left, the last location element; with an empty location, "unknown" |
| Middlewares.IssueMessage | backend/project/core/middlewares.py:161-164 | a message or type mentioning whitespace becomes "No whitespace in <field> is allowed"; otherwise the message, or "Validation error" |
| Middlewares.AddMessage | backend/project/core/middlewares.py:166-168 | appends the message to the field's list, creating the field at the end when it is new; other fields untouched |
| Middlewares.GroupMessagesKeys | backend/project/core/middlewares.py:152-168 | fields are unique and listed in order of first appearance |
| Middlewares.GroupMessagesGet | backend/project/core/middlewares.py:152-168 | each reported field holds all of its messages in encounter order; an unreported field is absent |
| Middlewares.GroupMessagesSpec | backend/project/core/middlewares.py:152-168 | the two statements above together |
| Middlewares.ExceptionTraceHandlerMiddleware.constructor | backend/project/core/middlewares.py:27-30 | keeps the service name and the debug setting |
| Middlewares.ExceptionTraceHandlerMiddleware.WrapApplicationLogicError | backend/project/core/middlewares.py:72-92 | status is the exception's, success false; the body is the application error dictionary, with unique keys and one message per field |
| Middlewares.ExceptionTraceHandlerMiddleware.HideFullPathInTrace | backend/project/core/middlewares.py:124-135 | same length and order, each line cleaned as CleanPathSpec states |
| Middlewares.ExceptionTraceHandlerMiddleware.CleanTraceLine | backend/project/core/middlewares.py:128-133 | the cut the loop makes to one line (first "site-packages", else "python", else the service name, else no cut) is the cleaned line CleanPathSpec describes |
| Middlewares.ExceptionTraceHandlerMiddleware.GetErrorLoc | backend/project/core/middlewares.py:114-122 | always the args; cause and cleaned trace only in debug mode |
| Middlewares.ExceptionTraceHandlerMiddleware.WrapTo500Error | backend/project/core/middlewares.py:94-112 | status 500, success false, only the key "server_error" with ["Internal Server Error"], plus the error location as a second message exactly in debug mode |
| Middlewares.ExceptionTraceHandlerMiddleware.ValidationExceptionHandler | backend/project/core/middlewares.py:150-174 | status 422, success false; fields unique in order of first appearance, each with all of its messages in order |
| OrderedDict.Put | backend/project/apps/history/api/v1/endpoints.py:50-52 | assigning a key adds it at the end only when it is new; that key reads the new value and every other key is unchanged |
| OrderedDict.PutAllSpec | backend/project/apps/history/api/v1/endpoints.py:46-52 | a dictionary filled by assignments has each key once, in order of first assignment, holding the last value assigned |
| OrderedDict.PutAllDistinct | backend/project/core/middlewares.py:78-80 | filling a dictionary from distinct keys keeps them in the same order |
| HistoryEndpoints.FieldsNamed | backend/project/apps/history/api/v1/endpoints.py:47-52 | one field tag per use-case error, in order |
| HistoryEndpoints.FieldErrorsKeys | backend/project/apps/history/api/v1/endpoints.py:46-52 | the collected dictionary has unique keys, only "first_name" and "last_name", so at most two entries; repeated errors collapse |
| HistoryEndpoints.FieldErrorsGet | backend/project/apps/history/api/v1/endpoints.py:46-52 | "first_name" is present, with its fixed message, exactly when some error's lowercased text contains "first_name"; "last_name" exactly when some other error's contains "last_name" and not "first_name" |
| HistoryEndpoints.FieldErrorsSpec | backend/project/apps/history/api/v1/endpoints.py:46-52 | the two statements above together |
| HistoryEndpoints.FiledUnderFirstName | backend/project/apps/history/api/v1/endpoints.py:48-50 | an error whose text starts with "first_name" is filed under first_name |
| HistoryEndpoints.FiledUnderLastName | backend/project/apps/history/api/v1/endpoints.py:48-52 | an error whose text starts with "last_name" and has no letter f is filed under last_name |
| HistoryEndpoints.FirstNameErrorFiled | backend/project/apps/history/api/v1/endpoints.py:49-50 | the use case's first-name error is filed under first_name |
| HistoryEndpoints.LastNameErrorFiled | backend/project/apps/history/api/v1/endpoints.py:51-52 | the use case's last-name error is filed under last_name |
| HistoryEndpoints.TaggedFieldErrors | backend/project/apps/history/api/v1/endpoints.py:46-52 | errors tagged first then last give the dictionary of exactly the offending fields |
| HistoryEndpoints.ValidationFieldErrors | backend/project/apps/history/api/v1/endpoints.py:46-52 | the validation errors give exactly the fields whose names contain a space |
| HistoryEndpoints.OutcomeFor | backend/project/apps/history/api/v1/endpoints.py:55-65 | no fields: respond with the use case's success; one field: FormFieldError for it; two or more: MultipleFormFieldError carrying them; status 400 |
| HistoryEndpoints.ReportedOutcome | backend/project/apps/history/api/v1/endpoints.py:55-65 | the four cases of which names have a space, with the exact exception each raises |
| HistoryEndpoints.ValidationOutcome | backend/project/apps/history/api/v1/endpoints.py:44-63 | the route's outcome depends only on which names contain a space |
| HistoryEndpoints.SubmitFormResult | backend/project/apps/history/api/v1/endpoints.py:44-65 | the loop builds the dictionary of the mentioned fields and the route ends with the outcome it determines |
| HistoryEndpoints.SubmitFormRoute | backend/project/apps/history/api/v1/endpoints.py:31-65 | a space in a name: the matching field error(s) and nothing stored; clean names: success and exactly one entry stored; storage failure: rollback and the error propagates; the committed rows and default ordering stay as they were |
| HistoryEndpoints.ApiItems | backend/project/apps/history/api/v1/endpoints.py:89-97 | one API item per use-case item, in order, with the same fields |
| HistoryEndpoints.GetHistoryRoute | backend/project/apps/history/api/v1/endpoints.py:74-98 | total is the unlimited count; the items are the filtered page in order with previous-entry counts; at most 10 and no more than the total |
| HistoryEndpoints.GetUniqueNamesRoute | backend/project/apps/history/api/v1/endpoints.py:107-113 | the DAL's two lists unchanged: exactly the non-empty stored names |

## Left out

- Database, session and SQL. The table is an in-memory sequence, and rollback restores the committed rows. Commit is done in the route's dependency, which is not part of this model, so the committed rows change only through the constructor.
- The `FormHistoryDAL` constructor (backend/project/core/db/postgres/form_history.py:16-17) is not modelled: it only sets `order_by="created_at"`, a clock column the model does not have, and the default ordering it stores is never read on the modelled paths. FormHistoryDal.CreateFormEntry therefore takes a plain BaseDAL.
- `get_filtered_history_with_counts` is called by `GetHistory.execute` but the DAL does not define it. FormHistoryDal.GetFilteredHistoryWithCounts assumes it returns the rows of `get_filtered_history` in order, each paired with that row's `count_previous_entries`. This is an assumption.
- FormHistoryDal.GetFilteredHistory: rows that tie on all three sort columns keep table order; SQL leaves their order unspecified.
- Names are compared lexicographically by character code (`Text.StrLe`), not by the database's collation.
- BaseDal.BaseDAL.Create: ids are a counter that never repeats, standing in for uuid4. `created_at`/`updated_at` timestamps are not modelled. A storage failure is modelled only on create, by a flag on the DAL.
- BaseDal.UpdateSpec: update takes only the three stored columns (`Patch`); arbitrary keyword data is not modelled.
- `refresh_from_db`, `not_found_exc_cls`, `_table` and `_id_column` are ORM plumbing and are left out.
- The random delay of 0 to 3 seconds at the start of `SubmitForm.execute` is left out (randomness and time).
- SubmitFormUC.ValidationErrors checks the space character only, as the code does (backend/project/core/uc/history/submit_form.py:27,31), although its messages say "No whitespace in first_name is allowed"; tabs and newlines pass.
- HistoryEndpoints.SubmitFormRoute requires non-empty names, because the request model's `min_length=1` rejects empty names before the route runs.
- GetHistoryUC.GetHistory.Execute: the DAL queries are functions, so the contract does not state that each query runs exactly once.
- `BaseUCError`'s extra keyword context and `UCResponse.value` are left out; neither is used by the modelled flows.
- Text.Lower lowercases ASCII letters only.
- Middlewares.ErrorKeyField: Python's `replace` removes every "form." in the key, and the model does too. The contract states the result only for keys with one "form." at the start.
- Middlewares.ReprErrorLoc: Python's `repr` escaping of quotes and backslashes is not modelled. The contract states only how the text starts.
- Middlewares.ExceptionTraceHandlerMiddleware.WrapApplicationLogicError requires the field errors to have unique keys, which every Python dictionary has.
- The `ExceptionTraceHandlerMiddleware.__call__` dispatch with its exception groups, the logging, `_build_stream_response`, the CORS setup and the registration in `add_middlewares` are framework wiring and are left out.
- Traceback extraction (`extract_tb`, `format_list`, `format_exception_only`) is left out. The exception's args, description and formatted frames are the inputs of `UnexpectedError`.
- Settings (`service_name`, `debug`) are constructor parameters of the middleware.
