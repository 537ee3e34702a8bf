# Task manager with audit log — a Dafny model

This project models the core of a small task-management web application.
The server side is an Express/Mongoose API. The client is a React
single-page app.

- **Task store.** The server keeps a collection of tasks (title, description,
  creation time). Create, update and delete each ask an audit recorder to
  append one entry to a log collection. That write is best effort: it may
  fail, and the failure is swallowed.
- **Authentication.** Every API route sits behind a Basic-authentication check
  against one hard-coded username and password.
- **Client.** It keeps a logged-in flag in session storage. It checks the task
  form before sending it, shows numbered page links with Prev/Next buttons,
  and formats audit entries for display.

The modules follow the source files:

| module | file | models |
|---|---|---|
| `TaskModel` | `task_model.dfy` | the Task schema: trim setters, `required`, `maxlength`, `createdAt` |
| `LogModel` | `log_model.dfy` | the Log schema: the closed action enumeration, the default timestamp |
| `LogController` | `log_controller.dfy` | `createLog` as a method of the class `AuditLog`, which holds the log collection |
| `TaskController` | `task_controller.dfy` | `sanitize`, the page arithmetic, the listings, the update change set, and the class `TaskStore` with `createTask` / `updateTask` / `deleteTask` |
| `Api` | `api.dfy` | the Basic-auth middleware and the route table |
| `AuthContext` | `auth_context.dfy` | the `login` / `logout` flag machine, as a class |
| `TasksPage` | `tasks_page.dfy` | the form checks, the create/update choice, the page-link loop, Prev/Next, and the modal as a class |
| `AuditLogsPage` | `audit_logs_page.dfy` | `getActionBadge`, `formatContent`, the shortened task id |
| `Text`, `Credentials`, `Wrappers` | | JavaScript `trim` / `split` / `join` on `seq<char>`, the static credential pair, `Option` |

Modelling choices:

- **Ids and time.** Task ids come from a counter (`nextId`), so a new id is
  fresh forever, as an ObjectId is. Times come from counters too:
  `TaskStore.clock` for `createdAt` and `AuditLog.clock` for `Date.now` in the
  log default. So "newest first" is "highest id first" for tasks, and
  "reverse insertion order" for log entries.
- **Log writes.** Whether a log write is accepted is an input (`logSaved` /
  `saved`). Each mutator's contract about the task collection never mentions
  it, so a task mutation goes through whatever happens to its log entry.
- **HTTP results.** The HTTP status is an `Outcome`:
  - `Ok` is 200/201;
  - `ValidationError` is 400, including a failed Mongoose save during create,
    which lands in the `catch` that answers 400;
  - `NotFound` is 404;
  - `ServerError` is 500.
- **Search.** The `$regex` operator is an abstract compile step: a pattern
  is either rejected or becomes a test on field text. An empty search
  selects every task.
- **Update.** `findByIdAndUpdate` runs the schema's `trim` setters on the
  `$set` values. It does not run the validators, because no `runValidators`
  option is passed. The stored value is therefore `Trim(Escape(raw))`, while
  the logged change set carries `Escape(raw)` untrimmed.

Places where the code does something other than what a reader of the
application would expect; the model follows the code:

- **Schema limits.** One would expect every stored task to keep a non-empty
  title and description within their length limits. Updates skip the
  validators, so an update can store an empty (whitespace-only) or over-long
  field. `TaskController.UpdateMayBreakSchema` exhibits one.
- **What counts as a change.** One would expect a field to count as changed
  when the new value differs from the stored one. The code compares the raw
  input with the stored, already escaped value. Resubmitting text that
  contains `<` is therefore logged as a change, though nothing changes
  (`TaskController.RawResubmissionIsLoggedChange`).
- **Create checks.** The explicit check in `createTask` refuses only absent or
  empty fields. The save also fails, with the same 400, when the schema
  validators reject the document: a field blank after trimming, or too long
  after escaping and trimming.
- **Out-of-range pages.** A page past the end yields no items and no error,
  as long as its `skip` stays within the database's 64-bit range (see
  "## Left out"). A negative `page` parameter, however, gives a negative `skip`, which the
  database rejects, so the answer is 500. `parseInt` yielding 0 or `NaN`
  falls back to page 1 (`TaskController.PageNumber`).
- **Invalid search patterns.** The search text is used as a regular
  expression, not as a literal. A pattern that does not compile, such as
  `(`, makes the database reject the query, and the answer is 500.
- **Log entries.** The handlers request a log entry after every mutation,
  but the write is not awaited and its failure is swallowed, so the entry
  may be missing.

## Model

| member | source | states |
|---|---|---|
| `TaskModel.NewTask` | backend/models/taskModel.js:3-17 | a saved document passes every validator; its fields are the trimmed inputs; `createdAt` is the save time |
| `TaskModel.SchemaValid` | backend/models/taskModel.js:4-15 | a document passes the validators exactly when its title has 1 to 100 characters and its description 1 to 500 |
| `TaskModel.NewTaskRejects` | backend/models/taskModel.js:4-15 | the save is refused exactly when a field is all whitespace or longer than its limit (100 / 500) after trimming |
| `TaskModel.NewTaskFieldsTrimmed` | backend/models/taskModel.js:4-15 | stored fields are already trimmed: trimming again changes nothing |
| `TaskModel.BlankFieldRejected` | backend/models/taskModel.js:6-13 | a whitespace-only title or description is refused, whatever the other field holds |
| `LogModel.ParseAction` | backend/models/logModel.js:8-12 | the enum accepts exactly the three action names, and an accepted name is the action's own name |
| `LogModel.ActionNameRoundTrip` | backend/models/logModel.js:11 | every action's stored name validates and reads back as that action |
| `LogModel.NewLogEntry` | backend/models/logModel.js:3-19 | a document is accepted exactly when its action is present and one of the three; an absent timestamp takes the current time; taskId and content are kept as given |
| `LogController.AuditLog.CreateLog` | backend/controllers/logController.js:10-22 | on a save the log grows by exactly the entry built from (action, taskId, content, current time); on a failed save the log is unchanged; existing entries are never altered; the timestamp comes from the schema default; it has no error outcome |
| `TaskController.Escape` | backend/controllers/taskController.js:9 | no `<` or `>` survives, and the length grows by exactly three per bracket |
| `TaskController.EscapeOneChar` | backend/controllers/taskController.js:9 | `<` becomes `&lt;`, `>` becomes `&gt;`, every other character stays; with `EscapeConcat` this fixes the result on every string |
| `TaskController.EscapeTag` | backend/controllers/taskController.js:9 | a tag `<name>` is stored as `&lt;name&gt;` |
| `TaskController.Sanitize` | backend/controllers/taskController.js:7-10 | non-strings are returned unchanged; a string comes back as its escaped form, bracket-free and no shorter |
| `TaskController.EscapeKeepsOthers` | backend/controllers/taskController.js:9 | a string without angle brackets is left unchanged |
| `TaskController.EscapeConcat` | backend/controllers/taskController.js:9 | escaping works character by character: it distributes over concatenation |
| `TaskController.SanitizeIdempotent` | backend/controllers/taskController.js:7-10 | sanitising twice is sanitising once |
| `TaskController.EscapeIsLossy` | backend/controllers/taskController.js:9 | a literal `&lt;` and a `<` are stored alike, as are `&gt;` and `>`, so escaping cannot be undone |
| `TaskController.PageNumber` | backend/controllers/taskController.js:15 | the page is never 0: a parsed non-zero number is kept as it is, and a missing number or 0 gives page 1 |
| `TaskController.TotalPages` | backend/controllers/taskController.js:36 | `ceil(n / limit)`: the pages hold all n items, the last page is not empty, and there are no pages exactly when n is 0 |
| `TaskController.SkipBounds` | backend/controllers/taskController.js:17 | `skip` reaches the item count exactly when the page is past `totalPages`; pages before the last are full |
| `TaskController.Window` | backend/controllers/taskController.js:32-33 | item i is item `skip + i`; empty exactly when `skip` is past the end; otherwise exactly `min(limit, n - skip)` items |
| `TaskController.PageWindow` | backend/controllers/taskController.js:15-36 | a page is empty exactly when it is past `totalPages`, and every page before the last holds `limit` items |
| `TaskController.ItemOnItsPage` | backend/controllers/taskController.js:15-36 | every item is listed on page `k / limit + 1` (within `totalPages`), at position `k % limit` |
| `TaskController.PageOf` | backend/controllers/taskController.js:17-36 | a page's items are the window at `(page - 1) * limit`, its count is `ceil(n / limit)`, and it is empty exactly past the last page |
| `TaskController.Matching` | backend/controllers/taskController.js:21-30 | only selected tasks, every selected task, each with its stored value, in strictly decreasing id order |
| `TaskController.NewestFirst` | backend/controllers/taskController.js:31 | in an ordered store, decreasing ids mean decreasing creation times |
| `TaskController.TaskStore.GetTasks` | backend/controllers/taskController.js:13-46 | 500 exactly for a negative page or a pattern that does not compile; otherwise the page is the window at `(page - 1) * 5` of the selected tasks newest first, `totalPages = ceil(matches / 5)`, every item stored and selected, creation times decreasing |
| `TaskController.EveryMatchListed` | backend/controllers/taskController.js:15-36 | paging loses no task: the k-th matching task is item `k % 5` of page `k / 5 + 1` |
| `TaskController.GetLogs` | backend/controllers/taskController.js:131-149 | 500 exactly for a negative page; otherwise the page is the window at `(page - 1) * 10` of the log newest first, `totalPages = ceil(entries / 10)`, every item a log entry, timestamps decreasing |
| `TaskController.Changes` | backend/controllers/taskController.js:88-90 | a field is in the change set exactly when it was supplied non-empty and differs, before escaping, from the stored value; its value there is the escaped input; each key at most once, title before description |
| `TaskController.ApplyChanges` | backend/controllers/taskController.js:97-101 | `$set` through the trim setters: each field in the change set takes its trimmed value, a field not in it and `createdAt` are kept |
| `TaskController.ApplyChangesIdempotent` | backend/controllers/taskController.js:97-101 | re-applying the same change set changes nothing more, since the stored values are already trimmed |
| `TaskController.UpdateTouchesOnlyChangedFields` | backend/controllers/taskController.js:97-101 | applying the change set rewrites exactly the changed fields (escaped, then trimmed by the setter) and keeps the other field and `createdAt` |
| `TaskController.RawResubmissionIsLoggedChange` | backend/controllers/taskController.js:89-90 | resubmitting the raw text a title was created from, when it holds a bracket, is logged as a change although the stored task is unchanged |
| `TaskController.UpdateMayBreakSchema` | backend/controllers/taskController.js:97-101 | with validators off on update, a valid task can be updated into one that fails the schema |
| `TaskController.InsertKeepsOrder` | backend/controllers/taskController.js:62-63 | storing a new task under the next id with the current time keeps ids fresh and creation times increasing with ids |
| `TaskController.ReplaceKeepsOrder` | backend/controllers/taskController.js:97-101 | rewriting a task without touching `createdAt` keeps that order |
| `TaskController.TaskStore.CreateTask` | backend/controllers/taskController.js:49-75 | absent or empty fields, or a document the schema refuses, give a validation error and change nothing; otherwise exactly one new task under an id unused by tasks and log: the document built from the escaped fields, stamped with the current time; and (if the log write is accepted) exactly one `Create Task` entry carrying its stored title and description |
| `TaskController.TaskStore.Insert` | backend/controllers/taskController.js:62-69 | the saved task is stored under a fresh id, and the log gains at most the one `Create Task` entry with its stored title and description |
| `TaskController.TaskStore.UpdateTask` | backend/controllers/taskController.js:78-110 | an unknown id is not found and changes nothing; an empty change set returns the stored task with no write and no log entry; otherwise only that task's changed fields are written and at most one `Update Task` entry, carrying exactly the change set, is appended |
| `TaskController.TaskStore.Rewrite` | backend/controllers/taskController.js:97-104 | replaces one task and appends at most the one `Update Task` entry with the change set |
| `TaskController.TaskStore.DeleteTask` | backend/controllers/taskController.js:114-128 | an unknown id is not found and changes nothing; otherwise only that task is removed, and at most one `Delete Task` entry with empty content is appended, naming a task that no longer exists |
| `Api.Authorize` | backend/routes/api.js:7-31 | an absent or empty header is 401; any header whose first space-separated piece is not exactly `Basic` is 401 "Malformed authorization header."; a header that is just `Basic` makes the decoder throw (500); proceeding requires the `Basic ` prefix; every 401 carries one of the two messages |
| `Api.HeaderTokens` | backend/routes/api.js:15 | a header `Basic <token><tail>` splits into `Basic`, then the token |
| `Api.FieldsAreStaticPair` | backend/routes/api.js:23-26 | the first two `:`-pieces are `admin` and `password123` exactly when the decoded text is `admin:password123`, or that followed by `:` and anything |
| `Api.BasicAcceptance` | backend/routes/api.js:15-30 | a `Basic` header proceeds exactly when its token decodes to the static pair; further `:`-pieces are ignored, unlike section 2 of RFC 7617, and every other case is 401 with the credentials message |
| `Api.OtherSchemeMalformed` | backend/routes/api.js:17-19 | any first word other than exactly `Basic` gives 401 "Malformed authorization header." |
| `Api.NoSchemeMalformed` | backend/routes/api.js:15-19 | a lone word other than `Basic`, and a header starting with a space, are malformed |
| `Api.Route` | backend/routes/api.js:37-43 | GET `/tasks` lists, POST `/tasks` creates, PUT and DELETE `/tasks/:id` update and delete (the id passed on), GET `/logs` lists the log, each exactly on that verb and path; nothing else matches |
| `Api.EveryHandlerRouted` | backend/routes/api.js:37-43 | each of the five operations is reachable through the table |
| `Api.Dispatch` | backend/routes/api.js:7-43 | a handler runs exactly when the middleware proceeds and a route matches, and it is the handler (and id) the route table names; a refusal is answered 401 with the middleware's own message; the decoder's throw is answered 500; an unmatched request that passed the check falls through to no route |
| `Api.HandlerNeedsCredentials` | backend/routes/api.js:7-34 | no handler runs without a `Basic` header whose token decodes to the static pair |
| `AuthContext.AuthSession.constructor` | frontend/src/context/AuthContext.jsx:8-10 | the initial state is logged-in exactly when the stored flag is `"true"` |
| `AuthContext.AuthSession.Login` | frontend/src/context/AuthContext.jsx:12-20 | succeeds exactly for `admin` / `password123`; success sets flag and state; failure changes nothing |
| `AuthContext.AuthSession.Logout` | frontend/src/context/AuthContext.jsx:22-25 | removes the flag and clears the state, whatever they were |
| `AuthContext.Reload` | frontend/src/context/AuthContext.jsx:7-10 | a provider mounted over the same storage has the same logged-in state |
| `TasksPage.CheckForm` | frontend/src/pages/TasksPage.jsx:79-90 | each alert fires exactly when its check fails and the earlier ones passed: blank after trim, then raw title > 100, then raw description > 500 |
| `TasksPage.AlertMessage` | frontend/src/pages/TasksPage.jsx:79-90 | an alert is raised exactly for a refused form, with the source's wording for the empty-field check and each length limit |
| `TasksPage.AlertIffNothingSent` | frontend/src/pages/TasksPage.jsx:79-99 | the save handler raises an alert exactly when it sends no request |
| `TasksPage.SaveRequest` | frontend/src/pages/TasksPage.jsx:75-99 | nothing is sent exactly when a check fails; otherwise the form is the body, and it is an update of the edited task's id exactly when a task is being edited |
| `TasksPage.AcceptedPlainFormIsCreated` | frontend/src/pages/TasksPage.jsx:79-98 | a bracket-free form the page accepts is also accepted by the server's create |
| `TasksPage.BracketsDefeatPageCheck` | frontend/src/pages/TasksPage.jsx:83-86 | a title of more than 25 `<` passes the page's check but, escaped, exceeds the server's limit |
| `TasksPage.PaginationItems` | frontend/src/pages/TasksPage.jsx:124-132 | the links are 1 to `totalPages` in order; link n is active exactly when n is the current page; some link is active exactly when the current page is in range |
| `TasksPage.PrevDisabled` | frontend/src/pages/TasksPage.jsx:182 | disabled on page 1 and enabled on every later page, where Prev leads to page 1 or later |
| `TasksPage.NextDisabled` | frontend/src/pages/TasksPage.jsx:184 | as written: disabled on the page equal to the count; below the last page it is enabled and leads to an existing page |
| `TasksPage.NextDisabledCorrected` | frontend/src/pages/TasksPage.jsx:184 | corrected: when enabled, Next always leads to an existing page; with no pages it is disabled |
| `TasksPage.NextEnabledOnEmptyListing` | frontend/src/pages/TasksPage.jsx:184 | with no pages, Next stays enabled on page 1 and leads past the last page |
| `TasksPage.NextEnabledPastLastPage` | frontend/src/pages/TasksPage.jsx:184 | past the last page, Next stays enabled on every further page |
| `TasksPage.CorrectedNextStaysInRange` | frontend/src/pages/TasksPage.jsx:182-184 | with Next disabled from the last page on, Next never leaves the pages and Prev never goes below 1; on in-range pages it agrees with the original rule |
| `TasksPage.TaskModal.Close` | frontend/src/pages/TasksPage.jsx:53-57 | hidden, no task being edited, empty form |
| `TasksPage.TaskModal.ShowCreate` | frontend/src/pages/TasksPage.jsx:59-63 | shown, no task being edited, empty form |
| `TasksPage.TaskModal.ShowEdit` | frontend/src/pages/TasksPage.jsx:65-69 | shown, editing that task, form prefilled with its title and description |
| `TasksPage.TaskModal.ChangeField` | frontend/src/pages/TasksPage.jsx:71-73 | the named field takes the value; the other field and the editing state are kept |
| `TasksPage.TaskModal.Save` | frontend/src/pages/TasksPage.jsx:75-106 | sends the request `SaveRequest` chooses; a sent request that succeeds closes and resets the modal; a refused form or a failed request leaves it as it was |
| `AuditLogsPage.ActionBadge` | frontend/src/pages/AuditLogsPage.jsx:27-38 | the three actions get Create / Update / Delete; any text the schema would not accept is shown unchanged in grey |
| `AuditLogsPage.BadgeNamesAction` | frontend/src/pages/AuditLogsPage.jsx:28-34 | every schema action gets its own coloured badge whose label is the action name without ` Task` |
| `AuditLogsPage.FormatContent` | frontend/src/pages/AuditLogsPage.jsx:40-47 | `-` for a missing value, a non-object or an empty object; otherwise the summary starts with the first rendered entry, and a single entry is exactly `key: "value"` |
| `AuditLogsPage.DashIffNothingToList` | frontend/src/pages/AuditLogsPage.jsx:40-47 | the summary is `-` exactly for a missing value, a non-object or an object with no keys |
| `AuditLogsPage.FormatInEntryOrder` | frontend/src/pages/AuditLogsPage.jsx:44-46 | entries are rendered in the object's order, joined by `, ` |
| `AuditLogsPage.CreateAndDeleteShown` | frontend/src/pages/AuditLogsPage.jsx:44-46 | a `Create Task` entry shows `title: "…", description: "…"`; a `Delete Task` entry shows `-` |
| `AuditLogsPage.ShortId` | frontend/src/pages/AuditLogsPage.jsx:71 | the last six characters of the id (all of it when shorter); `-` when there is none |

## Findings

| source | as written | input that shows it | evidently intended | confidence | as-written member | corrected member |
|---|---|---|---|---|---|---|
| frontend/src/pages/TasksPage.jsx:184 | Next is disabled only when the current page equals the page count | no tasks, or a search with no match: `totalPages` 0, current page 1, Next enabled; each click asks for a further empty page | Next disabled on and after the last page (`currentPage >= totalPages`) | not executed; the rule is plain in the code | `TasksPage.NextEnabledOnEmptyListing` | `TasksPage.CorrectedNextStaysInRange` |

## Left out

- `TaskController.TaskStore.GetTasks`, `TaskController.GetLogs`: the page number is an unbounded integer here. In the source it is a JavaScript number (a double, inexact above 2^53), and the database takes `skip = (page - 1) * limit` as a 64-bit integer. A huge page such as 4000000000000000000 gives a skip outside that range, the query is rejected, and the answer is 500; the model answers `Ok` with an empty page.
- Database engine: query execution, ObjectId generation and sort tie-breaking are not modelled. Ids are a counter, and a task write never fails. A malformed id string, which makes Mongoose throw a CastError (400 on update, 500 on delete), is not modelled: ids are numbers.
- `TaskController.TaskStore.GetTasks`: the `$regex` operator with the `i` option is an abstract compile step (a pattern either is rejected or becomes a test on text). The regular-expression language and its case-insensitivity are not modelled; nothing about which texts a pattern matches is proved.
- `Api.Authorize`: base64 decoding and the UTF-8 conversion are an abstract function, so malformed base64 is not modelled. The header field name's case-insensitivity and Express's routing details (case-insensitive paths, trailing slashes, the not-found page) are left to Express.
- Request bodies hold strings or nothing. Numbers and booleans, which `sanitize` returns unchanged and Mongoose casts, are modelled only in `TaskController.Sanitize`. Objects and arrays in a request body are not modelled anywhere: `JsValue` has no variant for them.
- String lengths count characters, not UTF-16 code units. The two differ outside the Basic Multilingual Plane.
- `LogModel.NewLogEntry`: `updatedContent` is an ordered list of string fields, not an arbitrary JSON value.
- Asynchrony: the un-awaited `createLog` can complete after the response, and concurrent updates race between read and write. Each operation is modelled as one atomic step.
- The client's fetch, loading and error state, the 500 ms search debounce, `window.confirm` before a delete, `alert`, the axios client, date formatting, and all rendering.
- `TasksPage.TaskModal.ChangeField` requires the modal to be shown, because the form inputs exist only while it is.
- Session storage is one optional string field of `AuthContext.AuthSession`.
