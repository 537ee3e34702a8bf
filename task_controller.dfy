/** The task controller: input sanitisation, the page-window arithmetic of the
    two listings, and the task store whose create, update and delete each
    record one entry in the audit log. */
module TaskController {

  import opened Wrappers
  import opened Text
  import opened TaskModel
  import opened LogModel
  import opened LogController

  /* ---------------------------------------------------------------------- */
  /* Sanitisation                                                            */
  /* ---------------------------------------------------------------------- */

  /** The JavaScript values a request body field can hold. */
  datatype JsValue = Undefined | Null | Boolean(b: bool) | Number(n: int) | Str(s: string)

  function EscapeChar(c: char): string
  {
    if c == '<' then "&lt;" else if c == '>' then "&gt;" else [c]
  }

  /** The number of angle brackets in `s`. */
  function Brackets(s: string): nat
  {
    if s == [] then 0 else (if s[0] == '<' || s[0] == '>' then 1 else 0) + Brackets(s[1..])
  }

  /** `value.replace(/</g, "&lt;").replace(/>/g, "&gt;")`. No angle bracket
      survives, and each one costs three extra characters. */
  function Escape(s: string): (r: string)
    ensures '<' !in r && '>' !in r
    ensures |r| == |s| + 3 * Brackets(s)
  {
    if s == [] then "" else EscapeChar(s[0]) + Escape(s[1..])
  }

  /** `sanitize(value)`: strings are escaped, every other value is returned as it is. */
  function Sanitize(v: JsValue): (r: JsValue)
    ensures !v.Str? ==> r == v
    ensures v.Str? ==> r == Str(Escape(v.s))
    ensures v.Str? ==> r.Str? && '<' !in r.s && '>' !in r.s && |r.s| >= |v.s|
  {
    if v.Str? then Str(Escape(v.s)) else v
  }

  /** Escaping works character by character: it distributes over concatenation. */
  lemma {:induction false} EscapeConcat(a: string, b: string)
    ensures Escape(a + b) == Escape(a) + Escape(b)
  {
    if a != [] {
      assert (a + b)[0] == a[0];
      assert (a + b)[1..] == a[1..] + b;
      EscapeConcat(a[1..], b);
      assert Escape(a + b) == EscapeChar(a[0]) + Escape(a[1..] + b);
    } else {
      assert a + b == b;
    }
  }

  /** Escaping one character: `<` becomes `&lt;`, `>` becomes `&gt;`, and
      every other character stays. With `EscapeConcat` this fixes `Escape` on
      every string. */
  lemma EscapeOneChar(c: char)
    ensures c == '<' ==> Escape([c]) == "&lt;"
    ensures c == '>' ==> Escape([c]) == "&gt;"
    ensures c != '<' && c != '>' ==> Escape([c]) == [c]
  {
    assert [c][1..] == [];
  }

  /** A tag is neutralised: `<script>` is stored as `&lt;script&gt;`. */
  lemma EscapeTag(name: string)
    requires '<' !in name && '>' !in name
    ensures Escape("<" + name + ">") == "&lt;" + name + "&gt;"
  {
    EscapeConcat("<" + name, ">");
    EscapeConcat("<", name);
    EscapeOneChar('<');
    EscapeOneChar('>');
    EscapeKeepsOthers(name);
  }

  /** Every character other than `<` and `>` is left alone. */
  lemma {:induction false} EscapeKeepsOthers(s: string)
    requires '<' !in s && '>' !in s
    ensures Escape(s) == s
  {
    if s != [] {
      EscapeKeepsOthers(s[1..]);
      assert [s[0]] + s[1..] == s;
    }
  }

  /** Sanitising twice is sanitising once. */
  lemma SanitizeIdempotent(v: JsValue)
    ensures Sanitize(Sanitize(v)) == Sanitize(v)
  {
    if v.Str? {
      EscapeKeepsOthers(Escape(v.s));
    }
  }

  /** Escaping is not injective: a literal `&lt;` and a `<` are stored alike,
      and so are a literal `&gt;` and a `>`. */
  lemma EscapeIsLossy()
    ensures Escape("<") == Escape("&lt;") == "&lt;"
    ensures Escape(">") == Escape("&gt;") == "&gt;"
  {
    EscapeKeepsOthers("&lt;");
    EscapeKeepsOthers("&gt;");
  }

  /* ---------------------------------------------------------------------- */
  /* Page windows                                                            */
  /* ---------------------------------------------------------------------- */

  const TasksPerPage: nat := 5
  const LogsPerPage: nat := 10

  /** `parseInt(req.query.page) || 1`, given the already-parsed integer (`None`
      for NaN): NaN and 0 fall back to page 1, anything else is kept. */
  function PageNumber(parsed: Option<int>): (page: int)
    ensures page != 0
    ensures parsed.Some? && parsed.value != 0 ==> page == parsed.value
    ensures parsed.None? || parsed == Some(0) ==> page == 1
  {
    if parsed.None? || parsed.value == 0 then 1 else parsed.value
  }

  /** `Math.ceil(n / limit)`: the fewest pages of `limit` items that hold `n` items. */
  function TotalPages(n: nat, limit: nat): (pages: nat)
    requires limit > 0
    ensures pages * limit >= n
    ensures pages > 0 ==> (pages - 1) * limit < n
    ensures pages == 0 <==> n == 0
  {
    var q := (n + limit - 1) / limit;
    var rem := (n + limit - 1) % limit;
    assert n + limit - 1 == q * limit + rem;
    assert q * limit - limit == (q - 1) * limit;
    q
  }

  lemma MulMonotonic(a: int, b: int, c: nat)
    requires a <= b
    ensures a * c <= b * c
  {
    assert b * c - a * c == (b - a) * c;
  }

  /** Where the skip of page `page` falls relative to the `n` items. */
  lemma SkipBounds(n: nat, page: int, limit: nat)
    requires page >= 1 && limit > 0
    ensures (page - 1) * limit >= n <==> page > TotalPages(n, limit)
    ensures page < TotalPages(n, limit) ==> (page - 1) * limit + limit <= n
  {
    var total := TotalPages(n, limit);
    if page > total {
      MulMonotonic(total, page - 1, limit);
    } else {
      MulMonotonic(page - 1, total - 1, limit);
    }
    if page < total {
      MulMonotonic(page, total - 1, limit);
      assert page * limit == (page - 1) * limit + limit;
    }
  }

  /** `.skip(skip).limit(limit)` over an ordered sequence: the run of at most
      `limit` items that starts at position `skip`. */
  function Window<T>(s: seq<T>, skip: nat, limit: nat): (w: seq<T>)
    ensures |w| <= limit
    ensures forall i | 0 <= i < |w| :: skip + i < |s| && w[i] == s[skip + i]
    ensures w == [] <==> skip >= |s| || limit == 0
    ensures skip + limit <= |s| ==> |w| == limit
    ensures skip < |s| ==> |w| == if limit <= |s| - skip then limit else |s| - skip
  {
    if skip >= |s| then [] else s[skip..if skip + limit <= |s| then skip + limit else |s|]
  }

  /** The window of page `page` (skip `(page - 1) * limit`) is empty exactly
      past the last page, and full on every page before the last. */
  lemma PageWindow<T>(s: seq<T>, page: int, limit: nat)
    requires page >= 1 && limit > 0
    ensures Window(s, (page - 1) * limit, limit) == [] <==> page > TotalPages(|s|, limit)
    ensures page < TotalPages(|s|, limit) ==> |Window(s, (page - 1) * limit, limit)| == limit
  {
    SkipBounds(|s|, page, limit);
  }

  /** Every item has exactly one page: item `k` is entry `k % limit` of page
      `k / limit + 1`, and that page is within the page count. */
  lemma ItemOnItsPage<T>(s: seq<T>, limit: nat, k: nat)
    requires limit > 0 && k < |s|
    ensures k / limit + 1 <= TotalPages(|s|, limit)
    ensures k % limit < |Window(s, k / limit * limit, limit)|
    ensures Window(s, k / limit * limit, limit)[k % limit] == s[k]
  {
    var page := k / limit + 1;
    assert (page - 1) * limit + k % limit == k;
    SkipBounds(|s|, page, limit);
  }

  /** The listing envelope: `{tasks | logs, currentPage, totalPages}`. */
  datatype Listing<T> = Listing(items: seq<T>, currentPage: int, totalPages: nat)

  /** Page `page` of an ordered result set: the window at `(page - 1) * limit`,
      with the page count `ceil(|all| / limit)`. */
  function PageOf<T>(all: seq<T>, page: int, limit: nat): (l: Listing<T>)
    requires page >= 1 && limit > 0
    ensures l.items == Window(all, (page - 1) * limit, limit)
    ensures l.currentPage == page && l.totalPages == TotalPages(|all|, limit)
    ensures |l.items| <= limit && (l.items == [] <==> page > l.totalPages)
  {
    PageWindow(all, page, limit);
    Listing(Window(all, (page - 1) * limit, limit), page, TotalPages(|all|, limit))
  }

  /** The result kind of a handler, standing in for its HTTP status. */
  datatype Outcome<T> = Ok(value: T) | ValidationError | NotFound | ServerError

  /* ---------------------------------------------------------------------- */
  /* Task listing                                                            */
  /* ---------------------------------------------------------------------- */

  /** The `$regex` operator with option `i`: a pattern either fails to compile
      (`None`; the database then rejects the query) or becomes a test on field
      text. The regular-expression language is not modelled. */
  type Matcher = string -> Option<string -> bool>

  /** A search the database can run: none at all, or a pattern that compiles. */
  predicate Runnable(search: string, matches: Matcher)
  {
    search == "" || matches(search).Some?
  }

  /** The search query: an empty search selects every task; otherwise title or
      description must match the compiled pattern. */
  predicate Selected(t: Task, search: string, matches: Matcher)
  {
    || search == ""
    || (matches(search).Some? && (matches(search).value(t.title) || matches(search).value(t.description)))
  }

  /** The selected tasks among the ids below `bound`, in decreasing id order. */
  function Matching(tasks: map<TaskId, Task>, bound: nat, search: string, matches: Matcher): (r: seq<(TaskId, Task)>)
    ensures forall i | 0 <= i < |r| ::
              r[i].0 < bound && r[i].0 in tasks && r[i].1 == tasks[r[i].0] && Selected(r[i].1, search, matches)
    ensures forall id | id < bound && id in tasks && Selected(tasks[id], search, matches) :: (id, tasks[id]) in r
    ensures forall i, j | 0 <= i < j < |r| :: r[i].0 > r[j].0
  {
    if bound == 0 then []
    else
      var rest := Matching(tasks, bound - 1, search, matches);
      var id := bound - 1;
      if id in tasks && Selected(tasks[id], search, matches) then [(id, tasks[id])] + rest else rest
  }

  /** Log entries newest first: the log collection in reverse. */
  function Reverse<T>(s: seq<T>): (r: seq<T>)
    ensures |r| == |s|
    ensures forall i | 0 <= i < |s| :: r[i] == s[|s| - 1 - i]
  {
    if s == [] then [] else Reverse(s[1..]) + [s[0]]
  }

  /** `getLogs`: page `PageNumber(pageParam)` of the log, ten entries a page,
      newest timestamp first. A negative page makes the database reject the
      negative skip. */
  function GetLogs(log: AuditLog, pageParam: Option<int>): (r: Outcome<Listing<LogEntry>>)
    reads log
    requires log.Valid()
    ensures r.Ok? || r == ServerError
    ensures r == ServerError <==> PageNumber(pageParam) < 1
    ensures r.Ok? ==> r.value == PageOf(Reverse(log.entries), PageNumber(pageParam), LogsPerPage)
    ensures r.Ok? ==> forall i | 0 <= i < |r.value.items| :: r.value.items[i] in log.entries
    ensures r.Ok? ==> forall i, j | 0 <= i < j < |r.value.items| ::
                        r.value.items[i].timestamp > r.value.items[j].timestamp
  {
    var page := PageNumber(pageParam);
    if page < 1 then ServerError
    else
      var listing := PageOf(Reverse(log.entries), page, LogsPerPage);
      NewestLogsFirst(log, listing.items, (page - 1) * LogsPerPage);
      Ok(listing)
  }

  /** A window of the reversed log holds log entries, newest timestamp first. */
  lemma NewestLogsFirst(log: AuditLog, items: seq<LogEntry>, skip: nat)
    requires log.Valid()
    requires items == Window(Reverse(log.entries), skip, LogsPerPage)
    ensures forall i | 0 <= i < |items| :: items[i] in log.entries
    ensures forall i, j | 0 <= i < j < |items| :: items[i].timestamp > items[j].timestamp
  {
    assert forall i | 0 <= i < |items| :: items[i] == log.entries[|log.entries| - 1 - (skip + i)];
  }

  /* ---------------------------------------------------------------------- */
  /* Update change sets                                                      */
  /* ---------------------------------------------------------------------- */

  /** A body field that is present and truthy: a non-empty string. */
  predicate Supplied(f: Option<string>)
  {
    f.Some? && f.value != ""
  }

  /** `updatedFields`: a field enters only when it was supplied and its RAW
      value differs from the stored (already sanitised) one; the value entered
      is the sanitised one. Title comes before description. */
  function Changes(stored: Task, title: Option<string>, description: Option<string>): (cs: ChangeSet)
    ensures Lookup(cs, "title") ==
              if Supplied(title) && title.value != stored.title then Some(Escape(title.value)) else None
    ensures Lookup(cs, "description") ==
              if Supplied(description) && description.value != stored.description
              then Some(Escape(description.value)) else None
    ensures forall i | 0 <= i < |cs| :: cs[i].key == "title" || cs[i].key == "description"
    ensures forall i, j | 0 <= i < j < |cs| :: cs[i].key == "title" && cs[j].key == "description"
    ensures |cs| <= 2
  {
    var t := if Supplied(title) && title.value != stored.title then [Field("title", Escape(title.value))] else [];
    var d := if Supplied(description) && description.value != stored.description
             then [Field("description", Escape(description.value))] else [];
    assert t + d == [] || (t + d)[0] in t + d;
    t + d
  }

  /** `$set: cs` on a stored task: each listed path gets its value through the
      schema's trim setter; validators do not run and createdAt is kept. */
  function ApplyChanges(t: Task, cs: ChangeSet): (r: Task)
    ensures r.createdAt == t.createdAt
    ensures Lookup(cs, "title").None? ==> r.title == t.title
    ensures Lookup(cs, "description").None? ==> r.description == t.description
    ensures Lookup(cs, "title").Some? ==> r.title == Trim(Lookup(cs, "title").value)
    ensures Lookup(cs, "description").Some? ==> r.description == Trim(Lookup(cs, "description").value)
  {
    var title := Lookup(cs, "title");
    var description := Lookup(cs, "description");
    Task(if title.Some? then Trim(title.value) else t.title,
         if description.Some? then Trim(description.value) else t.description,
         t.createdAt)
  }

  /** Re-applying the same `$set` changes nothing: the trim setters have
      already run on the stored values. */
  lemma {:induction false} ApplyChangesIdempotent(t: Task, cs: ChangeSet)
    ensures ApplyChanges(ApplyChanges(t, cs), cs) == ApplyChanges(t, cs)
  {
    var title := Lookup(cs, "title");
    var description := Lookup(cs, "description");
    if title.Some? {
      TrimIdempotent(title.value);
    }
    if description.Some? {
      TrimIdempotent(description.value);
    }
  }

  /** An update rewrites exactly the fields that entered the change set, with
      their sanitised and trimmed value; the other field and createdAt stay. */
  lemma UpdateTouchesOnlyChangedFields(t: Task, title: Option<string>, description: Option<string>)
    ensures var r := ApplyChanges(t, Changes(t, title, description));
            && r.createdAt == t.createdAt
            && r.title == (if Supplied(title) && title.value != t.title then Trim(Escape(title.value)) else t.title)
            && r.description ==
                 (if Supplied(description) && description.value != t.description
                  then Trim(Escape(description.value)) else t.description)
  {
  }

  /** The comparison is made before sanitising: resubmitting the raw text a
      task was created from, when that text holds an angle bracket, counts as
      a change and is logged, although the stored task comes out identical. */
  lemma RawResubmissionIsLoggedChange(t: Task, raw: string)
    requires '<' in raw || '>' in raw
    requires t.title == Trim(Escape(raw))
    ensures Changes(t, Some(raw), None) == [Field("title", Escape(raw))]
    ensures ApplyChanges(t, Changes(t, Some(raw), None)) == t
  {
    var i := TrimIsInfix(Escape(raw));
    assert t.title == Escape(raw)[i..i + |t.title|];
    assert '<' !in t.title && '>' !in t.title;
    assert raw != t.title;
  }

  /** Without validators on the update path, an update can store what a
      create would refuse: a whitespace-only title trims to the empty string. */
  lemma UpdateMayBreakSchema()
    ensures var t := Task("a", "b", 0);
            var cs := Changes(t, Some(" "), None);
            && SchemaValid(t)
            && cs == [Field("title", " ")]
            && !SchemaValid(ApplyChanges(t, cs))
  {
    EscapeKeepsOthers(" ");
    TrimEmptyIffBlank(" ");
  }

  /* ---------------------------------------------------------------------- */
  /* The task store                                                          */
  /* ---------------------------------------------------------------------- */

  /** Every id is below `nextId`, every creation time below `clock`, and a
      larger id was created later. */
  ghost predicate TasksOrdered(tasks: map<TaskId, Task>, nextId: nat, clock: nat)
  {
    && (forall id | id in tasks :: id < nextId && tasks[id].createdAt < clock)
    && (forall a, b | a in tasks && b in tasks && a < b :: tasks[a].createdAt < tasks[b].createdAt)
  }

  /** Storing a task created now under the next id keeps the order. */
  lemma InsertKeepsOrder(tasks: map<TaskId, Task>, nextId: nat, clock: nat, t: Task)
    requires TasksOrdered(tasks, nextId, clock) && t.createdAt == clock
    ensures TasksOrdered(tasks[nextId := t], nextId + 1, clock + 1)
  {
  }

  /** Rewriting a task without touching its creation time keeps the order. */
  lemma ReplaceKeepsOrder(tasks: map<TaskId, Task>, nextId: nat, clock: nat, id: TaskId, t: Task)
    requires TasksOrdered(tasks, nextId, clock) && id in tasks && t.createdAt == tasks[id].createdAt
    ensures TasksOrdered(tasks[id := t], nextId, clock)
  {
  }

  /** Tasks listed in decreasing id order are listed newest first. */
  lemma NewestFirst(tasks: map<TaskId, Task>, nextId: nat, clock: nat, items: seq<(TaskId, Task)>)
    requires TasksOrdered(tasks, nextId, clock)
    requires forall i | 0 <= i < |items| :: items[i].0 in tasks && items[i].1 == tasks[items[i].0]
    requires forall i, j | 0 <= i < j < |items| :: items[i].0 > items[j].0
    ensures forall i, j | 0 <= i < j < |items| :: items[i].1.createdAt > items[j].1.createdAt
  {
  }

  /** Every listed task is stored under its id and selected by the search. */
  predicate StoredAndSelected(tasks: map<TaskId, Task>, search: string, matches: Matcher, items: seq<(TaskId, Task)>)
  {
    forall i | 0 <= i < |items| ::
      items[i].0 in tasks && tasks[items[i].0] == items[i].1 && Selected(items[i].1, search, matches)
  }

  /** Listed tasks come newest first. */
  predicate CreatedDescending(items: seq<(TaskId, Task)>)
  {
    forall i, j | 0 <= i < j < |items| :: items[i].1.createdAt > items[j].1.createdAt
  }

  /** A window of the matching tasks holds stored, selected tasks, newest
      first. */
  lemma ListedTasks(tasks: map<TaskId, Task>, nextId: nat, clock: nat, search: string, matches: Matcher,
                    items: seq<(TaskId, Task)>, skip: nat)
    requires TasksOrdered(tasks, nextId, clock)
    requires items == Window(Matching(tasks, nextId, search, matches), skip, TasksPerPage)
    ensures StoredAndSelected(tasks, search, matches, items)
    ensures CreatedDescending(items)
  {
    var all := Matching(tasks, nextId, search, matches);
    assert forall i | 0 <= i < |items| :: items[i] == all[skip + i];
    NewestFirst(tasks, nextId, clock, items);
  }

  class TaskStore {
    /** The task collection, keyed by id. */
    var tasks: map<TaskId, Task>
    /** The next id to hand out; ids are never reused. */
    var nextId: nat
    /** The clock the timestamps option reads when a task is first saved. */
    var clock: nat
    /** The log collection, written only through the audit recorder. */
    const audit: AuditLog

    /** Ids were all handed out, creation times come from the clock, and a
        later id was created later. */
    ghost predicate TasksValid()
      reads this
    {
      TasksOrdered(tasks, nextId, clock)
    }

    ghost predicate Valid()
      reads this, audit
    {
      && TasksValid()
      && audit.Valid()
      && (forall e | e in audit.entries :: e.taskId < nextId)
    }

    constructor ()
      ensures Valid() && fresh(audit)
      ensures tasks == map[] && audit.entries == []
    {
      tasks := map[];
      nextId := 0;
      clock := 0;
      audit := new AuditLog();
    }

    /** `getTasks`: page `PageNumber(pageParam)` of the selected tasks, five a
        page, newest first. The database rejects a negative page (negative
        skip) and a search pattern that does not compile. */
    function GetTasks(pageParam: Option<int>, search: string, matches: Matcher)
      : (r: Outcome<Listing<(TaskId, Task)>>)
      reads this
      requires TasksValid()
      ensures r.Ok? || r == ServerError
      ensures r == ServerError <==> PageNumber(pageParam) < 1 || !Runnable(search, matches)
      ensures r.Ok? ==> r.value == PageOf(Matching(tasks, nextId, search, matches), PageNumber(pageParam), TasksPerPage)
      ensures r.Ok? ==> StoredAndSelected(tasks, search, matches, r.value.items)
      ensures r.Ok? ==> CreatedDescending(r.value.items)
    {
      var page := PageNumber(pageParam);
      if page < 1 || !Runnable(search, matches) then ServerError
      else
        var all := Matching(tasks, nextId, search, matches);
        var listing := PageOf(all, page, TasksPerPage);
        ListedTasks(tasks, nextId, clock, search, matches, listing.items, (page - 1) * TasksPerPage);
        Ok(listing)
    }

    /** `createTask`. Absent or empty fields are refused before anything is
        written; otherwise both are sanitised, the document is built (trim
        setters) and saved if it passes the schema. A save stores one task
        under an id never used before and then asks the recorder for one
        `Create Task` entry holding the stored title and description. Whether
        the log write succeeds (`logSaved`) does not affect the task side. */
    method CreateTask(title: Option<string>, description: Option<string>, logSaved: bool)
      returns (r: Outcome<(TaskId, Task)>)
      requires Valid()
      modifies this, audit
      ensures Valid()
      ensures r.Ok? || r == ValidationError
      ensures r.Ok? <==>
                && Supplied(title) && Supplied(description)
                && NewTask(Escape(title.value), Escape(description.value), old(clock)).Some?
      ensures r == ValidationError ==> tasks == old(tasks) && audit.entries == old(audit.entries)
      ensures r.Ok? ==>
                && r.value.0 !in old(tasks)
                && (forall e | e in old(audit.entries) :: e.taskId != r.value.0)
                && tasks == old(tasks)[r.value.0 := r.value.1]
                && r.value.1 == NewTask(Escape(title.value), Escape(description.value), old(clock)).value
                && r.value.1.createdAt == old(clock)
                && SchemaValid(r.value.1)
                && r.value.1.title == Trim(Escape(title.value))
                && r.value.1.description == Trim(Escape(description.value))
      ensures r.Ok? ==>
                audit.entries == old(audit.entries) +
                  (if logSaved
                   then [LogEntry(old(audit.clock), Action.CreateTask, r.value.0,
                                  [Field("title", r.value.1.title), Field("description", r.value.1.description)])]
                   else [])
    {
      if !Supplied(title) || !Supplied(description) {
        return ValidationError;
      }
      var sanitizedTitle := Escape(title.value);
      var sanitizedDescription := Escape(description.value);
      var newTask := NewTask(sanitizedTitle, sanitizedDescription, clock);
      if newTask.None? {
        return ValidationError;
      }
      var task := newTask.value;
      var id := Insert(task, logSaved);
      r := Ok((id, task));
    }

    /** The save half of `createTask`: stores `task` under a fresh id and
        requests one `Create Task` entry carrying the stored fields. */
    method Insert(task: Task, logSaved: bool) returns (id: TaskId)
      requires Valid()
      requires task.createdAt == clock
      modifies this, audit
      ensures Valid()
      ensures id !in old(tasks) && (forall e | e in old(audit.entries) :: e.taskId != id)
      ensures tasks == old(tasks)[id := task]
      ensures audit.entries == old(audit.entries) +
                (if logSaved
                 then [LogEntry(old(audit.clock), Action.CreateTask, id,
                                [Field("title", task.title), Field("description", task.description)])]
                 else [])
    {
      id := nextId;
      var content := [Field("title", task.title), Field("description", task.description)];
      assert NewLogEntry(Some(ActionName(Action.CreateTask)), id, content, None, audit.clock)
          == Some(LogEntry(audit.clock, Action.CreateTask, id, content));
      InsertKeepsOrder(tasks, nextId, clock, task);
      tasks := tasks[id := task];
      nextId := nextId + 1;
      clock := clock + 1;
      audit.CreateLog(ActionName(Action.CreateTask), id, content, logSaved);
    }

    /** `updateTask`. An unknown id is not found and nothing changes. An empty
        change set returns the stored task with no write and no log entry.
        Otherwise exactly the change-set fields of that one task are set and
        one `Update Task` entry carrying the change set is requested. */
    method UpdateTask(id: TaskId, title: Option<string>, description: Option<string>, logSaved: bool)
      returns (r: Outcome<Task>)
      requires Valid()
      modifies this, audit
      ensures Valid()
      ensures id !in old(tasks) ==>
                r == NotFound && tasks == old(tasks) && audit.entries == old(audit.entries)
      ensures id in old(tasks) && Changes(old(tasks)[id], title, description) == [] ==>
                r == Ok(old(tasks)[id]) && tasks == old(tasks) && audit.entries == old(audit.entries)
      ensures id in old(tasks) && Changes(old(tasks)[id], title, description) != [] ==>
                var cs := Changes(old(tasks)[id], title, description);
                && tasks == old(tasks)[id := ApplyChanges(old(tasks)[id], cs)]
                && r == Ok(tasks[id])
                && audit.entries == old(audit.entries) +
                     (if logSaved then [LogEntry(old(audit.clock), Action.UpdateTask, id, cs)] else [])
    {
      if id !in tasks {
        return NotFound;
      }
      var oldTask := tasks[id];
      var updatedFields := Changes(oldTask, title, description);
      if updatedFields == [] {
        return Ok(oldTask);
      }
      var updatedTask := ApplyChanges(oldTask, updatedFields);
      Rewrite(id, updatedTask, updatedFields, logSaved);
      r := Ok(updatedTask);
    }

    /** The write half of `updateTask`: replaces the stored task `id` and
        requests one `Update Task` entry carrying the change set. */
    method Rewrite(id: TaskId, task: Task, cs: ChangeSet, logSaved: bool)
      requires Valid()
      requires id in tasks && task.createdAt == tasks[id].createdAt
      modifies this, audit
      ensures Valid()
      ensures tasks == old(tasks)[id := task]
      ensures audit.entries == old(audit.entries) +
                (if logSaved then [LogEntry(old(audit.clock), Action.UpdateTask, id, cs)] else [])
    {
      assert NewLogEntry(Some(ActionName(Action.UpdateTask)), id, cs, None, audit.clock)
          == Some(LogEntry(audit.clock, Action.UpdateTask, id, cs));
      ReplaceKeepsOrder(tasks, nextId, clock, id, task);
      tasks := tasks[id := task];
      audit.CreateLog(ActionName(Action.UpdateTask), id, cs, logSaved);
    }

    /** `deleteTask`. An unknown id is not found and nothing changes. Otherwise
        only that task is removed and one `Delete Task` entry with empty
        content is requested; that entry then names a task that is gone. */
    method DeleteTask(id: TaskId, logSaved: bool) returns (r: Outcome<()>)
      requires Valid()
      modifies this, audit
      ensures Valid()
      ensures id !in old(tasks) ==>
                r == NotFound && tasks == old(tasks) && audit.entries == old(audit.entries)
      ensures id in old(tasks) ==>
                && r == Ok(())
                && tasks == old(tasks) - {id}
                && audit.entries == old(audit.entries) +
                     (if logSaved then [LogEntry(old(audit.clock), Action.DeleteTask, id, [])] else [])
                && (logSaved ==> audit.entries[|audit.entries| - 1].taskId !in tasks)
    {
      if id !in tasks {
        return NotFound;
      }
      tasks := tasks - {id};
      audit.CreateLog(ActionName(Action.DeleteTask), id, [], logSaved);
      r := Ok(());
    }
  }

  /** Paging loses no task: the k-th matching task (newest first) is item
      `k % 5` of page `k / 5 + 1`. */
  lemma EveryMatchListed(store: TaskStore, search: string, matches: Matcher, k: nat)
    requires store.TasksValid() && Runnable(search, matches)
    requires k < |Matching(store.tasks, store.nextId, search, matches)|
    ensures var r := store.GetTasks(Some(k / TasksPerPage + 1), search, matches);
            && r.Ok? && k % TasksPerPage < |r.value.items|
            && r.value.items[k % TasksPerPage] == Matching(store.tasks, store.nextId, search, matches)[k]
  {
    ItemOnItsPage(Matching(store.tasks, store.nextId, search, matches), TasksPerPage, k);
  }
}
