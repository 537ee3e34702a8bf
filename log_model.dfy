/** The audit-log document: a timestamp that defaults to the time of
    construction, a required action drawn from a closed enumeration, a weak
    reference to a task and free-form content. */
module LogModel {

  import opened Wrappers
  import opened TaskModel

  /** The schema's `enum` for `action`. */
  datatype Action = CreateTask | UpdateTask | DeleteTask

  /** The stored string of each action. */
  function ActionName(a: Action): string
  {
    match a
    case CreateTask => "Create Task"
    case UpdateTask => "Update Task"
    case DeleteTask => "Delete Task"
  }

  /** The `required` and `enum` validators of `action`: a string is accepted
      exactly when it is the name of one of the three actions. */
  function ParseAction(s: string): (r: Option<Action>)
    ensures r.Some? ==> ActionName(r.value) == s
    ensures r.None? <==> forall a: Action :: ActionName(a) != s
  {
    if s == "Create Task" then Some(CreateTask)
    else if s == "Update Task" then Some(UpdateTask)
    else if s == "Delete Task" then Some(DeleteTask)
    else None
  }

  /** One `field: value` pair of the content; a change set is an ordered
      object of them, in insertion order. */
  datatype Field = Field(key: string, value: string)
  type ChangeSet = seq<Field>

  /** `content[key]`, undefined when the key is absent. */
  function Lookup(cs: ChangeSet, key: string): (r: Option<string>)
    ensures r.Some? <==> exists i | 0 <= i < |cs| :: cs[i].key == key
    ensures r.Some? ==> Field(key, r.value) in cs
  {
    if cs == [] then None
    else if cs[0].key == key then Some(cs[0].value)
    else Lookup(cs[1..], key)
  }

  /** A stored log entry. `taskId` is a bare reference: nothing checks that the
      task exists, so it may name a deleted one. */
  datatype LogEntry = LogEntry(timestamp: nat, action: Action, taskId: TaskId, updatedContent: ChangeSet)

  /** `new Log({action, taskId, updatedContent, timestamp})` followed by
      validation: an absent `timestamp` takes the default `now`; an absent or
      unknown action rejects the document; task id and content are kept as given. */
  function NewLogEntry(action: Option<string>, taskId: TaskId, content: ChangeSet,
                       timestamp: Option<nat>, now: nat): (r: Option<LogEntry>)
    ensures r.Some? <==> action.Some? && exists a: Action :: ActionName(a) == action.value
    ensures r.Some? ==> ActionName(r.value.action) == action.value
    ensures r.Some? ==> r.value.taskId == taskId && r.value.updatedContent == content
    ensures r.Some? ==> r.value.timestamp == if timestamp.Some? then timestamp.value else now
  {
    if action.None? then None
    else
      match ParseAction(action.value)
      case None => None
      case Some(a) => Some(LogEntry(if timestamp.Some? then timestamp.value else now, a, taskId, content))
  }

  /** Every action's stored name passes the validators and reads back as itself. */
  lemma ActionNameRoundTrip(a: Action)
    ensures ParseAction(ActionName(a)) == Some(a)
  {
  }
}
