/** The Task document: its schema (required, trimmed, bounded title and
    description; a creation timestamp and no update timestamp) and what
    constructing and saving a new document does with the raw field values. */
module TaskModel {

  import opened Wrappers
  import opened Text

  /** Task identifiers are opaque; the store hands out fresh ones. */
  type TaskId = nat

  const MaxTitleLength: nat := 100
  const MaxDescriptionLength: nat := 500

  /** A stored task. `createdAt` is set once when the document is first saved;
      the schema records no `updatedAt`. */
  datatype Task = Task(title: string, description: string, createdAt: nat)

  /** The `required` and `maxlength` validators of one string path, applied to
      the value after its `trim` setter has run. */
  predicate FieldValid(value: string, maxLength: nat)
  {
    value != "" && |value| <= maxLength
  }

  /** The document passes every validator of the schema. */
  function SchemaValid(t: Task): (ok: bool)
    ensures ok <==> 1 <= |t.title| <= MaxTitleLength && 1 <= |t.description| <= MaxDescriptionLength
  {
    FieldValid(t.title, MaxTitleLength) && FieldValid(t.description, MaxDescriptionLength)
  }

  /** `new Task({title, description})` followed by `save()`: the trim setters
      run on assignment, the timestamps option stamps `createdAt`, and the
      validators decide whether the save goes through. */
  function NewTask(title: string, description: string, createdAt: nat): (r: Option<Task>)
    ensures r.Some? ==> SchemaValid(r.value) && r.value.createdAt == createdAt
    ensures r.Some? ==> r.value.title == Trim(title) && r.value.description == Trim(description)
  {
    var t := Task(Trim(title), Trim(description), createdAt);
    if SchemaValid(t) then Some(t) else None
  }

  /** The save is refused exactly when a field is blank (it trims to the
      empty string and fails `required`) or too long once trimmed. */
  lemma NewTaskRejects(title: string, description: string, createdAt: nat)
    ensures NewTask(title, description, createdAt).None? <==>
              || AllWhitespace(title) || |Trim(title)| > MaxTitleLength
              || AllWhitespace(description) || |Trim(description)| > MaxDescriptionLength
  {
    TrimEmptyIffBlank(title);
    TrimEmptyIffBlank(description);
  }

  /** A saved task's fields are already trimmed: trimming them again, as the
      setters would on a later assignment, changes nothing. */
  lemma NewTaskFieldsTrimmed(title: string, description: string, createdAt: nat)
    requires NewTask(title, description, createdAt).Some?
    ensures var t := NewTask(title, description, createdAt).value;
            Trim(t.title) == t.title && Trim(t.description) == t.description
  {
    TrimIdempotent(title);
    TrimIdempotent(description);
  }

  /** A title or description made only of whitespace trims to the empty string
      and so fails the `required` validator, whatever the other field holds. */
  lemma BlankFieldRejected(title: string, description: string, createdAt: nat)
    requires AllWhitespace(title) || AllWhitespace(description)
    ensures NewTask(title, description, createdAt) == None
  {
    NewTaskRejects(title, description, createdAt);
  }
}
