/** The audit recorder: one append to the log collection per call, best
    effort. The collection is append-only; a failed save is caught and only
    reported, so the caller never sees it. */
module LogController {

  import opened Wrappers
  import opened TaskModel
  import opened LogModel

  class AuditLog {
    /** The log collection, oldest entry first. */
    var entries: seq<LogEntry>
    /** The clock `Date.now` reads: it advances with every attempted save. */
    var clock: nat

    /** Every stored timestamp was taken from the clock, and later entries
        carry later timestamps. */
    ghost predicate Valid()
      reads this
    {
      && (forall i | 0 <= i < |entries| :: entries[i].timestamp < clock)
      && (forall i, j | 0 <= i < j < |entries| :: entries[i].timestamp < entries[j].timestamp)
    }

    constructor ()
      ensures Valid() && entries == []
    {
      entries := [];
      clock := 0;
    }

    /** `createLog(action, taskId, updatedContent)`. The document is built
        without a timestamp, so the schema default (the current clock) applies.
        `saved` is whether the database accepted the write; when it did not,
        or when the document fails validation, the error is swallowed and the
        log is left as it was. Existing entries are never changed. */
    method CreateLog(action: string, taskId: TaskId, updatedContent: ChangeSet, saved: bool)
      requires Valid()
      modifies this
      ensures Valid()
      ensures clock == old(clock) + 1
      ensures old(entries) <= entries && |entries| <= |old(entries)| + 1
      ensures var e := NewLogEntry(Some(action), taskId, updatedContent, None, old(clock));
              entries == if saved && e.Some? then old(entries) + [e.value] else old(entries)
    {
      var log := NewLogEntry(Some(action), taskId, updatedContent, None, clock);
      if saved && log.Some? {
        entries := entries + [log.value];
      }
      clock := clock + 1;
    }
  }
}
