/** The edits the service makes to a single record, as values: each returns the record
    as it is saved afterwards. */
module Lifecycle {
  import opened Wrappers
  import opened Model

  /** `later` is `earlier` followed by exactly `n` more entries. */
  ghost predicate Extends<T>(earlier: seq<T>, later: seq<T>, n: nat)
  {
    |later| == |earlier| + n && later[..|earlier|] == earlier
  }

  lemma ExtendsTransitive<T>(a: seq<T>, b: seq<T>, c: seq<T>, m: nat, n: nat)
    requires Extends(a, b, m) && Extends(b, c, n)
    ensures Extends(a, c, m + n)
  {
    assert c[..|a|] == c[..|b|][..|a|];
  }

  /** The record createTasks builds for one request item, before it is saved. */
  function NewRecord(item: CreateItem, now: int): (t: TaskRecord)
    ensures t.id == Unsaved && t.status == ASSIGNED && t.description == Some(DefaultDescription)
    ensures t.referenceId == item.referenceId && t.referenceType == item.referenceType && t.kind == item.kind
    ensures t.assigneeId == item.assigneeId && t.deadline == item.deadline && t.priority == item.priority
    ensures t.comments == [] && t.history == [ActivityLog(CreatedMessage, now)]
  {
    TaskRecord(Unsaved, item.referenceId, item.referenceType, item.kind, Some(DefaultDescription),
               ASSIGNED, item.assigneeId, item.deadline, item.priority, [], [ActivityLog(CreatedMessage, now)])
  }

  /** The record assignByReference creates for a kind: only the reference, the kind, the
      assignee, the status and one history entry are set. */
  function Replacement(id: int, req: AssignRequest, kind: TaskKind, message: string, now: int): TaskRecord
  {
    TaskRecord(id, req.referenceId, req.referenceType, kind, None, ASSIGNED, req.assigneeId,
               None, None, [], [ActivityLog(message, now)])
  }

  /** A created record belongs to the request's reference and assignee, is ASSIGNED, and
      starts with one history entry; a second request with the same assignee therefore
      finds it open. */
  lemma ReplacementFields(id: int, req: AssignRequest, kind: TaskKind, message: string, now: int)
    ensures var t := Replacement(id, req, kind, message, now);
            t.id == id && t.status == ASSIGNED && t.assigneeId == req.assigneeId && t.kind == kind &&
            t.referenceId == req.referenceId && t.referenceType == req.referenceType &&
            t.description == None && t.deadline == None && t.priority == None &&
            t.comments == [] && t.history == [ActivityLog(message, now)]
  {
  }

  /** One item of updateTasks applied to its record: status and description change only
      when the item carries them, and one entry is appended to the history in any case. */
  function Updated(t: TaskRecord, item: UpdateItem, now: int): TaskRecord
  {
    var withStatus := if item.status.Some? then t.(status := item.status.value) else t;
    var withDescription := if item.description.Some? then withStatus.(description := item.description) else withStatus;
    withDescription.(history := withDescription.history + [ActivityLog(UpdatedMessage, now)])
  }

  /** What an update item does to its record. */
  lemma UpdatedEdits(t: TaskRecord, item: UpdateItem, now: int)
    ensures var u := Updated(t, item, now);
            u.status == (if item.status.Some? then item.status.value else t.status) &&
            u.description == (if item.description.Some? then item.description else t.description) &&
            Extends(t.history, u.history, 1) && u.history[|t.history|] == ActivityLog(UpdatedMessage, now) &&
            u.(status := t.status, description := t.description, history := t.history) == t
  {
    var u := Updated(t, item, now);
    assert u.history[..|t.history|] == t.history;
  }

  /** updatePriority applied to its record. */
  function WithPriority(t: TaskRecord, p: Priority, now: int): (u: TaskRecord)
    ensures u.priority == Some(p)
    ensures Extends(t.history, u.history, 1)
    ensures u.history[|t.history|] == ActivityLog(PriorityChangedMessage(p), now)
    ensures u.(priority := t.priority, history := t.history) == t
  {
    t.(priority := Some(p), history := t.history + [ActivityLog(PriorityChangedMessage(p), now)])
  }

  /** addComment applied to its record. */
  function WithComment(t: TaskRecord, message: string, user: string, now: int): (u: TaskRecord)
    ensures Extends(t.comments, u.comments, 1) && u.comments[|t.comments|] == Comment(message, user, now)
    ensures Extends(t.history, u.history, 1)
    ensures u.history[|t.history|] == ActivityLog(CommentAddedMessage(user), now)
    ensures u.(comments := t.comments, history := t.history) == t
  {
    t.(comments := t.comments + [Comment(message, user, now)],
       history := t.history + [ActivityLog(CommentAddedMessage(user), now)])
  }

  /** A record cancelled by a reassignment. */
  function Cancelled(t: TaskRecord, now: int): TaskRecord
  {
    t.(status := CANCELLED, history := t.history + [ActivityLog(CancelledMessage, now)])
  }

  /** Cancelling sets the status, appends one "cancelled" entry and changes nothing else;
      it is the change `CancelledOrSame` allows for a record that is not COMPLETED. */
  lemma CancelledEdits(t: TaskRecord, now: int)
    ensures var u := Cancelled(t, now);
            u.status == CANCELLED &&
            Extends(t.history, u.history, 1) && u.history[|t.history|] == ActivityLog(CancelledMessage, now) &&
            u.(status := t.status, history := t.history) == t
    ensures t.status != COMPLETED ==> CancelledOrSame(t, Cancelled(t, now))
  {
    var u := Cancelled(t, now);
    assert u.history[..|t.history|] == t.history;
  }

  /** `u` is `t`, or `t` was not COMPLETED and `u` is `t` cancelled with more history:
      the only change a reassignment makes to a record that already existed. */
  ghost predicate CancelledOrSame(t: TaskRecord, u: TaskRecord)
  {
    u == t ||
    (t.status != COMPLETED && u.status == CANCELLED &&
     u == t.(status := CANCELLED, history := u.history) &&
     |t.history| < |u.history| && u.history[..|t.history|] == t.history)
  }

  lemma CancelledOrSameTransitive(t: TaskRecord, u: TaskRecord, v: TaskRecord)
    requires CancelledOrSame(t, u) && CancelledOrSame(u, v)
    ensures CancelledOrSame(t, v)
  {
    if u != t && v != u {
      assert v.history[..|t.history|] == v.history[..|u.history|][..|t.history|];
    }
  }
}
