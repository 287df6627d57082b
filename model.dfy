/** The task record and the request items, as the service sees them. */
module Model {
  import opened Wrappers

  datatype TaskStatus = ASSIGNED | STARTED | COMPLETED | CANCELLED

  datatype Priority = HIGH | MEDIUM | LOW

  /** An enum constant of the reference-type enum, known by its ordinal; Java's `==` on
      enum constants is equality of ordinals. */
  datatype ReferenceType = ReferenceType(ordinal: nat)

  /** An enum constant of the `Task` enum (the kind of work), known by its ordinal. */
  datatype TaskKind = TaskKind(ordinal: nat)

  datatype ActivityLog = ActivityLog(message: string, timestamp: int)

  datatype Comment = Comment(message: string, user: string, timestamp: int)

  /** A stored task. Fields that Java leaves null are `Option`s: records created by a
      reassignment have no description, deadline or priority. */
  datatype TaskRecord = TaskRecord(
    id: int,
    referenceId: int,
    referenceType: ReferenceType,
    kind: TaskKind,
    description: Option<string>,
    status: TaskStatus,
    assigneeId: int,
    deadline: Option<int>,
    priority: Option<Priority>,
    comments: seq<Comment>,
    history: seq<ActivityLog>)

  /** The id of a record that has not been saved yet (a null id in Java). */
  const Unsaved: int := 0

  /** One item of a creation request. */
  datatype CreateItem = CreateItem(
    referenceId: int,
    referenceType: ReferenceType,
    kind: TaskKind,
    assigneeId: int,
    priority: Option<Priority>,
    deadline: Option<int>)

  /** One item of an update request; `None` leaves the field unchanged. */
  datatype UpdateItem = UpdateItem(taskId: int, status: Option<TaskStatus>, description: Option<string>)

  /** A reassignment request. */
  datatype AssignRequest = AssignRequest(referenceId: int, referenceType: ReferenceType, assigneeId: int)

  /** What a failed call throws: an absent id, or the unboxing of a null deadline. */
  datatype Error = NotFound(id: int) | NullDeadline

  const DefaultDescription := "New task created."
  const CreatedMessage := "Task created with status assigned "
  const UpdatedMessage := "Task updated"
  const CancelledMessage := "Task cancelled due to reassignment"
  const ReassignedMessage := "Task reassigned and assigned to new assignee"
  const CreatedAndAssignedMessage := "Task created and assigned"

  function PriorityName(p: Priority): string
  {
    match p
    case HIGH => "HIGH"
    case MEDIUM => "MEDIUM"
    case LOW => "LOW"
  }

  function PriorityChangedMessage(p: Priority): string
  {
    "priority changed to:" + PriorityName(p)
  }

  function CommentAddedMessage(user: string): string
  {
    "Comment added by " + user
  }

  /** The priority-change entry names the new priority: different priorities give
      different entries. */
  lemma PriorityChangedMessageNamesPriority(p: Priority, q: Priority)
    ensures PriorityChangedMessage(p) == PriorityChangedMessage(q) <==> p == q
  {
  }
}
