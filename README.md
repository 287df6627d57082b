# Task lifecycle engine of the workforce-management API

This project is a Dafny model of `TaskManagementServiceImpl`, the service at the centre of
the workforce-management API. The service keeps task records in a repository. Each record
is tied to an external business reference (a reference id and a reference type). It also
has a task kind, a status (ASSIGNED, STARTED, COMPLETED or CANCELLED), an assignee, an
optional deadline and priority, a comment list and an activity history.

The service offers these operations:

- **createTasks**: one ASSIGNED record per request item.
- **updateTasks**: partial updates; an absent field leaves the record's field unchanged.
- **updatePriority**.
- **addComment**.
- **findTaskById**.
- **fetchByPriority** and **fetchTasksByDate**: two listing filters.
- **assignByReference**: reassigns every open task of a reference to a new assignee. It
  cancels the old records and creates replacements.

Modules:

- `Model` (model.dfy): the record, the request items, the errors and the history
  messages.
- `Lifecycle` (lifecycle.dfy): each edit the service makes to one record, as a function
  on values.
- `Store` (store.dfy): the repository. It is a class holding `records: seq<TaskRecord>`,
  where the record with id `i + 1` sits at position `i`. Its `Save` either updates a
  record in place or appends one under the next id.
- `Queries` (queries.dfy): the two listing filters.
- `Updates` (updates.dfy): updateTasks as a function over the store.
- `Reassignment` (reassignment.dfy): assignByReference as functions over the store, with
  its properties:
  - which records are cancelled;
  - which records are created;
  - which records are left alone;
  - what a second identical call does.
- `Service` (service.dfy): the class `TaskManagementService`. Its methods read and save
  through the repository in the service's own order. Each method is proved equal to the
  functions above.
- `Scenarios` (scenarios.dfy): concrete runs of a reassignment.

Where the code's behaviour may be unexpected, the model follows the code:

- **Null deadlines.** fetchTasksByDate compares the deadline of every record that is not
  CANCELLED. A record without a deadline therefore makes the listing fail: Java unboxes
  a null `Long` and throws a NullPointerException. The model returns
  `Failure(NullDeadline)`. assignByReference creates exactly such records.
- **CANCELLED tasks stay open.** The open set of a kind excludes only COMPLETED records,
  so CANCELLED records are in it. A reassignment cancels them again and adds another
  history entry.
- **Repeating a request is not a no-op.** When the reference type has at least one
  applicable kind, a repeated identical request reports "already assigned" and creates
  nothing. (With no applicable kinds both calls report success and change nothing.) But if a CANCELLED record of the kind comes
  before the assignee's record in store order, it still gains one more "cancelled"
  history entry. `AssignTwiceOnlyRecancels` states this exactly, and
  `RepeatedReassignScenario` shows it on a concrete store.
- **Early return keeps earlier cancellations.** When the walk over a kind meets a record
  already held by the new assignee, the call returns at once. The cancellations saved
  before that point stay saved. `AssignStopsInOnePass` and `AssignStopKeepsAndCancels`
  state the whole call in that case.
- **updateTasks returns final states.** Its result list holds the saved objects
  themselves and is mapped only after the loop. So each entry shows its record's final
  state: an id named twice appears twice, both times with both updates applied.

## Model

All source paths are under `src/main/java/com/railse/hiring/workforcemgmt/`.

| member | source | states |
|---|---|---|
| `Model.PriorityChangedMessageNamesPriority` | src/main/java/com/railse/hiring/workforcemgmt/service/impl/TaskManagementServiceImpl.java:57 | two priority-change entries are equal exactly when they name the same priority |
| `Lifecycle.NewRecord` | src/main/java/com/railse/hiring/workforcemgmt/service/impl/TaskManagementServiceImpl.java:68-77 | the record built for a create item: no id yet, ASSIGNED, the default description, the item's reference, kind, assignee, deadline and priority, no comments and exactly one "created" history entry |
| `Lifecycle.Replacement` | src/main/java/com/railse/hiring/workforcemgmt/service/impl/TaskManagementServiceImpl.java:135-157 | no contract of its own; what it builds is stated by `Lifecycle.ReplacementFields` |
| `Lifecycle.ReplacementFields` | src/main/java/com/railse/hiring/workforcemgmt/service/impl/TaskManagementServiceImpl.java:135-157 | the record created for a kind is ASSIGNED to the request's assignee, of the request's reference and the kind, with no description, deadline, priority or comments and exactly one history entry carrying the given message |
| `Lifecycle.Updated` | src/main/java/com/railse/hiring/workforcemgmt/service/impl/TaskManagementServiceImpl.java:93-99 | no contract of its own; what it does is stated by `Lifecycle.UpdatedEdits` |
| `Lifecycle.UpdatedEdits` | src/main/java/com/railse/hiring/workforcemgmt/service/impl/TaskManagementServiceImpl.java:93-99 | an update item sets status and description only when it carries them, always appends exactly one "Task updated" entry, keeps earlier entries, and changes no other field |
| `Lifecycle.WithPriority` | src/main/java/com/railse/hiring/workforcemgmt/service/impl/TaskManagementServiceImpl.java:56-57 | the new priority is set, exactly one entry naming it is appended, earlier entries are kept, and nothing else changes |
| `Lifecycle.WithComment` | src/main/java/com/railse/hiring/workforcemgmt/service/impl/TaskManagementServiceImpl.java:192-198 | exactly one comment (message, user, time) and one "Comment added by" entry are appended, earlier ones are kept, and nothing else changes |
| `Lifecycle.Cancelled` | src/main/java/com/railse/hiring/workforcemgmt/service/impl/TaskManagementServiceImpl.java:122-125 | no contract of its own; what it does is stated by `Lifecycle.CancelledEdits` |
| `Lifecycle.CancelledEdits` | src/main/java/com/railse/hiring/workforcemgmt/service/impl/TaskManagementServiceImpl.java:122-125 | cancelling sets CANCELLED, appends exactly one "cancelled due to reassignment" entry, and changes nothing else |
| `Store.Saved` | src/main/java/com/railse/hiring/workforcemgmt/service/impl/TaskManagementServiceImpl.java:78 | saving appends a record without an id under the next id, and replaces a record with an id at its place while every other record stays; the id layout is kept |
| `Store.ReferenceIds` | src/main/java/com/railse/hiring/workforcemgmt/service/impl/TaskManagementServiceImpl.java:110-111 | the ids listed are exactly those of the stored records of the reference, each once |
| `Store.ByAssignees` | src/main/java/com/railse/hiring/workforcemgmt/service/impl/TaskManagementServiceImpl.java:168 | the records listed are exactly the stored records whose assignee is among those asked for |
| `Store.Lookup` | src/main/java/com/railse/hiring/workforcemgmt/service/impl/TaskManagementServiceImpl.java:101-103 | a list of saved objects, read later, shows the current record behind each id, in list order |
| `Store.TaskRepository.FindById` | src/main/java/com/railse/hiring/workforcemgmt/service/impl/TaskManagementServiceImpl.java:36 | returns the record with the id when it is stored, and nothing otherwise |
| `Store.TaskRepository.FindByReference` | src/main/java/com/railse/hiring/workforcemgmt/service/impl/TaskManagementServiceImpl.java:110-111 | returns the ids of the reference's records, in store order |
| `Store.TaskRepository.FindByAssigneeIn` | src/main/java/com/railse/hiring/workforcemgmt/service/impl/TaskManagementServiceImpl.java:168 | returns the records of the given assignees, in store order |
| `Store.TaskRepository.Save` | src/main/java/com/railse/hiring/workforcemgmt/service/impl/TaskManagementServiceImpl.java:78 | the store becomes `Saved` of the old store, the id layout is kept, and the returned record carries its assigned id |
| `Queries.ByPriority` | src/main/java/com/railse/hiring/workforcemgmt/service/impl/TaskManagementServiceImpl.java:45-47 | the filter never lists more records than it is given |
| `Queries.ByPriorityMembers` | src/main/java/com/railse/hiring/workforcemgmt/service/impl/TaskManagementServiceImpl.java:45-47 | a record is listed exactly when it is given and its priority equals the one asked for; a record without a priority never is |
| `Queries.ByPriorityKeepsOrder` | src/main/java/com/railse/hiring/workforcemgmt/service/impl/TaskManagementServiceImpl.java:45-47 | filtering a concatenation concatenates the filtered parts, so input order is kept |
| `Queries.Due` | src/main/java/com/railse/hiring/workforcemgmt/service/impl/TaskManagementServiceImpl.java:173-177 | no contract of its own: it is the window rule itself, which `Queries.ByDateListsDue` ties to the listing |
| `Queries.ByDate` | src/main/java/com/railse/hiring/workforcemgmt/service/impl/TaskManagementServiceImpl.java:172-180 | the only way the date filter fails is a null deadline |
| `Queries.ByDateListsDue` | src/main/java/com/railse/hiring/workforcemgmt/service/impl/TaskManagementServiceImpl.java:172-180 | the filter fails exactly when a record that is not CANCELLED has no deadline; otherwise a record is listed exactly when it is not CANCELLED and its deadline is in the window, or before it while the record is not COMPLETED |
| `Queries.ByDateKeepsOrder` | src/main/java/com/railse/hiring/workforcemgmt/service/impl/TaskManagementServiceImpl.java:172-180 | filtering a concatenation concatenates the filtered parts and fails when either part fails, so input order is kept |
| `Queries.InvertedWindowListsOnlyOverdue` | src/main/java/com/railse/hiring/workforcemgmt/service/impl/TaskManagementServiceImpl.java:173-177 | with end before start only overdue ASSIGNED or STARTED records are listed |
| `Queries.WindowExample` | src/main/java/com/railse/hiring/workforcemgmt/service/impl/TaskManagementServiceImpl.java:172-180 | for deadlines start-1 (ASSIGNED), start-1 (COMPLETED), start (CANCELLED) and end (ASSIGNED) exactly the first and the last are listed |
| `Updates.TaskIds` | src/main/java/com/railse/hiring/workforcemgmt/service/impl/TaskManagementServiceImpl.java:88-89 | the ids named by an update request, one per item, in request order |
| `Updates.ApplyUpdates` | src/main/java/com/railse/hiring/workforcemgmt/service/impl/TaskManagementServiceImpl.java:88-102 | the update loop never adds or removes records |
| `Updates.ApplyUpdatesReportsMissing` | src/main/java/com/railse/hiring/workforcemgmt/service/impl/TaskManagementServiceImpl.java:89-90 | the loop reports a missing id exactly when some item names an absent id, and the id it reports is absent |
| `Updates.UpdatesStopAtFirstMissing` | src/main/java/com/railse/hiring/workforcemgmt/service/impl/TaskManagementServiceImpl.java:88-102 | when item k is the first naming an absent id, the call fails with that id and the store keeps exactly the updates of the items before k |
| `Updates.UpdatesAppendHistory` | src/main/java/com/railse/hiring/workforcemgmt/service/impl/TaskManagementServiceImpl.java:93-101 | when all ids are present, each record gains exactly one history entry per item naming it, keeps its earlier entries, changes only status, description and history, and is unchanged when no item names it |
| `Updates.UpdateResult` | src/main/java/com/railse/hiring/workforcemgmt/service/impl/TaskManagementServiceImpl.java:101-103 | the call succeeds exactly when every item names a stored id; a failure is NotFound of an absent id; a success lists one record per item, the final record behind that item's id |
| `Reassignment.OpenOfKind` | src/main/java/com/railse/hiring/workforcemgmt/service/impl/TaskManagementServiceImpl.java:114-116 | the open ids of a kind are ids of stored records |
| `Reassignment.OpenOfKindMember` | src/main/java/com/railse/hiring/workforcemgmt/service/impl/TaskManagementServiceImpl.java:114-116 | an id is open for a kind exactly when it is one of the reference's ids and its record is of the kind and not COMPLETED (CANCELLED records included) |
| `Reassignment.OpenOfKindDistinct` | src/main/java/com/railse/hiring/workforcemgmt/service/impl/TaskManagementServiceImpl.java:114-116 | the open set names each record at most once |
| `Reassignment.FirstMatch` | src/main/java/com/railse/hiring/workforcemgmt/service/impl/TaskManagementServiceImpl.java:120-130 | the position of the first open record already held by the new assignee: every earlier one has another assignee, and the one there (if any) has this assignee |
| `Reassignment.Walk` | src/main/java/com/railse/hiring/workforcemgmt/service/impl/TaskManagementServiceImpl.java:120-131 | the inner loop neither adds nor removes records |
| `Reassignment.AssignKind` | src/main/java/com/railse/hiring/workforcemgmt/service/impl/TaskManagementServiceImpl.java:114-159 | one kind's pass adds exactly one record unless it ends the call, and then adds none |
| `Reassignment.AssignKinds` | src/main/java/com/railse/hiring/workforcemgmt/service/impl/TaskManagementServiceImpl.java:113-160 | the outer loop adds at most one record per applicable kind |
| `Reassignment.Assign` | src/main/java/com/railse/hiring/workforcemgmt/service/impl/TaskManagementServiceImpl.java:108-163 | assignByReference over the store: it keeps every existing record and adds at most one record per applicable kind |
| `Reassignment.WalkStopsAtMatch` | src/main/java/com/railse/hiring/workforcemgmt/service/impl/TaskManagementServiceImpl.java:120-131 | the inner loop stops early exactly when some open record is already held by the new assignee |
| `Reassignment.WalkCancels` | src/main/java/com/railse/hiring/workforcemgmt/service/impl/TaskManagementServiceImpl.java:121-127 | every open record before the first match is cancelled, with one history entry |
| `Reassignment.WalkKeeps` | src/main/java/com/railse/hiring/workforcemgmt/service/impl/TaskManagementServiceImpl.java:120-131 | the matching record, the open records after it and every other record are untouched |
| `Reassignment.AssignKindStopsOrCreates` | src/main/java/com/railse/hiring/workforcemgmt/service/impl/TaskManagementServiceImpl.java:118-159 | a pass ends the call exactly when an open record of the kind already has the assignee; otherwise it appends a new ASSIGNED record for the assignee, "created and assigned" when nothing was open and "reassigned" when something was |
| `Reassignment.AssignKindCancels` | src/main/java/com/railse/hiring/workforcemgmt/service/impl/TaskManagementServiceImpl.java:121-126 | in a pass, each open record before the first match is cancelled |
| `Reassignment.AssignKindKeeps` | src/main/java/com/railse/hiring/workforcemgmt/service/impl/TaskManagementServiceImpl.java:113-160 | in a pass, every existing record other than those is unchanged |
| `Reassignment.AssignKindRecord` | src/main/java/com/railse/hiring/workforcemgmt/service/impl/TaskManagementServiceImpl.java:113-160 | a pass changes an existing record only by cancelling a record of the reference that is not COMPLETED, keeping its other fields and earlier history |
| `Reassignment.AssignKindsRecord` | src/main/java/com/railse/hiring/workforcemgmt/service/impl/TaskManagementServiceImpl.java:113-160 | the same holds across all passes |
| `Reassignment.AssignKindsOutcome` | src/main/java/com/railse/hiring/workforcemgmt/service/impl/TaskManagementServiceImpl.java:128-162 | the call reports "already assigned" exactly when it created fewer records than kinds, and otherwise reports success for the request's reference |
| `Reassignment.AssignKindCreates` | src/main/java/com/railse/hiring/workforcemgmt/service/impl/TaskManagementServiceImpl.java:134-158 | a pass that does not end the call appends a new ASSIGNED record of its kind for the assignee under the next id |
| `Reassignment.AssignKindsCreates` | src/main/java/com/railse/hiring/workforcemgmt/service/impl/TaskManagementServiceImpl.java:113-160 | the j-th record created is such a record for the j-th applicable kind |
| `Reassignment.AssignKindCancelsAll` | src/main/java/com/railse/hiring/workforcemgmt/service/impl/TaskManagementServiceImpl.java:118-145 | a pass that does not end the call cancels every open record of its kind |
| `Reassignment.AssignKindsCancelsOpen` | src/main/java/com/railse/hiring/workforcemgmt/service/impl/TaskManagementServiceImpl.java:113-162 | a successful call cancels every record of the reference that is of an applicable kind and not COMPLETED |
| `Reassignment.AssignKindOnlyItsKind` | src/main/java/com/railse/hiring/workforcemgmt/service/impl/TaskManagementServiceImpl.java:113-160 | a pass leaves every record of another kind unchanged |
| `Reassignment.AssignKindsOnlyTheirKinds` | src/main/java/com/railse/hiring/workforcemgmt/service/impl/TaskManagementServiceImpl.java:113-160 | the passes leave every record of a kind they do not visit unchanged |
| `Reassignment.AssignKindsStopAt` | src/main/java/com/railse/hiring/workforcemgmt/service/impl/TaskManagementServiceImpl.java:113-131 | when the passes over the first k kinds run to the end and the pass for kind k meets the assignee, the call ends there with "already assigned" and the store that pass leaves |
| `Reassignment.AssignKindsStopIndex` | src/main/java/com/railse/hiring/workforcemgmt/service/impl/TaskManagementServiceImpl.java:113-131 | conversely, a call ending in "already assigned" after creating c records ended in the pass for kind c, after the passes over the first c kinds had run to the end |
| `Reassignment.AssignKindsCancelsOnce` | src/main/java/com/railse/hiring/workforcemgmt/service/impl/TaskManagementServiceImpl.java:113-162 | with distinct kinds, a successful call leaves each open record of an applicable kind cancelled exactly once: CANCELLED with one more history entry |
| `Reassignment.AssignChangesOnlyByCancelling` | src/main/java/com/railse/hiring/workforcemgmt/service/impl/TaskManagementServiceImpl.java:108-163 | assignByReference never changes a COMPLETED record or a record of another reference, and changes any other existing record only by cancelling it |
| `Reassignment.AssignCreatesOnePerKind` | src/main/java/com/railse/hiring/workforcemgmt/service/impl/TaskManagementServiceImpl.java:108-163 | success means one new ASSIGNED record per applicable kind, in kind order, for the new assignee; "already assigned" means fewer |
| `Reassignment.AssignSettles` | src/main/java/com/railse/hiring/workforcemgmt/service/impl/TaskManagementServiceImpl.java:108-163 | after a successful call every non-COMPLETED record of the reference of an applicable kind is CANCELLED or newly created for the assignee |
| `Reassignment.AssignStopsInOnePass` | src/main/java/com/railse/hiring/workforcemgmt/service/impl/TaskManagementServiceImpl.java:108-131 | an "already assigned" call after c created records is the successful call on the first c kinds followed by the pass for kind c, which met the assignee |
| `Reassignment.AssignStopKeepsAndCancels` | src/main/java/com/railse/hiring/workforcemgmt/service/impl/TaskManagementServiceImpl.java:108-131 | after such a call, records of kinds not visited are unchanged, and every open record of the reference of a kind visited before kind c is CANCELLED |
| `Reassignment.AssignCancelsOpenOnce` | src/main/java/com/railse/hiring/workforcemgmt/service/impl/TaskManagementServiceImpl.java:108-163 | with distinct applicable kinds, a successful call turns each open record of the reference of an applicable kind into exactly that record cancelled once |
| `Reassignment.AssignTwiceStops` | src/main/java/com/railse/hiring/workforcemgmt/service/impl/TaskManagementServiceImpl.java:115-129 | when there is at least one applicable kind, repeating a successful request reports "already assigned" and creates no record; the second call ends in the pass for the first kind |
| `Reassignment.AssignTwiceOnlyRecancels` | src/main/java/com/railse/hiring/workforcemgmt/service/impl/TaskManagementServiceImpl.java:114-129 | the repeated request leaves each record as it was, except that a CANCELLED record may gain one more "cancelled" entry |
| `Scenarios.ReassignScenario` | src/main/java/com/railse/hiring/workforcemgmt/service/impl/TaskManagementServiceImpl.java:113-162 | reassigning Alice's task of reference 100 to Bob cancels it (history grows to two) and creates one ASSIGNED task for Bob with id 2 and one history entry, reporting success for reference 100 |
| `Scenarios.AfterReassignBothOpen` | src/main/java/com/railse/hiring/workforcemgmt/service/impl/TaskManagementServiceImpl.java:114-116 | after that, both the CANCELLED task and Bob's task are open for the kind |
| `Scenarios.RepeatedReassignScenario` | src/main/java/com/railse/hiring/workforcemgmt/service/impl/TaskManagementServiceImpl.java:114-129 | repeating the request reports "already assigned", creates nothing, and cancels the CANCELLED task once more |
| `Service.TaskManagementService.constructor` | src/main/java/com/railse/hiring/workforcemgmt/service/impl/TaskManagementServiceImpl.java:28-31 | the service works on the repository it is given |
| `Service.TaskManagementService.FindTaskById` | src/main/java/com/railse/hiring/workforcemgmt/service/impl/TaskManagementServiceImpl.java:35-39 | succeeds exactly when the id is stored, returning that record; fails with NotFound otherwise |
| `Service.TaskManagementService.FetchByPriority` | src/main/java/com/railse/hiring/workforcemgmt/service/impl/TaskManagementServiceImpl.java:42-50 | lists exactly the stored records with the priority, in store order, and changes nothing |
| `Service.TaskManagementService.UpdatePriority` | src/main/java/com/railse/hiring/workforcemgmt/service/impl/TaskManagementServiceImpl.java:53-61 | fails with NotFound leaving the store as it was, or saves and returns the record with the new priority and one more entry, every other record unchanged |
| `Service.TaskManagementService.AddComment` | src/main/java/com/railse/hiring/workforcemgmt/service/impl/TaskManagementServiceImpl.java:188-200 | fails with NotFound leaving the store as it was, or saves and returns the record with the comment and one more entry, every other record unchanged |
| `Service.TaskManagementService.CreateTasks` | src/main/java/com/railse/hiring/workforcemgmt/service/impl/TaskManagementServiceImpl.java:65-82 | appends one record per item, in order and without deduplication, each ASSIGNED with the default description, the item's fields, no comments, one history entry and a fresh id; returns them |
| `Service.TaskManagementService.UpdateTasks` | src/main/java/com/railse/hiring/workforcemgmt/service/impl/TaskManagementServiceImpl.java:86-104 | the store and the result are those of `ApplyUpdates` and `UpdateResult`: NotFound for the first absent id with earlier updates kept, otherwise the final records named by the items |
| `Service.TaskManagementService.UpdateOne` | src/main/java/com/railse/hiring/workforcemgmt/service/impl/TaskManagementServiceImpl.java:89-101 | one item: reports whether the id is stored and, when it is, saves the updated record in its place |
| `Service.TaskManagementService.AssignByReference` | src/main/java/com/railse/hiring/workforcemgmt/service/impl/TaskManagementServiceImpl.java:108-163 | the store afterwards and the reported outcome are those of `Assign`, about which the lemmas above are proved |
| `Service.TaskManagementService.ReassignKind` | src/main/java/com/railse/hiring/workforcemgmt/service/impl/TaskManagementServiceImpl.java:118-145 | the walk over a kind's non-empty open set leaves the store of `AssignKind` and reports "already assigned" exactly when it met the assignee |
| `Service.TaskManagementService.FetchTasksByDate` | src/main/java/com/railse/hiring/workforcemgmt/service/impl/TaskManagementServiceImpl.java:167-184 | the date filter over the given assignees' records; on success a record is listed exactly when it is stored, has one of the assignees and satisfies the window rule |

## Left out

- The mapper and the DTO types are not modelled. Operations return the records
  themselves. `TaskManagementDto.java` is pure data shape, and the mapper is a call into
  code that is not part of this model.
- The service interface `TaskManagementService.java` lists signatures only.
- Spring wiring is not modelled.
- `TaskRepository` is not part of this model. Its behaviour is taken as:
  - records held in id order;
  - ids handed out from 1 by `save`;
  - `findAll` being the stored records in that order;
  - the finders returning records in store order.
- The Java lists of shared record objects are modelled by ids that are re-read from the
  store. Every change is saved at once, so the two cannot differ.
- `Task.getTasksByReferenceType` is not part of this model. The kinds it lists for the
  request's reference type are a parameter of assignByReference.
- The `Task` and `ReferenceType` enumerations are known only by their ordinals, because
  their constants are not part of this model.
- Each call takes a single time parameter `now`. Java reads the clock afresh for every
  history entry and comment.
- Exception messages are not modelled. The `NotFound` error carries the missing id.
- A null assignee id, a null reference id and a null priority argument are not
  modelled; ids and priorities are always present. With a null priority, Java's
  fetchByPriority would list the records without a priority.
- Arithmetic is unbounded. Java `long` overflow of ids and timestamps is not modelled.
- Concurrent calls are not modelled. The service has no locking: two concurrent
  reassignments of one reference can both cancel and both create.
- `Queries.ByPriority`'s own contract only bounds the length. Its exact membership is
  proved separately in `Queries.ByPriorityMembers`.
- `Queries.ByDate`'s own contract only names the error. Its exact meaning is proved
  separately in `Queries.ByDateListsDue`.
- `Updates.ApplyUpdates`'s own contract only keeps the length of the store. What the loop
  does is proved in `Updates.ApplyUpdatesReportsMissing`, `Updates.UpdatesStopAtFirstMissing`
  and `Updates.UpdatesAppendHistory`.
- `Reassignment.OpenOfKind`'s own contract only says its ids are stored. Its exact
  membership is proved in `Reassignment.OpenOfKindMember` and `Reassignment.OpenOfKindDistinct`.
- `Reassignment.Walk`'s own contract only keeps the length of the store. What it does is
  proved in `Reassignment.WalkStopsAtMatch`, `Reassignment.WalkCancels` and
  `Reassignment.WalkKeeps`.
- `Reassignment.AssignKind`'s own contract only counts the records it adds. What a pass
  does is proved in `Reassignment.AssignKindStopsOrCreates`, `Reassignment.AssignKindCancels`,
  `Reassignment.AssignKindKeeps`, `Reassignment.AssignKindRecord` and
  `Reassignment.AssignKindCreates`.
- `Reassignment.AssignKinds`'s own contract only bounds the records it adds. What the
  outer loop does is proved in `Reassignment.AssignKindsRecord`, `Reassignment.AssignKindsOutcome`,
  `Reassignment.AssignKindsCreates`, `Reassignment.AssignKindsCancelsOpen` and
  `Reassignment.AssignKindsStopAt`.
- `Reassignment.Assign`'s own contract only bounds the records it adds. Its meaning is
  proved in the `Reassignment.Assign…` lemmas listed above.
- The `Priority` enumeration is taken as HIGH, MEDIUM and LOW, and `PriorityName` as the
  constant's name. `Priority.java` is not part of this model.
