/** The task-management service: each operation reads and saves records through the
    repository, one record at a time, in the order the service does. */
module Service {
  import opened Wrappers
  import opened Model
  import opened Lifecycle
  import opened Store
  import opened Queries
  import opened Updates
  import opened Reassignment

  class TaskManagementService {
    const repository: TaskRepository

    ghost predicate Valid()
      reads this, repository
    {
      repository.Valid()
    }

    constructor (repository: TaskRepository)
      requires repository.Valid()
      ensures this.repository == repository && Valid()
    {
      this.repository := repository;
    }

    /** findTaskById: the record, or NotFound for an absent id. */
    method FindTaskById(id: int) returns (r: Result<TaskRecord, Error>)
      requires Valid()
      ensures r.Success? <==> Has(repository.records, id)
      ensures r.Success? ==> r.value == repository.records[id - 1] && r.value.id == id
      ensures r.Failure? ==> r.error == NotFound(id)
    {
      var found := repository.FindById(id);
      r := if found.Some? then Success(found.value) else Failure(NotFound(id));
    }

    /** fetchByPriority: every stored record whose priority is `p`, in store order. */
    method FetchByPriority(p: Priority) returns (r: seq<TaskRecord>)
      ensures r == ByPriority(repository.records, p)
      ensures forall t :: t in r <==> t in repository.records && t.priority == Some(p)
    {
      ByPriorityMembers(repository.records, p);
      r := ByPriority(repository.records, p);
    }

    /** updatePriority: sets the priority and records the change in the history. */
    method UpdatePriority(id: int, p: Priority, now: int) returns (r: Result<TaskRecord, Error>)
      requires Valid()
      modifies repository
      ensures Valid()
      ensures !Has(old(repository.records), id) ==>
                r == Failure(NotFound(id)) && repository.records == old(repository.records)
      ensures Has(old(repository.records), id) ==>
                r == Success(WithPriority(old(repository.records)[id - 1], p, now)) &&
                repository.records == old(repository.records)[id - 1 := r.value]
    {
      var found := repository.FindById(id);
      if found.None? {
        return Failure(NotFound(id));
      }
      var saved := repository.Save(WithPriority(found.value, p, now));
      r := Success(saved);
    }

    /** addComment: appends the comment and a history entry naming its author. */
    method AddComment(id: int, message: string, user: string, now: int) returns (r: Result<TaskRecord, Error>)
      requires Valid()
      modifies repository
      ensures Valid()
      ensures !Has(old(repository.records), id) ==>
                r == Failure(NotFound(id)) && repository.records == old(repository.records)
      ensures Has(old(repository.records), id) ==>
                r == Success(WithComment(old(repository.records)[id - 1], message, user, now)) &&
                repository.records == old(repository.records)[id - 1 := r.value]
    {
      var found := repository.FindById(id);
      if found.None? {
        return Failure(NotFound(id));
      }
      var saved := repository.Save(WithComment(found.value, message, user, now));
      r := Success(saved);
    }

    /** createTasks: one new ASSIGNED record per item, saved in request order under the
        next free ids; the result lists them as saved. */
    method CreateTasks(items: seq<CreateItem>, now: int) returns (created: seq<TaskRecord>)
      requires Valid()
      modifies repository
      ensures Valid()
      ensures repository.records == old(repository.records) + created
      ensures |created| == |items|
      ensures forall k :: 0 <= k < |items| ==>
                created[k] == NewRecord(items[k], now).(id := |old(repository.records)| + k + 1)
    {
      created := [];
      for i := 0 to |items|
        invariant repository.Valid()
        invariant repository.records == old(repository.records) + created
        invariant |created| == i
        invariant forall k :: 0 <= k < i ==>
                    created[k] == NewRecord(items[k], now).(id := |old(repository.records)| + k + 1)
      {
        var saved := repository.Save(NewRecord(items[i], now));
        created := created + [saved];
      }
    }

    /** updateTasks: applies the items in order, saving each record at once; an absent id
        ends the call with NotFound and keeps what was saved before it. */
    method UpdateTasks(items: seq<UpdateItem>, now: int) returns (r: Result<seq<TaskRecord>, Error>)
      requires Valid()
      modifies repository
      ensures Valid()
      ensures repository.records == ApplyUpdates(old(repository.records), items, now).0
      ensures r == UpdateResult(old(repository.records), items, now)
    {
      ghost var start := repository.records;
      var updatedIds: seq<int> := [];
      for i := 0 to |items|
        invariant repository.Valid()
        invariant |repository.records| == |start|
        invariant ApplyUpdates(start, items, now) == ApplyUpdates(repository.records, items[i..], now)
        invariant |updatedIds| == i && forall k :: 0 <= k < i ==> updatedIds[k] == items[k].taskId
        invariant ValidIds(repository.records, updatedIds)
      {
        ApplyUpdatesStep(repository.records, items, now, i);
        var found := UpdateOne(items[i], now);
        if !found {
          return Failure(NotFound(items[i].taskId));
        }
        updatedIds := updatedIds + [items[i].taskId];
      }
      assert items[..|items|] == items;
      assert updatedIds == TaskIds(items);
      r := Success(Lookup(repository.records, updatedIds));
    }

    /** One item of updateTasks: looks the record up and, when it is there, saves it
        updated. */
    method UpdateOne(item: UpdateItem, now: int) returns (found: bool)
      requires Valid()
      modifies repository
      ensures Valid()
      ensures found == Has(old(repository.records), item.taskId)
      ensures repository.records ==
                if found then old(repository.records)[item.taskId - 1 := Updated(old(repository.records)[item.taskId - 1], item, now)]
                else old(repository.records)
    {
      var task := repository.FindById(item.taskId);
      found := task.Some?;
      if found {
        var _ := repository.Save(Updated(task.value, item, now));
      }
    }

    /** assignByReference, with `applicableKinds` the kinds the catalog lists for the
        request's reference type: the store and the message are those of `Assign`. */
    method AssignByReference(req: AssignRequest, applicableKinds: seq<TaskKind>, now: int)
      returns (outcome: AssignOutcome)
      requires Valid()
      modifies repository
      ensures Valid()
      ensures (repository.records, outcome) == Assign(old(repository.records), req, applicableKinds, now)
    {
      ghost var start := repository.records;
      var existing := repository.FindByReference(req.referenceId, req.referenceType);
      for i := 0 to |applicableKinds|
        invariant repository.Valid()
        invariant |start| <= |repository.records|
        invariant ValidIds(repository.records, existing)
        invariant Assign(start, req, applicableKinds, now) ==
                  AssignKinds(repository.records, existing, req, applicableKinds[i..], now)
      {
        var kind := applicableKinds[i];
        assert applicableKinds[i..][0] == kind && applicableKinds[i..][1..] == applicableKinds[i + 1..];
        var open := OpenOfKind(repository.records, existing, kind);
        if open != [] {
          outcome := ReassignKind(existing, open, req, kind, now);
          if outcome == AlreadyAssigned {
            return;
          }
        } else {
          var _ := repository.Save(Replacement(Unsaved, req, kind, CreatedAndAssignedMessage, now));
        }
      }
      outcome := AssignedForReference(req.referenceId);
    }

    /** The inner loop of assignByReference for one kind whose `open` records are not
        empty: cancels them in order until one already held by the assignee, and creates a
        reassigned record if none was. Answers `AlreadyAssigned` when it stopped at a
        match, and something else otherwise. */
    method ReassignKind(existing: seq<int>, open: seq<int>, req: AssignRequest, kind: TaskKind, now: int)
      returns (outcome: AssignOutcome)
      requires Valid() && ValidIds(repository.records, existing)
      requires open == OpenOfKind(repository.records, existing, kind) && open != []
      modifies repository
      ensures Valid()
      ensures var r := AssignKind(old(repository.records), existing, req, kind, now);
              repository.records == r.0 && (outcome == AlreadyAssigned <==> r.1)
    {
      ghost var before := repository.records;
      var reassigned := false;
      for j := 0 to |open|
        invariant repository.Valid()
        invariant |repository.records| == |before|
        invariant ValidIds(repository.records, open)
        invariant Walk(before, open, req.assigneeId, now) == Walk(repository.records, open[j..], req.assigneeId, now)
        invariant reassigned == (j > 0)
      {
        var id := open[j];
        var task := repository.records[id - 1];
        assert open[j..][0] == id && open[j..][1..] == open[j + 1..];
        if task.assigneeId != req.assigneeId {
          var _ := repository.Save(Cancelled(task, now));
          reassigned := true;
        } else {
          return AlreadyAssigned;
        }
      }
      if reassigned {
        var _ := repository.Save(Replacement(Unsaved, req, kind, ReassignedMessage, now));
      }
      outcome := AssignedForReference(req.referenceId);
    }

    /** fetchTasksByDate: the window rule applied to the records of the given assignees,
        in store order. */
    method FetchTasksByDate(assigneeIds: seq<int>, start: int, end: int) returns (r: Result<seq<TaskRecord>, Error>)
      ensures r == ByDate(ByAssignees(repository.records, assigneeIds), start, end)
      ensures r.Success? ==> forall t :: t in r.value <==>
                t in repository.records && t.assigneeId in assigneeIds && Due(t, start, end)
    {
      var tasks := repository.FindByAssigneeIn(assigneeIds);
      ByDateListsDue(tasks, start, end);
      r := ByDate(tasks, start, end);
    }
  }
}
