/** The in-memory task repository: records kept in id order, ids handed out from 1. */
module Store {
  import opened Wrappers
  import opened Model

  /** The record with id `i + 1` sits at position `i`. */
  ghost predicate Stored(s: seq<TaskRecord>)
  {
    forall i :: 0 <= i < |s| ==> s[i].id == i + 1
  }

  predicate Has(s: seq<TaskRecord>, id: int)
  {
    1 <= id <= |s|
  }

  ghost predicate ValidIds(s: seq<TaskRecord>, ids: seq<int>)
  {
    forall k :: 0 <= k < |ids| ==> Has(s, ids[k])
  }

  ghost predicate Distinct<T>(xs: seq<T>)
  {
    forall i, j :: 0 <= i < j < |xs| ==> xs[i] != xs[j]
  }

  predicate OfReference(t: TaskRecord, referenceId: int, referenceType: ReferenceType)
  {
    t.referenceId == referenceId && t.referenceType == referenceType
  }

  /** Upsert: a record without an id is appended under the next id, a record with an id
      replaces the stored one. */
  function Saved(s: seq<TaskRecord>, t: TaskRecord): (r: seq<TaskRecord>)
    requires t.id == Unsaved || Has(s, t.id)
    ensures Stored(s) ==> Stored(r)
    ensures t.id == Unsaved ==> r == s + [t.(id := |s| + 1)]
    ensures t.id != Unsaved ==> |r| == |s| && r[t.id - 1] == t &&
                                forall i :: 0 <= i < |s| && i != t.id - 1 ==> r[i] == s[i]
  {
    if t.id == Unsaved then s + [t.(id := |s| + 1)] else s[t.id - 1 := t]
  }

  /** findByReferenceIdAndReferenceType: the ids of the records of one reference, in
      store order. */
  function ReferenceIds(s: seq<TaskRecord>, referenceId: int, referenceType: ReferenceType): (ids: seq<int>)
    ensures forall id :: id in ids <==> Has(s, id) && OfReference(s[id - 1], referenceId, referenceType)
    ensures ValidIds(s, ids) && Distinct(ids)
    decreases |s|
  {
    if s == [] then []
    else
      var front := ReferenceIds(s[..|s| - 1], referenceId, referenceType);
      assert |s| !in front;
      if OfReference(s[|s| - 1], referenceId, referenceType) then front + [|s|] else front
  }

  /** findByAssigneeIdIn: the records whose assignee is one of `assigneeIds`, in store
      order. */
  function ByAssignees(s: seq<TaskRecord>, assigneeIds: seq<int>): (r: seq<TaskRecord>)
    ensures forall t :: t in r <==> t in s && t.assigneeId in assigneeIds
  {
    if s == [] then []
    else (if s[0].assigneeId in assigneeIds then [s[0]] else []) + ByAssignees(s[1..], assigneeIds)
  }

  /** The current records behind a list of ids (a Java list of shared references, read
      after the records were changed). */
  function Lookup(s: seq<TaskRecord>, ids: seq<int>): (r: seq<TaskRecord>)
    requires ValidIds(s, ids)
    ensures |r| == |ids| && forall k :: 0 <= k < |ids| ==> r[k] == s[ids[k] - 1]
  {
    if ids == [] then [] else [s[ids[0] - 1]] + Lookup(s, ids[1..])
  }

  class TaskRepository {
    var records: seq<TaskRecord>

    ghost predicate Valid()
      reads this
    {
      Stored(records)
    }

    constructor (initial: seq<TaskRecord>)
      requires Stored(initial)
      ensures Valid() && records == initial
    {
      records := initial;
    }

    method FindById(id: int) returns (r: Option<TaskRecord>)
      ensures Has(records, id) ==> r == Some(records[id - 1])
      ensures !Has(records, id) ==> r == None
    {
      r := if Has(records, id) then Some(records[id - 1]) else None;
    }

    method FindByReference(referenceId: int, referenceType: ReferenceType) returns (ids: seq<int>)
      ensures ids == ReferenceIds(records, referenceId, referenceType)
    {
      ids := ReferenceIds(records, referenceId, referenceType);
    }

    method FindByAssigneeIn(assigneeIds: seq<int>) returns (r: seq<TaskRecord>)
      ensures r == ByAssignees(records, assigneeIds)
    {
      r := ByAssignees(records, assigneeIds);
    }

    method Save(t: TaskRecord) returns (saved: TaskRecord)
      requires Valid()
      requires t.id == Unsaved || Has(records, t.id)
      modifies this
      ensures Valid()
      ensures records == Saved(old(records), t)
      ensures saved == if t.id == Unsaved then t.(id := |old(records)| + 1) else t
    {
      records := Saved(records, t);
      saved := if t.id == Unsaved then t.(id := |records|) else t;
    }
  }
}
