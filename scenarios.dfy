/** Concrete runs of assignByReference on a one-record store. */
module Scenarios {
  import opened Wrappers
  import opened Model
  import opened Lifecycle
  import opened Store
  import opened Reassignment

  const Order := ReferenceType(0)
  const ShipmentCheck := TaskKind(0)
  const Alice := 1
  const Bob := 2

  /** A task of reference (100, ORDER) held by Alice, as createTasks leaves it. */
  function AliceTask(): TaskRecord
  {
    TaskRecord(1, 100, Order, ShipmentCheck, Some(DefaultDescription), ASSIGNED, Alice, Some(50), Some(HIGH),
               [], [ActivityLog(CreatedMessage, 1)])
  }

  /** Reassigning the reference to Bob cancels Alice's task, with one more history entry,
      and creates one ASSIGNED task for Bob under the next id. */
  lemma ReassignScenario()
    ensures Assign([AliceTask()], AssignRequest(100, Order, Bob), [ShipmentCheck], 10) ==
            ([Cancelled(AliceTask(), 10),
              Replacement(2, AssignRequest(100, Order, Bob), ShipmentCheck, ReassignedMessage, 10)],
             AssignedForReference(100))
  {
    var s := [AliceTask()];
    var req := AssignRequest(100, Order, Bob);
    assert s[..0] == [];
    assert ReferenceIds(s, 100, Order) == [1];
    assert OpenOfKind(s, [1], ShipmentCheck) == [1];
    var w := s[0 := Cancelled(AliceTask(), 10)];
    assert Walk(s, [1], Bob, 10) == (w, false);
    var next := w + [Replacement(2, req, ShipmentCheck, ReassignedMessage, 10)];
    assert AssignKind(s, [1], req, ShipmentCheck, 10) == (next, false);
    assert [ShipmentCheck][0] == ShipmentCheck && [ShipmentCheck][1..] == [];
    assert AssignKinds(next, [1], req, [], 10) == (next, AssignedForReference(100));
    assert AssignKinds(s, [1], req, [ShipmentCheck], 10) == (next, AssignedForReference(100));
    assert next == [Cancelled(AliceTask(), 10), Replacement(2, req, ShipmentCheck, ReassignedMessage, 10)];
  }

  /** The store after `ReassignScenario`. */
  function AfterReassign(): seq<TaskRecord>
  {
    [Cancelled(AliceTask(), 10), Replacement(2, AssignRequest(100, Order, Bob), ShipmentCheck, ReassignedMessage, 10)]
  }

  /** In that store both records belong to the reference and both are open: the CANCELLED
      one is not excluded. */
  lemma AfterReassignBothOpen()
    ensures ReferenceIds(AfterReassign(), 100, Order) == [1, 2]
    ensures OpenOfKind(AfterReassign(), [1, 2], ShipmentCheck) == [1, 2]
  {
    var s1 := AfterReassign();
    assert s1[..1] == [s1[0]] && s1[..1][..0] == [];
    assert ReferenceIds(s1[..1], 100, Order) == [1];
    assert OpenOfKind(s1, [2], ShipmentCheck) == [2];
  }

  /** Repeating the same request reports "already assigned" and creates nothing, yet the
      CANCELLED task, which comes first in the store and has another assignee, is cancelled
      again and gains a second "cancelled" entry. */
  lemma RepeatedReassignScenario()
    ensures Assign(AfterReassign(), AssignRequest(100, Order, Bob), [ShipmentCheck], 20) ==
            ([Cancelled(Cancelled(AliceTask(), 10), 20), AfterReassign()[1]], AlreadyAssigned)
  {
    var req := AssignRequest(100, Order, Bob);
    var s1 := AfterReassign();
    AfterReassignBothOpen();
    var w := s1[0 := Cancelled(s1[0], 20)];
    assert Walk(w, [2], Bob, 20) == (w, true);
    assert Walk(s1, [1, 2], Bob, 20) == (w, true);
    assert AssignKind(s1, [1, 2], req, ShipmentCheck, 20) == (w, true);
    assert [ShipmentCheck][0] == ShipmentCheck;
    assert AssignKinds(s1, [1, 2], req, [ShipmentCheck], 20) == (w, AlreadyAssigned);
    assert w == [Cancelled(Cancelled(AliceTask(), 10), 20), s1[1]];
  }
}
