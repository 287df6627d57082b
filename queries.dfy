/** The two listing filters of the service. Both are pure stream filters over what the
    repository returns. */
module Queries {
  import opened Wrappers
  import opened Model

  /** fetchByPriority's filter: the records whose priority is `p`. A record without a
      priority never matches. */
  function ByPriority(tasks: seq<TaskRecord>, p: Priority): (r: seq<TaskRecord>)
    ensures |r| <= |tasks|
  {
    if tasks == [] then []
    else (if tasks[0].priority == Some(p) then [tasks[0]] else []) + ByPriority(tasks[1..], p)
  }

  /** The priority filter lists exactly the records whose priority is `p`. */
  lemma {:induction false} ByPriorityMembers(tasks: seq<TaskRecord>, p: Priority)
    ensures forall t :: t in ByPriority(tasks, p) <==> t in tasks && t.priority == Some(p)
    decreases |tasks|
  {
    if tasks != [] {
      ByPriorityMembers(tasks[1..], p);
      assert forall t :: t in tasks <==> t == tasks[0] || t in tasks[1..];
    }
  }

  /** The priority filter keeps the order of its input: filtering a concatenation is
      concatenating the filtered parts. */
  lemma {:induction false} ByPriorityKeepsOrder(a: seq<TaskRecord>, b: seq<TaskRecord>, p: Priority)
    ensures ByPriority(a + b, p) == ByPriority(a, p) + ByPriority(b, p)
    decreases |a|
  {
    if a == [] {
      assert a + b == b;
    } else {
      assert (a + b)[0] == a[0] && (a + b)[1..] == a[1..] + b;
      ByPriorityKeepsOrder(a[1..], b, p);
    }
  }

  /** The date-window rule for one record: not CANCELLED, and its deadline either lies in
      `[start, end]` or lies before `start` while the record is not COMPLETED. */
  predicate Due(t: TaskRecord, start: int, end: int)
  {
    t.status != CANCELLED && t.deadline.Some? &&
    ((start <= t.deadline.value && t.deadline.value <= end) ||
     (t.deadline.value < start && t.status != COMPLETED))
  }

  /** fetchTasksByDate's filter, element by element in stream order. The condition
      compares the deadline of every record that is not CANCELLED, so a record of that
      kind without a deadline makes the whole listing throw. */
  function ByDate(tasks: seq<TaskRecord>, start: int, end: int): (r: Result<seq<TaskRecord>, Error>)
    ensures r.Failure? ==> r.error == NullDeadline
  {
    if tasks == [] then Success([])
    else
      var t := tasks[0];
      if t.status != CANCELLED && t.deadline == None then Failure(NullDeadline)
      else
        match ByDate(tasks[1..], start, end)
        case Failure(e) => Failure(e)
        case Success(rest) => Success((if Due(t, start, end) then [t] else []) + rest)
  }

  /** The listing fails exactly when some record that is not CANCELLED has no deadline;
      otherwise it lists exactly the records that satisfy the window rule. In particular
      a CANCELLED record is never listed. */
  lemma {:induction false} ByDateListsDue(tasks: seq<TaskRecord>, start: int, end: int)
    ensures ByDate(tasks, start, end).Failure? <==>
      exists t :: t in tasks && t.status != CANCELLED && t.deadline == None
    ensures ByDate(tasks, start, end).Success? ==>
      forall t :: t in ByDate(tasks, start, end).value <==> t in tasks && Due(t, start, end)
    decreases |tasks|
  {
    if tasks != [] {
      ByDateListsDue(tasks[1..], start, end);
      assert forall t :: t in tasks <==> t == tasks[0] || t in tasks[1..];
    }
  }

  /** The date filter keeps the order of its input, and fails on a concatenation exactly
      when it fails on one of the parts. */
  lemma {:induction false} ByDateKeepsOrder(a: seq<TaskRecord>, b: seq<TaskRecord>, start: int, end: int)
    ensures ByDate(a + b, start, end) ==
      if ByDate(a, start, end).Success? && ByDate(b, start, end).Success?
      then Success(ByDate(a, start, end).value + ByDate(b, start, end).value)
      else Failure(NullDeadline)
    decreases |a|
  {
    if a == [] {
      assert a + b == b;
      if ByDate(b, start, end).Success? {
        assert [] + ByDate(b, start, end).value == ByDate(b, start, end).value;
      }
    } else {
      assert (a + b)[0] == a[0] && (a + b)[1..] == a[1..] + b;
      ByDateKeepsOrder(a[1..], b, start, end);
      var head := if Due(a[0], start, end) then [a[0]] else [];
      var ra, rb := ByDate(a[1..], start, end), ByDate(b, start, end);
      if !(a[0].status != CANCELLED && a[0].deadline == None) && ra.Success? && rb.Success? {
        assert ByDate(a[1..] + b, start, end) == Success(ra.value + rb.value);
        assert ByDate(a, start, end) == Success(head + ra.value);
        assert ByDate(a + b, start, end) == Success(head + (ra.value + rb.value));
        assert head + (ra.value + rb.value) == (head + ra.value) + rb.value;
      }
    }
  }

  /** With an inverted window (`end < start`) only overdue records that are still open
      are listed. */
  lemma InvertedWindowListsOnlyOverdue(tasks: seq<TaskRecord>, start: int, end: int)
    requires end < start
    requires ByDate(tasks, start, end).Success?
    ensures forall t :: t in ByDate(tasks, start, end).value ==>
      t.deadline.Some? && t.deadline.value < start && t.status in {ASSIGNED, STARTED}
  {
    ByDateListsDue(tasks, start, end);
  }

  function Sample(id: int, status: TaskStatus, deadline: int): TaskRecord
  {
    TaskRecord(id, 100, ReferenceType(0), TaskKind(0), None, status, 7, Some(deadline), None, [], [])
  }

  /** Four records of one assignee against the window [10, 20]: the open record that is
      overdue and the open record due at the end of the window are listed; the COMPLETED
      overdue one and the CANCELLED one due inside the window are not. */
  lemma WindowExample()
    ensures ByDate([Sample(1, ASSIGNED, 9), Sample(2, COMPLETED, 9), Sample(3, CANCELLED, 10), Sample(4, ASSIGNED, 20)], 10, 20)
         == Success([Sample(1, ASSIGNED, 9), Sample(4, ASSIGNED, 20)])
  {
    var t1, t2, t3, t4 := Sample(1, ASSIGNED, 9), Sample(2, COMPLETED, 9), Sample(3, CANCELLED, 10), Sample(4, ASSIGNED, 20);
    assert [t4][1..] == [];
    assert Due(t4, 10, 20) && !Due(t3, 10, 20) && !Due(t2, 10, 20) && Due(t1, 10, 20);
    assert ByDate([], 10, 20) == Success([]);
    assert [t4] + [] == [t4];
    assert ByDate([t4], 10, 20) == Success([t4]);
    assert [t3, t4][1..] == [t4];
    assert [] + [t4] == [t4];
    assert ByDate([t3, t4], 10, 20) == Success([t4]);
    assert [t2, t3, t4][1..] == [t3, t4];
    assert ByDate([t2, t3, t4], 10, 20) == Success([t4]);
    assert [t1, t2, t3, t4][1..] == [t2, t3, t4];
    assert [t1] + [t4] == [t1, t4];
    assert ByDate([t1, t2, t3, t4], 10, 20) == Success([t1, t4]);
  }
}
