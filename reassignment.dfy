/** assignByReference as functions over the store. For every applicable kind, the
    records of the reference that are of that kind and not COMPLETED are walked in store
    order: each one with another assignee is cancelled, and the first one already held by
    the new assignee ends the whole call. A kind with no such record, or whose walk ends
    without a match, gets one new ASSIGNED record for the new assignee. */
module Reassignment {
  import opened Model
  import opened Lifecycle
  import opened Store

  /** The two messages assignByReference returns. */
  datatype AssignOutcome = AlreadyAssigned | AssignedForReference(referenceId: int)

  /** Among `existing`, the ids whose record is now of `kind` and not COMPLETED, in the
      order of `existing`. A CANCELLED record is among them. */
  function OpenOfKind(s: seq<TaskRecord>, existing: seq<int>, kind: TaskKind): (open: seq<int>)
    requires ValidIds(s, existing)
    ensures ValidIds(s, open)
    decreases |existing|
  {
    if existing == [] then []
    else
      var id := existing[0];
      (if s[id - 1].kind == kind && s[id - 1].status != COMPLETED then [id] else []) + OpenOfKind(s, existing[1..], kind)
  }

  /** An id is open exactly when it is among `existing` and its record is of the kind and
      not COMPLETED. */
  lemma {:induction false} OpenOfKindMember(s: seq<TaskRecord>, existing: seq<int>, kind: TaskKind, id: int)
    requires ValidIds(s, existing)
    ensures id in OpenOfKind(s, existing, kind) <==>
      id in existing && Has(s, id) && s[id - 1].kind == kind && s[id - 1].status != COMPLETED
    decreases |existing|
  {
    if existing != [] {
      OpenOfKindMember(s, existing[1..], kind, id);
      assert id in existing <==> id == existing[0] || id in existing[1..];
    }
  }

  /** When `existing` names each record once, so do the open ids. */
  lemma {:induction false} OpenOfKindDistinct(s: seq<TaskRecord>, existing: seq<int>, kind: TaskKind)
    requires ValidIds(s, existing) && Distinct(existing)
    ensures Distinct(OpenOfKind(s, existing, kind))
    decreases |existing|
  {
    if existing != [] {
      OpenOfKindDistinct(s, existing[1..], kind);
      OpenOfKindMember(s, existing[1..], kind, existing[0]);
      assert existing[0] !in existing[1..];
    }
  }

  /** The position in `open` of the first record already held by `assignee`, or `|open|`
      when there is none. */
  function FirstMatch(s: seq<TaskRecord>, open: seq<int>, assignee: int): (m: nat)
    requires ValidIds(s, open)
    ensures m <= |open|
    ensures forall q :: 0 <= q < m ==> s[open[q] - 1].assigneeId != assignee
    ensures m < |open| ==> s[open[m] - 1].assigneeId == assignee
    decreases |open|
  {
    if open == [] then 0
    else if s[open[0] - 1].assigneeId == assignee then 0
    else 1 + FirstMatch(s, open[1..], assignee)
  }

  /** The inner loop: cancels records until one already held by `assignee` is met; the
      flag says whether one was met. */
  function Walk(s: seq<TaskRecord>, open: seq<int>, assignee: int, now: int): (r: (seq<TaskRecord>, bool))
    requires ValidIds(s, open)
    ensures |r.0| == |s|
    decreases |open|
  {
    if open == [] then (s, false)
    else
      var t := s[open[0] - 1];
      if t.assigneeId != assignee then Walk(s[open[0] - 1 := Cancelled(t, now)], open[1..], assignee, now)
      else (s, true)
  }

  /** One pass of the outer loop, for one kind; the flag says whether the call stops here. */
  function AssignKind(s: seq<TaskRecord>, existing: seq<int>, req: AssignRequest, kind: TaskKind, now: int)
    : (r: (seq<TaskRecord>, bool))
    requires ValidIds(s, existing)
    ensures |r.0| == |s| + (if r.1 then 0 else 1)
  {
    var open := OpenOfKind(s, existing, kind);
    if open == [] then (s + [Replacement(|s| + 1, req, kind, CreatedAndAssignedMessage, now)], false)
    else
      var (after, hit) := Walk(s, open, req.assigneeId, now);
      if hit then (after, true)
      else (after + [Replacement(|s| + 1, req, kind, ReassignedMessage, now)], false)
  }

  /** The outer loop over the applicable kinds, in catalog order. */
  function AssignKinds(s: seq<TaskRecord>, existing: seq<int>, req: AssignRequest, kinds: seq<TaskKind>, now: int)
    : (r: (seq<TaskRecord>, AssignOutcome))
    requires ValidIds(s, existing)
    ensures |s| <= |r.0| <= |s| + |kinds|
    decreases |kinds|
  {
    if kinds == [] then (s, AssignedForReference(req.referenceId))
    else
      var (next, hit) := AssignKind(s, existing, req, kinds[0], now);
      if hit then (next, AlreadyAssigned) else AssignKinds(next, existing, req, kinds[1..], now)
  }

  /** assignByReference on store `s`, where `kinds` is what the catalog lists for the
      request's reference type. The records of the reference are looked up once, before
      the loop. */
  function Assign(s: seq<TaskRecord>, req: AssignRequest, kinds: seq<TaskKind>, now: int)
    : (r: (seq<TaskRecord>, AssignOutcome))
    ensures |s| <= |r.0| <= |s| + |kinds|
  {
    AssignKinds(s, ReferenceIds(s, req.referenceId, req.referenceType), req, kinds, now)
  }

  /** A record created by a reassignment for `kind`, under id `id`. */
  ghost predicate IsReplacement(t: TaskRecord, id: int, req: AssignRequest, kind: TaskKind, now: int)
  {
    t == Replacement(id, req, kind, CreatedAndAssignedMessage, now) ||
    t == Replacement(id, req, kind, ReassignedMessage, now)
  }

  lemma {:induction false} FirstMatchSameAssignees(s: seq<TaskRecord>, s': seq<TaskRecord>, open: seq<int>, assignee: int)
    requires ValidIds(s, open) && |s'| == |s|
    requires forall i :: 0 <= i < |s| ==> s'[i].assigneeId == s[i].assigneeId
    ensures FirstMatch(s', open, assignee) == FirstMatch(s, open, assignee)
    decreases |open|
  {
    if open != [] {
      FirstMatchSameAssignees(s, s', open[1..], assignee);
    }
  }

  /** The inner loop stops at a match exactly when some record it walks is already held
      by the assignee. */
  lemma {:induction false} WalkStopsAtMatch(s: seq<TaskRecord>, open: seq<int>, assignee: int, now: int)
    requires ValidIds(s, open)
    ensures Walk(s, open, assignee, now).1 <==> FirstMatch(s, open, assignee) < |open|
    decreases |open|
  {
    if open != [] && s[open[0] - 1].assigneeId != assignee {
      var s1 := s[open[0] - 1 := Cancelled(s[open[0] - 1], now)];
      WalkStopsAtMatch(s1, open[1..], assignee, now);
      FirstMatchSameAssignees(s, s1, open[1..], assignee);
    }
  }

  /** The inner loop cancels every record before the first match, with one history entry
      each. */
  lemma {:induction false} WalkCancels(s: seq<TaskRecord>, open: seq<int>, assignee: int, now: int, q: nat)
    requires ValidIds(s, open) && Distinct(open)
    requires q < FirstMatch(s, open, assignee)
    ensures Walk(s, open, assignee, now).0[open[q] - 1] == Cancelled(s[open[q] - 1], now)
    decreases |open|
  {
    var x, rest := open[0], open[1..];
    var s1 := s[x - 1 := Cancelled(s[x - 1], now)];
    assert Distinct(rest) && x !in rest;
    FirstMatchSameAssignees(s, s1, rest, assignee);
    if q == 0 {
      WalkKeeps(s1, rest, assignee, now, x - 1);
    } else {
      assert open[q] == rest[q - 1] && open[q] != x;
      WalkCancels(s1, rest, assignee, now, q - 1);
    }
  }

  /** The inner loop leaves every record other than those before the first match as it
      was: the matching record and the ones after it are not touched. */
  lemma {:induction false} WalkKeeps(s: seq<TaskRecord>, open: seq<int>, assignee: int, now: int, i: nat)
    requires ValidIds(s, open) && Distinct(open)
    requires i < |s| && i + 1 !in open[..FirstMatch(s, open, assignee)]
    ensures Walk(s, open, assignee, now).0[i] == s[i]
    decreases |open|
  {
    if open != [] && s[open[0] - 1].assigneeId != assignee {
      var x, rest := open[0], open[1..];
      var s1 := s[x - 1 := Cancelled(s[x - 1], now)];
      assert Distinct(rest);
      FirstMatchSameAssignees(s, s1, rest, assignee);
      var m := FirstMatch(s, open, assignee);
      assert open[..m] == [x] + rest[..m - 1];
      WalkKeeps(s1, rest, assignee, now, i);
    }
  }

  /** One pass of the outer loop, for one kind, where `open` are the records of the kind
      that are not COMPLETED: the pass ends the call exactly when one of them already has
      the new assignee, and otherwise appends one new ASSIGNED record for the assignee,
      "created and assigned" when `open` is empty and "reassigned" when it is not. */
  lemma AssignKindStopsOrCreates(s: seq<TaskRecord>, existing: seq<int>, req: AssignRequest, kind: TaskKind, now: int)
    requires ValidIds(s, existing)
    ensures var open := OpenOfKind(s, existing, kind);
            AssignKind(s, existing, req, kind, now).1 <==>
            exists q :: 0 <= q < |open| && s[open[q] - 1].assigneeId == req.assigneeId
    ensures var open := OpenOfKind(s, existing, kind);
            var r := AssignKind(s, existing, req, kind, now);
            !r.1 ==> r.0[|s|] == Replacement(|s| + 1, req, kind,
                                             if open == [] then CreatedAndAssignedMessage else ReassignedMessage, now)
  {
    var open := OpenOfKind(s, existing, kind);
    if open != [] {
      WalkStopsAtMatch(s, open, req.assigneeId, now);
    }
  }

  /** In one pass, every record of `open` before the first one already held by the new
      assignee is cancelled, with one history entry. */
  lemma AssignKindCancels(s: seq<TaskRecord>, existing: seq<int>, req: AssignRequest, kind: TaskKind, now: int, q: nat)
    requires ValidIds(s, existing) && Distinct(existing)
    requires q < FirstMatch(s, OpenOfKind(s, existing, kind), req.assigneeId)
    ensures var open := OpenOfKind(s, existing, kind);
            AssignKind(s, existing, req, kind, now).0[open[q] - 1] == Cancelled(s[open[q] - 1], now)
  {
    var open := OpenOfKind(s, existing, kind);
    OpenOfKindDistinct(s, existing, kind);
    WalkCancels(s, open, req.assigneeId, now, q);
    AssignKindWalks(s, existing, req, kind, now);
    var k := open[q] - 1;
    assert AssignKind(s, existing, req, kind, now).0[k] == AssignKind(s, existing, req, kind, now).0[..|s|][k];
  }

  /** The records that existed are left by a pass as its walk over the open records
      leaves them; anything else is appended after them. */
  lemma AssignKindWalks(s: seq<TaskRecord>, existing: seq<int>, req: AssignRequest, kind: TaskKind, now: int)
    requires ValidIds(s, existing)
    ensures AssignKind(s, existing, req, kind, now).0[..|s|] ==
            Walk(s, OpenOfKind(s, existing, kind), req.assigneeId, now).0
  {
  }

  /** In one pass, every other record that existed is left as it was: records of other
      kinds, COMPLETED records, the first record already held by the new assignee and
      those after it. */
  lemma AssignKindKeeps(s: seq<TaskRecord>, existing: seq<int>, req: AssignRequest, kind: TaskKind, now: int, i: nat)
    requires ValidIds(s, existing) && Distinct(existing)
    requires i < |s|
    requires i + 1 !in OpenOfKind(s, existing, kind)[..FirstMatch(s, OpenOfKind(s, existing, kind), req.assigneeId)]
    ensures AssignKind(s, existing, req, kind, now).0[i] == s[i]
  {
    var open := OpenOfKind(s, existing, kind);
    OpenOfKindDistinct(s, existing, kind);
    if open != [] {
      WalkKeeps(s, open, req.assigneeId, now, i);
    }
  }

  /** A pass changes a record that existed only by cancelling it, and only when it is a
      record of the reference. */
  lemma AssignKindRecord(s: seq<TaskRecord>, existing: seq<int>, req: AssignRequest, kind: TaskKind, now: int, i: nat)
    requires ValidIds(s, existing) && Distinct(existing)
    requires i < |s|
    ensures CancelledOrSame(s[i], AssignKind(s, existing, req, kind, now).0[i])
    ensures i + 1 !in existing ==> AssignKind(s, existing, req, kind, now).0[i] == s[i]
  {
    var open := OpenOfKind(s, existing, kind);
    OpenOfKindMember(s, existing, kind, i + 1);
    var m := FirstMatch(s, open, req.assigneeId);
    if i + 1 in open[..m] {
      var q :| 0 <= q < m && open[..m][q] == i + 1;
      assert open[q] == i + 1 && i + 1 in open;
      AssignKindCancels(s, existing, req, kind, now, q);
      CancelledEdits(s[i], now);
    } else {
      AssignKindKeeps(s, existing, req, kind, now, i);
    }
  }

  /** The same for the whole outer loop. */
  lemma {:induction false} AssignKindsRecord(s: seq<TaskRecord>, existing: seq<int>, req: AssignRequest,
                                             kinds: seq<TaskKind>, now: int, i: nat)
    requires ValidIds(s, existing) && Distinct(existing)
    requires i < |s|
    ensures CancelledOrSame(s[i], AssignKinds(s, existing, req, kinds, now).0[i])
    ensures i + 1 !in existing ==> AssignKinds(s, existing, req, kinds, now).0[i] == s[i]
    decreases |kinds|
  {
    if kinds != [] {
      var (next, hit) := AssignKind(s, existing, req, kinds[0], now);
      AssignKindRecord(s, existing, req, kinds[0], now, i);
      if !hit {
        AssignKindsRecord(next, existing, req, kinds[1..], now, i);
        CancelledOrSameTransitive(s[i], next[i], AssignKinds(s, existing, req, kinds, now).0[i]);
      }
    }
  }

  /** The outer loop reports success exactly when it appends one new record for every
      kind, and otherwise reports that the task is already assigned. */
  lemma {:induction false} AssignKindsOutcome(s: seq<TaskRecord>, existing: seq<int>, req: AssignRequest,
                                              kinds: seq<TaskKind>, now: int)
    requires ValidIds(s, existing)
    ensures var r := AssignKinds(s, existing, req, kinds, now);
            (r.1 == AlreadyAssigned <==> |r.0| < |s| + |kinds|) &&
            (r.1 != AlreadyAssigned ==> r.1 == AssignedForReference(req.referenceId))
    decreases |kinds|
  {
    if kinds != [] {
      var (next, hit) := AssignKind(s, existing, req, kinds[0], now);
      if !hit {
        AssignKindsOutcome(next, existing, req, kinds[1..], now);
      }
    }
  }

  /** A pass that does not end the call appends a new ASSIGNED record of its kind for the
      new assignee. */
  lemma AssignKindCreates(s: seq<TaskRecord>, existing: seq<int>, req: AssignRequest, kind: TaskKind, now: int)
    requires ValidIds(s, existing)
    ensures var r := AssignKind(s, existing, req, kind, now);
            !r.1 ==> IsReplacement(r.0[|s|], |s| + 1, req, kind, now)
  {
    AssignKindStopsOrCreates(s, existing, req, kind, now);
  }

  /** The first record the outer loop appends is created by the pass for the first kind
      and left alone by the later passes. */
  lemma AssignKindsCreatesFirst(s: seq<TaskRecord>, existing: seq<int>, req: AssignRequest,
                                kinds: seq<TaskKind>, now: int)
    requires ValidIds(s, existing) && Distinct(existing)
    requires kinds != [] && !AssignKind(s, existing, req, kinds[0], now).1
    ensures IsReplacement(AssignKinds(s, existing, req, kinds, now).0[|s|], |s| + 1, req, kinds[0], now)
  {
    var next := AssignKind(s, existing, req, kinds[0], now).0;
    AssignKindCreates(s, existing, req, kinds[0], now);
    assert |s| + 1 !in existing;
    AssignKindsRecord(next, existing, req, kinds[1..], now, |s|);
  }

  /** The j-th record the outer loop appends is a new ASSIGNED record of the j-th kind for
      the new assignee. */
  lemma {:induction false} AssignKindsCreates(s: seq<TaskRecord>, existing: seq<int>, req: AssignRequest,
                                              kinds: seq<TaskKind>, now: int, j: nat)
    requires ValidIds(s, existing) && Distinct(existing)
    requires j < |AssignKinds(s, existing, req, kinds, now).0| - |s|
    ensures IsReplacement(AssignKinds(s, existing, req, kinds, now).0[|s| + j], |s| + j + 1, req, kinds[j], now)
    decreases |kinds|
  {
    var (next, hit) := AssignKind(s, existing, req, kinds[0], now);
    assert !hit;
    var after := AssignKinds(next, existing, req, kinds[1..], now).0;
    assert AssignKinds(s, existing, req, kinds, now).0 == after;
    if j == 0 {
      AssignKindsCreatesFirst(s, existing, req, kinds, now);
    } else {
      assert |next| == |s| + 1;
      AssignKindsCreates(next, existing, req, kinds[1..], now, j - 1);
      assert after[|s| + j] == after[|next| + (j - 1)] && kinds[j] == kinds[1..][j - 1];
      assert IsReplacement(after[|next| + (j - 1)], |next| + (j - 1) + 1, req, kinds[1..][j - 1], now);
    }
  }

  /** A pass that does not end the call cancels every record of the reference that is of
      its kind and not COMPLETED. */
  lemma AssignKindCancelsAll(s: seq<TaskRecord>, existing: seq<int>, req: AssignRequest, kind: TaskKind, now: int, i: nat)
    requires ValidIds(s, existing) && Distinct(existing)
    requires !AssignKind(s, existing, req, kind, now).1
    requires i < |s| && i + 1 in existing && s[i].kind == kind && s[i].status != COMPLETED
    ensures AssignKind(s, existing, req, kind, now).0[i] == Cancelled(s[i], now)
  {
    var open := OpenOfKind(s, existing, kind);
    OpenOfKindMember(s, existing, kind, i + 1);
    assert i + 1 in open;
    var q :| 0 <= q < |open| && open[q] == i + 1;
    assert !Walk(s, open, req.assigneeId, now).1;
    WalkStopsAtMatch(s, open, req.assigneeId, now);
    assert q < FirstMatch(s, open, req.assigneeId);
    AssignKindCancels(s, existing, req, kind, now, q);
  }

  /** When the outer loop completes, every record of the reference that was not
      COMPLETED and is of an applicable kind has been cancelled. */
  lemma {:induction false} AssignKindsCancelsOpen(s: seq<TaskRecord>, existing: seq<int>, req: AssignRequest,
                                                  kinds: seq<TaskKind>, now: int, i: nat)
    requires ValidIds(s, existing) && Distinct(existing)
    requires AssignKinds(s, existing, req, kinds, now).1 != AlreadyAssigned
    requires i < |s| && i + 1 in existing && s[i].kind in kinds && s[i].status != COMPLETED
    ensures AssignKinds(s, existing, req, kinds, now).0[i].status == CANCELLED
    decreases |kinds|
  {
    var (next, hit) := AssignKind(s, existing, req, kinds[0], now);
    assert !hit;
    var after := AssignKinds(next, existing, req, kinds[1..], now).0;
    assert AssignKinds(s, existing, req, kinds, now).0 == after;
    AssignKindsRecord(next, existing, req, kinds[1..], now, i);
    if s[i].kind == kinds[0] {
      AssignKindCancelsAll(s, existing, req, kinds[0], now, i);
    } else {
      AssignKindRecord(s, existing, req, kinds[0], now, i);
      if next[i] == s[i] {
        assert s[i].kind in kinds[1..];
        AssignKindsCancelsOpen(next, existing, req, kinds[1..], now, i);
      }
    }
  }

  /** A pass leaves every record of another kind as it was. */
  lemma AssignKindOnlyItsKind(s: seq<TaskRecord>, existing: seq<int>, req: AssignRequest, kind: TaskKind, now: int, i: nat)
    requires ValidIds(s, existing) && Distinct(existing)
    requires i < |s| && s[i].kind != kind
    ensures AssignKind(s, existing, req, kind, now).0[i] == s[i]
  {
    var open := OpenOfKind(s, existing, kind);
    OpenOfKindMember(s, existing, kind, i + 1);
    var m := FirstMatch(s, open, req.assigneeId);
    assert i + 1 in open[..m] ==> i + 1 in open;
    AssignKindKeeps(s, existing, req, kind, now, i);
  }

  /** The outer loop leaves every record whose kind it does not visit as it was. */
  lemma {:induction false} AssignKindsOnlyTheirKinds(s: seq<TaskRecord>, existing: seq<int>, req: AssignRequest,
                                                     kinds: seq<TaskKind>, now: int, i: nat)
    requires ValidIds(s, existing) && Distinct(existing)
    requires i < |s| && s[i].kind !in kinds
    ensures AssignKinds(s, existing, req, kinds, now).0[i] == s[i]
    decreases |kinds|
  {
    if kinds != [] {
      var (next, hit) := AssignKind(s, existing, req, kinds[0], now);
      AssignKindOnlyItsKind(s, existing, req, kinds[0], now, i);
      if !hit {
        assert s[i].kind !in kinds[1..];
        AssignKindsOnlyTheirKinds(next, existing, req, kinds[1..], now, i);
      }
    }
  }

  /** When the passes over `kinds[..k]` all run to the end and the pass for `kinds[k]`
      meets a record already held by the assignee, the call ends in that pass: the store
      is what that pass leaves, and the later kinds are never visited. */
  lemma {:induction false} AssignKindsStopAt(s: seq<TaskRecord>, existing: seq<int>, req: AssignRequest,
                                             kinds: seq<TaskKind>, now: int, k: nat)
    requires ValidIds(s, existing)
    requires k < |kinds|
    requires AssignKinds(s, existing, req, kinds[..k], now).1 != AlreadyAssigned
    requires AssignKind(AssignKinds(s, existing, req, kinds[..k], now).0, existing, req, kinds[k], now).1
    ensures AssignKinds(s, existing, req, kinds, now) ==
            (AssignKind(AssignKinds(s, existing, req, kinds[..k], now).0, existing, req, kinds[k], now).0, AlreadyAssigned)
    decreases k
  {
    if k == 0 {
      assert kinds[..0] == [];
    } else {
      var (next, hit) := AssignKind(s, existing, req, kinds[0], now);
      assert kinds[..k][0] == kinds[0] && kinds[..k][1..] == kinds[1..][..k - 1];
      assert !hit;
      assert kinds[1..][k - 1] == kinds[k];
      AssignKindsStopAt(next, existing, req, kinds[1..], now, k - 1);
    }
  }

  /** Conversely, a call that reports "already assigned" after creating `c` records ended
      in the pass for `kinds[c]`, after the passes over `kinds[..c]` had run to the end. */
  lemma {:induction false} AssignKindsStopIndex(s: seq<TaskRecord>, existing: seq<int>, req: AssignRequest,
                                                kinds: seq<TaskKind>, now: int)
    requires ValidIds(s, existing)
    requires AssignKinds(s, existing, req, kinds, now).1 == AlreadyAssigned
    ensures var c := |AssignKinds(s, existing, req, kinds, now).0| - |s|;
            c < |kinds| &&
            AssignKinds(s, existing, req, kinds[..c], now).1 != AlreadyAssigned &&
            AssignKind(AssignKinds(s, existing, req, kinds[..c], now).0, existing, req, kinds[c], now).1
    decreases |kinds|
  {
    var (next, hit) := AssignKind(s, existing, req, kinds[0], now);
    if hit {
      assert kinds[..0] == [];
    } else {
      assert AssignKinds(s, existing, req, kinds, now) == AssignKinds(next, existing, req, kinds[1..], now);
      assert |next| == |s| + 1;
      AssignKindsStopIndex(next, existing, req, kinds[1..], now);
      var c := |AssignKinds(s, existing, req, kinds, now).0| - |s|;
      assert kinds[..c][0] == kinds[0] && kinds[..c][1..] == kinds[1..][..c - 1];
      assert kinds[1..][c - 1] == kinds[c];
    }
  }

  /** When every applicable kind is listed once, a successful call cancels each open
      record of the reference exactly once: one history entry, nothing else changed. */
  lemma {:induction false} AssignKindsCancelsOnce(s: seq<TaskRecord>, existing: seq<int>, req: AssignRequest,
                                                  kinds: seq<TaskKind>, now: int, i: nat)
    requires ValidIds(s, existing) && Distinct(existing) && Distinct(kinds)
    requires AssignKinds(s, existing, req, kinds, now).1 != AlreadyAssigned
    requires i < |s| && i + 1 in existing && s[i].kind in kinds && s[i].status != COMPLETED
    ensures AssignKinds(s, existing, req, kinds, now).0[i] == Cancelled(s[i], now)
    decreases |kinds|
  {
    var (next, hit) := AssignKind(s, existing, req, kinds[0], now);
    assert !hit;
    assert AssignKinds(s, existing, req, kinds, now) == AssignKinds(next, existing, req, kinds[1..], now);
    assert Distinct(kinds[1..]);
    if s[i].kind == kinds[0] {
      AssignKindCancelsAll(s, existing, req, kinds[0], now, i);
      assert s[i].kind !in kinds[1..];
      AssignKindsOnlyTheirKinds(next, existing, req, kinds[1..], now, i);
    } else {
      AssignKindOnlyItsKind(s, existing, req, kinds[0], now, i);
      AssignKindsCancelsOnce(next, existing, req, kinds[1..], now, i);
    }
  }

  /** assignByReference changes a record that existed only by cancelling it: a COMPLETED
      record, and every record of another reference, is left as it was; a cancelled record
      keeps its other fields and its earlier history. */
  lemma AssignChangesOnlyByCancelling(s: seq<TaskRecord>, req: AssignRequest, kinds: seq<TaskKind>, now: int, i: nat)
    requires i < |s|
    ensures CancelledOrSame(s[i], Assign(s, req, kinds, now).0[i])
    ensures s[i].status == COMPLETED ==> Assign(s, req, kinds, now).0[i] == s[i]
    ensures !OfReference(s[i], req.referenceId, req.referenceType) ==> Assign(s, req, kinds, now).0[i] == s[i]
  {
    AssignKindsRecord(s, ReferenceIds(s, req.referenceId, req.referenceType), req, kinds, now, i);
  }

  /** assignByReference reports success exactly when it creates one new record per
      applicable kind, and "already assigned" exactly when it creates fewer. The j-th new
      record is an ASSIGNED record of the j-th kind for the new assignee, under the next
      free id. */
  lemma AssignCreatesOnePerKind(s: seq<TaskRecord>, req: AssignRequest, kinds: seq<TaskKind>, now: int)
    ensures var r := Assign(s, req, kinds, now);
            (r.1 == AlreadyAssigned <==> |r.0| < |s| + |kinds|) &&
            (r.1 != AlreadyAssigned ==> r.1 == AssignedForReference(req.referenceId))
    ensures var r := Assign(s, req, kinds, now);
            forall j :: 0 <= j < |r.0| - |s| ==> IsReplacement(r.0[|s| + j], |s| + j + 1, req, kinds[j], now)
  {
    var existing := ReferenceIds(s, req.referenceId, req.referenceType);
    AssignKindsOutcome(s, existing, req, kinds, now);
    var r := Assign(s, req, kinds, now);
    forall j | 0 <= j < |r.0| - |s|
      ensures IsReplacement(r.0[|s| + j], |s| + j + 1, req, kinds[j], now)
    {
      AssignKindsCreates(s, existing, req, kinds, now, j);
    }
  }

  /** After a successful assignByReference, every record of the reference that is of an
      applicable kind and not COMPLETED is either CANCELLED or one of the records the call
      created, ASSIGNED to the new assignee. */
  lemma AssignSettles(s: seq<TaskRecord>, req: AssignRequest, kinds: seq<TaskKind>, now: int, i: nat)
    requires Assign(s, req, kinds, now).1 != AlreadyAssigned
    requires i < |Assign(s, req, kinds, now).0|
    requires var t := Assign(s, req, kinds, now).0[i];
             OfReference(t, req.referenceId, req.referenceType) && t.kind in kinds && t.status != COMPLETED
    ensures var t := Assign(s, req, kinds, now).0[i];
            t.status == CANCELLED || (|s| <= i && t.status == ASSIGNED && t.assigneeId == req.assigneeId)
  {
    var existing := ReferenceIds(s, req.referenceId, req.referenceType);
    var after := Assign(s, req, kinds, now).0;
    if i < |s| {
      AssignKindsRecord(s, existing, req, kinds, now, i);
      if after[i] == s[i] {
        AssignKindsCancelsOpen(s, existing, req, kinds, now, i);
      }
    } else {
      AssignCreatesOnePerKind(s, req, kinds, now);
      assert IsReplacement(after[|s| + (i - |s|)], |s| + (i - |s|) + 1, req, kinds[i - |s|], now);
    }
  }

  /** An assignByReference that reports "already assigned" after creating `c` records
      ended in the pass for `kinds[c]`: the passes over `kinds[..c]` ran to the end, and
      the store is what the pass for `kinds[c]` leaves of theirs. */
  lemma AssignStopsInOnePass(s: seq<TaskRecord>, req: AssignRequest, kinds: seq<TaskKind>, now: int)
    requires Assign(s, req, kinds, now).1 == AlreadyAssigned
    ensures var r := Assign(s, req, kinds, now);
            var c := |r.0| - |s|;
            var existing := ReferenceIds(s, req.referenceId, req.referenceType);
            c < |kinds| &&
            Assign(s, req, kinds[..c], now).1 != AlreadyAssigned &&
            AssignKind(Assign(s, req, kinds[..c], now).0, existing, req, kinds[c], now).1 &&
            r.0 == AssignKind(Assign(s, req, kinds[..c], now).0, existing, req, kinds[c], now).0
  {
    var existing := ReferenceIds(s, req.referenceId, req.referenceType);
    AssignKindsStopIndex(s, existing, req, kinds, now);
    var c := |Assign(s, req, kinds, now).0| - |s|;
    AssignKindsStopAt(s, existing, req, kinds, now, c);
  }

  /** After an assignByReference that stopped in the pass for `kinds[c]`: a record of a
      kind none of the passes visited is as it was, and every open record of the
      reference of a kind visited before `kinds[c]` is CANCELLED. */
  lemma AssignStopKeepsAndCancels(s: seq<TaskRecord>, req: AssignRequest, kinds: seq<TaskKind>, now: int, i: nat)
    requires Assign(s, req, kinds, now).1 == AlreadyAssigned
    requires i < |s|
    ensures var r := Assign(s, req, kinds, now);
            var c := |r.0| - |s|;
            c < |kinds| &&
            (s[i].kind !in kinds[..c + 1] ==> r.0[i] == s[i]) &&
            ((OfReference(s[i], req.referenceId, req.referenceType) && s[i].kind in kinds[..c] &&
              s[i].status != COMPLETED) ==> r.0[i].status == CANCELLED)
  {
    var existing := ReferenceIds(s, req.referenceId, req.referenceType);
    AssignStopsInOnePass(s, req, kinds, now);
    var c := |Assign(s, req, kinds, now).0| - |s|;
    var mid := Assign(s, req, kinds[..c], now).0;
    assert |s| <= |mid|;
    if s[i].kind !in kinds[..c + 1] {
      assert kinds[..c + 1] == kinds[..c] + [kinds[c]];
      AssignKindsOnlyTheirKinds(s, existing, req, kinds[..c], now, i);
      AssignKindOnlyItsKind(mid, existing, req, kinds[c], now, i);
    }
    if OfReference(s[i], req.referenceId, req.referenceType) && s[i].kind in kinds[..c] && s[i].status != COMPLETED {
      AssignKindsCancelsOpen(s, existing, req, kinds[..c], now, i);
      AssignKindRecord(mid, existing, req, kinds[c], now, i);
    }
  }

  /** When the applicable kinds are distinct, a successful assignByReference cancels each
      open record of the reference of an applicable kind exactly once. */
  lemma AssignCancelsOpenOnce(s: seq<TaskRecord>, req: AssignRequest, kinds: seq<TaskKind>, now: int, i: nat)
    requires Distinct(kinds) && Assign(s, req, kinds, now).1 != AlreadyAssigned
    requires i < |s| && OfReference(s[i], req.referenceId, req.referenceType)
    requires s[i].kind in kinds && s[i].status != COMPLETED
    ensures Assign(s, req, kinds, now).0[i] == Cancelled(s[i], now)
  {
    AssignKindsCancelsOnce(s, ReferenceIds(s, req.referenceId, req.referenceType), req, kinds, now, i);
  }

  /** Calling assignByReference again with the same request after it succeeded reports
      "already assigned" and creates nothing: the record it created for the first kind is
      held by the assignee and not COMPLETED. */
  lemma AssignTwiceStops(s: seq<TaskRecord>, req: AssignRequest, kinds: seq<TaskKind>, now: int, later: int)
    requires kinds != [] && Assign(s, req, kinds, now).1 != AlreadyAssigned
    ensures var s1 := Assign(s, req, kinds, now).0;
            Assign(s1, req, kinds, later).1 == AlreadyAssigned && |Assign(s1, req, kinds, later).0| == |s1|
    ensures var s1 := Assign(s, req, kinds, now).0;
            var existing2 := ReferenceIds(s1, req.referenceId, req.referenceType);
            AssignKind(s1, existing2, req, kinds[0], later).1 &&
            Assign(s1, req, kinds, later).0 == AssignKind(s1, existing2, req, kinds[0], later).0
  {
    var s1 := Assign(s, req, kinds, now).0;
    AssignCreatesOnePerKind(s, req, kinds, now);
    assert IsReplacement(s1[|s| + 0], |s| + 0 + 1, req, kinds[0], now);
    var existing2 := ReferenceIds(s1, req.referenceId, req.referenceType);
    assert |s| + 1 in existing2;
    var open2 := OpenOfKind(s1, existing2, kinds[0]);
    OpenOfKindMember(s1, existing2, kinds[0], |s| + 1);
    assert |s| + 1 in open2;
    var q :| 0 <= q < |open2| && open2[q] == |s| + 1;
    AssignKindStopsOrCreates(s1, existing2, req, kinds[0], later);
    assert AssignKind(s1, existing2, req, kinds[0], later).1;
  }

  /** The second call changes no record except by cancelling again a record that is
      already CANCELLED: its status stays and one more "cancelled" entry is appended to
      its history. */
  lemma AssignTwiceOnlyRecancels(s: seq<TaskRecord>, req: AssignRequest, kinds: seq<TaskKind>, now: int, later: int, i: nat)
    requires kinds != [] && Assign(s, req, kinds, now).1 != AlreadyAssigned
    requires i < |Assign(s, req, kinds, now).0|
    ensures var s1 := Assign(s, req, kinds, now).0;
            var s2 := Assign(s1, req, kinds, later).0;
            s2[i] == s1[i] ||
            (s1[i].status == CANCELLED && s2[i] == s1[i].(history := s1[i].history + [ActivityLog(CancelledMessage, later)]))
  {
    var s1 := Assign(s, req, kinds, now).0;
    AssignTwiceStops(s, req, kinds, now, later);
    var existing2 := ReferenceIds(s1, req.referenceId, req.referenceType);
    var open2 := OpenOfKind(s1, existing2, kinds[0]);
    var m := FirstMatch(s1, open2, req.assigneeId);
    if i + 1 in open2[..m] {
      var q :| 0 <= q < m && open2[..m][q] == i + 1;
      assert open2[q] == i + 1;
      assert s1[i].assigneeId != req.assigneeId;
      OpenOfKindMember(s1, existing2, kinds[0], i + 1);
      assert i + 1 in open2;
      AssignSettles(s, req, kinds, now, i);
      AssignKindCancels(s1, existing2, req, kinds[0], later, q);
    } else {
      AssignKindKeeps(s1, existing2, req, kinds[0], later, i);
    }
  }
}
