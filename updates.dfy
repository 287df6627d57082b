/** updateTasks: a partial update applied item by item, each saved at once. */
module Updates {
  import opened Wrappers
  import opened Model
  import opened Lifecycle
  import opened Store

  /** The ids an update request names, in request order. */
  function TaskIds(items: seq<UpdateItem>): (ids: seq<int>)
    ensures |ids| == |items| && forall k :: 0 <= k < |items| ==> ids[k] == items[k].taskId
  {
    if items == [] then [] else [items[0].taskId] + TaskIds(items[1..])
  }

  /** The store after updateTasks' loop, and the first id it did not find (the loop
      throws there; the records saved before stay saved). */
  function ApplyUpdates(s: seq<TaskRecord>, items: seq<UpdateItem>, now: int): (r: (seq<TaskRecord>, Option<int>))
    ensures |r.0| == |s|
    decreases |items|
  {
    if items == [] then (s, None)
    else
      var id := items[0].taskId;
      if !Has(s, id) then (s, Some(id))
      else ApplyUpdates(s[id - 1 := Updated(s[id - 1], items[0], now)], items[1..], now)
  }

  /** The loop reports an id exactly when some item names an absent id, and the id it
      reports is absent. */
  lemma {:induction false} ApplyUpdatesReportsMissing(s: seq<TaskRecord>, items: seq<UpdateItem>, now: int)
    ensures ApplyUpdates(s, items, now).1.None? <==> forall k :: 0 <= k < |items| ==> Has(s, items[k].taskId)
    ensures ApplyUpdates(s, items, now).1.Some? ==> !Has(s, ApplyUpdates(s, items, now).1.value)
    decreases |items|
  {
    if items != [] && Has(s, items[0].taskId) {
      var id := items[0].taskId;
      ApplyUpdatesReportsMissing(s[id - 1 := Updated(s[id - 1], items[0], now)], items[1..], now);
      assert forall k :: 1 <= k < |items| ==> items[k] == items[1..][k - 1];
    }
  }

  /** One step of the loop, taken at item `i`: an absent id stops it there, a present
      one is updated and saved before the rest is applied. */
  lemma ApplyUpdatesStep(s: seq<TaskRecord>, items: seq<UpdateItem>, now: int, i: nat)
    requires i < |items|
    ensures var id := items[i].taskId;
            ApplyUpdates(s, items[i..], now) ==
            if !Has(s, id) then (s, Some(id))
            else ApplyUpdates(s[id - 1 := Updated(s[id - 1], items[i], now)], items[i + 1..], now)
  {
    assert items[i..][0] == items[i] && items[i..][1..] == items[i + 1..];
  }

  /** What updateTasks returns: NotFound for the first absent id, otherwise one record per
      item. The Java list holds the saved objects themselves and is read after the loop,
      so each entry shows its record as it is at the end (an id named twice shows both
      updates twice). */
  function UpdateResult(s: seq<TaskRecord>, items: seq<UpdateItem>, now: int): (r: Result<seq<TaskRecord>, Error>)
    ensures r.Success? <==> forall k :: 0 <= k < |items| ==> Has(s, items[k].taskId)
    ensures r.Failure? ==> r.error.NotFound? && !Has(s, r.error.id)
    ensures r.Success? ==> |r.value| == |items|
    ensures r.Success? ==>
              forall k :: 0 <= k < |items| ==> r.value[k] == ApplyUpdates(s, items, now).0[items[k].taskId - 1]
  {
    ApplyUpdatesReportsMissing(s, items, now);
    var (after, missing) := ApplyUpdates(s, items, now);
    if missing.Some? then Failure(NotFound(missing.value)) else Success(Lookup(after, TaskIds(items)))
  }

  /** The number of items that name `id`. */
  function Occurrences(items: seq<UpdateItem>, id: int): nat
  {
    if items == [] then 0 else (if items[0].taskId == id then 1 else 0) + Occurrences(items[1..], id)
  }

  /** When the k-th item is the first whose id is absent, updateTasks fails with that id
      and the store holds exactly the updates of the items before it. */
  lemma {:induction false} UpdatesStopAtFirstMissing(s: seq<TaskRecord>, items: seq<UpdateItem>, now: int, k: nat)
    requires k < |items| && !Has(s, items[k].taskId)
    requires forall p :: 0 <= p < k ==> Has(s, items[p].taskId)
    ensures ApplyUpdates(s, items, now) == (ApplyUpdates(s, items[..k], now).0, Some(items[k].taskId))
    decreases k
  {
    if k > 0 {
      var id := items[0].taskId;
      var s1 := s[id - 1 := Updated(s[id - 1], items[0], now)];
      assert items[..k][0] == items[0] && items[..k][1..] == items[1..][..k - 1];
      UpdatesStopAtFirstMissing(s1, items[1..], now, k - 1);
    } else {
      assert items[..k] == [];
    }
  }

  /** When every id is present: a record gains exactly one history entry per item that
      names it, keeps its earlier entries, and changes nothing but status, description and
      history; a record that no item names is unchanged. */
  lemma {:induction false} UpdatesAppendHistory(s: seq<TaskRecord>, items: seq<UpdateItem>, now: int, i: nat)
    requires forall k :: 0 <= k < |items| ==> Has(s, items[k].taskId)
    requires i < |s|
    ensures Extends(s[i].history, ApplyUpdates(s, items, now).0[i].history, Occurrences(items, i + 1))
    ensures ApplyUpdates(s, items, now).0[i].(status := s[i].status, description := s[i].description,
                                              history := s[i].history) == s[i]
    ensures Occurrences(items, i + 1) == 0 ==> ApplyUpdates(s, items, now).0[i] == s[i]
    decreases |items|
  {
    var after := ApplyUpdates(s, items, now).0;
    if items == [] {
      assert after[i].history[..|s[i].history|] == s[i].history;
    } else {
      var id := items[0].taskId;
      var s1 := s[id - 1 := Updated(s[id - 1], items[0], now)];
      UpdatesAppendHistory(s1, items[1..], now, i);
      UpdatedEdits(s[id - 1], items[0], now);
      if i == id - 1 {
        ExtendsTransitive(s[i].history, s1[i].history, after[i].history, 1, Occurrences(items[1..], i + 1));
      } else {
        assert s1[i] == s[i];
      }
    }
  }
}
