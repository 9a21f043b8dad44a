/**
 * The state-changing part of `AutoPriorityManager` (logic/AutoPriorityManager.kt):
 * relabelling tasks in the database and re-arming their alarms. What one pass
 * over a list does to the `tasks` table, the alarm table and the "changed" flag
 * is given by `RecalculatedAll`; the lemmas say what it amounts to.
 */
module AutoPriority {
  import opened TaskModel
  import opened TaskLists
  import opened PriorityPolicy
  import opened Alarms
  import opened TaskDatabase
  import opened NotificationScheduler

  /** The tables a pass works on and whether any priority changed so far. */
  datatype Effect = Effect(tasks: TaskTable, alarms: AlarmTable, changed: bool)

  /** The task's stored label is not the one its deadline earns. */
  predicate Stale(t: Task, now: int) {
    CalculatePriority(t, now) != t.priority
  }

  /** One step of `updatePriorities` (and the whole of `updateSingleTaskPriority`): a stale
      task is rewritten with the computed label and, if a row was updated, its alarms are
      cancelled and scheduled again. */
  function Recalculated(e: Effect, t: Task, now: int): (r: Effect)
    ensures r.tasks.Keys == e.tasks.Keys
    ensures r.changed <==> e.changed || (Stale(t, now) && t.id in e.tasks)
    ensures forall id :: id in e.tasks && id != t.id ==> r.tasks[id] == e.tasks[id]
    ensures t.id in e.tasks && Stale(t, now) ==>
      && r.tasks[t.id] == UpdatedRow(e.tasks[t.id], WithPriority(t, CalculatePriority(t, now)))
      && Armed(r.alarms, t, now)
    ensures !(t.id in e.tasks && Stale(t, now)) ==> r.tasks == e.tasks && r.alarms == e.alarms
    ensures forall k :: Owner(k) != t.id ==> SameAt(e.alarms, r.alarms, k)
  {
    var newPriority := CalculatePriority(t, now);
    if newPriority != t.priority then
      var updatedTask := WithPriority(t, newPriority);
      if UpdateCount(e.tasks, updatedTask) > 0 then
        CancelThenSchedule(e.alarms, updatedTask, now);
        Effect(TaskUpdated(e.tasks, updatedTask), Scheduled(Cancelled(e.alarms, t.id), updatedTask, now), true)
      else e
    else e
  }

  /** Some task of `ts` is stale and stored. */
  ghost predicate AnyStale(ts: seq<Task>, tasks: TaskTable, now: int) {
    exists i :: 0 <= i < |ts| && Stale(ts[i], now) && ts[i].id in tasks
  }

  /** `updatePriorities` over `ts`, task by task in list order. Rows of unlisted ids, the key set,
      every row's key and `completed` column, and the alarms of unlisted ids are never touched;
      the flag ends up set exactly when some listed task was stale and stored. */
  function RecalculatedAll(e: Effect, ts: seq<Task>, now: int): (r: Effect)
    ensures r.tasks.Keys == e.tasks.Keys
    ensures forall id :: id in e.tasks ==>
      r.tasks[id].id == e.tasks[id].id && r.tasks[id].completed == e.tasks[id].completed
    ensures forall id :: id in e.tasks && !Lists(ts, id) ==> r.tasks[id] == e.tasks[id]
    ensures forall k :: !Lists(ts, Owner(k)) ==> SameAt(e.alarms, r.alarms, k)
    ensures r.changed <==> e.changed || AnyStale(ts, e.tasks, now)
  {
    if ts == [] then e
    else
      var prefix := ts[..|ts| - 1];
      var last := ts[|ts| - 1];
      var mid := RecalculatedAll(e, prefix, now);
      ListsPrefix(ts);
      AnyStaleSnoc(ts, e.tasks, now);
      Recalculated(mid, last, now)
  }

  /** An id listed by a prefix is listed by the whole sequence. */
  lemma ListsPrefix(ts: seq<Task>)
    requires ts != []
    ensures forall id :: Lists(ts[..|ts| - 1], id) ==> Lists(ts, id)
  {
    var prefix := ts[..|ts| - 1];
    forall id | Lists(prefix, id) ensures Lists(ts, id) {
      var i :| 0 <= i < |prefix| && prefix[i].id == id;
      assert ts[i] == prefix[i];
    }
  }

  /** Some task of `ts` is stale and stored exactly when one of its prefix is or its last one is. */
  lemma AnyStaleSnoc(ts: seq<Task>, tasks: TaskTable, now: int)
    requires ts != []
    ensures AnyStale(ts, tasks, now) <==>
      AnyStale(ts[..|ts| - 1], tasks, now) || (Stale(ts[|ts| - 1], now) && ts[|ts| - 1].id in tasks)
  {
    var prefix := ts[..|ts| - 1];
    if AnyStale(prefix, tasks, now) {
      var i :| 0 <= i < |prefix| && Stale(prefix[i], now) && prefix[i].id in tasks;
      assert ts[i] == prefix[i];
    }
    if AnyStale(ts, tasks, now) {
      var i :| 0 <= i < |ts| && Stale(ts[i], now) && ts[i].id in tasks;
      if i < |ts| - 1 {
        assert prefix[i] == ts[i];
      }
    }
  }

  /** Each listed task is the stored row of its id, as `getAllTasks` reads it. */
  ghost predicate ReadFrom(ts: seq<Task>, tasks: TaskTable) {
    forall i :: 0 <= i < |ts| ==> ts[i].id in tasks && ts[i] == ReadTask(tasks[ts[i].id])
  }

  /** The label the row's deadline earns, written into the row. */
  function Relabelled(row: TaskRow, now: int): (r: TaskRow)
    ensures r.priority == CalculatePriority(ReadTask(row), now)
    ensures r.(priority := row.priority) == row
  {
    row.(priority := CalculatePriority(ReadTask(row), now))
  }

  /** The table with the rows whose id is in `ids` relabelled, the rest as they were. */
  function RelabelledWhere(tasks: TaskTable, ids: set<int>, now: int): (r: TaskTable)
    ensures r.Keys == tasks.Keys
    ensures forall id :: id in tasks ==> r[id] == if id in ids then Relabelled(tasks[id], now) else tasks[id]
  {
    map id | id in tasks :: if id in ids then Relabelled(tasks[id], now) else tasks[id]
  }

  function IdsOf(ts: seq<Task>): (ids: set<int>)
    ensures forall id :: id in ids <==> Lists(ts, id)
  {
    set i | 0 <= i < |ts| :: ts[i].id
  }

  /** Appending a task adds its id. */
  lemma IdsOfSnoc(ts: seq<Task>)
    requires ts != []
    ensures IdsOf(ts) == IdsOf(ts[..|ts| - 1]) + {ts[|ts| - 1].id}
  {
    var prefix := ts[..|ts| - 1];
    forall id ensures id in IdsOf(ts) <==> id in IdsOf(prefix) + {ts[|ts| - 1].id} {
      if Lists(ts, id) && id != ts[|ts| - 1].id {
        var i :| 0 <= i < |ts| && ts[i].id == id;
        assert prefix[i] == ts[i];
      }
      if Lists(prefix, id) {
        var i :| 0 <= i < |prefix| && prefix[i].id == id;
        assert prefix[i] == ts[i];
      }
    }
  }

  /** One step on a table whose rows in `ids` are relabelled relabels the row read as `t` too. */
  lemma RecalculatedStepRelabels(e: Effect, tasks: TaskTable, ids: set<int>, t: Task, now: int)
    requires e.tasks == RelabelledWhere(tasks, ids, now)
    requires t.id in tasks && t.id !in ids && t == ReadTask(tasks[t.id]) && tasks[t.id].id == t.id
    ensures Recalculated(e, t, now).tasks == RelabelledWhere(tasks, ids + {t.id}, now)
  {
    var row := tasks[t.id];
    var r := Recalculated(e, t, now).tasks;
    var want := RelabelledWhere(tasks, ids + {t.id}, now);
    if Stale(t, now) {
      assert UpdatedRow(row, WithPriority(t, CalculatePriority(t, now))) == Relabelled(row, now);
    } else {
      assert Relabelled(row, now) == row;
    }
    assert r[t.id] == want[t.id];
    forall id | id in tasks && id != t.id ensures r[id] == want[id] {
      assert r[id] == e.tasks[id];
    }
  }

  /** A pass over tasks read from the table, without repeated ids, relabels exactly the listed rows. */
  lemma {:induction false} RecalculatedAllRelabels(e: Effect, ts: seq<Task>, now: int)
    requires ReadFrom(ts, e.tasks) && DistinctIds(ts)
    requires forall id :: id in e.tasks ==> e.tasks[id].id == id
    ensures RecalculatedAll(e, ts, now).tasks == RelabelledWhere(e.tasks, IdsOf(ts), now)
  {
    if ts == [] {
      assert RelabelledWhere(e.tasks, {}, now) == e.tasks;
    } else {
      var prefix := ts[..|ts| - 1];
      var last := ts[|ts| - 1];
      assert ReadFrom(prefix, e.tasks) && DistinctIds(prefix) by {
        forall i | 0 <= i < |prefix| ensures prefix[i] == ts[i] { }
      }
      RecalculatedAllRelabels(e, prefix, now);
      var mid := RecalculatedAll(e, prefix, now);
      assert RecalculatedAll(e, ts, now) == Recalculated(mid, last, now);
      assert !Lists(prefix, last.id) by {
        forall j | 0 <= j < |prefix| ensures prefix[j].id != last.id {
          assert prefix[j] == ts[j];
        }
      }
      IdsOfSnoc(ts);
      RecalculatedStepRelabels(mid, e.tasks, IdsOf(prefix), last, now);
    }
  }

  /** With distinct ids, a pass re-arms exactly the alarms of the stale stored tasks it lists and
      leaves the others' as they were. */
  lemma {:induction false} RecalculatedAllRearms(e: Effect, ts: seq<Task>, now: int, i: int)
    requires DistinctIds(ts) && 0 <= i < |ts|
    ensures var r := RecalculatedAll(e, ts, now);
      && (Stale(ts[i], now) && ts[i].id in e.tasks ==> Armed(r.alarms, ts[i], now))
      && (!(Stale(ts[i], now) && ts[i].id in e.tasks) ==>
            SameAt(e.alarms, r.alarms, DeadlineKey(ts[i].id)) && SameAt(e.alarms, r.alarms, PriorityKey(ts[i].id)))
  {
    var prefix := ts[..|ts| - 1];
    var last := ts[|ts| - 1];
    var mid := RecalculatedAll(e, prefix, now);
    assert RecalculatedAll(e, ts, now) == Recalculated(mid, last, now);
    assert DistinctIds(prefix) by {
      forall p, q | 0 <= p < q < |prefix| ensures prefix[p].id != prefix[q].id {
        assert prefix[p] == ts[p] && prefix[q] == ts[q];
      }
    }
    if i == |ts| - 1 {
      assert !Lists(prefix, last.id) by {
        forall j | 0 <= j < |prefix| ensures prefix[j].id != last.id {
          assert prefix[j] == ts[j];
        }
      }
      assert SameAt(e.alarms, mid.alarms, DeadlineKey(last.id));
      assert SameAt(e.alarms, mid.alarms, PriorityKey(last.id));
      assert last.id in mid.tasks <==> last.id in e.tasks;
    } else {
      var t := ts[i];
      var r := Recalculated(mid, last, now);
      assert prefix[i] == t;
      RecalculatedAllRearms(e, prefix, now, i);
      assert t.id != last.id;
      assert Owner(DeadlineKey(t.id)) != last.id && Owner(PriorityKey(t.id)) != last.id;
      assert SameAt(mid.alarms, r.alarms, DeadlineKey(t.id)) && SameAt(mid.alarms, r.alarms, PriorityKey(t.id));
      if Stale(t, now) && t.id in e.tasks {
        ArmedCarries(mid.alarms, r.alarms, t, now);
      }
    }
  }

  /** Two tables that agree on a task's two identities agree on whether it is armed. */
  lemma ArmedCarries(a: AlarmTable, b: AlarmTable, t: Task, now: int)
    requires SameAt(a, b, DeadlineKey(t.id)) && SameAt(a, b, PriorityKey(t.id))
    requires Armed(a, t, now)
    ensures Armed(b, t, now)
  {
  }

  /** Every row of the table relabelled. */
  function Normalized(tasks: TaskTable, now: int): (r: TaskTable)
    ensures r.Keys == tasks.Keys
    ensures forall id :: id in tasks ==> r[id] == Relabelled(tasks[id], now)
  {
    RelabelledWhere(tasks, tasks.Keys, now)
  }

  /** A pass over a full listing of the table relabels every row. */
  lemma FullPassNormalizes(e: Effect, ts: seq<Task>, now: int)
    requires ListsTable(ts, e.tasks)
    requires forall id :: id in e.tasks ==> e.tasks[id].id == id
    ensures RecalculatedAll(e, ts, now).tasks == Normalized(e.tasks, now)
  {
    RecalculatedAllRelabels(e, ts, now);
    assert IdsOf(ts) == e.tasks.Keys;
  }

  /** Relabelling is idempotent: the label a row earns does not depend on its current label. */
  lemma NormalizedIdempotent(tasks: TaskTable, now: int)
    ensures Normalized(Normalized(tasks, now), now) == Normalized(tasks, now)
  {
  }

  /** A pass, at the same instant, over listed tasks that already carry the label they earn
      changes nothing: no row, no alarm and not the flag. */
  lemma {:induction false} SecondPassChangesNothing(e: Effect, ts: seq<Task>, now: int)
    requires forall i :: 0 <= i < |ts| ==> !Stale(ts[i], now)
    ensures RecalculatedAll(e, ts, now) == e
  {
    if ts != [] {
      var prefix := ts[..|ts| - 1];
      var last := ts[|ts| - 1];
      assert forall i :: 0 <= i < |prefix| ==> prefix[i] == ts[i];
      SecondPassChangesNothing(e, prefix, now);
      assert !Stale(last, now);
    }
  }

  /** `updatePriorities`: the `onComplete` flag is returned. */
  method UpdatePriorities(db: TaskDatabaseHelper, am: AlarmManager, tasks: seq<Task>, now: int) returns (changed: bool)
    requires db.Valid()
    modifies db`tasks, am
    ensures db.Valid()
    ensures Effect(db.tasks, am.alarms, changed) == RecalculatedAll(Effect(old(db.tasks), old(am.alarms), false), tasks, now)
  {
    changed := false;
    var i := 0;
    while i < |tasks|
      invariant 0 <= i <= |tasks|
      invariant db.Valid()
      invariant Effect(db.tasks, am.alarms, changed) == RecalculatedAll(Effect(old(db.tasks), old(am.alarms), false), tasks[..i], now)
    {
      changed := RecalculateOne(db, am, tasks[i], now, changed);
      assert tasks[..i + 1][..i] == tasks[..i];
      i := i + 1;
    }
    assert tasks[..|tasks|] == tasks;
  }

  /** The body of the `forEach` in `updatePriorities`: one task, with the flag carried along. */
  method RecalculateOne(db: TaskDatabaseHelper, am: AlarmManager, task: Task, now: int, changedBefore: bool)
    returns (changed: bool)
    requires db.Valid()
    modifies db`tasks, am
    ensures db.Valid()
    ensures Effect(db.tasks, am.alarms, changed) == Recalculated(Effect(old(db.tasks), old(am.alarms), changedBefore), task, now)
  {
    changed := changedBefore;
    var newPriority := CalculatePriority(task, now);
    if newPriority != task.priority {
      var updatedTask := WithPriority(task, newPriority);
      var updateResult := db.UpdateTask(updatedTask);
      if updateResult > 0 {
        changed := true;
        CancelTaskNotifications(am, task.id);
        ScheduleTaskNotifications(am, updatedTask, now);
      }
    }
  }

  /** `updateSingleTaskPriority`. */
  method UpdateSingleTaskPriority(db: TaskDatabaseHelper, am: AlarmManager, task: Task, now: int) returns (updated: bool)
    requires db.Valid()
    modifies db`tasks, am
    ensures db.Valid()
    ensures Effect(db.tasks, am.alarms, updated) == Recalculated(Effect(old(db.tasks), old(am.alarms), false), task, now)
  {
    var newPriority := CalculatePriority(task, now);
    if newPriority != task.priority {
      var updatedTask := WithPriority(task, newPriority);
      var updateResult := db.UpdateTask(updatedTask);
      if updateResult > 0 {
        CancelTaskNotifications(am, task.id);
        ScheduleTaskNotifications(am, updatedTask, now);
        return true;
      }
    }
    return false;
  }

  /** The rows whose deadline is still ahead. */
  function OpenRows(tasks: TaskTable, now: int): (r: TaskTable)
    ensures forall id :: id in r <==> id in tasks && tasks[id].deadlineDateTime > now
    ensures forall id :: id in r ==> r[id] == tasks[id]
  {
    map id | id in tasks && tasks[id].deadlineDateTime > now :: tasks[id]
  }

  /** Filtering a full listing by `NeedsPriorityCheck` lists the rows whose deadline is still ahead,
      completed ones included, because the listing reads every task as not completed. */
  lemma CandidatesListOpenRows(all: seq<Task>, tasks: TaskTable, now: int)
    requires ListsTable(all, tasks)
    ensures ListsTable(TasksNeedingPriorityUpdate(all, now), OpenRows(tasks, now))
  {
    FilterListsRows(all, tasks, t => NeedsPriorityCheck(t, now), OpenRows(tasks, now));
  }

  /** A completed row whose deadline is still ahead is among the candidates all the same. */
  lemma CompletedRowIsCandidate(all: seq<Task>, tasks: TaskTable, id: int, now: int)
    requires ListsTable(all, tasks)
    requires id in tasks && tasks[id].completed == 1 && tasks[id].deadlineDateTime > now
    ensures exists i :: 0 <= i < |TasksNeedingPriorityUpdate(all, now)| && TasksNeedingPriorityUpdate(all, now)[i].id == id
  {
    CandidatesListOpenRows(all, tasks, now);
    assert id in OpenRows(tasks, now);
  }

  /** The rows the candidate filter was meant to select: deadline still ahead, not completed. */
  function OpenIncompleteRows(tasks: TaskTable, now: int): (r: TaskTable)
    ensures forall id :: id in r <==> id in tasks && tasks[id].deadlineDateTime > now && tasks[id].completed != 1
    ensures forall id :: id in r ==> r[id] == tasks[id]
  {
    map id | id in tasks && tasks[id].deadlineDateTime > now && tasks[id].completed != 1 :: tasks[id]
  }

  /** Over a listing that reads `completed` as `Task.fromCursor` does, the same filter selects
      exactly the open rows that are not completed. */
  lemma CandidatesFromFullRowsSkipCompleted(all: seq<Task>, tasks: TaskTable, now: int)
    requires ListsTableFully(all, tasks)
    ensures ListsTableFully(TasksNeedingPriorityUpdate(all, now), OpenIncompleteRows(tasks, now))
  {
    var r := TasksNeedingPriorityUpdate(all, now);
    var open := OpenIncompleteRows(tasks, now);
    assert DistinctIds(all);
    FilterKeepsDistinctIds(all, t => NeedsPriorityCheck(t, now));
    forall id | id in open ensures exists i :: 0 <= i < |r| && r[i].id == id {
      var j :| 0 <= j < |all| && all[j].id == id;
      assert all[j] in r;
      var i :| 0 <= i < |r| && r[i] == all[j];
    }
    forall i | 0 <= i < |r| ensures r[i].id in open && r[i] == FromCursor(open[r[i].id]) {
      assert r[i] in all;
      var j :| 0 <= j < |all| && all[j] == r[i];
    }
  }

  /** `getTasksNeedingPriorityUpdate`. */
  method GetTasksNeedingPriorityUpdate(db: TaskDatabaseHelper, now: int) returns (candidates: seq<Task>)
    requires db.Valid()
    ensures ListsTable(candidates, OpenRows(db.tasks, now))
    ensures SortedByDeadline(candidates)
  {
    var allTasks := db.GetAllTasks();
    candidates := TasksNeedingPriorityUpdate(allTasks, now);
    CandidatesListOpenRows(allTasks, db.tasks, now);
  }

  /** `runPeriodicPriorityCheck`: relabels exactly the rows whose deadline is still ahead, and
      re-arms the alarms of those whose label changed; the callback only logs. */
  method RunPeriodicPriorityCheck(db: TaskDatabaseHelper, am: AlarmManager, now: int)
    requires db.Valid()
    modifies db`tasks, am
    ensures db.Valid()
    ensures db.tasks == RelabelledWhere(old(db.tasks), OpenRows(old(db.tasks), now).Keys, now)
    ensures forall k :: Owner(k) !in OpenRows(old(db.tasks), now) ==> SameAt(old(am.alarms), am.alarms, k)
    ensures forall id :: id in OpenRows(old(db.tasks), now) && old(db.tasks)[id].priority != CalculatePriority(ReadTask(old(db.tasks)[id]), now) ==>
              Armed(am.alarms, ReadTask(old(db.tasks)[id]), now)
    ensures forall id :: id in OpenRows(old(db.tasks), now) && old(db.tasks)[id].priority == CalculatePriority(ReadTask(old(db.tasks)[id]), now) ==>
              SameAt(old(am.alarms), am.alarms, DeadlineKey(id)) && SameAt(old(am.alarms), am.alarms, PriorityKey(id))
  {
    var tasks := GetTasksNeedingPriorityUpdate(db, now);
    ghost var open := OpenRows(db.tasks, now);
    assert IdsOf(tasks) == open.Keys by {
      forall id ensures id in IdsOf(tasks) <==> id in open.Keys {
        if Lists(tasks, id) {
          var i :| 0 <= i < |tasks| && tasks[i].id == id;
          assert id in open;
        }
        if id in open {
          assert Lists(tasks, id);
        }
      }
    }
    if |tasks| > 0 {
      ghost var e := Effect(db.tasks, am.alarms, false);
      var changed := UpdatePriorities(db, am, tasks, now);
      RecalculatedAllRelabels(e, tasks, now);
      forall id | id in open
        ensures old(db.tasks)[id].priority != CalculatePriority(ReadTask(old(db.tasks)[id]), now) ==>
          Armed(am.alarms, ReadTask(old(db.tasks)[id]), now)
        ensures old(db.tasks)[id].priority == CalculatePriority(ReadTask(old(db.tasks)[id]), now) ==>
          SameAt(old(am.alarms), am.alarms, DeadlineKey(id)) && SameAt(old(am.alarms), am.alarms, PriorityKey(id))
      {
        var i :| 0 <= i < |tasks| && tasks[i].id == id;
        RecalculatedAllRearms(e, tasks, now, i);
      }
    } else {
      assert RelabelledWhere(db.tasks, open.Keys, now) == db.tasks;
    }
  }
}
