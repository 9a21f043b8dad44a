/**
 * The task list screen (ui/tasks/TaskListActivity.kt): the list it shows, the completion and
 * delete handlers, the bulk priority change and the start-up pass over the alarms. The screen
 * holds the database and the alarm service; what it shows is the `shown` field.
 */
module TaskListScreen {
  import opened TaskModel
  import opened TaskLists
  import opened PriorityPolicy
  import opened Alarms
  import opened TaskDatabase
  import opened NotificationScheduler
  import opened AutoPriority

  /** The table with every stored id of `ids` given label `p`; the other columns stay. */
  function Reprioritized(tasks: TaskTable, ids: set<int>, p: string): (r: TaskTable)
    ensures r.Keys == tasks.Keys
    ensures forall id :: id in tasks && id !in ids ==> r[id] == tasks[id]
    ensures forall id :: id in tasks && id in ids ==> r[id].priority == p && r[id].(priority := tasks[id].priority) == tasks[id]
  {
    map id | id in tasks :: if id in ids then tasks[id].(priority := p) else tasks[id]
  }

  /** One more selected id: its row, when stored, gets the label on top of the previous ones. */
  lemma ReprioritizedStep(tasks: TaskTable, done: seq<int>, x: int, p: string)
    ensures var before := Reprioritized(tasks, (set id | id in done), p);
      Reprioritized(tasks, (set id | id in done + [x]), p)
        == if x in tasks then before[x := before[x].(priority := p)] else before
  {
    assert (set id | id in done + [x]) == (set id | id in done) + {x};
  }

  /** A pass that reports no change found every listed row already carrying the label its
      deadline earns; over a full listing the table was then already normalised. */
  lemma QuietPassMeansNormalized(ts: seq<Task>, tasks: TaskTable, now: int)
    requires ListsTable(ts, tasks)
    requires !AnyStale(ts, tasks, now)
    ensures Normalized(tasks, now) == tasks
  {
    forall id | id in tasks ensures Relabelled(tasks[id], now) == tasks[id] {
      var i :| 0 <= i < |ts| && ts[i].id == id;
      assert !Stale(ts[i], now);
    }
  }

  /** The label a bulk change writes is recomputed by the reload that follows it: after
      `changePriority` the table is what reloading alone would have made it. */
  lemma ManualLabelIsRecomputed(tasks: TaskTable, ids: set<int>, p: string, now: int)
    ensures Normalized(Reprioritized(tasks, ids, p), now) == Normalized(tasks, now)
  {
    var r := Reprioritized(tasks, ids, p);
    forall id | id in tasks ensures Relabelled(r[id], now) == Relabelled(tasks[id], now) {
      if id in ids {
        CalculatePriorityIgnoresLabel(ReadTask(tasks[id]), p, now);
        assert ReadTask(r[id]) == WithPriority(ReadTask(tasks[id]), p);
      }
    }
  }

  /** The first loop of `scheduleNotificationsForExistingTasks`: both alarms of each listed task
      are cancelled, in listing order. */
  method CancelEach(am: AlarmManager, tasks: seq<Task>)
    modifies am
    ensures am.alarms == CancelledAll(old(am.alarms), tasks)
  {
    var i := 0;
    while i < |tasks|
      invariant 0 <= i <= |tasks|
      invariant am.alarms == CancelledAll(old(am.alarms), tasks[..i])
    {
      CancelTaskNotifications(am, tasks[i].id);
      assert tasks[..i + 1][..i] == tasks[..i];
      i := i + 1;
    }
    assert tasks[..|tasks|] == tasks;
  }

  /** The second loop: each listed task's due alarms are scheduled, in listing order. */
  method ScheduleEach(am: AlarmManager, tasks: seq<Task>, now: int)
    modifies am
    ensures am.alarms == ScheduledAll(old(am.alarms), tasks, now)
  {
    var i := 0;
    while i < |tasks|
      invariant 0 <= i <= |tasks|
      invariant am.alarms == ScheduledAll(old(am.alarms), tasks[..i], now)
    {
      ScheduleTaskNotifications(am, tasks[i], now);
      assert tasks[..i + 1][..i] == tasks[..i];
      i := i + 1;
    }
    assert tasks[..|tasks|] == tasks;
  }

  class TaskListActivity {
    const db: TaskDatabaseHelper
    const am: AlarmManager
    /** The list handed to the adapter. */
    var shown: seq<Task>

    ghost predicate Valid()
      reads this, db
    {
      db.Valid()
    }

    constructor (db: TaskDatabaseHelper, am: AlarmManager)
      requires db.Valid()
      ensures Valid() && this.db == db && this.am == am && shown == []
    {
      this.db := db;
      this.am := am;
      shown := [];
    }

    /** `onCreate`: the start-up pass over the alarms, then the first load. */
    method OnCreate(now: int)
      requires Valid()
      modifies this`shown, db`tasks, am
      ensures Valid()
      ensures db.tasks == Normalized(old(db.tasks), now)
      ensures ListsTable(shown, db.tasks) && SortedByDeadline(shown)
      ensures forall k :: Owner(k) !in old(db.tasks) ==> SameAt(old(am.alarms), am.alarms, k)
      ensures forall id :: id in old(db.tasks) ==> Armed(am.alarms, ReadTask(old(db.tasks)[id]), now)
    {
      ScheduleNotificationsForExistingTasks(now);
      ghost var armed := am.alarms;
      LoadTasks(now);
      forall id | id in old(db.tasks) ensures Armed(am.alarms, ReadTask(old(db.tasks)[id]), now) {
        var t := ReadTask(old(db.tasks)[id]);
        assert Armed(armed, t, now);
        if !Stale(t, now) {
          assert SameAt(armed, am.alarms, DeadlineKey(id)) && SameAt(armed, am.alarms, PriorityKey(id));
        }
      }
    }

    /** `loadTasks`: lists the table, runs `updatePriorities` over every stored task (past deadlines
        included) and lists it again only when something changed. Every row ends up with the label
        its deadline earns; a row whose label changed has its alarms re-armed, and the alarms of
        every other row, and of ids not in the table, stay as they were. */
    method LoadTasks(now: int)
      requires Valid()
      modifies this`shown, db`tasks, am
      ensures Valid()
      ensures db.tasks == Normalized(old(db.tasks), now)
      ensures ListsTable(shown, db.tasks) && SortedByDeadline(shown)
      ensures forall k :: Owner(k) !in old(db.tasks) ==> SameAt(old(am.alarms), am.alarms, k)
      ensures forall id :: id in old(db.tasks) && Stale(ReadTask(old(db.tasks)[id]), now) ==>
        Armed(am.alarms, ReadTask(old(db.tasks)[id]), now)
      ensures forall id :: id in old(db.tasks) && !Stale(ReadTask(old(db.tasks)[id]), now) ==>
        SameAt(old(am.alarms), am.alarms, DeadlineKey(id)) && SameAt(old(am.alarms), am.alarms, PriorityKey(id))
    {
      var tasks := db.GetAllTasks();
      shown := tasks;
      ghost var e := Effect(db.tasks, am.alarms, false);
      var changed := UpdatePriorities(db, am, tasks, now);
      FullPassNormalizes(e, tasks, now);
      if changed {
        shown := db.GetAllTasks();
      } else {
        QuietPassMeansNormalized(tasks, e.tasks, now);
      }
      forall k | Owner(k) !in e.tasks ensures SameAt(e.alarms, am.alarms, k) {
        assert !Lists(tasks, Owner(k));
      }
      forall id | id in e.tasks
        ensures Stale(ReadTask(e.tasks[id]), now) ==> Armed(am.alarms, ReadTask(e.tasks[id]), now)
        ensures !Stale(ReadTask(e.tasks[id]), now) ==>
          SameAt(e.alarms, am.alarms, DeadlineKey(id)) && SameAt(e.alarms, am.alarms, PriorityKey(id))
      {
        var i :| 0 <= i < |tasks| && tasks[i].id == id;
        RecalculatedAllRearms(e, tasks, now, i);
      }
    }

    /** The completion checkbox: writes only the `completed` column of that row. */
    method OnComplete(task: Task, isCompleted: bool)
      requires Valid()
      modifies db`tasks
      ensures Valid()
      ensures db.tasks == CompletionSet(old(db.tasks), task.id, isCompleted)
    {
      db.UpdateTaskCompletion(task.id, isCompleted);
    }

    /** The confirmed delete: both alarms are cancelled before the row is deleted, and the list is
        reloaded only when a row was removed. The deleted task has no alarm left either way; after a
        reload the other tasks' alarms are those `loadTasks` leaves on the remaining rows. */
    method OnDeleteConfirmed(task: Task, now: int) returns (deleted: int)
      requires Valid()
      modifies this`shown, db`tasks, am
      ensures Valid()
      ensures deleted == (if task.id in old(db.tasks) then 1 else 0)
      ensures deleted == 0 ==>
        db.tasks == old(db.tasks) && am.alarms == Cancelled(old(am.alarms), task.id) && shown == old(shown)
      ensures deleted > 0 ==>
        db.tasks == Normalized(old(db.tasks) - {task.id}, now) && ListsTable(shown, db.tasks) && SortedByDeadline(shown)
      ensures deleted > 0 ==> forall k :: Owner(k) !in old(db.tasks) ==> SameAt(old(am.alarms), am.alarms, k)
      ensures deleted > 0 ==> forall id :: id in old(db.tasks) && id != task.id && Stale(ReadTask(old(db.tasks)[id]), now) ==>
        Armed(am.alarms, ReadTask(old(db.tasks)[id]), now)
      ensures deleted > 0 ==> forall id :: id in old(db.tasks) && id != task.id && !Stale(ReadTask(old(db.tasks)[id]), now) ==>
        SameAt(old(am.alarms), am.alarms, DeadlineKey(id)) && SameAt(old(am.alarms), am.alarms, PriorityKey(id))
      ensures DeadlineKey(task.id) !in am.alarms && PriorityKey(task.id) !in am.alarms
    {
      CancelTaskNotifications(am, task.id);
      deleted := db.DeleteTask(task.id);
      if deleted > 0 {
        ghost var cancelled := am.alarms;
        LoadTasks(now);
        assert SameAt(cancelled, am.alarms, DeadlineKey(task.id));
        assert SameAt(cancelled, am.alarms, PriorityKey(task.id));
        forall k | Owner(k) !in old(db.tasks) ensures SameAt(old(am.alarms), am.alarms, k) {
          assert SameAt(old(am.alarms), cancelled, k);
        }
        forall id | id in old(db.tasks) && id != task.id && !Stale(ReadTask(old(db.tasks)[id]), now)
          ensures SameAt(old(am.alarms), am.alarms, DeadlineKey(id)) && SameAt(old(am.alarms), am.alarms, PriorityKey(id))
        {
          OwnedKeys(DeadlineKey(id), id);
          OwnedKeys(PriorityKey(id), id);
          assert SameAt(old(am.alarms), cancelled, DeadlineKey(id)) && SameAt(old(am.alarms), cancelled, PriorityKey(id));
        }
      }
    }

    /** `changePriority`: every selected id that is stored gets the new label and keeps its other
        columns, missing ids are skipped, and the list is reloaded, which recomputes every label. */
    method ChangePriority(selectedIds: seq<int>, newPriority: string, now: int)
      requires Valid()
      modifies this`shown, db`tasks, am
      ensures Valid()
      ensures db.tasks == Normalized(Reprioritized(old(db.tasks), (set id | id in selectedIds), newPriority), now)
      ensures db.tasks == Normalized(old(db.tasks), now)
      ensures ListsTable(shown, db.tasks) && SortedByDeadline(shown)
      ensures forall k :: Owner(k) !in old(db.tasks) ==> SameAt(old(am.alarms), am.alarms, k)
      ensures var seen := Reprioritized(old(db.tasks), (set id | id in selectedIds), newPriority);
        && (forall id :: id in seen && Stale(ReadTask(seen[id]), now) ==> Armed(am.alarms, ReadTask(seen[id]), now))
        && (forall id :: id in seen && !Stale(ReadTask(seen[id]), now) ==>
              SameAt(old(am.alarms), am.alarms, DeadlineKey(id)) && SameAt(old(am.alarms), am.alarms, PriorityKey(id)))
    {
      var i := 0;
      while i < |selectedIds|
        invariant 0 <= i <= |selectedIds|
        invariant db.Valid() && am.alarms == old(am.alarms)
        invariant db.tasks == Reprioritized(old(db.tasks), (set id | id in selectedIds[..i]), newPriority)
      {
        ghost var before := db.tasks;
        var found := db.GetTaskById(selectedIds[i]);
        if found.Some? {
          var t := found.value;
          var _ := db.UpdateTask(WithPriority(t, newPriority));
          assert db.tasks == before[t.id := before[t.id].(priority := newPriority)];
        }
        assert selectedIds[..i + 1] == selectedIds[..i] + [selectedIds[i]];
        ReprioritizedStep(old(db.tasks), selectedIds[..i], selectedIds[i], newPriority);
        i := i + 1;
      }
      assert selectedIds[..|selectedIds|] == selectedIds;
      LoadTasks(now);
      ManualLabelIsRecomputed(old(db.tasks), (set id | id in selectedIds), newPriority, now);
    }

    /** `scheduleNotificationsForExistingTasks`: cancels every stored task's alarms, then schedules
        each, so every stored task has exactly its due alarms. */
    method ScheduleNotificationsForExistingTasks(now: int)
      requires Valid()
      modifies am
      ensures ArmedFrom(old(am.alarms), am.alarms, db.tasks, now)
    {
      var tasks := db.GetAllTasks();
      CancelEach(am, tasks);
      ScheduleEach(am, tasks, now);
      CancelledThenScheduledListing(old(am.alarms), tasks, db.tasks, now);
    }
  }
}
