/**
 * `NotificationScheduler` (ui/notifications/NotificationScheduler.kt): per task,
 * a deadline reminder one hour before the deadline under request code `id`, and
 * a priority check one day before it under request code `id + 1000`; neither is
 * registered once its time has come. The alarm table after each operation is
 * given by a function of the table before it.
 */
module NotificationScheduler {
  import opened TaskModel
  import opened PriorityPolicy
  import opened Alarms
  import opened TaskDatabase
  import opened TaskLists

  /** Added to the task id to form the priority check's request code. */
  const PriorityCodeOffset: int := 1000

  function DeadlineKey(taskId: int): (k: AlarmKey)
    ensures k.kind == DeadlineReminder && Owner(k) == taskId
  {
    AlarmKey(DeadlineReminder, taskId)
  }

  function PriorityKey(taskId: int): (k: AlarmKey)
    ensures k.kind == PriorityCheck && Owner(k) == taskId
  {
    AlarmKey(PriorityCheck, taskId + PriorityCodeOffset)
  }

  /** The task an alarm identity belongs to. */
  function Owner(k: AlarmKey): int {
    match k.kind
    case DeadlineReminder => k.requestCode
    case PriorityCheck => k.requestCode - PriorityCodeOffset
  }

  /** Every alarm identity belongs to exactly one task, and each task owns exactly its two identities. */
  lemma OwnedKeys(k: AlarmKey, taskId: int)
    ensures Owner(k) == taskId <==> k == DeadlineKey(taskId) || k == PriorityKey(taskId)
  {
  }

  function DeadlineAlarm(t: Task): (al: Alarm)
    ensures al.fireAt == t.deadlineDateTime - HourMs
    ensures al.payload == DeadlinePayload(t.id, t.title, t.deadlineDateTime)
  {
    Alarm(t.deadlineDateTime - HourMs, DeadlinePayload(t.id, t.title, t.deadlineDateTime))
  }

  function PriorityAlarm(t: Task): (al: Alarm)
    ensures al.fireAt == t.deadlineDateTime - DayMs
    ensures al.payload == PriorityPayload(t.id)
  {
    Alarm(t.deadlineDateTime - DayMs, PriorityPayload(t.id))
  }

  /** The reminder's time is still ahead. */
  predicate DeadlineDue(t: Task, now: int) {
    DeadlineAlarm(t).fireAt > now
  }

  /** The check's time is still ahead. */
  predicate PriorityDue(t: Task, now: int) {
    PriorityAlarm(t).fireAt > now
  }

  /** `k` is pending in both tables with the same alarm, or in neither. */
  ghost predicate SameAt(a: AlarmTable, b: AlarmTable, k: AlarmKey) {
    (k in a <==> k in b) && (k in a ==> a[k] == b[k])
  }

  /** What scheduling `t` leaves under its two identities: a due alarm is registered with
      its time and extras; one that is not due leaves whatever was pending there. */
  ghost predicate Placed(a: AlarmTable, r: AlarmTable, t: Task, now: int) {
    && (DeadlineKey(t.id) in r <==> DeadlineDue(t, now) || DeadlineKey(t.id) in a)
    && (DeadlineDue(t, now) ==> r[DeadlineKey(t.id)] == DeadlineAlarm(t))
    && (!DeadlineDue(t, now) ==> SameAt(a, r, DeadlineKey(t.id)))
    && (PriorityKey(t.id) in r <==> PriorityDue(t, now) || PriorityKey(t.id) in a)
    && (PriorityDue(t, now) ==> r[PriorityKey(t.id)] == PriorityAlarm(t))
    && (!PriorityDue(t, now) ==> SameAt(a, r, PriorityKey(t.id)))
  }

  /** The table after `scheduleDeadlineNotification`. */
  function WithDeadlineAlarm(a: AlarmTable, t: Task, now: int): AlarmTable {
    if DeadlineDue(t, now) then a[DeadlineKey(t.id) := DeadlineAlarm(t)] else a
  }

  /** The table after `schedulePriorityCheckNotification`. */
  function WithPriorityAlarm(a: AlarmTable, t: Task, now: int): AlarmTable {
    if PriorityDue(t, now) then a[PriorityKey(t.id) := PriorityAlarm(t)] else a
  }

  /** The table after `scheduleTaskNotifications`: only `t`'s identities change, as `Placed` says. A
      registered check always comes with a registered reminder, since the check is due first. */
  function Scheduled(a: AlarmTable, t: Task, now: int): (r: AlarmTable)
    ensures forall k :: Owner(k) != t.id ==> SameAt(a, r, k)
    ensures Placed(a, r, t, now)
    ensures PriorityDue(t, now) ==> DeadlineKey(t.id) in r
  {
    WithPriorityAlarm(WithDeadlineAlarm(a, t, now), t, now)
  }

  /** The table after `cancelTaskNotifications(taskId)`: both identities gone, all others untouched. */
  function Cancelled(a: AlarmTable, taskId: int): (r: AlarmTable)
    ensures DeadlineKey(taskId) !in r && PriorityKey(taskId) !in r
    ensures forall k :: Owner(k) != taskId ==> SameAt(a, r, k)
  {
    a - {DeadlineKey(taskId), PriorityKey(taskId)}
  }

  /** Scheduling the same task twice at the same instant is the same as scheduling it once. */
  lemma ScheduledIdempotent(a: AlarmTable, t: Task, now: int)
    ensures Scheduled(Scheduled(a, t, now), t, now) == Scheduled(a, t, now)
  {
    var r := Scheduled(a, t, now);
    var rr := Scheduled(r, t, now);
    forall k ensures SameAt(r, rr, k) {
      OwnedKeys(k, t.id);
    }
    assert forall k :: k in rr <==> k in r;
  }

  /** Exactly the due alarms of `t` are pending under its identities, with their times and extras. */
  ghost predicate Armed(r: AlarmTable, t: Task, now: int) {
    && (DeadlineKey(t.id) in r <==> DeadlineDue(t, now))
    && (PriorityKey(t.id) in r <==> PriorityDue(t, now))
    && (DeadlineDue(t, now) ==> r[DeadlineKey(t.id)] == DeadlineAlarm(t))
    && (PriorityDue(t, now) ==> r[PriorityKey(t.id)] == PriorityAlarm(t))
  }

  /** Cancelling and then scheduling a task arms it exactly, whatever was pending before. */
  lemma CancelThenSchedule(a: AlarmTable, t: Task, now: int)
    ensures Armed(Scheduled(Cancelled(a, t.id), t, now), t, now)
  {
  }

  /** Cancelling a task that has nothing pending changes nothing. */
  lemma CancelAbsentIsNoOp(a: AlarmTable, taskId: int)
    requires DeadlineKey(taskId) !in a && PriorityKey(taskId) !in a
    ensures Cancelled(a, taskId) == a
  {
  }

  /** Some task of `ts` has id `taskId`. */
  ghost predicate Lists(ts: seq<Task>, taskId: int) {
    exists i :: 0 <= i < |ts| && ts[i].id == taskId
  }

  /** The table after `scheduleTaskNotifications` for each task of `ts` in order; alarms of tasks
      not in `ts` are untouched. */
  function ScheduledAll(a: AlarmTable, ts: seq<Task>, now: int): (r: AlarmTable)
    ensures forall k :: !Lists(ts, Owner(k)) ==> SameAt(a, r, k)
  {
    if ts == [] then a
    else
      var prefix := ts[..|ts| - 1];
      var r := Scheduled(ScheduledAll(a, prefix, now), ts[|ts| - 1], now);
      assert forall k :: !Lists(ts, Owner(k)) ==> !Lists(prefix, Owner(k)) by {
        forall k | Lists(prefix, Owner(k)) ensures Lists(ts, Owner(k)) {
          var i :| 0 <= i < |prefix| && prefix[i].id == Owner(k);
          assert ts[i] == prefix[i];
        }
      }
      r
  }

  /** With distinct ids, scheduling a list places each of its tasks' alarms as scheduling that
      task alone would. */
  lemma {:induction false} ScheduledAllPlaces(a: AlarmTable, ts: seq<Task>, now: int, i: int)
    requires DistinctIds(ts) && 0 <= i < |ts|
    ensures Placed(a, ScheduledAll(a, ts, now), ts[i], now)
  {
    var prefix := ts[..|ts| - 1];
    var last := ts[|ts| - 1];
    var mid := ScheduledAll(a, prefix, now);
    assert DistinctIds(prefix) by {
      forall p, q | 0 <= p < q < |prefix| ensures prefix[p].id != prefix[q].id {
        assert prefix[p] == ts[p] && prefix[q] == ts[q];
      }
    }
    if i == |ts| - 1 {
      assert !Lists(prefix, last.id) by {
        forall j | 0 <= j < |prefix| ensures prefix[j].id != last.id {
          assert prefix[j] == ts[j];
        }
      }
      assert SameAt(a, mid, DeadlineKey(last.id));
      assert SameAt(a, mid, PriorityKey(last.id));
    } else {
      assert prefix[i] == ts[i];
      ScheduledAllPlaces(a, prefix, now, i);
      assert Owner(DeadlineKey(ts[i].id)) != last.id;
      assert Owner(PriorityKey(ts[i].id)) != last.id;
    }
  }

  /** The table `rescheduleAllAlarms` leaves, stated over the `tasks` table: every stored task's
      alarms are placed as scheduling it alone would place them, and alarms of ids not in the
      table are untouched. */
  ghost predicate RescheduledFrom(a: AlarmTable, r: AlarmTable, tasks: TaskTable, now: int) {
    && (forall k :: Owner(k) !in tasks ==> SameAt(a, r, k))
    && (forall id :: id in tasks ==> Placed(a, r, ReadTask(tasks[id]), now))
  }

  /** Scheduling a full listing of the table reschedules the table. */
  lemma ScheduledListing(a: AlarmTable, ts: seq<Task>, tasks: TaskTable, now: int)
    requires ListsTable(ts, tasks)
    ensures RescheduledFrom(a, ScheduledAll(a, ts, now), tasks, now)
  {
    var r := ScheduledAll(a, ts, now);
    forall k | Owner(k) !in tasks ensures SameAt(a, r, k) {
      assert !Lists(ts, Owner(k));
    }
    forall id | id in tasks ensures Placed(a, r, ReadTask(tasks[id]), now) {
      var i :| 0 <= i < |ts| && ts[i].id == id;
      ScheduledAllPlaces(a, ts, now, i);
    }
  }

  /** A deleted task whose alarms were cancelled gets none back from a reschedule. */
  lemma DeletedTaskStaysSilent(a: AlarmTable, r: AlarmTable, tasks: TaskTable, taskId: int, now: int)
    requires taskId !in tasks
    requires RescheduledFrom(Cancelled(a, taskId), r, tasks, now)
    ensures DeadlineKey(taskId) !in r && PriorityKey(taskId) !in r
  {
    assert SameAt(Cancelled(a, taskId), r, DeadlineKey(taskId));
    assert SameAt(Cancelled(a, taskId), r, PriorityKey(taskId));
  }

  /** The table after `cancelTaskNotifications` for each task of `ts` in order: every identity of a
      listed task is gone, and the alarms of tasks not in `ts` are untouched. */
  function CancelledAll(a: AlarmTable, ts: seq<Task>): (r: AlarmTable)
    ensures forall k :: !Lists(ts, Owner(k)) ==> SameAt(a, r, k)
    ensures forall k :: Lists(ts, Owner(k)) ==> k !in r
  {
    if ts == [] then a
    else
      var prefix := ts[..|ts| - 1];
      var last := ts[|ts| - 1];
      var r := Cancelled(CancelledAll(a, prefix), last.id);
      assert forall id :: Lists(ts, id) <==> Lists(prefix, id) || id == last.id by {
        forall id | Lists(ts, id) && id != last.id ensures Lists(prefix, id) {
          var i :| 0 <= i < |ts| && ts[i].id == id;
          assert prefix[i] == ts[i];
        }
        forall id | Lists(prefix, id) ensures Lists(ts, id) {
          var i :| 0 <= i < |prefix| && prefix[i].id == id;
          assert ts[i] == prefix[i];
        }
        assert ts[|ts| - 1].id == last.id;
      }
      assert forall k :: Owner(k) == last.id ==> k !in r by {
        forall k | Owner(k) == last.id ensures k !in r {
          OwnedKeys(k, last.id);
        }
      }
      r
  }

  /** What `scheduleNotificationsForExistingTasks` leaves: every stored task has exactly its due
      alarms, at their derived times, and alarms of ids not in the table are untouched. */
  ghost predicate ArmedFrom(a: AlarmTable, r: AlarmTable, tasks: TaskTable, now: int) {
    && (forall k :: Owner(k) !in tasks ==> SameAt(a, r, k))
    && (forall id :: id in tasks ==> Armed(r, ReadTask(tasks[id]), now))
  }

  /** Cancelling a full listing of the table and then scheduling it arms every stored task exactly. */
  lemma CancelledThenScheduledListing(a: AlarmTable, ts: seq<Task>, tasks: TaskTable, now: int)
    requires ListsTable(ts, tasks)
    ensures ArmedFrom(a, ScheduledAll(CancelledAll(a, ts), ts, now), tasks, now)
  {
    var c := CancelledAll(a, ts);
    var r := ScheduledAll(c, ts, now);
    ScheduledListing(c, ts, tasks, now);
    forall k | Owner(k) !in tasks ensures SameAt(a, r, k) {
      assert !Lists(ts, Owner(k));
      assert SameAt(a, c, k) && SameAt(c, r, k);
    }
    forall id | id in tasks ensures Armed(r, ReadTask(tasks[id]), now) {
      var i :| 0 <= i < |ts| && ts[i].id == id;
      var t := ReadTask(tasks[id]);
      assert t == ts[i];
      assert DeadlineKey(id) !in c && PriorityKey(id) !in c;
      assert Placed(c, r, t, now);
    }
  }

  /** `scheduleTaskNotifications`: the reminder, then the check. */
  method ScheduleTaskNotifications(am: AlarmManager, task: Task, now: int)
    modifies am
    ensures am.alarms == Scheduled(old(am.alarms), task, now)
  {
    ScheduleDeadlineNotification(am, task, now);
    SchedulePriorityCheckNotification(am, task, now);
  }

  /** `scheduleDeadlineNotification`: nothing when the reminder time has come. */
  method ScheduleDeadlineNotification(am: AlarmManager, task: Task, now: int)
    modifies am
    ensures am.alarms == WithDeadlineAlarm(old(am.alarms), task, now)
  {
    var notificationTime := task.deadlineDateTime - HourMs;
    if notificationTime <= now {
      return;
    }
    am.Set(DeadlineKey(task.id), Alarm(notificationTime, DeadlinePayload(task.id, task.title, task.deadlineDateTime)));
  }

  /** `schedulePriorityCheckNotification`: nothing when the check time has come. */
  method SchedulePriorityCheckNotification(am: AlarmManager, task: Task, now: int)
    modifies am
    ensures am.alarms == WithPriorityAlarm(old(am.alarms), task, now)
  {
    var checkTime := task.deadlineDateTime - DayMs;
    if checkTime <= now {
      return;
    }
    am.Set(PriorityKey(task.id), Alarm(checkTime, PriorityPayload(task.id)));
  }

  /** `cancelTaskNotifications`. */
  method CancelTaskNotifications(am: AlarmManager, taskId: int)
    modifies am
    ensures am.alarms == Cancelled(old(am.alarms), taskId)
  {
    am.Cancel(DeadlineKey(taskId));
    am.Cancel(PriorityKey(taskId));
  }

  /** `rescheduleAllAlarms` (run by `BootReceiver` after a reboot): schedules every stored task. */
  method RescheduleAllAlarms(am: AlarmManager, db: TaskDatabaseHelper, now: int)
    requires db.Valid()
    modifies am
    ensures RescheduledFrom(old(am.alarms), am.alarms, db.tasks, now)
  {
    var tasks := db.GetAllTasks();
    var i := 0;
    while i < |tasks|
      invariant 0 <= i <= |tasks|
      invariant am.alarms == ScheduledAll(old(am.alarms), tasks[..i], now)
    {
      ScheduleTaskNotifications(am, tasks[i], now);
      assert tasks[..i + 1][..i] == tasks[..i];
      i := i + 1;
    }
    assert tasks[..|tasks|] == tasks;
    ScheduledListing(old(am.alarms), tasks, db.tasks, now);
  }
}
