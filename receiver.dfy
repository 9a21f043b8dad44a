/**
 * `PriorityChangeReceiver` (ui/notifications/PriorityChangeReceiver.kt): when a
 * priority-check alarm fires, the task is re-read and relabelled by a second
 * day-count table (at most 1 day High, at most 3 Medium, otherwise Low), and a
 * notification reports the change. The notification is returned as a value.
 */
module PriorityReceiver {
  import opened Wrappers
  import opened Text
  import opened TaskModel
  import opened PriorityPolicy
  import opened TaskDatabase

  /** `getIntExtra("task_id", 0)`'s default. */
  const MissingTaskId: int := 0

  /** Offset of the notification id from the task id. */
  const NoticeIdOffset: int := 1000

  /** The priority-change notification: its id and the values its texts show. */
  datatype PriorityNotice = PriorityNotice(
    notificationId: int, title: string, oldPriority: string, newPriority: string, daysRemaining: int)

  /** `((deadline - now) / (24 * 60 * 60 * 1000)).toInt()`: whole days left, rounded toward zero,
      kept to 32 bits. */
  function DaysRemaining(deadline: int, now: int): (d: int)
    ensures -TwoTo31 <= d < TwoTo31
    ensures -TwoTo31 <= TruncDiv(deadline - now, DayMs) < TwoTo31 ==> d == TruncDiv(deadline - now, DayMs)
  {
    ToInt32(TruncDiv(deadline - now, DayMs))
  }

  /** The receiver's table. */
  function RecheckPriority(daysRemaining: int): (p: string)
    ensures IsLabel(p)
    ensures p == High <==> daysRemaining <= 1
    ensures p == Medium <==> 2 <= daysRemaining <= 3
    ensures p == Low <==> 4 <= daysRemaining
  {
    if daysRemaining <= 1 then High
    else if daysRemaining <= 3 then Medium
    else Low
  }

  /** The `tasks` table after `checkAndNotifyPriorityChange(taskId)`: a missing row is left alone;
      otherwise only that row's label changes, to the one the receiver's table gives. */
  function Rechecked(tasks: TaskTable, taskId: int, now: int): (r: TaskTable)
    requires forall id :: id in tasks ==> tasks[id].id == id
    ensures r.Keys == tasks.Keys
    ensures forall id :: id in tasks && id != taskId ==> r[id] == tasks[id]
    ensures taskId in tasks ==>
      r[taskId] == tasks[taskId].(priority := RecheckPriority(DaysRemaining(tasks[taskId].deadlineDateTime, now)))
  {
    match LookupTask(tasks, taskId)
    case None => tasks
    case Some(task) =>
      var newPriority := RecheckPriority(DaysRemaining(task.deadlineDateTime, now));
      if newPriority != task.priority then TaskUpdated(tasks, WithPriority(task, newPriority)) else tasks
  }

  /** A deadline that has passed, by fewer than 2^31 days, counts as at most 0 days left and so
      is relabelled High. */
  lemma RecheckPastDeadlineIsHigh(deadline: int, now: int)
    requires deadline <= now
    requires now - deadline < TwoTo31 * DayMs
    ensures DaysRemaining(deadline, now) <= 0
    ensures RecheckPriority(DaysRemaining(deadline, now)) == High
  {
    var q := (now - deadline) / DayMs;
    assert 0 <= q < TwoTo31;
    assert TruncDiv(deadline - now, DayMs) == -q;
  }

  /**
   * The two tables disagree exactly when 2, 4 or 5 whole days remain (for day counts that fit in
   * 32 bits): 2 days is High for `calculatePriority` but Medium here, 4 and 5 days are Medium
   * there but Low here.
   */
  lemma RulesDisagree(t: Task, now: int)
    requires -TwoTo31 <= TruncDiv(t.deadlineDateTime - now, DayMs) < TwoTo31
    ensures var d := TruncDiv(t.deadlineDateTime - now, DayMs);
      RecheckPriority(DaysRemaining(t.deadlineDateTime, now)) != CalculatePriority(t, now) <==> d == 2 || d == 4 || d == 5
  {
    var diff := t.deadlineDateTime - now;
    if diff >= 0 {
      assert TruncDiv(diff, DayMs) == diff / DayMs;
    }
  }

  /** A task due in two and a half days is High for `calculatePriority`, so the check alarm relabels it Medium. */
  lemma RulesDisagreeAtTwoDays(t: Task, now: int)
    requires t.deadlineDateTime == now + 2 * DayMs + DayMs / 2
    ensures CalculatePriority(t, now) == High
    ensures RecheckPriority(DaysRemaining(t.deadlineDateTime, now)) == Medium
  {
    assert TruncDiv(t.deadlineDateTime - now, DayMs) == 2;
  }

  /** The check alarm fires a day before the deadline; at that moment both tables say High. */
  lemma RulesAgreeWhenAlarmFires(t: Task, now: int)
    requires now == t.deadlineDateTime - DayMs
    ensures CalculatePriority(t, now) == High
    ensures RecheckPriority(DaysRemaining(t.deadlineDateTime, now)) == High
  {
    assert TruncDiv(t.deadlineDateTime - now, DayMs) == 1;
  }

  /** The receiver with `calculatePriority` as its one rule. */
  function RecheckedCanonical(tasks: TaskTable, taskId: int, now: int): (r: TaskTable)
    requires forall id :: id in tasks ==> tasks[id].id == id
    ensures r.Keys == tasks.Keys
    ensures forall id :: id in tasks && id != taskId ==> r[id] == tasks[id]
    ensures taskId in tasks ==> r[taskId] == tasks[taskId].(priority := CalculatePriority(ReadTask(tasks[taskId]), now))
  {
    match LookupTask(tasks, taskId)
    case None => tasks
    case Some(task) =>
      var newPriority := CalculatePriority(task, now);
      if newPriority != task.priority then TaskUpdated(tasks, WithPriority(task, newPriority)) else tasks
  }

  /** With one rule, the label the receiver writes is the one `calculatePriority` gives, so a later
      recalculation at the same instant leaves it in place. */
  lemma RecheckedCanonicalAgrees(tasks: TaskTable, taskId: int, now: int)
    requires forall id :: id in tasks ==> tasks[id].id == id
    requires taskId in tasks
    ensures var t := ReadTask(RecheckedCanonical(tasks, taskId, now)[taskId]);
      CalculatePriority(t, now) == t.priority
  {
    CalculatePriorityIgnoresLabel(ReadTask(tasks[taskId]), CalculatePriority(ReadTask(tasks[taskId]), now), now);
  }

  /** `checkAndNotifyPriorityChange`: relabels the task by the receiver's table and reports a change. */
  method CheckAndNotifyPriorityChange(db: TaskDatabaseHelper, taskId: int, now: int) returns (notice: Option<PriorityNotice>)
    requires db.Valid()
    modifies db`tasks
    ensures db.Valid()
    ensures db.tasks == Rechecked(old(db.tasks), taskId, now)
    ensures notice.Some? <==> taskId in old(db.tasks) && old(db.tasks)[taskId].priority != db.tasks[taskId].priority
    ensures notice.Some? ==>
      var row := old(db.tasks)[taskId];
      notice.value == PriorityNotice(taskId + NoticeIdOffset, row.title, row.priority, db.tasks[taskId].priority,
                                     DaysRemaining(row.deadlineDateTime, now))
  {
    var found := db.GetTaskById(taskId);
    if found.None? {
      return None;
    }
    var task := found.value;
    var daysRemaining := DaysRemaining(task.deadlineDateTime, now);
    var newPriority := RecheckPriority(daysRemaining);
    notice := None;
    if newPriority != task.priority {
      var updatedTask := WithPriority(task, newPriority);
      var _ := db.UpdateTask(updatedTask);
      notice := Some(PriorityNotice(taskId + NoticeIdOffset, task.title, task.priority, newPriority, daysRemaining));
    }
  }

  /** `onReceive`: the task id extra, 0 when absent, then the check. */
  method OnReceive(db: TaskDatabaseHelper, taskIdExtra: Option<int>, now: int) returns (notice: Option<PriorityNotice>)
    requires db.Valid()
    modifies db`tasks
    ensures db.Valid()
    ensures db.tasks == Rechecked(old(db.tasks), taskIdExtra.GetOr(MissingTaskId), now)
    ensures taskIdExtra.None? ==> db.tasks == old(db.tasks) && notice.None?
  {
    notice := CheckAndNotifyPriorityChange(db, taskIdExtra.GetOr(MissingTaskId), now);
  }
}
