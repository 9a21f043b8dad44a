/**
 * The calendar screen (ui/calendar/CalendarActivity.kt): the tasks whose span of days covers the
 * selected day, and the edit, delete and completion handlers of that list. Days are fixed
 * 86 400 000 ms periods counted from the epoch, so the start of a day is the instant rounded
 * down to a multiple of a day.
 */
module CalendarScreen {
  import opened TaskModel
  import opened TaskLists
  import opened PriorityPolicy
  import opened TaskDatabase
  import opened EditTaskScreen

  /** The day an instant falls on. */
  function DayIndex(t: int): int {
    t / DayMs
  }

  /** Midnight at the start of the instant's day. */
  function StartOfDay(t: int): (s: int)
    ensures s <= t < s + DayMs
    ensures s == DayIndex(t) * DayMs
  {
    DayIndex(t) * DayMs
  }

  /** The last millisecond of the instant's day (23:59:59.999). */
  function EndOfDay(t: int): (e: int)
    ensures StartOfDay(t) <= t <= e < StartOfDay(t) + DayMs
    ensures e + 1 == StartOfDay(t) + DayMs
  {
    StartOfDay(t) + DayMs - 1
  }

  /** `isTaskOnDate`: the start of the selected day lies between the start of the task's start day
      and the end of its deadline day. The end of the selected day is computed there but unused. */
  predicate IsTaskOnDate(t: Task, date: int) {
    StartOfDay(t.startDateTime) <= StartOfDay(date) <= EndOfDay(t.deadlineDateTime)
  }

  /** Day numbers compare as the starts of their days do. */
  lemma StartOfDayOrder(a: int, b: int)
    ensures StartOfDay(a) <= StartOfDay(b) <==> DayIndex(a) <= DayIndex(b)
    ensures StartOfDay(b) <= EndOfDay(a) <==> DayIndex(b) <= DayIndex(a)
  {
    if DayIndex(a) <= DayIndex(b) {
      assert DayIndex(a) * DayMs <= DayIndex(b) * DayMs;
    } else {
      assert (DayIndex(b) + 1) * DayMs <= DayIndex(a) * DayMs;
    }
    if DayIndex(b) <= DayIndex(a) {
      assert DayIndex(b) * DayMs <= DayIndex(a) * DayMs;
    } else {
      assert (DayIndex(a) + 1) * DayMs <= DayIndex(b) * DayMs;
    }
  }

  /** A task shows on exactly the days from its start day to its deadline day, both included. */
  lemma OnDateIffWithinSpan(t: Task, date: int)
    ensures IsTaskOnDate(t, date) <==> DayIndex(t.startDateTime) <= DayIndex(date) <= DayIndex(t.deadlineDateTime)
  {
    StartOfDayOrder(t.startDateTime, date);
    StartOfDayOrder(t.deadlineDateTime, date);
  }

  /** Only the selected day matters, not the time of day. */
  lemma OnlyTheDayMatters(t: Task, d1: int, d2: int)
    requires DayIndex(d1) == DayIndex(d2)
    ensures IsTaskOnDate(t, d1) <==> IsTaskOnDate(t, d2)
  {
    OnDateIffWithinSpan(t, d1);
    OnDateIffWithinSpan(t, d2);
  }

  /** Every instant from the start to the deadline lies on a day the task shows on. */
  lemma ShownThroughoutItsSpan(t: Task, date: int)
    requires t.startDateTime <= date <= t.deadlineDateTime
    ensures IsTaskOnDate(t, date)
  {
    OnDateIffWithinSpan(t, date);
    DayIndexMonotone(t.startDateTime, date);
    DayIndexMonotone(date, t.deadlineDateTime);
  }

  lemma DayIndexMonotone(a: int, b: int)
    requires a <= b
    ensures DayIndex(a) <= DayIndex(b)
  {
    assert DayIndex(a) * DayMs <= a <= b < (DayIndex(b) + 1) * DayMs;
  }

  /** The filter in `loadTasksForSelectedDate`: the listed tasks on that day, in listing order. */
  function TasksForDate(all: seq<Task>, date: int): (r: seq<Task>)
    ensures forall t :: t in r <==> t in all && IsTaskOnDate(t, date)
    ensures SortedByDeadline(all) ==> SortedByDeadline(r)
    ensures DistinctIds(all) ==> DistinctIds(r)
  {
    FilterOnDateKeepsOrderAndIds(all, date);
    Filter(all, t => IsTaskOnDate(t, date))
  }

  lemma FilterOnDateKeepsOrderAndIds(all: seq<Task>, date: int)
    ensures SortedByDeadline(all) ==> SortedByDeadline(Filter(all, t => IsTaskOnDate(t, date)))
    ensures DistinctIds(all) ==> DistinctIds(Filter(all, t => IsTaskOnDate(t, date)))
  {
    if SortedByDeadline(all) {
      FilterKeepsDeadlineOrder(all, t => IsTaskOnDate(t, date));
    }
    if DistinctIds(all) {
      FilterKeepsDistinctIds(all, t => IsTaskOnDate(t, date));
    }
  }

  /** The rows that show on the day of `date`. */
  function RowsOnDate(tasks: TaskTable, date: int): (r: TaskTable)
    ensures forall id :: id in r <==> id in tasks && IsTaskOnDate(ReadTask(tasks[id]), date)
    ensures forall id :: id in r ==> r[id] == tasks[id]
  {
    map id | id in tasks && IsTaskOnDate(ReadTask(tasks[id]), date) :: tasks[id]
  }

  /** Filtering a full listing by the day lists exactly the rows on that day. */
  lemma DayListingListsRowsOnDate(all: seq<Task>, tasks: TaskTable, date: int)
    requires ListsTable(all, tasks)
    ensures ListsTable(TasksForDate(all, date), RowsOnDate(tasks, date))
  {
    FilterListsRows(all, tasks, t => IsTaskOnDate(t, date), RowsOnDate(tasks, date));
  }

  /** The key the calendar's edit handler puts the task id under. */
  const CalendarExtraKey: string := "TASK_ID"

  /** The extras the calendar's edit handler sends to the edit screen, as written. */
  function CalendarEditExtras(t: Task): (extras: Extras)
    ensures CalendarExtraKey in extras && extras[CalendarExtraKey] == t.id
  {
    map[CalendarExtraKey := t.id]
  }

  /** The edit screen reads "task_id", so whichever task is tapped it opens on id −1 and finishes
      at once without offering a save. */
  lemma CalendarEditOpensNoTask(t: Task)
    ensures TaskIdFrom(CalendarEditExtras(t)) == InvalidTaskId
  {
    assert ExtraTaskId !in CalendarEditExtras(t);
  }

  /** The extras as intended: those `EditTaskActivity.launch` builds, which carry the tapped id. */
  function CalendarEditExtrasIntended(t: Task): (extras: Extras)
    ensures TaskIdFrom(extras) == t.id
  {
    LaunchExtras(t.id)
  }

  class CalendarActivity {
    const db: TaskDatabaseHelper
    /** The selected instant; a picked day is stored as its midnight. */
    var selectedDate: int
    /** The list handed to the adapter. */
    var shown: seq<Task>

    ghost predicate Valid()
      reads this, db
    {
      db.Valid()
    }

    /** `onCreate`: today is selected and its tasks are listed. */
    constructor (db: TaskDatabaseHelper, now: int)
      requires db.Valid()
      ensures Valid() && this.db == db && selectedDate == now
      ensures ListsTable(shown, RowsOnDate(db.tasks, selectedDate)) && SortedByDeadline(shown)
    {
      this.db := db;
      selectedDate := now;
      new;
      LoadTasksForSelectedDate();
    }

    /** `loadTasksForSelectedDate`: the tasks on the selected day, in deadline order. */
    method LoadTasksForSelectedDate()
      requires Valid()
      modifies this`shown
      ensures ListsTable(shown, RowsOnDate(db.tasks, selectedDate)) && SortedByDeadline(shown)
    {
      var allTasks := db.GetAllTasks();
      shown := TasksForDate(allTasks, selectedDate);
      DayListingListsRowsOnDate(allTasks, db.tasks, selectedDate);
    }

    /** The date-change listener: the picked day's midnight is selected and its tasks listed. */
    method OnDateChange(pickedDay: int)
      requires Valid()
      modifies this`selectedDate, this`shown
      ensures selectedDate == StartOfDay(pickedDay)
      ensures ListsTable(shown, RowsOnDate(db.tasks, selectedDate)) && SortedByDeadline(shown)
    {
      selectedDate := StartOfDay(pickedDay);
      LoadTasksForSelectedDate();
    }

    /** The edit handler, as written: the extras it launches the edit screen with. */
    method OnEdit(task: Task) returns (extras: Extras)
      ensures extras == CalendarEditExtras(task)
      ensures TaskIdFrom(extras) == InvalidTaskId
    {
      extras := map[CalendarExtraKey := task.id];
      CalendarEditOpensNoTask(task);
    }

    /** The delete handler: a task with id 0 is ignored; otherwise its row is deleted and the day
        reloaded. Its alarms are not cancelled, as the alarm service is not touched. */
    method OnDelete(task: Task)
      requires Valid()
      modifies this`shown, db`tasks
      ensures Valid()
      ensures task.id == 0 ==> db.tasks == old(db.tasks) && shown == old(shown)
      ensures task.id != 0 ==>
        db.tasks == old(db.tasks) - {task.id} && ListsTable(shown, RowsOnDate(db.tasks, selectedDate)) && SortedByDeadline(shown)
    {
      if task.id != 0 {
        var _ := db.DeleteTask(task.id);
        LoadTasksForSelectedDate();
      }
    }

    /** The completion handler: writes only the `completed` column of that row. */
    method OnComplete(task: Task, isChecked: bool)
      requires Valid()
      modifies db`tasks
      ensures Valid()
      ensures db.tasks == CompletionSet(old(db.tasks), task.id, isChecked)
    {
      db.UpdateTaskCompletion(task.id, isChecked);
    }
  }
}
