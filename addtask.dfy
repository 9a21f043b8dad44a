/**
 * The add-task screen (ui/tasks/AddTaskActivity.kt), which also edits a task when opened with a
 * "TASK_ID" extra. The form's fields are the class's fields; the pickers and the spinner are
 * methods that set them. Saving validates the form, inserts or updates the row and schedules the
 * alarms of the task read back by the save's result.
 */
module AddTaskScreen {
  import opened Wrappers
  import opened Text
  import opened TaskModel
  import opened Alarms
  import opened TaskDatabase
  import opened NotificationScheduler

  /** The "TASK_ID" extra's default, meaning "not editing". */
  const NoEditId: int := -1

  /** The `priorities_array` resource behind the spinner. */
  const PriorityLabels: seq<string> := [High, Medium, Low]

  /** `getIntExtra("TASK_ID", -1).takeIf { it != -1 }`. */
  function EditingId(extra: Option<int>): (r: Option<int>)
    ensures r.None? <==> extra.None? || extra.value == NoEditId
    ensures r.Some? ==> r == extra
  {
    match extra
    case None => None
    case Some(id) => if id != NoEditId then Some(id) else None
  }

  datatype SaveOutcome =
    | TitleRequired
    | StartNotPicked
    | DeadlineNotPicked
    | DeadlineNotAfterStart
    | Saved(result: int)
    | SaveFailed

  /** The alarms after a successful save, as written: the task scheduled is the one stored under
      the save's result narrowed to `Int`; for an insert that is the new row id, for an edit it is
      the number of rows updated. Nothing is cancelled first. */
  function SaveRescheduled(a: AlarmTable, tasks: TaskTable, result: int, now: int): (r: AlarmTable)
    requires forall id :: id in tasks ==> tasks[id].id == id
    ensures forall k :: Owner(k) != ToInt32(result) ==> SameAt(a, r, k)
    ensures ToInt32(result) in tasks ==> Placed(a, r, ReadTask(tasks[ToInt32(result)]), now)
  {
    match LookupTask(tasks, ToInt32(result))
    case None => a
    case Some(saved) => Scheduled(a, saved, now)
  }

  /** The alarms after a successful save, as intended: the saved task's alarms are cancelled and
      scheduled from the stored row, so it has exactly its due alarms whatever was pending. */
  function SaveRescheduledIntended(a: AlarmTable, tasks: TaskTable, savedId: int, now: int): (r: AlarmTable)
    requires forall id :: id in tasks ==> tasks[id].id == id
    ensures forall k :: Owner(k) != savedId ==> SameAt(a, r, k)
    ensures savedId in tasks ==> Armed(r, ReadTask(tasks[savedId]), now)
    ensures savedId !in tasks ==> r == a
  {
    match LookupTask(tasks, savedId)
    case None => a
    case Some(saved) =>
      CancelThenSchedule(a, saved, now);
      Scheduled(Cancelled(a, savedId), saved, now)
  }

  /** An insert's result is the new row, so a new task (with an id that fits in `Int`) gets the
      alarms its deadline calls for. */
  lemma InsertSaveSchedulesNewTask(a: AlarmTable, tasks: TaskTable, t: Task, rowId: int, now: int)
    requires forall id :: id in tasks ==> tasks[id].id == id
    requires 1 <= rowId < TwoTo31
    ensures SaveRescheduled(a, tasks[rowId := InsertedRow(t, rowId)], rowId, now)
         == Scheduled(a, t.(id := rowId, completed := false), now)
  {
    assert ToInt32(rowId) == rowId;
  }

  /** An edit's result is the update count 1, so the task scheduled is the one with id 1, if any:
      the edited task's alarms stay exactly as they were, and one still armed for the old deadline
      is not the one the new row calls for. */
  lemma EditSaveMissesEditedTask(a: AlarmTable, tasks: TaskTable, t: Task, now: int)
    requires forall id :: id in tasks ==> tasks[id].id == id
    requires t.id in tasks && t.id != 1
    ensures var r := SaveRescheduled(a, TaskUpdated(tasks, t), UpdateCount(tasks, t), now);
      && (forall k :: Owner(k) == t.id ==> SameAt(a, r, k))
      && (1 !in tasks ==> r == a)
      && (DeadlineKey(t.id) in a && a[DeadlineKey(t.id)] != DeadlineAlarm(t) ==> !Armed(r, t.(completed := false), now))
  {
    assert UpdateCount(tasks, t) == 1;
    assert ToInt32(1) == 1;
    var r := SaveRescheduled(a, TaskUpdated(tasks, t), 1, now);
    assert DeadlineAlarm(t.(completed := false)) == DeadlineAlarm(t);
    assert SameAt(a, r, DeadlineKey(t.id));
  }

  class AddTaskActivity {
    const db: TaskDatabaseHelper
    const am: AlarmManager
    var titleText: string
    var descriptionText: string
    var categoryText: string
    /** The two calendars, set by the pickers. */
    var startMillis: int
    var deadlineMillis: int
    /** Whether each picker's button still shows its "Select ..." prompt. */
    var startPicked: bool
    var deadlinePicked: bool
    var selectedPriority: string
    var editingTaskId: Option<int>
    /** Whether `finish()` was called. */
    var finished: bool

    ghost predicate Valid()
      reads this, db
    {
      db.Valid()
    }

    /** `onCreate` before the extras are read: an empty form whose calendars hold the time of
        opening, no date picked and "Medium" selected. */
    constructor (db: TaskDatabaseHelper, am: AlarmManager, openedAt: int)
      requires db.Valid()
      ensures Valid() && this.db == db && this.am == am
      ensures titleText == [] && descriptionText == [] && categoryText == []
      ensures startMillis == openedAt && deadlineMillis == openedAt
      ensures !startPicked && !deadlinePicked
      ensures selectedPriority == Medium && editingTaskId == None && !finished
    {
      this.db := db;
      this.am := am;
      titleText, descriptionText, categoryText := [], [], [];
      startMillis, deadlineMillis := openedAt, openedAt;
      startPicked, deadlinePicked := false, false;
      selectedPriority := Medium;
      editingTaskId := None;
      finished := false;
    }

    /** `loadTaskIfEditing`: with an id other than −1 the screen edits that task, and a stored task
        fills the form, picks both dates and selects its label when the spinner lists it. */
    method LoadTaskIfEditing(extra: Option<int>)
      requires Valid()
      modifies this`titleText, this`descriptionText, this`categoryText, this`startMillis, this`deadlineMillis,
               this`startPicked, this`deadlinePicked, this`selectedPriority, this`editingTaskId
      ensures Valid()
      ensures editingTaskId == EditingId(extra)
      ensures editingTaskId.Some? && editingTaskId.value in db.tasks ==>
        var existing := ReadTask(db.tasks[editingTaskId.value]);
        && titleText == existing.title && descriptionText == existing.description && categoryText == existing.category
        && startMillis == existing.startDateTime && deadlineMillis == existing.deadlineDateTime
        && startPicked && deadlinePicked
        && selectedPriority == (if existing.priority in PriorityLabels then existing.priority else old(selectedPriority))
      ensures !(editingTaskId.Some? && editingTaskId.value in db.tasks) ==>
        && titleText == old(titleText) && descriptionText == old(descriptionText) && categoryText == old(categoryText)
        && startMillis == old(startMillis) && deadlineMillis == old(deadlineMillis)
        && startPicked == old(startPicked) && deadlinePicked == old(deadlinePicked)
        && selectedPriority == old(selectedPriority)
    {
      editingTaskId := EditingId(extra);
      if editingTaskId.Some? {
        var found := db.GetTaskById(editingTaskId.value);
        if found.Some? {
          var existing := found.value;
          titleText, descriptionText, categoryText := existing.title, existing.description, existing.category;
          startMillis, deadlineMillis := existing.startDateTime, existing.deadlineDateTime;
          startPicked, deadlinePicked := true, true;
          if existing.priority in PriorityLabels {
            selectedPriority := existing.priority;
          }
        }
      }
    }

    /** Typing into the three text fields. */
    method EnterText(title: string, description: string, category: string)
      modifies this`titleText, this`descriptionText, this`categoryText
      ensures titleText == title && descriptionText == description && categoryText == category
    {
      titleText, descriptionText, categoryText := title, description, category;
    }

    /** The start picker's callback. */
    method PickStart(millis: int)
      modifies this`startMillis, this`startPicked
      ensures startMillis == millis && startPicked
    {
      startMillis, startPicked := millis, true;
    }

    /** The deadline picker's callback. */
    method PickDeadline(millis: int)
      modifies this`deadlineMillis, this`deadlinePicked
      ensures deadlineMillis == millis && deadlinePicked
    {
      deadlineMillis, deadlinePicked := millis, true;
    }

    /** The spinner's `onItemSelected`. */
    method SelectPriority(position: int)
      requires 0 <= position < |PriorityLabels|
      modifies this`selectedPriority
      ensures selectedPriority == PriorityLabels[position] && IsLabel(selectedPriority)
    {
      selectedPriority := PriorityLabels[position];
    }

    /** The spinner's `onNothingSelected`. */
    method SelectNothing()
      modifies this`selectedPriority
      ensures selectedPriority == Medium
    {
      selectedPriority := Medium;
    }

    /** The first check `saveTask` fails, in the order it makes them, or `None`. */
    function Rejection(): (r: Option<SaveOutcome>)
      reads this`titleText, this`startPicked, this`deadlinePicked, this`startMillis, this`deadlineMillis
      ensures r == Some(TitleRequired) <==> Trim(titleText) == []
      ensures r == Some(StartNotPicked) <==> Trim(titleText) != [] && !startPicked
      ensures r == Some(DeadlineNotPicked) <==> Trim(titleText) != [] && startPicked && !deadlinePicked
      ensures r == Some(DeadlineNotAfterStart) <==>
        Trim(titleText) != [] && startPicked && deadlinePicked && deadlineMillis <= startMillis
      ensures r == None <==> Trim(titleText) != [] && startPicked && deadlinePicked && startMillis < deadlineMillis
    {
      if Trim(titleText) == [] then Some(TitleRequired)
      else if !startPicked then Some(StartNotPicked)
      else if !deadlinePicked then Some(DeadlineNotPicked)
      else if deadlineMillis <= startMillis then Some(DeadlineNotAfterStart)
      else None
    }

    /** The task `saveTask` builds from the form: trimmed texts, id `editingTaskId ?: 0`, not
        completed. */
    function FormTask(): (t: Task)
      reads this`editingTaskId, this`titleText, this`descriptionText, this`categoryText, this`startMillis,
            this`deadlineMillis, this`selectedPriority
      ensures t.id == editingTaskId.GetOr(0) && !t.completed && t.priority == selectedPriority
      ensures t.title == Trim(titleText) && t.description == Trim(descriptionText) && t.category == Trim(categoryText)
      ensures t.startDateTime == startMillis && t.deadlineDateTime == deadlineMillis
    {
      Task(editingTaskId.GetOr(0), Trim(titleText), Trim(descriptionText), startMillis, deadlineMillis,
           selectedPriority, Trim(categoryText), false)
    }

    /** `saveTask`: a rejected form writes nothing; otherwise the task is inserted, or updated when
        editing, any result but −1 counts as success, the screen finishes and the task read back
        by that result has its alarms scheduled. */
    method SaveTask(now: int) returns (outcome: SaveOutcome)
      requires Valid()
      modifies this`finished, db`tasks, db`nextTaskId, am
      ensures Valid()
      ensures Rejection().Some? ==>
        outcome == Rejection().value && db.tasks == old(db.tasks) && am.alarms == old(am.alarms) && finished == old(finished)
      ensures Rejection().None? ==> outcome.Saved? && finished
      ensures Rejection().None? && editingTaskId.None? ==>
        outcome.result !in old(db.tasks) && db.tasks == old(db.tasks)[outcome.result := InsertedRow(FormTask(), outcome.result)]
      ensures Rejection().None? && editingTaskId.Some? ==>
        outcome.result == UpdateCount(old(db.tasks), FormTask()) && db.tasks == TaskUpdated(old(db.tasks), FormTask())
      ensures outcome.Saved? ==> am.alarms == SaveRescheduled(old(am.alarms), db.tasks, outcome.result, now)
    {
      ghost var rejection := Rejection();
      var task := FormTask();
      if task.title == [] {
        assert rejection == Some(TitleRequired);
        return TitleRequired;
      }
      if !startPicked {
        assert rejection == Some(StartNotPicked);
        return StartNotPicked;
      }
      if !deadlinePicked {
        assert rejection == Some(DeadlineNotPicked);
        return DeadlineNotPicked;
      }
      if deadlineMillis <= startMillis {
        assert rejection == Some(DeadlineNotAfterStart);
        return DeadlineNotAfterStart;
      }
      assert rejection == None;
      outcome := Store(task, now);
    }

    /** The write and the scheduling that follow an accepted form. */
    method Store(task: Task, now: int) returns (outcome: SaveOutcome)
      requires Valid() && task.id == editingTaskId.GetOr(0)
      modifies this`finished, db`tasks, db`nextTaskId, am
      ensures Valid() && outcome.Saved? && finished
      ensures editingTaskId.None? ==>
        outcome.result !in old(db.tasks) && db.tasks == old(db.tasks)[outcome.result := InsertedRow(task, outcome.result)]
      ensures editingTaskId.Some? ==>
        outcome.result == UpdateCount(old(db.tasks), task) && db.tasks == TaskUpdated(old(db.tasks), task)
      ensures am.alarms == SaveRescheduled(old(am.alarms), db.tasks, outcome.result, now)
    {
      var result: int;
      if editingTaskId.None? {
        result := db.InsertTask(task);
      } else {
        result := db.UpdateTask(task);
      }
      if result != -1 {
        finished := true;
        var savedTask := db.GetTaskById(ToInt32(result));
        if savedTask.Some? {
          ScheduleTaskNotifications(am, savedTask.value, now);
        }
        outcome := Saved(result);
      } else {
        outcome := SaveFailed;
      }
    }
  }
}
