/**
 * The edit screen (ui/tasks/EditTaskActivity.kt). It is opened with the task id under the
 * "task_id" extra (−1 when absent), fills the form from the stored task and, on save, updates the
 * row and re-arms the task's alarms from the updated task.
 */
module EditTaskScreen {
  import opened Text
  import opened TaskModel
  import opened Alarms
  import opened TaskDatabase
  import opened NotificationScheduler
  import opened AddTaskScreen

  /** The key the edit screen reads the task id from, and its default. */
  const ExtraTaskId: string := "task_id"
  const InvalidTaskId: int := -1

  /** An intent's integer extras. */
  type Extras = map<string, int>

  /** `getIntExtra("task_id", -1)`. */
  function TaskIdFrom(extras: Extras): (id: int)
    ensures ExtraTaskId in extras ==> id == extras[ExtraTaskId]
    ensures ExtraTaskId !in extras ==> id == InvalidTaskId
  {
    if ExtraTaskId in extras then extras[ExtraTaskId] else InvalidTaskId
  }

  /** The extras `EditTaskActivity.launch` puts on the intent. */
  function LaunchExtras(taskId: int): (extras: Extras)
    ensures TaskIdFrom(extras) == taskId
  {
    map[ExtraTaskId := taskId]
  }

  datatype EditOutcome = NoSaveHandler | EditTitleRequired | Updated | UpdateFailed

  class EditTaskActivity {
    const db: TaskDatabaseHelper
    const am: AlarmManager
    var taskId: int
    var titleText: string
    var descriptionText: string
    var categoryText: string
    var startMillis: int
    var deadlineMillis: int
    var selectedPriority: string
    /** Whether the save button has its listener; it is attached only after a valid id was read. */
    var saveEnabled: bool
    var finished: bool

    ghost predicate Valid()
      reads this, db
    {
      db.Valid()
    }

    /** `onCreate`: an id of −1 finishes the screen before the save button gets its listener; a
        stored task fills the form and selects its own label. */
    constructor (db: TaskDatabaseHelper, am: AlarmManager, extras: Extras, openedAt: int)
      requires db.Valid()
      ensures Valid() && this.db == db && this.am == am
      ensures taskId == TaskIdFrom(extras)
      ensures saveEnabled <==> taskId != InvalidTaskId
      ensures finished <==> taskId == InvalidTaskId
      ensures taskId != InvalidTaskId && taskId in db.tasks ==>
        var existing := ReadTask(db.tasks[taskId]);
        && titleText == existing.title && descriptionText == existing.description && categoryText == existing.category
        && startMillis == existing.startDateTime && deadlineMillis == existing.deadlineDateTime
        && selectedPriority == existing.priority
      ensures !(taskId != InvalidTaskId && taskId in db.tasks) ==>
        && titleText == [] && descriptionText == [] && categoryText == []
        && startMillis == openedAt && deadlineMillis == openedAt && selectedPriority == Medium
    {
      this.db := db;
      this.am := am;
      var id := TaskIdFrom(extras);
      taskId := id;
      titleText, descriptionText, categoryText := [], [], [];
      startMillis, deadlineMillis := openedAt, openedAt;
      selectedPriority := Medium;
      saveEnabled, finished := false, false;
      if id == InvalidTaskId {
        finished := true;
      } else {
        var found := db.GetTaskById(id);
        if found.Some? {
          var existing := found.value;
          titleText, descriptionText, categoryText := existing.title, existing.description, existing.category;
          startMillis, deadlineMillis := existing.startDateTime, existing.deadlineDateTime;
          selectedPriority := existing.priority;
        }
        saveEnabled := true;
      }
    }

    /** Typing into the three text fields. */
    method EnterText(title: string, description: string, category: string)
      modifies this`titleText, this`descriptionText, this`categoryText
      ensures titleText == title && descriptionText == description && categoryText == category
    {
      titleText, descriptionText, categoryText := title, description, category;
    }

    /** The start picker's callback. */
    method PickStart(millis: int)
      modifies this`startMillis
      ensures startMillis == millis
    {
      startMillis := millis;
    }

    /** The deadline picker's callback; nothing compares it with the start. */
    method PickDeadline(millis: int)
      modifies this`deadlineMillis
      ensures deadlineMillis == millis
    {
      deadlineMillis := millis;
    }

    /** The spinner's `onItemSelected`, over `arrayOf("High", "Medium", "Low")`; `onNothingSelected`
        does nothing. */
    method SelectPriority(position: int)
      requires 0 <= position < |PriorityLabels|
      modifies this`selectedPriority
      ensures selectedPriority == PriorityLabels[position] && IsLabel(selectedPriority)
    {
      selectedPriority := PriorityLabels[position];
    }

    /** The task the save handler builds: this screen's id, the trimmed texts and the form's dates
        as they are, with no check that the deadline follows the start. */
    function UpdatedTask(): (t: Task)
      reads this`taskId, this`titleText, this`descriptionText, this`categoryText, this`startMillis,
            this`deadlineMillis, this`selectedPriority
      ensures t.id == taskId && !t.completed && t.priority == selectedPriority
      ensures t.title == Trim(titleText) && t.description == Trim(descriptionText) && t.category == Trim(categoryText)
      ensures t.startDateTime == startMillis && t.deadlineDateTime == deadlineMillis
    {
      Task(taskId, Trim(titleText), Trim(descriptionText), startMillis, deadlineMillis, selectedPriority,
           Trim(categoryText), false)
    }

    /** The save button. Without a listener nothing happens; an empty trimmed title writes nothing;
        otherwise the row is updated whatever the dates, and only when a row was updated does the
        screen finish and the task's alarms get cancelled and scheduled from the updated task. */
    method Save(now: int) returns (outcome: EditOutcome)
      requires Valid()
      modifies this`finished, db`tasks, am
      ensures Valid()
      ensures outcome == NoSaveHandler <==> !saveEnabled
      ensures outcome == EditTitleRequired <==> saveEnabled && UpdatedTask().title == []
      ensures outcome == Updated <==> saveEnabled && UpdatedTask().title != [] && taskId in old(db.tasks)
      ensures outcome == Updated || outcome == UpdateFailed ==> db.tasks == TaskUpdated(old(db.tasks), UpdatedTask())
      ensures outcome != Updated ==> am.alarms == old(am.alarms) && finished == old(finished)
      ensures outcome != Updated && outcome != UpdateFailed ==> db.tasks == old(db.tasks)
      ensures outcome == Updated ==>
        && finished
        && am.alarms == SaveRescheduledIntended(old(am.alarms), db.tasks, taskId, now)
        && Armed(am.alarms, UpdatedTask(), now)
    {
      if !saveEnabled {
        return NoSaveHandler;
      }
      var updatedTask := UpdatedTask();
      if updatedTask.title == [] {
        return EditTitleRequired;
      }
      outcome := Apply(updatedTask, now);
      assert outcome != NoSaveHandler && outcome != EditTitleRequired;
      assert updatedTask == UpdatedTask();
    }

    /** The update and, when a row was updated, the finish and the re-arming. */
    method Apply(updatedTask: Task, now: int) returns (outcome: EditOutcome)
      requires Valid() && updatedTask.id == taskId && !updatedTask.completed
      modifies this`finished, db`tasks, am
      ensures Valid()
      ensures outcome == Updated <==> taskId in old(db.tasks)
      ensures outcome == Updated || outcome == UpdateFailed
      ensures db.tasks == TaskUpdated(old(db.tasks), updatedTask)
      ensures outcome != Updated ==> am.alarms == old(am.alarms) && finished == old(finished)
      ensures outcome == Updated ==>
        && finished
        && am.alarms == SaveRescheduledIntended(old(am.alarms), db.tasks, taskId, now)
        && Armed(am.alarms, updatedTask, now)
    {
      var result := db.UpdateTask(updatedTask);
      if result > 0 {
        finished := true;
        CancelTaskNotifications(am, taskId);
        ScheduleTaskNotifications(am, updatedTask, now);
        UpdateThenLookup(old(db.tasks), updatedTask);
        assert ReadTask(db.tasks[taskId]) == updatedTask;
        outcome := Updated;
      } else {
        outcome := UpdateFailed;
      }
    }
  }
}
