/**
 * The `Task` data class (model/Task.kt) and the stored row it is read from.
 * Timestamps are epoch milliseconds; priorities are the strings the app stores.
 */
module TaskModel {

  const High: string := "High"
  const Medium: string := "Medium"
  const Low: string := "Low"

  /** One of the three priority labels the app writes itself. */
  predicate IsLabel(p: string) {
    p == High || p == Medium || p == Low
  }

  datatype Task = Task(
    id: int,
    title: string,
    description: string,
    startDateTime: int,
    deadlineDateTime: int,
    priority: string,
    category: string,
    completed: bool)

  /** A row of the `tasks` table: the same columns, with `completed` stored as an INTEGER. */
  datatype TaskRow = TaskRow(
    id: int,
    title: string,
    description: string,
    startDateTime: int,
    deadlineDateTime: int,
    priority: string,
    category: string,
    completed: int)

  /** The primary constructor with Kotlin's default arguments `id = 0` and `completed = false`. */
  function NewTask(
    title: string, description: string, startDateTime: int, deadlineDateTime: int,
    priority: string, category: string, id: int := 0, completed: bool := false): Task
  {
    Task(id, title, description, startDateTime, deadlineDateTime, priority, category, completed)
  }

  /** A task built without the optional arguments has id 0 and is not completed. */
  lemma NewTaskDefaults(title: string, description: string, start: int, deadline: int, priority: string, category: string)
    ensures NewTask(title, description, start, deadline, priority, category).id == 0
    ensures !NewTask(title, description, start, deadline, priority, category).completed
  {
  }

  /** `task.copy(priority = p)`. */
  function WithPriority(t: Task, p: string): (r: Task)
    ensures r.priority == p
    ensures r.(priority := t.priority) == t
  {
    t.(priority := p)
  }

  /** `Task.fromCursor`: every column goes to the field of the same name; `completed` is true iff it holds 1. */
  function FromCursor(row: TaskRow): (t: Task)
    ensures t.completed <==> row.completed == 1
    ensures t.id == row.id && t.title == row.title && t.description == row.description
    ensures t.startDateTime == row.startDateTime && t.deadlineDateTime == row.deadlineDateTime
    ensures t.priority == row.priority && t.category == row.category
  {
    Task(row.id, row.title, row.description, row.startDateTime, row.deadlineDateTime,
         row.priority, row.category, row.completed == 1)
  }

  /** The INTEGER that `updateTaskCompletion` stores for a completion flag. */
  function CompletedColumn(completed: bool): (v: int)
    ensures v == 0 || v == 1
  {
    if completed then 1 else 0
  }

  /** Reading back a flag written as `CompletedColumn` yields the same flag. */
  lemma FromCursorReadsCompletedColumn(row: TaskRow, completed: bool)
    ensures FromCursor(row.(completed := CompletedColumn(completed))).completed == completed
  {
  }
}
