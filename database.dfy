/**
 * `TaskDatabaseHelper` (db/TaskDatabaseHelper.kt): the `tasks` and `users`
 * tables as maps from primary key to row, with SQLite's AUTOINCREMENT counters.
 * The helper's methods change the tables in place; each is specified by a
 * function on the table below, and the lemmas are stated about those functions.
 */
module TaskDatabase {
  import opened Wrappers
  import opened TaskModel
  import opened TaskLists

  type TaskTable = map<int, TaskRow>

  /** A row of the `users` table; `email` is UNIQUE and the password column holds the hex digest. */
  datatype UserRow = UserRow(userId: int, email: string, password: string, name: string)

  /** What `getUserByEmail` returns: the `id`, `email` and `name` entries of its map. */
  datatype UserInfo = UserInfo(id: int, email: string, name: string)

  type UserTable = map<int, UserRow>

  /** Keys are below the AUTOINCREMENT counter, each row carries its own key, `completed` is 0 or 1. */
  ghost predicate TasksWellFormed(tasks: TaskTable, nextId: int) {
    && 1 <= nextId
    && forall id :: id in tasks ==>
         1 <= id < nextId && tasks[id].id == id && (tasks[id].completed == 0 || tasks[id].completed == 1)
  }

  ghost predicate UsersWellFormed(users: UserTable, nextId: int) {
    && 1 <= nextId
    && (forall uid :: uid in users ==> 1 <= uid < nextId && users[uid].userId == uid)
    && (forall u, v :: u in users && v in users && users[u].email == users[v].email ==> u == v)
  }

  /** How `getAllTasks` and `getTaskById` build a Task: seven columns, never `completed`. */
  function ReadTask(row: TaskRow): (t: Task)
    ensures !t.completed
    ensures t == FromCursor(row).(completed := false)
  {
    Task(row.id, row.title, row.description, row.startDateTime, row.deadlineDateTime,
         row.priority, row.category, false)
  }

  /** The row `insertTask` creates: the six content columns of `t`, a fresh key, and `completed` at its default 0. */
  function InsertedRow(t: Task, id: int): (row: TaskRow)
    ensures row.id == id && row.completed == 0
    ensures ReadTask(row) == t.(id := id, completed := false)
  {
    TaskRow(id, t.title, t.description, t.startDateTime, t.deadlineDateTime, t.priority, t.category, 0)
  }

  /** The row `updateTask` leaves: the six content columns from `t`; key and `completed` kept. */
  function UpdatedRow(row: TaskRow, t: Task): (r: TaskRow)
    ensures r.id == row.id && r.completed == row.completed
    ensures ReadTask(r) == t.(id := row.id, completed := false)
  {
    TaskRow(row.id, t.title, t.description, t.startDateTime, t.deadlineDateTime, t.priority, t.category, row.completed)
  }

  /** The table after `updateTask(t)`: only the row keyed `t.id` changes, and only if it exists. */
  function TaskUpdated(tasks: TaskTable, t: Task): (r: TaskTable)
    ensures r.Keys == tasks.Keys
    ensures forall id :: id in tasks && id != t.id ==> r[id] == tasks[id]
    ensures t.id in tasks ==> r[t.id] == UpdatedRow(tasks[t.id], t)
  {
    if t.id in tasks then tasks[t.id := UpdatedRow(tasks[t.id], t)] else tasks
  }

  /** The number of rows `updateTask(t)` affects. */
  function UpdateCount(tasks: TaskTable, t: Task): int {
    if t.id in tasks then 1 else 0
  }

  /** The table after `updateTaskCompletion(id, completed)`: only that row's `completed` column changes. */
  function CompletionSet(tasks: TaskTable, id: int, completed: bool): (r: TaskTable)
    ensures r.Keys == tasks.Keys
    ensures forall k :: k in tasks && k != id ==> r[k] == tasks[k]
    ensures id in tasks ==> r[id] == tasks[id].(completed := CompletedColumn(completed))
  {
    if id in tasks then tasks[id := tasks[id].(completed := CompletedColumn(completed))] else tasks
  }

  /** `getTaskById` on a table. */
  function LookupTask(tasks: TaskTable, id: int): (r: Option<Task>)
    ensures r.Some? <==> id in tasks
    ensures r.Some? ==> r.value == ReadTask(tasks[id]) && !r.value.completed
  {
    if id in tasks then Some(ReadTask(tasks[id])) else None
  }

  /** `ts` holds every row of `tasks` exactly once, each as `getAllTasks` reads it. */
  ghost predicate ListsTable(ts: seq<Task>, tasks: TaskTable) {
    && (forall i :: 0 <= i < |ts| ==> ts[i].id in tasks && ts[i] == ReadTask(tasks[ts[i].id]))
    && (forall i, j :: 0 <= i < j < |ts| ==> ts[i].id != ts[j].id)
    && (forall id :: id in tasks ==> exists i :: 0 <= i < |ts| && ts[i].id == id)
  }

  /** `ts` holds every row of `tasks` exactly once, each read with all eight columns as
      `Task.fromCursor` reads it. */
  ghost predicate ListsTableFully(ts: seq<Task>, tasks: TaskTable) {
    && (forall i :: 0 <= i < |ts| ==> ts[i].id in tasks && ts[i] == FromCursor(tasks[ts[i].id]))
    && (forall i, j :: 0 <= i < j < |ts| ==> ts[i].id != ts[j].id)
    && (forall id :: id in tasks ==> exists i :: 0 <= i < |ts| && ts[i].id == id)
  }

  /** Filtering a full listing of a table lists exactly the rows whose task passes the test. */
  lemma FilterListsRows(all: seq<Task>, tasks: TaskTable, keep: Task -> bool, sub: TaskTable)
    requires ListsTable(all, tasks)
    requires forall id :: id in sub <==> id in tasks && keep(ReadTask(tasks[id]))
    requires forall id :: id in sub ==> sub[id] == tasks[id]
    ensures ListsTable(Filter(all, keep), sub)
  {
    var r := Filter(all, keep);
    FilterKeepsDistinctIds(all, keep);
    forall id | id in sub ensures exists i :: 0 <= i < |r| && r[i].id == id {
      var j :| 0 <= j < |all| && all[j].id == id;
      assert all[j] in r;
      var i :| 0 <= i < |r| && r[i] == all[j];
    }
    forall i | 0 <= i < |r| ensures r[i].id in sub && r[i] == ReadTask(sub[r[i].id]) {
      assert r[i] in all;
    }
  }

  /** Reading back an updated task gives the task written, except that `completed` reads as false. */
  lemma UpdateThenLookup(tasks: TaskTable, t: Task)
    requires forall id :: id in tasks ==> tasks[id].id == id
    ensures LookupTask(TaskUpdated(tasks, t), t.id) == if t.id in tasks then Some(t.(completed := false)) else None
  {
  }

  /** `getTaskById` cannot see `updateTaskCompletion`: the flag is written but never read back. */
  lemma CompletionIsInvisible(tasks: TaskTable, id: int, k: int, completed: bool)
    ensures LookupTask(CompletionSet(tasks, id, completed), k) == LookupTask(tasks, k)
  {
  }

  /** The stored flag does hold what was written, as `Task.fromCursor` would read it. */
  lemma CompletionIsStored(tasks: TaskTable, id: int, completed: bool)
    requires id in tasks
    ensures FromCursor(CompletionSet(tasks, id, completed)[id]).completed == completed
  {
  }

  lemma SomeKey(keys: set<int>) returns (x: int)
    requires keys != {}
    ensures x in keys
  {
    if forall y :: y !in keys { assert false; }
    x :| x in keys;
  }

  lemma HasMember(keys: set<int>)
    requires |keys| > 0
    ensures exists x :: x in keys
  {
    var x := SomeKey(keys);
  }

  /** A non-empty set of keys has a row with the earliest deadline. */
  lemma {:induction false} EarliestExists(tasks: TaskTable, keys: set<int>)
    requires keys != {} && keys <= tasks.Keys
    ensures exists id :: id in keys && forall j :: j in keys ==> tasks[id].deadlineDateTime <= tasks[j].deadlineDateTime
  {
    var x := SomeKey(keys);
    if keys != {x} {
      var rest := keys - {x};
      EarliestExists(tasks, rest);
      var m :| m in rest && forall j :: j in rest ==> tasks[m].deadlineDateTime <= tasks[j].deadlineDateTime;
      if tasks[x].deadlineDateTime <= tasks[m].deadlineDateTime {
        assert forall j :: j in keys ==> tasks[x].deadlineDateTime <= tasks[j].deadlineDateTime;
      } else {
        assert forall j :: j in keys ==> tasks[m].deadlineDateTime <= tasks[j].deadlineDateTime;
      }
    } else {
      assert forall j :: j in keys ==> j == x;
    }
  }

  /** The state of `getAllTasks`'s cursor: `ts` holds, once each and in deadline order, the rows
      no longer `remaining`, and none of them is due after a remaining row. */
  ghost predicate Drained(ts: seq<Task>, tasks: TaskTable, remaining: set<int>) {
    DrainedRows(ts, tasks, remaining) && DrainedInOrder(ts, tasks, remaining)
  }

  /** `ts` holds the rows no longer `remaining`, once each. */
  ghost predicate DrainedRows(ts: seq<Task>, tasks: TaskTable, remaining: set<int>) {
    && (forall i :: 0 <= i < |ts| ==>
          ts[i].id in tasks && ts[i].id !in remaining && ts[i] == ReadTask(tasks[ts[i].id]))
    && (forall i, j :: 0 <= i < j < |ts| ==> ts[i].id != ts[j].id)
    && (forall id :: id in tasks && id !in remaining ==> exists i :: 0 <= i < |ts| && ts[i].id == id)
  }

  /** `ts` is in deadline order and nothing in it is due after a remaining row. */
  ghost predicate DrainedInOrder(ts: seq<Task>, tasks: TaskTable, remaining: set<int>) {
    && remaining <= tasks.Keys
    && SortedByDeadline(ts)
    && (forall i, id :: 0 <= i < |ts| && id in remaining ==> ts[i].deadlineDateTime <= tasks[id].deadlineDateTime)
  }

  /** Taking the remaining row with the earliest deadline keeps the cursor's state. */
  lemma DrainStep(ts: seq<Task>, tasks: TaskTable, remaining: set<int>, id: int)
    requires forall k :: k in tasks ==> tasks[k].id == k
    requires remaining <= tasks.Keys && Drained(ts, tasks, remaining)
    requires id in remaining
    requires forall j :: j in remaining ==> tasks[id].deadlineDateTime <= tasks[j].deadlineDateTime
    ensures Drained(ts + [ReadTask(tasks[id])], tasks, remaining - {id})
  {
    DrainRowsStep(ts, tasks, remaining, id);
    DrainOrderStep(ts, tasks, remaining, id);
  }

  lemma DrainRowsStep(ts: seq<Task>, tasks: TaskTable, remaining: set<int>, id: int)
    requires forall k :: k in tasks ==> tasks[k].id == k
    requires remaining <= tasks.Keys && DrainedRows(ts, tasks, remaining)
    requires id in remaining
    ensures DrainedRows(ts + [ReadTask(tasks[id])], tasks, remaining - {id})
  {
    var ts' := ts + [ReadTask(tasks[id])];
    var rest := remaining - {id};
    assert ts'[|ts|].id == id;
    assert forall i :: 0 <= i < |ts| ==> ts'[i] == ts[i];
    forall i, j | 0 <= i < j < |ts'| ensures ts'[i].id != ts'[j].id {
      if j == |ts| {
        assert ts[i].id !in remaining;
      }
    }
    forall k | k in tasks && k !in rest ensures exists i :: 0 <= i < |ts'| && ts'[i].id == k {
      if k != id {
        var i :| 0 <= i < |ts| && ts[i].id == k;
        assert ts'[i].id == k;
      }
    }
  }

  lemma DrainOrderStep(ts: seq<Task>, tasks: TaskTable, remaining: set<int>, id: int)
    requires remaining <= tasks.Keys && DrainedInOrder(ts, tasks, remaining)
    requires id in remaining
    requires forall j :: j in remaining ==> tasks[id].deadlineDateTime <= tasks[j].deadlineDateTime
    ensures DrainedInOrder(ts + [ReadTask(tasks[id])], tasks, remaining - {id})
  {
    var ts' := ts + [ReadTask(tasks[id])];
    assert forall i :: 0 <= i < |ts| ==> ts'[i] == ts[i];
    forall i, j | 0 <= i < j < |ts'| ensures ts'[i].deadlineDateTime <= ts'[j].deadlineDateTime {
      if j == |ts| {
        assert ts[i].deadlineDateTime <= tasks[id].deadlineDateTime;
      }
    }
  }

  class TaskDatabaseHelper {
    var tasks: TaskTable
    var nextTaskId: int
    var users: UserTable
    var nextUserId: int

    ghost predicate Valid()
      reads this
    {
      TasksWellFormed(tasks, nextTaskId) && UsersWellFormed(users, nextUserId)
    }

    /** A freshly created database (`onCreate`): both tables empty. */
    constructor ()
      ensures Valid()
      ensures tasks == map[] && users == map[]
    {
      tasks, nextTaskId := map[], 1;
      users, nextUserId := map[], 1;
    }

    /** `insertTask`: stores the six content columns under a fresh key with `completed` 0, ignoring
        `task.id` and `task.completed`, and returns the new key. */
    method InsertTask(task: Task) returns (rowId: int)
      requires Valid()
      modifies this`tasks, this`nextTaskId
      ensures Valid()
      ensures rowId == old(nextTaskId) && rowId >= 1 && rowId !in old(tasks)
      ensures tasks == old(tasks)[rowId := InsertedRow(task, rowId)]
      ensures nextTaskId == rowId + 1
    {
      rowId := nextTaskId;
      tasks := tasks[rowId := InsertedRow(task, rowId)];
      nextTaskId := nextTaskId + 1;
    }

    /** `updateTask`: overwrites the six content columns of the row keyed `task.id`, never
        `completed`, and returns the number of rows affected. */
    method UpdateTask(task: Task) returns (rows: int)
      requires Valid()
      modifies this`tasks
      ensures Valid()
      ensures rows == UpdateCount(old(tasks), task) && (rows == 1 <==> task.id in old(tasks))
      ensures tasks == TaskUpdated(old(tasks), task)
    {
      if task.id in tasks {
        tasks := tasks[task.id := UpdatedRow(tasks[task.id], task)];
        rows := 1;
      } else {
        rows := 0;
      }
    }

    /** `deleteTask`: removes the row keyed `id`, if any, and returns how many rows went. */
    method DeleteTask(id: int) returns (rows: int)
      requires Valid()
      modifies this`tasks
      ensures Valid()
      ensures tasks == old(tasks) - {id}
      ensures rows == (if id in old(tasks) then 1 else 0)
    {
      rows := if id in tasks then 1 else 0;
      tasks := tasks - {id};
    }

    /** `deleteTasks`: removes exactly the rows whose key is listed and returns how many went. */
    method DeleteTasks(ids: seq<int>) returns (rows: int)
      requires Valid()
      modifies this`tasks
      ensures Valid()
      ensures tasks == old(tasks) - set id | id in ids
      ensures rows == |old(tasks).Keys * set id | id in ids|
    {
      var doomed := set id | id in ids;
      rows := |tasks.Keys * doomed|;
      tasks := tasks - doomed;
    }

    /** `getAllTasks`: every row once, read without `completed`, in ascending deadline order. The
        engine's ORDER BY hands the cursor the remaining row with the earliest deadline each time;
        rows with equal deadlines come in no particular order. */
    method GetAllTasks() returns (ts: seq<Task>)
      requires Valid()
      ensures ListsTable(ts, tasks)
      ensures SortedByDeadline(ts)
      ensures forall i :: 0 <= i < |ts| ==> !ts[i].completed
    {
      ts := [];
      var remaining := tasks.Keys;
      while remaining != {}
        invariant remaining <= tasks.Keys
        invariant Drained(ts, tasks, remaining)
        decreases remaining
      {
        EarliestExists(tasks, remaining);
        var id :| id in remaining &&
          forall j :: j in remaining ==> tasks[id].deadlineDateTime <= tasks[j].deadlineDateTime;
        DrainStep(ts, tasks, remaining, id);
        ts := ts + [ReadTask(tasks[id])];
        remaining := remaining - {id};
      }
    }

    /** `getTaskById`: the row keyed `id`, read without `completed`, or null. */
    function GetTaskById(id: int): (r: Option<Task>)
      reads this
      requires Valid()
      ensures r.Some? <==> id in tasks
      ensures r.Some? ==> r.value.id == id && !r.value.completed && r.value == ReadTask(tasks[id])
    {
      LookupTask(tasks, id)
    }

    /** `updateTaskCompletion`: sets only the `completed` column of that row, to 1 or 0. */
    method UpdateTaskCompletion(taskId: int, completed: bool)
      requires Valid()
      modifies this`tasks
      ensures Valid()
      ensures tasks == CompletionSet(old(tasks), taskId, completed)
    {
      if taskId in tasks {
        tasks := tasks[taskId := tasks[taskId].(completed := CompletedColumn(completed))];
      }
    }

    /** `insertUser`: −1 when the email is already taken (the UNIQUE constraint), otherwise the new key. */
    method InsertUser(email: string, password: string, name: string) returns (rowId: int)
      requires Valid()
      modifies this`users, this`nextUserId
      ensures Valid()
      ensures rowId == -1 <==> exists uid :: uid in old(users) && old(users)[uid].email == email
      ensures rowId == -1 ==> users == old(users) && nextUserId == old(nextUserId)
      ensures rowId != -1 ==>
        && rowId == old(nextUserId) && rowId !in old(users)
        && users == old(users)[rowId := UserRow(rowId, email, password, name)]
        && nextUserId == rowId + 1
    {
      if exists uid :: uid in users && users[uid].email == email {
        rowId := -1;
      } else {
        rowId := nextUserId;
        users := users[rowId := UserRow(rowId, email, password, name)];
        nextUserId := nextUserId + 1;
      }
    }

    /** `validateUser`: the query on email and password returns at least one row. */
    function ValidateUser(email: string, password: string): (b: bool)
      reads this
      ensures b <==> exists uid :: uid in users && users[uid].email == email && users[uid].password == password
    {
      var matching := set uid | uid in users && users[uid].email == email && users[uid].password == password;
      assert forall uid :: uid in users && users[uid].email == email && users[uid].password == password ==> uid in matching;
      if |matching| > 0 then HasMember(matching); true else false
    }

    /** `getUserByEmail`: the user with that email, or null. */
    method GetUserByEmail(email: string) returns (r: Option<UserInfo>)
      requires Valid()
      ensures r.Some? <==> exists uid :: uid in users && users[uid].email == email
      ensures r.Some? ==>
        && r.value.id in users
        && users[r.value.id] == UserRow(r.value.id, email, users[r.value.id].password, r.value.name)
        && r.value.email == users[r.value.id].email == email
    {
      if exists uid :: uid in users && users[uid].email == email {
        var uid :| uid in users && users[uid].email == email;
        r := Some(UserInfo(uid, users[uid].email, users[uid].name));
      } else {
        r := None;
      }
    }
  }
}
