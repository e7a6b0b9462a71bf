/** Tasks and the list transformations the application applies to its task list. The list is
    ordered by insertion; ids are supplied by the caller and are not checked for uniqueness,
    so every transformation treats "the task with this id" as "every task with this id". */
module Tasks {
  import opened Wrappers

  /** Ids are `Date.now().toString()`: never empty, so a set reference is always truthy. */
  type TaskId = s: string | |s| > 0 witness "0"

  datatype Task = Task(id: TaskId, title: string, completed: bool, pomodoroCount: nat,
                       createdAt: string)

  /** The fields an update may carry; absent fields keep their old value
      (`{ ...task, ...updates }`). */
  datatype TaskPatch = TaskPatch(title: Option<string>, completed: Option<bool>,
                                 pomodoroCount: Option<nat>)

  /** The only update the task list sends: `{ completed: true }`. */
  const CompletePatch := TaskPatch(None, Some(true), None)

  /** A freshly added task: not completed, no pomodoros yet. */
  function NewTask(id: TaskId, title: string, createdAt: string): Task {
    Task(id, title, false, 0, createdAt)
  }

  function Merge(t: Task, p: TaskPatch): Task {
    Task(t.id, p.title.GetOr(t.title), p.completed.GetOr(t.completed),
         p.pomodoroCount.GetOr(t.pomodoroCount), t.createdAt)
  }

  predicate HasId(tasks: seq<Task>, id: TaskId) {
    exists i :: 0 <= i < |tasks| && tasks[i].id == id
  }

  /** Some task with this id exists and is not completed. */
  predicate HasOpenTask(tasks: seq<Task>, id: TaskId) {
    exists i :: 0 <= i < |tasks| && tasks[i].id == id && !tasks[i].completed
  }

  function CountId(tasks: seq<Task>, id: TaskId): nat {
    if tasks == [] then 0 else (if tasks[0].id == id then 1 else 0) + CountId(tasks[1..], id)
  }

  function TotalPomodoros(tasks: seq<Task>): nat {
    if tasks == [] then 0 else tasks[0].pomodoroCount + TotalPomodoros(tasks[1..])
  }

  /** `tasks.map(t => t.id === id ? { ...t, pomodoroCount: t.pomodoroCount + 1 } : t)`:
      the same list in the same order, where only tasks with this id gain one pomodoro. */
  function CreditPomodoro(tasks: seq<Task>, id: TaskId): (r: seq<Task>)
    ensures |r| == |tasks|
    ensures forall i :: 0 <= i < |r| ==>
      && r[i].id == tasks[i].id && r[i].title == tasks[i].title
      && r[i].completed == tasks[i].completed && r[i].createdAt == tasks[i].createdAt
      && r[i].pomodoroCount == tasks[i].pomodoroCount + (if tasks[i].id == id then 1 else 0)
  {
    if tasks == [] then []
    else
      var t := tasks[0];
      [if t.id == id then t.(pomodoroCount := t.pomodoroCount + 1) else t]
        + CreditPomodoro(tasks[1..], id)
  }

  /** `tasks.map(t => t.id === id ? { ...t, ...patch } : t)`: only tasks with this id change. */
  function ApplyPatch(tasks: seq<Task>, id: TaskId, p: TaskPatch): (r: seq<Task>)
    ensures |r| == |tasks|
    ensures forall i :: 0 <= i < |r| ==>
      r[i] == if tasks[i].id == id then Merge(tasks[i], p) else tasks[i]
  {
    if tasks == [] then [] else
      [if tasks[0].id == id then Merge(tasks[0], p) else tasks[0]]
        + ApplyPatch(tasks[1..], id, p)
  }

  /** `tasks.filter(t => t.id !== id)`: no task with this id remains, every other task does,
      and nothing new appears. */
  function RemoveTask(tasks: seq<Task>, id: TaskId): (r: seq<Task>)
    ensures forall i :: 0 <= i < |r| ==> r[i].id != id
    ensures forall t :: t in r <==> t in tasks && t.id != id
    ensures |r| == |tasks| - CountId(tasks, id)
  {
    if tasks == [] then []
    else if tasks[0].id == id then RemoveTask(tasks[1..], id)
    else [tasks[0]] + RemoveTask(tasks[1..], id)
  }

  /** `tasks.find(t => t.id === id)`: the first task with this id, if any. */
  function FindTask(tasks: seq<Task>, id: TaskId): (r: Option<Task>)
    ensures r.Some? <==> HasId(tasks, id)
    ensures r.Some? ==> exists i :: 0 <= i < |tasks| && tasks[i] == r.value && tasks[i].id == id
                                    && forall j :: 0 <= j < i ==> tasks[j].id != id
  {
    if tasks == [] then None
    else if tasks[0].id == id then Some(tasks[0])
    else
      var r := FindTask(tasks[1..], id);
      if r.Some? then
        var i :| 0 < i + 1 <= |tasks| - 1 && tasks[1..][i] == r.value && tasks[1..][i].id == id
                 && forall j :: 0 <= j < i ==> tasks[1..][j].id != id;
        assert tasks[i + 1] == r.value;
        r
      else r
  }

  /** Crediting the active task adds one pomodoro per task carrying its id to the list's
      total: exactly one when ids are unique. */
  lemma {:induction false} CreditPomodoroTotal(tasks: seq<Task>, id: TaskId)
    ensures TotalPomodoros(CreditPomodoro(tasks, id)) == TotalPomodoros(tasks) + CountId(tasks, id)
  {
    if tasks != [] {
      CreditPomodoroTotal(tasks[1..], id);
      var r := CreditPomodoro(tasks, id);
      assert r[1..] == CreditPomodoro(tasks[1..], id);
    }
  }

  /** Filtering works piecewise, so the survivors keep their relative order. */
  lemma {:induction false} RemoveTaskConcat(a: seq<Task>, b: seq<Task>, id: TaskId)
    ensures RemoveTask(a + b, id) == RemoveTask(a, id) + RemoveTask(b, id)
  {
    if a != [] {
      var ab := a + b;
      assert ab[0] == a[0] && ab[1..] == a[1..] + b;
      RemoveTaskConcat(a[1..], b, id);
      var rest := RemoveTask(a[1..], id) + RemoveTask(b, id);
      assert RemoveTask(ab[1..], id) == rest;
      if a[0].id != id {
        assert RemoveTask(ab, id) == [a[0]] + rest;
        assert RemoveTask(a, id) == [a[0]] + RemoveTask(a[1..], id);
      }
    } else {
      assert a + b == b;
    }
  }
}
