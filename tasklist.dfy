/** The task list panel: the add-task form's own state, and the rules that decide what a click
    on a listed task asks the application to do and how the task is shown. */
module TaskList {
  import opened Wrappers
  import opened Text
  import opened Tasks

  /** The add-task form: the text typed so far and whether the form is open. */
  class TaskForm {
    var newTaskTitle: string
    var isAdding: bool

    constructor ()
      ensures newTaskTitle == [] && !isAdding
    {
      newTaskTitle := [];
      isAdding := false;
    }

    /** The "+" button. */
    method OpenForm()
      modifies this
      ensures isAdding && newTaskTitle == old(newTaskTitle)
    {
      isAdding := true;
    }

    /** Typing into the title input. */
    method EditTitle(text: string)
      modifies this
      ensures newTaskTitle == text && isAdding == old(isAdding)
    {
      newTaskTitle := text;
    }

    /** The Cancel button: the form closes and forgets what was typed. */
    method CancelForm()
      modifies this
      ensures !isAdding && newTaskTitle == []
    {
      isAdding := false;
      newTaskTitle := [];
    }

    /** `handleSubmit`: a title that is not blank is handed on trimmed (the returned value is
        what `onAddTask` receives), and the form is emptied and closed; a blank title is
        ignored and the form stays as it was. */
    method HandleSubmit() returns (submitted: Option<string>)
      modifies this
      ensures Trim(old(newTaskTitle)) != [] ==>
                submitted == Some(Trim(old(newTaskTitle))) && newTaskTitle == [] && !isAdding
      ensures Trim(old(newTaskTitle)) == [] ==>
                submitted == None && newTaskTitle == old(newTaskTitle) && isAdding == old(isAdding)
      ensures submitted.Some? ==> submitted.value != [] && !AllWhitespace(submitted.value)
    {
      var title := Trim(newTaskTitle);
      if title != [] {
        submitted := Some(title);
        newTaskTitle := [];
        isAdding := false;
      } else {
        submitted := None;
      }
    }
  }

  /** A click on a task's title asks for that task to become active, unless it is completed. */
  function ActivationRequest(t: Task): (r: Option<TaskId>)
    ensures r.Some? <==> !t.completed
    ensures r.Some? ==> r.value == t.id
  {
    if !t.completed then Some(t.id) else None
  }

  /** The complete button is shown only on open tasks, and what it sends is exactly
      `{ completed: true }` for that task. */
  function CompleteRequest(t: Task): (r: Option<(TaskId, TaskPatch)>)
    ensures r.Some? <==> !t.completed
    ensures r.Some? ==> r.value.0 == t.id && r.value.1 == TaskPatch(None, Some(true), None)
  {
    if !t.completed then Some((t.id, CompletePatch)) else None
  }

  datatype StatusColor = SuccessColor | PrimaryColor | SecondaryColor

  /** `getTaskStatusColor`: completion wins over being active; anything else is secondary. */
  function TaskStatusColor(t: Task, activeTaskId: Option<TaskId>): (c: StatusColor)
    ensures c == SuccessColor <==> t.completed
    ensures c == PrimaryColor <==> !t.completed && activeTaskId == Some(t.id)
  {
    if t.completed then SuccessColor
    else if activeTaskId == Some(t.id) then PrimaryColor
    else SecondaryColor
  }

  const NoTaskSelected := "No task selected"

  /** The "Current Task" panel: hidden without an active reference; otherwise the title of
      the first task with the active id, or the placeholder when there is no such task (or its
      title is empty, which `||` treats like a missing one). */
  function CurrentTaskPanel(tasks: seq<Task>, activeTaskId: Option<TaskId>): (r: Option<string>)
    ensures r.None? <==> activeTaskId.None?
    ensures activeTaskId.Some? && !HasId(tasks, activeTaskId.value) ==> r == Some(NoTaskSelected)
    ensures activeTaskId.Some? && HasId(tasks, activeTaskId.value) ==>
      exists i :: 0 <= i < |tasks| && tasks[i].id == activeTaskId.value
                  && (forall j :: 0 <= j < i ==> tasks[j].id != activeTaskId.value)
                  && r == Some(if tasks[i].title != [] then tasks[i].title else NoTaskSelected)
  {
    if activeTaskId.None? then None
    else
      var found := FindTask(tasks, activeTaskId.value);
      if found.Some? && found.value.title != [] then Some(found.value.title)
      else Some(NoTaskSelected)
  }
}
