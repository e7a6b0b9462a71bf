/** The timer screen's state holder. Each field is one piece of component state; each method
    is one handler, updating the fields step by step as the handler's setters do. Every method
    promises that the new state is the corresponding `Machine` transition of the old one. */
module App {
  import opened Wrappers
  import opened Ledger
  import opened Tasks
  import opened Timer
  import opened Machine
  import TaskList

  class PomodoroApp {
    var timeLeft: int
    var isActive: bool
    var sessionType: SessionType
    var sessionCount: nat
    var totalSessions: nat
    var settings: Settings
    var notification: Option<Notification>
    var pendingClears: nat
    var tasks: seq<Task>
    var activeTaskId: Option<TaskId>
    var dailyStats: DailyLedger

    /** The fields as one value. */
    function Snapshot(): AppState
      reads this
    {
      AppState(timeLeft, isActive, sessionType, sessionCount, totalSessions, settings,
               notification, pendingClears, tasks, activeTaskId, dailyStats)
    }

    /** The initial values of the component state. */
    constructor ()
      ensures Snapshot() == Initial
    {
      timeLeft := InitialTimeLeft;
      isActive := false;
      sessionType := Work;
      sessionCount := 0;
      totalSessions := 0;
      settings := DefaultSettings;
      notification := None;
      pendingClears := 0;
      tasks := [];
      activeTaskId := None;
      dailyStats := map[];
    }

    /** One firing of the one-second interval (`setTimeLeft(t => t - 1)`); the interval only
        exists while the timer runs with time left. */
    method Tick()
      modifies this
      ensures Snapshot() == AfterTick(old(Snapshot()))
    {
      if isActive && timeLeft > 0 {
        timeLeft := timeLeft - 1;
      }
    }

    /** The timer effect's other branch: complete the session when the countdown is at zero. */
    method CompleteIfDue(today: string)
      modifies this
      ensures Snapshot() == AfterEffect(old(Snapshot()), today)
    {
      if isActive && timeLeft > 0 {
      } else if timeLeft == 0 {
        HandleSessionComplete(today);
      }
    }

    /** `handleSessionComplete()`; `today` is the key of the current date. */
    method HandleSessionComplete(today: string)
      modifies this
      ensures Snapshot() == AfterCompletion(old(Snapshot()), today)
    {
      isActive := false;
      if sessionType == Work {
        var newSessionCount := CountWorkSession(today);
        if NextAfterWork(newSessionCount, settings.longBreakInterval) == LongBreak {
          sessionType := LongBreak;
          timeLeft := settings.longBreak * 60;
          ShowNotification("Work Complete!", "Time for a long break");
        } else {
          sessionType := ShortBreak;
          timeLeft := settings.shortBreak * 60;
          ShowNotification("Work Complete!", "Time for a short break");
        }
      } else {
        sessionType := Work;
        timeLeft := settings.workTime * 60;
        ShowNotification("Break Complete!", "Time to get back to work");
      }
    }

    /** The bookkeeping half of a completed work session: both counters, today's pomodoro
        count and the active task's pomodoro count go up by one. */
    method CountWorkSession(today: string) returns (newSessionCount: nat)
      modifies this
      ensures newSessionCount == sessionCount
      ensures Snapshot() == WorkCounted(old(Snapshot()), today)
    {
      newSessionCount := sessionCount + 1;
      sessionCount := newSessionCount;
      totalSessions := totalSessions + 1;
      UpdateDailyStats(PomodoroStat, 1, today);
      if activeTaskId.Some? {
        tasks := CreditPomodoro(tasks, activeTaskId.value);
      }
    }

    method ShowNotification(title: string, message: string)
      modifies this`notification, this`pendingClears
      ensures Snapshot() == Shown(old(Snapshot()), title, message)
    {
      notification := Some(Notification(title, message));
      pendingClears := pendingClears + 1;
    }

    /** A notification's 3-second clearing timeout fires. */
    method NotificationTimeout()
      requires pendingClears > 0
      modifies this
      ensures Snapshot() == AfterNotificationTimeout(old(Snapshot()))
    {
      notification := None;
      pendingClears := pendingClears - 1;
    }

    method ToggleTimer()
      modifies this
      ensures Snapshot() == AfterToggle(old(Snapshot()))
    {
      isActive := !isActive;
    }

    method ResetTimer()
      modifies this
      ensures Snapshot() == AfterReset(old(Snapshot()))
    {
      isActive := false;
      sessionType := Work;
      timeLeft := settings.workTime * 60;
    }

    /** `updateSetting(key, value)`, where `value` is what `parseInt` made of the input. */
    method UpdateSetting(key: SettingKey, value: int)
      modifies this
      ensures Snapshot() == AfterSettingUpdate(old(Snapshot()), key, value)
    {
      var newSettings := WithSetting(settings, key, value);
      settings := newSettings;
      if !isActive && sessionType == Work && key == WorkTimeKey {
        timeLeft := newSettings.workTime * 60;
      }
    }

    /** `addTask(title)`; the id and the creation time come from the clock. */
    method AddTask(id: TaskId, title: string, createdAt: string)
      modifies this
      ensures Snapshot() == AfterAddTask(old(Snapshot()), id, title, createdAt)
    {
      tasks := tasks + [NewTask(id, title, createdAt)];
    }

    method UpdateTask(id: TaskId, p: TaskPatch, today: string)
      modifies this
      ensures Snapshot() == AfterUpdateTask(old(Snapshot()), id, p, today)
    {
      var before := tasks;
      tasks := ApplyPatch(tasks, id, p);
      if CreditsCompletion(before, id, p) {
        UpdateDailyStats(TaskStat, 1, today);
      }
      if p.completed == Some(true) && activeTaskId == Some(id) {
        activeTaskId := None;
      }
    }

    method DeleteTask(id: TaskId)
      modifies this
      ensures Snapshot() == AfterDeleteTask(old(Snapshot()), id)
    {
      tasks := RemoveTask(tasks, id);
      if activeTaskId == Some(id) {
        activeTaskId := None;
      }
    }

    method SetActiveTask(id: TaskId)
      modifies this
      ensures Snapshot() == AfterSetActive(old(Snapshot()), id)
    {
      activeTaskId := Some(id);
    }

    /** `updateDailyStats(kind, increment)` for today's key. */
    method UpdateDailyStats(kind: StatKind, increment: nat, today: string)
      modifies this`dailyStats
      ensures dailyStats == Credit(old(dailyStats), today, kind, increment)
    {
      dailyStats := Credit(dailyStats, today, kind, increment);
    }
  }

  /** Submitting the add-task form: the trimmed title, if any, becomes a new task at the end of
      the list; a blank title changes neither the form nor the list. */
  method SubmitTaskForm(form: TaskList.TaskForm, app: PomodoroApp, id: TaskId, createdAt: string)
    modifies form, app
    ensures var title := Text.Trim(old(form.newTaskTitle));
            if title != [] then
              app.Snapshot() == AfterAddTask(old(app.Snapshot()), id, title, createdAt)
              && form.newTaskTitle == [] && !form.isAdding
            else
              app.Snapshot() == old(app.Snapshot())
              && form.newTaskTitle == old(form.newTaskTitle) && form.isAdding == old(form.isAdding)
  {
    var submitted := form.HandleSubmit();
    if submitted.Some? {
      app.AddTask(id, submitted.value, createdAt);
    }
  }

  /** Clicking a task's title: only a task that is not completed is made active, so a click on
      a listed task keeps the active reference valid. */
  method ClickTaskTitle(app: PomodoroApp, t: Task)
    modifies app
    ensures app.Snapshot() == if TaskList.ActivationRequest(t).Some?
                              then AfterSetActive(old(app.Snapshot()), t.id)
                              else old(app.Snapshot())
    ensures t in old(app.tasks) && ActiveRefValid(old(app.Snapshot())) ==>
              ActiveRefValid(app.Snapshot())
  {
    var request := TaskList.ActivationRequest(t);
    if request.Some? {
      app.SetActiveTask(request.value);
      assert HasOpenTask(old(app.tasks), t.id) <== t in old(app.tasks);
    }
  }

  /** Clicking a task's complete button. */
  method ClickCompleteButton(app: PomodoroApp, t: Task, today: string)
    modifies app
    ensures app.Snapshot() == if TaskList.CompleteRequest(t).Some?
                              then AfterUpdateTask(old(app.Snapshot()), t.id, CompletePatch, today)
                              else old(app.Snapshot())
  {
    var request := TaskList.CompleteRequest(t);
    if request.Some? {
      app.UpdateTask(request.value.0, request.value.1, today);
    }
  }
}
