/** The application's state as one value, and each command of the timer screen as a function
    from the state before to the state after. The `App` class executes these commands on its
    fields; the lemmas below state what the commands promise. */
module Machine {
  import opened Wrappers
  import opened Ledger
  import opened Tasks
  import opened Timer

  datatype Notification = Notification(title: string, message: string)

  /** Every piece of state the timer screen keeps. `pendingClears` counts the 3-second
      clearing timeouts scheduled by notifications that have not fired yet. */
  datatype AppState = AppState(
    timeLeft: int,
    isActive: bool,
    sessionType: SessionType,
    sessionCount: nat,
    totalSessions: nat,
    settings: Settings,
    notification: Option<Notification>,
    pendingClears: nat,
    tasks: seq<Task>,
    activeTaskId: Option<TaskId>,
    dailyStats: DailyLedger)

  /** The state a fresh session starts from, before anything is loaded. */
  const Initial := AppState(InitialTimeLeft, false, Work, 0, 0, DefaultSettings,
                            None, 0, [], None, map[])

  // ---------------------------------------------------------------- notifications

  /** `showNotification(title, message)`: the slot holds the new message (replacing any
      other) and one more clearing timeout is pending. */
  function Shown(s: AppState, title: string, message: string): (r: AppState)
    ensures r.notification == Some(Notification(title, message))
    ensures r.pendingClears == s.pendingClears + 1
    ensures r.(notification := s.notification, pendingClears := s.pendingClears) == s
  {
    s.(notification := Some(Notification(title, message)), pendingClears := s.pendingClears + 1)
  }

  /** One pending clearing timeout fires: the slot is emptied, whichever message it holds. */
  function AfterNotificationTimeout(s: AppState): (r: AppState)
    requires s.pendingClears > 0
    ensures r.notification == None && r.pendingClears == s.pendingClears - 1
    ensures r.(notification := s.notification, pendingClears := s.pendingClears) == s
  {
    s.(notification := None, pendingClears := s.pendingClears - 1)
  }

  // ---------------------------------------------------------------- the countdown

  /** One firing of the one-second interval: the countdown drops by one, and only while the
      timer runs with time left. */
  function AfterTick(s: AppState): (r: AppState)
    ensures r.timeLeft == s.timeLeft - 1 <==> s.isActive && s.timeLeft > 0
    ensures r.timeLeft == s.timeLeft || r.timeLeft == s.timeLeft - 1
    ensures s.timeLeft >= 0 ==> r.timeLeft >= 0
    ensures r.(timeLeft := s.timeLeft) == s
  {
    if s.isActive && s.timeLeft > 0 then s.(timeLeft := s.timeLeft - 1) else s
  }

  /** The completion guard of the timer effect: the effect completes the session whenever it
      runs with nothing to count down and the countdown at zero, running or not. */
  predicate CompletionDue(s: AppState) {
    !(s.isActive && s.timeLeft > 0) && s.timeLeft == 0
  }

  /** The message announcing what follows a completed session. */
  function CompletionNotice(finished: SessionType, next: SessionType): Notification {
    if finished != Work then Notification("Break Complete!", "Time to get back to work")
    else if next == LongBreak then Notification("Work Complete!", "Time for a long break")
    else Notification("Work Complete!", "Time for a short break")
  }

  /** `handleSessionComplete()`. The timer stops and the next session starts at its full
      length. After a work session both session counters go up by one, today's pomodoro
      count goes up by one, the active task (if any) is credited one pomodoro, and the next
      session is a long break exactly when the new count is a multiple of the long-break
      interval. After a break the next session is work and no counter moves. */
  function AfterCompletion(s: AppState, today: string): (r: AppState)
    ensures !r.isActive
    ensures r.timeLeft == SessionLength(r.settings, r.sessionType)
    ensures r.settings == s.settings && r.activeTaskId == s.activeTaskId
    ensures s.sessionType == Work ==>
      && r.sessionCount == s.sessionCount + 1
      && r.totalSessions == s.totalSessions + 1
      && r.sessionType == NextAfterWork(s.sessionCount + 1, s.settings.longBreakInterval)
      && r.dailyStats == Credit(s.dailyStats, today, PomodoroStat, 1)
      && r.tasks == (if s.activeTaskId.Some? then CreditPomodoro(s.tasks, s.activeTaskId.value)
                     else s.tasks)
    ensures s.sessionType != Work ==>
      && r.sessionType == Work
      && r.sessionCount == s.sessionCount && r.totalSessions == s.totalSessions
      && r.dailyStats == s.dailyStats && r.tasks == s.tasks
    ensures r.notification == Some(CompletionNotice(s.sessionType, r.sessionType))
    ensures r.pendingClears == s.pendingClears + 1
  {
    var stopped := s.(isActive := false);
    if s.sessionType == Work then
      var credited := WorkCounted(stopped, today);
      if NextAfterWork(s.sessionCount + 1, s.settings.longBreakInterval) == LongBreak then
        Shown(credited.(sessionType := LongBreak, timeLeft := s.settings.longBreak * 60),
              "Work Complete!", "Time for a long break")
      else
        Shown(credited.(sessionType := ShortBreak, timeLeft := s.settings.shortBreak * 60),
              "Work Complete!", "Time for a short break")
    else
      Shown(stopped.(sessionType := Work, timeLeft := s.settings.workTime * 60),
            "Break Complete!", "Time to get back to work")
  }

  /** The bookkeeping of a completed work session: both counters and today's pomodoros go
      up by one, and so does the active task's pomodoro count. */
  function WorkCounted(s: AppState, today: string): AppState {
    s.(sessionCount := s.sessionCount + 1,
       totalSessions := s.totalSessions + 1,
       dailyStats := Credit(s.dailyStats, today, PomodoroStat, 1),
       tasks := if s.activeTaskId.Some? then CreditPomodoro(s.tasks, s.activeTaskId.value)
                else s.tasks)
  }

  /** The timer effect after a change of `isActive` or `timeLeft`: completion when due,
      otherwise nothing changes (the interval it may start is the next AfterTick). */
  function AfterEffect(s: AppState, today: string): AppState {
    if CompletionDue(s) then AfterCompletion(s, today) else s
  }

  /** The effect completes the session exactly when the countdown is at zero, whether or not
      the timer is running, and otherwise leaves the state alone. */
  lemma EffectAtZero(s: AppState, today: string)
    ensures CompletionDue(s) <==> s.timeLeft == 0
    ensures AfterEffect(s, today) == if s.timeLeft == 0 then AfterCompletion(s, today) else s
  {
  }

  /** One second of wall-clock time: the interval fires, then the effect runs. */
  function AfterSecond(s: AppState, today: string): AppState {
    AfterEffect(AfterTick(s), today)
  }

  /** `n` seconds of wall-clock time. */
  function Run(s: AppState, today: string, n: nat): AppState
    decreases n
  {
    if n == 0 then s else Run(AfterSecond(s, today), today, n - 1)
  }

  /** A running session with `n` seconds left counts down to zero in `n` seconds, touching
      nothing else, and then completes exactly once. */
  lemma {:induction false} RunToCompletion(s: AppState, today: string, n: nat)
    requires s.isActive && s.timeLeft == n && n >= 1
    ensures Run(s, today, n) == AfterCompletion(s.(timeLeft := 0), today)
    decreases n
  {
    var next := AfterTick(s);
    assert next == s.(timeLeft := n - 1);
    if n == 1 {
      assert CompletionDue(next);
      assert Run(s, today, 1) == Run(AfterCompletion(next, today), today, 0);
    } else {
      assert !CompletionDue(next);
      assert AfterSecond(s, today) == next;
      RunToCompletion(next, today, n - 1);
      assert next.(timeLeft := 0) == s.(timeLeft := 0);
    }
  }

  /** `toggleTimer()`: start when paused, pause when running; nothing else changes. */
  function AfterToggle(s: AppState): (r: AppState)
    ensures r.isActive != s.isActive && r.(isActive := s.isActive) == s
  {
    s.(isActive := !s.isActive)
  }

  /** `resetTimer()`: whatever the state, a paused work session at full length; counters,
      tasks and statistics are not touched. */
  function AfterReset(s: AppState): (r: AppState)
    ensures !r.isActive && r.sessionType == Work && r.timeLeft == SessionLength(s.settings, Work)
    ensures r.(isActive := s.isActive, sessionType := s.sessionType, timeLeft := s.timeLeft) == s
  {
    s.(isActive := false, sessionType := Work, timeLeft := s.settings.workTime * 60)
  }

  /** `updateSetting(key, value)`: exactly one setting changes, and the countdown is resized
      to the new work length only for a paused work session whose work length was changed. */
  function AfterSettingUpdate(s: AppState, key: SettingKey, value: int): (r: AppState)
    ensures r.settings == WithSetting(s.settings, key, value)
    ensures r.timeLeft == if !s.isActive && s.sessionType == Work && key == WorkTimeKey
                          then SessionLength(r.settings, Work) else s.timeLeft
    ensures r.(settings := s.settings, timeLeft := s.timeLeft) == s
  {
    var newSettings := WithSetting(s.settings, key, value);
    var updated := s.(settings := newSettings);
    if !s.isActive && s.sessionType == Work && key == WorkTimeKey
    then updated.(timeLeft := newSettings.workTime * 60)
    else updated
  }

  // ---------------------------------------------------------------- tasks

  /** `addTask(title)`: the new task goes to the end of the list; nothing else changes. */
  function AfterAddTask(s: AppState, id: TaskId, title: string, createdAt: string): (r: AppState)
    ensures r.tasks == s.tasks + [NewTask(id, title, createdAt)]
    ensures r.(tasks := s.tasks) == s
  {
    s.(tasks := s.tasks + [NewTask(id, title, createdAt)])
  }

  /** Whether `updateTask(id, patch)` credits a completed task: the patch sets `completed`
      and the first task with this id was not already completed (a missing task counts as
      not completed). */
  predicate CreditsCompletion(tasks: seq<Task>, id: TaskId, p: TaskPatch) {
    p.completed == Some(true) && !(FindTask(tasks, id).Some? && FindTask(tasks, id).value.completed)
  }

  /** `updateTask(id, patch)`: the patch is merged into the tasks with this id; a first
      completion is credited to today; completing the active task clears the reference. */
  function AfterUpdateTask(s: AppState, id: TaskId, p: TaskPatch, today: string): (r: AppState)
    ensures r.tasks == ApplyPatch(s.tasks, id, p)
    ensures r.dailyStats == if CreditsCompletion(s.tasks, id, p)
                            then Credit(s.dailyStats, today, TaskStat, 1) else s.dailyStats
    ensures r.activeTaskId == if p.completed == Some(true) && s.activeTaskId == Some(id)
                              then None else s.activeTaskId
    ensures r.(tasks := s.tasks, dailyStats := s.dailyStats, activeTaskId := s.activeTaskId) == s
  {
    var patched := s.(tasks := ApplyPatch(s.tasks, id, p));
    var counted := if CreditsCompletion(s.tasks, id, p)
                   then patched.(dailyStats := Credit(s.dailyStats, today, TaskStat, 1))
                   else patched;
    if p.completed == Some(true) && s.activeTaskId == Some(id)
    then counted.(activeTaskId := None) else counted
  }

  /** `deleteTask(id)`: every task with this id leaves the list; the active reference is
      cleared exactly when it named this id. */
  function AfterDeleteTask(s: AppState, id: TaskId): (r: AppState)
    ensures r.tasks == RemoveTask(s.tasks, id)
    ensures r.activeTaskId == if s.activeTaskId == Some(id) then None else s.activeTaskId
    ensures r.(tasks := s.tasks, activeTaskId := s.activeTaskId) == s
  {
    var removed := s.(tasks := RemoveTask(s.tasks, id));
    if s.activeTaskId == Some(id) then removed.(activeTaskId := None) else removed
  }

  /** `setActiveTask(id)`: the reference is set without any check. */
  function AfterSetActive(s: AppState, id: TaskId): (r: AppState)
    ensures r.activeTaskId == Some(id) && r.(activeTaskId := s.activeTaskId) == s
  {
    s.(activeTaskId := Some(id))
  }

  // ---------------------------------------------------------------- invariants

  /** The active reference, when set, names a task in the list that is not completed. */
  predicate ActiveRefValid(s: AppState) {
    s.activeTaskId.Some? ==> HasOpenTask(s.tasks, s.activeTaskId.value)
  }

  /** Ticking and completing a session keep the active reference valid: neither removes a
      task nor completes one. */
  lemma ActiveRefKeptByTimer(s: AppState, today: string)
    requires ActiveRefValid(s)
    ensures ActiveRefValid(AfterTick(s)) && ActiveRefValid(AfterCompletion(s, today))
  {
    if s.activeTaskId.Some? {
      var a := s.activeTaskId.value;
      var i :| 0 <= i < |s.tasks| && s.tasks[i].id == a && !s.tasks[i].completed;
      var c := AfterCompletion(s, today);
      assert c.tasks[i].id == a && !c.tasks[i].completed;
    }
  }

  /** Adding a task keeps the active reference valid. */
  lemma ActiveRefKeptByAdd(s: AppState, id: TaskId, title: string, createdAt: string)
    requires ActiveRefValid(s)
    ensures ActiveRefValid(AfterAddTask(s, id, title, createdAt))
  {
    if s.activeTaskId.Some? {
      var i :| 0 <= i < |s.tasks| && s.tasks[i].id == s.activeTaskId.value && !s.tasks[i].completed;
      assert AfterAddTask(s, id, title, createdAt).tasks[i] == s.tasks[i];
    }
  }

  /** Updating a task keeps the active reference valid: completing the active task clears
      the reference. */
  lemma ActiveRefKeptByUpdate(s: AppState, id: TaskId, p: TaskPatch, today: string)
    requires ActiveRefValid(s)
    ensures ActiveRefValid(AfterUpdateTask(s, id, p, today))
  {
    var u := AfterUpdateTask(s, id, p, today);
    if u.activeTaskId.Some? {
      var a := u.activeTaskId.value;
      var i :| 0 <= i < |s.tasks| && s.tasks[i].id == a && !s.tasks[i].completed;
      assert u.tasks[i].id == a && !u.tasks[i].completed;
    }
  }

  /** Deleting a task keeps the active reference valid: deleting the active task clears
      the reference, and deleting another task leaves the active one in the list. */
  lemma ActiveRefKeptByDelete(s: AppState, id: TaskId)
    requires ActiveRefValid(s)
    ensures ActiveRefValid(AfterDeleteTask(s, id))
  {
    var d := AfterDeleteTask(s, id);
    if d.activeTaskId.Some? {
      var a := d.activeTaskId.value;
      var i :| 0 <= i < |s.tasks| && s.tasks[i].id == a && !s.tasks[i].completed;
      assert s.tasks[i] in d.tasks;
      var j :| 0 <= j < |d.tasks| && d.tasks[j] == s.tasks[i];
    }
  }

  /** `setActiveTask` checks nothing: the reference is valid afterwards exactly when the
      chosen id names an open task. */
  lemma ActiveRefAfterSetActive(s: AppState, id: TaskId)
    ensures ActiveRefValid(AfterSetActive(s, id)) <==> HasOpenTask(s.tasks, id)
  {
  }

  /** A countdown that starts non-negative stays non-negative, as long as no duration is set
      negative: ticking, completing, resetting and toggling keep it. */
  predicate TimeNonNegative(s: AppState) {
    && s.timeLeft >= 0
    && s.settings.workTime >= 0 && s.settings.shortBreak >= 0 && s.settings.longBreak >= 0
  }

  lemma TimeNonNegativePreserved(s: AppState, today: string, key: SettingKey, value: int)
    requires TimeNonNegative(s)
    ensures TimeNonNegative(AfterTick(s)) && TimeNonNegative(AfterCompletion(s, today))
    ensures TimeNonNegative(AfterEffect(s, today)) && TimeNonNegative(AfterReset(s))
    ensures TimeNonNegative(AfterToggle(s))
    ensures value >= 0 ==> TimeNonNegative(AfterSettingUpdate(s, key, value))
  {
    var r := AfterCompletion(s, today);
    assert r.timeLeft == 60 * SettingValue(r.settings, LengthKey(r.sessionType));
    var u := AfterSettingUpdate(s, key, value);
    if value >= 0 {
      assert SettingValue(u.settings, WorkTimeKey) >= 0;
      assert SettingValue(u.settings, ShortBreakKey) >= 0;
      assert SettingValue(u.settings, LongBreakKey) >= 0;
    }
  }

  /** Resetting twice is resetting once. */
  lemma ResetIdempotent(s: AppState)
    ensures AfterReset(AfterReset(s)) == AfterReset(s)
  {
  }

  /** A task can be credited with a completion only once: once an existing task has been
      completed, completing it again leaves the statistics alone. */
  lemma SecondCompletionNotCredited(s: AppState, id: TaskId, today: string, later: string)
    requires HasId(s.tasks, id)
    ensures var once := AfterUpdateTask(s, id, CompletePatch, today);
            AfterUpdateTask(once, id, CompletePatch, later).dailyStats == once.dailyStats
  {
    var once := AfterUpdateTask(s, id, CompletePatch, today);
    var patched := ApplyPatch(s.tasks, id, CompletePatch);
    assert once.tasks == patched;
    var i :| 0 <= i < |s.tasks| && s.tasks[i].id == id;
    assert patched[i].id == id;
    var f := FindTask(patched, id);
    assert f.Some?;
    var j :| 0 <= j < |patched| && patched[j] == f.value && patched[j].id == id;
    assert patched[j] == Merge(s.tasks[j], CompletePatch);
    assert f.value.completed;
    assert !CreditsCompletion(once.tasks, id, CompletePatch);
  }

  // ---------------------------------------------------------------- scenarios

  /** Press Start on a paused session and let it run out. */
  function StartAndFinish(s: AppState, today: string): AppState {
    if s.timeLeft >= 1 then Run(AfterToggle(s), today, s.timeLeft) else s
  }

  /** Pressing Start on a paused session with time left runs it to its completion. */
  lemma StartAndFinishCompletes(s: AppState, today: string)
    requires !s.isActive && s.timeLeft >= 1
    ensures StartAndFinish(s, today) == AfterCompletion(s.(isActive := true, timeLeft := 0), today)
  {
    RunToCompletion(AfterToggle(s), today, s.timeLeft);
  }

  /** With the default settings, four work sessions with the three breaks between them end
      in a 15-minute long break, with four sessions and four pomodoros recorded for today. */
  lemma {:induction false} FourPomodorosThenLongBreak(today: string)
    ensures var s := StartAndFinish(StartAndFinish(StartAndFinish(StartAndFinish(
                       StartAndFinish(StartAndFinish(StartAndFinish(Initial, today), today),
                       today), today), today), today), today);
            && s.sessionType == LongBreak && s.timeLeft == 15 * 60 && !s.isActive
            && s.sessionCount == 4 && s.totalSessions == 4
            && Lookup(s.dailyStats, today).pomodoros == 4
  {
    var s0 := Initial;
    StartAndFinishCompletes(s0, today);
    var s1 := StartAndFinish(s0, today);
    assert s1.sessionType == ShortBreak && s1.timeLeft == 300 && s1.sessionCount == 1;
    assert Lookup(s1.dailyStats, today).pomodoros == 1;
    StartAndFinishCompletes(s1, today);
    var s2 := StartAndFinish(s1, today);
    assert s2.sessionType == Work && s2.timeLeft == 1500 && s2.sessionCount == 1;
    StartAndFinishCompletes(s2, today);
    var s3 := StartAndFinish(s2, today);
    assert s3.sessionType == ShortBreak && s3.timeLeft == 300 && s3.sessionCount == 2;
    assert Lookup(s3.dailyStats, today).pomodoros == 2;
    StartAndFinishCompletes(s3, today);
    var s4 := StartAndFinish(s3, today);
    assert s4.sessionType == Work && s4.timeLeft == 1500 && s4.sessionCount == 2;
    StartAndFinishCompletes(s4, today);
    var s5 := StartAndFinish(s4, today);
    assert s5.sessionType == ShortBreak && s5.timeLeft == 300 && s5.sessionCount == 3;
    assert Lookup(s5.dailyStats, today).pomodoros == 3;
    StartAndFinishCompletes(s5, today);
    var s6 := StartAndFinish(s5, today);
    assert s6.sessionType == Work && s6.timeLeft == 1500 && s6.sessionCount == 3;
    StartAndFinishCompletes(s6, today);
    var s7 := StartAndFinish(s6, today);
    assert s7.sessionType == LongBreak && s7.sessionCount == 4;
  }

  /** Adding a task, making it active and finishing one work session credits that task with
      one pomodoro. */
  lemma ActiveTaskEarnsPomodoro(id: TaskId, createdAt: string, today: string)
    ensures var s := StartAndFinish(AfterSetActive(AfterAddTask(Initial, id, "Write report",
                                                                createdAt), id), today);
            s.tasks == [Task(id, "Write report", false, 1, createdAt)]
  {
    var s := AfterSetActive(AfterAddTask(Initial, id, "Write report", createdAt), id);
    StartAndFinishCompletes(s, today);
    var r := StartAndFinish(s, today);
    assert r.tasks == CreditPomodoro(s.tasks, id);
  }
}
