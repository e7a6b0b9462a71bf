# Pomodoro timer: the session machine, task store and statistics

This project models the core of a single-page Pomodoro timer. The model has three parts:

- **The timer screen** (`src/App.jsx`):
  - a countdown that alternates work sessions with short and long breaks;
  - session counters;
  - a task list with one "active" task that earns a pomodoro whenever a work session completes;
  - a daily statistics ledger, a map from `YYYY-MM-DD` keys to per-day pomodoro and completed-task counters.
- **The statistics screen** (`src/Statistics.jsx`):
  - a month of per-day rows read from that ledger;
  - the month's totals, today's counters and the calendar shading buckets;
  - the "hours focused" figure.
- **The task list panel** (`src/TaskList.jsx`):
  - the add-task form with its trimming rule;
  - the guards on the title click and the complete button;
  - the status colour and the current-task panel.

The model is organised as follows:

| module | file | what it holds |
|---|---|---|
| `Wrappers` | wrappers.dfy | `Option` |
| `Text` | text.dfy | the JavaScript string operations the program relies on: `String(n)`, `padStart(2, '0')` and `trim()` (with the ECMAScript whitespace set), plus the digit parsers used to prove round trips |
| `Calendar` | calendar.dfy | dates, the Gregorian month lengths, the `YYYY-MM-DD` key and its parser |
| `Ledger` | ledger.dfy | the daily statistics map and `updateDailyStats` as a pure function `Credit` |
| `Tasks` | tasks.dfy | tasks, patches, and the `map`/`filter`/`find` transformations applied to the task list |
| `Timer` | timer.dfy | session types, settings, JavaScript's truncating `%`, the long-break rule, `formatTime`, the labels and the hours figure |
| `Machine` | machine.dfy | the timer screen's whole state as one value `AppState`, with one transition function per handler and the lemmas about them |
| `App` | app.dfy | the component as a class `PomodoroApp` whose fields are the `useState` slots; every handler is a method that updates the fields step by step and promises `Snapshot() == After…(old(Snapshot()), …)` |
| `TaskList` | tasklist.dfy | the add-task form as a class, and the panel's pure rules |
| `Statistics` | statistics.dfy | the month-row loop, the totals fold, today's counters, intensity, hours and the month selection |

Assumptions about inputs:

- **The clock is an input.** Handlers that need "today" take the day's ledger key as a string argument. That key is `Calendar.DateKey` of the local date, which is what `getTodayKey` builds. Task ids and creation times are arguments too.
- **Months are 1-based** in the model. The program always writes `getMonth() + 1` into its keys.
- **Settings are integers.** They hold whatever `parseInt` returned, so they may be zero or negative. The model keeps that, and uses JavaScript's `%` (remainder of truncating division) in the long-break rule.
- **Sequential semantics.** React batches setter calls. The model gives each handler the sequential meaning of its setters, reading the state as it was when the handler started. For example, the first-completion check in `updateTask` reads the tasks before the update.

## Model

| member | source | states |
|---|---|---|
| Text.NatToString | src/App.jsx:335 | `String(n)`: at least one digit, only digits, one character exactly below 10, no leading zero |
| Text.ParseNatToString | src/App.jsx:335 | reading the decimal rendering back gives the number again |
| Text.IntToString | src/App.jsx:258 | `toString()` of a non-negative number is its decimal form; a negative one is `-` followed by the decimal form of its magnitude |
| Text.PadStart2 | src/App.jsx:258 | `padStart(2, '0')`: length max(2, len), the original string at the end, zeros before it |
| Text.Pad2 | src/Statistics.jsx:17 | a padded number is all digits, at least two of them, exactly two below 100 |
| Text.ParsePad2 | src/Statistics.jsx:17 | a padded number reads back as the number |
| Text.Trim | src/TaskList.jsx:9-10 | `trim()`: a contiguous slice of the input with only whitespace cut at both ends, neither end of the result is whitespace, and the result is empty exactly when the input is all whitespace |
| Text.TrimIdempotent | src/TaskList.jsx:9-10 | trimming twice is trimming once |
| Calendar.DaysInMonth | src/Statistics.jsx:13 | month lengths 28..31: 31 for the seven long months, 29 exactly for February of a leap year, 28 exactly for February otherwise |
| Calendar.DateKey | src/App.jsx:333-336 | the key `${year}-${MM}-${DD}` built by `getTodayKey` and the month loop: the year unpadded, month and day padded to two digits; `DateKeyRoundTrip` and `DateKeyInjective` state what it guarantees |
| Calendar.DateKeyRoundTrip | src/App.jsx:333-336 | the `YYYY-MM-DD` key of every real date parses back to that date |
| Calendar.DateKeyInjective | src/Statistics.jsx:17 | two real dates share a key if and only if they are the same date |
| Ledger.Credit | src/App.jsx:338-348 | `updateDailyStats`: the day's entry exists afterwards; the named counter rises by the increment from its old value (zero for a missing day); the other counter and every other day are unchanged |
| Ledger.Lookup | src/Statistics.jsx:18 | the day's entry, or `{ pomodoros: 0, completedTasks: 0 }` for a day never credited; the same default as the optional-chaining reads of src/App.jsx:343-344 |
| Ledger.CreditGrows | src/App.jsx:338-348 | a credit never removes a day and never lowers a counter |
| Tasks.CreditPomodoro | src/App.jsx:187-195 | same length and order; tasks with the active id get one more pomodoro; every other task is unchanged |
| Tasks.CreditPomodoroTotal | src/App.jsx:187-195 | the list's pomodoro total rises by the number of tasks carrying the id |
| Tasks.NewTask | src/App.jsx:293-299 | the task `addTask` builds: the given id, title and creation time, not completed, no pomodoros |
| Tasks.Merge | src/App.jsx:306 | `{ ...task, ...updates }`: each field the patch carries replaces the task's, the others stay; id and creation time are never patched |
| Tasks.ApplyPatch | src/App.jsx:304-308 | same length and order; the patch is merged into tasks with the id only |
| Tasks.RemoveTask | src/App.jsx:322 | no task with the id remains, every other task does, and the length drops by the number removed |
| Tasks.RemoveTaskConcat | src/App.jsx:322 | filtering works piecewise, so the survivors keep their relative order |
| Tasks.FindTask | src/App.jsx:311 | `find` succeeds exactly when a task with the id exists, and returns a task carrying that id |
| Timer.WithSetting | src/App.jsx:282 | `{ ...settings, [key]: value }`: the named setting takes the value, and the others keep theirs |
| Timer.SessionLength | src/App.jsx:270-277 | a session's length is 60 times the minutes setting for its type |
| Timer.SessionLabel | src/App.jsx:261-268 | "Focus Time" exactly for a work session |
| Timer.SessionLabelInjective | src/App.jsx:261-268 | the three labels tell the three session types apart |
| Timer.JsRem | src/App.jsx:198 | JavaScript `%`: in [0, b) for a non-negative dividend, in (-b, 0] for a negative one, differing from the dividend by a multiple of the divisor (which fixes its value), and zero exactly when the divisor divides the dividend |
| Timer.NextAfterWork | src/App.jsx:197-206 | after work comes a break; it is a long break exactly when the new session count is a multiple of the interval (of its magnitude when negative); an interval of 0 always gives a short break |
| Timer.LongBreakCadence | src/App.jsx:198 | with an interval k >= 1, exactly n / k of the first n work sessions earn a long break |
| Timer.FormatTime | src/App.jsx:255-258 | `formatTime`: floored minutes and the JavaScript remainder of the seconds, each `toString().padStart(2, '0')`, joined by a colon; `FormatTimeRoundTrip` and `FormatTimeWidth` state what it guarantees |
| Timer.FormatTimeRoundTrip | src/App.jsx:255-258 | for a non-negative count the display is padded minutes, a colon and padded seconds, and reading it back gives the count |
| Timer.FormatTimeWidth | src/App.jsx:255-258 | below 100 minutes the display is exactly five characters |
| Timer.TotalHours | src/App.jsx:407 | the "Hours" figure is the floor of totalSessions * workTime / 60 |
| Machine.Shown | src/App.jsx:240-243 | `showNotification`: the slot holds the new title and message, one more clearing timeout is pending, and nothing else changes |
| Machine.AfterNotificationTimeout | src/App.jsx:242 | a clearing timeout empties the notification slot whatever it holds, and nothing else changes |
| Machine.AfterTick | src/App.jsx:164-167 | the countdown drops by one exactly when running with time left, and is otherwise unchanged, so it never goes below zero; nothing else changes |
| Machine.AfterCompletion | src/App.jsx:175-215 | the timer stops and the next session starts at its full length. After work: both counters and today's pomodoros rise by one, the active task is credited, and the next session is a long break exactly per the modulo rule. After a break: work follows and no counter moves. The matching notification is shown |
| Machine.RunToCompletion | src/App.jsx:164-170 | a running session with n seconds left reaches its completion after n one-second steps |
| Machine.CompletionDue | src/App.jsx:164-169 | the timer effect's completion guard: not (running with time left) and the countdown at zero |
| Machine.AfterEffect | src/App.jsx:164-170 | the timer effect after a change of `isActive` or `timeLeft`: completion when the guard holds, otherwise no change |
| Machine.EffectAtZero | src/App.jsx:164-170 | the guard holds exactly when the countdown is at zero, running or paused, so the effect completes the session exactly then and otherwise changes nothing |
| Machine.AfterToggle | src/App.jsx:245-247 | the running flag flips and nothing else changes |
| Machine.AfterReset | src/App.jsx:249-253 | a paused work session at full work length; nothing else changes |
| Machine.ResetIdempotent | src/App.jsx:249-253 | resetting twice is resetting once |
| Machine.AfterSettingUpdate | src/App.jsx:281-289 | exactly the named setting changes; the countdown is reset to the new work length exactly when paused in a work session and the key is `workTime` |
| Machine.AfterAddTask | src/App.jsx:292-301 | a new open task with no pomodoros is appended; nothing else changes |
| Machine.AfterUpdateTask | src/App.jsx:303-319 | the patch is merged into the matching tasks; today's completed tasks rise by one exactly when the patch completes a task that `find` does not report as completed; the active reference is cleared exactly when the active task is completed |
| Machine.SecondCompletionNotCredited | src/App.jsx:310-313 | completing an existing task a second time leaves the statistics unchanged |
| Machine.AfterDeleteTask | src/App.jsx:321-326 | the task leaves the list; the active reference is cleared exactly when it named that task |
| Machine.AfterSetActive | src/App.jsx:328-330 | the reference is set to the id with no check; nothing else changes |
| Machine.ActiveRefAfterSetActive | src/App.jsx:328-330 | afterwards the reference names an open task in the list exactly when the id names one |
| Machine.ActiveRefKeptByTimer | src/App.jsx:164-215 | ticks and completions keep the active reference valid (naming an open listed task) |
| Machine.ActiveRefKeptByAdd | src/App.jsx:292-301 | adding a task keeps the active reference valid |
| Machine.ActiveRefKeptByUpdate | src/App.jsx:303-319 | updating a task keeps it valid: completing the active task clears it |
| Machine.ActiveRefKeptByDelete | src/App.jsx:321-326 | deleting keeps it valid: deleting the active task clears it |
| Machine.TimeNonNegativePreserved | src/App.jsx:164-289 | a non-negative countdown stays non-negative under ticks, completions, toggles, resets, and setting updates with non-negative values |
| Machine.StartAndFinishCompletes | src/App.jsx:164-170 | pressing Start on a paused session with time left runs it to its completion |
| Machine.FourPomodorosThenLongBreak | src/App.jsx:26-31 | with the default settings, four work sessions and the three breaks between them end in a paused 15-minute long break, with four sessions and four pomodoros recorded for today |
| Machine.ActiveTaskEarnsPomodoro | src/App.jsx:186-195 | adding a task, making it active and finishing a work session credits that task with one pomodoro |
| App.PomodoroApp.constructor | src/App.jsx:21-35 | the initial component state |
| App.PomodoroApp.Tick | src/App.jsx:164-167 | the fields move as `AfterTick` says |
| App.PomodoroApp.CompleteIfDue | src/App.jsx:168-169 | the session completes when the countdown is at zero, running or not |
| App.PomodoroApp.HandleSessionComplete | src/App.jsx:175-215 | the fields move as `AfterCompletion` says |
| App.PomodoroApp.CountWorkSession | src/App.jsx:179-195 | the counters, today's pomodoros and the active task's count are credited, and the new count is returned |
| App.PomodoroApp.ShowNotification | src/App.jsx:240-243 | the slot holds the new message and one more clearing timeout is pending |
| App.PomodoroApp.NotificationTimeout | src/App.jsx:242 | the fields move as `AfterNotificationTimeout` says |
| App.PomodoroApp.ToggleTimer | src/App.jsx:245-247 | the fields move as `AfterToggle` says |
| App.PomodoroApp.ResetTimer | src/App.jsx:249-253 | the fields move as `AfterReset` says |
| App.PomodoroApp.UpdateSetting | src/App.jsx:281-289 | the fields move as `AfterSettingUpdate` says |
| App.PomodoroApp.AddTask | src/App.jsx:292-301 | the fields move as `AfterAddTask` says |
| App.PomodoroApp.UpdateTask | src/App.jsx:303-319 | the fields move as `AfterUpdateTask` says |
| App.PomodoroApp.DeleteTask | src/App.jsx:321-326 | the fields move as `AfterDeleteTask` says |
| App.PomodoroApp.SetActiveTask | src/App.jsx:328-330 | the fields move as `AfterSetActive` says |
| App.PomodoroApp.UpdateDailyStats | src/App.jsx:338-356 | the ledger becomes its credit for today's key |
| App.SubmitTaskForm | src/TaskList.jsx:7-14 | a non-blank title is added trimmed at the end of the list and the form is emptied and closed; a blank title changes neither the list nor the form |
| App.ClickTaskTitle | src/TaskList.jsx:82 | only an open task is made active, so clicking a listed task keeps the active reference valid |
| App.ClickCompleteButton | src/TaskList.jsx:16-18 | clicking an open task's button sends `{ completed: true }` for it; a completed task has no button |
| TaskList.TaskForm.constructor | src/TaskList.jsx:4-5 | the form starts closed and empty |
| TaskList.TaskForm.OpenForm | src/TaskList.jsx:33 | the "+" button opens the form and keeps what was typed |
| TaskList.TaskForm.EditTitle | src/TaskList.jsx:46 | typing replaces the text and keeps the form open or closed |
| TaskList.TaskForm.CancelForm | src/TaskList.jsx:57-60 | Cancel closes the form and forgets the text |
| TaskList.TaskForm.HandleSubmit | src/TaskList.jsx:7-14 | a title that is not blank is handed on trimmed (non-empty, not all whitespace) and the form is emptied and closed; a blank one is ignored and the form is left as it was |
| TaskList.ActivationRequest | src/TaskList.jsx:82 | a click asks for activation exactly when the task is not completed, and names that task |
| TaskList.CompleteRequest | src/TaskList.jsx:94-102 | the button exists exactly for open tasks and sends exactly that id with `{ completed: true }` |
| TaskList.TaskStatusColor | src/TaskList.jsx:20-24 | success exactly when completed; primary exactly when open and active; secondary otherwise |
| TaskList.CurrentTaskPanel | src/TaskList.jsx:116-123 | hidden exactly without an active reference; otherwise the title of the first task with that id, or "No task selected" when there is no such task or its title is empty |
| Statistics.CurrentMonthData | src/Statistics.jsx:8-28 | the month rows: exactly one row per day 1..daysInMonth in ascending order, each with its date, its key and that day's counters (zero when the ledger has no entry) |
| Statistics.MonthRowsDistinct | src/Statistics.jsx:13-25 | every row is a real date filed under a key that parses back to it, and no two rows share a key |
| Statistics.FoldTotals | src/Statistics.jsx:39-42 | the `reduce` callback applied left to right: each row's counters are added to the running totals; `FoldSums` proves it adds the per-day sums to the start value |
| Statistics.MonthlyTotals | src/Statistics.jsx:38-43 | `monthlyTotals`: the fold started from `{ pomodoros: 0, completedTasks: 0 }`; `MonthlyTotalsAreSums` states its value |
| Statistics.MonthlyTotalsAreSums | src/Statistics.jsx:38-43 | the `reduce` gives the sums of the per-day counters |
| Statistics.EmptyMonth | src/Statistics.jsx:18-43 | a month none of whose days has a ledger entry totals zero, whatever the ledger holds for other months |
| Statistics.MissingDayRow | src/Statistics.jsx:18 | the row of a day without a ledger entry holds zeros |
| Statistics.CreditInsideMonth | src/Statistics.jsx:38-43 | a credit to a day of the month raises that month's totals by exactly the increment, in the counter it names |
| Statistics.CreditOutsideMonth | src/Statistics.jsx:8-28 | a credit to a day of another month leaves the month's rows and totals unchanged |
| Statistics.TodayStats | src/Statistics.jsx:31-35 | `todayStats`: the ledger entry under today's key, or zeros when there is none; it changes nothing; `TodayMatchesMonthRow` and `TodayAfterCredit` state its relation to the month rows and to credits |
| Statistics.TodayMatchesMonthRow | src/Statistics.jsx:31-35 | today's counters are those of today's row in the current month |
| Statistics.TodayAfterCredit | src/Statistics.jsx:31-35 | crediting today's key shows up in today's counters, in the named counter only |
| Statistics.IntensityLevel | src/Statistics.jsx:57-63 | the shade bucket is 0 for none, then one bucket per two pomodoros, capped at 4 from seven on |
| Statistics.IntensityClass | src/Statistics.jsx:57-63 | the class name is `intensity-` followed by the bucket digit |
| Statistics.IntensityMonotone | src/Statistics.jsx:57-63 | more pomodoros never give a lighter shade |
| Statistics.IntensityClassInjective | src/Statistics.jsx:57-63 | two counts get the same class name exactly when they fall in the same bucket |
| Statistics.HoursFocused | src/Statistics.jsx:169 | `Math.floor(pomodoros * 25 / 60)`: the largest h with h * 60 <= pomodoros * 25 |
| Statistics.HoursMonotone | src/Statistics.jsx:189 | more pomodoros never show fewer hours |
| Statistics.TodayHoursWithinMonth | src/Statistics.jsx:169-189 | with the same formula in both views, today's hours never exceed the hours of the month that contains today |
| Statistics.SetMonthAsWritten | src/Statistics.jsx:45-51 | `setMonth(getMonth() + direction)` always gives a real date, but it lands either in the target month or, by day overflow, on day 1 to 3 of the month after |
| Statistics.NavigateSkipsMonth | src/Statistics.jsx:48 | from 31 October 2026 the "next month" arrow lands on 1 December: November is skipped |
| Statistics.ShiftMonth | src/Statistics.jsx:45-51 | moving by `direction` months lands on a real date exactly `direction` months away, with the day clamped to the month's length |
| Statistics.ShiftMonthBack | src/Statistics.jsx:45-51 | stepping forward and back returns to the same month |
| Statistics.StatisticsScreen.constructor | src/Statistics.jsx:4-5 | the screen opens on the monthly view of the current date |
| Statistics.StatisticsScreen.ShowView | src/Statistics.jsx:132-145 | the toggle buttons switch the view and keep the selected month |
| Statistics.StatisticsScreen.NavigateMonth | src/Statistics.jsx:45-51 | the arrow buttons, with the corrected navigation `ShiftMonth` rather than the day-overflowing `setMonth` (see Findings): the selection moves by exactly `direction` months and stays a real date |
| Statistics.StatisticsScreen.MonthData | src/Statistics.jsx:8-28 | the rows of the selected month |

## Left out

- The Firestore and `localStorage` load and save paths, and the persistence effects (src/App.jsx:39-158): asynchronous I/O to services outside the program.
- `playNotificationSound`: Web Audio with floating-point gain; it has no effect on the state.
- `setInterval`, `clearInterval` and `setTimeout` scheduling. A tick and a notification's clearing timeout are explicit steps instead; `Machine.Run` strings ticks together.
- `Date.now()` task ids, ISO `createdAt` strings and the local-time `new Date()`: they are arguments.
- `parseInt` returning `NaN` for non-numeric input: settings are integers.
- The `progress` percentage (src/App.jsx:279): floating-point division.
- `formatMonthYear` locale formatting, the calendar grid's blank cells (`getDay()`), and all markup.
- The login gate, the user profile and the `showStatistics` overlay toggle: they only choose what is rendered.
- React's stale-closure behaviour: handlers are given their sequential meaning.
- Statistics.SetMonthAsWritten: models only targets in year 0 or later (`MonthIndex(d) + direction >= 0`); JavaScript dates before year 0 are not modelled.
- Statistics.ShiftMonth: the same bound applies to month navigation.
- Statistics.StatisticsScreen.NavigateMonth: uses the corrected `ShiftMonth`, not the program's `setMonth`, so it does not reproduce the skipped month described under Findings (that behaviour is `SetMonthAsWritten`); the same year bound applies.
- Tasks.CreditPomodoro: `pomodoroCount` is a `nat` that every task has, so the `(task.pomodoroCount || 0)` default of src/App.jsx:191 for a task without a count is not modelled; such tasks could only come from stored data, whose loading is left out.
- Calendar.DaysInMonth: years are taken literally; JavaScript's `new Date(y, m, d)` reads years 0 to 99 as 1900 to 1999, so for those years the month lengths can differ (February of year 0 has 28 days in JavaScript and 29 here); a real clock never yields such a year.
- Timer.FormatTimeRoundTrip: states the round trip for non-negative counts only. The countdown is never negative (`Machine.TimeNonNegativePreserved`) unless a negative duration is typed into the settings.

Where the program's documented behaviour and its code differ, the model follows the code:

- Completion fires whenever the countdown is at zero, whether the timer is running or not (`Machine.CompletionDue`).
- Every notification schedules its own clearing timeout, and earlier timeouts are not cancelled. A newer message can therefore be cleared early, which `Machine.AfterNotificationTimeout` allows.
- `setActiveTask` checks nothing (`Machine.ActiveRefAfterSetActive`).
- `updateTask` credits a completed task for today even when no task has that id, because `find` then yields `undefined`.

## Findings

| source | as written | input that shows it | evidently intended | confidence | as-written member | corrected member |
|---|---|---|---|---|---|---|
| src/Statistics.jsx:48 | `navigateMonth` calls `setMonth(getMonth() + direction)` on the selected date, which keeps the day number of the previous selection (at first, today's); when the target month is shorter, the surplus days spill into the month after | selected 2026-10-31, next-month arrow: the result is 2026-12-01, so the forward arrow skips November | move exactly one month, keeping a valid day | high (not executed) | Statistics.NavigateSkipsMonth | Statistics.ShiftMonth |
