/** The statistics screen: a month of per-day rows read from the daily ledger, the month's
    totals, today's counters, the calendar's intensity buckets and the "hours focused" figure,
    and the month selection the screen keeps as state. */
module Statistics {
  import opened Wrappers
  import opened Text
  import opened Calendar
  import opened Ledger

  /** One calendar cell: the date, its ledger key and the day's counters. */
  datatype DayRow = DayRow(date: Date, dateKey: string, pomodoros: nat, completedTasks: nat)

  /** The row the month loop builds for one day: `{ date, dateKey, ...dayStats }`, where a
      day missing from the ledger contributes zeros. */
  function RowFor(year: nat, month: nat, day: nat, ledger: DailyLedger): DayRow {
    var key := DateKey(Date(year, month, day));
    var stats := Lookup(ledger, key);
    DayRow(Date(year, month, day), key, stats.pomodoros, stats.completedTasks)
  }

  /** `rows` are the month's rows: exactly one per day 1..DaysInMonth, in day order. */
  predicate IsMonthData(rows: seq<DayRow>, year: nat, month: nat, ledger: DailyLedger)
    requires 1 <= month <= 12
  {
    && |rows| == DaysInMonth(year, month)
    && forall i :: 0 <= i < |rows| ==> rows[i] == RowFor(year, month, i + 1, ledger)
  }

  /** `currentMonthData` for the month `month` (1..12) of `year`. */
  method CurrentMonthData(year: nat, month: nat, ledger: DailyLedger) returns (rows: seq<DayRow>)
    requires 1 <= month <= 12
    ensures IsMonthData(rows, year, month, ledger)
  {
    var daysInMonth := DaysInMonth(year, month);
    rows := [];
    var day := 1;
    while day <= daysInMonth
      invariant 1 <= day <= daysInMonth + 1
      invariant |rows| == day - 1
      invariant forall i :: 0 <= i < |rows| ==> rows[i] == RowFor(year, month, i + 1, ledger)
    {
      rows := rows + [RowFor(year, month, day, ledger)];
      day := day + 1;
    }
  }

  /** Every row is a real date of the month, filed under its own key; no two rows share a
      key, so no ledger entry is counted twice. */
  lemma MonthRowsDistinct(rows: seq<DayRow>, year: nat, month: nat, ledger: DailyLedger)
    requires 1 <= month <= 12 && IsMonthData(rows, year, month, ledger)
    ensures forall i :: 0 <= i < |rows| ==>
              ValidDate(rows[i].date) && rows[i].date.day == i + 1
              && ParseDateKey(rows[i].dateKey) == Some(rows[i].date)
    ensures forall i, j :: 0 <= i < j < |rows| ==> rows[i].dateKey != rows[j].dateKey
  {
    forall i | 0 <= i < |rows|
      ensures ValidDate(rows[i].date) && ParseDateKey(rows[i].dateKey) == Some(rows[i].date)
    {
      DateKeyRoundTrip(rows[i].date);
    }
    forall i, j | 0 <= i < j < |rows|
      ensures rows[i].dateKey != rows[j].dateKey
    {
      DateKeyInjective(rows[i].date, rows[j].date);
    }
  }

  // ---------------------------------------------------------------- totals

  /** The `reduce` of `monthlyTotals`: a left fold from `{0, 0}` adding each row in turn. */
  function FoldTotals(acc: DayStats, rows: seq<DayRow>): DayStats
    decreases |rows|
  {
    if rows == [] then acc
    else FoldTotals(DayStats(acc.pomodoros + rows[0].pomodoros,
                             acc.completedTasks + rows[0].completedTasks), rows[1..])
  }

  function MonthlyTotals(rows: seq<DayRow>): DayStats {
    FoldTotals(Zero, rows)
  }

  /** The month's pomodoros, summed from the last day backwards. */
  function SumPomodoros(rows: seq<DayRow>): nat {
    if rows == [] then 0 else SumPomodoros(rows[..|rows| - 1]) + rows[|rows| - 1].pomodoros
  }

  function SumCompletedTasks(rows: seq<DayRow>): nat {
    if rows == [] then 0
    else SumCompletedTasks(rows[..|rows| - 1]) + rows[|rows| - 1].completedTasks
  }

  /** The fold computes the per-day sums. */
  lemma MonthlyTotalsAreSums(rows: seq<DayRow>)
    ensures MonthlyTotals(rows) == DayStats(SumPomodoros(rows), SumCompletedTasks(rows))
  {
    FoldSums(Zero, rows);
  }

  lemma {:induction false} FoldSums(acc: DayStats, rows: seq<DayRow>)
    ensures FoldTotals(acc, rows) == DayStats(acc.pomodoros + SumPomodoros(rows),
                                              acc.completedTasks + SumCompletedTasks(rows))
    decreases |rows|
  {
    if rows != [] {
      var next := DayStats(acc.pomodoros + rows[0].pomodoros,
                           acc.completedTasks + rows[0].completedTasks);
      FoldSums(next, rows[1..]);
      SumsFromFront(rows);
    }
  }

  /** The backward sums can equally be taken from the front. */
  lemma {:induction false} SumsFromFront(rows: seq<DayRow>)
    requires rows != []
    ensures SumPomodoros(rows) == rows[0].pomodoros + SumPomodoros(rows[1..])
    ensures SumCompletedTasks(rows) == rows[0].completedTasks + SumCompletedTasks(rows[1..])
    decreases |rows|
  {
    if |rows| > 1 {
      var init := rows[..|rows| - 1];
      SumsFromFront(init);
      assert init[1..] == rows[1..][..|rows[1..]| - 1];
      assert init[0] == rows[0];
    }
  }

  /** A month none of whose days has an entry in the ledger totals `{0, 0}`, whatever the
      ledger holds for other months. */
  lemma {:induction false} EmptyMonth(rows: seq<DayRow>, year: nat, month: nat,
                                      ledger: DailyLedger)
    requires 1 <= month <= 12 && IsMonthData(rows, year, month, ledger)
    requires forall d {:trigger DateKey(Date(year, month, d))} ::
               1 <= d <= DaysInMonth(year, month) ==> DateKey(Date(year, month, d)) !in ledger
    ensures MonthlyTotals(rows) == Zero
  {
    forall i | 0 <= i < |rows|
      ensures rows[i].pomodoros == 0 && rows[i].completedTasks == 0
    {
      MissingDayRow(rows, year, month, ledger, i);
    }
    ZeroRowsTotalZero(rows);
  }

  /** Rows of zeros total `{0, 0}`. */
  lemma ZeroRowsTotalZero(rows: seq<DayRow>)
    requires forall i :: 0 <= i < |rows| ==> rows[i].pomodoros == 0 && rows[i].completedTasks == 0
    ensures MonthlyTotals(rows) == Zero
  {
    MonthlyTotalsAreSums(rows);
    ZeroRowsSumToZero(rows);
  }

  /** The row of a day without an entry holds zeros. */
  lemma MissingDayRow(rows: seq<DayRow>, year: nat, month: nat, ledger: DailyLedger, i: nat)
    requires 1 <= month <= 12 && IsMonthData(rows, year, month, ledger) && i < |rows|
    requires DateKey(Date(year, month, i + 1)) !in ledger
    ensures rows[i].pomodoros == 0 && rows[i].completedTasks == 0
  {
  }

  lemma {:induction false} ZeroRowsSumToZero(rows: seq<DayRow>)
    requires forall i :: 0 <= i < |rows| ==> rows[i].pomodoros == 0 && rows[i].completedTasks == 0
    ensures SumPomodoros(rows) == 0 && SumCompletedTasks(rows) == 0
    decreases |rows|
  {
    if rows != [] {
      ZeroRowsSumToZero(rows[..|rows| - 1]);
    }
  }

  /** Changing one row changes the sums by exactly that row's change. */
  lemma {:induction false} SumsOneRowChanged(a: seq<DayRow>, b: seq<DayRow>, k: nat)
    requires |a| == |b| && k < |a|
    requires forall i :: 0 <= i < |a| && i != k ==> a[i] == b[i]
    ensures SumPomodoros(b) + a[k].pomodoros == SumPomodoros(a) + b[k].pomodoros
    ensures SumCompletedTasks(b) + a[k].completedTasks
            == SumCompletedTasks(a) + b[k].completedTasks
    decreases |a|
  {
    var n := |a| - 1;
    if k < n {
      SumsOneRowChanged(a[..n], b[..n], k);
    } else {
      assert a[..n] == b[..n];
    }
  }

  /** A credit filed under another key leaves a day's row as it was. */
  lemma RowUntouched(year: nat, month: nat, day: nat, ledger: DailyLedger, key: string,
                     kind: StatKind, increment: nat)
    requires DateKey(Date(year, month, day)) != key
    ensures RowFor(year, month, day, Credit(ledger, key, kind, increment))
            == RowFor(year, month, day, ledger)
  {
  }

  /** A credit filed under a day's own key raises that day's row by the credit. */
  lemma RowCredited(year: nat, month: nat, day: nat, ledger: DailyLedger, kind: StatKind,
                    increment: nat)
    ensures var before := RowFor(year, month, day, ledger);
            var after := RowFor(year, month, day,
                                Credit(ledger, DateKey(Date(year, month, day)), kind, increment));
            && after.pomodoros == before.pomodoros + (if kind == PomodoroStat then increment else 0)
            && after.completedTasks
               == before.completedTasks + (if kind == TaskStat then increment else 0)
  {
  }

  /** A credit to a real date leaves the row of every other real date as it was. */
  lemma OtherDayUntouched(d: Date, e: Date, ledger: DailyLedger, kind: StatKind, increment: nat)
    requires ValidDate(d) && ValidDate(e) && d != e
    ensures RowFor(d.year, d.month, d.day, Credit(ledger, DateKey(e), kind, increment))
            == RowFor(d.year, d.month, d.day, ledger)
  {
    DateKeyInjective(d, e);
    assert Date(d.year, d.month, d.day) == d;
    RowUntouched(d.year, d.month, d.day, ledger, DateKey(e), kind, increment);
  }

  /** Month rows built from two ledgers that agree on every day but `k` differ at most in
      row `k`. */
  lemma MonthRowsAgree(year: nat, month: nat, e: Date, ledger: DailyLedger,
                                         kind: StatKind, increment: nat,
                                         before: seq<DayRow>, after: seq<DayRow>)
    requires 1 <= month <= 12 && ValidDate(e)
    requires IsMonthData(before, year, month, ledger)
    requires IsMonthData(after, year, month, Credit(ledger, DateKey(e), kind, increment))
    ensures forall i :: 0 <= i < |before| && Date(year, month, i + 1) != e ==> before[i] == after[i]
  {
    forall i | 0 <= i < |before| && Date(year, month, i + 1) != e
      ensures before[i] == after[i]
    {
      OtherDayUntouched(Date(year, month, i + 1), e, ledger, kind, increment);
    }
  }

  /** The credited day's own row in the month rows. */
  lemma DayRowCredited(year: nat, month: nat, day: nat, ledger: DailyLedger, kind: StatKind,
                       increment: nat, before: seq<DayRow>, after: seq<DayRow>)
    requires 1 <= month <= 12 && 1 <= day <= DaysInMonth(year, month)
    requires IsMonthData(before, year, month, ledger)
    requires IsMonthData(after, year, month,
                         Credit(ledger, DateKey(Date(year, month, day)), kind, increment))
    ensures after[day - 1].pomodoros
            == before[day - 1].pomodoros + (if kind == PomodoroStat then increment else 0)
    ensures after[day - 1].completedTasks
            == before[day - 1].completedTasks + (if kind == TaskStat then increment else 0)
  {
    RowCredited(year, month, day, ledger, kind, increment);
  }

  /** Changing one row moves the totals by exactly that row's change. */
  lemma TotalsOneRowChanged(before: seq<DayRow>, after: seq<DayRow>, k: nat)
    requires |before| == |after| && k < |before|
    requires forall i :: 0 <= i < |before| && i != k ==> before[i] == after[i]
    ensures MonthlyTotals(after).pomodoros + before[k].pomodoros
            == MonthlyTotals(before).pomodoros + after[k].pomodoros
    ensures MonthlyTotals(after).completedTasks + before[k].completedTasks
            == MonthlyTotals(before).completedTasks + after[k].completedTasks
  {
    SumsOneRowChanged(before, after, k);
    MonthlyTotalsAreSums(before);
    MonthlyTotalsAreSums(after);
  }

  /** A credit to a day of the month raises that month's totals by exactly the credit, in
      the counter it names. */
  lemma CreditInsideMonth(year: nat, month: nat, day: nat, ledger: DailyLedger, kind: StatKind,
                          increment: nat, before: seq<DayRow>, after: seq<DayRow>)
    requires 1 <= month <= 12 && 1 <= day <= DaysInMonth(year, month)
    requires IsMonthData(before, year, month, ledger)
    requires IsMonthData(after, year, month,
                         Credit(ledger, DateKey(Date(year, month, day)), kind, increment))
    ensures MonthlyTotals(after).pomodoros
            == MonthlyTotals(before).pomodoros + (if kind == PomodoroStat then increment else 0)
    ensures MonthlyTotals(after).completedTasks
            == MonthlyTotals(before).completedTasks + (if kind == TaskStat then increment else 0)
  {
    MonthRowsAgree(year, month, Date(year, month, day), ledger, kind, increment, before, after);
    DayRowCredited(year, month, day, ledger, kind, increment, before, after);
    TotalsOneRowChanged(before, after, day - 1);
  }

  /** A credit to a day of another month leaves this month's rows, and so its totals, as
      they were. */
  lemma CreditOutsideMonth(year: nat, month: nat, d: Date, ledger: DailyLedger, kind: StatKind,
                           increment: nat, before: seq<DayRow>, after: seq<DayRow>)
    requires 1 <= month <= 12 && ValidDate(d) && (d.year, d.month) != (year, month)
    requires IsMonthData(before, year, month, ledger)
    requires IsMonthData(after, year, month, Credit(ledger, DateKey(d), kind, increment))
    ensures after == before && MonthlyTotals(after) == MonthlyTotals(before)
  {
    MonthRowsAgree(year, month, d, ledger, kind, increment, before, after);
    RowsOfOtherMonth(year, month, d, before, after);
  }

  /** Rows that agree on every day but one of another month agree everywhere. */
  lemma RowsOfOtherMonth(year: nat, month: nat, d: Date, before: seq<DayRow>,
                         after: seq<DayRow>)
    requires (d.year, d.month) != (year, month) && |before| == |after|
    requires forall i :: 0 <= i < |before| && Date(year, month, i + 1) != d ==> before[i] == after[i]
    ensures after == before
  {
    assert forall i :: 0 <= i < |before| ==> before[i] == after[i];
  }

  // ---------------------------------------------------------------- today

  /** `todayStats`: today's entry, or zeros when today has none. */
  function TodayStats(ledger: DailyLedger, today: Date): DayStats {
    Lookup(ledger, DateKey(today))
  }

  /** The "Today" view and today's cell of the month view show the same counters. */
  lemma TodayMatchesMonthRow(rows: seq<DayRow>, ledger: DailyLedger, today: Date)
    requires ValidDate(today) && IsMonthData(rows, today.year, today.month, ledger)
    ensures today.day - 1 < |rows|
    ensures rows[today.day - 1].pomodoros == TodayStats(ledger, today).pomodoros
    ensures rows[today.day - 1].completedTasks == TodayStats(ledger, today).completedTasks
  {
    assert Date(today.year, today.month, today.day) == today;
  }

  /** Crediting today shows up in today's counters, in the named counter only. */
  lemma TodayAfterCredit(ledger: DailyLedger, today: Date, kind: StatKind, increment: nat)
    ensures var after := TodayStats(Credit(ledger, DateKey(today), kind, increment), today);
            && after.pomodoros == TodayStats(ledger, today).pomodoros
                                  + (if kind == PomodoroStat then increment else 0)
            && after.completedTasks == TodayStats(ledger, today).completedTasks
                                       + (if kind == TaskStat then increment else 0)
  {
  }

  // ---------------------------------------------------------------- calendar shading

  /** The bucket behind `getIntensityClass`: 0 for no pomodoros, then one bucket per two
      pomodoros, capped at 4 from seven pomodoros on. */
  function IntensityLevel(pomodoros: nat): (level: nat)
    ensures level == if pomodoros >= 7 then 4 else (pomodoros + 1) / 2
  {
    if pomodoros == 0 then 0
    else if pomodoros <= 2 then 1
    else if pomodoros <= 4 then 2
    else if pomodoros <= 6 then 3
    else 4
  }

  /** `getIntensityClass(pomodoros)`: `intensity-0` .. `intensity-4`. */
  function IntensityClass(pomodoros: nat): (name: string)
    ensures |name| == 11 && name[..10] == "intensity-"
    ensures name[10] == DigitChar(IntensityLevel(pomodoros))
  {
    "intensity-" + [DigitChar(IntensityLevel(pomodoros))]
  }

  /** More pomodoros never give a lighter shade. */
  lemma IntensityMonotone(p: nat, q: nat)
    requires p <= q
    ensures IntensityLevel(p) <= IntensityLevel(q)
  {
  }

  /** The five classes are told apart by their level. */
  lemma IntensityClassInjective(p: nat, q: nat)
    ensures IntensityClass(p) == IntensityClass(q) <==> IntensityLevel(p) == IntensityLevel(q)
  {
    if IntensityClass(p) == IntensityClass(q) {
      assert IntensityClass(p)[10] == IntensityClass(q)[10];
    }
  }

  // ---------------------------------------------------------------- hours focused

  /** "Hours Focused": `Math.floor(pomodoros * 25 / 60)`, with the fixed 25-minute length
      whatever the work-time setting; the daily and monthly views use the same formula. */
  function HoursFocused(pomodoros: nat): (h: nat)
    ensures h * 60 <= pomodoros * 25 < (h + 1) * 60
  {
    pomodoros * 25 / 60
  }

  lemma HoursMonotone(p: nat, q: nat)
    requires p <= q
    ensures HoursFocused(p) <= HoursFocused(q)
  {
    var hp, hq := HoursFocused(p), HoursFocused(q);
    assert hp * 60 <= q * 25 < (hq + 1) * 60;
  }

  /** A row's pomodoros never exceed the month's total. */
  lemma {:induction false} RowWithinSum(rows: seq<DayRow>, k: nat)
    requires k < |rows|
    ensures rows[k].pomodoros <= SumPomodoros(rows)
    decreases |rows|
  {
    if k < |rows| - 1 {
      RowWithinSum(rows[..|rows| - 1], k);
    }
  }

  /** No single day's hours exceed the month's. */
  lemma RowHoursWithinMonth(rows: seq<DayRow>, k: nat)
    requires k < |rows|
    ensures HoursFocused(rows[k].pomodoros) <= HoursFocused(MonthlyTotals(rows).pomodoros)
  {
    RowWithinSum(rows, k);
    MonthlyTotalsAreSums(rows);
    HoursMonotone(rows[k].pomodoros, MonthlyTotals(rows).pomodoros);
  }

  /** Today's hours never exceed the hours of the month that contains today. */
  lemma TodayHoursWithinMonth(rows: seq<DayRow>, ledger: DailyLedger, today: Date)
    requires ValidDate(today) && IsMonthData(rows, today.year, today.month, ledger)
    ensures HoursFocused(TodayStats(ledger, today).pomodoros)
            <= HoursFocused(MonthlyTotals(rows).pomodoros)
  {
    TodayMatchesMonthRow(rows, ledger, today);
    RowHoursWithinMonth(rows, today.day - 1);
  }

  // ---------------------------------------------------------------- month navigation

  /** The date `setMonth(getMonth() + direction)` produces: same day number in the target
      month, and when that month is too short the surplus days run into the month after. */
  function SetMonthAsWritten(d: Date, direction: int): (r: Date)
    requires ValidDate(d) && MonthIndex(d) + direction >= 0
    ensures ValidDate(r)
    ensures MonthIndex(r) == MonthIndex(d) + direction
            || (MonthIndex(r) == MonthIndex(d) + direction + 1 && 1 <= r.day <= 3)
  {
    var t := MonthIndex(d) + direction;
    var y, m := t / 12, t % 12 + 1;
    if d.day <= DaysInMonth(y, m) then Date(y, m, d.day)
    else Date((t + 1) / 12, (t + 1) % 12 + 1, d.day - DaysInMonth(y, m))
  }

  /** From the 31st of October, "next month" lands on the first of December: November is
      skipped. */
  lemma NavigateSkipsMonth()
    ensures SetMonthAsWritten(Date(2026, 10, 31), 1) == Date(2026, 12, 1)
    ensures MonthIndex(SetMonthAsWritten(Date(2026, 10, 31), 1))
            == MonthIndex(Date(2026, 10, 31)) + 2
  {
    var t := MonthIndex(Date(2026, 10, 31)) + 1;
    assert t == 24322 && t / 12 == 2026 && t % 12 == 10;
    assert (t + 1) / 12 == 2026 && (t + 1) % 12 == 11;
    assert DaysInMonth(2026, 11) == 30;
  }

  /** Moving the selection by `direction` months: the target month, keeping the day number
      where the month has it and its last day otherwise. */
  function ShiftMonth(d: Date, direction: int): (r: Date)
    requires ValidDate(d) && MonthIndex(d) + direction >= 0
    ensures ValidDate(r) && MonthIndex(r) == MonthIndex(d) + direction
    ensures r.day == if d.day <= DaysInMonth(r.year, r.month) then d.day
                     else DaysInMonth(r.year, r.month)
  {
    var t := MonthIndex(d) + direction;
    var y, m := t / 12, t % 12 + 1;
    var last := DaysInMonth(y, m);
    Date(y, m, if d.day <= last then d.day else last)
  }

  /** Stepping forward and back returns to the same month. */
  lemma ShiftMonthBack(d: Date, direction: int)
    requires ValidDate(d) && MonthIndex(d) + direction >= 0
    ensures MonthIndex(ShiftMonth(ShiftMonth(d, direction), -direction)) == MonthIndex(d)
  {
  }

  /** The two views of the statistics screen. */
  datatype StatsView = DailyView | MonthlyView

  /** The statistics screen's own state: which view is shown and which month is selected. */
  class StatisticsScreen {
    var currentView: StatsView
    var selectedMonth: Date

    /** Opened on the monthly view of the current date. */
    constructor (today: Date)
      requires ValidDate(today)
      ensures currentView == MonthlyView && selectedMonth == today
    {
      currentView := MonthlyView;
      selectedMonth := today;
    }

    /** The "Today" and "Monthly" toggle buttons. */
    method ShowView(v: StatsView)
      modifies this
      ensures currentView == v && selectedMonth == old(selectedMonth)
    {
      currentView := v;
    }

    /** The arrow buttons (`navigateMonth(-1)` and `navigateMonth(1)`): the selection moves by
        exactly `direction` months. */
    method NavigateMonth(direction: int)
      requires ValidDate(selectedMonth) && MonthIndex(selectedMonth) + direction >= 0
      modifies this
      ensures selectedMonth == ShiftMonth(old(selectedMonth), direction)
      ensures ValidDate(selectedMonth)
      ensures MonthIndex(selectedMonth) == MonthIndex(old(selectedMonth)) + direction
      ensures currentView == old(currentView)
    {
      selectedMonth := ShiftMonth(selectedMonth, direction);
    }

    /** The rows of the selected month. */
    method MonthData(ledger: DailyLedger) returns (rows: seq<DayRow>)
      requires ValidDate(selectedMonth)
      ensures IsMonthData(rows, selectedMonth.year, selectedMonth.month, ledger)
    {
      rows := CurrentMonthData(selectedMonth.year, selectedMonth.month, ledger);
    }
  }
}
