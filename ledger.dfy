/** The daily statistics ledger: a map from date key to the day's counters. Entries are
    created on first credit and only ever grow. */
module Ledger {

  datatype DayStats = DayStats(pomodoros: nat, completedTasks: nat)

  /** The value a day has before anything was credited to it. */
  const Zero := DayStats(0, 0)

  /** The two kinds of credit (`'pomodoro'` and `'task'` in the application). */
  datatype StatKind = PomodoroStat | TaskStat

  type DailyLedger = map<string, DayStats>

  /** A day's counters, zero for a day that was never credited (`ledger[key] || zeros`). */
  function Lookup(ledger: DailyLedger, key: string): DayStats {
    if key in ledger then ledger[key] else Zero
  }

  /** The ledger after `updateDailyStats(kind, increment)` for the day `key`: the day's entry
      exists afterwards, exactly the named counter grows by `increment`, the other counter
      and every other day keep their values. */
  function Credit(ledger: DailyLedger, key: string, kind: StatKind, increment: nat): (r: DailyLedger)
    ensures key in r
    ensures forall k :: k != key ==> (k in r <==> k in ledger)
    ensures forall k :: k in ledger && k != key ==> r[k] == ledger[k]
    ensures Lookup(r, key).pomodoros
            == Lookup(ledger, key).pomodoros + (if kind == PomodoroStat then increment else 0)
    ensures Lookup(r, key).completedTasks
            == Lookup(ledger, key).completedTasks + (if kind == TaskStat then increment else 0)
  {
    var day := Lookup(ledger, key);
    var entry := match kind
      case PomodoroStat => DayStats(day.pomodoros + increment, day.completedTasks)
      case TaskStat => DayStats(day.pomodoros, day.completedTasks + increment);
    ledger[key := entry]
  }

  /** The ledger is increment-only: no day's counters ever go down. */
  predicate Grows(before: DailyLedger, after: DailyLedger) {
    forall k :: k in before ==>
      && k in after
      && before[k].pomodoros <= after[k].pomodoros
      && before[k].completedTasks <= after[k].completedTasks
  }

  /** A credit never decreases any day, and never removes a day. */
  lemma CreditGrows(ledger: DailyLedger, key: string, kind: StatKind, increment: nat)
    ensures Grows(ledger, Credit(ledger, key, kind, increment))
  {
    var r := Credit(ledger, key, kind, increment);
    assert Lookup(r, key) == r[key];
  }
}
