/** The timer's vocabulary: session types, settings, and the pure helpers the timer screen
    computes from them (session length, label, `mm:ss` rendering, the long-break rule). */
module Timer {
  import opened Wrappers
  import opened Text

  datatype SessionType = Work | ShortBreak | LongBreak

  /** Durations in minutes and the long-break cadence. They hold whatever `parseInt` produced
      from the settings inputs, so nothing forces them to be positive. */
  datatype Settings = Settings(workTime: int, shortBreak: int, longBreak: int,
                               longBreakInterval: int)

  const DefaultSettings := Settings(25, 5, 15, 4)

  /** `WORK_TIME`: the countdown the application starts with, in seconds. */
  const InitialTimeLeft: int := 25 * 60

  /** The keys `updateSetting` is called with. */
  datatype SettingKey = WorkTimeKey | ShortBreakKey | LongBreakKey | LongBreakIntervalKey

  function SettingValue(s: Settings, k: SettingKey): int {
    match k
    case WorkTimeKey => s.workTime
    case ShortBreakKey => s.shortBreak
    case LongBreakKey => s.longBreak
    case LongBreakIntervalKey => s.longBreakInterval
  }

  /** `{ ...settings, [key]: value }`: exactly the named setting takes the new value. */
  function WithSetting(s: Settings, k: SettingKey, v: int): (r: Settings)
    ensures SettingValue(r, k) == v
    ensures forall k' :: k' != k ==> SettingValue(r, k') == SettingValue(s, k')
  {
    match k
    case WorkTimeKey => s.(workTime := v)
    case ShortBreakKey => s.(shortBreak := v)
    case LongBreakKey => s.(longBreak := v)
    case LongBreakIntervalKey => s.(longBreakInterval := v)
  }

  /** The setting that holds a session type's length in minutes. */
  function LengthKey(t: SessionType): SettingKey {
    match t
    case Work => WorkTimeKey
    case ShortBreak => ShortBreakKey
    case LongBreak => LongBreakKey
  }

  /** `getCurrentSessionTime()`: a session's full length in seconds, read from the setting
      that belongs to its type. */
  function SessionLength(s: Settings, t: SessionType): (secs: int)
    ensures secs == 60 * SettingValue(s, LengthKey(t))
  {
    match t
    case Work => s.workTime * 60
    case ShortBreak => s.shortBreak * 60
    case LongBreak => s.longBreak * 60
  }

  /** `getSessionTypeLabel()`. */
  function SessionLabel(t: SessionType): (name: string)
    ensures name == "Focus Time" <==> t == Work
  {
    match t
    case Work => "Focus Time"
    case ShortBreak => "Short Break"
    case LongBreak => "Long Break"
  }

  /** The label tells the three session types apart. */
  lemma SessionLabelInjective(a: SessionType, b: SessionType)
    ensures SessionLabel(a) == SessionLabel(b) <==> a == b
  {
    if a != b {
      assert SessionLabel(a)[0] != SessionLabel(b)[0];
    }
  }

  // ---------------------------------------------------------------- JavaScript arithmetic

  /** JavaScript's `a % b` for a positive divisor: the remainder of truncating division,
      which takes the sign of the dividend. */
  function JsRem(a: int, b: int): (r: int)
    requires b > 0
    ensures a >= 0 ==> 0 <= r < b
    ensures a < 0 ==> -b < r <= 0
    ensures r == 0 <==> a % b == 0
    ensures (a - r) % b == 0
  {
    if a < 0 then
      var m := (-a) % b;
      assert m == 0 <==> a % b == 0 by { NegRemZero(a, b); }
      DivModUnique(a + m, b, -((-a) / b), 0);
      -m
    else
      DivModUnique(a - a % b, b, a / b, 0);
      a % b
  }

  /** The quotient and remainder of Euclidean division are the only ones. */
  lemma DivModUnique(n: int, k: int, q: int, r: int)
    requires k >= 1 && n == q * k + r && 0 <= r < k
    ensures n / k == q && n % k == r
  {
    var q', r' := n / k, n % k;
    assert n == q' * k + r';
    if q' < q {
      assert (q - q') * k == q * k - q' * k;
      MulAtLeast(q - q', k);
    } else if q' > q {
      assert (q' - q) * k == q' * k - q * k;
      MulAtLeast(q' - q, k);
    }
  }

  lemma {:induction false} MulAtLeast(x: int, k: int)
    requires x >= 1 && k >= 1
    ensures x * k >= k
  {
    if x > 1 {
      MulAtLeast(x - 1, k);
      assert x * k == (x - 1) * k + k;
    }
  }

  /** `b` divides `a` exactly when it divides `-a`. */
  lemma NegRemZero(a: int, b: int)
    requires b > 0
    ensures (-a) % b == 0 <==> a % b == 0
  {
    if a % b == 0 {
      DivModUnique(-a, b, -(a / b), 0);
    }
    if (-a) % b == 0 {
      DivModUnique(a, b, -((-a) / b), 0);
    }
  }

  // ---------------------------------------------------------------- the long-break rule

  /** The type that follows the `completed`-th work session: a long break when
      `completed % longBreakInterval === 0`, a short break otherwise. With an interval of 0
      the remainder is `NaN`, which is never `0`. */
  function NextAfterWork(completed: nat, interval: int): (t: SessionType)
    ensures t != Work
    ensures interval >= 1 ==> (t == LongBreak <==> completed % interval == 0)
    ensures interval <= -1 ==> (t == LongBreak <==> completed % -interval == 0)
    ensures interval == 0 ==> t == ShortBreak
  {
    if interval > 0 && JsRem(completed, interval) == 0 then LongBreak
    else if interval < 0 && JsRem(completed, -interval) == 0 then LongBreak
    else ShortBreak
  }

  /** How many of the work sessions 1..n are followed by a long break. */
  function LongBreaksUpTo(n: nat, interval: int): nat {
    if n == 0 then 0
    else LongBreaksUpTo(n - 1, interval) + (if NextAfterWork(n, interval) == LongBreak then 1 else 0)
  }

  /** With a positive interval k, exactly every k-th work session earns a long break. */
  lemma {:induction false} LongBreakCadence(n: nat, k: int)
    requires k >= 1
    ensures LongBreaksUpTo(n, k) == n / k
  {
    if n > 0 {
      LongBreakCadence(n - 1, k);
      QuotientStep(n, k);
    }
  }

  /** Counting one more session raises the quotient by one exactly at a multiple of k. */
  lemma QuotientStep(n: nat, k: int)
    requires n >= 1 && k >= 1
    ensures n / k == (n - 1) / k + (if n % k == 0 then 1 else 0)
  {
    var q, r := (n - 1) / k, (n - 1) % k;
    if r == k - 1 {
      DivModUnique(n, k, q + 1, 0);
    } else {
      DivModUnique(n, k, q, r + 1);
    }
  }

  // ---------------------------------------------------------------- mm:ss rendering

  /** `formatTime(seconds)`: `Math.floor(seconds / 60)` and `seconds % 60`, each rendered with
      `String(..).padStart(2, '0')` and joined by a colon. */
  function FormatTime(seconds: int): string {
    // Dafny's `/` by a positive divisor rounds down, like Math.floor.
    PadStart2(IntToString(seconds / 60)) + ":" + PadStart2(IntToString(JsRem(seconds, 60)))
  }

  /** Reads `minutes:SS` back as a number of seconds. */
  function ParseClock(s: string): Option<nat> {
    if |s| >= 4 && s[|s| - 3] == ':' && AllDigits(s[..|s| - 3]) && AllDigits(s[|s| - 2..])
    then Some(ParseNat(s[..|s| - 3]) * 60 + ParseNat(s[|s| - 2..]))
    else None
  }

  /** For a non-negative count the display is zero-padded minutes, a colon and two digits of
      seconds, and it reads back as the count: no two counts look alike. */
  lemma FormatTimeRoundTrip(seconds: nat)
    ensures FormatTime(seconds) == Pad2(seconds / 60) + ":" + Pad2(seconds % 60)
    ensures ParseClock(FormatTime(seconds)) == Some(seconds)
  {
    var q, r := seconds / 60, seconds % 60;
    FormatTimeNat(seconds, q, r);
    ReadClock(q, r);
    assert q * 60 + r == seconds;
  }

  /** For a non-negative count, truncating and flooring division agree. */
  lemma FormatTimeNat(seconds: nat, q: nat, r: nat)
    requires q == seconds / 60 && r == seconds % 60
    ensures FormatTime(seconds) == Pad2(q) + ":" + Pad2(r)
  {
    assert JsRem(seconds, 60) == r;
    assert IntToString(q) == NatToString(q) && IntToString(r) == NatToString(r);
  }

  /** Padded minutes and seconds read back as the count they stand for. */
  lemma ReadClock(q: nat, r: nat)
    requires r < 60
    ensures ParseClock(Pad2(q) + ":" + Pad2(r)) == Some(q * 60 + r)
  {
    var m, s := Pad2(q), Pad2(r);
    ParsePad2(q);
    ParsePad2(r);
    ClockParts(m, s);
    assert ParseClock(m + ":" + s) == Some(ParseNat(m) * 60 + ParseNat(s));
  }

  lemma ClockParts(m: string, s: string)
    requires AllDigits(m) && AllDigits(s) && |m| >= 1 && |s| == 2
    ensures ParseClock(m + ":" + s) == Some(ParseNat(m) * 60 + ParseNat(s))
  {
    var f := m + ":" + s;
    ClockSplit(m, s);
    ReadSplitClock(f, m, s);
  }

  /** Where the colon and the two halves of `m:s` sit. */
  lemma ClockSplit(m: string, s: string)
    requires |s| == 2
    ensures var f := m + ":" + s;
      |f| == |m| + 3 && f[|f| - 3] == ':' && f[..|f| - 3] == m && f[|f| - 2..] == s
  {
    var f := m + ":" + s;
    assert f[..|m|] == m;
    assert f[|m| + 1..] == s;
  }

  /** A clock string whose halves are known reads as those halves. */
  lemma ReadSplitClock(f: string, m: string, s: string)
    requires AllDigits(m) && AllDigits(s) && |m| >= 1 && |s| == 2
    requires |f| == |m| + 3 && f[|f| - 3] == ':' && f[..|f| - 3] == m && f[|f| - 2..] == s
    ensures ParseClock(f) == Some(ParseNat(m) * 60 + ParseNat(s))
  {
  }

  /** Sessions shorter than 100 minutes show as exactly `MM:SS`. */
  lemma FormatTimeWidth(seconds: nat)
    requires seconds < 6000
    ensures |FormatTime(seconds)| == 5
  {
    FormatTimeRoundTrip(seconds);
  }

  /** The "Hours" figure on the timer screen: `Math.floor(totalSessions * workTime / 60)`. */
  function TotalHours(totalSessions: nat, workTime: int): (h: int)
    ensures h * 60 <= totalSessions * workTime < (h + 1) * 60
  {
    totalSessions * workTime / 60
  }
}
