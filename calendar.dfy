/** Calendar dates and the `YYYY-MM-DD` keys under which daily statistics are filed.
    Months are numbered 1..12 (the application always writes `getMonth() + 1`). */
module Calendar {
  import opened Wrappers
  import opened Text

  datatype Date = Date(year: nat, month: nat, day: nat)

  /** The Gregorian leap-year rule. */
  predicate IsLeapYear(y: nat) {
    y % 4 == 0 && (y % 100 != 0 || y % 400 == 0)
  }

  /** Number of days of a month; `new Date(year, month, 0).getDate()` in the application. */
  function DaysInMonth(y: nat, m: nat): (n: nat)
    requires 1 <= m <= 12
    ensures 28 <= n <= 31
    ensures n == 31 <==> m in {1, 3, 5, 7, 8, 10, 12}
    ensures n == 29 <==> m == 2 && IsLeapYear(y)
    ensures n == 28 <==> m == 2 && !IsLeapYear(y)
  {
    if m == 2 then (if IsLeapYear(y) then 29 else 28)
    else if m == 4 || m == 6 || m == 9 || m == 11 then 30
    else 31
  }

  predicate ValidDate(d: Date) {
    1 <= d.month <= 12 && 1 <= d.day <= DaysInMonth(d.year, d.month)
  }

  /** The date key `${year}-${MM}-${DD}`: the year unpadded, month and day padded to two
      digits. */
  function DateKey(d: Date): string {
    NatToString(d.year) + "-" + Pad2(d.month) + "-" + Pad2(d.day)
  }

  /** Reads a date key back into its three numbers; None for anything not shaped like
      `digits-DD-DD`. */
  function ParseDateKey(k: string): Option<Date> {
    if |k| >= 7 && k[|k| - 6] == '-' && k[|k| - 3] == '-'
       && AllDigits(k[..|k| - 6]) && AllDigits(k[|k| - 5..|k| - 3]) && AllDigits(k[|k| - 2..])
    then Some(Date(ParseNat(k[..|k| - 6]), ParseNat(k[|k| - 5..|k| - 3]), ParseNat(k[|k| - 2..])))
    else None
  }

  /** Every key of a real date reads back as that date. */
  lemma DateKeyRoundTrip(d: Date)
    requires ValidDate(d)
    ensures ParseDateKey(DateKey(d)) == Some(d)
  {
    var y, m, dd := NatToString(d.year), Pad2(d.month), Pad2(d.day);
    KeySplit(y, m, dd);
    ParseNatToString(d.year);
    ParsePad2(d.month);
    ParsePad2(d.day);
    ReadSplitKey(DateKey(d), y, m, dd);
  }

  /** Where the dashes and the three fields of `y-mm-dd` sit. */
  lemma KeySplit(y: string, m: string, dd: string)
    requires |m| == 2 && |dd| == 2
    ensures var k := y + "-" + m + "-" + dd;
      |k| == |y| + 6 && k[|k| - 6] == '-' && k[|k| - 3] == '-'
      && k[..|k| - 6] == y && k[|k| - 5..|k| - 3] == m && k[|k| - 2..] == dd
  {
    var k := y + "-" + m + "-" + dd;
    assert k[..|y|] == y;
    assert k[|y| + 1..|y| + 3] == m;
    assert k[|y| + 4..] == dd;
  }

  /** A key whose three fields are known reads as those fields. */
  lemma ReadSplitKey(k: string, y: string, m: string, dd: string)
    requires AllDigits(y) && AllDigits(m) && AllDigits(dd) && |y| >= 1 && |m| == 2 && |dd| == 2
    requires |k| == |y| + 6 && k[|k| - 6] == '-' && k[|k| - 3] == '-'
    requires k[..|k| - 6] == y && k[|k| - 5..|k| - 3] == m && k[|k| - 2..] == dd
    ensures ParseDateKey(k) == Some(Date(ParseNat(y), ParseNat(m), ParseNat(dd)))
  {
  }

  /** Distinct dates are filed under distinct keys, so no two days share a ledger entry. */
  lemma DateKeyInjective(a: Date, b: Date)
    requires ValidDate(a) && ValidDate(b)
    ensures DateKey(a) == DateKey(b) <==> a == b
  {
    DateKeyRoundTrip(a);
    DateKeyRoundTrip(b);
  }

  /** Months counted from year 0, so that "the next month" is index + 1. */
  function MonthIndex(d: Date): int {
    d.year * 12 + d.month - 1
  }
}
