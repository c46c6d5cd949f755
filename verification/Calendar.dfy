/**
  Proleptic Gregorian calendar arithmetic on a millisecond time line, with
  floor semantics below zero. `time::Date` in the Rust code and `Date` in the
  browser both use this calendar, so printers and parsers on either side meet here.
 */
module Calendar {

  const MILLIS_PER_DAY: int := 86_400_000

  predicate IsLeap(y: int) {
    y % 4 == 0 && (y % 100 != 0 || y % 400 == 0)
  }

  function DaysInMonth(y: int, m: int): (d: int)
    requires 1 <= m <= 12
    ensures 28 <= d <= 31
  {
    if m == 2 then (if IsLeap(y) then 29 else 28)
    else if m == 4 || m == 6 || m == 9 || m == 11 then 30
    else 31
  }

  /** Days from 0000-01-01 to January 1 of year `y`; year 0 is itself a leap year. */
  function DaysBeforeYear(y: int): int {
    365 * y + (y - 1) / 4 - (y - 1) / 100 + (y - 1) / 400 + 1
  }

  /** Days from January 1 to the first of month `m`. */
  function DaysBeforeMonth(y: int, m: int): int
    requires 1 <= m <= 12
  {
    var leap := if IsLeap(y) then 1 else 0;
    if m == 1 then 0
    else if m == 2 then 31
    else if m == 3 then 59 + leap
    else if m == 4 then 90 + leap
    else if m == 5 then 120 + leap
    else if m == 6 then 151 + leap
    else if m == 7 then 181 + leap
    else if m == 8 then 212 + leap
    else if m == 9 then 243 + leap
    else if m == 10 then 273 + leap
    else if m == 11 then 304 + leap
    else 334 + leap
  }

  /** 1970-01-01 counted from 0000-01-01. */
  const EPOCH_DAY: int := 719_528

  datatype Civil = Civil(year: int, month: int, day: int) {
    predicate Valid() {
      1 <= month <= 12 && 1 <= day <= DaysInMonth(year, month)
    }
  }

  /** Day number of a date, 1970-01-01 being day 0. */
  function DayNumber(c: Civil): int
    requires 1 <= c.month <= 12
  {
    DaysBeforeYear(c.year) + DaysBeforeMonth(c.year, c.month) + c.day - 1 - EPOCH_DAY
  }

  /** Year containing day `n` counted from 0000-01-01: an estimate from the mean year, corrected by one. */
  function YearOf(n: int): (y: int)
    ensures DaysBeforeYear(y) <= n < DaysBeforeYear(y + 1)
  {
    var guess := (400 * n) / 146_097;
    if n < DaysBeforeYear(guess) then guess - 1
    else if DaysBeforeYear(guess + 1) <= n then guess + 1
    else guess
  }

  function MonthOf(y: int, dayOfYear: int): (m: int)
    requires 0 <= dayOfYear < 365 + (if IsLeap(y) then 1 else 0)
    ensures 1 <= m <= 12
    ensures DaysBeforeMonth(y, m) <= dayOfYear < DaysBeforeMonth(y, m) + DaysInMonth(y, m)
  {
    if dayOfYear < DaysBeforeMonth(y, 2) then 1
    else if dayOfYear < DaysBeforeMonth(y, 3) then 2
    else if dayOfYear < DaysBeforeMonth(y, 4) then 3
    else if dayOfYear < DaysBeforeMonth(y, 5) then 4
    else if dayOfYear < DaysBeforeMonth(y, 6) then 5
    else if dayOfYear < DaysBeforeMonth(y, 7) then 6
    else if dayOfYear < DaysBeforeMonth(y, 8) then 7
    else if dayOfYear < DaysBeforeMonth(y, 9) then 8
    else if dayOfYear < DaysBeforeMonth(y, 10) then 9
    else if dayOfYear < DaysBeforeMonth(y, 11) then 10
    else if dayOfYear < DaysBeforeMonth(y, 12) then 11
    else 12
  }

  lemma StepBy4(y: int)
    ensures y / 4 - (y - 1) / 4 == (if y % 4 == 0 then 1 else 0)
  {
  }

  lemma StepBy100(y: int)
    ensures y / 100 - (y - 1) / 100 == (if y % 100 == 0 then 1 else 0)
  {
  }

  lemma StepBy400(y: int)
    ensures y / 400 - (y - 1) / 400 == (if y % 400 == 0 then 1 else 0)
  {
  }

  lemma CenturiesDivide(y: int)
    ensures y % 400 == 0 ==> y % 100 == 0
    ensures y % 100 == 0 ==> y % 4 == 0
  {
    if y % 400 == 0 {
      assert y % 100 == 100 * (4 * (y / 400) - y / 100);
    }
    if y % 100 == 0 {
      assert y % 4 == 4 * (25 * (y / 100) - y / 4);
    }
  }

  lemma YearLength(y: int)
    ensures DaysBeforeYear(y + 1) - DaysBeforeYear(y) == 365 + (if IsLeap(y) then 1 else 0)
  {
    StepBy4(y);
    StepBy100(y);
    StepBy400(y);
    CenturiesDivide(y);
  }

  lemma {:induction false} YearsAscend(y: int, z: int)
    requires y <= z
    ensures DaysBeforeYear(y) <= DaysBeforeYear(z)
    decreases z - y
  {
    if y < z {
      YearLength(z - 1);
      YearsAscend(y, z - 1);
    }
  }

  /** The date with day number `n`. */
  function CivilOf(n: int): (c: Civil)
    ensures c.Valid() && DayNumber(c) == n
  {
    var d := n + EPOCH_DAY;
    var y := YearOf(d);
    YearLength(y);
    var doy := d - DaysBeforeYear(y);
    var m := MonthOf(y, doy);
    Civil(y, m, doy - DaysBeforeMonth(y, m) + 1)
  }

  lemma WithinYear(c: Civil)
    requires c.Valid()
    ensures DaysBeforeYear(c.year) <= DayNumber(c) + EPOCH_DAY < DaysBeforeYear(c.year + 1)
  {
    YearLength(c.year);
  }

  lemma OneYear(n: int, y: int, z: int)
    requires DaysBeforeYear(y) <= n < DaysBeforeYear(y + 1)
    requires DaysBeforeYear(z) <= n < DaysBeforeYear(z + 1)
    ensures y == z
  {
    if y < z {
      YearsAscend(y + 1, z);
    } else if z < y {
      YearsAscend(z + 1, y);
    }
  }

  lemma OneMonth(y: int, m: int, d: int, k: int, e: int)
    requires Civil(y, m, d).Valid() && Civil(y, k, e).Valid()
    requires DaysBeforeMonth(y, m) + d == DaysBeforeMonth(y, k) + e
    ensures m == k && d == e
  {
  }

  /** Two valid dates with one day number are the same date. */
  lemma DayNumberInjective(a: Civil, b: Civil)
    requires a.Valid() && b.Valid() && DayNumber(a) == DayNumber(b)
    ensures a == b
  {
    hide DaysBeforeYear, DaysBeforeMonth;
    WithinYear(a);
    WithinYear(b);
    OneYear(DayNumber(a) + EPOCH_DAY, a.year, b.year);
    OneMonth(a.year, a.month, a.day, b.month, b.day);
  }

  lemma EpochDate()
    ensures CivilOf(0) == Civil(1970, 1, 1)
  {
    var c := Civil(1970, 1, 1);
    assert DayNumber(c) == 0;
    DayNumberInjective(CivilOf(0), c);
  }

  const MONTH_LENGTHS: seq<int> := [31, 28, 31, 30, 31, 30, 31, 31, 30, 31, 30, 31]

  /** The day after a date, by the lengths of the months and the Gregorian leap rule. */
  function NextDay(c: Civil): Civil
    requires 1 <= c.month <= 12
  {
    var leap := c.year % 4 == 0 && (c.year % 100 != 0 || c.year % 400 == 0);
    var length := MONTH_LENGTHS[c.month - 1] + (if c.month == 2 && leap then 1 else 0);
    if c.day < length then Civil(c.year, c.month, c.day + 1)
    else if c.month < 12 then Civil(c.year, c.month + 1, 1)
    else Civil(c.year + 1, 1, 1)
  }

  lemma NextDayNumber(c: Civil)
    requires c.Valid()
    ensures NextDay(c).Valid() && DayNumber(NextDay(c)) == DayNumber(c) + 1
  {
    YearLength(c.year);
    hide DaysBeforeYear;
  }

  /** Day numbers count dates one by one, in both directions from 1970-01-01. */
  lemma DatesFollow(n: int)
    ensures CivilOf(0) == Civil(1970, 1, 1)
    ensures CivilOf(n + 1) == NextDay(CivilOf(n))
  {
    EpochDate();
    NextDayNumber(CivilOf(n));
    DayNumberInjective(CivilOf(n + 1), NextDay(CivilOf(n)));
  }

  // ---------------------------------------------------------------- instants

  /** Wall-clock fields of a point on a millisecond time line. */
  datatype Fields = Fields(date: Civil, hour: int, minute: int, second: int, milli: int) {
    predicate Valid() {
      && date.Valid()
      && 0 <= hour < 24 && 0 <= minute < 60 && 0 <= second < 60 && 0 <= milli < 1000
    }
  }

  function TimeOfDay(hour: int, minute: int, second: int, milli: int): int {
    ((hour * 60 + minute) * 60 + second) * 1000 + milli
  }

  function MillisOf(f: Fields): int
    requires 1 <= f.date.month <= 12
  {
    DayNumber(f.date) * MILLIS_PER_DAY + TimeOfDay(f.hour, f.minute, f.second, f.milli)
  }

  function FieldsOf(ms: int): (f: Fields)
    ensures f.Valid()
  {
    var rest := ms % MILLIS_PER_DAY;
    Fields(CivilOf(ms / MILLIS_PER_DAY),
           rest / 3_600_000, rest / 60_000 % 60, rest / 1000 % 60, rest % 1000)
  }

  lemma SplitTimeOfDay(rest: int)
    requires 0 <= rest < MILLIS_PER_DAY
    ensures TimeOfDay(rest / 3_600_000, rest / 60_000 % 60, rest / 1000 % 60, rest % 1000) == rest
  {
    assert rest / 60_000 / 60 == rest / 3_600_000;
    assert rest / 1000 / 60 == rest / 60_000;
  }

  /** Fields and milliseconds determine each other, on both sides of the epoch. */
  lemma FieldsRoundTrip(ms: int)
    ensures MillisOf(FieldsOf(ms)) == ms
  {
    SplitTimeOfDay(ms % MILLIS_PER_DAY);
  }

  /** An instant is its date's day, of 86,400 seconds, and the time within it. */
  lemma FieldsMeaning(ms: int)
    ensures var f, day := FieldsOf(ms), ms / 86_400_000;
            && f.date == CivilOf(day)
            && ms == day * 86_400_000 + f.hour * 3_600_000 + f.minute * 60_000 + f.second * 1000 + f.milli
  {
    SplitTimeOfDay(ms % MILLIS_PER_DAY);
    hide CivilOf;
  }

  lemma TimeOfDayParts(hour: int, minute: int, second: int, milli: int)
    requires 0 <= hour < 24 && 0 <= minute < 60 && 0 <= second < 60 && 0 <= milli < 1000
    ensures var t := TimeOfDay(hour, minute, second, milli);
            && 0 <= t < MILLIS_PER_DAY
            && t / 3_600_000 == hour && t / 60_000 % 60 == minute
            && t / 1000 % 60 == second && t % 1000 == milli
  {
    var t := TimeOfDay(hour, minute, second, milli);
    assert t / 60_000 == hour * 60 + minute;
    assert t / 1000 == (hour * 60 + minute) * 60 + second;
  }

  lemma DayAndRest(day: int, rest: int)
    requires 0 <= rest < MILLIS_PER_DAY
    ensures (day * MILLIS_PER_DAY + rest) / MILLIS_PER_DAY == day
    ensures (day * MILLIS_PER_DAY + rest) % MILLIS_PER_DAY == rest
  {
  }

  lemma MillisRoundTrip(f: Fields)
    requires f.Valid()
    ensures FieldsOf(MillisOf(f)) == f
  {
    hide DaysBeforeYear, DaysBeforeMonth, DayNumber, TimeOfDay;
    TimeOfDayParts(f.hour, f.minute, f.second, f.milli);
    DayAndRest(DayNumber(f.date), TimeOfDay(f.hour, f.minute, f.second, f.milli));
    DayNumberInjective(CivilOf(DayNumber(f.date)), f.date);
  }
}
