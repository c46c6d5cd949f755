/**
  Local presentation of instants in the browser (`static/expiration.js`):
  `pad`, `localValue` and `localDate`, over an arbitrary timezone with gaps and
  repeated hours. The Date operations follow section 21.4 of ECMA-262 (2024).
 */
module LocalTime {
  import opened Options
  import opened Text
  import opened Calendar
  import opened Rfc3339

  // ---------------------------------------------------------------- timezones

  /** Offset of local time at an instant, and the instant a local time is taken for, UTC(t). */
  datatype Zone = Zone(offset: int -> int, utc: int -> int)

  /** LocalTime(t). */
  function Local(z: Zone, t: int): int {
    t + z.offset(t)
  }

  /** Some instant has this local time. */
  ghost predicate Occurs(z: Zone, tl: int) {
    exists t :: Local(z, t) == tl
  }

  /**
    Section 21.4.1.26: a local time that occurs is taken for its earliest
    instant; one that is skipped is read with the offset before the jump, which
    lands after it.
   */
  ghost predicate Lawful(z: Zone) {
    && (forall t :: Local(z, z.utc(Local(z, t))) == Local(z, t) && z.utc(Local(z, t)) <= t)
    && (forall tl :: Local(z, z.utc(tl)) >= tl)
  }

  const MAX_TIME: int := 8_640_000_000_000_000

  predicate InRange(t: int) {
    -MAX_TIME <= t <= MAX_TIME
  }

  /** TimeClip; none stands for NaN. */
  function TimeClip(t: int): Option<int> {
    if InRange(t) then Some(t) else None
  }

  // ---------------------------------------------------------------- localValue

  function Zeros(n: int): (s: string)
    ensures AllDigits(s)
  {
    if n <= 0 then [] else ['0'] + Zeros(n - 1)
  }

  /** `String(value).padStart(length, "0")`: longer texts are left alone. */
  function PadStart(value: int, length: int): string {
    Zeros(length - |PrintInt(value)|) + PrintInt(value)
  }

  /** Month, day and time as `localValue` prints them after the year. */
  function AfterYear(f: Fields): string {
    "-" + PadStart(f.date.month, 2) + "-" + PadStart(f.date.day, 2) + "T" + PadStart(f.hour, 2) + ":"
    + PadStart(f.minute, 2) + ":" + PadStart(f.second, 2) + "." + PadStart(f.milli, 3)
  }

  function PrintLocal(f: Fields): string {
    PadStart(f.date.year, 4) + AfterYear(f)
  }

  /** `localValue`. */
  function LocalValue(z: Zone, t: int): string {
    PrintLocal(FieldsOf(Local(z, t)))
  }

  // ---------------------------------------------------------------- localDate

  predicate MinuteShape(r: string) {
    && |r| >= 12
    && r[0] == '-' && DigitsAt(r, 1, 2) && r[3] == '-' && DigitsAt(r, 4, 2) && r[6] == 'T'
    && DigitsAt(r, 7, 2) && r[9] == ':' && DigitsAt(r, 10, 2)
  }

  /** The regular expression and the numbers taken from it; the month is counted from 1. */
  function ReadLocal(s: string): Option<Fields> {
    var n := DigitRun(s, 0);
    var r := s[n..];
    if n < 4 || !MinuteShape(r) then None
    else
      var date := Civil(DigitsVal(s[0..n]), NumberAt(r, 1, 2), NumberAt(r, 4, 2));
      var hour, minute := NumberAt(r, 7, 2), NumberAt(r, 10, 2);
      if |r| == 12 then Some(Fields(date, hour, minute, 0, 0))
      else if r[12] != ':' || !DigitsAt(r, 13, 2) then None
      else if |r| == 15 then Some(Fields(date, hour, minute, NumberAt(r, 13, 2), 0))
      else if r[15] == '.' && 17 <= |r| <= 19 && AllDigits(r[16..]) then
        Some(Fields(date, hour, minute, NumberAt(r, 13, 2), MillisOfFraction(r[16..])))
      else None
  }

  /** MakeDay: months outside the year carry over, days count on from the first. */
  function MakeDay(year: int, month: int, day: int): int {
    DayNumber(Civil(year + month / 12, month % 12 + 1, 1)) + day - 1
  }

  /** `new Date(0)` after `setFullYear(year, month, day)`: the day asked for at the epoch's local time of day. */
  function OnThatDay(z: Zone, f: Fields): Option<int> {
    TimeClip(z.utc(MakeDay(f.date.year, f.date.month - 1, f.date.day) * MILLIS_PER_DAY + Local(z, 0) % MILLIS_PER_DAY))
  }

  /** ... and then `setHours(hour, minute, second, millis)`. */
  function AtThatTime(z: Zone, t: int, f: Fields): Option<int> {
    TimeClip(z.utc(Local(z, t) / MILLIS_PER_DAY * MILLIS_PER_DAY + TimeOfDay(f.hour, f.minute, f.second, f.milli)))
  }

  /** The two steps, and the check that every field came out as asked. */
  function DateOf(z: Zone, f: Fields): Option<int> {
    match OnThatDay(z, f)
    case None => None
    case Some(day) =>
      match AtThatTime(z, day, f)
      case None => None
      case Some(t) => if FieldsOf(Local(z, t)) == f then Some(t) else None
  }

  /** `localDate`. */
  function LocalDate(z: Zone, value: string): Option<int> {
    match ReadLocal(value)
    case None => None
    case Some(f) => DateOf(z, f)
  }

  // ---------------------------------------------------------------- which local times are accepted

  /** The first step stayed on the day asked for. */
  predicate ReachesDay(z: Zone, f: Fields)
    requires f.Valid()
  {
    OnThatDay(z, f).Some? && Local(z, OnThatDay(z, f).value) / MILLIS_PER_DAY == DayNumber(f.date)
  }

  lemma MakeDayIsDayNumber(c: Civil)
    requires c.Valid()
    ensures MakeDay(c.year, c.month - 1, c.day) == DayNumber(c)
  {
    assert (c.month - 1) / 12 == 0 && (c.month - 1) % 12 == c.month - 1;
  }

  lemma DayOf(day: int, rest: int, t: int)
    requires 0 <= rest < MILLIS_PER_DAY
    ensures (day * MILLIS_PER_DAY + rest) / MILLIS_PER_DAY == day
    ensures t >= day * MILLIS_PER_DAY + rest ==> t / MILLIS_PER_DAY >= day
    ensures t / MILLIS_PER_DAY > day ==> t / MILLIS_PER_DAY * MILLIS_PER_DAY >= day * MILLIS_PER_DAY + MILLIS_PER_DAY
  {
    DayAndRest(day, rest);
  }

  /** An accepted value was valid, its local time occurs, and both steps stayed on its day. */
  lemma AcceptedIsLawful(z: Zone, f: Fields)
    requires Lawful(z) && DateOf(z, f).Some?
    ensures f.Valid() && Occurs(z, MillisOf(f)) && ReachesDay(z, f)
    ensures DateOf(z, f).value == z.utc(MillisOf(f)) && InRange(DateOf(z, f).value)
  {
    hide DayNumber, TimeOfDay, MakeDay, CivilOf;
    var t, first := DateOf(z, f).value, OnThatDay(z, f).value;
    FieldsRoundTrip(Local(z, t));
    assert Local(z, t) == MillisOf(f);
    MakeDayIsDayNumber(f.date);
    TimeOfDayParts(f.hour, f.minute, f.second, f.milli);
    var day, clock := DayNumber(f.date), TimeOfDay(f.hour, f.minute, f.second, f.milli);
    DayOf(day, Local(z, 0) % MILLIS_PER_DAY, Local(z, first));
    assert Local(z, first) / MILLIS_PER_DAY >= day;
    var asked := Local(z, first) / MILLIS_PER_DAY * MILLIS_PER_DAY + clock;
    assert Local(z, z.utc(asked)) >= asked;
  }

  /** A valid local time that occurs is taken for its earliest instant, if the first step stays on its day. */
  lemma LawfulIsAccepted(z: Zone, f: Fields)
    requires Lawful(z) && f.Valid() && Occurs(z, MillisOf(f)) && ReachesDay(z, f) && InRange(z.utc(MillisOf(f)))
    ensures DateOf(z, f) == Some(z.utc(MillisOf(f)))
  {
    hide DayNumber, TimeOfDay, MakeDay, CivilOf, FieldsOf;
    var t :| Local(z, t) == MillisOf(f);
    assert Local(z, z.utc(MillisOf(f))) == MillisOf(f);
    MillisRoundTrip(f);
  }

  /**
    `localDate` accepts a value exactly when its fields are a date and time,
    that local time occurs in the zone at an instant a Date can hold, and the
    day asked for, at the epoch's local time of day, is not itself pushed to
    another day by a gap. The result is then the earliest such instant.
   */
  lemma DateOfExact(z: Zone, f: Fields)
    requires Lawful(z)
    ensures DateOf(z, f).Some?
            <==> f.Valid() && Occurs(z, MillisOf(f)) && InRange(z.utc(MillisOf(f))) && ReachesDay(z, f)
    ensures DateOf(z, f).Some? ==>
              var t := DateOf(z, f).value;
              f.Valid() && Local(z, t) == MillisOf(f) && forall u :: Local(z, u) == MillisOf(f) ==> t <= u
  {
    hide DateOf, ReachesDay, MillisOf;
    if DateOf(z, f).Some? {
      AcceptedIsLawful(z, f);
    } else if f.Valid() && Occurs(z, MillisOf(f)) && InRange(z.utc(MillisOf(f))) && ReachesDay(z, f) {
      LawfulIsAccepted(z, f);
    }
  }

  /** With no gap at the epoch's time of day on that day, the first step stays on the day. */
  lemma OrdinaryDayReached(z: Zone, f: Fields)
    requires Lawful(z) && f.Valid()
    requires Occurs(z, DayNumber(f.date) * MILLIS_PER_DAY + Local(z, 0) % MILLIS_PER_DAY)
    requires InRange(z.utc(DayNumber(f.date) * MILLIS_PER_DAY + Local(z, 0) % MILLIS_PER_DAY))
    ensures ReachesDay(z, f)
  {
    hide DayNumber, MakeDay;
    MakeDayIsDayNumber(f.date);
    var asked := DayNumber(f.date) * MILLIS_PER_DAY + Local(z, 0) % MILLIS_PER_DAY;
    var t :| Local(z, t) == asked;
    assert Local(z, z.utc(asked)) == asked;
    DayOf(DayNumber(f.date), Local(z, 0) % MILLIS_PER_DAY, asked);
  }

  /** A zone half an hour west until 23:00 local time on a day, then half an hour east: 23:00 to 24:00 is skipped. */
  function LateJump(day: int): Zone {
    var half := 1_800_000;
    var jump := day * MILLIS_PER_DAY + 47 * half;
    Zone(t => if t < jump then -half else half,
         tl => if tl < jump + half then tl + half else tl - half)
  }

  lemma LateJumpIsLawful(day: int)
    ensures Lawful(LateJump(day))
  {
  }

  lemma ClockBound(f: Fields)
    requires f.Valid() && f.hour < 23
    ensures 0 <= TimeOfDay(f.hour, f.minute, f.second, f.milli) < 46 * 1_800_000
  {
  }

  /** There the whole day is rejected after that hour's gap, although its other times occur. */
  lemma OccurringTimeRejected(f: Fields)
    requires f.Valid() && f.hour < 23 && 0 <= DayNumber(f.date) < 1_000_000
    ensures var z := LateJump(DayNumber(f.date)); Lawful(z) && Occurs(z, MillisOf(f)) && DateOf(z, f) == None
  {
    hide TimeOfDay, DayNumber, MakeDay;
    var day, half := DayNumber(f.date), 1_800_000;
    var z := LateJump(day);
    LateJumpIsLawful(day);
    MakeDayIsDayNumber(f.date);
    ClockBound(f);
    var t := MillisOf(f) + half;
    assert Local(z, t) == MillisOf(f);
    assert Local(z, 0) == -half && Local(z, 0) % MILLIS_PER_DAY == 47 * half;
    var asked := day * MILLIS_PER_DAY + 47 * half;
    assert z.utc(asked) == asked + half && Local(z, asked + half) == asked + 2 * half;
    assert asked + 2 * half == (day + 1) * MILLIS_PER_DAY + half;
    DayAndRest(day + 1, half);
    DateOfExact(z, f);
    assert !ReachesDay(z, f);
  }

  // ---------------------------------------------------------------- printing and reading fields

  lemma {:induction false} AllZeroVal(s: string)
    requires forall i :: 0 <= i < |s| ==> s[i] == '0'
    ensures AllDigits(s) && DigitsVal(s) == 0
  {
    if s != [] {
      AllZeroVal(s[..|s| - 1]);
    }
  }

  lemma {:induction false} ZerosAreZero(k: int)
    ensures DigitsVal(Zeros(k)) == 0 && |Zeros(k)| == (if k < 0 then 0 else k)
    ensures forall i :: 0 <= i < |Zeros(k)| ==> Zeros(k)[i] == '0'
    decreases if k < 0 then 0 else k
  {
    if k > 0 {
      ZerosAreZero(k - 1);
      AllZeroVal(Zeros(k));
    }
  }

  lemma {:induction false} ZerosVal(k: int, s: string)
    requires AllDigits(s)
    ensures AllDigits(Zeros(k) + s) && DigitsVal(Zeros(k) + s) == DigitsVal(s)
    decreases |s|, k
  {
    var whole := Zeros(k) + s;
    if s != [] {
      ZerosVal(k, s[..|s| - 1]);
      assert whole[..|whole| - 1] == Zeros(k) + s[..|s| - 1];
    } else {
      assert whole == Zeros(k);
      ZerosAreZero(k);
    }
  }

  /** Padded numbers keep their value and have at least the asked length. */
  lemma PadStartVal(n: nat, length: nat)
    ensures var s := PadStart(n, length); AllDigits(s) && DigitsVal(s) == n && |s| >= length
  {
    hide DigitsVal, Decimal, Zeros;
    DecimalVal(n);
    ZerosVal(length - |Decimal(n)|, Decimal(n));
    ZerosAreZero(length - |Decimal(n)|);
  }

  /** ... exactly that length while they fit. */
  lemma PadStartFits(n: nat)
    ensures n < 100 ==> |PadStart(n, 2)| == 2
    ensures n < 1000 ==> |PadStart(n, 3)| == 3
  {
    var d, tens, hundreds := Decimal(n), n / 10, n / 10 / 10;
    assert hundreds < 10 ==> |Decimal(hundreds)| == 1;
    assert tens < 100 ==> |Decimal(tens)| <= 2;
    ZerosAreZero(2 - |d|);
    ZerosAreZero(3 - |d|);
  }

  lemma FractionOfThree(s: string)
    requires AllDigits(s) && |s| == 3
    ensures MillisOfFraction(s) == DigitsVal(s)
  {
    var one, two := s[..1], s[..2];
    assert DigitsVal(one) == DigitVal(s[0]) by {
      assert DigitsVal(one[..0]) == 0;
    }
    assert two[..1] == one && DigitsVal(two) == DigitsVal(one) * 10 + DigitVal(s[1]);
  }

  /** One printed number, found again inside a longer text. */
  lemma NumberFound(s: string, i: nat, length: nat, n: nat)
    requires i + length <= |s| && s[i..i + length] == PadStart(n, length)
    ensures DigitsAt(s, i, length) && NumberAt(s, i, length) == n
  {
    hide PadStart, DigitsVal;
    PadStartVal(n, length);
  }

  /** Everything after the year is read back. */
  lemma AfterYearReadBack(f: Fields)
    requires f.Valid()
    ensures var r := AfterYear(f);
            && |r| == 19 && MinuteShape(r) && r[12] == ':' && DigitsAt(r, 13, 2) && r[15] == '.' && AllDigits(r[16..])
            && NumberAt(r, 1, 2) == f.date.month && NumberAt(r, 4, 2) == f.date.day && NumberAt(r, 7, 2) == f.hour
            && NumberAt(r, 10, 2) == f.minute && NumberAt(r, 13, 2) == f.second && MillisOfFraction(r[16..]) == f.milli
  {
    hide PadStart, DigitsVal, MillisOfFraction;
    PadStartFits(f.date.month);
    PadStartFits(f.date.day);
    PadStartFits(f.hour);
    PadStartFits(f.minute);
    PadStartFits(f.second);
    PadStartFits(f.milli);
    var r := AfterYear(f);
    NumberFound(r, 1, 2, f.date.month);
    NumberFound(r, 4, 2, f.date.day);
    NumberFound(r, 7, 2, f.hour);
    NumberFound(r, 10, 2, f.minute);
    NumberFound(r, 13, 2, f.second);
    NumberFound(r, 16, 3, f.milli);
    assert r[16..] == r[16..19];
    FractionOfThree(r[16..]);
  }

  lemma {:induction false} RunStopsBefore(s: string, i: nat, k: nat)
    requires i <= k < |s| && !IsDigit(s[k])
    ensures i + DigitRun(s, i) <= k
    decreases k - i
  {
    if i < k && IsDigit(s[i]) {
      RunStopsBefore(s, i + 1, k);
    }
  }

  lemma {:induction false} RunGoesOn(s: string, i: nat, k: nat)
    requires i <= k <= |s| && forall j :: i <= j < k ==> IsDigit(s[j])
    ensures i + DigitRun(s, i) >= k
    decreases k - i
  {
    if i < k {
      RunGoesOn(s, i + 1, k);
    }
  }

  lemma RunIs(digits: string, rest: string)
    requires AllDigits(digits) && rest != [] && !IsDigit(rest[0])
    ensures DigitRun(digits + rest, 0) == |digits|
    ensures (digits + rest)[0..|digits|] == digits && (digits + rest)[|digits|..] == rest
  {
    var s := digits + rest;
    assert s[|digits|] == rest[0];
    RunStopsBefore(s, 0, |digits|);
    RunGoesOn(s, 0, |digits|);
  }

  lemma MinusEarly(year: int)
    requires year < 0
    ensures exists i :: 0 <= i < 3 && i < |PadStart(year, 4)| && PadStart(year, 4)[i] == '-'
  {
    var body := PrintInt(year);
    ZerosAreZero(4 - |body|);
    var i := |Zeros(4 - |body|)|;
    assert PadStart(year, 4)[i] == body[0];
  }

  /** A year of at least four digits, then everything after it, with one to three digits of a fraction. */
  lemma PartsReadBack(y: string, r: string, f: Fields)
    requires AllDigits(y) && |y| >= 4 && DigitsVal(y) == f.date.year
    requires 17 <= |r| <= 19 && MinuteShape(r) && r[12] == ':' && DigitsAt(r, 13, 2)
    requires r[15] == '.' && AllDigits(r[16..])
    requires NumberAt(r, 1, 2) == f.date.month && NumberAt(r, 4, 2) == f.date.day && NumberAt(r, 7, 2) == f.hour
    requires NumberAt(r, 10, 2) == f.minute && NumberAt(r, 13, 2) == f.second && MillisOfFraction(r[16..]) == f.milli
    ensures ReadLocal(y + r) == Some(f)
  {
    RunIs(y, r);
    hide DigitsVal, MillisOfFraction, DigitRun, NumberAt;
  }

  /** The fraction, or the seconds with it, may be left out, and nothing else. */
  lemma ShortFormsReadBack(y: string, r: string, f: Fields)
    requires AllDigits(y) && |y| >= 4 && DigitsVal(y) == f.date.year && MinuteShape(r)
    requires NumberAt(r, 1, 2) == f.date.month && NumberAt(r, 4, 2) == f.date.day && NumberAt(r, 7, 2) == f.hour
    requires NumberAt(r, 10, 2) == f.minute
    ensures |r| == 12 ==> ReadLocal(y + r) == Some(f.(second := 0, milli := 0))
    ensures |r| == 15 && r[12] == ':' && DigitsAt(r, 13, 2) && NumberAt(r, 13, 2) == f.second ==>
              ReadLocal(y + r) == Some(f.(milli := 0))
    ensures 12 < |r| < 15 || |r| == 16 || |r| > 19 ==> ReadLocal(y + r) == None
  {
    RunIs(y, r);
    hide DigitsVal, MillisOfFraction, DigitRun, NumberAt;
  }

  lemma ShortRunUnread(s: string)
    requires DigitRun(s, 0) < 4
    ensures ReadLocal(s) == None
  {
    hide DigitsVal, MillisOfFraction, DigitRun, NumberAt, MinuteShape;
  }

  /** Printed fields are read back as they are, from year 0 on; earlier years are not read at all. */
  lemma PrintReadBack(f: Fields)
    requires f.Valid()
    ensures ReadLocal(PrintLocal(f)) == if f.date.year >= 0 then Some(f) else None
  {
    AfterYearReadBack(f);
    hide PadStart, AfterYear, DigitsVal, MillisOfFraction, DigitRun, ReadLocal, NumberAt, MinuteShape;
    var y, r := PadStart(f.date.year, 4), AfterYear(f);
    if f.date.year >= 0 {
      PadStartVal(f.date.year, 4);
      PartsReadBack(y, r, f);
    } else {
      MinusEarly(f.date.year);
      var i :| 0 <= i < 3 && i < |y| && y[i] == '-';
      RunStopsBefore(y + r, 0, i);
      ShortRunUnread(y + r);
    }
  }
}
