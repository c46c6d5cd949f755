/**
  Printing and parsing of instants (`src/state.rs`). The grammar is `date-time`
  of section 5.6 of RFC 3339; the fraction is read to the millisecond.
 */
module Rfc3339 {
  import opened Options
  import opened Text
  import opened Calendar

  // ---------------------------------------------------------------- printing

  predicate PrintableYear(y: int) {
    0 <= y <= 9999
  }

  /** `full-date "T" partial-time` without the fraction: nineteen characters. */
  function PrintSeconds(f: Fields): (s: string)
    requires f.Valid() && PrintableYear(f.date.year)
    ensures |s| == 19
  {
    Pad(f.date.year, 4) + "-" + Pad(f.date.month, 2) + "-" + Pad(f.date.day, 2) + "T"
    + Pad(f.hour, 2) + ":" + Pad(f.minute, 2) + ":" + Pad(f.second, 2)
  }

  /** Milliseconds with trailing zeros dropped; nothing at all for zero. */
  function PrintFraction(ms: int): string
    requires 0 <= ms < 1000
  {
    if ms == 0 then ""
    else if ms % 10 != 0 then "." + Pad(ms, 3)
    else if ms / 10 % 10 != 0 then "." + Pad(ms / 10, 2)
    else "." + Pad(ms / 100, 1)
  }

  /** Format as RFC 3339 in UTC; years outside 0000-9999 have no such form. */
  function Format(ms: int): Option<string> {
    var f := FieldsOf(ms);
    if PrintableYear(f.date.year) then Some(PrintSeconds(f) + PrintFraction(f.milli) + "Z")
    else None
  }

  /** The years the Rust date type can hold at all. */
  predicate Representable(ms: int) {
    -9999 <= FieldsOf(ms).date.year <= 9999
  }

  /** `millis_to_rfc3339`: an unrepresentable instant is printed as the epoch second. */
  function MillisToRfc3339(millis: int): string {
    var secs := millis / 1000;
    var rest := millis % 1000;
    var shown := if Representable(secs * 1000) then secs else 0;
    match Format(shown * 1000 + rest)
    case Some(s) => s
    case None => ""
  }

  // ---------------------------------------------------------------- parsing

  predicate DigitsAt(s: string, i: nat, n: nat) {
    i + n <= |s| && AllDigits(s[i..i + n])
  }

  function NumberAt(s: string, i: nat, n: nat): nat
    requires DigitsAt(s, i, n)
  {
    DigitsVal(s[i..i + n])
  }

  /** The shape of the first nineteen characters. */
  predicate SecondsShape(s: string) {
    && |s| >= 19
    && DigitsAt(s, 0, 4) && s[4] == '-' && DigitsAt(s, 5, 2) && s[7] == '-' && DigitsAt(s, 8, 2)
    && (s[10] == 'T' || s[10] == 't')
    && DigitsAt(s, 11, 2) && s[13] == ':' && DigitsAt(s, 14, 2) && s[16] == ':' && DigitsAt(s, 17, 2)
  }

  /** Length of the run of digits that starts at `i`. */
  function DigitRun(s: string, i: nat): (n: nat)
    requires i <= |s|
    ensures i + n <= |s| && AllDigits(s[i..i + n])
    ensures i + n < |s| ==> !IsDigit(s[i + n])
    decreases |s| - i
  {
    if i < |s| && IsDigit(s[i]) then
      assert s[i..i + 1 + DigitRun(s, i + 1)] == [s[i]] + s[i + 1..i + 1 + DigitRun(s, i + 1)];
      1 + DigitRun(s, i + 1)
    else 0
  }

  /** The first three digits of a fraction, padded on the right with zeros. */
  function MillisOfFraction(d: string): (ms: int)
    requires AllDigits(d)
    ensures 0 <= ms < 1000
  {
    (if |d| > 0 then DigitVal(d[0]) else 0) * 100
    + (if |d| > 1 then DigitVal(d[1]) else 0) * 10
    + (if |d| > 2 then DigitVal(d[2]) else 0)
  }

  /** A `time-secfrac` and the rest: `.` and at least one digit, cut to milliseconds. */
  function ParseFraction(s: string): Option<(int, string)> {
    if s == [] || s[0] != '.' then Some((0, s))
    else
      var n := DigitRun(s, 1);
      if n == 0 then None
      else Some((MillisOfFraction(s[1..1 + n]), s[1 + n..]))
  }

  /** A `time-offset`, in minutes east of UTC; nothing may follow it. */
  function ParseZone(s: string): Option<int> {
    if s == "Z" || s == "z" then Some(0)
    else if |s| == 6 && (s[0] == '+' || s[0] == '-') && DigitsAt(s, 1, 2) && s[3] == ':' && DigitsAt(s, 4, 2) then
      var h := NumberAt(s, 1, 2);
      var m := NumberAt(s, 4, 2);
      if h > 23 || m > 59 then None
      else Some(if s[0] == '-' then -(h * 60 + m) else h * 60 + m)
    else None
  }

  /** Last second of a month, where section 5.7 allows a leap second to follow. */
  predicate MonthEndSecond(f: Fields)
    requires f.Valid()
  {
    f.date.day == DaysInMonth(f.date.year, f.date.month) && f.hour == 23 && f.minute == 59 && f.second == 59
  }

  /** Fields and offset to an instant; second 60 reads as the last millisecond of a UTC month. */
  function Assemble(y: int, mo: int, d: int, h: int, mi: int, sec: int, ms: int, offset: int): Option<int> {
    var leap := sec == 60;
    var f := Fields(Civil(y, mo, d), h, mi, if leap then 59 else sec, if leap then 999 else ms);
    if !f.Valid() then None
    else
      var t := MillisOf(f) - offset * 60_000;
      if leap && !MonthEndSecond(FieldsOf(t)) then None else Some(t)
  }

  function ParseRfc3339(s: string): Option<int> {
    if !SecondsShape(s) then None
    else
      match ParseFraction(s[19..])
      case None => None
      case Some((ms, zone)) =>
        match ParseZone(zone)
        case None => None
        case Some(offset) =>
          Assemble(NumberAt(s, 0, 4), NumberAt(s, 5, 2), NumberAt(s, 8, 2),
                   NumberAt(s, 11, 2), NumberAt(s, 14, 2), NumberAt(s, 17, 2), ms, offset)
  }

  /** `parse_expires_at`: a positive integer of milliseconds, or RFC 3339. */
  function ParseExpiresAt(raw: string): Option<int> {
    var s := Trim(raw);
    if s == [] then None
    else
      match ParseI64(s)
      case Some(m) => if m > 0 then Some(m) else None
      case None => ParseRfc3339(s)
  }

  // ---------------------------------------------------------------- reading what was printed

  lemma PadAt(s: string, i: nat, n: nat, v: nat)
    requires v < Pow10(n) && i + n <= |s| && s[i..i + n] == Pad(v, n)
    ensures DigitsAt(s, i, n) && NumberAt(s, i, n) == v
  {
    PadVal(v, n);
  }

  lemma SmallPowers()
    ensures Pow10(1) == 10 && Pow10(2) == 100 && Pow10(3) == 1000 && Pow10(4) == 10_000
  {
    assert Pow10(0) == 1;
    assert Pow10(1) == 10;
    assert Pow10(2) == 100;
    assert Pow10(3) == 1000;
  }

  /** The nineteen printed characters are read back number by number, whatever follows them. */
  lemma SecondsReadBack(f: Fields, tail: string)
    requires f.Valid() && PrintableYear(f.date.year)
    ensures var s := PrintSeconds(f) + tail;
            && SecondsShape(s) && s[10] == 'T' && s[19..] == tail
            && NumberAt(s, 0, 4) == f.date.year && NumberAt(s, 5, 2) == f.date.month
            && NumberAt(s, 8, 2) == f.date.day && NumberAt(s, 11, 2) == f.hour
            && NumberAt(s, 14, 2) == f.minute && NumberAt(s, 17, 2) == f.second
  {
    hide Pad, Pow10;
    var s := PrintSeconds(f) + tail;
    SmallPowers();
    PadAt(s, 0, 4, f.date.year);
    PadAt(s, 5, 2, f.date.month);
    PadAt(s, 8, 2, f.date.day);
    PadAt(s, 11, 2, f.hour);
    PadAt(s, 14, 2, f.minute);
    PadAt(s, 17, 2, f.second);
  }

  lemma {:induction false} DigitRunOf(d: string, tail: string, i: nat)
    requires AllDigits(d) && i <= |d| + 1 && 1 <= i
    requires tail == [] || !IsDigit(tail[0])
    ensures DigitRun("." + d + tail, i) == |d| + 1 - i
    decreases |d| + 1 - i
  {
    var s := "." + d + tail;
    if i <= |d| {
      assert s[i] == d[i - 1];
      DigitRunOf(d, tail, i + 1);
    } else if tail != [] {
      assert s[i] == tail[0];
    }
  }

  /** A fraction of any length is read to its first three digits. */
  lemma FractionReadBack(d: string, zone: string)
    requires AllDigits(d) && (zone == [] || (!IsDigit(zone[0]) && zone[0] != '.'))
    ensures ParseFraction((if d == [] then "" else "." + d) + zone) == Some((MillisOfFraction(d), zone))
  {
    if d == [] {
      assert "" + zone == zone;
    } else {
      var s := "." + d + zone;
      DigitRunOf(d, zone, 1);
      assert s[1..1 + |d|] == d;
      assert s[1 + |d|..] == zone;
    }
  }

  function FractionDigits(ms: int): (d: string)
    requires 0 <= ms < 1000
    ensures AllDigits(d)
  {
    if ms == 0 then ""
    else if ms % 10 != 0 then Pad(ms, 3)
    else if ms / 10 % 10 != 0 then Pad(ms / 10, 2)
    else Pad(ms / 100, 1)
  }

  lemma ThreeDigits(n: nat)
    ensures Pad(n, 3) == [DigitChar(n / 100 % 10), DigitChar(n / 10 % 10), DigitChar(n % 10)]
    ensures Pad(n, 2) == [DigitChar(n / 10 % 10), DigitChar(n % 10)]
    ensures Pad(n, 1) == [DigitChar(n % 10)]
  {
    assert n / 10 / 10 == n / 100;
    assert Pad(n / 100, 0) == [];
    assert Pad(n / 10, 0) == [];
    assert Pad(n, 0) == [];
    assert Pad(n / 100, 1) == [DigitChar(n / 100 % 10)];
    assert Pad(n / 10, 1) == [DigitChar(n / 10 % 10)];
    assert Pad(n / 10, 2) == Pad(n / 100, 1) + [DigitChar(n / 10 % 10)];
  }

  lemma DecimalParts(ms: int)
    requires 0 <= ms < 1000
    ensures ms / 100 % 10 == ms / 100
    ensures ms / 100 * 100 + ms / 10 % 10 * 10 + ms % 10 == ms
    ensures ms / 10 / 10 == ms / 100
  {
  }

  lemma FractionDigitsVal(ms: int)
    requires 0 <= ms < 1000
    ensures MillisOfFraction(FractionDigits(ms)) == ms
  {
    hide Pad, DigitsVal, Pow10;
    DecimalParts(ms);
    if ms == 0 {
    } else if ms % 10 != 0 {
      ThreeDigits(ms);
    } else if ms / 10 % 10 != 0 {
      ThreeDigits(ms / 10);
    } else {
      ThreeDigits(ms / 100);
    }
  }

  lemma ThreeDigitsVal(ms: int)
    requires 0 <= ms < 1000
    ensures MillisOfFraction(Pad(ms, 3)) == ms
  {
    hide Pad, DigitsVal, Pow10;
    DecimalParts(ms);
    ThreeDigits(ms);
  }

  /** A zone spelled with an explicit sign, hours and minutes. */
  function PrintZone(west: bool, h: nat, m: nat): (s: string)
    ensures |s| == 6
  {
    (if west then "-" else "+") + Pad(h, 2) + ":" + Pad(m, 2)
  }

  function ZoneMinutes(west: bool, h: nat, m: nat): int {
    if west then -(h * 60 + m) else h * 60 + m
  }

  lemma ZoneReadBack(west: bool, h: nat, m: nat)
    requires h <= 23 && m <= 59
    ensures ParseZone(PrintZone(west, h, m)) == Some(ZoneMinutes(west, h, m))
  {
    hide Pad, Pow10;
    var s := PrintZone(west, h, m);
    SmallPowers();
    PadAt(s, 1, 2, h);
    PadAt(s, 4, 2, m);
  }

  /** A zone is `Z`, or a sign with hours and minutes: `+` is ahead of UTC, and a day or more is no zone. */
  lemma ZoneMeaning(s: string, h: nat, m: nat)
    requires |s| == 6 && DigitsAt(s, 1, 2) && s[3] == ':' && DigitsAt(s, 4, 2)
    requires NumberAt(s, 1, 2) == h && NumberAt(s, 4, 2) == m
    ensures ParseZone("Z") == ParseZone("z") == Some(0)
    ensures s[0] == '+' && h <= 23 && m <= 59 ==> ParseZone(s) == Some(h * 60 + m)
    ensures s[0] == '-' && h <= 23 && m <= 59 ==> ParseZone(s) == Some(-(h * 60 + m))
    ensures (s[0] != '+' && s[0] != '-') || h > 23 || m > 59 ==> ParseZone(s) == None
  {
  }

  /** Text with a dash as its fifth character and no outer whitespace goes straight to the RFC 3339 parser. */
  lemma NotMillis(s: string)
    requires |s| >= 5 && s[4] == '-' && Trimmed(s)
    ensures ParseExpiresAt(s) == ParseRfc3339(s)
  {
    hide ParseRfc3339, ParseI64, Trim;
    TrimIdentity(s);
    NotAnInteger(s, 4);
  }

  /** Whole numbers are read as milliseconds if they are positive; blank is nothing. */
  lemma IntegerExpiry(m: int)
    requires I64_MIN <= m <= I64_MAX
    ensures ParseExpiresAt(PrintInt(m)) == if m > 0 then Some(m) else None
    ensures ParseExpiresAt("") == None
  {
    var s := PrintInt(m);
    assert IsDigit(s[|s| - 1]);
    assert s[0] == '-' || IsDigit(s[0]);
    TrimIdentity(s);
    TrimIdentity("");
    ParsePrinted(m);
    hide Trim, ParseI64, PrintInt, ParseRfc3339;
  }

  /** Only a date and time that exist are read, with `-`, `T` and `:` in their places. */
  lemma OnlyDatesRead(s: string)
    requires ParseRfc3339(s).Some?
    ensures |s| >= 20 && s[4] == '-' && s[7] == '-' && (s[10] == 'T' || s[10] == 't') && s[13] == ':' && s[16] == ':'
    ensures DigitsAt(s, 5, 2) && 1 <= NumberAt(s, 5, 2) <= 12
    ensures DigitsAt(s, 0, 4) && DigitsAt(s, 8, 2)
            && 1 <= NumberAt(s, 8, 2) <= DaysInMonth(NumberAt(s, 0, 4), NumberAt(s, 5, 2))
    ensures DigitsAt(s, 11, 2) && NumberAt(s, 11, 2) < 24 && DigitsAt(s, 14, 2) && NumberAt(s, 14, 2) < 60
    ensures DigitsAt(s, 17, 2) && NumberAt(s, 17, 2) <= 60
  {
    hide DigitsAt, NumberAt, MillisOf, FieldsOf, DaysInMonth, MonthEndSecond;
  }

  lemma SecondOfDay(ms: int)
    ensures var f, rest := FieldsOf(ms), ms % MILLIS_PER_DAY;
            && rest == f.hour * 3_600_000 + f.minute * 60_000 + f.second * 1000 + f.milli
            && f.milli == rest % 1000
  {
    SplitTimeOfDay(ms % MILLIS_PER_DAY);
    hide CivilOf;
  }

  lemma Multiples(e: int, d: int)
    requires d > 0
    ensures e >= 1 ==> e * d >= d
    ensures e <= -1 ==> e * d <= -d
  {
  }

  lemma Remainder(x: int, d: int, q: int, r: int)
    requires d > 0 && x == q * d + r && 0 <= r < d
    ensures x / d == q && x % d == r
  {
    assert (q - x / d) * d == x % d - r;
    Multiples(q - x / d, d);
  }

  lemma ThousandthOfDay(t: int)
    ensures t % MILLIS_PER_DAY % 1000 == t % 1000
  {
    Remainder(t % MILLIS_PER_DAY, 1000, t / 1000 - t / MILLIS_PER_DAY * 86_400, t % 1000);
  }

  lemma Midnight(t: int)
    requires t % 1000 == 999
    ensures t % MILLIS_PER_DAY % 1000 == 999
    ensures (t + 1) % MILLIS_PER_DAY == 0 <==> t % MILLIS_PER_DAY == MILLIS_PER_DAY - 1
    ensures (t + 1) % MILLIS_PER_DAY % 1000 == 0
    ensures (t + 1) % MILLIS_PER_DAY == 0 ==> (t + 1) / MILLIS_PER_DAY == t / MILLIS_PER_DAY + 1
  {
    var q, r := t / MILLIS_PER_DAY, t % MILLIS_PER_DAY;
    ThousandthOfDay(t);
    ThousandthOfDay(t + 1);
    Remainder(t + 1, 1000, t / 1000 + 1, 0);
    if r + 1 < MILLIS_PER_DAY {
      Remainder(t + 1, MILLIS_PER_DAY, q, r + 1);
    } else {
      Remainder(t + 1, MILLIS_PER_DAY, q + 1, 0);
    }
  }

  lemma LastOfDay(h: int, mi: int, s: int, rest: int)
    requires 0 <= h < 24 && 0 <= mi < 60 && 0 <= s < 60 && rest == h * 3_600_000 + mi * 60_000 + s * 1000 + 999
    ensures rest == MILLIS_PER_DAY - 1 <==> h == 23 && mi == 59 && s == 59
  {
  }

  lemma FirstOfDay(h: int, mi: int, s: int, rest: int)
    requires 0 <= h < 24 && 0 <= mi < 60 && 0 <= s < 60 && rest == h * 3_600_000 + mi * 60_000 + s * 1000
    ensures rest == 0 <==> h == 0 && mi == 0 && s == 0
  {
  }

  lemma MonthEnds(c: Civil)
    requires c.Valid()
    ensures NextDay(c).day == 1 <==> c.day == DaysInMonth(c.year, c.month)
  {
  }

  lemma LastMillisecond(t: int)
    requires t % 1000 == 999
    ensures MonthEndSecond(FieldsOf(t))
            <==> var n := FieldsOf(t + 1); n.date.day == 1 && n.hour == 0 && n.minute == 0 && n.second == 0
  {
    Midnight(t);
    SecondOfDay(t);
    SecondOfDay(t + 1);
    DatesFollow(t / MILLIS_PER_DAY);
    assert FieldsOf(t).date == CivilOf(t / MILLIS_PER_DAY);
    assert FieldsOf(t + 1).date == CivilOf((t + 1) / MILLIS_PER_DAY);
    hide FieldsOf, CivilOf, NextDay, DaysInMonth;
    var f, n := FieldsOf(t), FieldsOf(t + 1);
    MonthEnds(f.date);
    LastOfDay(f.hour, f.minute, f.second, t % MILLIS_PER_DAY);
    FirstOfDay(n.hour, n.minute, n.second, (t + 1) % MILLIS_PER_DAY);
  }

  lemma EndsInMilli(f: Fields, offset: int)
    requires f.Valid()
    ensures (MillisOf(f) - offset * 60_000) % 1000 == f.milli
  {
    hide DayNumber;
    var k := DayNumber(f.date) * 86_400 + (f.hour * 60 + f.minute) * 60 + f.second - offset * 60;
    Remainder(MillisOf(f) - offset * 60_000, 1000, k, f.milli);
  }

  /**
    A second 60 is read exactly where the next millisecond starts a month in UTC,
    as the one before that.
   */
  lemma LeapSecondMeaning(f: Fields, ms: int, offset: int, t: int)
    requires f.Valid() && f.second == 59 && f.milli == 999 && t == MillisOf(f) - offset * 60_000
    ensures var n := FieldsOf(t + 1);
            Assemble(f.date.year, f.date.month, f.date.day, f.hour, f.minute, 60, ms, offset)
            == if n.date.day == 1 && n.hour == 0 && n.minute == 0 && n.second == 0 then Some(t) else None
  {
    EndsInMilli(f, offset);
    hide MillisOf, FieldsOf, MonthEndSecond, DaysInMonth;
    LastMillisecond(t);
  }

  function Spelling(f: Fields, d: string, zone: string): string
    requires f.Valid() && PrintableYear(f.date.year)
  {
    PrintSeconds(f) + ((if d == [] then "" else "." + d) + zone)
  }

  lemma ZoneEnds(zone: string)
    requires ParseZone(zone).Some?
    ensures zone != [] && !IsDigit(zone[0]) && zone[0] != '.' && !IsSpace(zone[|zone| - 1])
  {
    if |zone| == 6 && DigitsAt(zone, 4, 2) {
      assert IsDigit(zone[4..6][1]);
    }
  }

  lemma ParsesSpelling(f: Fields, d: string, zone: string, offset: int)
    requires f.Valid() && PrintableYear(f.date.year)
    requires AllDigits(d) && MillisOfFraction(d) == f.milli
    requires ParseZone(zone) == Some(offset)
    ensures ParseRfc3339(Spelling(f, d, zone)) == Some(MillisOf(f) - offset * 60_000)
  {
    hide Pad, MillisOf, MillisOfFraction, ParseZone, ParseFraction, SecondsShape, DigitsAt, NumberAt, PrintSeconds;
    var tail := (if d == [] then "" else "." + d) + zone;
    SecondsReadBack(f, tail);
    ZoneEnds(zone);
    FractionReadBack(d, zone);
  }

  /** Any spelling of valid fields, fraction digits and zone is read as that instant. */
  lemma SpellingReadBack(f: Fields, d: string, zone: string, offset: int)
    requires f.Valid() && PrintableYear(f.date.year)
    requires AllDigits(d) && MillisOfFraction(d) == f.milli
    requires ParseZone(zone) == Some(offset)
    ensures ParseExpiresAt(Spelling(f, d, zone)) == Some(MillisOf(f) - offset * 60_000)
  {
    var tail := (if d == [] then "" else "." + d) + zone;
    var s := Spelling(f, d, zone);
    ZoneEnds(zone);
    assert s[|s| - 1] == zone[|zone| - 1];
    SecondsReadBack(f, tail);
    assert IsDigit(s[0]) by {
      assert IsDigit(s[0..4][0]);
    }
    NotMillis(s);
    ParsesSpelling(f, d, zone, offset);
  }

  // ---------------------------------------------------------------- round trips

  lemma FormatIsSpelling(ms: int)
    requires PrintableYear(FieldsOf(ms).date.year)
    ensures Format(ms) == Some(Spelling(FieldsOf(ms), FractionDigits(FieldsOf(ms).milli), "Z"))
    ensures AllDigits(FractionDigits(FieldsOf(ms).milli))
    ensures MillisOfFraction(FractionDigits(FieldsOf(ms).milli)) == FieldsOf(ms).milli
  {
    hide Pad, FieldsOf, PrintSeconds;
    var f := FieldsOf(ms);
    FractionDigitsVal(f.milli);
    var d := FractionDigits(f.milli);
    assert PrintFraction(f.milli) == (if d == [] then "" else "." + d);
    assert PrintSeconds(f) + PrintFraction(f.milli) + "Z" == PrintSeconds(f) + (PrintFraction(f.milli) + "Z");
  }

  /** Everything `Format` prints is read back as the same instant. */
  lemma FormatRoundTrip(ms: int)
    requires PrintableYear(FieldsOf(ms).date.year)
    ensures Format(ms).Some? && ParseExpiresAt(Format(ms).value) == Some(ms)
  {
    hide FieldsOf, MillisOf, Format, Spelling, ParseExpiresAt;
    FormatIsSpelling(ms);
    var f := FieldsOf(ms);
    SpellingReadBack(f, FractionDigits(f.milli), "Z", 0);
    FieldsRoundTrip(ms);
  }

  /** A fraction is a point and up to three digits, the last of them not zero. */
  lemma FractionText(ms: int)
    requires 0 <= ms < 1000
    ensures var p := PrintFraction(ms);
            if ms == 0 then p == ""
            else && 2 <= |p| <= 4 && p[0] == '.' && p[|p| - 1] != '0'
                 && AllDigits(p[1..]) && DigitsVal(p[1..]) * Pow10(4 - |p|) == ms
  {
    SmallPowers();
    PadVal(ms, 3);
    PadVal(ms / 10, 2);
    PadVal(ms / 100, 1);
  }

  /** Character by character, what is printed: date and time in digits, then the fraction, then the zone of UTC. */
  lemma PrintedText(ms: int)
    requires PrintableYear(FieldsOf(ms).date.year)
    ensures Format(ms).Some?
    ensures var f, s := FieldsOf(ms), Format(ms).value;
            && |s| >= 20 && s[4] == '-' && s[7] == '-' && s[10] == 'T' && s[13] == ':' && s[16] == ':'
            && DigitsAt(s, 0, 4) && NumberAt(s, 0, 4) == f.date.year
            && DigitsAt(s, 5, 2) && NumberAt(s, 5, 2) == f.date.month
            && DigitsAt(s, 8, 2) && NumberAt(s, 8, 2) == f.date.day
            && DigitsAt(s, 11, 2) && NumberAt(s, 11, 2) == f.hour
            && DigitsAt(s, 14, 2) && NumberAt(s, 14, 2) == f.minute
            && DigitsAt(s, 17, 2) && NumberAt(s, 17, 2) == f.second
            && s[19..] == PrintFraction(f.milli) + "Z"
  {
    var f := FieldsOf(ms);
    hide FieldsOf, Pad, DigitsVal;
    SecondsReadBack(f, PrintFraction(f.milli) + "Z");
    assert Format(ms).value == PrintSeconds(f) + (PrintFraction(f.milli) + "Z");
    hide PrintSeconds, PrintFraction, DigitsAt, NumberAt;
  }

  lemma WholeSecondDay(ms: int)
    ensures ms / 1000 * 1000 / 86_400_000 == ms / 86_400_000
  {
    var q := ms / 86_400_000;
    assert q * 86_400 <= ms / 1000 < q * 86_400 + 86_400;
  }

  /** Whole seconds and the milliseconds after them lie in the same day. */
  lemma SameDay(ms: int)
    ensures FieldsOf(ms / 1000 * 1000).date == FieldsOf(ms).date
  {
    hide CivilOf;
    WholeSecondDay(ms);
  }

  lemma EpochYear(rest: int)
    requires 0 <= rest < 1000
    ensures FieldsOf(rest).date.year == 1970
  {
    hide CivilOf;
    EpochDate();
  }

  lemma EmptyIsNone()
    ensures ParseExpiresAt("") == None
  {
  }

  /**
    The printer and the parser undo each other exactly on years 0000 to 9999.
    Outside, the printer gives nothing (years -9999 to -1) or an instant of 1970.
   */
  lemma PrintParseExact(m: int)
    ensures ParseExpiresAt(MillisToRfc3339(m)) == Some(m) <==> PrintableYear(FieldsOf(m).date.year)
    ensures !Representable(m) ==> ParseExpiresAt(MillisToRfc3339(m)) == Some(m % 1000)
    ensures Representable(m) && FieldsOf(m).date.year < 0 ==> MillisToRfc3339(m) == ""
  {
    hide FieldsOf, ParseExpiresAt;
    SameDay(m);
    EpochYear(m % 1000);
    if Representable(m) {
      assert m / 1000 * 1000 + m % 1000 == m;
      if PrintableYear(FieldsOf(m).date.year) {
        FormatRoundTrip(m);
      } else {
        assert MillisToRfc3339(m) == "";
        EmptyIsNone();
      }
    } else {
      FormatRoundTrip(m % 1000);
      assert m % 1000 != m;
    }
  }

  /** One instant written in any zone, with any fraction spelling, is read as that instant. */
  lemma AnyOffsetSameInstant(m: int, west: bool, h: nat, mi: nat, d: string)
    requires h <= 23 && mi <= 59
    requires PrintableYear(FieldsOf(m + ZoneMinutes(west, h, mi) * 60_000).date.year)
    requires AllDigits(d) && MillisOfFraction(d) == FieldsOf(m + ZoneMinutes(west, h, mi) * 60_000).milli
    ensures ParseExpiresAt(Spelling(FieldsOf(m + ZoneMinutes(west, h, mi) * 60_000), d, PrintZone(west, h, mi)))
            == Some(m)
  {
    hide FieldsOf, MillisOf, Spelling, ParseExpiresAt, MillisOfFraction, PrintZone, ParseZone, ZoneMinutes;
    var offset := ZoneMinutes(west, h, mi);
    ZoneReadBack(west, h, mi);
    SpellingReadBack(FieldsOf(m + offset * 60_000), d, PrintZone(west, h, mi), offset);
    FieldsRoundTrip(m + offset * 60_000);
  }
}
