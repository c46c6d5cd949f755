/**
  The expiration form field of the admin pages (`src/web/admin.rs`): what the
  page prints for a stored instant and what the handler reads back.
 */
module AdminExpiry {
  import opened Options
  import opened Text
  import opened Calendar
  import opened Rfc3339

  /** `instant` feeds the script, `input` is the no-JavaScript UTC value. */
  datatype ExpirationField = ExpirationField(input: string, instant: string)

  function TrimEndZ(s: string): string {
    if s != [] && s[|s| - 1] == 'Z' then TrimEndZ(s[..|s| - 1]) else s
  }

  /** `ExpirationField::new`: empty for no expiry and for unprintable instants. */
  function NewField(millis: Option<int>): ExpirationField {
    var instant := match millis
                   case None => ""
                   case Some(m) => if Representable(m) then Format(m).GetOr("") else "";
    ExpirationField(TrimEndZ(instant), instant)
  }

  function Utc(neg: bool, y: int, mo: int, d: int, h: int, mi: int, sec: int): Option<int> {
    var f := Fields(Civil(if neg then -y else y, mo, d), h, mi, sec, 0);
    if f.Valid() then Some(MillisOf(f)) else None
  }

  /** `[year]-[month]-[day]T[hour]:[minute]` with an optional sign on the year. */
  function ParseMinutes(s: string): Option<int> {
    var signed := s != [] && (s[0] == '-' || s[0] == '+');
    var b := if signed then s[1..] else s;
    if && |b| == 16
       && DigitsAt(b, 0, 4) && b[4] == '-' && DigitsAt(b, 5, 2) && b[7] == '-' && DigitsAt(b, 8, 2)
       && b[10] == 'T' && DigitsAt(b, 11, 2) && b[13] == ':' && DigitsAt(b, 14, 2)
    then
      Utc(signed && s[0] == '-', NumberAt(b, 0, 4), NumberAt(b, 5, 2), NumberAt(b, 8, 2),
          NumberAt(b, 11, 2), NumberAt(b, 14, 2), 0)
    else None
  }

  /** The same with `:[second]`. */
  function ParseSeconds(s: string): Option<int> {
    var signed := s != [] && (s[0] == '-' || s[0] == '+');
    var b := if signed then s[1..] else s;
    if |b| == 19 && SecondsShape(b) && b[10] == 'T' then
      Utc(signed && s[0] == '-', NumberAt(b, 0, 4), NumberAt(b, 5, 2), NumberAt(b, 8, 2),
          NumberAt(b, 11, 2), NumberAt(b, 14, 2), NumberAt(b, 17, 2))
    else None
  }

  /** `parse_admin_expires`. */
  function ParseAdmin(raw: Option<string>): Result<Option<int>> {
    var s := Trim(raw.GetOr(""));
    if s == [] then Ok(None)
    else if ParseExpiresAt(s).Some? then Ok(ParseExpiresAt(s))
    else if ParseExpiresAt(s + "Z").Some? then Ok(ParseExpiresAt(s + "Z"))
    else if ParseMinutes(s).Some? then Ok(ParseMinutes(s))
    else if ParseSeconds(s).Some? then Ok(ParseSeconds(s))
    else Err(Validation)
  }

  /** `ExpirationField::from_raw`: the field of a form shown again after an error. */
  function FromRaw(raw: Option<string>): ExpirationField {
    match ParseAdmin(raw)
    case Ok(m) => NewField(m)
    case Err(_) => NewField(None)
  }

  // ---------------------------------------------------------------- round trips

  lemma UnzonedEnds(f: Fields, d: string)
    requires f.Valid() && PrintableYear(f.date.year) && AllDigits(d)
    ensures var s := Spelling(f, d, "");
            && Trimmed(s) && |s| >= 19 && s[4] == '-' && IsDigit(s[|s| - 1])
            && ParseRfc3339(s) == None && s + "Z" == Spelling(f, d, "Z")
  {
    var tail := (if d == [] then "" else "." + d) + "";
    var s := Spelling(f, d, "");
    SecondsReadBack(f, tail);
    assert IsDigit(s[0..4][0]) && IsDigit(s[17..19][1]);
    assert s[|s| - 1] == (if d == [] then s[18] else d[|d| - 1]);
    FractionReadBack(d, "");
  }

  /** Text that ends before its zone: not RFC 3339 yet, and right once `Z` is added. */
  lemma UnzonedReadBack(f: Fields, d: string)
    requires f.Valid() && PrintableYear(f.date.year)
    requires AllDigits(d) && MillisOfFraction(d) == f.milli
    ensures ParseAdmin(Some(Spelling(f, d, ""))) == Ok(Some(MillisOf(f)))
  {
    var tail := (if d == [] then "" else "." + d) + "";
    var s := Spelling(f, d, "");
    UnzonedEnds(f, d);
    hide PrintSeconds, Pad, MillisOf, MillisOfFraction, ParseRfc3339, ParseExpiresAt, ParseI64, Spelling;
    TrimIdentity(s);
    NotMillis(s);
    assert s + "Z" == Spelling(f, d, "Z");
    SpellingReadBack(f, d, "Z", 0);
  }

  lemma DropZ(s: string)
    requires s != [] && s[|s| - 1] != 'Z'
    ensures TrimEndZ(s + "Z") == s
  {
    assert (s + "Z")[..|s|] == s;
  }

  /**
    The no-JavaScript field gives back the stored expiry exactly when there is
    none or its year is 0000 to 9999; other instants are printed as no expiry.
   */
  lemma FieldRoundTrip(m: Option<int>)
    ensures ParseAdmin(Some(NewField(m).input)) == Ok(m)
            <==> (m == None || PrintableYear(FieldsOf(m.value).date.year))
    ensures m.Some? && !PrintableYear(FieldsOf(m.value).date.year) ==> NewField(m) == NewField(None)
  {
    hide FieldsOf, MillisOf, ParseExpiresAt, PrintSeconds;
    if m.Some? && PrintableYear(FieldsOf(m.value).date.year) {
      var f := FieldsOf(m.value);
      var d := FractionDigits(f.milli);
      FormatIsSpelling(m.value);
      UnzonedEnds(f, d);
      DropZ(Spelling(f, d, ""));
      UnzonedReadBack(f, d);
      FieldsRoundTrip(m.value);
    }
  }

  /** `toISOString` for other years: a sign and six digits, which hold every year of a Date. */
  function ExpandedIso(f: Fields): (s: string)
    requires f.Valid()
    ensures |s| == 27 && (s[0] == '-' || s[0] == '+') && !IsDigit(s[7]) && s[26] == 'Z'
  {
    var year := f.date.year;
    (if year < 0 then "-" else "+") + Pad(if year < 0 then -year else year, 6) + "-"
    + Pad(f.date.month, 2) + "-" + Pad(f.date.day, 2) + "T" + Pad(f.hour, 2) + ":" + Pad(f.minute, 2) + ":"
    + Pad(f.second, 2) + "." + Pad(f.milli, 3) + "Z"
  }

  /** `Date.prototype.toISOString`: three fraction digits and `Z`. */
  function IsoString(ms: int): string {
    var f := FieldsOf(ms);
    if PrintableYear(f.date.year) then Spelling(f, Pad(f.milli, 3), "Z") else ExpandedIso(f)
  }

  /** No parser of the handler takes the expanded form, with or without a further `Z`. */
  lemma ExpandedRefused(f: Fields)
    requires f.Valid()
    ensures ParseAdmin(Some(ExpandedIso(f))) == Err(Validation)
  {
    var s := ExpandedIso(f);
    TrimIdentity(s);
    TrimIdentity(s + "Z");
    NotAnInteger(s, 7);
    NotAnInteger(s + "Z", 7);
    assert s[0..4][0] == s[0] && (s + "Z")[0..4][0] == s[0];
    hide ParseI64, ExpandedIso, Trim;
  }

  /** The handler trims before the parser does, which changes nothing. */
  lemma Accepted(s: string, ms: int)
    requires ParseExpiresAt(s) == Some(ms)
    ensures ParseAdmin(Some(s)) == Ok(Some(ms))
  {
    hide ParseRfc3339, ParseI64, Trim;
    TrimIdentity(s);
    TrimIdentity(Trim(s));
  }

  lemma PrintableInstantRead(ms: int)
    requires PrintableYear(FieldsOf(ms).date.year)
    ensures ParseAdmin(Some(IsoString(ms))) == Ok(Some(ms))
    ensures ParseAdmin(Some(NewField(Some(ms)).instant)) == Ok(Some(ms))
  {
    hide FieldsOf, MillisOf, PrintSeconds, ParseRfc3339, ParseI64, Spelling, MillisOfFraction, Pad, ExpandedIso;
    var f := FieldsOf(ms);
    ThreeDigitsVal(f.milli);
    FieldsRoundTrip(ms);
    FormatIsSpelling(ms);
    SpellingReadBack(f, Pad(f.milli, 3), "Z", 0);
    SpellingReadBack(f, FractionDigits(f.milli), "Z", 0);
    Accepted(IsoString(ms), ms);
    Accepted(Spelling(f, FractionDigits(f.milli), "Z"), ms);
  }

  /**
    The server reads what the script submits as the same instant exactly for the
    years 0000 to 9999, and refuses every other year; it never reads another
    instant. What the page gave the script is read alike, or was empty.
   */
  lemma SubmittedInstantRead(ms: int)
    ensures var readable := PrintableYear(FieldsOf(ms).date.year);
            && ParseAdmin(Some(IsoString(ms))) == (if readable then Ok(Some(ms)) else Err(Validation))
            && ParseAdmin(Some(NewField(Some(ms)).instant)) == Ok(if readable then Some(ms) else None)
  {
    if PrintableYear(FieldsOf(ms).date.year) {
      PrintableInstantRead(ms);
    } else {
      ExpandedRefused(FieldsOf(ms));
      hide FieldsOf, ExpandedIso;
      assert ParseAdmin(Some("")) == Ok(None);
    }
  }

  /** A whole minute, as a browser shortens it: no seconds and no zone. */
  function MinuteText(f: Fields): string
    requires f.Valid() && PrintableYear(f.date.year)
  {
    PrintSeconds(f)[..16]
  }

  lemma SeparatorIsT(f: Fields)
    requires f.Valid() && PrintableYear(f.date.year)
    ensures PrintSeconds(f)[10] == 'T'
  {
  }

  lemma MinuteParts(f: Fields)
    requires f.Valid() && PrintableYear(f.date.year)
    ensures var b := MinuteText(f);
            && |b| == 16 && Trimmed(b) && Trimmed(b + "Z") && IsDigit(b[0])
            && DigitsAt(b, 0, 4) && b[4] == '-' && DigitsAt(b, 5, 2) && b[7] == '-' && DigitsAt(b, 8, 2)
            && b[10] == 'T' && DigitsAt(b, 11, 2) && b[13] == ':' && DigitsAt(b, 14, 2)
            && NumberAt(b, 0, 4) == f.date.year && NumberAt(b, 5, 2) == f.date.month
            && NumberAt(b, 8, 2) == f.date.day && NumberAt(b, 11, 2) == f.hour && NumberAt(b, 14, 2) == f.minute
  {
    hide PrintSeconds, DigitsVal;
    var b := MinuteText(f);
    var p := PrintSeconds(f) + "";
    SecondsReadBack(f, "");
    assert b[0..4] == p[0..4] && b[5..7] == p[5..7] && b[8..10] == p[8..10];
    assert b[11..13] == p[11..13] && b[14..16] == p[14..16];
    assert b[10] == 'T' by {
      SeparatorIsT(f);
    }
    assert IsDigit(b[0..4][0]) && IsDigit(b[14..16][1]);
  }

  /** The shortened form is read as the same instant. */
  lemma MinuteFormReadBack(f: Fields)
    requires f.Valid() && PrintableYear(f.date.year) && f.second == 0 && f.milli == 0
    ensures ParseAdmin(Some(MinuteText(f))) == Ok(Some(MillisOf(f)))
  {
    hide MillisOf, ParseI64;
    var s := MinuteText(f);
    MinuteParts(f);
    TrimIdentity(s);
    NotMillis(s);
    NotMillis(s + "Z");
    TrimIdentity(s + "Z");
    assert ParseMinutes(s) == Some(MillisOf(f));
  }

  /** A form shown again after a validation error keeps the instant it was sent. */
  lemma RedisplayKeepsInstant(m: Option<int>)
    ensures FromRaw(Some(NewField(m).input)) == NewField(m)
  {
    hide NewField, ParseAdmin, FieldsOf;
    FieldRoundTrip(m);
    FieldRoundTrip(None);
  }
}
