/**
  Reading the aggregates back (`src/db/analytics.rs`): totals, the seven-day
  figure and the zero-filled daily series.
 */
module Activity {
  import opened Options
  import opened Calendar
  import opened Clicks

  /** One row of a query over `link_daily_clicks` for a fixed link. */
  datatype StoredDay = StoredDay(day: int, count: nat, last: int)

  datatype DailyPoint = DailyPoint(day: int, count: nat)

  datatype Summary = Summary(total: nat, lastSevenDays: nat, lastClicked: Option<int>, daily: seq<DailyPoint>)

  // ---------------------------------------------------------------- queries

  /** The days for which a link has a row. */
  function Days(t: ClickTable, id: string): set<int> {
    set k | k in t && k.linkId == id :: k.day
  }

  /** `day_start_utc >= from`. */
  function DaysFrom(t: ClickTable, id: string, from: int): set<int> {
    set d | d in Days(t, id) && from <= d
  }

  predicate IsLeast(s: set<int>, m: int) {
    m in s && forall d :: d in s ==> m <= d
  }

  lemma HasElement(s: set<int>)
    ensures s == {} || exists x :: x in s
  {
    if forall x :: x !in s {
      assert s == {};
    }
  }

  lemma {:induction false} HasLeast(s: set<int>)
    requires s != {}
    ensures exists m :: IsLeast(s, m)
  {
    HasElement(s);
    var x :| x in s;
    var rest := s - {x};
    assert forall d :: d in s <==> d == x || d in rest;
    if rest == {} {
      assert IsLeast(s, x);
    } else {
      HasLeast(rest);
      var m :| IsLeast(rest, m);
      assert IsLeast(s, if x <= m then x else m);
    }
  }

  function Least(s: set<int>): (m: int)
    requires s != {}
    ensures IsLeast(s, m)
  {
    HasLeast(s);
    var m :| IsLeast(s, m);
    m
  }

  /** `ORDER BY day_start_utc ASC` over distinct days. */
  function Ascending(s: set<int>): seq<int> {
    if s == {} then [] else [Least(s)] + Ascending(s - {Least(s)})
  }

  lemma AscendingStep(s: set<int>, m: int)
    requires IsLeast(s, m)
    ensures Ascending(s) == [m] + Ascending(s - {m})
  {
    assert Least(s) == m;
  }

  predicate Ascends(ds: seq<int>) {
    forall i, j :: 0 <= i < j < |ds| ==> ds[i] < ds[j]
  }

  lemma {:induction false} AscendingMeaning(s: set<int>)
    ensures Ascends(Ascending(s))
    ensures forall d :: d in Ascending(s) <==> d in s
  {
    if s != {} {
      var m := Least(s);
      var rest := s - {m};
      AscendingMeaning(rest);
      AscendingStep(s, m);
      hide Ascending;
      var ds := Ascending(s);
      assert forall d :: d in s <==> d == m || d in rest;
      forall i, j | 0 <= i < j < |ds|
        ensures ds[i] < ds[j]
      {
        assert ds[j] == Ascending(rest)[j - 1] && ds[j] in Ascending(rest);
        if i > 0 {
          assert ds[i] == Ascending(rest)[i - 1];
        }
      }
    }
  }

  /** The stored row of a day, for days that have one. */
  function RowOf(t: ClickTable, id: string, day: int): StoredDay {
    var k := ClickKey(id, day);
    if k in t then StoredDay(day, t[k].count, t[k].last) else StoredDay(day, 0, 0)
  }

  function RowsAt(t: ClickTable, id: string, ds: seq<int>): (rows: seq<StoredDay>)
    ensures |rows| == |ds|
    ensures forall i :: 0 <= i < |ds| ==> rows[i] == RowOf(t, id, ds[i])
  {
    seq(|ds|, i requires 0 <= i < |ds| => RowOf(t, id, ds[i]))
  }

  /** The stored rows of a link on the given days, in day order. */
  function RowsOf(t: ClickTable, id: string, days: set<int>): seq<StoredDay> {
    RowsAt(t, id, Ascending(days))
  }

  lemma DaysHaveRows(t: ClickTable, id: string)
    ensures forall d :: d in Days(t, id) <==> ClickKey(id, d) in t
  {
    forall d | ClickKey(id, d) in t
      ensures d in Days(t, id)
    {
      assert ClickKey(id, d).linkId == id;
    }
  }

  /** `COALESCE(SUM(click_count), 0)`. */
  function SumCounts(rows: seq<StoredDay>): nat {
    if rows == [] then 0 else rows[0].count + SumCounts(rows[1..])
  }

  /** `MAX(last_clicked_at)`. */
  function MaxLast(rows: seq<StoredDay>): Option<int> {
    if rows == [] then None
    else
      match MaxLast(rows[1..])
      case None => Some(rows[0].last)
      case Some(m) => Some(Max(rows[0].last, m))
  }

  // ---------------------------------------------------------------- the summary

  function ClampDays(days: int): (d: int)
    ensures 1 <= d <= 366
    ensures 1 <= days <= 366 ==> d == days
  {
    if days < 1 then 1 else if days > 366 then 366 else days
  }

  /** The count shown for a day: its row's, or zero. */
  function Lookup(t: ClickTable, id: string, day: int): nat {
    if ClickKey(id, day) in t then t[ClickKey(id, day)].count else 0
  }

  function Series(t: ClickTable, id: string, start: int, n: nat): (daily: seq<DailyPoint>)
    ensures |daily| == n
  {
    seq(n, i => DailyPoint(start + i * MILLIS_PER_DAY, Lookup(t, id, start + i * MILLIS_PER_DAY)))
  }

  function SeriesStart(days: int, timestamp: int): int {
    DayStart(timestamp) - (ClampDays(days) - 1) * MILLIS_PER_DAY
  }

  function WeekStart(timestamp: int): int {
    DayStart(timestamp) - 6 * MILLIS_PER_DAY
  }

  /** The summed counts of a link's rows on a set of days. */
  function SumOn(t: ClickTable, id: string, days: set<int>): nat {
    SumCounts(RowsOf(t, id, days))
  }

  /**
    What the summary should be: sums over stored rows and plain lookups by day,
    each of the three queries over the table as it then is.
   */
  function SummaryAcross(t: ClickTable, week: ClickTable, series: ClickTable, id: string, days: int, timestamp: int)
    : Summary
  {
    Summary(SumOn(t, id, Days(t, id)),
            SumOn(week, id, DaysFrom(week, id, WeekStart(timestamp))),
            MaxLast(RowsOf(t, id, Days(t, id))),
            Series(series, id, SeriesStart(days, timestamp), ClampDays(days)))
  }

  /** With no write in between. */
  function SummaryOf(t: ClickTable, id: string, days: int, timestamp: int): Summary {
    SummaryAcross(t, t, t, id, days, timestamp)
  }

  /** `LinkActivitySummary::empty`. */
  function EmptySummary(days: int, timestamp: int): Summary {
    var n := ClampDays(days);
    Summary(0, 0, None, seq(n, i => DailyPoint(SeriesStart(days, timestamp) + i * MILLIS_PER_DAY, 0)))
  }

  /** The placeholder is the summary of a link without clicks. */
  lemma EmptyIsQuiet(t: ClickTable, id: string, days: int, timestamp: int)
    requires Days(t, id) == {}
    ensures SummaryOf(t, id, days, timestamp) == EmptySummary(days, timestamp)
  {
    DaysHaveRows(t, id);
    assert DaysFrom(t, id, WeekStart(timestamp)) == {};
    assert RowsOf(t, id, {}) == [];
    assert SummaryOf(t, id, days, timestamp).daily == EmptySummary(days, timestamp).daily;
  }

  lemma RowsAscend(t: ClickTable, id: string, days: set<int>)
    ensures var rows := RowsOf(t, id, days);
            && (forall i, j :: 0 <= i < j < |rows| ==> rows[i].day < rows[j].day)
            && (forall i :: 0 <= i < |rows| ==> rows[i].day in days && rows[i] == RowOf(t, id, rows[i].day))
            && (forall d :: d in days ==> exists i :: 0 <= i < |rows| && rows[i].day == d)
  {
    AscendingMeaning(days);
    hide Ascending;
    var ds, rows := Ascending(days), RowsOf(t, id, days);
    forall d | d in days
      ensures exists i :: 0 <= i < |rows| && rows[i].day == d
    {
      assert d in ds;
      var i :| 0 <= i < |ds| && ds[i] == d;
      assert rows[i].day == d;
    }
    assert forall i :: 0 <= i < |rows| ==> rows[i].day == ds[i] && ds[i] in days;
  }

  /** What a query from `start` returns: ascending rows that decide every later lookup. */
  lemma FromRows(t: ClickTable, id: string, start: int)
    ensures var rows := RowsOf(t, id, DaysFrom(t, id, start));
            && (forall i, j :: 0 <= i < j < |rows| ==> rows[i].day < rows[j].day)
            && (forall i :: 0 <= i < |rows| ==> rows[i].count == Lookup(t, id, rows[i].day))
            && (forall d :: start <= d && (forall i :: 0 <= i < |rows| ==> rows[i].day != d) ==> Lookup(t, id, d) == 0)
  {
    RowsAscend(t, id, DaysFrom(t, id, start));
    DaysHaveRows(t, id);
    hide RowsOf;
    var rows := RowsOf(t, id, DaysFrom(t, id, start));
    forall d | start <= d && (forall i :: 0 <= i < |rows| ==> rows[i].day != d)
      ensures Lookup(t, id, d) == 0
    {
      assert d in DaysFrom(t, id, start) <==> d in Days(t, id);
    }
  }

  /** The two-pointer walk over the calendar range and the ordered rows. */
  method WalkSeries(ghost t: ClickTable, ghost id: string, rows: seq<StoredDay>, seriesStart: int, n: nat)
    returns (daily: seq<DailyPoint>)
    requires rows == RowsOf(t, id, DaysFrom(t, id, seriesStart))
    ensures daily == Series(t, id, seriesStart, n)
  {
    FromRows(t, id, seriesStart);
    hide RowsOf;
    daily := [];
    var cursor := 0;
    for offset := 0 to n
      invariant 0 <= cursor <= |rows|
      invariant forall j :: 0 <= j < cursor ==> rows[j].day < seriesStart + offset * MILLIS_PER_DAY
      invariant daily == Series(t, id, seriesStart, offset)
    {
      var day := seriesStart + offset * MILLIS_PER_DAY;
      var count := 0;
      while cursor < |rows| && rows[cursor].day < day
        invariant 0 <= cursor <= |rows|
        invariant forall j :: 0 <= j < cursor ==> rows[j].day < day
      {
        cursor := cursor + 1;
      }
      if cursor < |rows| && rows[cursor].day == day {
        count := rows[cursor].count;
        cursor := cursor + 1;
      }
      assert count == Lookup(t, id, day);
      daily := daily + [DailyPoint(day, count)];
    }
  }

  /**
    `get_link_activity`: the totals come from SQL sums; the series is built by
    walking the calendar range and the ordered rows side by side. Its three
    queries may each see a later table.
   */
  method GetLinkActivity(t: ClickTable, week: ClickTable, series: ClickTable, id: string, days: int, timestamp: int)
    returns (s: Summary)
    ensures s == SummaryAcross(t, week, series, id, days, timestamp)
  {
    var n := ClampDays(days);
    var today := DayStart(timestamp);
    var seriesStart := today - (n - 1) * MILLIS_PER_DAY;
    var weekStart := today - 6 * MILLIS_PER_DAY;
    var all := RowsOf(t, id, Days(t, id));
    var total, lastClicked := SumCounts(all), MaxLast(all);
    var lastSeven := SumCounts(RowsOf(week, id, DaysFrom(week, id, weekStart)));
    var rows := RowsOf(series, id, DaysFrom(series, id, seriesStart));
    var daily := WalkSeries(series, id, rows, seriesStart, n);
    s := Summary(total, lastSeven, lastClicked, daily);
  }

  // ---------------------------------------------------------------- the rows add up to the clicks

  lemma {:induction false} SumConcat(a: seq<StoredDay>, b: seq<StoredDay>)
    ensures SumCounts(a + b) == SumCounts(a) + SumCounts(b)
  {
    if a == [] {
      assert a + b == b;
    } else {
      SumConcat(a[1..], b);
      assert (a + b)[1..] == a[1..] + b;
    }
  }

  lemma RestMembers(a: seq<int>, d: int)
    requires Ascends(a) && a != []
    ensures d in a[1..] <==> d in a && d != a[0]
  {
    if d in a && d != a[0] {
      var i :| 0 <= i < |a| && a[i] == d;
      assert a[1..][i - 1] == d;
    }
  }

  /** A set of days has one ascending list. */
  lemma {:induction false} OneAscending(a: seq<int>, b: seq<int>)
    requires Ascends(a) && Ascends(b)
    requires forall d :: d in a <==> d in b
    ensures a == b
  {
    assert b != [] ==> b[0] in b;
    assert a != [] ==> a[0] in a;
    if a != [] {
      assert a[0] in b && b != [] && b[0] in a;
      var i :| 0 <= i < |b| && b[i] == a[0];
      var j :| 0 <= j < |a| && a[j] == b[0];
      assert a[0] == b[0];
      forall d
        ensures d in a[1..] <==> d in b[1..]
      {
        RestMembers(a, d);
        RestMembers(b, d);
      }
      OneAscending(a[1..], b[1..]);
    }
  }

  /** Rows on earlier days come before rows on later days. */
  lemma AscendingSplit(low: set<int>, high: set<int>)
    requires forall a, b :: a in low && b in high ==> a < b
    ensures Ascending(low + high) == Ascending(low) + Ascending(high)
  {
    AscendingMeaning(low);
    AscendingMeaning(high);
    AscendingMeaning(low + high);
    hide Ascending;
    var ls, hs := Ascending(low), Ascending(high);
    forall i, j | 0 <= i < j < |ls + hs|
      ensures (ls + hs)[i] < (ls + hs)[j]
    {
      if i < |ls| <= j {
        assert ls[i] in ls && hs[j - |ls|] in hs;
        assert ls[i] in low && hs[j - |ls|] in high;
      }
    }
    OneAscending(ls + hs, Ascending(low + high));
  }

  lemma SumSplit(t: ClickTable, id: string, low: set<int>, high: set<int>)
    requires forall a, b :: a in low && b in high ==> a < b
    ensures SumOn(t, id, low + high) == SumOn(t, id, low) + SumOn(t, id, high)
  {
    AscendingSplit(low, high);
    hide Ascending, SumCounts;
    assert RowsOf(t, id, low + high) == RowsOf(t, id, low) + RowsOf(t, id, high);
    SumConcat(RowsOf(t, id, low), RowsOf(t, id, high));
  }

  lemma SumNone(t: ClickTable, id: string)
    ensures SumOn(t, id, {}) == 0
  {
  }

  lemma SumOneDay(t: ClickTable, id: string, d: int)
    ensures SumOn(t, id, {d}) == Lookup(t, id, d)
  {
    AscendingStep({d}, d);
    assert {d} - {d} == {};
    var rows := RowsOf(t, id, {d});
    assert rows == [RowOf(t, id, d)];
    assert SumCounts(rows) == rows[0].count + SumCounts(rows[1..]);
    assert rows[1..] == [];
  }

  lemma OneDayOut(id: string, days: set<int>, m: int)
    requires m in days
    ensures forall c :: OnDays(id, days)(c) == (OfKey(ClickKey(id, m))(c) || OnDays(id, days - {m})(c))
    ensures forall c :: !(OfKey(ClickKey(id, m))(c) && OnDays(id, days - {m})(c))
  {
  }

  /** The stored counts on any set of days add up to the clicks on those days. */
  lemma {:induction false} StoredSum(clicks: seq<Click>, id: string, days: set<int>)
    requires days <= Days(Fold(clicks), id)
    ensures SumOn(Fold(clicks), id, days) == Count(clicks, OnDays(id, days))
    decreases |days|
  {
    hide Count, SumOn, Fold, KeyOf, DayStart;
    var t := Fold(clicks);
    DaysHaveRows(t, id);
    if days == {} {
      SumNone(t, id);
      CountPositive(clicks, OnDays(id, days));
    } else {
      var m := Least(days);
      StoredSum(clicks, id, days - {m});
      SumSplit(t, id, {m}, days - {m});
      assert {m} + (days - {m}) == days;
      SumOneDay(t, id, m);
      RowMeaning(clicks, ClickKey(id, m));
      OneDayOut(id, days, m);
      CountSplit(clicks, OnDays(id, days), OfKey(ClickKey(id, m)), OnDays(id, days - {m}));
    }
  }

  /** Every written click of a link has its row. */
  lemma ClickHasRow(clicks: seq<Click>, i: nat)
    requires i < |clicks|
    ensures DayStart(clicks[i].timestamp) in Days(Fold(clicks), clicks[i].linkId)
  {
    var k := KeyOf(clicks[i]);
    assert OfKey(k)(clicks[i]);
    CountPositive(clicks, OfKey(k));
    RowMeaning(clicks, k);
    DaysHaveRows(Fold(clicks), k.linkId);
  }

  /** The total is the number of written clicks of the link. */
  lemma TotalIsClicks(clicks: seq<Click>, id: string)
    ensures SumOn(Fold(clicks), id, Days(Fold(clicks), id)) == Count(clicks, OfLink(id))
  {
    var days := Days(Fold(clicks), id);
    StoredSum(clicks, id, days);
    forall i | 0 <= i < |clicks|
      ensures OnDays(id, days)(clicks[i]) == OfLink(id)(clicks[i])
    {
      ClickHasRow(clicks, i);
    }
    CountAgree(clicks, OnDays(id, days), OfLink(id));
  }

  /** The stored rows from an aligned instant on add up to the clicks since then. */
  lemma SumFromIsClicksSince(clicks: seq<Click>, id: string, from: int)
    requires from % MILLIS_PER_DAY == 0
    ensures SumOn(Fold(clicks), id, DaysFrom(Fold(clicks), id, from)) == Count(clicks, Since(id, from))
  {
    var days := DaysFrom(Fold(clicks), id, from);
    StoredSum(clicks, id, days);
    forall i | 0 <= i < |clicks|
      ensures OnDays(id, days)(clicks[i]) == Since(id, from)(clicks[i])
    {
      ClickHasRow(clicks, i);
      AlignedBound(from, clicks[i].timestamp);
    }
    CountAgree(clicks, OnDays(id, days), Since(id, from));
  }

  lemma NextAligned(a: int, b: int)
    requires a % MILLIS_PER_DAY == 0 && b % MILLIS_PER_DAY == 0
    ensures a <= b < a + MILLIS_PER_DAY <==> a == b
  {
    assert a == MILLIS_PER_DAY * (a / MILLIS_PER_DAY) && b == MILLIS_PER_DAY * (b / MILLIS_PER_DAY);
  }

  /** The count shown for an aligned day is the number of clicks in its 24 hours. */
  lemma LookupIsClicksWithin(clicks: seq<Click>, id: string, day: int)
    requires day % MILLIS_PER_DAY == 0
    ensures Lookup(Fold(clicks), id, day) == Count(clicks, Within(id, day, day + MILLIS_PER_DAY))
  {
    var k := ClickKey(id, day);
    RowMeaning(clicks, k);
    forall i | 0 <= i < |clicks|
      ensures OfKey(k)(clicks[i]) == Within(id, day, day + MILLIS_PER_DAY)(clicks[i])
    {
      AlignedBound(day, clicks[i].timestamp);
      AlignedBound(day + MILLIS_PER_DAY, clicks[i].timestamp);
      DayStartFloor(clicks[i].timestamp);
      NextAligned(day, DayStart(clicks[i].timestamp));
    }
    CountAgree(clicks, OfKey(k), Within(id, day, day + MILLIS_PER_DAY));
  }

  lemma {:induction false} MaxLastMeaning(rows: seq<StoredDay>)
    ensures MaxLast(rows) == None <==> rows == []
    ensures rows != [] ==> (exists i :: 0 <= i < |rows| && rows[i].last == MaxLast(rows).value)
    ensures forall i :: 0 <= i < |rows| ==> rows[i].last <= MaxLast(rows).GetOr(0)
  {
    if rows != [] {
      MaxLastMeaning(rows[1..]);
      if |rows| == 1 {
        assert rows[1..] == [];
        assert rows[0].last == MaxLast(rows).value;
      } else {
        var i :| 0 <= i < |rows[1..]| && rows[1..][i].last == MaxLast(rows[1..]).value;
        assert rows[i + 1].last == MaxLast(rows[1..]).value;
        assert rows[0].last == MaxLast(rows).value || rows[i + 1].last == MaxLast(rows).value;
        forall j | 0 <= j < |rows|
          ensures rows[j].last <= MaxLast(rows).value
        {
          if j > 0 {
            assert rows[j] == rows[1..][j - 1];
          }
        }
      }
    }
  }

  /** The stored maximum is the latest click of the link. */
  lemma LastIsLatest(clicks: seq<Click>, id: string)
    ensures var last := MaxLast(RowsOf(Fold(clicks), id, Days(Fold(clicks), id)));
            if Count(clicks, OfLink(id)) == 0 then last == None
            else last.Some? && IsLatest(clicks, OfLink(id), last.value)
  {
    var t := Fold(clicks);
    var rows := RowsOf(t, id, Days(t, id));
    MaxLastMeaning(rows);
    DaysHaveRows(t, id);
    RowsAscend(t, id, Days(t, id));
    CountPositive(clicks, OfLink(id));
    assert forall i :: 0 <= i < |rows| ==> rows[i].last == t[ClickKey(id, rows[i].day)].last;
    forall i | 0 <= i < |clicks| && OfLink(id)(clicks[i])
      ensures rows != [] && clicks[i].timestamp <= MaxLast(rows).value
    {
      ClickHasRow(clicks, i);
      RowMeaning(clicks, KeyOf(clicks[i]));
      assert OfKey(KeyOf(clicks[i]))(clicks[i]);
      var j :| 0 <= j < |rows| && rows[j].day == DayStart(clicks[i].timestamp);
      assert rows[j].last <= MaxLast(rows).value;
    }
    if rows != [] {
      var j :| 0 <= j < |rows| && rows[j].last == MaxLast(rows).value;
      var k := ClickKey(id, rows[j].day);
      RowMeaning(clicks, k);
      var i :| 0 <= i < |clicks| && OfKey(k)(clicks[i]) && clicks[i].timestamp == rows[j].last;
      assert OfLink(id)(clicks[i]);
    }
  }

  lemma AlignedStep(start: int, i: int)
    requires start % MILLIS_PER_DAY == 0
    ensures (start + i * MILLIS_PER_DAY) % MILLIS_PER_DAY == 0
  {
    assert start + i * MILLIS_PER_DAY == MILLIS_PER_DAY * (start / MILLIS_PER_DAY + i);
  }

  lemma SeriesIsOfClicks(clicks: seq<Click>, id: string, start: int, n: nat)
    requires start % MILLIS_PER_DAY == 0
    ensures var daily := Series(Fold(clicks), id, start, n);
            && |daily| == n
            && forall i :: 0 <= i < n ==>
                 && daily[i].day == start + i * MILLIS_PER_DAY
                 && daily[i].count == Count(clicks, Within(id, daily[i].day, daily[i].day + MILLIS_PER_DAY))
  {
    hide Fold, Count, Lookup;
    var daily := Series(Fold(clicks), id, start, n);
    forall i | 0 <= i < n
      ensures daily[i].count == Count(clicks, Within(id, daily[i].day, daily[i].day + MILLIS_PER_DAY))
    {
      AlignedStep(start, i);
      LookupIsClicksWithin(clicks, id, daily[i].day);
    }
  }

  lemma StartsAligned(days: int, timestamp: int)
    ensures SeriesStart(days, timestamp) % MILLIS_PER_DAY == 0 && WeekStart(timestamp) % MILLIS_PER_DAY == 0
  {
    DayStartFloor(timestamp);
    AlignedStep(DayStart(timestamp), -(ClampDays(days) - 1));
    AlignedStep(DayStart(timestamp), -6);
  }

  /** The buckets end today. */
  lemma BucketDay(days: int, timestamp: int, i: int)
    ensures SeriesStart(days, timestamp) + i * MILLIS_PER_DAY
            == DayStart(timestamp) - (ClampDays(days) - 1 - i) * 86_400_000
  {
  }

  lemma SummaryFigures(clicks: seq<Click>, week: seq<Click>, series: seq<Click>,
                       id: string, days: int, timestamp: int)
    ensures var s := SummaryAcross(Fold(clicks), Fold(week), Fold(series), id, days, timestamp);
            && s.total == Count(clicks, OfLink(id))
            && s.lastSevenDays == Count(week, Since(id, WeekStart(timestamp)))
            && (if s.total == 0 then s.lastClicked == None
                else s.lastClicked.Some? && IsLatest(clicks, OfLink(id), s.lastClicked.value))
            && |s.daily| == ClampDays(days)
            && forall i :: 0 <= i < |s.daily| ==>
                 && s.daily[i].day == SeriesStart(days, timestamp) + i * MILLIS_PER_DAY
                 && s.daily[i].count == Count(series, Within(id, s.daily[i].day, s.daily[i].day + MILLIS_PER_DAY))
  {
    hide Fold, Count, RowsOf, SumOn, IsLatest, Days, DaysFrom, MaxLast, Series, WeekStart, ClampDays;
    TotalIsClicks(clicks, id);
    LastIsLatest(clicks, id);
    StartsAligned(days, timestamp);
    SumFromIsClicksSince(week, id, WeekStart(timestamp));
    hide SeriesStart;
    SeriesIsOfClicks(series, id, SeriesStart(days, timestamp), ClampDays(days));
  }

  /**
    Every number of the summary is a function of the clicks that were written
    when its query ran.
   */
  lemma SummaryIsOfClicks(clicks: seq<Click>, week: seq<Click>, series: seq<Click>,
                          id: string, days: int, timestamp: int)
    ensures var s := SummaryAcross(Fold(clicks), Fold(week), Fold(series), id, days, timestamp);
            && s.total == Count(clicks, OfLink(id))
            && s.lastSevenDays == Count(week, Since(id, DayStart(timestamp) - 6 * 86_400_000))
            && (if s.total == 0 then s.lastClicked == None
                else s.lastClicked.Some? && IsLatest(clicks, OfLink(id), s.lastClicked.value))
            && 1 <= |s.daily| <= 366 && (1 <= days <= 366 ==> |s.daily| == days)
            && forall i :: 0 <= i < |s.daily| ==>
                 && s.daily[i].day == DayStart(timestamp) - (|s.daily| - 1 - i) * 86_400_000
                 && s.daily[i].count == Count(series, Within(id, s.daily[i].day, s.daily[i].day + MILLIS_PER_DAY))
  {
    SummaryFigures(clicks, week, series, id, days, timestamp);
    assert WeekStart(timestamp) == DayStart(timestamp) - 6 * 86_400_000;
    forall i | 0 <= i < ClampDays(days)
      ensures SeriesStart(days, timestamp) + i * MILLIS_PER_DAY
              == DayStart(timestamp) - (ClampDays(days) - 1 - i) * 86_400_000
    {
      BucketDay(days, timestamp, i);
    }
    hide Fold, Count, SummaryAcross, IsLatest, WeekStart, SeriesStart, ClampDays, DayStart;
  }

  /** The clicks of a link before an instant. */
  function Earlier(id: string, until: int): Click -> bool {
    (c: Click) => c.linkId == id && c.timestamp < until
  }

  /**
    With writes between the queries the seven-day figure may exceed the total:
    exactly when more clicks of the week were written in between than the link
    had before the week. Without such writes it never does.
   */
  lemma WeekExceedsTotalWhen(clicks: seq<Click>, more: seq<Click>, series: seq<Click>,
                             id: string, days: int, timestamp: int)
    ensures var week := WeekStart(timestamp);
            var s := SummaryAcross(Fold(clicks), Fold(clicks + more), Fold(series), id, days, timestamp);
            s.lastSevenDays > s.total <==> Count(more, Since(id, week)) > Count(clicks, Earlier(id, week))
  {
    var week := WeekStart(timestamp);
    SummaryIsOfClicks(clicks, clicks + more, series, id, days, timestamp);
    CountConcat(clicks, more, Since(id, week));
    CountSplit(clicks, OfLink(id), Since(id, week), Earlier(id, week));
  }

  // ---------------------------------------------------------------- totals agree on one snapshot

  function SumPoints(daily: seq<DailyPoint>): nat {
    if daily == [] then 0 else SumPoints(daily[..|daily| - 1]) + daily[|daily| - 1].count
  }

  function DaysBetween(t: ClickTable, id: string, from: int, until: int): set<int> {
    set d | d in Days(t, id) && from <= d < until
  }

  /** The stored rows inside one day are the row of that day. */
  lemma BucketSum(t: ClickTable, id: string, day: int)
    requires Aligned(t) && day % MILLIS_PER_DAY == 0
    ensures SumOn(t, id, DaysBetween(t, id, day, day + MILLIS_PER_DAY)) == Lookup(t, id, day)
  {
    DaysHaveRows(t, id);
    hide SumOn;
    var days := DaysBetween(t, id, day, day + MILLIS_PER_DAY);
    forall d | d in days
      ensures d == day
    {
      assert ClickKey(id, d) in t;
      NextAligned(day, d);
    }
    if ClickKey(id, day) in t {
      assert day in Days(t, id);
      assert days == {day};
      SumOneDay(t, id, day);
    } else {
      assert days == {};
      SumNone(t, id);
    }
  }

  /** Buckets over a whole-day range hold each stored row of the range once. */
  lemma {:induction false} SeriesSum(t: ClickTable, id: string, start: int, n: nat)
    requires Aligned(t) && start % MILLIS_PER_DAY == 0
    ensures SumPoints(Series(t, id, start, n)) == SumOn(t, id, DaysBetween(t, id, start, start + n * MILLIS_PER_DAY))
  {
    hide SumOn, Aligned, Days;
    if n == 0 {
      assert DaysBetween(t, id, start, start) == {};
      SumNone(t, id);
    } else {
      var day := start + (n - 1) * MILLIS_PER_DAY;
      SeriesSum(t, id, start, n - 1);
      assert Series(t, id, start, n)[..n - 1] == Series(t, id, start, n - 1);
      AlignedStep(start, n - 1);
      var low, high := DaysBetween(t, id, start, day), DaysBetween(t, id, day, day + MILLIS_PER_DAY);
      assert DaysBetween(t, id, start, start + n * MILLIS_PER_DAY) == low + high;
      SumSplit(t, id, low, high);
      BucketSum(t, id, day);
    }
  }

  lemma SeriesTail(t: ClickTable, id: string, start: int, n: nat)
    requires n >= 7
    ensures Series(t, id, start, n)[n - 7..] == Series(t, id, start + (n - 7) * MILLIS_PER_DAY, 7)
  {
    forall i: int | 0 <= i < 7
      ensures start + (n - 7 + i) * MILLIS_PER_DAY == start + (n - 7) * MILLIS_PER_DAY + i * MILLIS_PER_DAY
    {
    }
  }

  /**
    On one snapshot of an aligned table: the seven-day figure is the last seven
    buckets plus rows dated after today, and the total is the whole series plus
    the rows outside the window.
   */
  lemma TotalsAgree(t: ClickTable, id: string, days: int, timestamp: int)
    requires Aligned(t)
    ensures var s := SummaryOf(t, id, days, timestamp);
            var tomorrow := DayStart(timestamp) + MILLIS_PER_DAY;
            var later := SumOn(t, id, DaysFrom(t, id, tomorrow));
            && s.total == SumOn(t, id, set d | d in Days(t, id) && d < SeriesStart(days, timestamp))
                          + SumPoints(s.daily) + later
            && (ClampDays(days) >= 7 ==> s.lastSevenDays == SumPoints(s.daily[|s.daily| - 7..]) + later)
  {
    var s := SummaryOf(t, id, days, timestamp);
    var n := ClampDays(days);
    hide RowsOf, SumOn, MaxLast, Lookup, DayStart, Aligned, SumPoints;
    var start, week := SeriesStart(days, timestamp), WeekStart(timestamp);
    var tomorrow := DayStart(timestamp) + MILLIS_PER_DAY;
    StartsAligned(days, timestamp);
    SeriesSum(t, id, start, n);
    assert start + n * MILLIS_PER_DAY == tomorrow;
    var before := set d | d in Days(t, id) && d < start;
    var window, after := DaysBetween(t, id, start, tomorrow), DaysFrom(t, id, tomorrow);
    assert Days(t, id) == before + (window + after);
    SumSplit(t, id, window, after);
    SumSplit(t, id, before, window + after);
    if n >= 7 {
      SeriesSum(t, id, week, 7);
      SeriesTail(t, id, start, n);
      assert start + (n - 7) * MILLIS_PER_DAY == week;
      assert DaysFrom(t, id, week) == DaysBetween(t, id, week, tomorrow) + after;
      SumSplit(t, id, DaysBetween(t, id, week, tomorrow), after);
    }
  }
}
