/**
  Daily click aggregates (`src/db/analytics.rs`): the upsert, and the plain log
  of clicks that the stored rows stand for.
 */
module Clicks {
  import opened Calendar

  datatype Click = Click(linkId: string, timestamp: int)

  /** Primary key and contents of a `link_daily_clicks` row. */
  datatype ClickKey = ClickKey(linkId: string, day: int)

  datatype DayRow = DayRow(count: nat, last: int)

  type ClickTable = map<ClickKey, DayRow>

  /** `day_start_utc`, with the floor remainder of `rem_euclid`. */
  function DayStart(timestamp: int): int {
    timestamp - timestamp % MILLIS_PER_DAY
  }

  function KeyOf(c: Click): ClickKey {
    ClickKey(c.linkId, DayStart(c.timestamp))
  }

  function Max(a: int, b: int): int {
    if a >= b then a else b
  }

  /** The `INSERT ... ON CONFLICT DO UPDATE` of one click. */
  function Upsert(t: ClickTable, c: Click): ClickTable {
    var k := KeyOf(c);
    t[k := if k in t then DayRow(t[k].count + 1, Max(t[k].last, c.timestamp)) else DayRow(1, c.timestamp)]
  }

  /** The analytics tables, as the one writer connection changes them. */
  class AnalyticsDb {
    var rows: ClickTable

    constructor ()
      ensures rows == map[]
    {
      rows := map[];
    }

    /** `record_click` when the statement succeeds. */
    method RecordClick(linkId: string, timestamp: int)
      modifies this
      ensures rows == Upsert(old(rows), Click(linkId, timestamp))
    {
      var day := DayStart(timestamp);
      var key := ClickKey(linkId, day);
      if key in rows {
        var row := rows[key];
        var last := if row.last >= timestamp then row.last else timestamp;
        rows := rows[key := DayRow(row.count + 1, last)];
      } else {
        rows := rows[key := DayRow(1, timestamp)];
      }
    }
  }

  /** The table after writing `clicks` in order into an empty one. */
  function Fold(clicks: seq<Click>): ClickTable {
    if clicks == [] then map[] else Upsert(Fold(clicks[..|clicks| - 1]), clicks[|clicks| - 1])
  }

  // ---------------------------------------------------------------- counting in the log

  function Count(clicks: seq<Click>, p: Click -> bool): nat {
    if clicks == [] then 0
    else Count(clicks[..|clicks| - 1], p) + (if p(clicks[|clicks| - 1]) then 1 else 0)
  }

  function OfKey(k: ClickKey): Click -> bool {
    (c: Click) => KeyOf(c) == k
  }

  function OfLink(id: string): Click -> bool {
    (c: Click) => c.linkId == id
  }

  function OnDays(id: string, days: set<int>): Click -> bool {
    (c: Click) => c.linkId == id && DayStart(c.timestamp) in days
  }

  /** Clicks of a link at or after an instant. */
  function Since(id: string, from: int): Click -> bool {
    (c: Click) => c.linkId == id && from <= c.timestamp
  }

  function Within(id: string, from: int, until: int): Click -> bool {
    (c: Click) => c.linkId == id && from <= c.timestamp < until
  }

  /** `latest` is the greatest timestamp among the clicks that satisfy `p`. */
  predicate IsLatest(clicks: seq<Click>, p: Click -> bool, latest: int) {
    && (exists i :: 0 <= i < |clicks| && p(clicks[i]) && clicks[i].timestamp == latest)
    && (forall i :: 0 <= i < |clicks| && p(clicks[i]) ==> clicks[i].timestamp <= latest)
  }

  lemma {:induction false} CountPositive(clicks: seq<Click>, p: Click -> bool)
    ensures Count(clicks, p) > 0 <==> exists i :: 0 <= i < |clicks| && p(clicks[i])
  {
    if clicks != [] {
      var init := clicks[..|clicks| - 1];
      CountPositive(init, p);
      if Count(init, p) > 0 {
        var i :| 0 <= i < |init| && p(init[i]);
        assert p(clicks[i]);
      }
      if exists i :: 0 <= i < |clicks| && p(clicks[i]) {
        var i :| 0 <= i < |clicks| && p(clicks[i]);
        if i < |init| {
          assert p(init[i]);
        }
      }
    }
  }

  lemma {:induction false} CountAgree(clicks: seq<Click>, p: Click -> bool, q: Click -> bool)
    requires forall i :: 0 <= i < |clicks| ==> p(clicks[i]) == q(clicks[i])
    ensures Count(clicks, p) == Count(clicks, q)
  {
    if clicks != [] {
      CountAgree(clicks[..|clicks| - 1], p, q);
    }
  }

  lemma {:induction false} CountSplit(clicks: seq<Click>, p: Click -> bool, q: Click -> bool, r: Click -> bool)
    requires forall i :: 0 <= i < |clicks| ==> p(clicks[i]) == (q(clicks[i]) || r(clicks[i]))
    requires forall i :: 0 <= i < |clicks| ==> !(q(clicks[i]) && r(clicks[i]))
    ensures Count(clicks, p) == Count(clicks, q) + Count(clicks, r)
  {
    if clicks != [] {
      CountSplit(clicks[..|clicks| - 1], p, q, r);
    }
  }

  lemma {:induction false} CountConcat(a: seq<Click>, b: seq<Click>, p: Click -> bool)
    ensures Count(a + b, p) == Count(a, p) + Count(b, p)
  {
    if b == [] {
      assert a + b == a;
    } else {
      CountConcat(a, b[..|b| - 1], p);
      assert (a + b)[..|a + b| - 1] == a + b[..|b| - 1];
    }
  }

  lemma TakeOut<T>(a: seq<T>, before: seq<T>, after: seq<T>, x: T)
    requires multiset(a + [x]) == multiset(before + ([x] + after))
    ensures multiset(a) == multiset(before + after)
  {
    assert multiset(a + [x]) == multiset(a) + multiset{x};
    assert multiset(before + ([x] + after)) == multiset(before) + (multiset{x} + multiset(after));
    assert multiset(before + after) == multiset(before) + multiset(after);
    assert multiset(a) == multiset(a + [x]) - multiset{x};
  }

  lemma CountOne(x: Click, p: Click -> bool)
    ensures Count([x], p) == if p(x) then 1 else 0
  {
    assert [x][..0] == [];
    assert Count([], p) == 0;
  }

  /** Counting sees only which clicks there are, not their order. */
  lemma {:induction false} CountPermuted(a: seq<Click>, b: seq<Click>, p: Click -> bool)
    requires multiset(a) == multiset(b)
    ensures Count(a, p) == Count(b, p)
    decreases |a|
  {
    if a == [] {
      assert |multiset(b)| == 0;
      assert b == [];
    } else {
      var x := a[|a| - 1];
      assert x in multiset(b);
      var i :| 0 <= i < |b| && b[i] == x;
      assert b == b[..i] + ([x] + b[i + 1..]);
      assert a == a[..|a| - 1] + [x];
      TakeOut(a[..|a| - 1], b[..i], b[i + 1..], x);
      CountPermuted(a[..|a| - 1], b[..i] + b[i + 1..], p);
      CountConcat(b[..i], b[i + 1..], p);
      CountConcat(b[..i], [x] + b[i + 1..], p);
      CountConcat([x], b[i + 1..], p);
      CountOne(x, p);
    }
  }

  // ---------------------------------------------------------------- what the rows mean

  /** A row exists for exactly the (link, day) pairs that were clicked; it holds their number and the latest. */
  lemma {:induction false} RowMeaning(clicks: seq<Click>, k: ClickKey)
    ensures k in Fold(clicks) <==> Count(clicks, OfKey(k)) > 0
    ensures k in Fold(clicks) ==> Fold(clicks)[k].count == Count(clicks, OfKey(k))
    ensures k in Fold(clicks) ==> IsLatest(clicks, OfKey(k), Fold(clicks)[k].last)
  {
    if clicks != [] {
      var init, c := clicks[..|clicks| - 1], clicks[|clicks| - 1];
      RowMeaning(init, k);
      CountPositive(init, OfKey(k));
      if k in Fold(init) {
        var i :| 0 <= i < |init| && OfKey(k)(init[i]) && init[i].timestamp == Fold(init)[k].last;
        assert clicks[i] == init[i];
        assert IsLatest(init, OfKey(k), Fold(init)[k].last);
      }
      forall i | 0 <= i < |clicks| && OfKey(k)(clicks[i])
        ensures clicks[i].timestamp <= Fold(clicks)[k].last
      {
        if i < |init| {
          assert clicks[i] == init[i];
          assert OfKey(k)(init[i]);
        }
      }
    }
  }

  lemma LatestPermuted(a: seq<Click>, b: seq<Click>, p: Click -> bool, x: int, y: int)
    requires multiset(a) == multiset(b)
    requires IsLatest(a, p, x) && IsLatest(b, p, y)
    ensures x == y
  {
    var i :| 0 <= i < |a| && p(a[i]) && a[i].timestamp == x;
    assert a[i] in multiset(b);
    var j :| 0 <= j < |b| && p(b[j]) && b[j].timestamp == y;
    assert b[j] in multiset(a);
  }

  /** Any order of the same clicks gives the same table. */
  lemma UpsertsOrderFree(a: seq<Click>, b: seq<Click>)
    requires multiset(a) == multiset(b)
    ensures Fold(a) == Fold(b)
  {
    forall k: ClickKey
      ensures (k in Fold(a) <==> k in Fold(b)) && (k in Fold(a) ==> Fold(a)[k] == Fold(b)[k])
    {
      RowMeaning(a, k);
      RowMeaning(b, k);
      CountPermuted(a, b, OfKey(k));
      if k in Fold(a) {
        LatestPermuted(a, b, OfKey(k), Fold(a)[k].last, Fold(b)[k].last);
      }
    }
  }

  /** Every key the upsert writes is a day start. */
  predicate Aligned(t: ClickTable) {
    forall k :: k in t ==> k.day % MILLIS_PER_DAY == 0
  }

  /** The day start is the aligned instant at most a day back, below zero as well. */
  lemma DayStartFloor(ts: int)
    ensures DayStart(ts) % MILLIS_PER_DAY == 0
    ensures DayStart(ts) <= ts < DayStart(ts) + MILLIS_PER_DAY
  {
    assert DayStart(ts) == MILLIS_PER_DAY * (ts / MILLIS_PER_DAY);
  }

  lemma {:induction false} FoldAligned(clicks: seq<Click>)
    ensures Aligned(Fold(clicks))
  {
    if clicks != [] {
      FoldAligned(clicks[..|clicks| - 1]);
      var c := clicks[|clicks| - 1];
      DayStartFloor(c.timestamp);
    }
  }

  /** An aligned instant is at or before a click exactly when it is at or before its day. */
  lemma AlignedBound(bound: int, ts: int)
    requires bound % MILLIS_PER_DAY == 0
    ensures bound <= ts <==> bound <= DayStart(ts)
    ensures ts < bound <==> DayStart(ts) < bound
  {
    DayStartFloor(ts);
    var q, r := bound / MILLIS_PER_DAY, ts / MILLIS_PER_DAY;
    assert bound == MILLIS_PER_DAY * q && DayStart(ts) == MILLIS_PER_DAY * r;
    if bound <= ts {
      assert q <= r;
    } else {
      assert r < q;
    }
  }
}
