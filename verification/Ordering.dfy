/** ORDER BY over link rows (`order_clause` in `src/db/links.rs`): what the order is, and that it is unique. */
module Ordering {
  import opened Text
  import opened LinkRules
  import opened Clicks
  import opened Activity
  import opened Sql

  datatype Term = Term(key: SortKey, descending: bool)

  /** The summed counts of a link, the subquery of the clicked order. */
  function TotalClicks(clicks: ClickTable, id: string): nat {
    SumOn(clicks, id, Days(clicks, id))
  }

  predicate KeyLess(clicks: ClickTable, key: SortKey, a: Link, b: Link) {
    match key
    case ByCreated => a.createdAt < b.createdAt
    case ByUpdated => a.updatedAt < b.updatedAt
    case BySlug => Less(a.slug, b.slug)
    case ByClicks => TotalClicks(clicks, a.id) < TotalClicks(clicks, b.id)
  }

  predicate TermLess(clicks: ClickTable, t: Term, a: Link, b: Link) {
    if t.descending then KeyLess(clicks, t.key, b, a) else KeyLess(clicks, t.key, a, b)
  }

  /** Lexicographic: a later term decides between rows that the earlier ones do not separate. */
  predicate Before(clicks: ClickTable, ts: seq<Term>, a: Link, b: Link) {
    ts != [] &&
    (TermLess(clicks, ts[0], a, b) || (!TermLess(clicks, ts[0], b, a) && Before(clicks, ts[1..], a, b)))
  }

  predicate Separates(ts: seq<Term>) {
    exists i :: 0 <= i < |ts| && ts[i].key == BySlug
  }

  // ---------------------------------------------------------------- a strict total order

  lemma TermLaws(clicks: ClickTable, t: Term, a: Link, b: Link, c: Link)
    ensures !TermLess(clicks, t, a, a)
    ensures TermLess(clicks, t, a, b) ==> !TermLess(clicks, t, b, a)
    ensures TermLess(clicks, t, a, b) && TermLess(clicks, t, b, c) ==> TermLess(clicks, t, a, c)
    ensures TermLess(clicks, t, a, c) ==> TermLess(clicks, t, a, b) || TermLess(clicks, t, b, c)
  {
    hide TotalClicks;
    LessTotal(a.slug, a.slug);
    LessTotal(a.slug, b.slug);
    LessTotal(b.slug, c.slug);
    LessTotal(a.slug, c.slug);
    if Less(a.slug, b.slug) && Less(b.slug, c.slug) {
      LessTransitive(a.slug, b.slug, c.slug);
    }
    if Less(c.slug, b.slug) && Less(b.slug, a.slug) {
      LessTransitive(c.slug, b.slug, a.slug);
    }
  }

  /** No row comes before itself or both before and after another. */
  lemma {:induction false} BeforeIsStrict(clicks: ClickTable, ts: seq<Term>, a: Link, b: Link)
    ensures Before(clicks, ts, a, b) ==> !Before(clicks, ts, b, a) && a != b
  {
    hide TermLess;
    if ts != [] {
      TermLaws(clicks, ts[0], a, b, a);
      BeforeIsStrict(clicks, ts[1..], a, b);
    }
  }

  lemma {:induction false} BeforeIsTransitive(clicks: ClickTable, ts: seq<Term>, a: Link, b: Link, c: Link)
    requires Before(clicks, ts, a, b) && Before(clicks, ts, b, c)
    ensures Before(clicks, ts, a, c)
  {
    hide TermLess;
    var t := ts[0];
    TermLaws(clicks, t, a, c, b);
    TermLaws(clicks, t, b, a, c);
    TermLaws(clicks, t, c, b, a);
    if !TermLess(clicks, t, a, b) && !TermLess(clicks, t, b, c) {
      BeforeIsTransitive(clicks, ts[1..], a, b, c);
    }
  }

  /** The slug tie-break separates any two rows with different slugs. */
  lemma {:induction false} BeforeIsTotal(clicks: ClickTable, ts: seq<Term>, a: Link, b: Link)
    requires Separates(ts) && a.slug != b.slug
    ensures Before(clicks, ts, a, b) || Before(clicks, ts, b, a)
  {
    if ts[0].key == BySlug {
      LessTotal(a.slug, b.slug);
    } else {
      var i :| 0 <= i < |ts| && ts[i].key == BySlug;
      assert ts[1..][i - 1].key == BySlug;
      BeforeIsTotal(clicks, ts[1..], a, b);
    }
  }

  // ---------------------------------------------------------------- sorting

  predicate Distinct(rows: seq<Link>) {
    forall i, j :: 0 <= i < j < |rows| ==> rows[i].slug != rows[j].slug
  }

  predicate Sorted(clicks: ClickTable, ts: seq<Term>, rows: seq<Link>) {
    forall i, j :: 0 <= i < j < |rows| ==> Before(clicks, ts, rows[i], rows[j])
  }

  function Insert(clicks: ClickTable, ts: seq<Term>, row: Link, rows: seq<Link>): (r: seq<Link>)
    ensures multiset(r) == multiset{row} + multiset(rows)
  {
    if rows == [] || Before(clicks, ts, row, rows[0]) then [row] + rows
    else
      assert rows == [rows[0]] + rows[1..];
      [rows[0]] + Insert(clicks, ts, row, rows[1..])
  }

  function Sort(clicks: ClickTable, ts: seq<Term>, rows: seq<Link>): (r: seq<Link>)
    ensures multiset(r) == multiset(rows)
  {
    if rows == [] then []
    else
      assert rows == [rows[0]] + rows[1..];
      Insert(clicks, ts, rows[0], Sort(clicks, ts, rows[1..]))
  }

  lemma SortedCons(clicks: ClickTable, ts: seq<Term>, row: Link, rows: seq<Link>)
    requires Sorted(clicks, ts, rows)
    requires forall r :: r in rows ==> Before(clicks, ts, row, r)
    ensures Sorted(clicks, ts, [row] + rows)
  {
  }

  lemma {:induction false} InsertSorted(clicks: ClickTable, ts: seq<Term>, row: Link, rows: seq<Link>)
    requires Separates(ts) && Sorted(clicks, ts, rows)
    requires forall r :: r in rows ==> r.slug != row.slug
    ensures Sorted(clicks, ts, Insert(clicks, ts, row, rows))
  {
    hide Before, Separates;
    if rows != [] {
      var head, tail := rows[0], rows[1..];
      assert forall r :: r in tail ==> r in rows;
      forall r | r in tail
        ensures Before(clicks, ts, head, r)
      {
        var i :| 0 <= i < |tail| && tail[i] == r;
        assert rows[i + 1] == r;
      }
      if Before(clicks, ts, row, head) {
        forall r | r in rows
          ensures Before(clicks, ts, row, r)
        {
          if r != head {
            assert r in tail by { assert rows == [head] + tail; }
            BeforeIsTransitive(clicks, ts, row, head, r);
          }
        }
        SortedCons(clicks, ts, row, rows);
      } else {
        assert head in rows;
        BeforeIsTotal(clicks, ts, row, head);
        InsertSorted(clicks, ts, row, tail);
        var placed := Insert(clicks, ts, row, tail);
        forall r | r in placed
          ensures Before(clicks, ts, head, r)
        {
          assert r in multiset(placed);
        }
        SortedCons(clicks, ts, head, placed);
      }
    }
  }

  /** Sorting orders every list of rows with distinct slugs; it keeps the rows. */
  lemma {:induction false} SortSorts(clicks: ClickTable, ts: seq<Term>, rows: seq<Link>)
    requires Separates(ts) && Distinct(rows)
    ensures Sorted(clicks, ts, Sort(clicks, ts, rows))
    ensures multiset(Sort(clicks, ts, rows)) == multiset(rows)
  {
    hide Before, Separates;
    if rows != [] {
      SortSorts(clicks, ts, rows[1..]);
      var sorted := Sort(clicks, ts, rows[1..]);
      forall r | r in sorted
        ensures r.slug != rows[0].slug
      {
        assert r in multiset(sorted) && r in rows[1..];
      }
      InsertSorted(clicks, ts, rows[0], sorted);
    }
  }

  /** The first row of an ordered list is the one before all others. */
  lemma SameHead(clicks: ClickTable, ts: seq<Term>, a: seq<Link>, b: seq<Link>)
    requires Sorted(clicks, ts, a) && Sorted(clicks, ts, b)
    requires multiset(a) == multiset(b) && a != [] && b != []
    ensures a[0] == b[0]
  {
    hide Before;
    assert a[0] in multiset(b) && b[0] in multiset(a);
    var i :| 0 <= i < |b| && b[i] == a[0];
    var j :| 0 <= j < |a| && a[j] == b[0];
    BeforeIsStrict(clicks, ts, a[0], b[0]);
  }

  lemma TailBag(rows: seq<Link>)
    requires rows != []
    ensures multiset(rows[1..]) == multiset(rows) - multiset{rows[0]}
  {
    assert rows == [rows[0]] + rows[1..];
  }

  /** A set of rows has at most one ordered listing. */
  lemma {:induction false} SortedIsUnique(clicks: ClickTable, ts: seq<Term>, a: seq<Link>, b: seq<Link>)
    requires Sorted(clicks, ts, a) && Sorted(clicks, ts, b)
    requires multiset(a) == multiset(b)
    ensures a == b
  {
    hide Before;
    assert |a| == |multiset(a)| && |b| == |multiset(b)|;
    if a != [] {
      SameHead(clicks, ts, a, b);
      TailBag(a);
      TailBag(b);
      SortedIsUnique(clicks, ts, a[1..], b[1..]);
      assert a == [a[0]] + a[1..] && b == [b[0]] + b[1..];
    }
  }

  /** The order in which rows are scanned does not show in the sorted result. */
  lemma ScanOrderIrrelevant(clicks: ClickTable, ts: seq<Term>, a: seq<Link>, b: seq<Link>)
    requires Separates(ts) && Distinct(a) && Distinct(b) && multiset(a) == multiset(b)
    ensures Sort(clicks, ts, a) == Sort(clicks, ts, b)
  {
    SortSorts(clicks, ts, a);
    SortSorts(clicks, ts, b);
    SortedIsUnique(clicks, ts, Sort(clicks, ts, a), Sort(clicks, ts, b));
  }
}
