/**
  Paging: `normalize_pagination` and the page arithmetic of `list_links`
  (`src/db/links.rs`), the shown range and the neighbour links
  (`src/web/admin.rs`).
 */
module Pages {
  import opened Options

  const U32_MAX: int := 0xFFFF_FFFF

  const MAX_PAGE: int := 10_000

  function Clamp(x: int, low: int, high: int): int {
    if x < low then low else if x > high then high else x
  }

  function Min(a: int, b: int): int {
    if a < b then a else b
  }

  function AtLeastOne(n: int): (r: int)
    ensures r >= 1
  {
    if n < 1 then 1 else n
  }

  /** `normalize_pagination`. */
  function NormalizePage(page: Option<int>): (r: int)
    ensures 1 <= r <= MAX_PAGE
    ensures page == None ==> r == 1
    ensures page.Some? && 1 <= page.value <= MAX_PAGE ==> r == page.value
  {
    Clamp(page.GetOr(1), 1, MAX_PAGE)
  }

  /** The page size, clamped on arrival and again by the query. */
  function ClampPerPage(perPage: int): (r: int)
    ensures 1 <= r <= 100
    ensures 1 <= perPage <= 100 ==> r == perPage
  {
    Clamp(perPage, 1, 100)
  }

  /** `(total / per_page).ceil() as u32`, a saturating cast; `FloatIsExact` shows that real numbers will do. */
  function TotalPages(total: nat, perPage: int): (n: int)
    requires perPage >= 1
    ensures 0 <= n <= U32_MAX
  {
    Clamp(-(-(total as real / perPage as real)).Floor, 0, U32_MAX)
  }

  /** The page `list_links` answers with. */
  function PageShown(requested: int, total: nat, perPage: int): (page: int)
    requires perPage >= 1
    ensures page >= 1
  {
    Min(AtLeastOne(requested), AtLeastOne(TotalPages(total, perPage)))
  }

  /** `LIMIT limit OFFSET offset`: a negative limit is none, a negative offset is zero. */
  function Slice<T>(s: seq<T>, limit: int, offset: int): seq<T> {
    var start := Clamp(offset, 0, |s|);
    s[start..if limit < 0 then |s| else Min(start + limit, |s|)]
  }

  /** The items of the answer to a request for a page. */
  function PageItems<T>(all: seq<T>, requested: int, perPage: int): seq<T>
    requires perPage >= 1
  {
    Slice(all, perPage, (PageShown(requested, |all|, perPage) - 1) * perPage)
  }

  // ---------------------------------------------------------------- the number of pages

  lemma Scaled(a: real, b: real, c: real, p: real)
    requires a < b <= c && p > 0.0
    ensures a * p < b * p <= c * p
  {
  }

  lemma ProductAsReal(a: int, b: int)
    ensures (a * b) as real == a as real * b as real
  {
  }

  lemma QuotientTimes(x: real, p: real)
    requires p > 0.0
    ensures x / p * p == x
  {
  }

  lemma CeilingAround(q: real)
    ensures var c := -(-q).Floor; (c - 1) as real < q <= c as real
  {
  }

  lemma IntegersBetween(low: int, x: int, high: int)
    requires low as real < x as real <= high as real
    ensures low < x <= high
  {
  }

  lemma CeilingBounds(total: nat, perPage: int)
    requires perPage >= 1
    ensures var c := -(-(total as real / perPage as real)).Floor;
            (c - 1) * perPage < total <= c * perPage
  {
    var p, x := perPage as real, total as real;
    var q := x / p;
    var c := -(-q).Floor;
    CeilingAround(q);
    QuotientTimes(x, p);
    Scaled((c - 1) as real, q, c as real, p);
    ProductAsReal(c - 1, perPage);
    ProductAsReal(c, perPage);
    IntegersBetween((c - 1) * perPage, total, c * perPage);
  }

  lemma MulMonotone(a: int, b: int, p: int)
    requires a <= b && p >= 0
    ensures a * p <= b * p
  {
  }

  /** As many pages as it takes to hold everything, up to the largest the cast can give. */
  lemma TotalPagesMeaning(total: nat, perPage: int)
    requires perPage >= 1
    ensures var n := TotalPages(total, perPage);
            && (n - 1) * perPage < total + (if n == 0 then 1 else 0)
            && (total <= n * perPage <==> total <= U32_MAX * perPage)
            && (n == 0 <==> total == 0)
            && (total > n * perPage ==> n == U32_MAX)
  {
    CeilingBounds(total, perPage);
    var c := -(-(total as real / perPage as real)).Floor;
    var n := TotalPages(total, perPage);
    if c > U32_MAX {
      MulMonotone(U32_MAX, c - 1, perPage);
      assert (n - 1) * perPage == U32_MAX * perPage - perPage;
    } else if c >= 0 {
      MulMonotone(c, U32_MAX, perPage);
      if c >= 1 {
        MulMonotone(1, c, perPage);
        MulMonotone(0, c - 1, perPage);
      }
    } else {
      MulMonotone(c, 0, perPage);
    }
  }

  // ---------------------------------------------------------------- floating point

  /** 2 to the 53rd: integers up to here are exact in `f64`. */
  const EXACT: int := 0x20_0000_0000_0000

  /**
    What is used of rounding to `f64`, on numbers it holds to full precision:
    monotone, exact on integers up to 2^53, and a relative error of at most 2^-53.
   */
  ghost predicate RoundsLikeF64(round: real -> real) {
    && (forall x: real, y: real :: x <= y ==> round(x) <= round(y))
    && (forall x: real :: 0.0 <= x <= EXACT as real && x == x.Floor as real ==> round(x) == x)
    && (forall x: real :: 0.0078125 <= x <= EXACT as real ==> round(x) * EXACT as real >= x * (EXACT - 1) as real)
  }

  /** The computation as written: both conversions and the quotient are rounded, then `ceil() as u32`. */
  function FloatTotalPages(round: real -> real, total: nat, perPage: int): int
    requires round(perPage as real) != 0.0
  {
    Clamp(-(-round(round(total as real) / round(perPage as real))).Floor, 0, U32_MAX)
  }

  lemma CeilingOf(x: real, k: int)
    requires (k - 1) as real < x <= k as real
    ensures -(-x).Floor == k
  {
  }

  lemma CeilingAtLeast(x: real, k: int)
    requires k as real <= x
    ensures -(-x).Floor >= k
  {
  }

  /** A quotient between two small integers is not rounded down to the lower one. */
  lemma StaysAbove(round: real -> real, q: real, k: int)
    requires RoundsLikeF64(round) && 1 <= k <= U32_MAX && (k - 1) as real + 0.01 <= q <= k as real
    ensures (k - 1) as real < round(q) <= k as real
  {
    assert round(q) <= round(k as real) == k as real;
    assert round(q) * EXACT as real >= q * (EXACT - 1) as real;
    assert q * (EXACT - 1) as real == q * EXACT as real - q;
  }

  lemma HundredthMore(a: real, p: real)
    requires 1.0 <= p <= 100.0
    ensures (a + 0.01) * p <= a * p + 1.0
  {
  }

  lemma CancelFactor(a: real, b: real, p: real)
    requires p > 0.0 && a * p <= b * p
    ensures a <= b
  {
    if a > b {
      Scaled(b, a, a, p);
    }
  }

  lemma GapAbove(a: real, q: real, p: real)
    requires 1.0 <= p <= 100.0 && q * p >= a * p + 1.0
    ensures q >= a + 0.01
  {
    HundredthMore(a, p);
    CancelFactor(a + 0.01, q, p);
  }

  lemma GapAround(q: real, x: real, p: real, low: real, high: real, lowTimes: real, highTimes: real)
    requires 1.0 <= p <= 100.0 && q * p == x && lowTimes == low * p && highTimes == high * p
    requires lowTimes + 1.0 <= x <= highTimes
    ensures low + 0.01 <= q <= high
  {
    CancelFactor(q, high, p);
    GapAbove(low, q, p);
  }

  lemma StepsAsReal(a: int, x: int, b: int)
    requires a < x <= b
    ensures a as real + 1.0 <= x as real <= b as real
  {
  }

  lemma QuotientGap(total: nat, perPage: int, c: int)
    requires 1 <= perPage <= 100 && (c - 1) * perPage < total <= c * perPage
    ensures (c - 1) as real + 0.01 <= total as real / perPage as real <= c as real
  {
    var low, high := (c - 1) * perPage, c * perPage;
    QuotientTimes(total as real, perPage as real);
    ProductAsReal(c, perPage);
    ProductAsReal(c - 1, perPage);
    StepsAsReal(low, total, high);
    GapAround(total as real / perPage as real, total as real, perPage as real,
              (c - 1) as real, c as real, low as real, high as real);
  }

  lemma NoPages(total: nat, perPage: int, c: int)
    requires perPage >= 1 && c <= 0 && (c - 1) * perPage < total <= c * perPage
    ensures total == 0 && c == 0 && total as real / perPage as real == 0.0
  {
    MulMonotone(c, 0, perPage);
    if c <= -1 {
      MulMonotone(c, -1, perPage);
    }
  }

  lemma RoundedExactly(round: real -> real, n: int)
    requires RoundsLikeF64(round) && 0 <= n <= EXACT
    ensures round(n as real) == n as real
  {
  }

  lemma RoundedAtLeast(round: real -> real, x: real, n: int)
    requires RoundsLikeF64(round) && 0 <= n <= EXACT && n as real <= x
    ensures round(x) >= n as real
  {
    RoundedExactly(round, n);
  }

  lemma QuotientAtLeast(x: real, perPage: int, n: int)
    requires perPage >= 1 && x >= (n * perPage) as real
    ensures x / perPage as real >= n as real
  {
    var p := perPage as real;
    ProductAsReal(n, perPage);
    QuotientTimes(x, p);
    CancelFactor(n as real, x / p, p);
  }

  lemma LargeTotal(round: real -> real, total: nat, perPage: int)
    requires RoundsLikeF64(round) && 1 <= perPage <= 100 && total > U32_MAX * perPage
    ensures round(perPage as real) != 0.0 && FloatTotalPages(round, total, perPage) == U32_MAX
  {
    var p := perPage as real;
    RoundedAtLeast(round, total as real, U32_MAX * perPage);
    var q := round(total as real) / p;
    QuotientAtLeast(round(total as real), perPage, U32_MAX);
    RoundedAtLeast(round, q, U32_MAX);
    CeilingAtLeast(round(q), U32_MAX);
    RoundedExactly(round, perPage);
  }

  lemma ModestTotal(round: real -> real, total: nat, perPage: int, c: int)
    requires RoundsLikeF64(round) && 1 <= perPage <= 100 && c <= U32_MAX
    requires (c - 1) * perPage < total <= c * perPage
    ensures round(perPage as real) != 0.0 && FloatTotalPages(round, total, perPage) == c
  {
    MulMonotone(c, U32_MAX, perPage);
    MulMonotone(perPage, 100, U32_MAX);
    RoundedExactly(round, perPage);
    RoundedExactly(round, total);
    var q := total as real / perPage as real;
    if c >= 1 {
      QuotientGap(total, perPage, c);
      StaysAbove(round, q, c);
      hide RoundsLikeF64;
      CeilingOf(round(q), c);
    } else {
      NoPages(total, perPage, c);
      RoundedExactly(round, 0);
    }
  }

  lemma CeilingNotNegative(total: nat, perPage: int, c: int)
    requires perPage >= 1 && total <= c * perPage
    ensures c >= 0
  {
    if c <= -1 {
      MulMonotone(c, -1, perPage);
    }
  }

  /** Rounding never shows: for every total the computation gives the exact number of pages. */
  lemma FloatIsExact(round: real -> real, total: nat, perPage: int)
    requires RoundsLikeF64(round) && 1 <= perPage <= 100
    ensures round(perPage as real) != 0.0
    ensures FloatTotalPages(round, total, perPage) == TotalPages(total, perPage)
  {
    hide RoundsLikeF64, FloatTotalPages;
    CeilingBounds(total, perPage);
    var c := -(-(total as real / perPage as real)).Floor;
    if c > U32_MAX {
      MulMonotone(U32_MAX, c - 1, perPage);
      LargeTotal(round, total, perPage);
    } else {
      ModestTotal(round, total, perPage, c);
      CeilingNotNegative(total, perPage, c);
    }
  }

  // ---------------------------------------------------------------- pages tile the list

  lemma PageBounds(total: nat, perPage: int, page: int)
    requires perPage >= 1 && 1 <= page <= TotalPages(total, perPage)
    ensures 0 <= (page - 1) * perPage < total
  {
    TotalPagesMeaning(total, perPage);
    MulMonotone(page - 1, TotalPages(total, perPage) - 1, perPage);
    MulMonotone(0, page - 1, perPage);
  }

  /** Requests inside the range are answered with the page asked for. */
  lemma PageContents<T>(all: seq<T>, page: int, perPage: int)
    requires perPage >= 1 && 1 <= page <= TotalPages(|all|, perPage)
    ensures PageShown(page, |all|, perPage) == page
    ensures 0 <= (page - 1) * perPage < |all| && page * perPage == (page - 1) * perPage + perPage
    ensures PageItems(all, page, perPage) == all[(page - 1) * perPage..Min(page * perPage, |all|)]
  {
    PageBounds(|all|, perPage, page);
  }

  /** The pages `1..n` one after another. */
  function FirstPages<T>(all: seq<T>, perPage: int, n: nat): seq<T>
    requires perPage >= 1
  {
    if n == 0 then [] else FirstPages(all, perPage, n - 1) + PageItems(all, n, perPage)
  }

  lemma {:induction false} FirstPagesArePrefix<T>(all: seq<T>, perPage: int, n: nat)
    requires perPage >= 1 && n <= TotalPages(|all|, perPage)
    ensures 0 <= Min(n * perPage, |all|) <= |all|
    ensures FirstPages(all, perPage, n) == all[..Min(n * perPage, |all|)]
  {
    if n > 0 {
      FirstPagesArePrefix(all, perPage, n - 1);
      PageContents(all, n, perPage);
      hide PageItems;
      var low, high := (n - 1) * perPage, Min(n * perPage, |all|);
      assert all[..low] + all[low..high] == all[..high];
    }
  }

  /** Nothing lost, nothing repeated, unless there are more pages than the cast can count. */
  lemma PagesTile<T>(all: seq<T>, perPage: int)
    requires perPage >= 1
    ensures FirstPages(all, perPage, TotalPages(|all|, perPage)) == all <==> |all| <= U32_MAX * perPage
  {
    var n := TotalPages(|all|, perPage);
    FirstPagesArePrefix(all, perPage, n);
    TotalPagesMeaning(|all|, perPage);
    var end := Min(n * perPage, |all|);
    assert |all[..end]| == end;
    assert all[..|all|] == all;
  }

  /** Whatever page is asked for, the answer has items if there are any, and the last page past the end. */
  /** The page asked for is the page shown, unless it is past the last one; there is always a first. */
  lemma ShownPage(requested: int, total: nat, perPage: int)
    requires perPage >= 1
    ensures var page := PageShown(requested, total, perPage);
            && (requested <= 1 || total == 0 ==> page == 1)
            && (total > 0 ==> (page - 1) * perPage < total)
            && (1 <= requested && (requested - 1) * perPage < total && requested <= U32_MAX ==> page == requested)
            && (1 <= requested && total <= (requested - 1) * perPage && total > 0 ==>
                  page < requested && (page - 1) * perPage < total
                  && (page == U32_MAX || total <= page * perPage))
  {
    TotalPagesMeaning(total, perPage);
    var n := TotalPages(total, perPage);
    hide TotalPages;
    if requested >= 1 && n < requested {
      MulMonotone(n, requested - 1, perPage);
    } else if requested >= 1 {
      MulMonotone(requested - 1, n - 1, perPage);
    }
  }

  lemma ClampedPageHasItems<T>(all: seq<T>, requested: int, perPage: int)
    requires perPage >= 1
    ensures all != [] ==> PageItems(all, requested, perPage) != []
    ensures requested >= TotalPages(|all|, perPage) ==>
              PageItems(all, requested, perPage) == PageItems(all, TotalPages(|all|, perPage), perPage)
  {
    TotalPagesMeaning(|all|, perPage);
    if all != [] {
      PageContents(all, PageShown(requested, |all|, perPage), perPage);
    }
  }

  // ---------------------------------------------------------------- shown ranges

  /** `range_start` and `range_end` of the list page. */
  function ShownRange(total: nat, page: int, perPage: int, shown: nat): (int, int) {
    if total == 0 then (0, 0)
    else
      var start := (page - 1) * perPage + 1;
      (start, Min(start + shown - 1, total))
  }

  predicate InRange(i: int, range: (int, int)) {
    range.0 <= i <= range.1
  }

  /** The range displayed with a page. */
  function RangeOfPage<T>(all: seq<T>, page: int, perPage: int): (int, int)
    requires perPage >= 1
  {
    ShownRange(|all|, PageShown(page, |all|, perPage), perPage, |PageItems(all, page, perPage)|)
  }

  lemma RangeBounds<T>(all: seq<T>, page: int, perPage: int)
    requires perPage >= 1 && 1 <= page <= TotalPages(|all|, perPage)
    ensures RangeOfPage(all, page, perPage) == ((page - 1) * perPage + 1, Min(page * perPage, |all|))
  {
    PageContents(all, page, perPage);
  }

  /** The page that shows item number `i`. */
  function PageWith(i: int, perPage: int): int
    requires perPage >= 1
  {
    (i - 1) / perPage + 1
  }

  lemma PageWithMeaning(i: int, perPage: int, page: int)
    requires perPage >= 1
    ensures page == PageWith(i, perPage) <==> (page - 1) * perPage + 1 <= i <= page * perPage
  {
    var q := (i - 1) / perPage;
    assert q * perPage <= i - 1 < q * perPage + perPage;
    if page - 1 < q {
      MulMonotone(page, q, perPage);
    } else if page - 1 > q {
      MulMonotone(q + 1, page - 1, perPage);
    }
  }

  /**
    Over the pages `1..total_pages` the ranges to be displayed partition
    `1..total`: number `i` is in the range of exactly the page `PageWith(i)`, where
    it counts item `i` of the whole list, and that page exists unless the cast
    saturated.
   */
  lemma RangesPartition<T>(all: seq<T>, perPage: int, i: int, page: int)
    requires perPage >= 1 && 1 <= i <= |all| && 1 <= page <= TotalPages(|all|, perPage)
    ensures InRange(i, RangeOfPage(all, page, perPage)) <==> page == PageWith(i, perPage)
    ensures InRange(i, RangeOfPage(all, page, perPage)) ==>
              var k := i - RangeOfPage(all, page, perPage).0;
              0 <= k < |PageItems(all, page, perPage)| && PageItems(all, page, perPage)[k] == all[i - 1]
    ensures 1 <= PageWith(i, perPage)
    ensures |all| <= U32_MAX * perPage ==> PageWith(i, perPage) <= TotalPages(|all|, perPage)
  {
    RangeBounds(all, page, perPage);
    PageContents(all, page, perPage);
    PageWithMeaning(i, perPage, page);
    hide RangeOfPage, PageItems, PageShown;
    TotalPagesMeaning(|all|, perPage);
    var own, n := PageWith(i, perPage), TotalPages(|all|, perPage);
    PageWithMeaning(i, perPage, own);
    if own < 1 {
      MulMonotone(own, 0, perPage);
    }
    if own > n {
      MulMonotone(n, own - 1, perPage);
    }
  }

  // ---------------------------------------------------------------- following "next"

  predicate HasNext(page: int, total: nat, perPage: int)
    requires perPage >= 1
  {
    page < AtLeastOne(TotalPages(total, perPage))
  }

  predicate HasPrevious(page: int) {
    page > 1
  }

  /** The page shown for a page number in a link. */
  function Visit(page: int, total: nat, perPage: int): int
    requires perPage >= 1
  {
    PageShown(NormalizePage(Some(page)), total, perPage)
  }

  /** The range displayed for a request, whose page is normalized first. */
  function Displayed<T>(all: seq<T>, requested: int, perPage: int): (int, int)
    requires perPage >= 1
  {
    RangeOfPage(all, NormalizePage(Some(requested)), perPage)
  }

  /** A request shows the page it visits. */
  lemma VisitContents<T>(all: seq<T>, requested: int, perPage: int)
    requires perPage >= 1 && all != []
    ensures var page := Visit(requested, |all|, perPage);
            && 1 <= page <= Min(MAX_PAGE, TotalPages(|all|, perPage))
            && 0 <= (page - 1) * perPage < |all| && page * perPage == (page - 1) * perPage + perPage
            && PageItems(all, NormalizePage(Some(requested)), perPage)
               == all[(page - 1) * perPage..Min(page * perPage, |all|)]
            && PageItems(all, NormalizePage(Some(requested)), perPage) == PageItems(all, page, perPage)
            && Displayed(all, requested, perPage) == RangeOfPage(all, page, perPage)
  {
    var asked, page := NormalizePage(Some(requested)), Visit(requested, |all|, perPage);
    TotalPagesMeaning(|all|, perPage);
    hide TotalPages;
    assert PageShown(asked, |all|, perPage) == page == PageShown(page, |all|, perPage);
    PageContents(all, page, perPage);
  }

  /**
    The ranges that requests display do not overlap: number `i` is in the range
    displayed exactly when the request visits the page that holds it, and there
    it counts item `i` of the whole list.
   */
  lemma DisplayedRanges<T>(all: seq<T>, perPage: int, i: int, requested: int)
    requires perPage >= 1 && 1 <= i <= |all|
    ensures InRange(i, Displayed(all, requested, perPage)) <==> PageWith(i, perPage) == Visit(requested, |all|, perPage)
    ensures InRange(i, Displayed(all, requested, perPage)) ==>
              var items := PageItems(all, NormalizePage(Some(requested)), perPage);
              var k := i - Displayed(all, requested, perPage).0;
              0 <= k < |items| && items[k] == all[i - 1]
  {
    VisitContents(all, requested, perPage);
    hide Displayed, PageItems, RangeOfPage, Visit, NormalizePage;
    RangesPartition(all, perPage, i, Visit(requested, |all|, perPage));
  }

  lemma PageWithinCap(total: nat, perPage: int, i: int)
    requires perPage >= 1 && 1 <= i <= total
    ensures 1 <= PageWith(i, perPage)
    ensures PageWith(i, perPage) <= MAX_PAGE <==> i <= MAX_PAGE * perPage
    ensures PageWith(i, perPage) <= MAX_PAGE ==> PageWith(i, perPage) <= TotalPages(total, perPage)
  {
    var own, n := PageWith(i, perPage), TotalPages(total, perPage);
    PageWithMeaning(i, perPage, own);
    TotalPagesMeaning(total, perPage);
    hide TotalPages, PageWith;
    if own < 1 {
      MulMonotone(own, 0, perPage);
    }
    if own <= MAX_PAGE {
      MulMonotone(own, MAX_PAGE, perPage);
    } else {
      MulMonotone(MAX_PAGE, own - 1, perPage);
    }
    if own > n {
      MulMonotone(n, own - 1, perPage);
    }
  }

  /** So the ranges cover `1..total` up to the page cap: some request displays number `i` exactly up to there. */
  lemma DisplayedWhen<T>(all: seq<T>, perPage: int, i: int)
    requires perPage >= 1 && 1 <= i <= |all|
    ensures (exists requested: int :: InRange(i, Displayed(all, requested, perPage))) <==> i <= MAX_PAGE * perPage
  {
    PageWithinCap(|all|, perPage, i);
    var own := PageWith(i, perPage);
    hide Displayed, TotalPages, PageWith;
    if i <= MAX_PAGE * perPage {
      DisplayedRanges(all, perPage, i, own);
      assert Visit(own, |all|, perPage) == own;
      assert InRange(i, Displayed(all, own, perPage));
    }
    if requested: int :| InRange(i, Displayed(all, requested, perPage)) {
      DisplayedRanges(all, perPage, i, requested);
    }
  }

  /** The page reached from page 1 by following "next" `k` times, if each page offered it. */
  function FollowNext(total: nat, perPage: int, k: nat): Option<int>
    requires perPage >= 1
  {
    if k == 0 then Some(Visit(1, total, perPage))
    else
      match FollowNext(total, perPage, k - 1)
      case None => None
      case Some(page) => if HasNext(page, total, perPage) then Some(Visit(page + 1, total, perPage)) else None
  }

  /** The walk visits the pages in order until the last one, or stays on page 10000 for ever. */
  lemma {:induction false} WalkByNext(total: nat, perPage: int, k: nat)
    requires perPage >= 1
    ensures var last := AtLeastOne(TotalPages(total, perPage));
            FollowNext(total, perPage, k)
            == if k + 1 <= Min(last, MAX_PAGE) then Some(k + 1) else if last <= MAX_PAGE then None else Some(MAX_PAGE)
  {
    hide TotalPages;
    if k > 0 {
      WalkByNext(total, perPage, k - 1);
    }
  }

  lemma WithinCap(total: nat, perPage: int)
    requires perPage >= 1
    ensures AtLeastOne(TotalPages(total, perPage)) <= MAX_PAGE <==> total <= MAX_PAGE * perPage
  {
    TotalPagesMeaning(total, perPage);
    var n := TotalPages(total, perPage);
    if n <= MAX_PAGE {
      MulMonotone(n, MAX_PAGE, perPage);
      MulMonotone(MAX_PAGE, U32_MAX, perPage);
    } else {
      MulMonotone(MAX_PAGE, n - 1, perPage);
    }
  }

  /** Following "next" from page 1 shows the pages up to `last`, each once, and then ends. */
  ghost predicate VisitsOnce(total: nat, perPage: int, last: int)
    requires perPage >= 1 && last >= 1
  {
    (forall p :: 1 <= p <= last ==> FollowNext(total, perPage, p - 1) == Some(p))
    && FollowNext(total, perPage, last) == None
  }

  lemma ShortWalkEnds(total: nat, perPage: int)
    requires perPage >= 1 && AtLeastOne(TotalPages(total, perPage)) <= MAX_PAGE
    ensures VisitsOnce(total, perPage, AtLeastOne(TotalPages(total, perPage)))
  {
    hide TotalPages, FollowNext;
    var last := AtLeastOne(TotalPages(total, perPage));
    forall p | 1 <= p <= last
      ensures FollowNext(total, perPage, p - 1) == Some(p)
    {
      WalkByNext(total, perPage, p - 1);
    }
    WalkByNext(total, perPage, last);
  }

  /** The walk shows every page once and then ends exactly when 10000 pages are enough. */
  lemma WalkVisitsAll(total: nat, perPage: int)
    requires perPage >= 1
    ensures VisitsOnce(total, perPage, AtLeastOne(TotalPages(total, perPage))) <==> total <= MAX_PAGE * perPage
  {
    WithinCap(total, perPage);
    hide TotalPages, FollowNext;
    var last := AtLeastOne(TotalPages(total, perPage));
    if last <= MAX_PAGE {
      hide VisitsOnce;
      ShortWalkEnds(total, perPage);
    } else {
      WalkByNext(total, perPage, last);
    }
  }

  /** "previous" leads back to the page that offered "next", up to the page cap. */
  lemma PreviousUndoesNext(page: int, total: nat, perPage: int)
    requires perPage >= 1 && page >= 1 && HasNext(page, total, perPage)
    ensures var next := Visit(page + 1, total, perPage);
            (next == page + 1 && HasPrevious(next) && Visit(next - 1, total, perPage) == page) <==> page < MAX_PAGE
  {
  }
}
