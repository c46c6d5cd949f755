/**
  What the administrator's list says about the running service: the lists by
  status against what visitors get, and the figures against the clicks written.
 */
module Overview {
  import opened Options
  import opened Text
  import opened Calendar
  import opened Clicks
  import ClickQueue
  import opened Activity
  import opened LinkRules
  import opened LinkStore
  import opened LinkStatus
  import opened Filters
  import opened Ordering
  import opened Pages
  import opened ListQuery
  import opened Service
  import Links = LinkRuns

  /** The whole table, by status only. */
  function ByStatus(status: StatusFilter, sort: LinkSort, now: int): ListParams {
    ListParams(Choice(None, status, AnyKind, now), sort, 1, 20)
  }

  lemma InListing(clicks: ClickTable, p: ListParams, rows: seq<Link>, links: LinkTable, slug: string)
    requires Lists(rows, links) && slug in links
    ensures links[slug] in Listing(clicks, p, rows) <==> Selected(p.choice, links[slug])
  {
    hide Selected, Listing;
    ListingMeaning(clicks, p, rows);
  }

  lemma SlugsAreLower(v: UrlValidator, events: seq<Event>, slug: string)
    requires slug in Run(v, events).store.links
    ensures Lower(slug) == slug
  {
    StoreRunsAlone(v, events);
    hide Run, Links.Run;
    Links.RowsStayLawful(v, Changes(events));
    NormalIsLower(slug);
  }

  /**
    In every reachable state: the active list holds exactly the links a visitor
    is served at that moment, the expired list exactly those answered "gone",
    and the disabled list exactly those answered "not found".
   */
  lemma ListsMatchVisits(v: UrlValidator, events: seq<Event>, rows: seq<Link>, sort: LinkSort, now: int, slug: string)
    requires forall raw :: v(raw).Some? ==> !HasControl(v(raw).value)
    requires var links := Run(v, events).store.links; Lists(rows, links) && slug in links
    ensures var s := Run(v, events);
            var row, answer := s.store.links[slug], Resolve(s.store.links, slug, now);
            && (row in Listing(s.pipe.table, ByStatus(Active, sort, now), rows) <==> answer == Ok(row))
            && (row in Listing(s.pipe.table, ByStatus(Expired, sort, now), rows) <==> answer == Err(Gone))
            && (row in Listing(s.pipe.table, ByStatus(Disabled, sort, now), rows) <==> answer == Err(NotFound))
  {
    hide Run, Listing, HasControl, Lists;
    var s := Run(v, events);
    var links, row := s.store.links, s.store.links[slug];
    TargetsAreSafe(v, events, slug);
    SlugsAreLower(v, events, slug);
    StatusPartition(links, slug, now);
    hide Resolve;
    InListing(s.pipe.table, ByStatus(Active, sort, now), rows, links, slug);
    InListing(s.pipe.table, ByStatus(Expired, sort, now), rows, links, slug);
    InListing(s.pipe.table, ByStatus(Disabled, sort, now), rows, links, slug);
  }

  /**
    With nothing written, the lists change with time in one way only: links leave
    the active list for the expired one.
   */
  lemma ListsOnlyExpire(clicks: ClickTable, rows: seq<Link>, links: LinkTable, sort: LinkSort,
                        slug: string, now: int, later: int)
    requires Lists(rows, links) && slug in links && now <= later
    ensures var row := links[slug];
            var active := row in Listing(clicks, ByStatus(Active, sort, now), rows);
            var activeLater := row in Listing(clicks, ByStatus(Active, sort, later), rows);
            var expired := row in Listing(clicks, ByStatus(Expired, sort, now), rows);
            var expiredLater := row in Listing(clicks, ByStatus(Expired, sort, later), rows);
            && (activeLater ==> active) && (expired ==> expiredLater)
            && (active ==> activeLater || expiredLater)
            && (row in Listing(clicks, ByStatus(Disabled, sort, now), rows)
                <==> row in Listing(clicks, ByStatus(Disabled, sort, later), rows))
  {
    hide Listing, Lists;
    TimeOnlyExpires(links[slug], now, later);
    InListing(clicks, ByStatus(Active, sort, now), rows, links, slug);
    InListing(clicks, ByStatus(Active, sort, later), rows, links, slug);
    InListing(clicks, ByStatus(Expired, sort, now), rows, links, slug);
    InListing(clicks, ByStatus(Expired, sort, later), rows, links, slug);
    InListing(clicks, ByStatus(Disabled, sort, now), rows, links, slug);
    InListing(clicks, ByStatus(Disabled, sort, later), rows, links, slug);
  }

  lemma ItemLink(clicks: ClickTable, row: Link)
    ensures ItemOf(clicks, row).link == row
  {
  }

  lemma ItemOfRow(clicks: ClickTable, p: ListParams, counted: seq<Link>, rows: seq<Link>, i: nat) returns (row: Link)
    requires Distinct(rows) && i < |AnswerAcross(counted, rows, clicks, p).items|
    ensures row in rows && Selected(p.choice, row)
    ensures AnswerAcross(counted, rows, clicks, p).items[i] == ItemOf(clicks, row)
  {
    hide Selected, Listing, ItemOf, PageShown;
    ListingMeaning(clicks, p, rows);
    var all, perPage := Listing(clicks, p, rows), ClampPerPage(p.perPage);
    var page := PageShown(p.page, |Chosen(p.choice, counted)|, perPage);
    row := Slice(all, perPage, (page - 1) * perPage)[i];
    assert row in all;
  }

  /**
    Every item of every answer, whatever is asked for and whatever was counted
    before, is a stored link that matches the request, and its figures are those
    of the clicks written for it.
   */
  lemma ItemsAreTrue(v: UrlValidator, events: seq<Event>, counted: seq<Link>, rows: seq<Link>, p: ListParams, i: nat)
    requires Lists(rows, Run(v, events).store.links)
    requires i < |AnswerAcross(counted, rows, Run(v, events).pipe.table, p).items|
    ensures var s := Run(v, events);
            var item := AnswerAcross(counted, rows, s.pipe.table, p).items[i];
            var written := ClickQueue.Written(s.pipe.attempts);
            && item.link.slug in s.store.links && s.store.links[item.link.slug] == item.link
            && Selected(p.choice, item.link)
            && item.totalClicks == Count(written, OfLink(item.link.id))
            && (if item.totalClicks == 0 then item.lastClicked == None
                else item.lastClicked.Some? && IsLatest(written, OfLink(item.link.id), item.lastClicked.value))
  {
    hide Run, AnswerAcross, ItemOf, Selected, Fold, ClickQueue.Written, Count, OfLink, IsLatest;
    var s := Run(v, events);
    ServedGetsAreAccountedFor(v, events);
    var row := ItemOfRow(s.pipe.table, p, counted, rows, i);
    ItemFigures(ClickQueue.Written(s.pipe.attempts), row);
    ItemLink(s.pipe.table, row);
  }

  // ---------------------------------------------------------------- activity read while clicks are written

  lemma WrittenExtends(v: UrlValidator, s: System, e: Service.Event)
    ensures ClickQueue.Written(s.pipe.attempts) <= ClickQueue.Written(Service.Step(v, s, e).pipe.attempts)
  {
    if e.Work? && e.step.Complete? && s.pipe.inFlight.Some? && s.pipe.inFlight.value.ClickMessage? {
      ClickQueue.AttemptSnoc(s.pipe.attempts, ClickQueue.Attempt(s.pipe.inFlight.value.click, e.step.ok));
    }
    hide ClickQueue.Written, ClickQueue.ClicksIn, Links.Step, Served;
  }

  lemma {:induction false} WrittenGrows(v: UrlValidator, events: seq<Event>, k: nat)
    requires k <= |events|
    ensures ClickQueue.Written(Run(v, events[..k]).pipe.attempts) <= ClickQueue.Written(Run(v, events).pipe.attempts)
  {
    hide ClickQueue.Written, Service.Step;
    if k == |events| {
      assert events[..k] == events;
    } else {
      var before := events[..|events| - 1];
      WrittenGrows(v, before, k);
      assert before[..k] == events[..k];
      WrittenExtends(v, Run(v, before), events[|events| - 1]);
    }
  }

  lemma TableIsWritten(v: UrlValidator, events: seq<Event>)
    ensures Run(v, events).pipe.table == Fold(ClickQueue.Written(Run(v, events).pipe.attempts))
  {
    hide Run, ClickQueue.Written, Fold;
    ServedGetsAreAccountedFor(v, events);
  }

  lemma SummaryDuringWrites(w: seq<Click>, x: seq<Click>, y: seq<Click>, id: string, days: int, now: int)
    requires w <= x
    ensures var s := SummaryAcross(Fold(w), Fold(x), Fold(y), id, days, now);
            var week := DayStart(now) - 6 * 86_400_000;
            && s.total == Count(w, OfLink(id)) && s.lastSevenDays == Count(x, Since(id, week))
            && (forall i :: 0 <= i < |s.daily| ==>
                  s.daily[i].count == Count(y, Within(id, s.daily[i].day, s.daily[i].day + MILLIS_PER_DAY)))
            && (s.lastSevenDays > s.total
                <==> Count(x[|w|..], Since(id, week)) > Count(w, Earlier(id, week)))
  {
    hide Fold, Count, SummaryAcross, IsLatest, SeriesStart, ClampDays, DayStart;
    SummaryIsOfClicks(w, x, y, id, days, now);
    assert w + x[|w|..] == x;
    WeekExceedsTotalWhen(w, x[|w|..], y, id, days, now);
  }

  /**
    The three queries of the activity summary at three moments of any run: each
    figure counts the clicks written by its moment, which only become more; the
    seven-day figure exceeds the total exactly when more of the week's clicks
    were written between the first two queries than the link had before the week.
   */
  lemma ActivityDuringWrites(v: UrlValidator, events: seq<Event>, j: nat, k: nat, id: string, days: int, now: int)
    requires j <= k <= |events|
    ensures var first, second, third := Run(v, events[..j]).pipe, Run(v, events[..k]).pipe, Run(v, events).pipe;
            var s := SummaryAcross(first.table, second.table, third.table, id, days, now);
            var w, x := ClickQueue.Written(first.attempts), ClickQueue.Written(second.attempts);
            var y := ClickQueue.Written(third.attempts);
            var week := DayStart(now) - 6 * 86_400_000;
            && w <= x <= y
            && s.total == Count(w, OfLink(id)) && s.lastSevenDays == Count(x, Since(id, week))
            && (forall i :: 0 <= i < |s.daily| ==>
                  s.daily[i].count == Count(y, Within(id, s.daily[i].day, s.daily[i].day + MILLIS_PER_DAY)))
            && (s.lastSevenDays > s.total
                <==> Count(x[|w|..], Since(id, week)) > Count(w, Earlier(id, week)))
  {
    hide Run, ClickQueue.Written, Fold, Count, SummaryAcross;
    TableIsWritten(v, events[..j]);
    TableIsWritten(v, events[..k]);
    TableIsWritten(v, events);
    WrittenGrows(v, events, k);
    WrittenGrows(v, events[..k], j);
    assert events[..k][..j] == events[..j];
    SummaryDuringWrites(ClickQueue.Written(Run(v, events[..j]).pipe.attempts),
                        ClickQueue.Written(Run(v, events[..k]).pipe.attempts),
                        ClickQueue.Written(Run(v, events).pipe.attempts), id, days, now);
  }
}
