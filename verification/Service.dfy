/**
  Links, visitors and analytics together: the store's steps, the visitors'
  requests (`src/web/public.rs`) and the click pipeline interleave freely.
 */
module Service {
  import opened Options
  import opened Text
  import opened Clicks
  import opened ClickQueue
  import opened Activity
  import opened LinkRules
  import opened LinkStore
  import Links = LinkRuns
  import opened LinkStatus

  datatype Method = Get | Head

  /** One visitor's request, with the two clock readings it takes, and whether the click queue has a permit for it. */
  datatype Request = Request(verb: Method, slug: string, now: int, clickTime: int, permit: bool)

  /** The click a request stands for, if it is a GET that resolves. */
  function Served(links: LinkTable, req: Request): seq<Click> {
    match Resolve(links, req.slug, req.now)
    case Ok(row) => if req.verb == Get then [Click(row.id, req.clickTime)] else []
    case Err(_) => []
  }

  function AfterRequest(p: Pipeline, links: LinkTable, req: Request): Pipeline {
    var served := Served(links, req);
    if served == [] then p else AfterOffer(p, served[0], req.permit)
  }

  /** `redirect_slug`: resolve, and count only a GET that is served. */
  method RedirectSlug(db: LinkDb, recorder: ClickRecorder, req: Request) returns (r: Result<Link>)
    modifies recorder
    ensures r == Resolve(db.links, req.slug, req.now)
    ensures recorder.View() == AfterRequest(old(recorder.View()), db.links, req)
    ensures recorder.offered
            == old(recorder.offered)
               + match Resolve(db.links, req.slug, req.now)
                 case Ok(row) => (if req.verb == Get then [Click(row.id, req.clickTime)] else [])
                 case Err(_) => []
    ensures !(req.permit && old(recorder.open) && |old(recorder.queue)| < 1024) ==>
              recorder.queue == old(recorder.queue)
  {
    var links := db.links;
    r := Resolve(links, req.slug, req.now);
    if r.Ok? && req.verb == Get {
      var queued := recorder.TryRecord(r.value.id, req.clickTime, req.permit);
    }
  }

  datatype System = System(store: Links.State, pipe: Pipeline)

  datatype Event =
    | Store(change: Links.Event)
    | Visit(req: Request)
    | Work(step: ClickQueue.Event)

  const START: System := System(Links.EMPTY, INITIAL)

  /** Only visits offer clicks. */
  function Step(v: UrlValidator, s: System, e: Event): System {
    match e
    case Store(change) => s.(store := Links.Step(v, s.store, change))
    case Visit(req) => s.(pipe := AfterRequest(s.pipe, s.store.links, req))
    case Work(step) => if step.Offer? then s else s.(pipe := ClickQueue.Step(s.pipe, step))
  }

  function Run(v: UrlValidator, events: seq<Event>): System {
    if events == [] then START else Step(v, Run(v, events[..|events| - 1]), events[|events| - 1])
  }

  // ---------------------------------------------------------------- the two halves of a run

  /** The changes of the links alone. */
  function Changes(events: seq<Event>): seq<Links.Event> {
    if events == [] then []
    else
      var last := events[|events| - 1];
      Changes(events[..|events| - 1]) + (if last.Store? then [last.change] else [])
  }

  /** The GETs that resolved, in order, judged by the links alone. */
  function ServedGets(v: UrlValidator, events: seq<Event>): seq<Click> {
    if events == [] then []
    else
      var before, last := events[..|events| - 1], events[|events| - 1];
      ServedGets(v, before)
      + (if last.Visit? && last.req.verb == Get then
           match Resolve(Links.Run(v, Links.EMPTY, Changes(before)).links, last.req.slug, last.req.now)
           case Ok(row) => [Click(row.id, last.req.clickTime)]
           case Err(_) => []
         else [])
  }

  lemma ChangesSnoc(v: UrlValidator, changes: seq<Links.Event>, c: Links.Event)
    ensures Links.Run(v, Links.EMPTY, changes + [c]) == Links.Step(v, Links.Run(v, Links.EMPTY, changes), c)
  {
    assert (changes + [c])[..|changes|] == changes;
  }

  lemma NoChanges(v: UrlValidator)
    ensures Links.Run(v, Links.EMPTY, []) == Links.EMPTY
  {
  }

  /** Clicks never influence the links, so links behave as if nobody visited. */
  lemma {:induction false} StoreRunsAlone(v: UrlValidator, events: seq<Event>)
    ensures Run(v, events).store == Links.Run(v, Links.EMPTY, Changes(events))
  {
    hide Links.Step, AfterRequest, ClickQueue.Step, Links.Run;
    if events == [] {
      NoChanges(v);
    } else {
      var before, last := events[..|events| - 1], events[|events| - 1];
      StoreRunsAlone(v, before);
      if last.Store? {
        ChangesSnoc(v, Changes(before), last.change);
      } else {
        assert Changes(before) + [] == Changes(before);
      }
    }
  }

  lemma RequestKeeps(p: Pipeline, links: LinkTable, req: Request)
    requires ClickQueue.Inv(p)
    ensures ClickQueue.Inv(AfterRequest(p, links, req))
    ensures AfterRequest(p, links, req).offered
            == p.offered + if req.verb == Get then
                             match Resolve(links, req.slug, req.now)
                             case Ok(row) => [Click(row.id, req.clickTime)]
                             case Err(_) => []
                           else []
  {
    hide ClickQueue.Inv, Resolve;
    var served := Served(links, req);
    if served != [] {
      OfferKeeps(p, served[0], req.permit);
    } else {
      assert p.offered + [] == p.offered;
    }
  }

  lemma WorkKeepsOffers(p: Pipeline, e: ClickQueue.Event)
    requires !e.Offer?
    ensures ClickQueue.Step(p, e).offered == p.offered
  {
  }

  /** What was offered is exactly the GETs that resolved, and the pipeline stays lawful. */
  lemma {:induction false} OffersAreServedGets(v: UrlValidator, events: seq<Event>)
    ensures Run(v, events).pipe.offered == ServedGets(v, events)
    ensures ClickQueue.Inv(Run(v, events).pipe)
  {
    hide Links.Step, AfterRequest, ClickQueue.Step, Links.Run, ClickQueue.Inv, Served;
    if events == [] {
      InitialInv();
    } else {
      var before, last := events[..|events| - 1], events[|events| - 1];
      OffersAreServedGets(v, before);
      StoreRunsAlone(v, before);
      var s := Run(v, before);
      match last
      case Store(_) =>
        assert ServedGets(v, before) + [] == ServedGets(v, before);
      case Visit(req) =>
        RequestKeeps(s.pipe, s.store.links, req);
      case Work(e) =>
        assert ServedGets(v, before) + [] == ServedGets(v, before);
        if !e.Offer? {
          ClickQueue.StepKeeps(s.pipe, e);
          WorkKeepsOffers(s.pipe, e);
        }
    }
  }

  /**
    In every interleaving of visitors, editors, worker and shutdown, the GETs that
    resolved are the clicks dropped, queued, held, failed, written and lost, and
    the table is the fold of the written ones.
   */
  lemma ServedGetsAreAccountedFor(v: UrlValidator, events: seq<Event>)
    ensures var p := Run(v, events).pipe;
            && multiset(ServedGets(v, events))
               == multiset(p.dropped) + multiset(ClicksIn(p.queue)) + multiset(Held(p.inFlight))
                  + multiset(Failed(p.attempts)) + multiset(Written(p.attempts)) + multiset(p.lost)
            && (p.open ==> p.lost == [])
            && p.table == Fold(Written(p.attempts))
  {
    hide Run, ServedGets, ClicksIn, Written, Failed, Fold, QueuePlaced;
    OffersAreServedGets(v, events);
    AttemptedSplit(Run(v, events).pipe.attempts);
  }

  // ---------------------------------------------------------------- clicks belong to links

  ghost predicate KnownId(links: LinkTable, id: string) {
    exists slug :: slug in links && links[slug].id == id
  }

  lemma KnownForever(before: LinkTable, after: LinkTable, id: string)
    requires Links.Descends(before, after) && KnownId(before, id)
    ensures KnownId(after, id)
  {
    var slug :| slug in before && before[slug].id == id;
    assert slug in after && after[slug].id == id;
  }

  lemma ResolvedIsKnown(links: LinkTable, req: Request)
    ensures Resolve(links, req.slug, req.now).Ok? ==> KnownId(links, Resolve(links, req.slug, req.now).value.id)
  {
    var key := Lower(req.slug);
    if key in links {
      assert KnownId(links, links[key].id);
    }
  }

  /** Every counted visit was to a link that is still there. */
  lemma {:induction false} ServedGetsAreKnown(v: UrlValidator, events: seq<Event>)
    ensures forall i :: 0 <= i < |ServedGets(v, events)| ==>
              KnownId(Run(v, events).store.links, ServedGets(v, events)[i].linkId)
  {
    if events != [] {
      var before, last := events[..|events| - 1], events[|events| - 1];
      ServedGetsAreKnown(v, before);
      StoreRunsAlone(v, before);
      Links.EmptyInv(v);
      Links.RunKeeps(v, Links.EMPTY, Changes(before));
      var s, r := Run(v, before), Run(v, events);
      if last.Store? {
        Links.StepKeeps(v, s.store, last.change);
      } else {
        Links.IdentityOfSame(s.store.links);
      }
      assert Links.Descends(s.store.links, r.store.links);
      hide Run, Links.Run, Links.Step, Links.Inv, Links.Descends, KnownId;
      forall i | 0 <= i < |ServedGets(v, events)|
        ensures KnownId(r.store.links, ServedGets(v, events)[i].linkId)
      {
        if i < |ServedGets(v, before)| {
          KnownForever(s.store.links, r.store.links, ServedGets(v, before)[i].linkId);
        } else {
          ResolvedIsKnown(s.store.links, last.req);
          KnownForever(s.store.links, r.store.links, ServedGets(v, events)[i].linkId);
        }
      }
    }
  }

  /** So the foreign key of the analytics table holds in every reachable state: no row is about an unknown link. */
  lemma AnalyticsRowsHaveLinks(v: UrlValidator, events: seq<Event>, k: ClickKey)
    ensures k in Run(v, events).pipe.table ==> KnownId(Run(v, events).store.links, k.linkId)
  {
    var s := Run(v, events);
    if k in s.pipe.table {
      ServedGetsAreKnown(v, events);
      ServedGetsAreAccountedFor(v, events);
      var w := Written(s.pipe.attempts);
      RowMeaning(w, k);
      CountPositive(w, OfKey(k));
      var i :| 0 <= i < |w| && OfKey(k)(w[i]);
      hide Run, ServedGets, KnownId, Written, Failed, ClicksIn, Fold, Count;
      assert w[i] in multiset(w);
      assert w[i] in multiset(ServedGets(v, events));
      var j :| 0 <= j < |ServedGets(v, events)| && ServedGets(v, events)[j] == w[i];
      assert KnownId(s.store.links, ServedGets(v, events)[j].linkId);
    }
  }

  /** Event `k` is a GET that the links, as they were then, resolve to the link. */
  predicate ServesGet(v: UrlValidator, events: seq<Event>, id: string, k: nat)
    requires k < |events|
  {
    && events[k].Visit? && events[k].req.verb == Get
    && var r := Resolve(Run(v, events[..k]).store.links, events[k].req.slug, events[k].req.now);
       r.Ok? && r.value.id == id
  }

  /** The visits that were GETs served by the link. */
  function GetsOf(v: UrlValidator, events: seq<Event>, id: string): set<nat> {
    set k: nat | k < |events| && ServesGet(v, events, id, k)
  }

  lemma GetsOfSnoc(v: UrlValidator, events: seq<Event>, id: string)
    requires events != []
    ensures var n := |events| - 1;
            GetsOf(v, events, id)
            == GetsOf(v, events[..n], id) + (if ServesGet(v, events, id, n) then {n} else {})
  {
    var n := |events| - 1;
    forall k | 0 <= k < n
      ensures ServesGet(v, events, id, k) <==> ServesGet(v, events[..n], id, k)
    {
      assert events[..n][..k] == events[..k] && events[..n][k] == events[k];
    }
    hide ServesGet;
  }

  lemma NotYet(v: UrlValidator, events: seq<Event>, id: string)
    ensures |events| !in GetsOf(v, events, id)
  {
    hide ServesGet;
  }

  lemma CountNone(p: Click -> bool)
    ensures Count([], p) == 0
  {
  }

  /** The clicks of a link among the GETs that resolved are, one for one, its visits. */
  lemma {:induction false} GetsAreVisits(v: UrlValidator, events: seq<Event>, id: string)
    ensures Count(ServedGets(v, events), OfLink(id)) == |GetsOf(v, events, id)|
  {
    if events == [] {
      assert GetsOf(v, events, id) == {};
    } else {
      var before, last := events[..|events| - 1], events[|events| - 1];
      GetsAreVisits(v, before, id);
      StoreRunsAlone(v, before);
      GetsOfSnoc(v, events, id);
      hide Run, Links.Run, Resolve, GetsOf, Count;
      var c := ServedGets(v, events)[|ServedGets(v, before)|..];
      assert ServedGets(v, events) == ServedGets(v, before) + c;
      CountConcat(ServedGets(v, before), c, OfLink(id));
      if c != [] {
        assert c == [c[0]];
        CountOne(c[0], OfLink(id));
      } else {
        CountNone(OfLink(id));
      }
      assert |before| !in GetsOf(v, before, id) by {
        NotYet(v, before, id);
      }
    }
  }

  lemma CountPart(all: seq<Click>, w: seq<Click>, a: seq<Click>, b: seq<Click>, c: seq<Click>, d: seq<Click>,
                  e: seq<Click>, p: Click -> bool)
    requires multiset(all) == multiset(a) + multiset(b) + multiset(c) + multiset(d) + multiset(w) + multiset(e)
    ensures Count(w, p) <= Count(all, p)
    ensures a == [] && b == [] && c == [] && d == [] && e == [] ==> Count(w, p) == Count(all, p)
  {
    hide Count;
    var rest := a + b + c + d + e;
    assert multiset(all) == multiset(w + rest);
    CountPermuted(all, w + rest, p);
    CountConcat(w, rest, p);
    CountNone(p);
  }

  /**
    A link's total never exceeds the GETs it served, and equals them when nothing
    was dropped, failed, lost or is pending.
   */
  lemma TotalsAreServedGets(v: UrlValidator, events: seq<Event>, id: string)
    ensures var p := Run(v, events).pipe;
            var total := SumOn(p.table, id, Days(p.table, id));
            && total <= |GetsOf(v, events, id)|
            && (p.dropped == [] && p.queue == [] && p.inFlight == None && Failed(p.attempts) == [] && p.lost == []
                ==> total == |GetsOf(v, events, id)|)
  {
    GetsAreVisits(v, events, id);
    ServedGetsAreAccountedFor(v, events);
    var p := Run(v, events).pipe;
    assert p.queue == [] ==> ClicksIn(p.queue) == [];
    hide Run, ServedGets, Written, Failed, ClicksIn, Fold, SumOn, Days, GetsOf, Count, OfLink;
    TotalIsClicks(Written(p.attempts), id);
    CountPart(ServedGets(v, events), Written(p.attempts), p.dropped, ClicksIn(p.queue), Held(p.inFlight),
              Failed(p.attempts), p.lost, OfLink(id));
  }

  /** With a validator that lets no control character through, no stored target has one. */
  lemma TargetsAreSafe(v: UrlValidator, events: seq<Event>, slug: string)
    requires forall raw :: v(raw).Some? ==> !HasControl(v(raw).value)
    requires slug in Run(v, events).store.links
    ensures !HasControl(Run(v, events).store.links[slug].target)
  {
    StoreRunsAlone(v, events);
    Links.RowsStayLawful(v, Changes(events));
    hide Run, Links.Run, NormalSlug, TextOk, RowCheck, Links.IdsDistinct;
    var row := Run(v, events).store.links[slug];
    if row.text == None {
      assert FromValidator(v, row.target);
      var raw :| v(raw) == Some(row.target);
      assert !HasControl(v(raw).value);
    } else {
      assert row.target == "";
    }
  }

  /** So the defensive header check never fires. */
  lemma HeaderCheckNeverFires(v: UrlValidator, events: seq<Event>, slug: string, now: int)
    requires forall raw :: v(raw).Some? ==> !HasControl(v(raw).value)
    ensures Resolve(Run(v, events).store.links, slug, now) != Err(Internal)
  {
    hide Run, HasControl;
    if Lower(slug) in Run(v, events).store.links {
      TargetsAreSafe(v, events, Lower(slug));
    }
  }
}
