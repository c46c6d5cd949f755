/**
  The click pipeline (`src/db/analytics.rs`): request handlers offer clicks to a
  bounded queue without waiting, one worker takes messages in order and writes
  them, and `flush` is a message in the same queue.
 */
module ClickQueue {
  import opened Options
  import opened Sequences
  import opened Clicks

  const CAPACITY: nat := 1024

  datatype Message = ClickMessage(click: Click) | FlushMessage(ticket: nat)

  datatype Attempt = Attempt(click: Click, ok: bool)

  /**
    Queue, the message the worker holds, and the table; then the history: clicks
    offered, dropped and accepted, write attempts in order, clicks lost with the
    worker, how many clicks each flush was queued after, and flushes answered.
   */
  datatype Pipeline = Pipeline(
    queue: seq<Message>,
    inFlight: Option<Message>,
    open: bool,
    table: ClickTable,
    offered: seq<Click>,
    dropped: seq<Click>,
    accepted: seq<Click>,
    attempts: seq<Attempt>,
    lost: seq<Click>,
    tickets: map<nat, nat>,
    acked: set<nat>)

  const INITIAL: Pipeline := Pipeline([], None, true, map[], [], [], [], [], [], map[], {})

  /** What can happen next, in any interleaving. */
  datatype Event =
    | Offer(click: Click, permit: bool)
    | QueueFlush(ticket: nat)
    | Take
    | Complete(ok: bool)
    | Stop

  predicate HasRoom(s: Pipeline) {
    s.open && |s.queue| < CAPACITY
  }

  /**
    `try_send` of a click: dropped when the queue is full or closed, and without
    a permit also when there is room, which a send that waits has been given.
   */
  function AfterOffer(s: Pipeline, c: Click, permit: bool): Pipeline {
    if permit && HasRoom(s) then
      s.(queue := s.queue + [ClickMessage(c)], offered := s.offered + [c], accepted := s.accepted + [c])
    else
      s.(offered := s.offered + [c], dropped := s.dropped + [c])
  }

  /** `send` of a flush: it waits, so it happens only when there is room. */
  function AfterQueueFlush(s: Pipeline, ticket: nat): Pipeline {
    if HasRoom(s) && ticket !in s.tickets then
      s.(queue := s.queue + [FlushMessage(ticket)], tickets := s.tickets[ticket := |s.accepted|])
    else s
  }

  function AfterTake(s: Pipeline): Pipeline {
    if s.open && s.inFlight == None && s.queue != [] then
      s.(queue := s.queue[1..], inFlight := Some(s.queue[0]))
    else s
  }

  /** The write of the held click succeeded or failed, or the held flush is answered. */
  function AfterComplete(s: Pipeline, ok: bool): Pipeline {
    match s.inFlight
    case None => s
    case Some(ClickMessage(c)) =>
      s.(inFlight := None, attempts := s.attempts + [Attempt(c, ok)],
         table := if ok then Upsert(s.table, c) else s.table)
    case Some(FlushMessage(ticket)) =>
      s.(inFlight := None, acked := s.acked + {ticket})
  }

  function Held(m: Option<Message>): seq<Click> {
    match m
    case Some(ClickMessage(c)) => [c]
    case _ => []
  }

  function ClicksIn(queue: seq<Message>): seq<Click> {
    if queue == [] then [] else ClicksIn(queue[..|queue| - 1]) + Held(Some(queue[|queue| - 1]))
  }

  /** The worker ends: what was queued or held is lost and the channel closes. */
  function AfterStop(s: Pipeline): Pipeline {
    s.(open := false, queue := [], inFlight := None, lost := s.lost + Held(s.inFlight) + ClicksIn(s.queue))
  }

  function Step(s: Pipeline, e: Event): Pipeline {
    match e
    case Offer(c, permit) => AfterOffer(s, c, permit)
    case QueueFlush(ticket) => AfterQueueFlush(s, ticket)
    case Take => AfterTake(s)
    case Complete(ok) => AfterComplete(s, ok)
    case Stop => AfterStop(s)
  }

  function Run(s: Pipeline, events: seq<Event>): Pipeline {
    if events == [] then s else Step(Run(s, events[..|events| - 1]), events[|events| - 1])
  }

  // ---------------------------------------------------------------- the clicks inside

  function Attempted(attempts: seq<Attempt>): (clicks: seq<Click>)
    ensures |clicks| == |attempts|
  {
    if attempts == [] then []
    else Attempted(attempts[..|attempts| - 1]) + [attempts[|attempts| - 1].click]
  }

  /** The clicks whose write succeeded, in order. */
  function Written(attempts: seq<Attempt>): seq<Click> {
    if attempts == [] then []
    else
      var last := attempts[|attempts| - 1];
      Written(attempts[..|attempts| - 1]) + (if last.ok then [last.click] else [])
  }

  function Failed(attempts: seq<Attempt>): seq<Click> {
    if attempts == [] then []
    else
      var last := attempts[|attempts| - 1];
      Failed(attempts[..|attempts| - 1]) + (if last.ok then [] else [last.click])
  }

  lemma ClicksInSnoc(queue: seq<Message>, m: Message)
    ensures ClicksIn(queue + [m]) == ClicksIn(queue) + Held(Some(m))
  {
    assert (queue + [m])[..|queue|] == queue;
  }

  lemma {:induction false} ClicksInConcat(a: seq<Message>, b: seq<Message>)
    ensures ClicksIn(a + b) == ClicksIn(a) + ClicksIn(b)
  {
    if b == [] {
      assert a + b == a;
    } else {
      var init, last := b[..|b| - 1], b[|b| - 1];
      ClicksInConcat(a, init);
      ClicksInSnoc(a + init, last);
      ClicksInSnoc(init, last);
      hide ClicksIn;
      assert b == init + [last];
      Associate(a, init, [last]);
      Associate(ClicksIn(a), ClicksIn(init), Held(Some(last)));
    }
  }

  lemma GrowThird<T>(a: seq<T>, b: seq<T>, c: seq<T>, x: T)
    ensures a + b + (c + [x]) + [] == a + b + c + [] + [x]
  {
  }

  lemma MoveSecond<T>(a: seq<T>, b: seq<T>, c: seq<T>, d: seq<T>)
    ensures a + [] + (b + c) + d == a + b + c + d
    ensures (a + b) + [] + c + d == a + b + c + d
  {
  }

  lemma MoveLast<T>(a: seq<T>, b: seq<T>, c: seq<T>)
    ensures a + [] + [] + ([] + b + c) == a + b + c + []
  {
  }

  lemma ClicksInOne(m: Message)
    ensures ClicksIn([m]) == Held(Some(m))
    ensures ClicksIn([]) == []
  {
    ClicksInSnoc([], m);
    assert [] + [m] == [m];
  }

  lemma AttemptSnoc(attempts: seq<Attempt>, a: Attempt)
    ensures Attempted(attempts + [a]) == Attempted(attempts) + [a.click]
    ensures Written(attempts + [a]) == Written(attempts) + (if a.ok then [a.click] else [])
  {
    assert (attempts + [a])[..|attempts|] == attempts;
  }

  lemma {:induction false} AttemptedSplit(attempts: seq<Attempt>)
    ensures multiset(Attempted(attempts)) == multiset(Written(attempts)) + multiset(Failed(attempts))
  {
    if attempts != [] {
      AttemptedSplit(attempts[..|attempts| - 1]);
    }
  }

  // ---------------------------------------------------------------- the invariant

  predicate Bounded(s: Pipeline) {
    && |s.queue| <= CAPACITY
    && (s.open ==> s.lost == [])
    && (!s.open ==> s.queue == [] && s.inFlight == None)
  }

  /** Accepted clicks are, in order: attempted, held, queued, lost. */
  predicate InOrder(s: Pipeline) {
    s.accepted == Attempted(s.attempts) + Held(s.inFlight) + ClicksIn(s.queue) + s.lost
  }

  predicate Accounted(s: Pipeline) {
    multiset(s.offered) == multiset(s.accepted) + multiset(s.dropped)
  }

  predicate TableFolds(s: Pipeline) {
    s.table == Fold(Written(s.attempts))
  }

  /** A flush at position `i` was queued after exactly the clicks before it, `base` of them gone from the queue. */
  predicate PlacedAt(queue: seq<Message>, tickets: map<nat, nat>, base: nat, i: nat)
    requires i < |queue|
  {
    queue[i].FlushMessage? ==>
      queue[i].ticket in tickets && tickets[queue[i].ticket] == base + |ClicksIn(queue[..i])|
  }

  predicate QueuePlaced(queue: seq<Message>, tickets: map<nat, nat>, base: nat) {
    forall i :: 0 <= i < |queue| ==> PlacedAt(queue, tickets, base, i)
  }

  /** A flush held or answered was queued after no more clicks than were attempted. */
  predicate FlushesPlaced(s: Pipeline) {
    && QueuePlaced(s.queue, s.tickets, |s.attempts| + |Held(s.inFlight)|)
    && (s.inFlight.Some? && s.inFlight.value.FlushMessage? ==>
          s.inFlight.value.ticket in s.tickets && s.tickets[s.inFlight.value.ticket] <= |s.attempts|)
    && (forall t :: t in s.acked ==> t in s.tickets && s.tickets[t] <= |s.attempts|)
  }

  predicate Inv(s: Pipeline) {
    Bounded(s) && InOrder(s) && Accounted(s) && TableFolds(s) && FlushesPlaced(s)
  }

  lemma PlacedAfterAppend(queue: seq<Message>, m: Message, tickets: map<nat, nat>, base: nat)
    requires QueuePlaced(queue, tickets, base)
    requires m.FlushMessage? ==> m.ticket in tickets && tickets[m.ticket] == base + |ClicksIn(queue)|
    ensures QueuePlaced(queue + [m], tickets, base)
  {
    hide ClicksIn;
    var longer := queue + [m];
    forall i | 0 <= i < |longer|
      ensures PlacedAt(longer, tickets, base, i)
    {
      if i < |queue| {
        assert PlacedAt(queue, tickets, base, i);
        assert longer[..i] == queue[..i];
      } else {
        assert longer[..i] == queue;
      }
    }
  }

  lemma PlacedWithTicket(queue: seq<Message>, tickets: map<nat, nat>, base: nat, ticket: nat, n: nat)
    requires QueuePlaced(queue, tickets, base) && ticket !in tickets
    ensures QueuePlaced(queue, tickets[ticket := n], base)
  {
    hide ClicksIn;
    var more := tickets[ticket := n];
    forall i | 0 <= i < |queue|
      ensures PlacedAt(queue, more, base, i)
    {
      assert PlacedAt(queue, tickets, base, i);
    }
  }

  lemma PlacedAfterTake(queue: seq<Message>, tickets: map<nat, nat>, base: nat)
    requires QueuePlaced(queue, tickets, base) && queue != []
    ensures QueuePlaced(queue[1..], tickets, base + |Held(Some(queue[0]))|)
    ensures queue[0].FlushMessage? ==> queue[0].ticket in tickets && tickets[queue[0].ticket] == base
  {
    hide ClicksIn;
    var m, rest := queue[0], queue[1..];
    ClicksInOne(m);
    var gone := base + |Held(Some(m))|;
    forall i | 0 <= i < |rest|
      ensures PlacedAt(rest, tickets, gone, i)
    {
      assert PlacedAt(queue, tickets, base, i + 1);
      assert queue[..i + 1] == [m] + rest[..i];
      ClicksInConcat([m], rest[..i]);
    }
    assert PlacedAt(queue, tickets, base, 0);
    assert queue[..0] == [];
  }

  lemma CountMore<T>(o: seq<T>, a: seq<T>, d: seq<T>, x: T)
    requires multiset(o) == multiset(a) + multiset(d)
    ensures multiset(o + [x]) == multiset(a + [x]) + multiset(d)
    ensures multiset(o + [x]) == multiset(a) + multiset(d + [x])
  {
  }

  lemma OfferKeeps(s: Pipeline, c: Click, permit: bool)
    requires Inv(s)
    ensures Inv(AfterOffer(s, c, permit))
  {
    hide ClicksIn, Attempted, Written, Fold, QueuePlaced;
    CountMore(s.offered, s.accepted, s.dropped, c);
    if permit && HasRoom(s) {
      var m := ClickMessage(c);
      ClicksInSnoc(s.queue, m);
      GrowThird(Attempted(s.attempts), Held(s.inFlight), ClicksIn(s.queue), c);
      PlacedAfterAppend(s.queue, m, s.tickets, |s.attempts| + |Held(s.inFlight)|);
    }
  }

  lemma QueueFlushKeeps(s: Pipeline, ticket: nat)
    requires Inv(s)
    ensures Inv(AfterQueueFlush(s, ticket))
  {
    hide ClicksIn, Attempted, Written, Fold, QueuePlaced;
    if HasRoom(s) && ticket !in s.tickets {
      var m, base := FlushMessage(ticket), |s.attempts| + |Held(s.inFlight)|;
      ClicksInSnoc(s.queue, m);
      assert ClicksIn(s.queue) + [] == ClicksIn(s.queue);
      assert |s.accepted| == base + |ClicksIn(s.queue)|;
      PlacedWithTicket(s.queue, s.tickets, base, ticket, |s.accepted|);
      PlacedAfterAppend(s.queue, m, s.tickets[ticket := |s.accepted|], base);
    }
  }

  lemma TakeKeeps(s: Pipeline)
    requires Inv(s)
    ensures Inv(AfterTake(s))
  {
    hide ClicksIn, Attempted, Written, Fold, QueuePlaced;
    if s.open && s.inFlight == None && s.queue != [] {
      var m, rest := s.queue[0], s.queue[1..];
      assert s.queue == [m] + rest;
      ClicksInConcat([m], rest);
      ClicksInOne(m);
      MoveSecond(Attempted(s.attempts), Held(Some(m)), ClicksIn(rest), s.lost);
      PlacedAfterTake(s.queue, s.tickets, |s.attempts|);
    }
  }

  lemma FoldSnoc(clicks: seq<Click>, c: Click)
    ensures Fold(clicks + [c]) == Upsert(Fold(clicks), c)
  {
    assert (clicks + [c])[..|clicks|] == clicks;
  }

  lemma CompleteKeeps(s: Pipeline, ok: bool)
    requires Inv(s)
    ensures Inv(AfterComplete(s, ok))
  {
    hide ClicksIn, Attempted, Written, Fold, QueuePlaced;
    match s.inFlight
    case Some(ClickMessage(c)) =>
      AttemptSnoc(s.attempts, Attempt(c, ok));
      MoveSecond(Attempted(s.attempts), [c], ClicksIn(s.queue), s.lost);
      if ok {
        FoldSnoc(Written(s.attempts), c);
      } else {
        assert Written(s.attempts) + [] == Written(s.attempts);
      }
    case Some(FlushMessage(t)) =>
    case None =>
  }

  lemma StopKeepsOrder(s: Pipeline)
    requires Bounded(s) && InOrder(s)
    ensures InOrder(AfterStop(s)) && Bounded(AfterStop(s))
    ensures !s.open ==> AfterStop(s) == s
  {
    assert ClicksIn([]) == [];
    hide ClicksIn, Attempted;
    if s.open {
      MoveLast(Attempted(s.attempts), Held(s.inFlight), ClicksIn(s.queue));
    } else {
      assert s.lost + [] + [] == s.lost;
    }
  }

  lemma StopKeeps(s: Pipeline)
    requires Inv(s)
    ensures Inv(AfterStop(s))
  {
    StopKeepsOrder(s);
    hide ClicksIn, Attempted, Written, Fold, InOrder, Bounded;
  }

  /** Every step of every handler, of the worker and of shutdown keeps the invariant. */
  lemma StepKeeps(s: Pipeline, e: Event)
    requires Inv(s)
    ensures Inv(Step(s, e))
  {
    hide Inv, AfterOffer, AfterQueueFlush, AfterTake, AfterComplete, AfterStop;
    match e
    case Offer(c, permit) => OfferKeeps(s, c, permit);
    case QueueFlush(ticket) => QueueFlushKeeps(s, ticket);
    case Take => TakeKeeps(s);
    case Complete(ok) => CompleteKeeps(s, ok);
    case Stop => StopKeeps(s);
  }

  lemma {:induction false} RunKeeps(s: Pipeline, events: seq<Event>)
    requires Inv(s)
    ensures Inv(Run(s, events))
  {
    hide Inv, Step;
    if events != [] {
      RunKeeps(s, events[..|events| - 1]);
      StepKeeps(Run(s, events[..|events| - 1]), events[|events| - 1]);
    }
  }

  // ---------------------------------------------------------------- over whole runs

  /** The offers of a run, in order. */
  function Offers(events: seq<Event>): seq<Click> {
    if events == [] then []
    else
      var last := events[|events| - 1];
      Offers(events[..|events| - 1]) + (if last.Offer? then [last.click] else [])
  }

  lemma {:induction false} OfferedAreOffers(events: seq<Event>)
    ensures Run(INITIAL, events).offered == Offers(events)
  {
    if events != [] {
      OfferedAreOffers(events[..|events| - 1]);
    }
  }

  lemma InitialInv()
    ensures Inv(INITIAL)
  {
  }

  /**
    Conservation: in every interleaving the offered clicks are the dropped,
    queued, held, failed, written and lost ones; nothing is lost while the worker
    runs, the queue is bounded, and the table is the fold of the written clicks.
   */
  lemma Conservation(events: seq<Event>)
    ensures var s := Run(INITIAL, events);
            && multiset(Offers(events))
               == multiset(s.dropped) + multiset(ClicksIn(s.queue)) + multiset(Held(s.inFlight))
                  + multiset(Failed(s.attempts)) + multiset(Written(s.attempts)) + multiset(s.lost)
            && (s.open ==> s.lost == [])
            && |s.queue| <= CAPACITY
            && s.table == Fold(Written(s.attempts))
  {
    InitialInv();
    RunKeeps(INITIAL, events);
    OfferedAreOffers(events);
    AttemptedSplit(Run(INITIAL, events).attempts);
  }

  lemma {:induction false} HistoryGrows(s: Pipeline, events: seq<Event>)
    ensures s.accepted <= Run(s, events).accepted
    ensures forall t :: t in s.tickets ==> t in Run(s, events).tickets && Run(s, events).tickets[t] == s.tickets[t]
  {
    if events != [] {
      HistoryGrows(s, events[..|events| - 1]);
    }
  }

  /** Completing a held click writes it, or counts it as failed; nothing else is written. */
  lemma CompletionWrites(s: Pipeline, ok: bool)
    ensures var r := Step(s, Complete(ok));
            && Written(r.attempts) == Written(s.attempts) + (if ok then Held(s.inFlight) else [])
            && Failed(r.attempts) == Failed(s.attempts) + (if ok then [] else Held(s.inFlight))
            && Held(r.inFlight) == []
  {
    match s.inFlight
    case Some(ClickMessage(c)) =>
      AttemptSnoc(s.attempts, Attempt(c, ok));
      assert (s.attempts + [Attempt(c, ok)])[..|s.attempts|] == s.attempts;
    case _ =>
      assert Written(s.attempts) + [] == Written(s.attempts);
      assert Failed(s.attempts) + [] == Failed(s.attempts);
  }

  lemma AttemptsArePrefix(s: Pipeline)
    requires Inv(s)
    ensures Attempted(s.attempts) <= s.accepted
    ensures forall t :: t in s.acked ==> t in s.tickets && s.tickets[t] <= |s.attempts|
  {
    hide ClicksIn, Attempted, Written, Fold, QueuePlaced;
    Associate(Attempted(s.attempts), Held(s.inFlight), ClicksIn(s.queue));
    Associate(Attempted(s.attempts), Held(s.inFlight) + ClicksIn(s.queue), s.lost);
  }

  /** Clicks are attempted in the order they were accepted, none skipped. */
  lemma AttemptsFollowAcceptance(events: seq<Event>)
    ensures var s := Run(INITIAL, events); Attempted(s.attempts) <= s.accepted
  {
    InitialInv();
    RunKeeps(INITIAL, events);
    AttemptsArePrefix(Run(INITIAL, events));
  }

  lemma ShorterPrefix(a: seq<Click>, b: seq<Click>, whole: seq<Click>)
    requires a <= whole && b <= whole && |a| <= |b|
    ensures a <= b
  {
  }

  /** An answered flush has seen at least as many attempts as there were clicks when it was queued. */
  lemma AnsweredTicket(q: Pipeline, ticket: nat, after: seq<Event>)
    requires Inv(q) && ticket in q.tickets && q.tickets[ticket] == |q.accepted|
    requires ticket in Run(q, after).acked
    ensures q.accepted <= Attempted(Run(q, after).attempts)
  {
    hide Inv, Run, Attempted;
    RunKeeps(q, after);
    HistoryGrows(q, after);
    var e := Run(q, after);
    AttemptsArePrefix(e);
    ShorterPrefix(q.accepted, Attempted(e.attempts), e.accepted);
  }

  lemma BarrierFrom(s: Pipeline, ticket: nat, after: seq<Event>)
    requires Inv(s) && HasRoom(s) && ticket !in s.tickets
    requires ticket in Run(AfterQueueFlush(s, ticket), after).acked
    ensures s.accepted <= Attempted(Run(AfterQueueFlush(s, ticket), after).attempts)
  {
    var q := AfterQueueFlush(s, ticket);
    QueueFlushKeeps(s, ticket);
    hide Inv, Run, Attempted;
    AnsweredTicket(q, ticket, after);
  }

  /** When a flush has been answered, every click accepted before it was queued has been attempted. */
  lemma FlushIsBarrier(before: seq<Event>, ticket: nat, after: seq<Event>)
    requires HasRoom(Run(INITIAL, before)) && ticket !in Run(INITIAL, before).tickets
    requires ticket in Run(AfterQueueFlush(Run(INITIAL, before), ticket), after).acked
    ensures Run(INITIAL, before).accepted
            <= Attempted(Run(AfterQueueFlush(Run(INITIAL, before), ticket), after).attempts)
  {
    hide Inv, Run, Attempted, AfterQueueFlush, HasRoom;
    InitialInv();
    RunKeeps(INITIAL, before);
    BarrierFrom(Run(INITIAL, before), ticket, after);
  }

  // ---------------------------------------------------------------- the recorder

  /** Worker turns: take a message and finish it, once per outcome. */
  function Turns(outcomes: seq<bool>): seq<Event> {
    if outcomes == [] then [] else Turns(outcomes[..|outcomes| - 1]) + [Take, Complete(outcomes[|outcomes| - 1])]
  }

  lemma NoTurns(s: Pipeline, outcomes: seq<bool>)
    ensures Run(s, Turns(outcomes[..0])) == s
  {
  }

  lemma TurnMore(s: Pipeline, outcomes: seq<bool>, n: nat)
    requires n < |outcomes|
    ensures Run(s, Turns(outcomes[..n + 1])) == Step(Step(Run(s, Turns(outcomes[..n])), Take), Complete(outcomes[n]))
  {
    assert outcomes[..n + 1][..n] == outcomes[..n];
    var events := Turns(outcomes[..n]);
    assert Turns(outcomes[..n + 1]) == events + [Take, Complete(outcomes[n])];
    hide Turns, Step;
    assert (events + [Take, Complete(outcomes[n])])[..|events| + 1] == events + [Take];
    assert (events + [Take])[..|events|] == events;
  }

  class ClickRecorder {
    var queue: seq<Message>
    var inFlight: Option<Message>
    var open: bool
    const db: AnalyticsDb
    ghost var offered: seq<Click>
    ghost var dropped: seq<Click>
    ghost var accepted: seq<Click>
    ghost var attempts: seq<Attempt>
    ghost var lost: seq<Click>
    ghost var tickets: map<nat, nat>
    ghost var acked: set<nat>

    ghost function View(): Pipeline
      reads this, db
    {
      Pipeline(queue, inFlight, open, db.rows, offered, dropped, accepted, attempts, lost, tickets, acked)
    }

    /** `start`: an open, empty queue in front of one writer connection. */
    constructor (db: AnalyticsDb)
      requires db.rows == map[]
      ensures View() == INITIAL && this.db == db
    {
      this.db := db;
      queue, inFlight, open := [], None, true;
      offered, dropped, accepted, attempts, lost, tickets, acked := [], [], [], [], [], map[], {};
    }

    /** `try_record`: true exactly when the click was queued; `permit` says that no waiting send holds the room. */
    method TryRecord(linkId: string, timestamp: int, permit: bool) returns (ok: bool)
      modifies this
      ensures View() == Step(old(View()), Offer(Click(linkId, timestamp), permit))
      ensures ok <==> permit && old(open) && |old(queue)| < 1024
      ensures offered == old(offered) + [Click(linkId, timestamp)]
      ensures ok ==> queue == old(queue) + [ClickMessage(Click(linkId, timestamp))] && dropped == old(dropped)
      ensures !ok ==> queue == old(queue) && dropped == old(dropped) + [Click(linkId, timestamp)]
    {
      ok := permit && open && |queue| < CAPACITY;
      var c := Click(linkId, timestamp);
      offered := offered + [c];
      if ok {
        queue := queue + [ClickMessage(c)];
        accepted := accepted + [c];
      } else {
        dropped := dropped + [c];
      }
    }

    /** `flush` up to the point where its message is in the queue. */
    method SendFlush(ticket: nat) returns (queued: bool)
      requires ticket !in tickets
      modifies this
      ensures View() == Step(old(View()), QueueFlush(ticket))
      ensures queued <==> old(open) && |old(queue)| < 1024
      ensures queue == old(queue) + (if queued then [FlushMessage(ticket)] else [])
      ensures queued ==> ticket in tickets && tickets[ticket] == |accepted|
    {
      queued := open && |queue| < CAPACITY;
      if queued {
        queue := queue + [FlushMessage(ticket)];
        tickets := tickets[ticket := |accepted|];
      }
    }

    /** `recv`: the message that has waited longest. */
    method Receive()
      modifies this
      ensures View() == Step(old(View()), Take)
      ensures old(open && inFlight == None && queue != []) ==>
                inFlight == Some(old(queue)[0]) && queue == old(queue)[1..]
    {
      if open && inFlight == None && queue != [] {
        inFlight := Some(queue[0]);
        queue := queue[1..];
      }
    }

    /** One arm of the worker's match: record the click, or answer the flush. */
    method Finish(ok: bool)
      modifies this, db
      ensures View() == Step(old(View()), Complete(ok))
      ensures inFlight == None && queue == old(queue)
      ensures match old(inFlight)
              case Some(ClickMessage(c)) =>
                db.rows == (if ok then Upsert(old(db.rows), c) else old(db.rows)) && acked == old(acked)
              case Some(FlushMessage(t)) => db.rows == old(db.rows) && acked == old(acked) + {t}
              case None => db.rows == old(db.rows) && acked == old(acked)
    {
      match inFlight
      case Some(ClickMessage(c)) =>
        if ok {
          db.RecordClick(c.linkId, c.timestamp);
        }
        attempts := attempts + [Attempt(c, ok)];
        inFlight := None;
      case Some(FlushMessage(t)) =>
        acked := acked + {t};
        inFlight := None;
      case None =>
    }

    /** The worker loop on a queue nobody else touches: it empties it in order, whatever writes fail. */
    method Drain(outcomes: seq<bool>)
      requires open && inFlight == None && |queue| <= |outcomes|
      modifies this, db
      ensures View() == Run(old(View()), Turns(outcomes[..|old(queue)|]))
      ensures queue == [] && inFlight == None
    {
      ghost var start := View();
      var n := 0;
      NoTurns(start, outcomes);
      hide Run, Turns;
      while queue != []
        invariant open && inFlight == None
        invariant n + |queue| == |start.queue|
        invariant View() == Run(start, Turns(outcomes[..n]))
        decreases |queue|
      {
        TurnMore(start, outcomes, n);
        Receive();
        Finish(outcomes[n]);
        n := n + 1;
      }
    }
  }
}
