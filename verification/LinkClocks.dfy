/**
  When `updated_at` goes backwards (`src/db/links.rs`): each write reads the clock
  before its statement runs, so writes of one row may run in another order than
  their readings.
 */
module LinkClocks {
  import opened Options
  import opened Text
  import opened History
  import opened LinkRules
  import opened LinkStore
  import opened LinkRuns

  /** The existing row a step writes, and the reading it writes there. */
  function Writing(s: State, e: Event): Option<(string, Reading)> {
    match e
    case CommitUpdate(op) =>
      if op in s.updates && op in s.clocks then Some((s.updates[op].slug, s.clocks[op])) else None
    case CommitToggle(op) =>
      if op in s.toggles && op in s.clocks then Some((Lower(s.toggles[op].slug), s.clocks[op])) else None
    case _ => None
  }

  /** The reading a committed write of the slug stored. */
  function WriteTo(slug: string): Commit -> Option<Reading> {
    (c: Commit) => if c.slug == slug then Some(c.reading) else None
  }

  /** A write overtakes another when it read the clock after it, and read a later time. */
  predicate Overtakes(w: Reading, mine: Reading) {
    mine.at < w.at && mine.now < w.now
  }

  /** The clock never went back between two readings. */
  predicate InOrder(readings: seq<int>) {
    forall i, j :: 0 <= i <= j < |readings| ==> readings[i] <= readings[j]
  }

  // ---------------------------------------------------------------- readings in the history

  predicate Taken(readings: seq<int>, r: Reading) {
    r.at < |readings| && readings[r.at] == r.now
  }

  predicate Sound(s: State, c: Commit) {
    Taken(s.readings, c.reading) && c.slug in s.links
  }

  predicate LogTaken(s: State) {
    forall i :: 0 <= i < |s.log| ==> Sound(s, s.log[i])
  }

  /** Every reading held or stored was taken, and every logged write has its row. */
  predicate ReadingsKept(s: State) {
    (forall op :: op in s.clocks ==> Taken(s.readings, s.clocks[op])) && LogTaken(s)
  }

  /** At most one more commit, with a reading that was taken and a row that is there; nothing else forgotten. */
  predicate Extends(s: State, r: State) {
    && s.readings <= r.readings
    && s.links.Keys <= r.links.Keys
    && (forall op :: op in r.clocks ==> Taken(r.readings, r.clocks[op]))
    && (r.log == s.log || (|r.log| == |s.log| + 1 && s.log <= r.log && Sound(r, r.log[|s.log|])))
  }

  lemma InsertExtends(s: State, op: nat, slug: string, id: string)
    requires ReadingsKept(s) && op in s.creates && op in s.clocks
    ensures Extends(s, AfterInsert(s, op, slug, id))
  {
    hide LogTaken, RowCheck, Free;
  }

  lemma CommitUpdateExtends(s: State, op: nat)
    requires ReadingsKept(s)
    ensures Extends(s, AfterCommitUpdate(s, op))
  {
    hide LogTaken, RowCheck, ApplyPatch;
  }

  lemma CommitToggleExtends(s: State, op: nat)
    requires ReadingsKept(s)
    ensures Extends(s, AfterCommitToggle(s, op))
  {
    hide LogTaken, ApplyToggle;
  }

  /** Steps that change no row and log nothing. */
  lemma QuietExtends(s: State, r: State)
    requires ReadingsKept(s) && s.links == r.links && s.log == r.log && s.readings <= r.readings
    requires forall op :: op in r.clocks ==>
               (op in s.clocks && r.clocks[op] == s.clocks[op]) || Taken(r.readings, r.clocks[op])
    ensures Extends(s, r)
  {
    hide LogTaken;
  }

  lemma StepExtends(v: UrlValidator, s: State, e: Event)
    requires ReadingsKept(s)
    ensures Extends(s, Step(v, s, e))
  {
    hide ReadingsKept, Extends, PreparePatch, PlanCreate, GenerateSlug;
    hide AfterInsert, AfterCommitUpdate, AfterCommitToggle;
    match e
    case TryInsert(op, draw, id) =>
      if op in s.creates && op in s.clocks && ValidDraw(draw) {
        InsertExtends(s, op, s.creates[op].slug.GetOr(GenerateSlug(draw)), id);
      } else {
        QuietExtends(s, s);
      }
    case CommitUpdate(op) => CommitUpdateExtends(s, op);
    case CommitToggle(op) => CommitToggleExtends(s, op);
    case _ => QuietExtends(s, Step(v, s, e));
  }

  lemma ExtensionKept(s: State, r: State)
    requires ReadingsKept(s) && Extends(s, r)
    ensures ReadingsKept(r)
  {
    forall i | 0 <= i < |r.log|
      ensures Sound(r, r.log[i])
    {
      assert i < |s.log| ==> r.log[i] == s.log[i] && Sound(s, s.log[i]);
    }
  }

  lemma {:induction false} RunReadings(v: UrlValidator, events: seq<Event>)
    ensures ReadingsKept(Run(v, EMPTY, events))
  {
    hide Step, Extends, Sound;
    if events != [] {
      var before := Run(v, EMPTY, events[..|events| - 1]);
      RunReadings(v, events[..|events| - 1]);
      StepExtends(v, before, events[|events| - 1]);
      ExtensionKept(before, Step(v, before, events[|events| - 1]));
    }
  }

  /** The clock a row shows is the reading of the last write to it. */
  lemma {:induction false} ClockOfLastWrite(log: seq<Commit>, slug: string)
    ensures var w := LastMention(log, WriteTo(slug));
            LastMention(log, ClockBy(slug)) == match w case Some(r) => Some(r.now) case None => None
  {
    if log != [] {
      ClockOfLastWrite(log[..|log| - 1], slug);
    }
  }

  lemma ShownClock(v: UrlValidator, events: seq<Event>, slug: string)
    ensures var s := Run(v, EMPTY, events);
            slug in s.links ==>
              var w := LastMention(s.log, WriteTo(slug));
              w.Some? && s.links[slug].updatedAt == w.value.now && Taken(s.readings, w.value)
  {
    LastWriterWins(v, events, slug);
    RunReadings(v, events);
    hide Run, LastMention;
    var s := Run(v, EMPTY, events);
    ClockOfLastWrite(s.log, slug);
    LastMentionMeaning(s.log, WriteTo(slug));
  }

  // ---------------------------------------------------------------- when the clock goes back

  lemma UpdateWritesClock(v: UrlValidator, s: State, op: nat, slug: string)
    requires Inv(v, s) && slug in s.links
    ensures var r := AfterCommitUpdate(s, op);
            && slug in r.links
            && r.links[slug].updatedAt == (if op in s.updates && op in s.clocks && s.updates[op].slug == slug
                                           then s.clocks[op].now else s.links[slug].updatedAt)
  {
    if op in s.updates && op in s.clocks {
      PendingPatchFits(v, s, op, s.clocks[op].now);
    }
    hide Inv, RowCheck;
  }

  lemma ToggleWritesClock(s: State, op: nat, slug: string)
    requires slug in s.links
    ensures var r := AfterCommitToggle(s, op);
            && slug in r.links
            && r.links[slug].updatedAt == (if op in s.toggles && op in s.clocks && Lower(s.toggles[op].slug) == slug
                                           then s.clocks[op].now else s.links[slug].updatedAt)
  {
  }

  lemma InsertWritesElsewhere(s: State, op: nat, draw: seq<nat>, id: string, slug: string)
    requires slug in s.links
    ensures var r := AfterTryInsert(s, op, draw, id); slug in r.links && r.links[slug] == s.links[slug]
  {
    if op in s.creates && op in s.clocks && ValidDraw(draw) {
      var own := s.creates[op].slug.GetOr(GenerateSlug(draw));
      InsertedWhereFree(s.links, own, s.creates[op].content, id, s.clocks[op].now);
    }
    hide GenerateSlug, InsertOutcome;
  }

  /** A step changes the clock of the row it writes and of no other row. */
  lemma ClocksAfter(v: UrlValidator, s: State, e: Event, slug: string)
    requires Inv(v, s) && slug in s.links
    ensures var r := Step(v, s, e);
            && slug in r.links
            && r.links[slug].updatedAt
               == match Writing(s, e)
                  case Some((k, reading)) => if k == slug then reading.now else s.links[slug].updatedAt
                  case None => s.links[slug].updatedAt
  {
    hide Inv, AfterCommitUpdate, AfterCommitToggle, AfterTryInsert, PreparePatch, PlanCreate;
    match e
    case CommitUpdate(op) => UpdateWritesClock(v, s, op, slug);
    case CommitToggle(op) => ToggleWritesClock(s, op, slug);
    case TryInsert(op, draw, id) => InsertWritesElsewhere(s, op, draw, id, slug);
    case _ =>
  }

  lemma LawfulRun(v: UrlValidator, events: seq<Event>)
    ensures Inv(v, Run(v, EMPTY, events))
  {
    EmptyInv(v);
    RunKeeps(v, EMPTY, events);
  }

  /**
    In any run whose clock never went back, a step lowers a row's `updated_at`
    exactly when it is an UPDATE of that row by a request that the row's last
    committed write overtook: that write read the clock after this request did,
    read a later time, and committed first. Creates, and writes that do not
    overlap, never lower it.
   */
  lemma UpdatedAtGoesBackWhen(v: UrlValidator, events: seq<Event>, e: Event, slug: string)
    requires var s := Run(v, EMPTY, events); slug in s.links && InOrder(s.readings)
    ensures var s := Run(v, EMPTY, events);
            var r, w, last := Step(v, s, e), Writing(s, e), LastMention(s.log, WriteTo(slug));
            && slug in r.links && last.Some?
            && (r.links[slug].updatedAt < s.links[slug].updatedAt
                <==> w.Some? && w.value.0 == slug && Overtakes(last.value, w.value.1))
  {
    LawfulRun(v, events);
    RunReadings(v, events);
    ShownClock(v, events, slug);
    hide Run, Inv, Step, LastMention, LogTaken;
    ClocksAfter(v, Run(v, EMPTY, events), e, slug);
  }

  /** No two readings show the same time. */
  predicate Strict(readings: seq<int>) {
    forall i, j :: 0 <= i < j < |readings| ==> readings[i] < readings[j]
  }

  /**
    When no two readings show the same time, the order of the readings decides
    alone: an UPDATE lowers the clock exactly when the row's last committed write
    read the clock after it.
   */
  lemma GoesBackByOrder(v: UrlValidator, events: seq<Event>, e: Event, slug: string)
    requires var s := Run(v, EMPTY, events); slug in s.links && Strict(s.readings)
    ensures var s := Run(v, EMPTY, events);
            var r, w, last := Step(v, s, e), Writing(s, e), LastMention(s.log, WriteTo(slug));
            && slug in r.links && last.Some?
            && (r.links[slug].updatedAt < s.links[slug].updatedAt
                <==> w.Some? && w.value.0 == slug && w.value.1.at < last.value.at)
  {
    hide Run, Step, LastMention, LogTaken;
    UpdatedAtGoesBackWhen(v, events, e, slug);
    ShownClock(v, events, slug);
    RunReadings(v, events);
  }

  // ---------------------------------------------------------------- against everything shown before

  /** The log of a prefix of a run is a prefix of its log. */
  lemma {:induction false} LogGrows(v: UrlValidator, events: seq<Event>, k: nat)
    requires k <= |events|
    ensures Run(v, EMPTY, events[..k]).log <= Run(v, EMPTY, events).log
  {
    if k == |events| {
      assert events[..k] == events;
    } else {
      var before := events[..|events| - 1];
      LogGrows(v, before, k);
      assert before[..k] == events[..k];
      RunReadings(v, before);
      hide ReadingsKept, Step;
      StepExtends(v, Run(v, EMPTY, before), events[|events| - 1]);
    }
  }

  /** Every commit of a run was once the last one. */
  lemma {:induction false} OnceLast(v: UrlValidator, events: seq<Event>, i: nat) returns (k: nat)
    requires i < |Run(v, EMPTY, events).log|
    ensures k <= |events| && Run(v, EMPTY, events[..k]).log == Run(v, EMPTY, events).log[..i + 1]
  {
    var log := Run(v, EMPTY, events).log;
    k := |events|;
    if events != [] {
      var before := events[..|events| - 1];
      RunReadings(v, before);
      StepExtends(v, Run(v, EMPTY, before), events[|events| - 1]);
      hide ReadingsKept, Step;
      if i < |Run(v, EMPTY, before).log| {
        k := OnceLast(v, before, i);
        assert before[..k] == events[..k];
        assert Run(v, EMPTY, before).log[..i + 1] == log[..i + 1];
      } else {
        assert events[..k] == events && log[..i + 1] == log;
      }
    }
  }

  lemma ShownWasWritten(v: UrlValidator, events: seq<Event>, k: nat, slug: string) returns (i: nat)
    requires k <= |events| && slug in Run(v, EMPTY, events[..k]).links
    ensures var s := Run(v, EMPTY, events);
            && i < |s.log| && s.log[i].slug == slug
            && s.log[i].reading.now == Run(v, EMPTY, events[..k]).links[slug].updatedAt
  {
    hide Run, LastMention;
    var early, s := Run(v, EMPTY, events[..k]), Run(v, EMPTY, events);
    LogGrows(v, events, k);
    ShownClock(v, events[..k], slug);
    LastMentionMeaning(early.log, WriteTo(slug));
    i :| 0 <= i < |early.log| && WriteTo(slug)(early.log[i]) == LastMention(early.log, WriteTo(slug));
    assert s.log[i] == early.log[i];
  }

  lemma WrittenWasShown(v: UrlValidator, events: seq<Event>, i: nat, slug: string) returns (k: nat)
    requires i < |Run(v, EMPTY, events).log| && Run(v, EMPTY, events).log[i].slug == slug
    ensures k <= |events| && slug in Run(v, EMPTY, events[..k]).links
    ensures Run(v, EMPTY, events[..k]).links[slug].updatedAt == Run(v, EMPTY, events).log[i].reading.now
  {
    hide Run;
    k := OnceLast(v, events, i);
    var early := Run(v, EMPTY, events[..k]);
    RunReadings(v, events[..k]);
    ShownClock(v, events[..k], slug);
    assert early.log[i] == Run(v, EMPTY, events).log[i] && i == |early.log| - 1;
    assert early.log[i].slug in early.links;
    assert WriteTo(slug)(early.log[i]).Some?;
  }

  lemma ReadingHeld(v: UrlValidator, events: seq<Event>, e: Event)
    ensures var s := Run(v, EMPTY, events); Writing(s, e).Some? ==> Taken(s.readings, Writing(s, e).value.1)
  {
    RunReadings(v, events);
    hide Run, LogTaken;
  }

  lemma OvertakesLater(w: Reading, mine: Reading)
    requires Overtakes(w, mine)
    ensures mine.now < w.now
  {
  }

  /** A clock shown before and later than this reading was written by a request that overtook it. */
  lemma OlderIsOvertaken(v: UrlValidator, events: seq<Event>, mine: Reading, k: nat, slug: string) returns (i: nat)
    requires k <= |events| && slug in Run(v, EMPTY, events[..k]).links
    requires Run(v, EMPTY, events[..k]).links[slug].updatedAt > mine.now
    requires var readings := Run(v, EMPTY, events).readings; InOrder(readings) && Taken(readings, mine)
    ensures var s := Run(v, EMPTY, events);
            i < |s.log| && s.log[i].slug == slug && Overtakes(s.log[i].reading, mine)
  {
    RunReadings(v, events);
    hide Run;
    i := ShownWasWritten(v, events, k, slug);
    assert Sound(Run(v, EMPTY, events), Run(v, EMPTY, events).log[i]);
  }

  /**
    In any run whose clock never went back, an UPDATE leaves its row with a clock
    older than one the row has shown before exactly when some committed write to
    the row overtook it, whether or not that write was the last.
   */
  lemma ShowsOlderClockWhen(v: UrlValidator, events: seq<Event>, e: Event, slug: string)
    requires var s := Run(v, EMPTY, events);
             slug in s.links && InOrder(s.readings) && Writing(s, e).Some? && Writing(s, e).value.0 == slug
    ensures var s := Run(v, EMPTY, events);
            var r, mine := Step(v, s, e), Writing(s, e).value.1;
            && slug in r.links
            && ((exists k :: && 0 <= k <= |events| && slug in Run(v, EMPTY, events[..k]).links
                             && Run(v, EMPTY, events[..k]).links[slug].updatedAt > r.links[slug].updatedAt)
                <==> exists i :: 0 <= i < |s.log| && s.log[i].slug == slug && Overtakes(s.log[i].reading, mine))
  {
    hide Run, Step, Inv, ReadingsKept, Overtakes;
    var s := Run(v, EMPTY, events);
    var r, mine := Step(v, s, e), Writing(s, e).value.1;
    LawfulRun(v, events);
    ReadingHeld(v, events, e);
    ClocksAfter(v, s, e, slug);
    if k :| && 0 <= k <= |events| && slug in Run(v, EMPTY, events[..k]).links
            && Run(v, EMPTY, events[..k]).links[slug].updatedAt > r.links[slug].updatedAt {
      var i := OlderIsOvertaken(v, events, mine, k, slug);
    }
    if i :| 0 <= i < |s.log| && s.log[i].slug == slug && Overtakes(s.log[i].reading, mine) {
      var k := WrittenWasShown(v, events, i, slug);
      OvertakesLater(s.log[i].reading, mine);
      assert Run(v, EMPTY, events[..k]).links[slug].updatedAt > r.links[slug].updatedAt;
    }
  }

  // ---------------------------------------------------------------- it does happen

  lemma CommitWritesClock(v: UrlValidator, s: State, slug: string, op: nat)
    requires Inv(v, s) && slug in s.links && op in s.updates && op in s.clocks && s.updates[op].slug == slug
    ensures var r := Step(v, s, CommitUpdate(op));
            Inv(v, r) && slug in r.links && r.links[slug].updatedAt == s.clocks[op].now
  {
    hide Inv, Step;
    StepKeeps(v, s, CommitUpdate(op));
    ClocksAfter(v, s, CommitUpdate(op), slug);
  }

  lemma OtherUpdateWaits(v: UrlValidator, s: State, a: nat, b: nat)
    requires a != b && a in s.updates && a in s.clocks
    ensures var r := Step(v, s, CommitUpdate(b));
            && a in r.updates && r.updates[a] == s.updates[a]
            && a in r.clocks && r.clocks[a] == s.clocks[a]
  {
    hide PatchOutcome, AfterTryInsert, AfterBeginCreate, AfterBeginUpdate, AfterCommitToggle, AfterReadClock;
  }

  /** An update of the row, its clock read. */
  predicate Ready(s: State, op: nat, slug: string, now: int) {
    op in s.updates && op in s.clocks && s.updates[op].slug == slug && s.clocks[op].now == now
  }

  /** Two updates that commit in the other order than they read take the row's clock back to the earlier reading. */
  lemma OvertakenCommitLowers(v: UrlValidator, s: State, slug: string, a: nat, b: nat, t: int, u: int)
    requires Inv(v, s) && slug in s.links && a != b && Ready(s, a, slug, t) && Ready(s, b, slug, u)
    ensures var s1 := Step(v, s, CommitUpdate(b));
            var s2 := Step(v, s1, CommitUpdate(a));
            && slug in s1.links && s1.links[slug].updatedAt == u
            && slug in s2.links && s2.links[slug].updatedAt == t
  {
    hide Inv, Step;
    var s1 := Step(v, s, CommitUpdate(b));
    OtherUpdateWaits(v, s, a, b);
    CommitWritesClock(v, s, slug, b);
    CommitWritesClock(v, s1, slug, a);
  }

  /**
    That some committed write overtook an UPDATE is not enough to lower the
    clock: with readings `t < u < w` committed as `w`, `t`, `u`, the last commit
    was overtaken by the first and yet raises the clock.
   */
  lemma OvertakenCommitRaises(v: UrlValidator, s: State, slug: string, a: nat, b: nat, c: nat, t: int, u: int, w: int)
    requires Inv(v, s) && slug in s.links && a != b && b != c && a != c && t < u < w
    requires Ready(s, a, slug, t) && Ready(s, b, slug, u) && Ready(s, c, slug, w) && s.clocks[b].at < s.clocks[c].at
    ensures Overtakes(s.clocks[c], s.clocks[b])
    ensures var s1 := Step(v, s, CommitUpdate(c));
            var s2 := Step(v, s1, CommitUpdate(a));
            var s3 := Step(v, s2, CommitUpdate(b));
            && slug in s1.links && s1.links[slug].updatedAt == w
            && slug in s2.links && slug in s3.links && s2.links[slug].updatedAt < s3.links[slug].updatedAt == u < w
  {
    hide Inv, Step;
    var s1 := Step(v, s, CommitUpdate(c));
    OtherUpdateWaits(v, s, a, c);
    OtherUpdateWaits(v, s, b, c);
    OtherUpdateWaits(v, s1, b, a);
    CommitWritesClock(v, s, slug, c);
    CommitWritesClock(v, s1, slug, a);
    CommitWritesClock(v, Step(v, s1, CommitUpdate(a)), slug, b);
  }

  const CLEAR_LABEL: UpdateInput := UpdateInput(None, None, Some(None), None)

  lemma ClearBegins(v: UrlValidator, s: State, op: nat, slug: string, now: int)
    requires RowsOk(v, s.links) && Fresh(s, op) && slug in s.links
    ensures Step(v, s, BeginUpdate(op, slug, CLEAR_LABEL, now))
            == s.(updates := s.updates[op := PendingUpdate(slug, CLEAR_LABEL, Patch(None, None, Some(None), None))])
  {
    assert s.links[slug].slug == slug && NormalSlug(slug);
    NormalIsLower(slug);
    hide RowsOk, NormalSlug, RowOk, Pending;
  }

  lemma ClockRead(v: UrlValidator, s: State, op: nat, slug: string, now: int)
    requires op in s.updates && s.updates[op].slug == slug && op !in s.clocks
    ensures var r := Step(v, s, ReadClock(op, now));
            && r == s.(clocks := s.clocks[op := Reading(|s.readings|, now)], readings := s.readings + [now])
            && Ready(r, op, slug, now)
  {
  }

  /** Everything but the one operation is as it was. */
  ghost predicate OnlyPrepares(s: State, r: State, op: nat) {
    && r == s.(updates := r.updates, clocks := r.clocks, readings := r.readings)
    && (forall o :: o != op ==> (o in r.updates <==> o in s.updates) && (o in r.clocks <==> o in s.clocks))
    && (forall o :: o != op && o in s.updates ==> r.updates[o] == s.updates[o])
    && (forall o :: o != op && o in s.clocks ==> r.clocks[o] == s.clocks[o])
  }

  lemma AddsOneUpdate(s: State, r: State, op: nat, u: PendingUpdate, reading: Reading)
    requires r == s.(updates := s.updates[op := u], clocks := s.clocks[op := reading], readings := r.readings)
    ensures OnlyPrepares(s, r, op)
  {
  }

  /** A request that clears the label, up to its UPDATE. */
  lemma Prepared(v: UrlValidator, s: State, op: nat, slug: string, now: int) returns (r: State)
    requires Inv(v, s) && Fresh(s, op) && slug in s.links
    ensures r == Step(v, Step(v, s, BeginUpdate(op, slug, CLEAR_LABEL, now)), ReadClock(op, now))
    ensures Inv(v, r) && slug in r.links && Ready(r, op, slug, now)
    ensures OnlyPrepares(s, r, op)
  {
    assert RowsOk(v, s.links) && op !in s.clocks;
    hide Inv, Step, RowsOk, Ready, Fresh, Descends, OnlyPrepares;
    ClearBegins(v, s, op, slug, now);
    var s1 := Step(v, s, BeginUpdate(op, slug, CLEAR_LABEL, now));
    StepKeeps(v, s, BeginUpdate(op, slug, CLEAR_LABEL, now));
    ClockRead(v, s1, op, slug, now);
    StepKeeps(v, s1, ReadClock(op, now));
    r := Step(v, s1, ReadClock(op, now));
    AddsOneUpdate(s, r, op, r.updates[op], r.clocks[op]);
  }

  /** Two updates of one row, read as `t` then `u`, committed the other way round. */
  function Overtaking(slug: string, a: nat, b: nat, t: int, u: int): seq<Event> {
    [BeginUpdate(a, slug, CLEAR_LABEL, t), ReadClock(a, t), BeginUpdate(b, slug, CLEAR_LABEL, u), ReadClock(b, u),
     CommitUpdate(b), CommitUpdate(a)]
  }

  lemma RunNext(v: UrlValidator, s: State, events: seq<Event>, i: nat)
    requires i < |events|
    ensures Run(v, s, events[..i + 1]) == Step(v, Run(v, s, events[..i]), events[i])
  {
    assert events[..i + 1][..i] == events[..i];
  }

  lemma RunOfSix(v: UrlValidator, s: State, events: seq<Event>)
    requires |events| == 6
    ensures var s2 := Step(v, Step(v, s, events[0]), events[1]);
            var s5 := Step(v, Step(v, Step(v, s2, events[2]), events[3]), events[4]);
            Run(v, s, events[..5]) == s5 && Run(v, s, events) == Step(v, s5, events[5])
  {
    hide Step;
    assert Run(v, s, events[..0]) == s;
    RunNext(v, s, events, 0);
    RunNext(v, s, events, 1);
    RunNext(v, s, events, 2);
    RunNext(v, s, events, 3);
    RunNext(v, s, events, 4);
    RunNext(v, s, events, 5);
    assert events[..6] == events;
  }

  /** So `updated_at` is not monotone: from any lawful state, any row can be taken from `u` back to `t < u`. */
  lemma UpdatedAtGoesBack(v: UrlValidator, s: State, slug: string, a: nat, b: nat, t: int, u: int)
    requires Inv(v, s) && slug in s.links && Fresh(s, a) && Fresh(s, b) && a != b && t < u
    ensures var events := Overtaking(slug, a, b, t, u);
            && slug in Run(v, s, events[..5]).links && Run(v, s, events[..5]).links[slug].updatedAt == u
            && slug in Run(v, s, events).links && Run(v, s, events).links[slug].updatedAt == t
  {
    RunOfSix(v, s, Overtaking(slug, a, b, t, u));
    hide Inv, Step, Run;
    var s2 := Prepared(v, s, a, slug, t);
    var s4 := Prepared(v, s2, b, slug, u);
    OvertakenCommitLowers(v, s4, slug, a, b, t, u);
  }
}
