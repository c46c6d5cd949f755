/**
  Requests and what became of them (`src/db/links.rs`): every committed write is
  what some request asked for, and a request nobody interrupts does what its
  operation does.
 */
module LinkRequests {
  import opened Options
  import opened Text
  import opened LinkRules
  import opened LinkStore
  import opened LinkRuns

  // ---------------------------------------------------------------- one step and the log

  /** What a step adds to the log: the request behind it and the reading it wrote, if it changed a row. */
  function Logged(s: State, e: Event): seq<Commit> {
    match e
    case TryInsert(op, draw, id) =>
      if op in s.creates && op in s.clocks && ValidDraw(draw) then
        var slug := s.creates[op].slug.GetOr(GenerateSlug(draw));
        if Free(s.links, slug, id) then [Created(slug, id, s.creates[op].input, s.clocks[op])] else []
      else []
    case CommitUpdate(op) =>
      if op in s.updates && op in s.clocks then [Patched(s.updates[op].slug, s.updates[op].input, s.clocks[op])] else []
    case CommitToggle(op) =>
      if op in s.toggles && op in s.clocks && Lower(s.toggles[op].slug) in s.links then
        [Toggled(Lower(s.toggles[op].slug), s.toggles[op].disabled, s.clocks[op])]
      else []
    case _ => []
  }

  lemma InsertIfFree(v: UrlValidator, s: State, op: nat, slug: string, id: string, now: int)
    requires Inv(v, s) && op in s.creates && NormalSlug(slug)
    ensures InsertOutcome(s.links, slug, s.creates[op].content, id, now)
            == if Free(s.links, slug, id) then Ok(NewRow(slug, s.creates[op].content, id, now)) else Err(Conflict)
  {
    assert CreatesFit(v, s);
    hide Inv, ContentOk, NormalSlug, RowOk, RowCheck, Free;
    NewRowOk(v, s.creates[op].content, slug, id, now);
  }

  /** The slug an INSERT would use is a normal one. */
  lemma InsertSlug(v: UrlValidator, s: State, op: nat, draw: seq<nat>)
    requires Inv(v, s) && op in s.creates && ValidDraw(draw)
    ensures NormalSlug(s.creates[op].slug.GetOr(GenerateSlug(draw)))
  {
    assert CreatesFit(v, s);
    GeneratedIsNormal(draw);
    NormalizeMeaning(GenerateSlug(draw));
    hide Inv, NormalSlug, GenerateSlug;
  }

  lemma QuietLog(v: UrlValidator, s: State, e: Event)
    requires !e.TryInsert? && !e.CommitUpdate? && !e.CommitToggle?
    ensures Step(v, s, e).log == s.log
  {
    hide PlanCreate, PreparePatch, GetLink;
  }

  lemma InsertLogs(v: UrlValidator, s: State, op: nat, draw: seq<nat>, id: string)
    requires Inv(v, s) && op in s.creates && op in s.clocks && ValidDraw(draw)
    ensures AfterTryInsert(s, op, draw, id).log == s.log + Logged(s, TryInsert(op, draw, id))
  {
    var slug := s.creates[op].slug.GetOr(GenerateSlug(draw));
    InsertSlug(v, s, op, draw);
    InsertIfFree(v, s, op, slug, id, s.clocks[op].now);
    hide Inv, NormalSlug, GenerateSlug, InsertOutcome, Free;
  }

  lemma CommitUpdateLogs(v: UrlValidator, s: State, op: nat)
    requires Inv(v, s)
    ensures AfterCommitUpdate(s, op).log == s.log + Logged(s, CommitUpdate(op))
  {
    if op in s.updates && op in s.clocks {
      PendingPatchFits(v, s, op, s.clocks[op].now);
    }
    hide Inv, PatchOutcome;
  }

  lemma CommitToggleLogs(s: State, op: nat)
    ensures AfterCommitToggle(s, op).log == s.log + Logged(s, CommitToggle(op))
  {
  }

  /** In a lawful state an INSERT succeeds exactly when slug and id are free, and an UPDATE whenever its row exists. */
  lemma StepLogs(v: UrlValidator, s: State, e: Event)
    requires Inv(v, s)
    ensures Step(v, s, e).log == s.log + Logged(s, e)
  {
    hide Inv, AfterCommitUpdate, AfterCommitToggle, AfterInsert;
    match e
    case TryInsert(op, draw, id) =>
      if op in s.creates && op in s.clocks && ValidDraw(draw) {
        InsertLogs(v, s, op, draw, id);
      }
    case CommitUpdate(op) => CommitUpdateLogs(v, s, op);
    case CommitToggle(op) => CommitToggleLogs(s, op);
    case _ => QuietLog(v, s, e);
  }

  // ---------------------------------------------------------------- every write was asked for

  ghost predicate AskedCreate(events: seq<Event>, op: nat, input: CreateInput) {
    exists at :: BeginCreate(op, input, at) in events
  }

  ghost predicate AskedUpdate(events: seq<Event>, op: nat, slug: string, input: UpdateInput) {
    exists raw, at :: BeginUpdate(op, raw, input, at) in events && Lower(raw) == slug
  }

  ghost predicate AskedToggle(events: seq<Event>, op: nat, slug: string, disabled: bool) {
    exists raw :: BeginToggle(op, raw, disabled) in events && Lower(raw) == slug
  }

  /** Some request of the run asked for exactly this write. */
  ghost predicate Asked(events: seq<Event>, c: Commit) {
    match c
    case Created(slug, _, input, _) =>
      (exists op :: AskedCreate(events, op, input)) && (HasCustom(input) ==> slug == Lower(input.customSlug.value))
    case Patched(slug, input, _) => exists op :: AskedUpdate(events, op, slug, input)
    case Toggled(slug, disabled, _) => exists op :: AskedToggle(events, op, slug, disabled)
  }

  /** What is pending was asked for. */
  ghost predicate PendingAsked(events: seq<Event>, s: State) {
    && (forall op :: op in s.creates ==>
          && AskedCreate(events, op, s.creates[op].input)
          && (HasCustom(s.creates[op].input) ==>
                s.creates[op].slug == Some(Lower(s.creates[op].input.customSlug.value))))
    && (forall op :: op in s.updates ==> AskedUpdate(events, op, s.updates[op].slug, s.updates[op].input))
    && (forall op :: op in s.toggles ==> AskedToggle(events, op, Lower(s.toggles[op].slug), s.toggles[op].disabled))
  }

  lemma StillAsked(events: seq<Event>, e: Event, s: State)
    requires PendingAsked(events, s)
    ensures PendingAsked(events + [e], s)
  {
    forall op | op in s.creates
      ensures AskedCreate(events + [e], op, s.creates[op].input)
    {
      var at :| BeginCreate(op, s.creates[op].input, at) in events;
      assert BeginCreate(op, s.creates[op].input, at) in events + [e];
    }
    forall op | op in s.updates
      ensures AskedUpdate(events + [e], op, s.updates[op].slug, s.updates[op].input)
    {
      var raw, at :| BeginUpdate(op, raw, s.updates[op].input, at) in events && Lower(raw) == s.updates[op].slug;
      assert BeginUpdate(op, raw, s.updates[op].input, at) in events + [e];
    }
    forall op | op in s.toggles
      ensures AskedToggle(events + [e], op, Lower(s.toggles[op].slug), s.toggles[op].disabled)
    {
      var raw :| BeginToggle(op, raw, s.toggles[op].disabled) in events && Lower(raw) == Lower(s.toggles[op].slug);
      assert BeginToggle(op, raw, s.toggles[op].disabled) in events + [e];
    }
  }

  lemma StillAskedCommit(events: seq<Event>, e: Event, c: Commit)
    requires Asked(events, c)
    ensures Asked(events + [e], c)
  {
    match c
    case Created(slug, _, input, _) =>
      var op :| AskedCreate(events, op, input);
      var at :| BeginCreate(op, input, at) in events;
      assert BeginCreate(op, input, at) in events + [e];
      assert AskedCreate(events + [e], op, input);
    case Patched(slug, input, _) =>
      var op :| AskedUpdate(events, op, slug, input);
      var raw, at :| BeginUpdate(op, raw, input, at) in events && Lower(raw) == slug;
      assert BeginUpdate(op, raw, input, at) in events + [e];
      assert AskedUpdate(events + [e], op, slug, input);
    case Toggled(slug, disabled, _) =>
      var op :| AskedToggle(events, op, slug, disabled);
      var raw :| BeginToggle(op, raw, disabled) in events && Lower(raw) == slug;
      assert BeginToggle(op, raw, disabled) in events + [e];
      assert AskedToggle(events + [e], op, slug, disabled);
  }

  lemma PlannedSlug(v: UrlValidator, input: CreateInput, now: int)
    ensures var p := PlanCreate(v, input, now);
            p.Ok? ==> && p.value.input == input
                      && (HasCustom(input) ==> p.value.slug == Some(Lower(input.customSlug.value)))
                      && (!HasCustom(input) ==> p.value.slug == None)
  {
    hide PrepareCreate;
    if input.customSlug.Some? {
      BlankMeaning(input.customSlug.value);
      CustomSlugMeaning(input.customSlug.value);
    }
    hide Blank, Trim, NormalizeCustomSlug, NormalSlug;
  }

  lemma BeginCreateAsked(v: UrlValidator, events: seq<Event>, s: State, op: nat, input: CreateInput, at: int)
    requires PendingAsked(events, s)
    ensures PendingAsked(events + [BeginCreate(op, input, at)], AfterBeginCreate(v, s, op, input, at))
  {
    var e := BeginCreate(op, input, at);
    StillAsked(events, e, s);
    PlannedSlug(v, input, at);
    hide PlanCreate, HasCustom, AskedUpdate, AskedToggle;
    assert e in events + [e];
  }

  lemma BeginUpdateAsked(v: UrlValidator, events: seq<Event>, s: State, op: nat, slug: string, input: UpdateInput,
                         at: int)
    requires PendingAsked(events, s) && Keyed(s.links)
    ensures PendingAsked(events + [BeginUpdate(op, slug, input, at)], AfterBeginUpdate(v, s, op, slug, input, at))
  {
    var e := BeginUpdate(op, slug, input, at);
    StillAsked(events, e, s);
    hide PreparePatch, HasCustom, AskedCreate, AskedToggle;
    assert e in events + [e];
  }

  lemma BeginToggleAsked(events: seq<Event>, s: State, op: nat, slug: string, disabled: bool)
    requires PendingAsked(events, s)
    ensures PendingAsked(events + [BeginToggle(op, slug, disabled)], AfterBeginToggle(s, op, slug, disabled))
  {
    var e := BeginToggle(op, slug, disabled);
    StillAsked(events, e, s);
    hide HasCustom, AskedCreate, AskedUpdate;
    assert e in events + [e];
  }

  /** Pending requests are dropped or use up a try, but are none that were not there, nor others. */
  predicate OnlyDrops(s: State, r: State) {
    && (forall op :: op in r.creates ==>
          && op in s.creates
          && r.creates[op].input == s.creates[op].input && r.creates[op].slug == s.creates[op].slug)
    && (forall op :: op in r.updates ==> op in s.updates && r.updates[op] == s.updates[op])
    && (forall op :: op in r.toggles ==> op in s.toggles && r.toggles[op] == s.toggles[op])
  }

  lemma InsertOnlyDrops(s: State, op: nat, draw: seq<nat>, id: string)
    ensures OnlyDrops(s, AfterTryInsert(s, op, draw, id))
  {
    hide GenerateSlug, InsertOutcome;
  }

  lemma CommitsOnlyDrop(s: State, op: nat)
    ensures OnlyDrops(s, AfterCommitUpdate(s, op))
    ensures OnlyDrops(s, AfterCommitToggle(s, op))
  {
    hide PatchOutcome, ToggleOutcome;
  }

  lemma OthersUnchanged(s: State, op: nat, now: int)
    ensures OnlyDrops(s, AfterReadClock(s, op, now)) && OnlyDrops(s, AfterAbandon(s, op))
  {
  }

  lemma OthersOnlyDrop(v: UrlValidator, s: State, e: Event)
    requires !e.BeginCreate? && !e.BeginUpdate? && !e.BeginToggle?
    ensures OnlyDrops(s, Step(v, s, e))
  {
    hide AfterTryInsert, AfterCommitUpdate, AfterCommitToggle, OnlyDrops;
    match e
    case TryInsert(op, draw, id) => InsertOnlyDrops(s, op, draw, id);
    case CommitUpdate(op) => CommitsOnlyDrop(s, op);
    case CommitToggle(op) => CommitsOnlyDrop(s, op);
    case ReadClock(op, now) => OthersUnchanged(s, op, now);
    case Abandon(op) => OthersUnchanged(s, op, 0);
  }

  lemma PendingStep(v: UrlValidator, events: seq<Event>, s: State, e: Event)
    requires PendingAsked(events, s) && Keyed(s.links)
    ensures PendingAsked(events + [e], Step(v, s, e))
  {
    StillAsked(events, e, s);
    match e
    case BeginCreate(op, input, at) => BeginCreateAsked(v, events, s, op, input, at);
    case BeginUpdate(op, slug, input, at) => BeginUpdateAsked(v, events, s, op, slug, input, at);
    case BeginToggle(op, slug, disabled) => BeginToggleAsked(events, s, op, slug, disabled);
    case _ =>
      OthersOnlyDrop(v, s, e);
      hide Step, AskedCreate, AskedUpdate, AskedToggle, HasCustom;
  }

  lemma LoggedAsked(events: seq<Event>, s: State, e: Event)
    requires PendingAsked(events, s)
    ensures forall i :: 0 <= i < |Logged(s, e)| ==> Asked(events, Logged(s, e)[i])
  {
    hide GenerateSlug, Free, AskedCreate, AskedUpdate, AskedToggle, HasCustom;
  }

  lemma StoreKeyed(v: UrlValidator, events: seq<Event>)
    ensures Inv(v, Run(v, EMPTY, events)) && Keyed(Run(v, EMPTY, events).links)
  {
    EmptyInv(v);
    RunKeeps(v, EMPTY, events);
    hide Run, RowOk, IdsDistinct, UpdatesFit, CreatesFit, LogExplains;
  }

  lemma NothingPending()
    ensures PendingAsked([], EMPTY)
  {
  }

  /**
    Every committed write of a run is what one of its requests asked for: the
    content or the fields as they came in, the flag, and the slug in lower case.
   */
  lemma {:induction false} WritesWereAsked(v: UrlValidator, events: seq<Event>)
    ensures var s := Run(v, EMPTY, events);
            && PendingAsked(events, s)
            && forall i :: 0 <= i < |s.log| ==> Asked(events, s.log[i])
  {
    hide Inv, Step, Asked, PendingAsked, Logged;
    if events == [] {
      NothingPending();
    } else {
      var before, e := events[..|events| - 1], events[|events| - 1];
      var s := Run(v, EMPTY, before);
      WritesWereAsked(v, before);
      StoreKeyed(v, before);
      assert events == before + [e];
      PendingStep(v, before, s, e);
      StepLogs(v, s, e);
      LoggedAsked(before, s, e);
      forall i | 0 <= i < |Step(v, s, e).log|
        ensures Asked(events, Step(v, s, e).log[i])
      {
        StillAskedCommit(before, e, (s.log + Logged(s, e))[i]);
      }
    }
  }

  // ---------------------------------------------------------------- requests nobody interrupts

  lemma RunStep(v: UrlValidator, s: State, e: Event, rest: seq<Event>)
    ensures Run(v, s, [e] + rest) == Run(v, Step(v, s, e), rest)
  {
    RunConcat(v, s, [e], rest);
    assert [e][..0] == [];
    hide Step;
    assert Run(v, s, [e]) == Step(v, Run(v, s, []), e);
  }

  lemma RunOfThree(v: UrlValidator, s: State, a: Event, b: Event, c: Event)
    ensures Run(v, s, [a, b, c]) == Step(v, Step(v, Step(v, s, a), b), c)
  {
    hide Step;
    assert [a, b, c] == [a] + ([b] + ([c] + []));
    RunStep(v, s, a, [b] + ([c] + []));
    RunStep(v, Step(v, s, a), b, [c] + []);
    RunStep(v, Step(v, Step(v, s, a), b), c, []);
  }

  lemma UpdateBegins(v: UrlValidator, s: State, op: nat, slug: string, input: UpdateInput, checkedAt: int)
    requires Keyed(s.links) && Fresh(s, op)
    ensures var r := Step(v, s, BeginUpdate(op, slug, input, checkedAt));
            if Lower(slug) in s.links && PreparePatch(v, input, s.links[Lower(slug)].text.Some?, checkedAt).Ok? then
              var patch := PreparePatch(v, input, s.links[Lower(slug)].text.Some?, checkedAt).value;
              r == s.(updates := s.updates[op := PendingUpdate(Lower(slug), input, patch)])
            else r == s
  {
    hide PreparePatch;
  }

  lemma UpdateEnds(v: UrlValidator, s: State, op: nat, now: int)
    requires op in s.updates && op !in s.clocks && Keyed(s.links)
    ensures Step(v, Step(v, s, ReadClock(op, now)), CommitUpdate(op)).links
            == Stored(s.links, PatchOutcome(s.links, s.updates[op].slug, s.updates[op].patch, now))
  {
    hide RowCheck;
  }

  lemma NothingToEnd(v: UrlValidator, s: State, op: nat, now: int)
    requires Fresh(s, op)
    ensures Step(v, Step(v, s, ReadClock(op, now)), CommitUpdate(op)) == s
  {
  }

  /** An update nobody interrupts. */
  lemma UpdateAlone(v: UrlValidator, s: State, op: nat, slug: string, input: UpdateInput, checkedAt: int, now: int)
    requires Keyed(s.links) && Fresh(s, op)
    ensures Run(v, s, [BeginUpdate(op, slug, input, checkedAt), ReadClock(op, now), CommitUpdate(op)]).links
            == Stored(s.links, UpdateOutcome(v, s.links, slug, input, checkedAt, now))
  {
    RunOfThree(v, s, BeginUpdate(op, slug, input, checkedAt), ReadClock(op, now), CommitUpdate(op));
    UpdateBegins(v, s, op, slug, input, checkedAt);
    hide Run, Step, PreparePatch, PatchOutcome;
    var r := Step(v, s, BeginUpdate(op, slug, input, checkedAt));
    if op in r.updates {
      UpdateEnds(v, r, op, now);
    } else {
      NothingToEnd(v, s, op, now);
    }
  }

  /** A toggle nobody interrupts. */
  lemma ToggleAlone(v: UrlValidator, s: State, op: nat, slug: string, disabled: bool, now: int)
    requires Keyed(s.links) && Fresh(s, op)
    ensures Run(v, s, [BeginToggle(op, slug, disabled), ReadClock(op, now), CommitToggle(op)]).links
            == Stored(s.links, ToggleOutcome(s.links, slug, disabled, now))
  {
    RunOfThree(v, s, BeginToggle(op, slug, disabled), ReadClock(op, now), CommitToggle(op));
    hide Run;
  }

  /** The readings and INSERTs of a create, one pair per try. */
  function Attempts(op: nat, tries: seq<Try>): seq<Event> {
    if tries == [] then []
    else [ReadClock(op, tries[0].now)] + ([TryInsert(op, tries[0].draw, tries[0].id)] + Attempts(op, tries[1..]))
  }

  /** A create that has ended ignores what is left of its tries. */
  lemma {:induction false} EndedIgnores(v: UrlValidator, s: State, op: nat, tries: seq<Try>)
    requires !Pending(s, op)
    ensures Run(v, s, Attempts(op, tries)) == s
  {
    if tries != [] {
      var rest := Attempts(op, tries[1..]);
      RunStep(v, s, ReadClock(op, tries[0].now), [TryInsert(op, tries[0].draw, tries[0].id)] + rest);
      RunStep(v, s, TryInsert(op, tries[0].draw, tries[0].id), rest);
      hide Run;
      EndedIgnores(v, s, op, tries[1..]);
    }
  }

  /** A create between two tries. */
  predicate Waiting(s: State, op: nat) {
    op in s.creates && op !in s.clocks && op !in s.updates && op !in s.toggles
  }

  lemma ClockForTry(v: UrlValidator, s: State, op: nat, now: int)
    requires Waiting(s, op)
    ensures Step(v, s, ReadClock(op, now))
            == s.(clocks := s.clocks[op := Reading(|s.readings|, now)], readings := s.readings + [now])
  {
  }

  /** One try: the clock, then the INSERT. */
  lemma OneTry(v: UrlValidator, s: State, op: nat, t: Try)
    requires Waiting(s, op) && ValidDraw(t.draw)
    ensures var r := Step(v, Step(v, s, ReadClock(op, t.now)), TryInsert(op, t.draw, t.id));
            var p := s.creates[op];
            var out := InsertOutcome(s.links, p.slug.GetOr(GenerateSlug(t.draw)), p.content, t.id, t.now);
            && r.links == Stored(s.links, out)
            && (if out == Err(Conflict) && p.triesLeft > 1
                then Waiting(r, op) && r.creates[op] == p.(triesLeft := p.triesLeft - 1)
                else !Pending(r, op))
  {
    var p := s.creates[op];
    ClockForTry(v, s, op, t.now);
    var s1 := Step(v, s, ReadClock(op, t.now));
    assert Step(v, s1, TryInsert(op, t.draw, t.id)) == AfterTryInsert(s1, op, t.draw, t.id);
    hide Step;
    InsertedWhereFree(s.links, p.slug.GetOr(GenerateSlug(t.draw)), p.content, t.id, t.now);
    hide GenerateSlug, InsertOutcome;
  }

  /** With tries for as many conflicts as are allowed, the first decisive one decides. */
  lemma {:induction false} TriesAlone(v: UrlValidator, s: State, op: nat, tries: seq<Try>)
    requires Waiting(s, op)
    requires s.creates[op].slug == None && s.creates[op].triesLeft == |tries| > 0
    requires forall i :: 0 <= i < |tries| ==> ValidDraw(tries[i].draw)
    ensures Run(v, s, Attempts(op, tries)).links
            == Stored(s.links, FirstDecisive(s.links, s.creates[op].content, tries))
    decreases tries
  {
    var t, rest := tries[0], tries[1..];
    var s1 := Step(v, s, ReadClock(op, t.now));
    var r := Step(v, s1, TryInsert(op, t.draw, t.id));
    RunStep(v, s, ReadClock(op, t.now), [TryInsert(op, t.draw, t.id)] + Attempts(op, rest));
    RunStep(v, s1, TryInsert(op, t.draw, t.id), Attempts(op, rest));
    OneTry(v, s, op, t);
    hide Run, Step, InsertOutcome, GenerateSlug;
    if Pending(r, op) {
      TriesAlone(v, r, op, rest);
    } else {
      EndedIgnores(v, r, op, rest);
    }
  }

  lemma CustomAlone(v: UrlValidator, s: State, op: nat, once: Try)
    requires Waiting(s, op) && ValidDraw(once.draw)
    requires s.creates[op].slug.Some? && s.creates[op].triesLeft == 1
    ensures Run(v, s, Attempts(op, [once])).links
            == Stored(s.links, InsertOutcome(s.links, s.creates[op].slug.value, s.creates[op].content,
                                             once.id, once.now))
  {
    var s1 := Step(v, s, ReadClock(op, once.now));
    RunStep(v, s, ReadClock(op, once.now), [TryInsert(op, once.draw, once.id)] + []);
    RunStep(v, s1, TryInsert(op, once.draw, once.id), []);
    OneTry(v, s, op, once);
    hide Step, InsertOutcome, GenerateSlug;
  }

  /** A create nobody interrupts, with a clock reading and an id for each of its INSERTs. */
  lemma CreateAlone(v: UrlValidator, s: State, op: nat, input: CreateInput, now: int, once: Try, tries: seq<Try>)
    requires Fresh(s, op) && ValidTries(tries) && ValidDraw(once.draw)
    ensures var used := if HasCustom(input) then [once] else tries;
            Run(v, s, [BeginCreate(op, input, now)] + Attempts(op, used)).links
            == Stored(s.links, CreateOutcome(v, s.links, input, now, once, tries))
  {
    var used := if HasCustom(input) then [once] else tries;
    var s1 := Step(v, s, BeginCreate(op, input, now));
    RunStep(v, s, BeginCreate(op, input, now), Attempts(op, used));
    hide Run, PrepareCreate, InsertOutcome, GenerateSlug, NormalizeCustomSlug, Trim, Blank;
    PlannedSlug(v, input, now);
    if input.customSlug.Some? {
      BlankMeaning(input.customSlug.value);
    }
    if !Pending(s1, op) {
      EndedIgnores(v, s1, op, used);
    } else if HasCustom(input) {
      CustomAlone(v, s1, op, once);
    } else {
      TriesAlone(v, s1, op, tries);
    }
  }
}
