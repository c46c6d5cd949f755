/**
  The expiration widget (`static/expiration.js`): a visible local field, a hidden
  UTC field that is submitted, and the memory that keeps an exact instant while
  the visible value is untouched.
 */
module Widget {
  import opened Options
  import opened Calendar
  import opened Rfc3339
  import opened LocalTime
  import opened AdminExpiry

  /** Timezone, and what the browser turns a value assigned to the local field into. */
  datatype Browser = Browser(zone: Zone, sanitize: string -> string)

  /** A value that survives sanitization still names the same local time; negative years do not survive. */
  ghost predicate Dependable(b: Browser) {
    && Lawful(b.zone)
    && (forall s :: b.sanitize(s) != "" && ReadLocal(s).Some? ==> ReadLocal(b.sanitize(s)) == ReadLocal(s))
    && (forall f: Fields :: f.Valid() && f.date.year < 0 ==> b.sanitize(PrintLocal(f)) == "")
    && (forall s :: b.sanitize(b.sanitize(s)) == b.sanitize(s))
  }

  /** There are such browsers, also in zones with gaps. */
  lemma DependableExists(day: int)
    ensures Dependable(Browser(LateJump(day), s => if ReadLocal(s) == None then "" else s))
  {
    LateJumpIsLawful(day);
    hide ReadLocal, PrintLocal, Lawful, LateJump;
    forall f: Fields | f.Valid() && f.date.year < 0
      ensures ReadLocal(PrintLocal(f)) == None
    {
      PrintReadBack(f);
    }
  }

  /** What the page was loaded with. */
  datatype Initial = Initial(display: string, instant: Option<int>)

  /** `input`, `absolute`, `lastDisplay`, `lastInstant`, the custom validity error; then pending reset timers
      and whether the visible field was reset without a `sync` since. */
  datatype State = State(
    input: string, absolute: Option<int>, lastDisplay: string, lastInstant: Option<int>, rejected: bool,
    timers: nat, stale: bool)

  datatype Event =
    | Edit(value: string)
    | Touch
    | Preset(hours: Option<nat>, now: int)
    | Reset
    | TimerFires

  const HOUR: int := 3_600_000

  /** `Date.now() + hours * 3600000`. */
  function PresetInstant(hours: nat, now: int): int {
    now + hours * HOUR
  }

  // ---------------------------------------------------------------- the handlers

  /** `sync`. */
  function AfterSync(b: Browser, s: State): State {
    if s.input == "" then
      s.(rejected := false, absolute := None, lastDisplay := "", lastInstant := None, stale := false)
    else
      var date := if s.input == s.lastDisplay && s.lastInstant.Some? then s.lastInstant else LocalDate(b.zone, s.input);
      match date
      case None => s.(absolute := None, rejected := true, stale := false)
      case Some(t) =>
        s.(rejected := false, absolute := Some(t), lastDisplay := s.input, lastInstant := Some(t), stale := false)
  }

  function Shown(b: Browser, t: int): string {
    b.sanitize(LocalValue(b.zone, t))
  }

  /** What the page shows first: the stored instant in local time, or the server's value. */
  function InitialOf(b: Browser, serverValue: string, instant: Option<int>): Initial {
    Initial(match instant case Some(t) => Shown(b, t) case None => b.sanitize(serverValue), instant)
  }

  function Start(b: Browser, i: Initial): State {
    AfterSync(b, State(i.display, i.instant, i.display, i.instant, false, 0, false))
  }

  function AfterPreset(b: Browser, s: State, hours: Option<nat>, now: int): State {
    match hours
    case None => AfterSync(b, s.(input := "", lastDisplay := "", lastInstant := None))
    case Some(h) =>
      var t := PresetInstant(h, now);
      AfterSync(b, s.(input := Shown(b, t), lastDisplay := Shown(b, t), lastInstant := Some(t)))
  }

  /** The form reset itself: the visible value at once, the rest when the timer fires. */
  function AfterReset(b: Browser, i: Initial, s: State): State {
    s.(input := b.sanitize(i.display), timers := s.timers + 1, stale := true)
  }

  function AfterTimer(b: Browser, i: Initial, s: State): State {
    if s.timers == 0 then s
    else AfterSync(b, s.(timers := s.timers - 1, lastDisplay := i.display, lastInstant := i.instant))
  }

  function Step(b: Browser, i: Initial, s: State, e: Event): State {
    match e
    case Edit(value) => AfterSync(b, s.(input := value))
    case Touch => AfterSync(b, s)
    case Preset(hours, now) => AfterPreset(b, s, hours, now)
    case Reset => AfterReset(b, i, s)
    case TimerFires => AfterTimer(b, i, s)
  }

  function Run(b: Browser, i: Initial, s: State, events: seq<Event>): State {
    if events == [] then s else Step(b, i, Run(b, i, s, events[..|events| - 1]), events[|events| - 1])
  }

  /** What submitting sends: blocked, or the hidden field. */
  function Submitted(s: State): Option<Option<int>> {
    if s.rejected then None else Some(s.absolute)
  }

  // ---------------------------------------------------------------- invariants

  /** The instant, rendered locally, has the fields of the displayed value. */
  predicate Renders(b: Browser, t: int, display: string) {
    ReadLocal(display) == Some(FieldsOf(Local(b.zone, t)))
  }

  predicate Remembers(b: Browser, display: string, instant: Option<int>) {
    display != "" && instant.Some? ==> Renders(b, instant.value, display)
  }

  /** Hidden field, memory and error agree with the visible value. */
  predicate Settled(b: Browser, s: State) {
    if s.input == "" then s.absolute == None && !s.rejected && s.lastDisplay == "" && s.lastInstant == None
    else if s.rejected then
      s.absolute == None && LocalDate(b.zone, s.input) == None && !(s.input == s.lastDisplay && s.lastInstant.Some?)
    else s.absolute.Some? && s.lastDisplay == s.input && s.lastInstant == s.absolute
  }

  ghost predicate Inv(b: Browser, i: Initial, s: State) {
    && Dependable(b)
    && Remembers(b, i.display, i.instant)
    && b.sanitize(i.display) == i.display
    && Remembers(b, s.lastDisplay, s.lastInstant)
    && (!s.stale ==> Settled(b, s))
    && (s.stale ==> s.timers > 0)
  }

  /** A shown instant is read back as its own local fields. */
  lemma ShownRenders(b: Browser, t: int)
    requires Dependable(b)
    ensures Remembers(b, Shown(b, t), Some(t))
  {
    hide PrintLocal, ReadLocal, Lawful, FieldsOf;
    PrintReadBack(FieldsOf(Local(b.zone, t)));
  }

  lemma AcceptedRenders(b: Browser, value: string)
    ensures LocalDate(b.zone, value).Some? ==> Renders(b, LocalDate(b.zone, value).value, value)
  {
    hide ReadLocal, OnThatDay, AtThatTime, FieldsOf;
  }

  lemma SyncKeeps(b: Browser, i: Initial, s: State)
    requires Dependable(b) && Remembers(b, i.display, i.instant) && b.sanitize(i.display) == i.display
    requires Remembers(b, s.lastDisplay, s.lastInstant)
    ensures Inv(b, i, AfterSync(b, s)) && Settled(b, AfterSync(b, s)) && !AfterSync(b, s).stale
  {
    AcceptedRenders(b, s.input);
    hide Dependable, Renders, LocalDate;
  }

  lemma InitialRemembered(b: Browser, serverValue: string, instant: Option<int>)
    requires Dependable(b)
    ensures var i := InitialOf(b, serverValue, instant);
            Remembers(b, i.display, i.instant) && b.sanitize(i.display) == i.display
  {
    if instant.Some? {
      ShownRenders(b, instant.value);
    }
    hide Remembers, PrintLocal, ReadLocal, LocalValue;
  }

  lemma StepKeeps(b: Browser, i: Initial, s: State, e: Event)
    requires Inv(b, i, s)
    ensures Inv(b, i, Step(b, i, s, e))
  {
    hide AfterSync, Settled, Renders, Shown, PresetInstant;
    match e
    case Edit(value) => SyncKeeps(b, i, s.(input := value));
    case Touch => SyncKeeps(b, i, s);
    case Preset(None, now) => SyncKeeps(b, i, s.(input := "", lastDisplay := "", lastInstant := None));
    case Preset(Some(h), now) =>
      var t := PresetInstant(h, now);
      ShownRenders(b, t);
      SyncKeeps(b, i, s.(input := Shown(b, t), lastDisplay := Shown(b, t), lastInstant := Some(t)));
    case Reset =>
    case TimerFires =>
      if s.timers > 0 {
        SyncKeeps(b, i, s.(timers := s.timers - 1, lastDisplay := i.display, lastInstant := i.instant));
      }
  }

  lemma StartKeeps(b: Browser, i: Initial)
    requires Dependable(b) && Remembers(b, i.display, i.instant) && b.sanitize(i.display) == i.display
    ensures Inv(b, i, Start(b, i)) && !Start(b, i).stale
  {
    SyncKeeps(b, i, State(i.display, i.instant, i.display, i.instant, false, 0, false));
  }

  lemma InitialKeeps(b: Browser, serverValue: string, instant: Option<int>)
    requires Dependable(b)
    ensures var i := InitialOf(b, serverValue, instant); Inv(b, i, Start(b, i)) && !Start(b, i).stale
  {
    InitialRemembered(b, serverValue, instant);
    hide InitialOf;
    StartKeeps(b, InitialOf(b, serverValue, instant));
  }

  lemma {:induction false} RunKeeps(b: Browser, i: Initial, s: State, events: seq<Event>)
    requires Inv(b, i, s)
    ensures Inv(b, i, Run(b, i, s, events))
  {
    hide Inv, Step;
    if events != [] {
      RunKeeps(b, i, s, events[..|events| - 1]);
      StepKeeps(b, i, Run(b, i, s, events[..|events| - 1]), events[|events| - 1]);
    }
  }

  // ---------------------------------------------------------------- what submitting means

  /** What would be submitted says what is shown: no expiry, a blocked form with nothing in it, or the shown time. */
  predicate Truthful(b: Browser, s: State) {
    if s.input == "" then Submitted(s) == Some(None)
    else if s.rejected then s.absolute == None
    else s.absolute.Some? && Renders(b, s.absolute.value, s.input)
  }

  /** How much of a run there is up to its last event that is not a reset. */
  function LastSync(events: seq<Event>): (n: nat)
    ensures n <= |events|
  {
    if events == [] then 0
    else if events[|events| - 1] == Reset then LastSync(events[..|events| - 1])
    else |events|
  }

  /** A reset in this state shows nothing that the hidden field does not say already. */
  predicate HarmlessReset(i: Initial, s: State) {
    if i.display == "" then s.input == ""
    else s.rejected || (s.input != "" && ReadLocal(s.input) == ReadLocal(i.display))
  }

  lemma SettledIsTruthful(b: Browser, i: Initial, s: State)
    requires Inv(b, i, s) && !s.stale
    ensures Truthful(b, s)
  {
    hide Dependable, Renders;
  }

  /** Any event but a reset synchronizes the fields; a pending timer too. */
  lemma SyncEndsLag(b: Browser, i: Initial, s: State, e: Event)
    requires Inv(b, i, s) && e != Reset
    ensures !Step(b, i, s, e).stale
  {
    hide Dependable, LocalDate, Shown, Settled, Remembers;
  }

  lemma ResetStep(b: Browser, i: Initial, s: State)
    requires b.sanitize(i.display) == i.display
    ensures Step(b, i, s, Reset) == s.(input := i.display, timers := s.timers + 1, stale := true)
  {
  }

  lemma RunLast(b: Browser, i: Initial, s: State, events: seq<Event>)
    requires events != []
    ensures Run(b, i, s, events) == Step(b, i, Run(b, i, s, events[..|events| - 1]), events[|events| - 1])
  {
  }

  lemma LastSyncStep(events: seq<Event>)
    requires events != []
    ensures var before := events[..|events| - 1];
            if events[|events| - 1] == Reset
            then LastSync(events) == LastSync(before) && events[..LastSync(events)] == before[..LastSync(before)]
            else LastSync(events) == |events| && events[..LastSync(events)] == events
  {
  }

  /** Resets change the visible field and start timers; what would be submitted stays as it was before them. */
  lemma {:induction false} ResetsLag(b: Browser, i: Initial, s: State, events: seq<Event>)
    requires Inv(b, i, s) && !s.stale && b.sanitize(i.display) == i.display
    ensures var q, r := Run(b, i, s, events[..LastSync(events)]), Run(b, i, s, events);
            && !q.stale
            && (if LastSync(events) == |events| then r == q
                else r == q.(input := i.display, timers := r.timers, stale := true))
  {
    if events != [] {
      var before, e := events[..|events| - 1], events[|events| - 1];
      var t := Run(b, i, s, before);
      RunLast(b, i, s, events);
      LastSyncStep(events);
      hide Inv, Run, Step, LastSync;
      if e == Reset {
        ResetsLag(b, i, s, before);
        assert before[..|before|] == before;
        ResetStep(b, i, t);
      } else {
        RunKeeps(b, i, s, before);
        SyncEndsLag(b, i, t, e);
      }
    }
  }

  lemma DisplayStays(b: Browser, i: Initial, s: State)
    requires Inv(b, i, s)
    ensures b.sanitize(i.display) == i.display
  {
  }

  lemma HarmlessExactly(b: Browser, i: Initial, q: State, s: State)
    requires Inv(b, i, q) && !q.stale && s == q.(input := i.display, timers := s.timers, stale := true)
    ensures Truthful(b, s) <==> HarmlessReset(i, q)
  {
    hide Dependable, LocalDate, ReadLocal, FieldsOf;
  }

  /**
    Over every run of edits, presets, touches, resets and timers: what would be
    submitted says what is shown exactly when no reset awaits its timer, or the
    state before the pending resets was one in which a reset is harmless, by
    having shown the initial time already, or none, or a blocked form.
   */
  lemma SubmitsWhatIsShown(b: Browser, serverValue: string, instant: Option<int>, events: seq<Event>)
    requires Dependable(b)
    ensures var i := InitialOf(b, serverValue, instant);
            var q, s := Run(b, i, Start(b, i), events[..LastSync(events)]), Run(b, i, Start(b, i), events);
            && (Truthful(b, s) <==> LastSync(events) == |events| || HarmlessReset(i, q))
            && (s.stale <==> LastSync(events) < |events|)
            && Submitted(s) == Submitted(q)
  {
    var i := InitialOf(b, serverValue, instant);
    hide Dependable, Inv, Run, InitialOf, Start, Truthful, HarmlessReset;
    var q, s := Run(b, i, Start(b, i), events[..LastSync(events)]), Run(b, i, Start(b, i), events);
    InitialKeeps(b, serverValue, instant);
    DisplayStays(b, i, Start(b, i));
    ResetsLag(b, i, Start(b, i), events);
    RunKeeps(b, i, Start(b, i), events[..LastSync(events)]);
    if LastSync(events) == |events| {
      SettledIsTruthful(b, i, s);
    } else {
      HarmlessExactly(b, i, q, s);
    }
  }

  /** The text of the hidden field: empty, or `toISOString()`. */
  function HiddenText(absolute: Option<int>): string {
    match absolute case None => "" case Some(t) => IsoString(t)
  }

  lemma NoExpiryRead()
    ensures ParseAdmin(Some("")) == Ok(None)
  {
  }

  /**
    From the screen to the server, whenever no reset is pending and the form is
    not blocked: the handler reads exactly the shown expiry when there is none or
    its UTC year is 0000 to 9999, and otherwise refuses the form.
   */
  lemma ServerReadsWhatIsShown(b: Browser, serverValue: string, instant: Option<int>, events: seq<Event>)
    requires Dependable(b)
    ensures var i := InitialOf(b, serverValue, instant);
            var s := Run(b, i, Start(b, i), events);
            !s.stale && Submitted(s).Some? ==>
              && (s.input == "" <==> s.absolute == None)
              && (s.absolute.Some? ==> Renders(b, s.absolute.value, s.input))
              && ParseAdmin(Some(HiddenText(s.absolute)))
                 == if s.absolute.Some? && !PrintableYear(FieldsOf(s.absolute.value).date.year) then Err(Validation)
                    else Ok(s.absolute)
  {
    var i := InitialOf(b, serverValue, instant);
    hide Dependable, Inv, Run, InitialOf, Start, Renders, IsoString, FieldsOf, ParseAdmin, PrintableYear;
    var s := Run(b, i, Start(b, i), events);
    InitialKeeps(b, serverValue, instant);
    RunKeeps(b, i, Start(b, i), events);
    NoExpiryRead();
    if !s.stale {
      SettledIsTruthful(b, i, s);
    }
    if s.absolute.Some? {
      SubmittedInstantRead(s.absolute.value);
    }
  }

  /**
    A displayed local time that does not occur, or is no date and time at all,
    is blocked and leaves the hidden field empty.
   */
  lemma NonexistentIsBlocked(b: Browser, serverValue: string, instant: Option<int>, events: seq<Event>)
    requires Dependable(b)
    ensures var i := InitialOf(b, serverValue, instant);
            var s := Run(b, i, Start(b, i), events);
            var f := ReadLocal(s.input);
            !s.stale && s.input != "" && (f == None || !f.value.Valid() || !Occurs(b.zone, MillisOf(f.value)))
            ==> Submitted(s) == None && s.absolute == None
  {
    var i := InitialOf(b, serverValue, instant);
    hide Dependable, Inv, Run, InitialOf, Start, ReadLocal, MillisOf;
    var s := Run(b, i, Start(b, i), events);
    InitialKeeps(b, serverValue, instant);
    RunKeeps(b, i, Start(b, i), events);
    if !s.stale {
      SettledIsTruthful(b, i, s);
    }
    if !s.stale && s.input != "" && !s.rejected {
      FieldsRoundTrip(Local(b.zone, s.absolute.value));
    }
  }

  /** A typed value is blocked exactly when `localDate` refuses it and it is not the remembered one. */
  lemma EditOutcome(b: Browser, i: Initial, s: State, value: string)
    requires Inv(b, i, s) && value != ""
    ensures var r := Step(b, i, s, Edit(value));
            if value == s.lastDisplay && s.lastInstant.Some? then Submitted(r) == Some(s.lastInstant)
            else if LocalDate(b.zone, value).Some? then Submitted(r) == Some(LocalDate(b.zone, value))
            else Submitted(r) == None
  {
    hide Dependable, LocalDate;
  }

  // ---------------------------------------------------------------- exact instants survive

  /** Touching a settled widget changes nothing. */
  lemma SyncIdempotent(b: Browser, s: State)
    requires Settled(b, s) && !s.stale
    ensures AfterSync(b, s) == s
  {
    hide LocalDate;
  }

  function Touches(n: nat): seq<Event> {
    seq(n, _ => Touch)
  }

  lemma {:induction false} TouchesKeep(b: Browser, i: Initial, s: State, n: nat)
    requires Settled(b, s) && !s.stale
    ensures Run(b, i, s, Touches(n)) == s
  {
    hide Settled, AfterSync;
    if n > 0 {
      TouchesKeep(b, i, s, n - 1);
      assert Touches(n)[..n - 1] == Touches(n - 1);
      SyncIdempotent(b, s);
    }
  }

  /**
    An unchanged form keeps the stored instant, also one in a repeated hour; one
    the browser cannot display at all becomes no expiry.
   */
  lemma UntouchedKeepsInstant(b: Browser, t: int, n: nat)
    requires Dependable(b)
    ensures var i := InitialOf(b, "", Some(t));
            Submitted(Run(b, i, Start(b, i), Touches(n))) == Some(if Shown(b, t) == "" then None else Some(t))
  {
    var i := InitialOf(b, "", Some(t));
    InitialRemembered(b, "", Some(t));
    hide Dependable, Run, Remembers;
    StartKeeps(b, i);
    TouchesKeep(b, i, Start(b, i), n);
  }

  /** A preset submits exactly the elapsed-time instant, however often the field is touched afterwards. */
  lemma PresetKeepsInstant(b: Browser, i: Initial, s: State, hours: nat, now: int, n: nat)
    requires Inv(b, i, s)
    ensures var t := now + hours * 3_600_000;
            Submitted(Run(b, i, Step(b, i, s, Preset(Some(hours), now)), Touches(n)))
            == Some(if Shown(b, t) == "" then None else Some(t))
  {
    hide Run, Shown, LocalDate, Renders;
    var t := PresetInstant(hours, now);
    assert t == now + hours * 3_600_000;
    hide PresetInstant;
    var r := Step(b, i, s, Preset(Some(hours), now));
    ShownRenders(b, t);
    SyncKeeps(b, i, s.(input := Shown(b, t), lastDisplay := Shown(b, t), lastInstant := Some(t)));
    TouchesKeep(b, i, r, n);
  }

  /** "Never" submits no expiry. */
  lemma NeverClears(b: Browser, i: Initial, s: State, now: int)
    ensures Submitted(Step(b, i, s, Preset(None, now))) == Some(None)
  {
  }

  // ---------------------------------------------------------------- reset

  lemma {:induction false} TouchesKeepInput(b: Browser, i: Initial, s: State, n: nat)
    ensures var r := Run(b, i, s, Touches(n)); r.input == s.input && r.timers == s.timers
  {
    hide LocalDate;
    if n > 0 {
      TouchesKeepInput(b, i, s, n - 1);
      assert Touches(n)[..n - 1] == Touches(n - 1);
    }
  }

  /** From any state, a reset followed by its timer is the freshly loaded page, even if touched in between. */
  lemma ResetRestores(b: Browser, i: Initial, s: State, n: nat)
    requires b.sanitize(i.display) == i.display
    ensures Step(b, i, Run(b, i, Step(b, i, s, Reset), Touches(n)), TimerFires) == Start(b, i).(timers := s.timers)
  {
    var r := Step(b, i, s, Reset);
    TouchesKeepInput(b, i, r, n);
    hide LocalDate, Run;
  }

  /** So the initial instant is restored exactly, from any state. */
  lemma ResetRestoresInstant(b: Browser, t: int, s: State, n: nat)
    requires Dependable(b)
    ensures var i := InitialOf(b, "", Some(t));
            var r := Step(b, i, Run(b, i, Step(b, i, s, Reset), Touches(n)), TimerFires);
            r.input == Shown(b, t) && Submitted(r) == Some(if Shown(b, t) == "" then None else Some(t))
  {
    var i := InitialOf(b, "", Some(t));
    InitialRemembered(b, "", Some(t));
    hide Dependable, Run, Remembers, Step;
    ResetRestores(b, i, s, n);
  }

  /** An empty form, a preset and a reset: for that moment a cleared field would still submit the preset. */
  lemma StaleSubmission(b: Browser, now: int)
    requires Dependable(b) && b.sanitize("") == "" && Shown(b, PresetInstant(1, now)) != ""
    ensures var i := InitialOf(b, "", None);
            var s := Run(b, i, Start(b, i), [Preset(Some(1), now), Reset]);
            s.input == "" && Submitted(s) == Some(Some(PresetInstant(1, now)))
  {
    hide Dependable, LocalDate, Shown, PresetInstant;
    var i := InitialOf(b, "", None);
    var events := [Preset(Some(1), now), Reset];
    var s0 := Start(b, i);
    assert events[..1] == [Preset(Some(1), now)] && events[..1][..0] == [];
    assert Run(b, i, s0, events[..1]) == Step(b, i, s0, Preset(Some(1), now));
  }

  // ---------------------------------------------------------------- the widget

  class ExpirationWidget {
    const browser: Browser
    const initial: Initial
    var input: string
    var absolute: Option<int>
    var lastDisplay: string
    var lastInstant: Option<int>
    var rejected: bool
    ghost var timers: nat
    ghost var stale: bool

    ghost function View(): State
      reads this
    {
      State(input, absolute, lastDisplay, lastInstant, rejected, timers, stale)
    }

    constructor (browser: Browser, serverValue: string, instant: Option<int>)
      ensures this.browser == browser && initial == InitialOf(browser, serverValue, instant)
      ensures View() == Start(browser, initial)
    {
      var display := match instant case Some(t) => Shown(browser, t) case None => browser.sanitize(serverValue);
      this.browser := browser;
      initial := Initial(display, instant);
      input, lastDisplay, lastInstant, absolute := display, display, instant, instant;
      rejected, timers, stale := false, 0, false;
      new;
      Sync();
    }

    /** `sync`. */
    method Sync()
      modifies this
      ensures View() == AfterSync(browser, old(View()))
      ensures input == old(input) && timers == old(timers) && !stale
      ensures input == "" ==> absolute == None && !rejected && lastDisplay == "" && lastInstant == None
      ensures input != "" ==>
                && absolute == (if input == old(lastDisplay) && old(lastInstant).Some? then old(lastInstant)
                                else LocalDate(browser.zone, input))
                && rejected == absolute.None?
                && (if rejected then lastDisplay == old(lastDisplay) && lastInstant == old(lastInstant)
                    else lastDisplay == input && lastInstant == absolute)
    {
      rejected := false;
      stale := false;
      if input == "" {
        absolute := None;
        lastDisplay := "";
        lastInstant := None;
        return;
      }
      var date := LocalDate(browser.zone, input);
      if input == lastDisplay && lastInstant.Some? {
        date := lastInstant;
      }
      if date == None {
        absolute := None;
        rejected := true;
        return;
      }
      absolute := date;
      lastDisplay := input;
      lastInstant := absolute;
    }

    /** The `input` event of a user's edit. */
    method OnInput(value: string)
      modifies this
      ensures View() == Step(browser, initial, old(View()), Edit(value))
      ensures input == value
    {
      input := value;
      Sync();
    }

    /** A preset button. */
    method OnPreset(hours: Option<nat>, now: int)
      modifies this
      ensures View() == Step(browser, initial, old(View()), Preset(hours, now))
      ensures hours == None ==> input == "" && absolute == None && !rejected
      ensures hours.Some? ==>
                var t := now + hours.value * 3_600_000;
                && input == Shown(browser, t) && !rejected
                && absolute == if input == "" then None else Some(t)
    {
      hide AfterSync, Shown;
      match hours {
        case None =>
          input := "";
          lastDisplay := input;
          lastInstant := None;
        case Some(h) =>
          var t := PresetInstant(h, now);
          input := Shown(browser, t);
          lastDisplay := input;
          lastInstant := Some(t);
      }
      Sync();
    }

    /** The browser resets the visible field; the handler only starts a timer. */
    method OnReset()
      modifies this
      ensures View() == Step(browser, initial, old(View()), Reset)
      ensures input == browser.sanitize(initial.display) && timers == old(timers) + 1
      ensures absolute == old(absolute) && rejected == old(rejected)
      ensures lastDisplay == old(lastDisplay) && lastInstant == old(lastInstant)
    {
      input := browser.sanitize(initial.display);
      timers := timers + 1;
      stale := true;
    }

    /** The timer's callback. */
    method OnTimer()
      requires timers > 0
      modifies this
      ensures View() == Step(browser, initial, old(View()), TimerFires)
      ensures input == old(input) && timers == old(timers) - 1
    {
      timers := timers - 1;
      lastDisplay := initial.display;
      lastInstant := initial.instant;
      Sync();
    }
  }
}
