/**
  The link store under concurrency (`src/db/links.rs`): each SQL statement is one
  atomic step, and any steps of other requests may run between the steps of one.
 */
module LinkRuns {
  import opened Options
  import opened Text
  import opened History
  import opened LinkRules
  import opened LinkStore

  /** A create between its validation and its last INSERT. */
  datatype PendingCreate = PendingCreate(
    input: CreateInput, content: NewContent, slug: Option<string>, triesLeft: nat)

  /** An update between its SELECT and its UPDATE: the slug read, the request and the validated patch. */
  datatype PendingUpdate = PendingUpdate(slug: string, input: UpdateInput, patch: Patch)

  /** A `set_disabled` before its UPDATE. */
  datatype PendingToggle = PendingToggle(slug: string, disabled: bool)

  /** One reading of the clock: its place in the order of all readings, and what it showed. */
  datatype Reading = Reading(at: nat, now: int)

  /** A statement that changed a row: what its request asked, and the reading it wrote. */
  datatype Commit =
    | Created(slug: string, id: string, create: CreateInput, reading: Reading)
    | Patched(slug: string, update: UpdateInput, reading: Reading)
    | Toggled(slug: string, disabled: bool, reading: Reading)

  /** The table, the requests between their steps and the readings they hold; then the history. */
  datatype State = State(
    links: LinkTable,
    creates: map<nat, PendingCreate>,
    updates: map<nat, PendingUpdate>,
    toggles: map<nat, PendingToggle>,
    clocks: map<nat, Reading>,
    readings: seq<int>,
    made: map<nat, string>,
    log: seq<Commit>)

  const EMPTY: State := State(map[], map[], map[], map[], map[], [], map[], [])

  /** The steps of requests; `checkedAt` is the clock reading that validation uses. */
  datatype Event =
    | BeginCreate(op: nat, input: CreateInput, checkedAt: int)
    | BeginUpdate(op: nat, slug: string, patchInput: UpdateInput, checkedAt: int)
    | BeginToggle(op: nat, slug: string, disabled: bool)
    | ReadClock(op: nat, now: int)
    | TryInsert(op: nat, draw: seq<nat>, id: string)
    | CommitUpdate(op: nat)
    | CommitToggle(op: nat)
    | Abandon(op: nat)

  predicate Pending(s: State, op: nat) {
    op in s.creates || op in s.updates || op in s.toggles
  }

  predicate Fresh(s: State, op: nat) {
    !Pending(s, op) && op !in s.clocks && op !in s.made
  }

  /** Validation of a create and the choice between its own slug and generated ones. */
  function PlanCreate(v: UrlValidator, input: CreateInput, now: int): Result<PendingCreate> {
    match PrepareCreate(v, input, now)
    case Err(e) => Err(e)
    case Ok(c) =>
      if WantsGenerated(input) then Ok(PendingCreate(input, c, None, MAX_CREATE_RETRIES))
      else
        match NormalizeCustomSlug(input.customSlug.value)
        case Err(e) => Err(e)
        case Ok(slug) => Ok(PendingCreate(input, c, Some(slug), 1))
  }

  function AfterBeginCreate(v: UrlValidator, s: State, op: nat, input: CreateInput, now: int): State {
    if !Fresh(s, op) then s
    else
      match PlanCreate(v, input, now)
      case Err(_) => s
      case Ok(p) => s.(creates := s.creates[op := p])
  }

  /** A pending request reads the clock once for each statement. */
  function AfterReadClock(s: State, op: nat, now: int): State {
    if !Pending(s, op) || op in s.clocks then s
    else s.(clocks := s.clocks[op := Reading(|s.readings|, now)], readings := s.readings + [now])
  }

  /** One INSERT under `slug`; a conflict uses up a try, any other outcome ends the create. */
  function AfterInsert(s: State, op: nat, slug: string, id: string): State
    requires op in s.creates && op in s.clocks
  {
    var p := s.creates[op];
    match InsertOutcome(s.links, slug, p.content, id, s.clocks[op].now)
    case Ok(row) =>
      s.(links := s.links[slug := row], creates := s.creates - {op}, clocks := s.clocks - {op},
         made := s.made[op := slug], log := s.log + [Created(slug, id, p.input, s.clocks[op])])
    case Err(e) =>
      s.(creates := if e == Conflict && p.triesLeft > 1 then s.creates[op := p.(triesLeft := p.triesLeft - 1)]
                    else s.creates - {op},
         clocks := s.clocks - {op})
  }

  function AfterTryInsert(s: State, op: nat, draw: seq<nat>, id: string): State {
    if op !in s.creates || op !in s.clocks || !ValidDraw(draw) then s
    else AfterInsert(s, op, s.creates[op].slug.GetOr(GenerateSlug(draw)), id)
  }

  /** SELECT and validation; the row read here may be stale by the time of the UPDATE. */
  function AfterBeginUpdate(v: UrlValidator, s: State, op: nat, slug: string, input: UpdateInput, checkedAt: int)
    : State
  {
    if !Fresh(s, op) then s
    else
      match GetLink(s.links, slug)
      case Err(_) => s
      case Ok(existing) =>
        match PreparePatch(v, input, existing.text.Some?, checkedAt)
        case Err(_) => s
        case Ok(patch) => s.(updates := s.updates[op := PendingUpdate(existing.slug, input, patch)])
  }

  function AfterCommitUpdate(s: State, op: nat): State {
    if op !in s.updates || op !in s.clocks then s
    else
      var u, reading := s.updates[op], s.clocks[op];
      var rest := s.(updates := s.updates - {op}, clocks := s.clocks - {op});
      match PatchOutcome(s.links, u.slug, u.patch, reading.now)
      case Err(_) => rest
      case Ok(row) => rest.(links := s.links[u.slug := row], log := s.log + [Patched(u.slug, u.input, reading)])
  }

  function AfterBeginToggle(s: State, op: nat, slug: string, disabled: bool): State {
    if !Fresh(s, op) then s else s.(toggles := s.toggles[op := PendingToggle(slug, disabled)])
  }

  function AfterCommitToggle(s: State, op: nat): State {
    if op !in s.toggles || op !in s.clocks then s
    else
      var t, reading := s.toggles[op], s.clocks[op];
      var rest := s.(toggles := s.toggles - {op}, clocks := s.clocks - {op});
      match ToggleOutcome(s.links, t.slug, t.disabled, reading.now)
      case Err(_) => rest
      case Ok(row) =>
        var key := Lower(t.slug);
        rest.(links := s.links[key := row], log := s.log + [Toggled(key, t.disabled, reading)])
  }

  function AfterAbandon(s: State, op: nat): State {
    s.(creates := s.creates - {op}, updates := s.updates - {op}, toggles := s.toggles - {op}, clocks := s.clocks - {op})
  }

  function Step(v: UrlValidator, s: State, e: Event): State {
    match e
    case BeginCreate(op, input, checkedAt) => AfterBeginCreate(v, s, op, input, checkedAt)
    case BeginUpdate(op, slug, input, checkedAt) => AfterBeginUpdate(v, s, op, slug, input, checkedAt)
    case BeginToggle(op, slug, disabled) => AfterBeginToggle(s, op, slug, disabled)
    case ReadClock(op, now) => AfterReadClock(s, op, now)
    case TryInsert(op, draw, id) => AfterTryInsert(s, op, draw, id)
    case CommitUpdate(op) => AfterCommitUpdate(s, op)
    case CommitToggle(op) => AfterCommitToggle(s, op)
    case Abandon(op) => AfterAbandon(s, op)
  }

  function Run(v: UrlValidator, s: State, events: seq<Event>): State {
    if events == [] then s else Step(v, Run(v, s, events[..|events| - 1]), events[|events| - 1])
  }

  // ---------------------------------------------------------------- invariants of every state

  ghost predicate RowsOk(v: UrlValidator, links: LinkTable) {
    forall slug :: slug in links ==> links[slug].slug == slug && RowOk(v, links[slug])
  }

  predicate IdsDistinct(links: LinkTable) {
    forall a, b :: a in links && b in links && links[a].id == links[b].id ==> a == b
  }

  ghost predicate UpdatesFit(v: UrlValidator, s: State) {
    forall op :: op in s.updates ==>
      && s.updates[op].slug in s.links
      && PatchFits(v, s.updates[op].patch, s.links[s.updates[op].slug].text.Some?)
      && PatchOf(v, s.updates[op].input, s.updates[op].patch)
  }

  ghost predicate CreatesFit(v: UrlValidator, s: State) {
    forall op :: op in s.creates ==>
      && ContentOk(v, s.creates[op].content)
      && ContentOf(v, s.creates[op].input, s.creates[op].content)
      && (s.creates[op].slug.Some? ==> NormalSlug(s.creates[op].slug.value))
      && op !in s.made
  }

  function TargetBy(v: UrlValidator, slug: string): Commit -> Option<Option<string>> {
    (c: Commit) =>
      match c
      case Created(s, _, input, _) =>
        if s == slug then Some(if input.text.Some? then Some("") else v(input.target)) else None
      case Patched(s, input, _) => if s == slug && input.target.Some? then Some(v(input.target.value)) else None
      case Toggled(_, _, _) => None
  }

  function TextBy(slug: string): Commit -> Option<Option<string>> {
    (c: Commit) =>
      match c
      case Created(s, _, input, _) => if s == slug then Some(input.text) else None
      case Patched(s, input, _) => if s == slug && input.text.Some? then Some(input.text) else None
      case Toggled(_, _, _) => None
  }

  function LabelBy(slug: string): Commit -> Option<Option<string>> {
    (c: Commit) =>
      match c
      case Created(s, _, input, _) => if s == slug then Some(StoredLabel(input.labelText)) else None
      case Patched(s, input, _) =>
        if s == slug && input.labelText.Some? then Some(StoredLabel(input.labelText.value)) else None
      case Toggled(_, _, _) => None
  }

  function ExpiryBy(slug: string): Commit -> Option<Option<int>> {
    (c: Commit) =>
      match c
      case Created(s, _, input, _) => if s == slug then Some(input.expiresAt) else None
      case Patched(s, input, _) => if s == slug then input.expiresAt else None
      case Toggled(_, _, _) => None
  }

  function DisabledBy(slug: string): Commit -> Option<Option<int>> {
    (c: Commit) =>
      match c
      case Created(s, _, _, _) => if s == slug then Some(None) else None
      case Patched(_, _, _) => None
      case Toggled(s, disabled, reading) =>
        if s == slug then Some(if disabled then Some(reading.now) else None) else None
  }

  function ClockBy(slug: string): Commit -> Option<int> {
    (c: Commit) =>
      match c
      case Created(s, _, _, reading) => if s == slug then Some(reading.now) else None
      case Patched(s, _, reading) => if s == slug then Some(reading.now) else None
      case Toggled(s, _, reading) => if s == slug then Some(reading.now) else None
  }

  /** Id and creation time. */
  function BirthBy(slug: string): Commit -> Option<(string, int)> {
    (c: Commit) =>
      match c
      case Created(s, id, _, reading) => if s == slug then Some((id, reading.now)) else None
      case _ => None
  }

  /** Each field of the row is the last value a committed operation gave it. */
  predicate Explains(v: UrlValidator, log: seq<Commit>, slug: string, row: Link) {
    && LastMention(log, TargetBy(v, slug)) == Some(Some(row.target))
    && LastMention(log, TextBy(slug)) == Some(row.text)
    && LastMention(log, LabelBy(slug)) == Some(row.labelText)
    && LastMention(log, ExpiryBy(slug)) == Some(row.expiresAt)
    && LastMention(log, DisabledBy(slug)) == Some(row.disabledAt)
    && LastMention(log, ClockBy(slug)) == Some(row.updatedAt)
    && LastMention(log, BirthBy(slug)) == Some((row.id, row.createdAt))
  }

  predicate LogExplains(v: UrlValidator, s: State) {
    forall slug :: slug in s.links ==> Explains(v, s.log, slug, s.links[slug])
  }

  ghost predicate Inv(v: UrlValidator, s: State) {
    RowsOk(v, s.links) && IdsDistinct(s.links) && UpdatesFit(v, s) && CreatesFit(v, s) && LogExplains(v, s)
  }

  /** Every row there was is still there, with the same identity. */
  predicate Descends(before: LinkTable, after: LinkTable) {
    forall slug :: slug in before ==> slug in after && SameIdentity(before[slug], after[slug])
  }

  lemma PlannedFits(v: UrlValidator, input: CreateInput, now: int)
    ensures var p := PlanCreate(v, input, now);
            p.Ok? ==> && ContentOk(v, p.value.content) && ContentOf(v, p.value.input, p.value.content)
                      && (p.value.slug.Some? ==> NormalSlug(p.value.slug.value))
  {
    PreparedRowOk(v, input, now);
    PreparedContent(v, input, now);
    hide PrepareCreate, ContentOk, ContentOf, NormalSlug, NormalizeCustomSlug;
    if input.customSlug.Some? {
      NormalizeMeaning(input.customSlug.value);
    }
  }

  lemma UnchangedFits(v: UrlValidator, s: State, r: State)
    requires s.links == r.links && s.updates == r.updates
    ensures UpdatesFit(v, s) ==> UpdatesFit(v, r)
  {
  }

  lemma UnchangedLog(v: UrlValidator, s: State, r: State)
    requires s.links == r.links && s.log == r.log
    ensures LogExplains(v, s) ==> LogExplains(v, r)
  {
  }

  lemma BeginCreateKeeps(v: UrlValidator, s: State, op: nat, input: CreateInput, now: int)
    requires Inv(v, s)
    ensures Inv(v, AfterBeginCreate(v, s, op, input, now))
  {
    PlannedFits(v, input, now);
    hide PlanCreate, ContentOk, NormalSlug, LogExplains, RowsOk, IdsDistinct, UpdatesFit;
    UnchangedLog(v, s, AfterBeginCreate(v, s, op, input, now));
    UnchangedFits(v, s, AfterBeginCreate(v, s, op, input, now));
  }

  // ---------------------------------------------------------------- last writer wins

  lemma ExplainsSnoc(v: UrlValidator, log: seq<Commit>, c: Commit, slug: string, row: Link)
    ensures Explains(v, log + [c], slug, row) <==>
      && (if TargetBy(v, slug)(c).Some? then TargetBy(v, slug)(c) else LastMention(log, TargetBy(v, slug)))
         == Some(Some(row.target))
      && (if TextBy(slug)(c).Some? then TextBy(slug)(c) else LastMention(log, TextBy(slug))) == Some(row.text)
      && (if LabelBy(slug)(c).Some? then LabelBy(slug)(c) else LastMention(log, LabelBy(slug))) == Some(row.labelText)
      && (if ExpiryBy(slug)(c).Some? then ExpiryBy(slug)(c) else LastMention(log, ExpiryBy(slug)))
         == Some(row.expiresAt)
      && (if DisabledBy(slug)(c).Some? then DisabledBy(slug)(c) else LastMention(log, DisabledBy(slug)))
         == Some(row.disabledAt)
      && (if ClockBy(slug)(c).Some? then ClockBy(slug)(c) else LastMention(log, ClockBy(slug))) == Some(row.updatedAt)
      && (if BirthBy(slug)(c).Some? then BirthBy(slug)(c) else LastMention(log, BirthBy(slug)))
         == Some((row.id, row.createdAt))
  {
    hide LastMention, TargetBy, TextBy, LabelBy, ExpiryBy, DisabledBy, ClockBy, BirthBy;
    LastMentionSnoc(log, c, TargetBy(v, slug));
    LastMentionSnoc(log, c, TextBy(slug));
    LastMentionSnoc(log, c, LabelBy(slug));
    LastMentionSnoc(log, c, ExpiryBy(slug));
    LastMentionSnoc(log, c, DisabledBy(slug));
    LastMentionSnoc(log, c, ClockBy(slug));
    LastMentionSnoc(log, c, BirthBy(slug));
  }

  lemma ExplainsOther(v: UrlValidator, log: seq<Commit>, c: Commit, slug: string, row: Link)
    requires c.slug != slug && Explains(v, log, slug, row)
    ensures Explains(v, log + [c], slug, row)
  {
    ExplainsSnoc(v, log, c, slug, row);
    hide LastMention;
  }

  lemma ExplainsCreated(v: UrlValidator, log: seq<Commit>, slug: string, id: string, input: CreateInput, c: NewContent,
                        reading: Reading)
    requires ContentOf(v, input, c)
    ensures Explains(v, log + [Created(slug, id, input, reading)], slug, NewRow(slug, c, id, reading.now))
  {
    ExplainsSnoc(v, log, Created(slug, id, input, reading), slug, NewRow(slug, c, id, reading.now));
    hide LastMention;
  }

  lemma ExplainsPatched(v: UrlValidator, log: seq<Commit>, slug: string, row: Link, input: UpdateInput, p: Patch,
                        reading: Reading)
    requires Explains(v, log, slug, row) && PatchOf(v, input, p)
    ensures Explains(v, log + [Patched(slug, input, reading)], slug, ApplyPatch(row, p, reading.now))
  {
    ExplainsSnoc(v, log, Patched(slug, input, reading), slug, ApplyPatch(row, p, reading.now));
    hide LastMention;
  }

  lemma ExplainsToggled(v: UrlValidator, log: seq<Commit>, slug: string, row: Link, disabled: bool, reading: Reading)
    requires Explains(v, log, slug, row)
    ensures Explains(v, log + [Toggled(slug, disabled, reading)], slug, ApplyToggle(row, disabled, reading.now))
  {
    ExplainsSnoc(v, log, Toggled(slug, disabled, reading), slug, ApplyToggle(row, disabled, reading.now));
    hide LastMention;
  }

  // ---------------------------------------------------------------- steps that change a row

  lemma IdsStayDistinct(links: LinkTable, slug: string, row: Link)
    requires IdsDistinct(links)
    requires if slug in links then links[slug].id == row.id else Free(links, slug, row.id)
    ensures IdsDistinct(links[slug := row])
  {
    var after := links[slug := row];
    forall a, b | a in after && b in after && after[a].id == after[b].id
      ensures a == b
    {
      if slug in links {
        assert links[a].id == links[b].id;
      } else {
        assert a != slug ==> a in links && after[a] == links[a];
        assert b != slug ==> b in links && after[b] == links[b];
      }
    }
  }

  /** One row written at `slug`, one commit about `slug` logged, and no operation left on a row that is gone. */
  lemma WriteKeeps(v: UrlValidator, s: State, r: State, slug: string, row: Link, c: Commit)
    requires Inv(v, s)
    requires r.links == s.links[slug := row] && r.log == s.log + [c]
    requires r.creates.Keys <= s.creates.Keys
    requires forall op :: op in r.creates ==> r.creates[op] == s.creates[op] && op !in r.made
    requires r.updates.Keys <= s.updates.Keys && (forall op :: op in r.updates ==> r.updates[op] == s.updates[op])
    requires c.slug == slug && row.slug == slug && RowOk(v, row) && Explains(v, r.log, slug, row)
    requires if slug in s.links then SameIdentity(s.links[slug], row) else Free(s.links, slug, row.id)
    ensures Inv(v, r) && Descends(s.links, r.links)
  {
    hide RowOk, Explains, ContentOk, PatchFits, NormalSlug, IdsDistinct;
    IdsStayDistinct(s.links, slug, row);
    forall k | k in r.links
      ensures Explains(v, r.log, k, r.links[k])
    {
      if k != slug {
        assert Explains(v, s.log, k, s.links[k]);
        ExplainsOther(v, s.log, c, k, s.links[k]);
      }
    }
    assert UpdatesFit(v, r) by {
      forall op | op in r.updates
        ensures r.updates[op].slug in r.links
        ensures PatchFits(v, r.updates[op].patch, r.links[r.updates[op].slug].text.Some?)
      {
        assert s.updates[op].slug in s.links;
      }
    }
  }

  lemma IdentityOfSame(links: LinkTable)
    ensures Descends(links, links)
  {
  }

  /** Using up tries, or giving up, touches nothing but the pending creates. */
  lemma CreatesShrink(v: UrlValidator, s: State, r: State)
    requires Inv(v, s)
    requires r == s.(creates := r.creates, clocks := r.clocks) && r.creates.Keys <= s.creates.Keys
    requires forall op :: op in r.creates ==>
               && r.creates[op].content == s.creates[op].content && r.creates[op].slug == s.creates[op].slug
               && r.creates[op].input == s.creates[op].input
    ensures Inv(v, r) && Descends(s.links, r.links)
  {
    hide ContentOk, ContentOf, NormalSlug, LogExplains, RowsOk, IdsDistinct, UpdatesFit;
    UnchangedLog(v, s, r);
    UnchangedFits(v, s, r);
    IdentityOfSame(s.links);
  }

  lemma NewRowOk(v: UrlValidator, c: NewContent, slug: string, id: string, now: int)
    requires ContentOk(v, c) && NormalSlug(slug)
    ensures RowOk(v, NewRow(slug, c, id, now)) && RowCheck(NewRow(slug, c, id, now))
  {
    hide NormalSlug, LabelOk, FromValidator;
    RowOkPassesCheck(v, NewRow(slug, c, id, now));
  }

  lemma InsertKeeps(v: UrlValidator, s: State, op: nat, slug: string, id: string)
    requires Inv(v, s) && op in s.creates && op in s.clocks && NormalSlug(slug)
    ensures var r := AfterInsert(s, op, slug, id); Inv(v, r) && Descends(s.links, r.links)
  {
    hide Explains, LogExplains, IdsDistinct, UpdatesFit, RowCheck, RowOk, RowsOk, ContentOk, ContentOf, NormalSlug;
    hide Free, Descends, InsertOutcome;
    var r := AfterInsert(s, op, slug, id);
    var c, reading := s.creates[op].content, s.clocks[op];
    InsertedWhereFree(s.links, slug, c, id, reading.now);
    if InsertOutcome(s.links, slug, c, id, reading.now).Ok? {
      var row := NewRow(slug, c, id, reading.now);
      ExplainsCreated(v, s.log, slug, id, s.creates[op].input, c, reading);
      NewRowOk(v, c, slug, id, reading.now);
      WriteKeeps(v, s, r, slug, row, Created(slug, id, s.creates[op].input, reading));
    } else {
      hide Inv;
      CreatesShrink(v, s, r);
    }
  }

  lemma TryInsertKeeps(v: UrlValidator, s: State, op: nat, draw: seq<nat>, id: string)
    requires Inv(v, s)
    ensures Inv(v, AfterTryInsert(s, op, draw, id)) && Descends(s.links, AfterTryInsert(s, op, draw, id).links)
  {
    IdentityOfSame(s.links);
    if op in s.creates && op in s.clocks && ValidDraw(draw) {
      GeneratedIsNormal(draw);
      NormalizeMeaning(GenerateSlug(draw));
      assert CreatesFit(v, s);
      hide Inv, GenerateSlug, AfterInsert, NormalSlug;
      InsertKeeps(v, s, op, s.creates[op].slug.GetOr(GenerateSlug(draw)), id);
    }
  }

  lemma BeginUpdateKeeps(v: UrlValidator, s: State, op: nat, slug: string, input: UpdateInput, checkedAt: int)
    requires Inv(v, s)
    ensures Inv(v, AfterBeginUpdate(v, s, op, slug, input, checkedAt))
  {
    var r := AfterBeginUpdate(v, s, op, slug, input, checkedAt);
    hide RowOk, Explains, LogExplains, IdsDistinct, PreparePatch, PatchFits, PatchOf, ContentOk, ContentOf, NormalSlug;
    UnchangedLog(v, s, r);
    if Fresh(s, op) && Lower(slug) in s.links {
      PreparedFits(v, input, s.links[Lower(slug)].text.Some?, checkedAt);
      PreparedPatch(v, input, s.links[Lower(slug)].text.Some?, checkedAt);
    }
  }

  lemma RowAt(v: UrlValidator, s: State, slug: string)
    requires Inv(v, s) && slug in s.links
    ensures s.links[slug].slug == slug && RowOk(v, s.links[slug]) && Explains(v, s.log, slug, s.links[slug])
  {
    hide RowOk, Explains, IdsDistinct, UpdatesFit, CreatesFit;
  }

  lemma PendingUpdateFits(v: UrlValidator, s: State, op: nat)
    requires Inv(v, s) && op in s.updates
    ensures var u := s.updates[op];
            u.slug in s.links && PatchFits(v, u.patch, s.links[u.slug].text.Some?) && PatchOf(v, u.input, u.patch)
  {
    hide RowsOk, LogExplains, IdsDistinct, CreatesFit, PatchFits, PatchOf;
  }

  lemma CommitUpdateKeeps(v: UrlValidator, s: State, op: nat)
    requires Inv(v, s)
    ensures Inv(v, AfterCommitUpdate(s, op)) && Descends(s.links, AfterCommitUpdate(s, op).links)
  {
    var r := AfterCommitUpdate(s, op);
    if op in s.updates && op in s.clocks {
      var u, reading := s.updates[op], s.clocks[op];
      PendingUpdateFits(v, s, op);
      RowAt(v, s, u.slug);
      hide Inv, RowOk, PatchFits, PatchOf;
      var row := s.links[u.slug];
      PatchKeepsRow(v, row, u.patch, reading.now);
      ExplainsPatched(v, s.log, u.slug, row, u.input, u.patch, reading);
      hide Explains, RowCheck, ApplyPatch, Descends;
      WriteKeeps(v, s, r, u.slug, ApplyPatch(row, u.patch, reading.now), Patched(u.slug, u.input, reading));
    } else {
      IdentityOfSame(s.links);
    }
  }

  /** A validated patch finds its row and passes the CHECK whenever its UPDATE runs. */
  lemma PendingPatchFits(v: UrlValidator, s: State, op: nat, now: int)
    requires Inv(v, s) && op in s.updates
    ensures PatchOutcome(s.links, s.updates[op].slug, s.updates[op].patch, now).Ok?
  {
    var u := s.updates[op];
    PendingUpdateFits(v, s, op);
    RowAt(v, s, u.slug);
    hide Inv, RowOk, PatchFits, ApplyPatch;
    PatchKeepsRow(v, s.links[u.slug], u.patch, now);
  }

  lemma ToggleWrites(v: UrlValidator, s: State, op: nat)
    requires Inv(v, s) && op in s.toggles && op in s.clocks && Lower(s.toggles[op].slug) in s.links
    ensures Inv(v, AfterCommitToggle(s, op)) && Descends(s.links, AfterCommitToggle(s, op).links)
  {
    var disabled, reading := s.toggles[op].disabled, s.clocks[op];
    var key := Lower(s.toggles[op].slug);
    var row := ApplyToggle(s.links[key], disabled, reading.now);
    RowAt(v, s, key);
    hide Inv;
    assert RowOk(v, row);
    ExplainsToggled(v, s.log, key, s.links[key], disabled, reading);
    hide RowOk, Explains, Descends;
    WriteKeeps(v, s, AfterCommitToggle(s, op), key, row, Toggled(key, disabled, reading));
  }

  /** Steps that change no row and drop pending requests, or hold a reading or a toggle, keep the invariant. */
  lemma OtherPartsKeep(v: UrlValidator, s: State, r: State)
    requires Inv(v, s)
    requires r.links == s.links && r.log == s.log && r.made == s.made
    requires r.creates.Keys <= s.creates.Keys && (forall op :: op in r.creates ==> r.creates[op] == s.creates[op])
    requires r.updates.Keys <= s.updates.Keys && (forall op :: op in r.updates ==> r.updates[op] == s.updates[op])
    ensures Inv(v, r)
  {
    hide RowOk, Explains, LogExplains, RowsOk, IdsDistinct, PatchFits, ContentOk, NormalSlug;
    UnchangedLog(v, s, r);
  }

  lemma CommitToggleKeeps(v: UrlValidator, s: State, op: nat)
    requires Inv(v, s)
    ensures Inv(v, AfterCommitToggle(s, op)) && Descends(s.links, AfterCommitToggle(s, op).links)
  {
    hide Inv;
    if op in s.toggles && op in s.clocks && Lower(s.toggles[op].slug) in s.links {
      ToggleWrites(v, s, op);
    } else {
      IdentityOfSame(s.links);
      OtherPartsKeep(v, s, AfterCommitToggle(s, op));
    }
  }

  lemma BeginToggleKeeps(v: UrlValidator, s: State, op: nat, slug: string, disabled: bool)
    requires Inv(v, s)
    ensures Inv(v, AfterBeginToggle(s, op, slug, disabled))
  {
    hide Inv;
    OtherPartsKeep(v, s, AfterBeginToggle(s, op, slug, disabled));
  }

  lemma ReadClockKeeps(v: UrlValidator, s: State, op: nat, now: int)
    requires Inv(v, s)
    ensures Inv(v, AfterReadClock(s, op, now))
  {
    hide Inv;
    OtherPartsKeep(v, s, AfterReadClock(s, op, now));
  }

  lemma AbandonKeeps(v: UrlValidator, s: State, op: nat)
    requires Inv(v, s)
    ensures Inv(v, AfterAbandon(s, op))
  {
    hide Inv;
    OtherPartsKeep(v, s, AfterAbandon(s, op));
  }

  lemma QuietSteps(v: UrlValidator, s: State, e: Event)
    requires !e.TryInsert? && !e.CommitUpdate? && !e.CommitToggle?
    ensures Step(v, s, e).links == s.links
  {
    hide PlanCreate, PreparePatch, GetLink;
  }

  /** Every step of every request keeps the invariant and the identity of every row. */
  lemma StepKeeps(v: UrlValidator, s: State, e: Event)
    requires Inv(v, s)
    ensures Inv(v, Step(v, s, e)) && Descends(s.links, Step(v, s, e).links)
  {
    if !e.TryInsert? && !e.CommitUpdate? && !e.CommitToggle? {
      QuietSteps(v, s, e);
    }
    hide Inv, Descends, AfterTryInsert, AfterCommitUpdate, AfterCommitToggle;
    hide AfterBeginCreate, AfterBeginUpdate, AfterBeginToggle, AfterReadClock, AfterAbandon;
    IdentityOfSame(s.links);
    match e
    case BeginCreate(op, input, checkedAt) => BeginCreateKeeps(v, s, op, input, checkedAt);
    case BeginUpdate(op, slug, input, checkedAt) => BeginUpdateKeeps(v, s, op, slug, input, checkedAt);
    case BeginToggle(op, slug, disabled) => BeginToggleKeeps(v, s, op, slug, disabled);
    case ReadClock(op, now) => ReadClockKeeps(v, s, op, now);
    case TryInsert(op, draw, id) => TryInsertKeeps(v, s, op, draw, id);
    case CommitUpdate(op) => CommitUpdateKeeps(v, s, op);
    case CommitToggle(op) => CommitToggleKeeps(v, s, op);
    case Abandon(op) => AbandonKeeps(v, s, op);
  }

  lemma {:induction false} RunKeeps(v: UrlValidator, s: State, events: seq<Event>)
    requires Inv(v, s)
    ensures Inv(v, Run(v, s, events)) && Descends(s.links, Run(v, s, events).links)
  {
    hide Inv, Step;
    if events != [] {
      RunKeeps(v, s, events[..|events| - 1]);
      StepKeeps(v, Run(v, s, events[..|events| - 1]), events[|events| - 1]);
    }
  }

  // ---------------------------------------------------------------- over whole runs

  lemma EmptyInv(v: UrlValidator)
    ensures Inv(v, EMPTY)
  {
  }

  /**
    In every state of every interleaving: slugs are normal and key their rows,
    ids are distinct, text rows have an empty target and lawful text, URL rows
    hold a validated target, and the CHECK holds of every row.
   */
  lemma RowsStayLawful(v: UrlValidator, events: seq<Event>)
    ensures var links := Run(v, EMPTY, events).links;
            && IdsDistinct(links)
            && forall slug :: slug in links ==>
                 && links[slug].slug == slug && NormalSlug(slug) && RowCheck(links[slug])
                 && (links[slug].text.Some? ==> links[slug].target == "" && TextOk(links[slug].text.value))
                 && (links[slug].text == None ==> FromValidator(v, links[slug].target))
  {
    EmptyInv(v);
    RunKeeps(v, EMPTY, events);
    var links := Run(v, EMPTY, events).links;
    hide Run;
    forall slug | slug in links
      ensures RowCheck(links[slug])
    {
      RowOkPassesCheck(v, links[slug]);
    }
  }

  lemma {:induction false} RunConcat(v: UrlValidator, s: State, a: seq<Event>, b: seq<Event>)
    ensures Run(v, s, a + b) == Run(v, Run(v, s, a), b)
  {
    if b == [] {
      assert a + b == a;
    } else {
      RunConcat(v, s, a, b[..|b| - 1]);
      assert (a + b)[..|a + b| - 1] == a + b[..|b| - 1];
    }
  }

  /** Once there, a row is never deleted and keeps its id, slug, creation time and kind for ever. */
  lemma IdentityIsForever(v: UrlValidator, before: seq<Event>, after: seq<Event>)
    ensures Descends(Run(v, EMPTY, before).links, Run(v, EMPTY, before + after).links)
  {
    hide Run, Inv, Descends;
    EmptyInv(v);
    RunKeeps(v, EMPTY, before);
    RunConcat(v, EMPTY, before, after);
    RunKeeps(v, Run(v, EMPTY, before), after);
  }

  /**
    An update that passed its check on a row read earlier always finds its row
    and never trips the CHECK, whatever ran in between; neither does an insert.
   */
  lemma CommitsSucceed(v: UrlValidator, events: seq<Event>, op: nat)
    ensures var s := Run(v, EMPTY, events);
            op in s.updates ==>
              forall now :: PatchOutcome(s.links, s.updates[op].slug, s.updates[op].patch, now).Ok?
    ensures var s := Run(v, EMPTY, events);
            op in s.creates ==>
              forall slug, id, now :: NormalSlug(slug) ==>
                InsertOutcome(s.links, slug, s.creates[op].content, id, now) != Err(Internal)
  {
    EmptyInv(v);
    RunKeeps(v, EMPTY, events);
    var s := Run(v, EMPTY, events);
    hide Run;
    if op in s.updates {
      forall now
        ensures PatchOutcome(s.links, s.updates[op].slug, s.updates[op].patch, now).Ok?
      {
        PendingPatchFits(v, s, op, now);
      }
    }
    if op in s.creates {
      forall slug, id, now | NormalSlug(slug)
        ensures InsertOutcome(s.links, slug, s.creates[op].content, id, now) != Err(Internal)
      {
        NewRowOk(v, s.creates[op].content, slug, id, now);
      }
    }
  }

  /**
    Last writer wins, field by field: in every reachable state, each field of each
    row is the value from the last committed operation that mentions it, however
    reads and commits interleaved; an omitted field is no mention, a null is.
   */
  lemma LastWriterWins(v: UrlValidator, events: seq<Event>, slug: string)
    ensures var s := Run(v, EMPTY, events);
            slug in s.links ==>
              && Some(Some(s.links[slug].target)) == LastMention(s.log, TargetBy(v, slug))
              && Some(s.links[slug].text) == LastMention(s.log, TextBy(slug))
              && Some(s.links[slug].labelText) == LastMention(s.log, LabelBy(slug))
              && Some(s.links[slug].expiresAt) == LastMention(s.log, ExpiryBy(slug))
              && Some(s.links[slug].disabledAt) == LastMention(s.log, DisabledBy(slug))
              && Some(s.links[slug].updatedAt) == LastMention(s.log, ClockBy(slug))
              && Some((s.links[slug].id, s.links[slug].createdAt)) == LastMention(s.log, BirthBy(slug))
  {
    EmptyInv(v);
    RunKeeps(v, EMPTY, events);
    var s := Run(v, EMPTY, events);
    assert LogExplains(v, s);
    hide Run, LastMention;
    assert slug in s.links ==> Explains(v, s.log, slug, s.links[slug]);
  }

  // ---------------------------------------------------------------- one row per create

  /** Rows and successful creates correspond one to one. */
  predicate MadeRows(s: State) {
    && (forall op :: op in s.made ==> s.made[op] in s.links)
    && (forall a, b :: a in s.made && b in s.made && s.made[a] == s.made[b] ==> a == b)
    && (forall slug :: slug in s.links ==> slug in s.made.Values)
  }

  lemma MadeOneMore(s: State, r: State, op: nat, slug: string)
    requires MadeRows(s) && op !in s.made && slug !in s.links
    requires r.made == s.made[op := slug] && r.links.Keys == s.links.Keys + {slug}
    ensures MadeRows(r)
  {
    forall k | k in r.links
      ensures k in r.made.Values
    {
      if k == slug {
        assert op in r.made && r.made[op] == slug;
      } else {
        var o :| o in s.made && s.made[o] == k;
        assert o in r.made && r.made[o] == k;
      }
    }
  }

  lemma MadeByInsert(v: UrlValidator, s: State, op: nat, slug: string, id: string)
    requires CreatesFit(v, s) && MadeRows(s) && op in s.creates && op in s.clocks
    ensures MadeRows(AfterInsert(s, op, slug, id))
  {
    var r := AfterInsert(s, op, slug, id);
    assert op !in s.made;
    hide CreatesFit, InsertOutcome;
    InsertedWhereFree(s.links, slug, s.creates[op].content, id, s.clocks[op].now);
    if InsertOutcome(s.links, slug, s.creates[op].content, id, s.clocks[op].now).Ok? {
      assert r.made == s.made[op := slug] && r.links.Keys == s.links.Keys + {slug};
      MadeOneMore(s, r, op, slug);
    }
  }

  /** Steps other than inserts add no row. */
  lemma SameKeys(v: UrlValidator, s: State, e: Event)
    requires !e.TryInsert?
    ensures var r := Step(v, s, e); r.links.Keys == s.links.Keys && r.made == s.made
  {
    hide PreparePatch, PlanCreate, ApplyPatch, RowCheck;
  }

  lemma MadeStep(v: UrlValidator, s: State, e: Event)
    requires CreatesFit(v, s) && MadeRows(s)
    ensures MadeRows(Step(v, s, e))
  {
    if e.TryInsert? {
      hide AfterInsert, CreatesFit, GenerateSlug;
      if e.op in s.creates && e.op in s.clocks && ValidDraw(e.draw) {
        MadeByInsert(v, s, e.op, s.creates[e.op].slug.GetOr(GenerateSlug(e.draw)), e.id);
      }
    } else {
      hide Step;
      SameKeys(v, s, e);
    }
  }

  /** In every interleaving each create request makes at most one row, and every row has its create. */
  lemma {:induction false} OneRowPerCreate(v: UrlValidator, events: seq<Event>)
    ensures MadeRows(Run(v, EMPTY, events))
  {
    if events != [] {
      OneRowPerCreate(v, events[..|events| - 1]);
      EmptyInv(v);
      RunKeeps(v, EMPTY, events[..|events| - 1]);
      MadeStep(v, Run(v, EMPTY, events[..|events| - 1]), events[|events| - 1]);
    }
  }
}
