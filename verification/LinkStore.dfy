/** The links table and the statements that change it (`src/db/links.rs`). */
module LinkStore {
  import opened Options
  import opened Text
  import opened LinkRules

  /** Rows by primary key. */
  type LinkTable = map<string, Link>

  /** The primary key: every row is under its own slug. */
  predicate Keyed(links: LinkTable) {
    forall slug :: slug in links ==> links[slug].slug == slug
  }

  /** `get_link`. */
  function GetLink(links: LinkTable, slug: string): Result<Link> {
    if Lower(slug) in links then Ok(links[Lower(slug)]) else Err(NotFound)
  }

  /** The columns an INSERT takes besides slug, id and clock. */
  datatype NewContent = NewContent(
    target: string, text: Option<string>, labelText: Option<string>, expiresAt: Option<int>)

  function NewRow(slug: string, c: NewContent, id: string, now: int): Link {
    Link(id, slug, c.target, c.text, c.labelText, now, now, c.expiresAt, None)
  }

  /** No row has the slug or the id. */
  predicate Free(links: LinkTable, slug: string, id: string) {
    slug !in links && forall s :: s in links ==> links[s].id != id
  }

  /** The INSERT: uniqueness of slug and id, then the CHECK. */
  function InsertOutcome(links: LinkTable, slug: string, c: NewContent, id: string, now: int): Result<Link> {
    if !Free(links, slug, id) then Err(Conflict)
    else if !RowCheck(NewRow(slug, c, id, now)) then Err(Internal)
    else Ok(NewRow(slug, c, id, now))
  }

  lemma InsertedWhereFree(links: LinkTable, slug: string, c: NewContent, id: string, now: int)
    ensures var r := InsertOutcome(links, slug, c, id, now);
            r.Ok? ==> r.value == NewRow(slug, c, id, now) && slug !in links && Free(links, slug, id)
  {
    hide RowCheck;
  }

  /** The table after a statement that returned `r`. */
  function Stored(links: LinkTable, r: Result<Link>): LinkTable {
    match r
    case Ok(row) => links[row.slug := row]
    case Err(_) => links
  }

  /** What one try of the generated-slug loop draws and reads. */
  datatype Try = Try(draw: seq<nat>, id: string, now: int)

  predicate ValidTries(tries: seq<Try>) {
    |tries| == 10 && forall i :: 0 <= i < |tries| ==> ValidDraw(tries[i].draw)
  }

  function TryOutcome(links: LinkTable, c: NewContent, t: Try): Result<Link>
    requires ValidDraw(t.draw)
  {
    InsertOutcome(links, GenerateSlug(t.draw), c, t.id, t.now)
  }

  /** The first try that is not a conflict decides; when all are, the result is an internal error. */
  function FirstDecisive(links: LinkTable, c: NewContent, tries: seq<Try>): Result<Link>
    requires forall i :: 0 <= i < |tries| ==> ValidDraw(tries[i].draw)
  {
    if tries == [] then Err(Internal)
    else if TryOutcome(links, c, tries[0]) != Err(Conflict) then TryOutcome(links, c, tries[0])
    else FirstDecisive(links, c, tries[1..])
  }

  /** The validation part of `create_link`. */
  function PrepareCreate(v: UrlValidator, input: CreateInput, now: int): Result<NewContent> {
    if input.text.Some? && (input.target != [] || !TextOk(input.text.value)) then Err(Validation)
    else if input.text == None && v(input.target) == None then Err(Validation)
    else if ValidateLabel(input.labelText).Err? then Err(Validation)
    else if !ExpirationOk(input.expiresAt, now) then Err(Validation)
    else
      Ok(NewContent(if input.text.Some? then "" else v(input.target).value, input.text,
                    ValidateLabel(input.labelText).value, input.expiresAt))
  }

  /** A blank custom slug asks for a generated one. */
  predicate WantsGenerated(input: CreateInput) {
    input.customSlug == None || Trim(input.customSlug.value) == []
  }

  /** A lawful row under a free slug and id, with exactly the content asked for, enabled, and never updated. */
  ghost predicate NewlyMade(v: UrlValidator, links: LinkTable, input: CreateInput, row: Link) {
    && Free(links, row.slug, row.id)
    && RowOk(v, row)
    && row.createdAt == row.updatedAt && row.disabledAt == None
    && row.text == input.text && row.expiresAt == input.expiresAt
    && (if input.text.Some? then row.target == "" else v(input.target) == Some(row.target))
    && LabelGiven(input.labelText, row.labelText)
  }

  function PatchOutcome(links: LinkTable, slug: string, p: Patch, now: int): Result<Link> {
    if slug !in links then Err(NotFound)
    else if !RowCheck(ApplyPatch(links[slug], p, now)) then Err(Internal)
    else Ok(ApplyPatch(links[slug], p, now))
  }

  function ToggleOutcome(links: LinkTable, slug: string, disabled: bool, now: int): Result<Link> {
    if Lower(slug) !in links then Err(NotFound)
    else Ok(ApplyToggle(links[Lower(slug)], disabled, now))
  }

  /** `update_link` with nothing in between: read, validate against what was read, then the UPDATE. */
  function UpdateOutcome(v: UrlValidator, links: LinkTable, slug: string, input: UpdateInput, checkedAt: int, now: int)
    : Result<Link>
  {
    match GetLink(links, slug)
    case Err(e) => Err(e)
    case Ok(existing) =>
      match PreparePatch(v, input, existing.text.Some?, checkedAt)
      case Err(e) => Err(e)
      case Ok(p) => PatchOutcome(links, existing.slug, p, now)
  }

  /**
    The update read off its request: not found, refused exactly when something in
    it is not lawful, and otherwise granted, unless the table's CHECK forbids it.
   */
  ghost predicate Updates(v: UrlValidator, links: LinkTable, slug: string, input: UpdateInput, checkedAt: int, now: int,
                          r: Result<Link>)
  {
    if Lower(slug) !in links then r == Err(NotFound)
    else
      var row := links[Lower(slug)];
      && (r == Err(Validation) <==> !UpdateLawful(v, input, row.text.Some?, checkedAt))
      && (r.Ok? ==> Granted(v, input, row, r.value, now))
      && (RowOk(v, row) && UpdateLawful(v, input, row.text.Some?, checkedAt) ==> r.Ok?)
  }

  lemma UpdateMeaning(v: UrlValidator, links: LinkTable, slug: string, input: UpdateInput, checkedAt: int, now: int)
    requires Keyed(links)
    ensures Updates(v, links, slug, input, checkedAt, now, UpdateOutcome(v, links, slug, input, checkedAt, now))
  {
    if Lower(slug) in links {
      var row := links[Lower(slug)];
      UpdateAccepted(v, input, row.text.Some?, checkedAt);
      PatchGrants(v, input, row.text.Some?, checkedAt, row, now);
      PreparedFits(v, input, row.text.Some?, checkedAt);
      hide PreparePatch, ApplyPatch, UpdateLawful, Granted, RowCheck;
      var p := PreparePatch(v, input, row.text.Some?, checkedAt);
      if p.Ok? && RowOk(v, row) {
        PatchKeepsRow(v, row, p.value, now);
      }
    }
  }

  ghost predicate ContentOk(v: UrlValidator, c: NewContent) {
    && (c.text.Some? ==> c.target == "" && TextOk(c.text.value))
    && (c.text == None ==> FromValidator(v, c.target))
    && LabelOk(c.labelText)
  }

  /** Validated content makes a lawful row under any normal slug, so the CHECK does not fire. */
  lemma PreparedRowOk(v: UrlValidator, input: CreateInput, now: int)
    ensures var c := PrepareCreate(v, input, now);
            c.Ok? ==> && ContentOk(v, c.value)
                      && forall slug, id, clock :: NormalSlug(slug) ==>
                           RowOk(v, NewRow(slug, c.value, id, clock)) && RowCheck(NewRow(slug, c.value, id, clock))
  {
    var c := PrepareCreate(v, input, now);
    if c.Ok? {
      ValidatedLabel(input.labelText);
      forall slug, id, clock | NormalSlug(slug)
        ensures RowOk(v, NewRow(slug, c.value, id, clock)) && RowCheck(NewRow(slug, c.value, id, clock))
      {
        RowOkPassesCheck(v, NewRow(slug, c.value, id, clock));
      }
    }
  }

  /** The content says what the request says. */
  predicate ContentOf(v: UrlValidator, input: CreateInput, c: NewContent) {
    && c.text == input.text
    && (if input.text.Some? then c.target == "" else v(input.target) == Some(c.target))
    && c.labelText == StoredLabel(input.labelText)
    && c.expiresAt == input.expiresAt
  }

  lemma PreparedContent(v: UrlValidator, input: CreateInput, now: int)
    ensures var c := PrepareCreate(v, input, now); c.Ok? ==> ContentOf(v, input, c.value)
  {
    hide TextOk, ExpirationOk, Trim;
  }

  /** What `create_link` asks of a request. */
  ghost predicate CreateLawful(v: UrlValidator, input: CreateInput, now: int) {
    && (if input.text.Some? then input.target == "" && TextOk(input.text.value) else v(input.target).Some?)
    && (exists stored :: LabelGiven(input.labelText, stored) && LabelOk(stored))
    && ExpirationOk(input.expiresAt, now)
  }

  lemma CreateAccepted(v: UrlValidator, input: CreateInput, now: int)
    ensures PrepareCreate(v, input, now).Ok? <==> CreateLawful(v, input, now)
  {
    hide TextOk, ExpirationOk, ValidateLabel, LabelGiven, LabelOk;
    LabelAccepted(input.labelText);
  }

  /** An INSERT of validated content under a normal slug makes the row asked for if slug and id are free. */
  lemma InsertedIsNew(v: UrlValidator, input: CreateInput, now: int, links: LinkTable,
                      slug: string, id: string, clock: int)
    requires PrepareCreate(v, input, now).Ok? && NormalSlug(slug)
    ensures var r := InsertOutcome(links, slug, PrepareCreate(v, input, now).value, id, clock);
            if Free(links, slug, id) then
              r.Ok? && NewlyMade(v, links, input, r.value)
              && r.value.slug == slug && r.value.id == id && r.value.createdAt == clock
            else r == Err(Conflict)
  {
    PreparedRowOk(v, input, now);
    PreparedContent(v, input, now);
    StoredLabelMeaning(input.labelText, StoredLabel(input.labelText));
    hide RowOk, RowCheck, PrepareCreate, NormalSlug, StoredLabel, LabelGiven;
  }

  /** Success is the first try that is not a conflict; ten conflicts are the one other outcome. */
  lemma {:induction false} FirstDecisiveMeaning(links: LinkTable, c: NewContent, tries: seq<Try>)
    requires forall i :: 0 <= i < |tries| ==> ValidDraw(tries[i].draw)
    requires forall i :: 0 <= i < |tries| && TryOutcome(links, c, tries[i]).Err?
                         ==> TryOutcome(links, c, tries[i]) == Err(Conflict)
    ensures var r := FirstDecisive(links, c, tries);
            && (r.Ok? ==> exists i :: && 0 <= i < |tries| && r == TryOutcome(links, c, tries[i])
                                      && forall j :: 0 <= j < i ==> TryOutcome(links, c, tries[j]).Err?)
            && (r.Err? ==> r == Err(Internal) && forall i :: 0 <= i < |tries| ==> TryOutcome(links, c, tries[i]).Err?)
  {
    if tries != [] {
      var first, rest := tries[0], tries[1..];
      hide TryOutcome;
      FirstDecisiveMeaning(links, c, rest);
      assert forall j :: 1 <= j < |tries| ==> tries[j] == rest[j - 1];
      if TryOutcome(links, c, first).Err? && FirstDecisive(links, c, rest).Ok? {
        var i :| && 0 <= i < |rest| && FirstDecisive(links, c, rest) == TryOutcome(links, c, rest[i])
                 && forall j :: 0 <= j < i ==> TryOutcome(links, c, rest[j]).Err?;
        assert TryOutcome(links, c, tries[i + 1]) == TryOutcome(links, c, rest[i]);
      }
    }
  }

  predicate FreeTry(links: LinkTable, t: Try)
    requires ValidDraw(t.draw)
  {
    Free(links, GenerateSlug(t.draw), t.id)
  }

  /** Slug, id and clock of the row are those of the try. */
  predicate MadeBy(row: Link, t: Try)
    requires ValidDraw(t.draw)
  {
    row.slug == GenerateSlug(t.draw) && row.id == t.id && row.createdAt == t.now
  }

  lemma TryMeaning(v: UrlValidator, input: CreateInput, now: int, links: LinkTable, t: Try)
    requires PrepareCreate(v, input, now).Ok? && ValidDraw(t.draw)
    ensures var r := TryOutcome(links, PrepareCreate(v, input, now).value, t);
            if FreeTry(links, t) then r.Ok? && NewlyMade(v, links, input, r.value) && MadeBy(r.value, t)
            else r == Err(Conflict)
  {
    GeneratedIsNormal(t.draw);
    NormalizeMeaning(GenerateSlug(t.draw));
    InsertedIsNew(v, input, now, links, GenerateSlug(t.draw), t.id, t.now);
    hide PrepareCreate, NewlyMade, InsertOutcome, GenerateSlug, NormalSlug;
  }

  /**
    With a generated slug a create makes the row of its first try whose slug and
    id are free, and fails exactly when none of the ten is.
   */
  lemma GeneratedRowOk(v: UrlValidator, input: CreateInput, now: int, links: LinkTable, tries: seq<Try>)
    requires ValidTries(tries) && PrepareCreate(v, input, now).Ok?
    ensures var r := FirstDecisive(links, PrepareCreate(v, input, now).value, tries);
            && (r.Ok? ==> NewlyMade(v, links, input, r.value)
                          && exists i :: && 0 <= i < |tries| && FreeTry(links, tries[i]) && MadeBy(r.value, tries[i])
                                         && forall j :: 0 <= j < i ==> !FreeTry(links, tries[j]))
            && (r.Err? ==> r == Err(Internal) && forall i :: 0 <= i < |tries| ==> !FreeTry(links, tries[i]))
  {
    var c := PrepareCreate(v, input, now).value;
    forall i | 0 <= i < |tries|
      ensures var r := TryOutcome(links, c, tries[i]);
              if FreeTry(links, tries[i]) then r.Ok? && NewlyMade(v, links, input, r.value) && MadeBy(r.value, tries[i])
              else r == Err(Conflict)
    {
      TryMeaning(v, input, now, links, tries[i]);
    }
    hide PrepareCreate, NewlyMade, FirstDecisive, TryOutcome, FreeTry, MadeBy;
    FirstDecisiveMeaning(links, c, tries);
  }

  /** `create_link`: validation, then one INSERT of a custom slug or up to ten of generated ones. */
  function CreateOutcome(v: UrlValidator, links: LinkTable, input: CreateInput, now: int, once: Try, tries: seq<Try>)
    : Result<Link>
    requires ValidTries(tries)
  {
    match PrepareCreate(v, input, now)
    case Err(e) => Err(e)
    case Ok(c) =>
      if WantsGenerated(input) then FirstDecisive(links, c, tries)
      else
        match NormalizeCustomSlug(input.customSlug.value)
        case Err(e) => Err(e)
        case Ok(slug) => InsertOutcome(links, slug, c, once.id, once.now)
  }

  /** The request has a slug of its own. */
  predicate HasCustom(input: CreateInput) {
    input.customSlug.Some? && !Blank(input.customSlug.value)
  }

  /**
    The create read off its request: refused exactly when something in it is not
    lawful; a slug of its own is used in lower case or is a conflict; otherwise
    the first free try decides, and with none it is an internal error.
   */
  ghost predicate Creates(v: UrlValidator, links: LinkTable, input: CreateInput, now: int, once: Try, tries: seq<Try>,
                          r: Result<Link>)
    requires ValidTries(tries)
  {
    && (r == Err(Validation)
        <==> !CreateLawful(v, input, now) || (HasCustom(input) && !CustomOk(input.customSlug.value)))
    && (r.Ok? ==> NewlyMade(v, links, input, r.value))
    && (r.Ok? && HasCustom(input) ==>
          r.value.slug == Lower(input.customSlug.value) && r.value.id == once.id && r.value.createdAt == once.now)
    && (r.Ok? && !HasCustom(input) ==>
          exists i :: && 0 <= i < |tries| && FreeTry(links, tries[i]) && MadeBy(r.value, tries[i])
                      && forall j :: 0 <= j < i ==> !FreeTry(links, tries[j]))
    && (r.Err? && r != Err(Validation) ==>
          if HasCustom(input) then r == Err(Conflict) && !Free(links, Lower(input.customSlug.value), once.id)
          else r == Err(Internal) && forall i :: 0 <= i < |tries| ==> !FreeTry(links, tries[i]))
  }

  lemma PrepareErrors(v: UrlValidator, input: CreateInput, now: int)
    ensures var r := PrepareCreate(v, input, now); r.Err? ==> r == Err(Validation)
  {
  }

  lemma CreateMeaning(v: UrlValidator, links: LinkTable, input: CreateInput, now: int, once: Try, tries: seq<Try>)
    requires ValidTries(tries)
    ensures Creates(v, links, input, now, once, tries, CreateOutcome(v, links, input, now, once, tries))
  {
    CreateAccepted(v, input, now);
    PrepareErrors(v, input, now);
    hide PrepareCreate, NewlyMade, FirstDecisive, InsertOutcome, CreateLawful, NormalSlug, FreeTry, MadeBy, Free;
    if PrepareCreate(v, input, now).Ok? {
      if input.customSlug.Some? {
        BlankMeaning(input.customSlug.value);
        CustomSlugMeaning(input.customSlug.value);
      }
      hide NormalizeCustomSlug, Trim, Blank, Trimmed;
      if HasCustom(input) {
        if CustomOk(input.customSlug.value) {
          InsertedIsNew(v, input, now, links, Lower(input.customSlug.value), once.id, once.now);
        }
      } else {
        GeneratedRowOk(v, input, now, links, tries);
      }
    }
  }

  class LinkDb {
    var links: LinkTable

    constructor ()
      ensures links == map[]
    {
      links := map[];
    }

    /** `insert_link`. */
    method InsertLink(slug: string, c: NewContent, id: string, now: int) returns (r: Result<Link>)
      requires Keyed(links)
      modifies this
      ensures Keyed(links)
      ensures r == InsertOutcome(old(links), slug, c, id, now)
      ensures links == Stored(old(links), r)
    {
      var taken := id in (set s | s in links :: links[s].id);
      var row := Link(id, slug, c.target, c.text, c.labelText, now, now, c.expiresAt, None);
      if slug in links || taken {
        return Err(Conflict);
      }
      if !RowCheck(row) {
        return Err(Internal);
      }
      links := links[slug := row];
      return Ok(row);
    }

    /**
      `create_with_generated_slug`: the first try that is not a conflict decides;
      ten conflicts are an internal error and change nothing.
     */
    method CreateWithGeneratedSlug(c: NewContent, tries: seq<Try>) returns (r: Result<Link>)
      requires Keyed(links) && ValidTries(tries)
      modifies this
      ensures Keyed(links)
      ensures links == Stored(old(links), r)
      ensures r == FirstDecisive(old(links), c, tries)
    {
      for n := 0 to MAX_CREATE_RETRIES
        invariant links == old(links)
        invariant FirstDecisive(links, c, tries) == FirstDecisive(links, c, tries[n..])
      {
        assert tries[n..][0] == tries[n] && tries[n..][1..] == tries[n + 1..];
        r := InsertLink(GenerateSlug(tries[n].draw), c, tries[n].id, tries[n].now);
        if r != Err(Conflict) {
          return;
        }
      }
      return Err(Internal);
    }

    /** `create_link`. A custom slug gets one try; for a blank or missing one a slug is generated. */
    method CreateLink(v: UrlValidator, input: CreateInput, now: int, once: Try, tries: seq<Try>)
      returns (r: Result<Link>)
      requires Keyed(links) && ValidTries(tries)
      modifies this
      ensures Keyed(links)
      ensures Creates(v, old(links), input, now, once, tries, r)
      ensures links == match r case Ok(row) => old(links)[row.slug := row] case Err(_) => old(links)
      ensures r == CreateOutcome(v, old(links), input, now, once, tries)
    {
      CreateMeaning(v, links, input, now, once, tries);
      PrepareErrors(v, input, now);
      var prepared := PrepareCreate(v, input, now);
      hide PrepareCreate, InsertOutcome, FirstDecisive, NormalizeCustomSlug, Trim, Creates;
      if prepared.Err? {
        return Err(Validation);
      }
      if input.customSlug.Some? {
        if Trim(input.customSlug.value) == [] {
          r := CreateWithGeneratedSlug(prepared.value, tries);
          return;
        }
        var slug := NormalizeCustomSlug(input.customSlug.value);
        if slug.Err? {
          return Err(slug.error);
        }
        r := InsertLink(slug.value, prepared.value, once.id, once.now);
        return;
      }
      r := CreateWithGeneratedSlug(prepared.value, tries);
    }

    /** The UPDATE of `update_link`, for a slug read and a patch validated earlier. */
    method CommitPatch(slug: string, p: Patch, now: int) returns (r: Result<Link>)
      requires Keyed(links)
      modifies this
      ensures Keyed(links)
      ensures r == PatchOutcome(old(links), slug, p, now)
      ensures links == Stored(old(links), r)
    {
      if slug !in links {
        return Err(NotFound);
      }
      var row := links[slug];
      if p.target.Some? {
        row := row.(target := p.target.value);
      }
      if p.text.Some? {
        row := row.(text := p.text);
      }
      if p.labelText.Some? {
        row := row.(labelText := p.labelText.value);
      }
      if p.expiresAt.Some? {
        row := row.(expiresAt := p.expiresAt.value);
      }
      row := row.(updatedAt := now);
      if !RowCheck(row) {
        return Err(Internal);
      }
      links := links[row.slug := row];
      return Ok(row);
    }

    /** `update_link` with nothing in between: read, validate against what was read, then the UPDATE. */
    method UpdateLink(v: UrlValidator, slug: string, input: UpdateInput, checkedAt: int, now: int)
      returns (r: Result<Link>)
      requires Keyed(links)
      modifies this
      ensures Keyed(links)
      ensures Updates(v, old(links), slug, input, checkedAt, now, r)
      ensures links == match r case Ok(row) => old(links)[row.slug := row] case Err(_) => old(links)
      ensures r == UpdateOutcome(v, old(links), slug, input, checkedAt, now)
    {
      UpdateMeaning(v, links, slug, input, checkedAt, now);
      hide Updates, PreparePatch, PatchOutcome;
      var existing := GetLink(links, slug);
      if existing.Err? {
        return Err(NotFound);
      }
      var patch := PreparePatch(v, input, existing.value.text.Some?, checkedAt);
      if patch.Err? {
        return Err(patch.error);
      }
      r := CommitPatch(existing.value.slug, patch.value, now);
    }

    /** `set_disabled`. */
    method SetDisabled(slug: string, disabled: bool, now: int) returns (r: Result<Link>)
      requires Keyed(links)
      modifies this
      ensures Keyed(links)
      ensures r == ToggleOutcome(old(links), slug, disabled, now)
      ensures Lower(slug) !in old(links) ==> r == Err(NotFound) && links == old(links)
      ensures Lower(slug) in old(links) ==>
                && r.Ok? && links == old(links)[r.value.slug := r.value]
                && (disabled ==> r.value.disabledAt == Some(now)) && (!disabled ==> r.value.disabledAt == None)
                && r.value.updatedAt == now
                && r.value == old(links)[Lower(slug)].(disabledAt := r.value.disabledAt, updatedAt := now)
    {
      var key := Lower(slug);
      if key !in links {
        return Err(NotFound);
      }
      var row := links[key].(disabledAt := if disabled then Some(now) else None, updatedAt := now);
      links := links[row.slug := row];
      return Ok(row);
    }
  }
}
