/** Domain validation and link rows (`src/domain/link.rs`, `migrations/`). */
module LinkRules {
  import opened Options
  import opened Text
  import opened Calendar
  import opened Rfc3339
  import opened History

  const SLUG_ALPHABET: string := "23456789abcdefghjkmnpqrstuvwxyz"

  const GENERATED_SLUG_LEN: nat := 10

  const MAX_CREATE_RETRIES: nat := 10

  const MAX_TEXT_BYTES: nat := 64 * 1024

  const RESERVED_SLUGS: seq<string> :=
    ["admin", "api", "health", "healthz", "metrics", "robots.txt", "favicon.ico", "assets", "static"]

  datatype Link = Link(
    id: string,
    slug: string,
    target: string,
    text: Option<string>,
    labelText: Option<string>,
    createdAt: int,
    updatedAt: int,
    expiresAt: Option<int>,
    disabledAt: Option<int>)

  datatype CreateInput = CreateInput(
    text: Option<string>, target: string, customSlug: Option<string>, labelText: Option<string>, expiresAt: Option<int>)

  datatype UpdateInput = UpdateInput(
    text: Option<string>, target: Option<string>, labelText: Option<Option<string>>, expiresAt: Option<Option<int>>)

  /** `validate_target_url` against the configured base: the canonical URL, or a refusal. */
  type UrlValidator = string -> Option<string>

  // ---------------------------------------------------------------- validators

  /** `validate_expiration`: in the future, and printable as RFC 3339. */
  predicate ExpirationOk(expiresAt: Option<int>, now: int) {
    expiresAt.Some? ==>
      expiresAt.value > now && Representable(expiresAt.value) && Format(expiresAt.value).Some?
  }

  /** `validate_text_content`. */
  predicate TextOk(text: string) {
    Trim(text) != [] && ByteLen(text) <= MAX_TEXT_BYTES && '\0' !in text
  }

  /** `validate_label`: trimmed, blank becomes none. */
  function ValidateLabel(raw: Option<string>): Result<Option<string>> {
    match raw
    case None => Ok(None)
    case Some(s) =>
      var t := Trim(s);
      if t == [] then Ok(None)
      else if ByteLen(t) > 256 then Err(Validation)
      else if exists i :: 0 <= i < |t| && IsControl(t[i]) && t[i] != '\t' then Err(Validation)
      else Ok(Some(t))
  }

  predicate SlugChar(c: char) {
    'a' <= c <= 'z' || '0' <= c <= '9' || c == '_' || c == '-'
  }

  /** `normalize_custom_slug`. */
  function NormalizeCustomSlug(raw: string): Result<string> {
    if raw != Trim(raw) then Err(Validation)
    else if raw == [] then Err(Validation)
    else
      var slug := Lower(raw);
      if ByteLen(slug) < 3 || ByteLen(slug) > 64 then Err(Validation)
      else if exists i :: 0 <= i < |slug| && !SlugChar(slug[i]) then Err(Validation)
      else if slug in RESERVED_SLUGS then Err(Validation)
      else Ok(slug)
  }

  /** One random index per character. */
  predicate ValidDraw(draw: seq<nat>) {
    |draw| == GENERATED_SLUG_LEN && forall i :: 0 <= i < |draw| ==> draw[i] < |SLUG_ALPHABET|
  }

  /** `generate_slug` for the indices the random source gave. */
  function GenerateSlug(draw: seq<nat>): (slug: string)
    requires ValidDraw(draw)
    ensures |slug| == GENERATED_SLUG_LEN
  {
    seq(GENERATED_SLUG_LEN, i requires 0 <= i < GENERATED_SLUG_LEN => SLUG_ALPHABET[draw[i]])
  }

  /** A slug as rows store it. */
  predicate NormalSlug(slug: string) {
    && 3 <= |slug| <= 64
    && (forall i :: 0 <= i < |slug| ==> SlugChar(slug[i]))
    && slug !in RESERVED_SLUGS
  }

  /** What a slug of one's own may be: 3 to 64 ASCII letters, digits, `_` and `-`, and not reserved in any case. */
  predicate CustomOk(raw: string) {
    && 3 <= |raw| <= 64
    && (forall i :: 0 <= i < |raw| ==>
          'a' <= raw[i] <= 'z' || 'A' <= raw[i] <= 'Z' || '0' <= raw[i] <= '9' || raw[i] == '_' || raw[i] == '-')
    && Lower(raw) !in RESERVED_SLUGS
  }

  lemma CustomIsNormal(raw: string)
    ensures CustomOk(raw) <==> NormalSlug(Lower(raw))
    ensures CustomOk(raw) ==> Trimmed(raw)
  {
    var slug := Lower(raw);
    forall i | 0 <= i < |raw|
      ensures SlugChar(slug[i])
              <==> || 'a' <= raw[i] <= 'z' || 'A' <= raw[i] <= 'Z' || '0' <= raw[i] <= '9'
                   || raw[i] == '_' || raw[i] == '-'
    {
    }
  }

  /** A custom slug is used in lower case exactly when it may be used at all. */
  lemma CustomSlugMeaning(raw: string)
    ensures NormalizeCustomSlug(raw) == if CustomOk(raw) then Ok(Lower(raw)) else Err(Validation)
    ensures CustomOk(raw) ==> NormalSlug(Lower(raw))
  {
    TrimIdentity(raw);
    CustomIsNormal(raw);
    var slug := Lower(raw);
    if forall i :: 0 <= i < |slug| ==> SlugChar(slug[i]) {
      AsciiByteLen(slug);
    }
    hide Trim, CustomOk;
  }

  lemma NormalIsLower(slug: string)
    requires NormalSlug(slug)
    ensures Lower(slug) == slug
  {
    assert forall i :: 0 <= i < |slug| ==> SlugChar(slug[i]) && LowerChar(slug[i]) == slug[i];
  }

  /** Normalizing gives normal slugs, and leaves exactly those unchanged. */
  lemma NormalizeMeaning(raw: string)
    ensures NormalizeCustomSlug(raw).Ok? ==> NormalSlug(NormalizeCustomSlug(raw).value)
    ensures NormalizeCustomSlug(raw) == Ok(raw) <==> NormalSlug(raw)
  {
    CustomSlugMeaning(raw);
    hide NormalizeCustomSlug;
    CustomIsNormal(raw);
    hide CustomOk;
    if NormalSlug(raw) {
      NormalIsLower(raw);
    }
  }

  lemma AlphabetIsPlain(i: nat)
    requires i < |SLUG_ALPHABET|
    ensures SlugChar(SLUG_ALPHABET[i]) && SLUG_ALPHABET[i] != 'i'
  {
  }

  /** Where a character stands in the alphabet, which leaves out `i`, `l` and `o`. */
  function Rank(c: char): int {
    if c <= '9' then c as int - '2' as int
    else if c <= 'h' then c as int - 'a' as int + 8
    else if c <= 'k' then c as int - 'j' as int + 16
    else if c <= 'n' then c as int - 'm' as int + 18
    else c as int - 'p' as int + 20
  }

  lemma AlphabetRank(i: nat)
    requires i < |SLUG_ALPHABET|
    ensures Rank(SLUG_ALPHABET[i]) == i
  {
  }

  /** The one reserved slug as long as a generated one has a dot in it. */
  lemma ReservedOfGeneratedLength(slug: string)
    requires |slug| == GENERATED_SLUG_LEN
    ensures slug in RESERVED_SLUGS ==> slug[6] == '.'
  {
    assert RESERVED_SLUGS[5] == "robots.txt";
  }

  /** Every generated slug is one the custom-slug rules accept as it stands. */
  lemma GeneratedIsNormal(draw: seq<nat>)
    requires ValidDraw(draw)
    ensures NormalizeCustomSlug(GenerateSlug(draw)) == Ok(GenerateSlug(draw))
  {
    var slug := GenerateSlug(draw);
    forall i | 0 <= i < |slug|
      ensures SlugChar(slug[i])
    {
      AlphabetIsPlain(draw[i]);
    }
    assert SlugChar(slug[6]);
    ReservedOfGeneratedLength(slug);
    NormalizeMeaning(slug);
  }

  /** Different draws give different slugs. */
  lemma SlugOfOneDraw(a: seq<nat>, b: seq<nat>)
    requires ValidDraw(a) && ValidDraw(b)
    ensures GenerateSlug(a) == GenerateSlug(b) <==> a == b
  {
    if GenerateSlug(a) == GenerateSlug(b) {
      forall i | 0 <= i < |a|
        ensures a[i] == b[i]
      {
        assert SLUG_ALPHABET[a[i]] == GenerateSlug(a)[i] == GenerateSlug(b)[i] == SLUG_ALPHABET[b[i]];
        AlphabetRank(a[i]);
        AlphabetRank(b[i]);
      }
    }
  }

  // ---------------------------------------------------------------- row constraints

  /** The CHECK of migration 0003. */
  predicate RowCheck(row: Link) {
    row.text.Some? ==> row.target == "" && 1 <= ByteLen(row.text.value) <= MAX_TEXT_BYTES
  }

  /** Shared text is accepted when it is not blank, has at most 64 KiB, and no NUL. */
  lemma TextMeaning(text: string)
    ensures TextOk(text)
            <==> !Blank(text) && ByteLen(text) <= 65_536 && forall i :: 0 <= i < |text| ==> text[i] as int != 0
  {
    BlankMeaning(text);
  }

  /** An expiry is accepted when it is after the clock reading and has a year of four digits. */
  lemma ExpiryMeaning(expiresAt: int, now: int)
    ensures ExpirationOk(Some(expiresAt), now) <==> expiresAt > now && 0 <= FieldsOf(expiresAt).date.year <= 9999
    ensures ExpirationOk(None, now)
  {
    hide FieldsOf, PrintSeconds, PrintFraction;
  }

  lemma TextHasBytes(text: string)
    requires TextOk(text)
    ensures 1 <= ByteLen(text) <= MAX_TEXT_BYTES
  {
    assert TrimStart([]) == [];
    assert Trim([]) == [];
  }

  predicate LabelOk(labelText: Option<string>) {
    labelText.Some? ==>
      && labelText.value != [] && Trimmed(labelText.value) && ByteLen(labelText.value) <= 256
      && forall i :: 0 <= i < |labelText.value| ==> !IsControl(labelText.value[i]) || labelText.value[i] == '\t'
  }

  lemma ValidatedLabel(raw: Option<string>)
    ensures ValidateLabel(raw).Ok? ==> LabelOk(ValidateLabel(raw).value)
  {
    if raw.Some? {
      TrimIdentity(raw.value);
    }
  }

  /** What a request's label stores: nothing if missing or blank, otherwise the text without outer whitespace. */
  ghost predicate LabelGiven(raw: Option<string>, stored: Option<string>) {
    match raw
    case None => stored == None
    case Some(s) => stored != Some([]) && TrimsTo(s, stored.GetOr([]))
  }

  /** A label is accepted exactly when what it would store is lawful, and that is then stored. */
  lemma LabelMeaning(raw: Option<string>, stored: Option<string>)
    ensures ValidateLabel(raw) == Ok(stored) <==> LabelGiven(raw, stored) && LabelOk(stored)
  {
    ValidatedLabel(raw);
    if raw.Some? {
      TrimMeaning(raw.value, stored.GetOr([]));
      TrimMeaning(raw.value, Trim(raw.value));
    }
    hide Trim, TrimsTo;
  }

  /** A label is refused when more than 256 bytes, or a control character other than a tab, are left of it. */
  lemma LabelRefused(s: string, left: string)
    requires TrimsTo(s, left)
    ensures ValidateLabel(Some(s)).Err?
            <==> left != [] && (ByteLen(left) > 256
                                || exists i :: 0 <= i < |left| && IsControl(left[i]) && left[i] as int != 9)
  {
    TrimMeaning(s, left);
    hide Trim, TrimsTo, IsControl;
  }

  lemma LabelAccepted(raw: Option<string>)
    ensures ValidateLabel(raw).Ok? <==> exists stored :: LabelGiven(raw, stored) && LabelOk(stored)
  {
    forall stored
      ensures ValidateLabel(raw) == Ok(stored) <==> LabelGiven(raw, stored) && LabelOk(stored)
    {
      LabelMeaning(raw, stored);
    }
    hide ValidateLabel, LabelGiven, LabelOk;
    if ValidateLabel(raw).Ok? {
      assert LabelGiven(raw, ValidateLabel(raw).value);
    }
  }

  /** What a label stores, computed. */
  function StoredLabel(raw: Option<string>): Option<string> {
    if raw == None || Trim(raw.value) == [] then None else Some(Trim(raw.value))
  }

  lemma StoredLabelMeaning(raw: Option<string>, stored: Option<string>)
    ensures LabelGiven(raw, stored) <==> stored == StoredLabel(raw)
  {
    if raw.Some? {
      TrimMeaning(raw.value, stored.GetOr([]));
    }
    hide Trim, TrimsTo;
  }

  ghost predicate FromValidator(v: UrlValidator, target: string) {
    exists raw :: v(raw) == Some(target)
  }

  /** What every stored row satisfies. */
  ghost predicate RowOk(v: UrlValidator, row: Link) {
    && NormalSlug(row.slug)
    && (row.text.Some? ==> row.target == "" && TextOk(row.text.value))
    && (row.text == None ==> FromValidator(v, row.target))
    && LabelOk(row.labelText)
  }

  lemma RowOkPassesCheck(v: UrlValidator, row: Link)
    requires RowOk(v, row)
    ensures RowCheck(row)
  {
    if row.text.Some? {
      TextHasBytes(row.text.value);
    }
  }

  // ---------------------------------------------------------------- patches

  /** The validated fields of an update: `None` keeps, `Some(None)` clears. */
  datatype Patch = Patch(
    target: Option<string>, text: Option<string>, labelText: Option<Option<string>>, expiresAt: Option<Option<int>>)

  /** The SET list of the UPDATE statement. */
  function ApplyPatch(row: Link, p: Patch, now: int): Link {
    row.(target := p.target.GetOr(row.target),
         text := if p.text.Some? then p.text else row.text,
         labelText := p.labelText.GetOr(row.labelText),
         expiresAt := p.expiresAt.GetOr(row.expiresAt),
         updatedAt := now)
  }

  /** `UPDATE links SET disabled_at = ?, updated_at = ?`. */
  function ApplyToggle(row: Link, disabled: bool, now: int): Link {
    row.(disabledAt := if disabled then Some(now) else None, updatedAt := now)
  }

  /** The type check of `update_link`. */
  predicate KindFits(input: UpdateInput, isText: bool) {
    (input.target.Some? ==> !isText) && (input.text.Some? ==> isText)
  }

  /** The validation part of `update_link` for a row of the given kind. */
  function PreparePatch(v: UrlValidator, input: UpdateInput, isText: bool, now: int): Result<Patch> {
    if !KindFits(input, isText) then Err(Validation)
    else if input.text.Some? && !TextOk(input.text.value) then Err(Validation)
    else if input.target.Some? && v(input.target.value) == None then Err(Validation)
    else if input.labelText.Some? && ValidateLabel(input.labelText.value).Err? then Err(Validation)
    else if input.expiresAt.Some? && !ExpirationOk(input.expiresAt.value, now) then Err(Validation)
    else
      Ok(Patch(if input.target.Some? then v(input.target.value) else None,
               input.text,
               if input.labelText.Some? then Some(ValidateLabel(input.labelText.value).value) else None,
               input.expiresAt))
  }

  /** What `update_link` asks of a request for a row of the given kind. */
  ghost predicate UpdateLawful(v: UrlValidator, input: UpdateInput, isText: bool, now: int) {
    && (input.target.Some? ==> !isText && v(input.target.value).Some?)
    && (input.text.Some? ==> isText && TextOk(input.text.value))
    && (input.labelText.Some? ==> exists stored :: LabelGiven(input.labelText.value, stored) && LabelOk(stored))
    && (input.expiresAt.Some? ==> ExpirationOk(input.expiresAt.value, now))
  }

  /** What is not lawful is a validation error, and nothing else is. */
  lemma UpdateAccepted(v: UrlValidator, input: UpdateInput, isText: bool, now: int)
    ensures var r := PreparePatch(v, input, isText, now);
            (r.Ok? <==> UpdateLawful(v, input, isText, now)) && (r.Err? ==> r == Err(Validation))
  {
    hide TextOk, ExpirationOk, ValidateLabel, LabelGiven, LabelOk;
    if input.labelText.Some? {
      LabelAccepted(input.labelText.value);
    }
  }

  /** A patch that may be applied to any row of that kind. */
  ghost predicate PatchFits(v: UrlValidator, p: Patch, isText: bool) {
    && (p.text.Some? ==> isText && TextOk(p.text.value))
    && (p.target.Some? ==> !isText && FromValidator(v, p.target.value))
    && (p.labelText.Some? ==> LabelOk(p.labelText.value))
  }

  lemma PreparedFits(v: UrlValidator, input: UpdateInput, isText: bool, now: int)
    ensures var r := PreparePatch(v, input, isText, now); r.Ok? ==> PatchFits(v, r.value, isText)
  {
    if input.labelText.Some? {
      ValidatedLabel(input.labelText.value);
    }
    if input.target.Some? {
      assert v(input.target.value).Some? ==> FromValidator(v, v(input.target.value).value);
    }
  }

  /** The patch says what the request says: an omitted field stays omitted, a null clears. */
  predicate PatchOf(v: UrlValidator, input: UpdateInput, p: Patch) {
    && (if input.target.Some? then p.target.Some? && v(input.target.value) == p.target else p.target == None)
    && p.text == input.text
    && p.labelText == (if input.labelText.Some? then Some(StoredLabel(input.labelText.value)) else None)
    && p.expiresAt == input.expiresAt
  }

  lemma PreparedPatch(v: UrlValidator, input: UpdateInput, isText: bool, now: int)
    ensures var r := PreparePatch(v, input, isText, now); r.Ok? ==> PatchOf(v, input, r.value)
  {
    hide TextOk, ExpirationOk, Trim;
  }

  /** What an update grants its request: each field that is mentioned, and no other, is given the value asked for. */
  ghost predicate Granted(v: UrlValidator, input: UpdateInput, before: Link, after: Link, now: int) {
    && (match input.target
        case None => after.target == before.target
        case Some(raw) => v(raw) == Some(after.target))
    && after.text == (if input.text.Some? then input.text else before.text)
    && (match input.labelText
        case None => after.labelText == before.labelText
        case Some(raw) => LabelGiven(raw, after.labelText))
    && after.expiresAt == (match input.expiresAt case None => before.expiresAt case Some(e) => e)
    && after.disabledAt == before.disabledAt
    && after.updatedAt == now
    && after.id == before.id && after.slug == before.slug && after.createdAt == before.createdAt
  }

  /** From the request to the row. */
  lemma PatchGrants(v: UrlValidator, input: UpdateInput, isText: bool, checkedAt: int, row: Link, now: int)
    ensures var r := PreparePatch(v, input, isText, checkedAt);
            r.Ok? ==> Granted(v, input, row, ApplyPatch(row, r.value, now), now)
  {
    PreparedPatch(v, input, isText, checkedAt);
    hide PreparePatch, StoredLabel;
    if input.labelText.Some? {
      StoredLabelMeaning(input.labelText.value, StoredLabel(input.labelText.value));
    }
  }

  /** Identity, creation time and kind are fixed at creation. */
  predicate SameIdentity(a: Link, b: Link) {
    a.id == b.id && a.slug == b.slug && a.createdAt == b.createdAt && a.text.Some? == b.text.Some?
  }

  /** A fitting patch keeps the row lawful and never changes what identifies it. */
  lemma PatchKeepsRow(v: UrlValidator, row: Link, p: Patch, now: int)
    requires RowOk(v, row) && PatchFits(v, p, row.text.Some?)
    ensures var r := ApplyPatch(row, p, now);
            RowOk(v, r) && RowCheck(r) && SameIdentity(row, r)
  {
    RowOkPassesCheck(v, ApplyPatch(row, p, now));
  }

  // ---------------------------------------------------------------- concurrent patches

  predicate Compatible<T(==)>(a: Option<T>, b: Option<T>) {
    a.Some? && b.Some? ==> a == b
  }

  /** No field is mentioned by both patches with different values. */
  predicate Agree(p: Patch, q: Patch) {
    Compatible(p.target, q.target) && Compatible(p.text, q.text)
    && Compatible(p.labelText, q.labelText) && Compatible(p.expiresAt, q.expiresAt)
  }

  /**
    Two patches commute, `updated_at` aside, exactly when they do not disagree on
    a field; in particular when their fields are disjoint.
   */
  lemma PatchesCommute(row: Link, p: Patch, q: Patch, t: int, u: int)
    ensures ApplyPatch(ApplyPatch(row, p, t), q, u).(updatedAt := 0)
            == ApplyPatch(ApplyPatch(row, q, u), p, t).(updatedAt := 0)
            <==> Agree(p, q)
  {
  }

  /** A patch and a toggle always commute, `updated_at` aside. */
  lemma PatchAndToggleCommute(row: Link, p: Patch, disabled: bool, t: int, u: int)
    ensures ApplyToggle(ApplyPatch(row, p, t), disabled, u).(updatedAt := 0)
            == ApplyPatch(ApplyToggle(row, disabled, u), p, t).(updatedAt := 0)
  {
  }

  /** Patches, each with its clock reading, applied one after the other. */
  function ApplyAll(row: Link, patches: seq<(Patch, int)>): Link {
    if patches == [] then row
    else
      var last := patches[|patches| - 1];
      ApplyPatch(ApplyAll(row, patches[..|patches| - 1]), last.0, last.1)
  }

  const TargetIn: ((Patch, int)) -> Option<string> := (p: (Patch, int)) => p.0.target

  const TextIn: ((Patch, int)) -> Option<Option<string>> :=
    (p: (Patch, int)) => if p.0.text.Some? then Some(p.0.text) else None

  const LabelIn: ((Patch, int)) -> Option<Option<string>> := (p: (Patch, int)) => p.0.labelText

  const ExpiryIn: ((Patch, int)) -> Option<Option<int>> := (p: (Patch, int)) => p.0.expiresAt

  lemma {:induction false} FieldsAfter(row: Link, patches: seq<(Patch, int)>)
    ensures var r := ApplyAll(row, patches);
            && r.target == LastMention(patches, TargetIn).GetOr(row.target)
            && r.text == LastMention(patches, TextIn).GetOr(row.text)
            && r.labelText == LastMention(patches, LabelIn).GetOr(row.labelText)
            && r.expiresAt == LastMention(patches, ExpiryIn).GetOr(row.expiresAt)
            && r.(target := row.target, text := row.text, labelText := row.labelText, expiresAt := row.expiresAt,
                  updatedAt := row.updatedAt) == row
  {
    if patches != [] {
      FieldsAfter(row, patches[..|patches| - 1]);
    }
  }

  /** Any number of patches that pairwise do not disagree give one row in any order, `updated_at` aside. */
  lemma PatchesInAnyOrder(row: Link, a: seq<(Patch, int)>, b: seq<(Patch, int)>)
    requires multiset(a) == multiset(b)
    requires forall i, j :: 0 <= i < |a| && 0 <= j < |a| ==> Agree(a[i].0, a[j].0)
    ensures ApplyAll(row, a).(updatedAt := 0) == ApplyAll(row, b).(updatedAt := 0)
  {
    FieldsAfter(row, a);
    FieldsAfter(row, b);
    hide ApplyAll, LastMention;
    forall i, j | 0 <= i < |a| && 0 <= j < |a|
      ensures TargetIn(a[i]).Some? && TargetIn(a[j]).Some? ==> TargetIn(a[i]) == TargetIn(a[j])
      ensures TextIn(a[i]).Some? && TextIn(a[j]).Some? ==> TextIn(a[i]) == TextIn(a[j])
      ensures LabelIn(a[i]).Some? && LabelIn(a[j]).Some? ==> LabelIn(a[i]) == LabelIn(a[j])
      ensures ExpiryIn(a[i]).Some? && ExpiryIn(a[j]).Some? ==> ExpiryIn(a[i]) == ExpiryIn(a[j])
    {
      assert Agree(a[i].0, a[j].0);
    }
    LastMentionPermuted(a, b, TargetIn);
    LastMentionPermuted(a, b, TextIn);
    LastMentionPermuted(a, b, LabelIn);
    LastMentionPermuted(a, b, ExpiryIn);
  }
}
