/** Status classes of a link and what a visitor gets (`src/db/links.rs`, `src/web/public.rs`). */
module LinkStatus {
  import opened Options
  import opened Text
  import opened LinkRules
  import opened LinkStore

  /** `Link::is_disabled`. */
  predicate IsDisabled(row: Link) {
    row.disabledAt.Some?
  }

  /** `Link::is_expired`. */
  predicate IsExpired(row: Link, now: int) {
    row.expiresAt.Some? && row.expiresAt.value <= now
  }

  /** Seven times 24 hours. */
  const EXPIRING_SOON_MILLIS: int := 7 * 24 * 60 * 60 * 1000

  /** `i64::saturating_add` of a non-negative amount. */
  function SaturatingAdd(a: int, b: nat): int {
    if a + b > I64_MAX then I64_MAX else a + b
  }

  predicate ActiveAt(row: Link, now: int) {
    !IsDisabled(row) && !IsExpired(row, now)
  }

  predicate ExpiredAt(row: Link, now: int) {
    !IsDisabled(row) && IsExpired(row, now)
  }

  predicate ExpiringSoonAt(row: Link, now: int) {
    ActiveAt(row, now) && row.expiresAt.Some? && row.expiresAt.value <= SaturatingAdd(now, EXPIRING_SOON_MILLIS)
  }

  predicate HasControl(s: string) {
    exists i :: 0 <= i < |s| && IsControl(s[i])
  }

  /** `resolve_redirect`. */
  function Resolve(links: LinkTable, slug: string, now: int): Result<Link> {
    match GetLink(links, slug)
    case Err(e) => Err(e)
    case Ok(row) =>
      if IsDisabled(row) then Err(NotFound)
      else if IsExpired(row, now) then Err(Gone)
      else if HasControl(row.target) then Err(Internal)
      else Ok(row)
  }

  /**
    At any time a link is exactly one of active, expired and disabled; its
    visitors, in whatever case they spell the slug, are served, told it is gone,
    or told it is not there accordingly, the first only if its target has no
    control character; links expiring soon are among the active ones.
   */
  lemma StatusPartition(links: LinkTable, slug: string, now: int)
    ensures Lower(slug) !in links ==> Resolve(links, slug, now) == Err(NotFound)
    ensures Lower(slug) in links ==>
            var row := links[Lower(slug)];
            && (ActiveAt(row, now)
                <==> Resolve(links, slug, now) == if HasControl(row.target) then Err(Internal) else Ok(row))
            && (ExpiredAt(row, now) <==> Resolve(links, slug, now) == Err(Gone))
            && (IsDisabled(row) <==> Resolve(links, slug, now) == Err(NotFound))
            && (ExpiringSoonAt(row, now) ==> ActiveAt(row, now))
            && (ActiveAt(row, now) || ExpiredAt(row, now) || IsDisabled(row))
  {
  }

  /**
    What a toggle means to visitors, at any time afterwards: a link is hidden
    exactly if disabling was asked for, and no other link is affected.
   */
  lemma ToggleVisits(links: LinkTable, slug: string, disabled: bool, clock: int, other: string, now: int)
    requires Keyed(links) && Lower(slug) in links
    ensures var r := ToggleOutcome(links, slug, disabled, clock);
            && r.Ok?
            && (disabled <==> Resolve(Stored(links, r), slug, now) == Err(NotFound))
            && (Lower(other) != Lower(slug) ==> Resolve(Stored(links, r), other, now) == Resolve(links, other, now))
  {
    hide HasControl;
  }

  /** Expiring soon is expiring within seven days, wherever that does not overflow. */
  lemma ExpiringSoonWhen(row: Link, now: int)
    requires row.expiresAt.Some? ==> row.expiresAt.value <= I64_MAX
    ensures ExpiringSoonAt(row, now)
            <==> row.disabledAt == None && row.expiresAt.Some? && now < row.expiresAt.value <= now + 604_800_000
  {
  }

  /** Without writes, time only moves a link from active to expired, passing through the last seven days. */
  lemma TimeOnlyExpires(row: Link, now: int, later: int)
    requires now <= later
    ensures ActiveAt(row, later) ==> ActiveAt(row, now)
    ensures ExpiredAt(row, now) ==> ExpiredAt(row, later)
    ensures ActiveAt(row, now) ==> ActiveAt(row, later) || ExpiredAt(row, later)
    ensures ExpiringSoonAt(row, now) ==> ExpiringSoonAt(row, later) || ExpiredAt(row, later)
    ensures IsDisabled(row) ==> !ActiveAt(row, later) && !ExpiredAt(row, later)
  {
  }
}
