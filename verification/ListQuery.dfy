/**
  The list query (`list_links` in `src/db/links.rs`): two statements assembled
  token by token and executed on the states of the tables they see, against the
  plain reading "choose, sort, take one page".
 */
module ListQuery {
  import opened Options
  import opened Text
  import opened Sequences
  import opened LinkRules
  import opened LinkStore
  import opened LinkStatus
  import Like
  import opened Clicks
  import opened Activity
  import opened Sql
  import opened Ordering
  import opened Filters
  import opened Pages

  datatype LinkSort = Newest | Oldest | RecentlyUpdated | SlugAsc | MostClicked

  datatype ListParams = ListParams(choice: Choice, sort: LinkSort, page: nat, perPage: nat)

  datatype ListItem = ListItem(link: Link, totalClicks: nat, lastClicked: Option<int>)

  datatype ListResult = ListResult(items: seq<ListItem>, total: nat, page: int, perPage: int)

  // ---------------------------------------------------------------- what should be listed

  /** What each order means for two rows. */
  predicate ComesBefore(clicks: ClickTable, sort: LinkSort, a: Link, b: Link) {
    var bySlug := Less(a.slug, b.slug);
    match sort
    case Newest => a.createdAt > b.createdAt || (a.createdAt == b.createdAt && bySlug)
    case Oldest => a.createdAt < b.createdAt || (a.createdAt == b.createdAt && bySlug)
    case RecentlyUpdated => a.updatedAt > b.updatedAt || (a.updatedAt == b.updatedAt && bySlug)
    case SlugAsc => bySlug
    case MostClicked =>
      var left, right := TotalClicks(clicks, a.id), TotalClicks(clicks, b.id);
      left > right || (left == right && bySlug)
  }

  /** The rows selected, in scan order. */
  function Chosen(c: Choice, rows: seq<Link>): seq<Link> {
    if rows == [] then []
    else (if Selected(c, rows[0]) then [rows[0]] else []) + Chosen(c, rows[1..])
  }

  function Terms(sort: LinkSort): seq<Term> {
    match sort
    case Newest => [Term(ByCreated, true), Term(BySlug, false)]
    case Oldest => [Term(ByCreated, false), Term(BySlug, false)]
    case RecentlyUpdated => [Term(ByUpdated, true), Term(BySlug, false)]
    case SlugAsc => [Term(BySlug, false)]
    case MostClicked => [Term(ByClicks, true), Term(BySlug, false)]
  }

  /** The whole ordered list a page is taken from. */
  function Listing(clicks: ClickTable, p: ListParams, rows: seq<Link>): seq<Link> {
    Sort(clicks, Terms(p.sort), Chosen(p.choice, rows))
  }

  function ItemOf(clicks: ClickTable, row: Link): ListItem {
    ListItem(row, TotalClicks(clicks, row.id), MaxLast(RowsOf(clicks, row.id, Days(clicks, row.id))))
  }

  function Items(clicks: ClickTable, rows: seq<Link>): (items: seq<ListItem>)
    ensures |items| == |rows|
    ensures forall i :: 0 <= i < |rows| ==> items[i] == ItemOf(clicks, rows[i])
  {
    seq(|rows|, i requires 0 <= i < |rows| => ItemOf(clicks, rows[i]))
  }

  /**
    Choose, sort, take one page. The page is found from the rows counted; its
    items come from the rows there are when the second statement runs.
   */
  function AnswerAcross(counted: seq<Link>, listed: seq<Link>, clicks: ClickTable, p: ListParams): ListResult {
    var total, perPage := |Chosen(p.choice, counted)|, ClampPerPage(p.perPage);
    var page := PageShown(p.page, total, perPage);
    ListResult(Items(clicks, Slice(Listing(clicks, p, listed), perPage, (page - 1) * perPage)), total, page, perPage)
  }

  /** The same with no write in between. */
  function Answer(clicks: ClickTable, p: ListParams, rows: seq<Link>): ListResult {
    var all, perPage := Listing(clicks, p, rows), ClampPerPage(p.perPage);
    ListResult(Items(clicks, PageItems(all, p.page, perPage)), |all|, PageShown(p.page, |all|, perPage), perPage)
  }

  // ---------------------------------------------------------------- executing statements

  function ParseWhere(ts: seq<Token>): Option<(Option<Expr>, seq<Token>)> {
    if !Starts(ts, Where) then Some((None, ts))
    else
      match ParseOr(ts[1..])
      case None => None
      case Some((e, rest)) => Some((Some(e), rest))
  }

  function ParseTerms(ts: seq<Token>): Option<(seq<Term>, seq<Token>)> {
    if |ts| < 2 || !ts[0].Key? || !(ts[1] == Asc || ts[1] == Desc) then None
    else
      var t := Term(ts[0].k, ts[1] == Desc);
      if |ts| >= 3 && ts[2] == Comma then
        match ParseTerms(ts[3..])
        case None => None
        case Some((more, rest)) => Some(([t] + more, rest))
      else Some(([t], ts[2..]))
  }

  function WhereHoles(w: Option<Expr>): nat {
    match w case None => 0 case Some(e) => Holes(e)
  }

  /** A row passes when the condition is true; false and unknown do not pass. */
  predicate Passing(w: Option<Expr>, row: Link, binds: seq<Value>)
    requires |binds| == WhereHoles(w)
  {
    w.Some? ==> Eval(w.value, row, binds) == True
  }

  function Choose(w: Option<Expr>, binds: seq<Value>, rows: seq<Link>): seq<Link>
    requires |binds| == WhereHoles(w)
  {
    if rows == [] then []
    else (if Passing(w, rows[0], binds) then [rows[0]] else []) + Choose(w, binds, rows[1..])
  }

  /** `SELECT COUNT(*) FROM links [WHERE ...]`; none when the statement or its bindings are malformed. */
  function RunCount(ts: seq<Token>, binds: seq<Value>, rows: seq<Link>): Option<nat> {
    if !Starts(ts, SelectCount) then None
    else
      match ParseWhere(ts[1..])
      case None => None
      case Some((w, rest)) =>
        if rest == [] && |binds| == WhereHoles(w) then Some(|Choose(w, binds, rows)|) else None
  }

  /** The last two placeholders are the limit and the offset. */
  function FetchPage(w: Option<Expr>, terms: seq<Term>, binds: seq<Value>, rows: seq<Link>, clicks: ClickTable)
    : Option<seq<ListItem>>
  {
    var n := WhereHoles(w);
    if |binds| != n + 2 || !binds[n].IntValue? || !binds[n + 1].IntValue? then None
    else Some(Items(clicks, Slice(Sort(clicks, terms, Choose(w, binds[..n], rows)), binds[n].i, binds[n + 1].i)))
  }

  const LIMIT_OFFSET: seq<Token> := [Limit, Hole, Offset, Hole]

  /** `SELECT links.*, totals FROM links [WHERE ...] ORDER BY ... LIMIT ? OFFSET ?`. */
  function RunList(ts: seq<Token>, binds: seq<Value>, rows: seq<Link>, clicks: ClickTable): Option<seq<ListItem>> {
    if !Starts(ts, SelectRows) then None
    else
      match ParseWhere(ts[1..])
      case None => None
      case Some((w, ordered)) =>
        if !Starts(ordered, OrderBy) then None
        else
          match ParseTerms(ordered[1..])
          case None => None
          case Some((terms, rest)) =>
            if rest == LIMIT_OFFSET then FetchPage(w, terms, binds, rows, clicks) else None
  }

  // ---------------------------------------------------------------- the operation

  /** `order_clause`. */
  function OrderClause(sort: LinkSort): seq<Token> {
    match sort
    case Newest => [Key(ByCreated), Desc, Comma, Key(BySlug), Asc]
    case Oldest => [Key(ByCreated), Asc, Comma, Key(BySlug), Asc]
    case RecentlyUpdated => [Key(ByUpdated), Desc, Comma, Key(BySlug), Asc]
    case SlugAsc => [Key(BySlug), Asc]
    case MostClicked => [Key(ByClicks), Desc, Comma, Key(BySlug), Asc]
  }

  /** The bindings of the condition, appended to a query one by one. */
  method BindChoice(binds: seq<Value>, c: Choice) returns (q: seq<Value>)
    ensures q == binds + WhereBinds(c)
  {
    hide SearchTerm, Like.SearchPattern, SaturatingAdd;
    q := binds;
    if NeedsNow(c.status) {
      q := q + [IntValue(c.now)];
    }
    if c.status.ExpiringSoon? {
      q := q + [IntValue(SaturatingAdd(c.now, EXPIRING_SOON_MILLIS))];
    }
    assert q == binds + StatusBinds(c.status, c.now);
    var term := SearchTerm(c.query);
    if term.Some? {
      var like := TextValue(Like.SearchPattern(term.value));
      q := q + [like] + [like] + [like];
    }
    assert q == binds + StatusBinds(c.status, c.now) + SearchBinds(term);
  }

  /** The fragments of the condition, pushed one by one. */
  method PushFilters(c: Choice) returns (filters: seq<seq<Token>>)
    ensures filters == FilterTexts(c)
  {
    hide SearchTerm;
    filters := [];
    var statusSql := StatusPredicate(c.status);
    if statusSql != [] {
      filters := filters + [statusSql];
    }
    if !c.kind.AnyKind? {
      filters := filters + [KindPredicate(c.kind)];
    }
    if SearchTerm(c.query).Some? {
      filters := filters + [SEARCH_PREDICATE];
    }
  }

  lemma SortKeepsLength(clicks: ClickTable, ts: seq<Term>, rows: seq<Link>)
    ensures |Sort(clicks, ts, rows)| == |rows|
  {
    assert |multiset(Sort(clicks, ts, rows))| == |multiset(rows)|;
  }

  function CountText(c: Choice): seq<Token> {
    [SelectCount] + WhereText(c)
  }

  lemma {:induction false} ChooseIsChosen(w: Option<Expr>, binds: seq<Value>, c: Choice, rows: seq<Link>)
    requires |binds| == WhereHoles(w)
    requires forall row :: Passing(w, row, binds) <==> Selected(c, row)
    ensures Choose(w, binds, rows) == Chosen(c, rows)
  {
    hide Passing, Selected;
    if rows != [] {
      ChooseIsChosen(w, binds, c, rows[1..]);
    }
  }

  /** The condition of either statement parses to one that passes exactly the selected rows. */
  lemma WhereParses(c: Choice, rest: seq<Token>) returns (w: Option<Expr>)
    requires !Starts(rest, AndWord) && !Starts(rest, OrWord) && !Starts(rest, Where)
    ensures ParseWhere(WhereText(c) + rest) == Some((w, rest))
    ensures WhereHoles(w) == |WhereBinds(c)|
    ensures forall row :: Passing(w, row, WhereBinds(c)) <==> Selected(c, row)
  {
    hide ParseOr, Selected, FilterTexts, JoinAnd, Eval, Holes, WhereBinds;
    var ts := WhereText(c) + rest;
    if FilterTexts(c) == [] {
      assert ts == rest;
      w := None;
      forall row
        ensures WhereBinds(c) == [] && Selected(c, row)
      {
        NoClauseSelectsAll(c, row);
      }
      NoClauseSelectsAll(c, Link("", "", "", None, None, 0, 0, None, None));
    } else {
      var e := ClauseSelects(c, rest);
      assert ts[1..] == JoinAnd(FilterTexts(c)) + rest;
      w := Some(e);
    }
  }

  /** The count statement counts the chosen rows. */
  lemma CountRuns(c: Choice, rows: seq<Link>)
    ensures RunCount(CountText(c), WhereBinds(c), rows) == Some(|Chosen(c, rows)|)
  {
    var w := WhereParses(c, []);
    hide ParseWhere, WhereText, WhereBinds, Passing, Selected;
    assert CountText(c)[1..] == WhereText(c) + [];
    ChooseIsChosen(w, WhereBinds(c), c, rows);
  }

  function ListText(c: Choice, sort: LinkSort): seq<Token> {
    [SelectRows] + WhereText(c) + [OrderBy] + OrderClause(sort) + LIMIT_OFFSET
  }

  lemma SlugTermLast()
    ensures ParseTerms([Key(BySlug), Asc] + LIMIT_OFFSET) == Some(([Term(BySlug, false)], LIMIT_OFFSET))
  {
    assert ([Key(BySlug), Asc] + LIMIT_OFFSET)[2..] == LIMIT_OFFSET;
  }

  lemma TermThenMore(k: SortKey, direction: Token, more: seq<Token>)
    requires (direction == Asc || direction == Desc) && ParseTerms(more).Some?
    ensures ParseTerms([Key(k), direction, Comma] + more)
            == Some(([Term(k, direction == Desc)] + ParseTerms(more).value.0, ParseTerms(more).value.1))
  {
    assert ([Key(k), direction, Comma] + more)[3..] == more;
  }

  lemma TermsReadBack(sort: LinkSort)
    ensures ParseTerms(OrderClause(sort) + LIMIT_OFFSET) == Some((Terms(sort), LIMIT_OFFSET))
  {
    hide ParseTerms;
    SlugTermLast();
    var last := [Key(BySlug), Asc] + LIMIT_OFFSET;
    var ts := OrderClause(sort) + LIMIT_OFFSET;
    if sort != SlugAsc {
      TermThenMore(ts[0].k, ts[1], last);
      assert ts == [ts[0], ts[1], Comma] + last;
      assert [Term(ts[0].k, ts[1] == Desc)] + [Term(BySlug, false)] == Terms(sort);
    }
  }

  lemma DropHead(t: Token, ts: seq<Token>)
    ensures ([t] + ts)[1..] == ts
  {
  }

  lemma ListTextShape(c: Choice, sort: LinkSort)
    ensures ListText(c, sort) == [SelectRows] + (WhereText(c) + ([OrderBy] + (OrderClause(sort) + LIMIT_OFFSET)))
  {
    hide WhereText, OrderClause;
    Associate([OrderBy], OrderClause(sort), LIMIT_OFFSET);
    Associate(WhereText(c), [OrderBy], OrderClause(sort));
    Associate(WhereText(c), [OrderBy] + OrderClause(sort), LIMIT_OFFSET);
    Associate([SelectRows], WhereText(c), [OrderBy]);
    Associate([SelectRows], WhereText(c) + [OrderBy], OrderClause(sort));
    Associate([SelectRows], WhereText(c) + [OrderBy] + OrderClause(sort), LIMIT_OFFSET);
  }

  lemma FetchRuns(w: Option<Expr>, terms: seq<Term>, where: seq<Value>, limit: int, offset: int,
                  rows: seq<Link>, clicks: ClickTable)
    requires |where| == WhereHoles(w)
    ensures FetchPage(w, terms, where + [IntValue(limit)] + [IntValue(offset)], rows, clicks)
            == Some(Items(clicks, Slice(Sort(clicks, terms, Choose(w, where, rows)), limit, offset)))
  {
    hide Choose, Sort, Slice, Items, WhereHoles;
    var binds := where + [IntValue(limit)] + [IntValue(offset)];
    assert binds[..|where|] == where;
  }

  /** The list statement sorts and slices the same rows. */
  lemma ListRuns(c: Choice, sort: LinkSort, limit: int, offset: int, rows: seq<Link>, clicks: ClickTable)
    ensures RunList(ListText(c, sort), WhereBinds(c) + [IntValue(limit)] + [IntValue(offset)], rows, clicks)
            == Some(Items(clicks, Slice(Sort(clicks, Terms(sort), Chosen(c, rows)), limit, offset)))
  {
    hide ParseWhere, ParseTerms, WhereText, WhereBinds, Passing, Selected, FetchPage, OrderClause, Terms;
    hide ListText, Sort, Choose, Chosen, Slice, Items, WhereHoles;
    var tail := OrderClause(sort) + LIMIT_OFFSET;
    var rest := [OrderBy] + tail;
    var w := WhereParses(c, rest);
    TermsReadBack(sort);
    ListTextShape(c, sort);
    DropHead(OrderBy, tail);
    DropHead(SelectRows, WhereText(c) + rest);
    ChooseIsChosen(w, WhereBinds(c), c, rows);
    FetchRuns(w, Terms(sort), WhereBinds(c), limit, offset, rows, clicks);
  }

  /**
    `list_links`: always the plain answer, never a malformed statement. Each of
    the two statements sees the table as it then is.
   */
  method ListLinks(counted: seq<Link>, listed: seq<Link>, clicks: ClickTable, p: ListParams)
    returns (r: Result<ListResult>)
    ensures r == Ok(AnswerAcross(counted, listed, clicks, p))
    ensures counted == listed ==> r == Ok(Answer(clicks, p, listed))
  {
    hide Selected, WhereBinds, FilterTexts, JoinAnd, RunCount, RunList, Sort, TotalPages, OrderClause, Items;
    var c := p.choice;
    var perPage := ClampPerPage(p.perPage);
    var countSql: seq<Token> := [SelectCount];
    var listSql: seq<Token> := [SelectRows];
    var filters := PushFilters(c);
    if filters != [] {
      var clause := [Where] + JoinAnd(filters);
      countSql := countSql + clause;
      listSql := listSql + clause;
    }
    assert countSql == CountText(c) && listSql == [SelectRows] + WhereText(c);
    listSql := listSql + [OrderBy];
    listSql := listSql + OrderClause(p.sort);
    listSql := listSql + LIMIT_OFFSET;

    var countBinds := BindChoice([], c);
    assert countBinds == WhereBinds(c);
    CountRuns(c, counted);
    var count := RunCount(countSql, countBinds, counted);
    if count == None {
      return Err(Internal);
    }
    var total := count.value;
    var page := PageShown(p.page, total, perPage);
    var offset := (page - 1) * perPage;
    var listBinds := BindChoice([], c);
    assert listBinds == WhereBinds(c);
    listBinds := listBinds + [IntValue(perPage)] + [IntValue(offset)];
    ListRuns(c, p.sort, perPage, offset, listed, clicks);
    SortKeepsLength(clicks, Terms(p.sort), Chosen(c, listed));
    var items := RunList(listSql, listBinds, listed, clicks);
    if items == None {
      return Err(Internal);
    }
    r := Ok(ListResult(items.value, total, page, perPage));
  }

  // ---------------------------------------------------------------- what the plain reading means

  lemma BeforeOne(clicks: ClickTable, t: Term, a: Link, b: Link)
    ensures Before(clicks, [t], a, b) <==> TermLess(clicks, t, a, b)
  {
    hide TermLess;
    assert [t][1..] == [];
  }

  lemma BeforeTwo(clicks: ClickTable, t: Term, u: Term, a: Link, b: Link)
    ensures Before(clicks, [t, u], a, b)
            <==> TermLess(clicks, t, a, b) || (!TermLess(clicks, t, b, a) && TermLess(clicks, u, a, b))
  {
    BeforeOne(clicks, u, a, b);
    hide TermLess;
    assert [t, u][1..] == [u];
  }

  /** Every order is the stated one, and ends in a term that separates any two rows. */
  lemma OrderMeaning(clicks: ClickTable, sort: LinkSort, a: Link, b: Link)
    ensures Separates(Terms(sort))
    ensures Before(clicks, Terms(sort), a, b) <==> ComesBefore(clicks, sort, a, b)
  {
    hide TotalClicks, Less;
    var ts := Terms(sort);
    assert ts[|ts| - 1].key == BySlug;
    BeforeOne(clicks, Term(BySlug, false), a, b);
    if sort != SlugAsc {
      BeforeTwo(clicks, ts[0], Term(BySlug, false), a, b);
      assert ts == [ts[0], Term(BySlug, false)];
    }
    hide Before;
  }

  lemma {:induction false} ChosenMembers(c: Choice, rows: seq<Link>)
    ensures forall r :: r in Chosen(c, rows) <==> r in rows && Selected(c, r)
  {
    hide Selected;
    if rows != [] {
      ChosenMembers(c, rows[1..]);
      assert rows == [rows[0]] + rows[1..];
    }
  }

  lemma {:induction false} ChosenDistinct(c: Choice, rows: seq<Link>)
    requires Distinct(rows)
    ensures Distinct(Chosen(c, rows))
  {
    hide Selected;
    if rows != [] {
      var head, tail := rows[0], rows[1..];
      ChosenDistinct(c, tail);
      ChosenMembers(c, tail);
      forall r | r in Chosen(c, tail)
        ensures r.slug != head.slug
      {
        var i :| 0 <= i < |tail| && tail[i] == r;
        assert rows[i + 1] == r;
      }
    }
  }

  /** `rows` lists a table of links once each. */
  predicate Lists(rows: seq<Link>, links: LinkTable) {
    && Distinct(rows)
    && (forall r :: r in rows ==> r.slug in links && links[r.slug] == r)
    && (forall slug :: slug in links ==> links[slug] in rows)
  }

  lemma TwiceCounts(b: seq<Link>, i: nat, j: nat)
    requires i < j < |b|
    ensures b[i] == b[j] ==> multiset(b)[b[i]] >= 2
  {
    assert b == b[..j] + b[j..];
    assert b[i] == b[..j][i] && b[j] == b[j..][0];
  }

  lemma {:induction false} AtMostOnce(a: seq<Link>, x: nat)
    requires Distinct(a) && x < |a|
    ensures multiset(a)[a[x]] == 1
  {
    var before, after := a[..x], a[x + 1..];
    assert a == before + [a[x]] + after;
    assert a[x] !in before && a[x] !in after;
  }

  /** A rearrangement of rows with distinct slugs has distinct slugs. */
  lemma OneEach(a: seq<Link>, b: seq<Link>, i: nat, j: nat)
    requires Distinct(a) && multiset(a) == multiset(b) && i < j < |b|
    ensures b[i].slug != b[j].slug
  {
    assert b[i] in multiset(a) && b[j] in multiset(a);
    var x :| 0 <= x < |a| && a[x] == b[i];
    var y :| 0 <= y < |a| && a[y] == b[j];
    AtMostOnce(a, x);
    TwiceCounts(b, i, j);
  }

  /** The listing holds exactly the selected rows, once each, in the stated order. */
  lemma ListingMeaning(clicks: ClickTable, p: ListParams, rows: seq<Link>)
    requires Distinct(rows)
    ensures var all := Listing(clicks, p, rows);
            && (forall r :: r in all <==> r in rows && Selected(p.choice, r))
            && Distinct(all)
            && (forall i, j :: 0 <= i < j < |all| ==> ComesBefore(clicks, p.sort, all[i], all[j]))
  {
    var all, chosen := Listing(clicks, p, rows), Chosen(p.choice, rows);
    ChosenMembers(p.choice, rows);
    ChosenDistinct(p.choice, rows);
    forall a, b
      ensures Separates(Terms(p.sort)) && (Before(clicks, Terms(p.sort), a, b) <==> ComesBefore(clicks, p.sort, a, b))
    {
      OrderMeaning(clicks, p.sort, a, b);
    }
    hide Before, ComesBefore, Selected, Terms, Separates, Chosen;
    var any := Link("", "", "", None, None, 0, 0, None, None);
    OrderMeaning(clicks, p.sort, any, any);
    SortSorts(clicks, Terms(p.sort), chosen);
    forall r
      ensures r in all <==> r in chosen
    {
      assert r in multiset(all) <==> r in multiset(chosen);
    }
    forall i, j | 0 <= i < j < |all|
      ensures all[i].slug != all[j].slug
    {
      OneEach(chosen, all, i, j);
    }
  }

  /**
    What a search lists, read off the query itself: every row of the status and
    kind with the text, outer whitespace dropped, in its slug, target or label,
    and no row without it unless the text has a wildcard.
   */
  lemma SearchLists(clicks: ClickTable, p: ListParams, rows: seq<Link>, t: string, row: Link)
    requires Distinct(rows) && p.choice.query.Some? && t != [] && TrimsTo(p.choice.query.value, t)
    ensures var listed := row in Listing(clicks, p, rows);
            var fits := StatusMatches(p.choice.status, row, p.choice.now) && KindMatches(p.choice.kind, row);
            && (listed ==> row in rows && fits)
            && (row in rows && fits && OccursInRow(t, row) ==> listed)
            && (listed && !Like.HasWildcard(t) ==> OccursInRow(t, row))
  {
    ListingMeaning(clicks, p, rows);
    SearchSelects(p.choice, t, row);
    hide Listing, Selected, TrimsTo, OccursInRow, Like.HasWildcard, StatusMatches, KindMatches;
  }

  /** With a missing or blank query a row is listed exactly when its columns say so. */
  lemma BlankSearchLists(clicks: ClickTable, p: ListParams, rows: seq<Link>, row: Link)
    requires Distinct(rows) && (p.choice.query == None || Blank(p.choice.query.value))
    requires row.expiresAt.Some? ==> row.expiresAt.value <= I64_MAX
    ensures var now := p.choice.now;
            var enabled, expires := row.disabledAt == None, row.expiresAt.Some?;
            row in Listing(clicks, p, rows)
            <==> && row in rows
                 && (match p.choice.status
                     case AnyStatus => true
                     case Active => enabled && (expires ==> now < row.expiresAt.value)
                     case ExpiringSoon => enabled && expires && now < row.expiresAt.value <= now + 604_800_000
                     case Expired => enabled && expires && row.expiresAt.value <= now
                     case Disabled => !enabled)
                 && (match p.choice.kind
                     case AnyKind => true
                     case UrlKind => row.text == None
                     case TextKind => row.text != None)
  {
    ListingMeaning(clicks, p, rows);
    BlankSearchSelects(p.choice, row);
    ExpiringSoonWhen(row, p.choice.now);
    hide Listing, Selected, Blank, ExpiringSoonAt;
  }

  lemma {:induction false} DistinctSize(rows: seq<Link>)
    requires Distinct(rows)
    ensures |set row | row in rows| == |rows|
  {
    if rows != [] {
      var last, before := rows[|rows| - 1], rows[..|rows| - 1];
      DistinctSize(before);
      assert (set row | row in rows) == (set row | row in before) + {last};
      assert last !in before;
    }
  }

  /** The total is the number of rows selected among those counted. */
  lemma TotalIsSelected(counted: seq<Link>, listed: seq<Link>, clicks: ClickTable, p: ListParams)
    requires Distinct(counted)
    ensures AnswerAcross(counted, listed, clicks, p).total == |set row | row in counted && Selected(p.choice, row)|
  {
    var chosen := Chosen(p.choice, counted);
    ChosenMembers(p.choice, counted);
    ChosenDistinct(p.choice, counted);
    hide Selected, Chosen, Listing, PageShown, Slice, Items;
    assert (set row | row in counted && Selected(p.choice, row)) == (set row | row in chosen);
    DistinctSize(chosen);
  }

  lemma SameBag(a: seq<Link>, b: seq<Link>)
    requires Distinct(a) && Distinct(b) && forall r :: r in a <==> r in b
    ensures multiset(a) == multiset(b)
  {
    forall r
      ensures multiset(a)[r] == multiset(b)[r]
    {
      if r in a {
        var x :| 0 <= x < |a| && a[x] == r;
        var y :| 0 <= y < |b| && b[y] == r;
        AtMostOnce(a, x);
        AtMostOnce(b, y);
      }
    }
  }

  lemma SameChosen(clicks: ClickTable, p: ListParams, a: seq<Link>, b: seq<Link>, links: LinkTable)
    requires Lists(a, links) && Lists(b, links)
    ensures |Chosen(p.choice, a)| == |Chosen(p.choice, b)| && Listing(clicks, p, a) == Listing(clicks, p, b)
  {
    var ca, cb := Chosen(p.choice, a), Chosen(p.choice, b);
    ChosenMembers(p.choice, a);
    ChosenMembers(p.choice, b);
    ChosenDistinct(p.choice, a);
    ChosenDistinct(p.choice, b);
    var any := Link("", "", "", None, None, 0, 0, None, None);
    OrderMeaning(clicks, p.sort, any, any);
    hide Selected, Chosen, Terms, Separates;
    assert forall r :: r in a <==> r in b;
    SameBag(ca, cb);
    assert |ca| == |multiset(ca)| && |cb| == |multiset(cb)|;
    ScanOrderIrrelevant(clicks, Terms(p.sort), ca, cb);
  }

  /** The answer depends on the two tables, not on the order in which their rows are scanned. */
  lemma AnswerIsOfTable(clicks: ClickTable, p: ListParams, a: seq<Link>, b: seq<Link>, links: LinkTable,
                        later: seq<Link>, laterScan: seq<Link>, laterLinks: LinkTable)
    requires Lists(a, links) && Lists(b, links) && Lists(later, laterLinks) && Lists(laterScan, laterLinks)
    ensures AnswerAcross(a, later, clicks, p) == AnswerAcross(b, laterScan, clicks, p)
  {
    hide Lists, Listing, Chosen, Slice, PageShown, Items;
    SameChosen(clicks, p, a, b, links);
    SameChosen(clicks, p, later, laterScan, laterLinks);
  }

  // ---------------------------------------------------------------- the answers to all pages

  /** The items answered for pages `1..n`, one page after another. */
  function AnswerPages(clicks: ClickTable, p: ListParams, rows: seq<Link>, n: nat): seq<ListItem> {
    if n == 0 then [] else AnswerPages(clicks, p, rows, n - 1) + Answer(clicks, p.(page := n), rows).items
  }

  lemma ListingIgnoresPage(clicks: ClickTable, p: ListParams, rows: seq<Link>, n: nat)
    ensures Listing(clicks, p.(page := n), rows) == Listing(clicks, p, rows)
  {
  }

  lemma {:induction false} AnswerPagesAreItems(clicks: ClickTable, p: ListParams, rows: seq<Link>, n: nat)
    ensures AnswerPages(clicks, p, rows, n)
            == Items(clicks, FirstPages(Listing(clicks, p, rows), ClampPerPage(p.perPage), n))
  {
    hide ItemOf, PageItems, Listing;
    if n > 0 {
      AnswerPagesAreItems(clicks, p, rows, n - 1);
      var all := Listing(clicks, p, rows);
      assert Listing(clicks, p.(page := n), rows) == all by {
        ListingIgnoresPage(clicks, p, rows, n);
      }
    }
  }

  lemma SameItemsSameRows(clicks: ClickTable, a: seq<Link>, b: seq<Link>)
    ensures Items(clicks, a) == Items(clicks, b) <==> a == b
  {
    if Items(clicks, a) == Items(clicks, b) {
      assert |a| == |b|;
      forall i | 0 <= i < |a|
        ensures a[i] == b[i]
      {
        assert ItemOf(clicks, a[i]) == Items(clicks, a)[i] == Items(clicks, b)[i] == ItemOf(clicks, b[i]);
      }
    }
  }

  /**
    Asking for page 1, 2, ... up to the last lists every selected row exactly
    once in order, with its figures, unless there are more pages than the cast
    can count; and a request is never answered with nothing while rows match.
   */
  lemma AnswersTile(clicks: ClickTable, p: ListParams, rows: seq<Link>)
    ensures var total, perPage := Answer(clicks, p, rows).total, Answer(clicks, p, rows).perPage;
            && (AnswerPages(clicks, p, rows, TotalPages(total, perPage)) == Items(clicks, Listing(clicks, p, rows))
                <==> total <= U32_MAX * perPage)
            && (total > 0 ==> Answer(clicks, p, rows).items != [])
  {
    var all, perPage := Listing(clicks, p, rows), ClampPerPage(p.perPage);
    var n := TotalPages(|all|, perPage);
    AnswerPagesAreItems(clicks, p, rows, n);
    PagesTile(all, perPage);
    ClampedPageHasItems(all, p.page, perPage);
    hide Listing, TotalPages, PageItems, FirstPages, Items;
    SameItemsSameRows(clicks, FirstPages(all, perPage, n), all);
  }

  lemma ItemsMembers(clicks: ClickTable, rows: seq<Link>, row: Link)
    ensures ItemOf(clicks, row) in Items(clicks, rows) <==> row in rows
  {
    var items := Items(clicks, rows);
    if row in rows {
      var k :| 0 <= k < |rows| && rows[k] == row;
      assert items[k] == ItemOf(clicks, row);
    }
    if ItemOf(clicks, row) in items {
      var k :| 0 <= k < |items| && items[k] == ItemOf(clicks, row);
      assert ItemOf(clicks, rows[k]).link == rows[k];
    }
  }

  /** A row of the listing is on the page a request visits exactly when its number is in the displayed range. */
  lemma OnVisitedPage(all: seq<Link>, perPage: int, i: int, requested: int)
    requires Distinct(all) && perPage >= 1 && 1 <= i <= |all|
    ensures all[i - 1] in PageItems(all, NormalizePage(Some(requested)), perPage)
            <==> InRange(i, Displayed(all, requested, perPage))
  {
    VisitContents(all, requested, perPage);
    RangeBounds(all, Visit(requested, |all|, perPage), perPage);
    hide RangeOfPage;
    DisplayedRanges(all, perPage, i, requested);
    hide PageItems, Displayed, Visit, PageWith, NormalizePage, TotalPages;
    var items := PageItems(all, NormalizePage(Some(requested)), perPage);
    var low := (Visit(requested, |all|, perPage) - 1) * perPage;
    if all[i - 1] in items {
      var k :| 0 <= k < |items| && items[k] == all[i - 1];
      assert items[k] == all[low + k];
      assert low + k == i - 1;
    }
  }

  /** Some request answers row number `i` of the listing. */
  ghost predicate Reached(clicks: ClickTable, p: ListParams, rows: seq<Link>, i: int)
    requires 1 <= i <= |Listing(clicks, p, rows)|
  {
    exists requested: int ::
      ItemOf(clicks, Listing(clicks, p, rows)[i - 1])
      in Answer(clicks, p.(page := NormalizePage(Some(requested))), rows).items
  }

  /**
    Requests have their page normalized before the query: row number `i` of the
    listing is answered to some request exactly when it is within 10000 pages.
   */
  lemma RequestReaches(clicks: ClickTable, p: ListParams, rows: seq<Link>, i: int)
    requires Distinct(rows) && 1 <= i <= |Listing(clicks, p, rows)|
    ensures Reached(clicks, p, rows, i) <==> i <= MAX_PAGE * ClampPerPage(p.perPage)
  {
    ListingMeaning(clicks, p, rows);
    hide Listing, ItemOf, Items, PageItems, Displayed, ComesBefore, Selected, NormalizePage;
    var all, perPage := Listing(clicks, p, rows), ClampPerPage(p.perPage);
    forall requested: int
      ensures ItemOf(clicks, all[i - 1]) in Answer(clicks, p.(page := NormalizePage(Some(requested))), rows).items
              <==> InRange(i, Displayed(all, requested, perPage))
    {
      var asked := NormalizePage(Some(requested));
      ListingIgnoresPage(clicks, p, rows, asked);
      ItemsMembers(clicks, PageItems(all, asked, perPage), all[i - 1]);
      OnVisitedPage(all, perPage, i, requested);
    }
    DisplayedWhen(all, perPage, i);
  }

  /** So requests reach every selected row exactly when 10000 pages are enough. */
  lemma RequestsReachAll(clicks: ClickTable, p: ListParams, rows: seq<Link>)
    requires Distinct(rows)
    ensures var total := |Listing(clicks, p, rows)|;
            (forall i :: 1 <= i <= total ==> Reached(clicks, p, rows, i))
            <==> total <= MAX_PAGE * ClampPerPage(p.perPage)
  {
    hide Listing, Reached;
    var total := |Listing(clicks, p, rows)|;
    forall i | 1 <= i <= total
      ensures Reached(clicks, p, rows, i) <==> i <= MAX_PAGE * ClampPerPage(p.perPage)
    {
      RequestReaches(clicks, p, rows, i);
    }
    assert total >= 1 ==> (Reached(clicks, p, rows, total) <==> total <= MAX_PAGE * ClampPerPage(p.perPage));
  }

  lemma AnswerParts(counted: seq<Link>, listed: seq<Link>, clicks: ClickTable, p: ListParams)
    ensures var r := AnswerAcross(counted, listed, clicks, p);
            && r.perPage == ClampPerPage(p.perPage)
            && r.page == PageShown(p.page, r.total, r.perPage)
            && r.items == Items(clicks, Slice(Listing(clicks, p, listed), r.perPage, (r.page - 1) * r.perPage))
  {
    hide Chosen, Listing, PageShown, ClampPerPage, Items, Slice;
  }

  /**
    An answer shows the page asked for, unless it is past the last of the rows
    counted, in the size asked for within 1 to 100.
   */
  lemma AnswerPage(counted: seq<Link>, listed: seq<Link>, clicks: ClickTable, p: ListParams)
    ensures var r := AnswerAcross(counted, listed, clicks, p);
            && r.page >= 1 && 1 <= r.perPage <= 100
            && (1 <= p.perPage <= 100 ==> r.perPage == p.perPage)
            && (1 <= p.page <= U32_MAX && (p.page - 1) * r.perPage < r.total ==> r.page == p.page)
            && (r.total > 0 ==> (r.page - 1) * r.perPage < r.total)
  {
    AnswerParts(counted, listed, clicks, p);
    hide AnswerAcross, PageShown, Items, Slice;
    var r := AnswerAcross(counted, listed, clicks, p);
    ShownPage(p.page, r.total, r.perPage);
  }

  lemma SliceShows(clicks: ClickTable, all: seq<Link>, perPage: int, start: int)
    requires perPage >= 1 && start >= 0
    ensures var items := Items(clicks, Slice(all, perPage, start));
            && |items| == (if |all| <= start then 0 else if |all| - start < perPage then |all| - start else perPage)
            && (forall k :: 0 <= k < |items| ==> items[k] == ItemOf(clicks, all[start + k]))
  {
    hide ItemOf;
  }

  /** It holds the rows of the listing from its offset on, in order, as many as fit or are left. */
  lemma AnswerItems(counted: seq<Link>, listed: seq<Link>, clicks: ClickTable, p: ListParams)
    ensures var r, all := AnswerAcross(counted, listed, clicks, p), Listing(clicks, p, listed);
            var start := (r.page - 1) * r.perPage;
            && start >= 0
            && |r.items|
               == (if |all| <= start then 0 else if |all| - start < r.perPage then |all| - start else r.perPage)
            && (forall k :: 0 <= k < |r.items| ==> r.items[k] == ItemOf(clicks, all[start + k]))
  {
    AnswerParts(counted, listed, clicks, p);
    AnswerPage(counted, listed, clicks, p);
    hide AnswerAcross, PageShown, Items, Slice, Listing, ItemOf;
    var r := AnswerAcross(counted, listed, clicks, p);
    MulMonotone(0, r.page - 1, r.perPage);
    SliceShows(clicks, Listing(clicks, p, listed), r.perPage, (r.page - 1) * r.perPage);
  }

  /** Between the two statements rows may stop matching; the page is then empty exactly when its offset is past them. */
  lemma EmptyAnswerWhen(counted: seq<Link>, listed: seq<Link>, clicks: ClickTable, p: ListParams)
    ensures var r := AnswerAcross(counted, listed, clicks, p);
            r.items == [] <==> |Chosen(p.choice, listed)| <= (r.page - 1) * r.perPage
  {
    SortKeepsLength(clicks, Terms(p.sort), Chosen(p.choice, listed));
    hide Sort, Chosen, Terms, TotalPages;
    var perPage := ClampPerPage(p.perPage);
    MulMonotone(0, PageShown(p.page, |Chosen(p.choice, counted)|, perPage) - 1, perPage);
  }

  /** The figures beside a row are those of the clicks written for it. */
  lemma ItemFigures(clicks: seq<Click>, row: Link)
    ensures var item := ItemOf(Fold(clicks), row);
            && item.totalClicks == Count(clicks, OfLink(row.id))
            && (if item.totalClicks == 0 then item.lastClicked == None
                else item.lastClicked.Some? && IsLatest(clicks, OfLink(row.id), item.lastClicked.value))
  {
    TotalIsClicks(clicks, row.id);
    LastIsLatest(clicks, row.id);
  }
}
