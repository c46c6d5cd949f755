/**
  The WHERE clause of the list query (`list_links` and `status_predicate` in
  `src/db/links.rs`): the fragments, the separately built bindings, and what
  they select.
 */
module Filters {
  import opened Options
  import opened Text
  import opened LinkRules
  import opened LinkStatus
  import opened Sql
  import opened Sequences
  import Like

  datatype StatusFilter = AnyStatus | Active | ExpiringSoon | Expired | Disabled

  datatype KindFilter = AnyKind | UrlKind | TextKind

  /** The part of `ListParams` that chooses rows. */
  datatype Choice = Choice(query: Option<string>, status: StatusFilter, kind: KindFilter, now: int)

  // ---------------------------------------------------------------- what should be selected

  /** The trimmed search text, unless blank. */
  function SearchTerm(query: Option<string>): Option<string> {
    match query
    case None => None
    case Some(q) => if Trim(q) == [] then None else Some(Trim(q))
  }

  predicate StatusMatches(status: StatusFilter, row: Link, now: int) {
    match status
    case AnyStatus => true
    case Active => ActiveAt(row, now)
    case ExpiringSoon => ExpiringSoonAt(row, now)
    case Expired => ExpiredAt(row, now)
    case Disabled => IsDisabled(row)
  }

  predicate KindMatches(kind: KindFilter, row: Link) {
    match kind
    case AnyKind => true
    case UrlKind => row.text == None
    case TextKind => row.text.Some?
  }

  predicate SearchMatches(t: string, row: Link) {
    || Like.Matches(Like.SearchPattern(t), row.slug)
    || Like.Matches(Like.SearchPattern(t), row.target)
    || (row.labelText.Some? && Like.Matches(Like.SearchPattern(t), row.labelText.value))
  }

  predicate Selected(c: Choice, row: Link) {
    && StatusMatches(c.status, row, c.now)
    && KindMatches(c.kind, row)
    && (SearchTerm(c.query).Some? ==> SearchMatches(SearchTerm(c.query).value, row))
  }

  // ---------------------------------------------------------------- the fragments

  /** `status_predicate`. */
  function StatusPredicate(status: StatusFilter): seq<Token> {
    match status
    case AnyStatus => []
    case Active =>
      [Col(DisabledAt), Is, NullWord, AndWord,
       Open, Col(ExpiresAt), Is, NullWord, OrWord, Col(ExpiresAt), GreaterSign, Hole, Close]
    case ExpiringSoon =>
      [Col(DisabledAt), Is, NullWord, AndWord, Col(ExpiresAt), GreaterSign, Hole, AndWord,
       Col(ExpiresAt), AtMostSign, Hole]
    case Expired =>
      [Col(DisabledAt), Is, NullWord, AndWord, Col(ExpiresAt), Is, Not, NullWord, AndWord,
       Col(ExpiresAt), AtMostSign, Hole]
    case Disabled => [Col(DisabledAt), Is, Not, NullWord]
  }

  function KindPredicate(kind: KindFilter): seq<Token> {
    match kind
    case AnyKind => []
    case UrlKind => [Col(TextContent), Is, NullWord]
    case TextKind => [Col(TextContent), Is, Not, NullWord]
  }

  const SEARCH_PREDICATE: seq<Token> :=
    [Open, Col(SlugColumn), LikeWord, Hole, OrWord, Col(TargetUrl), LikeWord, Hole, OrWord,
     Col(LabelColumn), LikeWord, Hole, Close]

  predicate NeedsNow(status: StatusFilter) {
    !status.AnyStatus? && !status.Disabled?
  }

  /** `filters`, in the order they are pushed. */
  function FilterTexts(c: Choice): seq<seq<Token>> {
    (if StatusPredicate(c.status) == [] then [] else [StatusPredicate(c.status)])
    + (if c.kind.AnyKind? then [] else [KindPredicate(c.kind)])
    + (if SearchTerm(c.query) == None then [] else [SEARCH_PREDICATE])
  }

  function StatusBinds(status: StatusFilter, now: int): seq<Value> {
    (if NeedsNow(status) then [IntValue(now)] else [])
    + (if status.ExpiringSoon? then [IntValue(SaturatingAdd(now, EXPIRING_SOON_MILLIS))] else [])
  }

  function SearchBinds(term: Option<string>): seq<Value> {
    match term
    case None => []
    case Some(t) =>
      var like := TextValue(Like.SearchPattern(t));
      [like, like, like]
  }

  /** `filters.join(" AND ")`. */
  function JoinAnd(texts: seq<seq<Token>>): seq<Token> {
    if texts == [] then [] else if |texts| == 1 then texts[0] else texts[0] + [AndWord] + JoinAnd(texts[1..])
  }

  function WhereText(c: Choice): seq<Token> {
    if FilterTexts(c) == [] then [] else [Where] + JoinAnd(FilterTexts(c))
  }

  /** The bindings, chosen by conditions of their own. */
  function WhereBinds(c: Choice): seq<Value> {
    StatusBinds(c.status, c.now) + SearchBinds(SearchTerm(c.query))
  }

  // ---------------------------------------------------------------- one fragment at a time

  /** A fragment's text, the expression it reads as, and the bindings meant for it. */
  datatype Filter = Filter(text: seq<Token>, expr: Expr, binds: seq<Value>)

  predicate Sound(f: Filter) {
    f.text == PrintAnd(f.expr) && |f.binds| == Holes(f.expr)
  }

  predicate Accepts(f: Filter, row: Link)
    requires Sound(f)
  {
    Eval(f.expr, row, f.binds) == True
  }

  function StatusFilterOf(status: StatusFilter, now: int): Filter
    requires !status.AnyStatus?
  {
    var enabled := Leaf(IsNull(DisabledAt));
    match status
    case Active =>
      Filter(StatusPredicate(status), And(enabled, Or(Leaf(IsNull(ExpiresAt)), Leaf(Greater(ExpiresAt)))),
             [IntValue(now)])
    case ExpiringSoon =>
      Filter(StatusPredicate(status), And(enabled, And(Leaf(Greater(ExpiresAt)), Leaf(AtMost(ExpiresAt)))),
             [IntValue(now), IntValue(SaturatingAdd(now, EXPIRING_SOON_MILLIS))])
    case Expired =>
      Filter(StatusPredicate(status), And(enabled, And(Leaf(IsNotNull(ExpiresAt)), Leaf(AtMost(ExpiresAt)))),
             [IntValue(now)])
    case Disabled => Filter(StatusPredicate(status), Leaf(IsNotNull(DisabledAt)), [])
  }

  function KindFilterOf(kind: KindFilter): Filter
    requires !kind.AnyKind?
  {
    Filter(KindPredicate(kind), Leaf(if kind.UrlKind? then IsNull(TextContent) else IsNotNull(TextContent)), [])
  }

  function SearchFilterOf(t: string): Filter {
    var like := TextValue(Like.SearchPattern(t));
    Filter(SEARCH_PREDICATE,
           Or(Leaf(LikeHole(SlugColumn)), Or(Leaf(LikeHole(TargetUrl)), Leaf(LikeHole(LabelColumn)))),
           [like, like, like])
  }

  /** Each operand takes its own bindings. */
  lemma EvalBoth(l: Expr, r: Expr, row: Link, bl: seq<Value>, br: seq<Value>)
    requires |bl| == Holes(l) && |br| == Holes(r)
    ensures Eval(And(l, r), row, bl + br) == And3(Eval(l, row, bl), Eval(r, row, br))
    ensures Eval(Or(l, r), row, bl + br) == Or3(Eval(l, row, bl), Eval(r, row, br))
  {
    assert (bl + br)[..Holes(l)] == bl && (bl + br)[Holes(l)..] == br;
  }

  lemma EvalLater(l: Expr, r: Expr, row: Link, b: seq<Value>)
    requires Holes(l) == 0 && |b| == Holes(r)
    ensures Eval(And(l, r), row, b) == And3(Eval(l, row, []), Eval(r, row, b))
    ensures Eval(Or(l, r), row, b) == Or3(Eval(l, row, []), Eval(r, row, b))
  {
    EvalBoth(l, r, row, [], b);
    assert [] + b == b;
  }

  lemma StatusFilterSound(status: StatusFilter, now: int)
    requires !status.AnyStatus?
    ensures Sound(StatusFilterOf(status, now))
  {
    hide SaturatingAdd;
  }

  lemma ActiveMeaning(row: Link, now: int)
    requires Sound(StatusFilterOf(Active, now))
    ensures Accepts(StatusFilterOf(Active, now), row) <==> ActiveAt(row, now)
  {
    hide PrintAnd, StatusPredicate;
    var f := StatusFilterOf(Active, now);
    EvalLater(Leaf(IsNull(DisabledAt)), f.expr.right, row, f.binds);
    EvalLater(Leaf(IsNull(ExpiresAt)), Leaf(Greater(ExpiresAt)), row, f.binds);
  }

  lemma ExpiringSoonMeaning(row: Link, now: int)
    requires Sound(StatusFilterOf(ExpiringSoon, now))
    ensures Accepts(StatusFilterOf(ExpiringSoon, now), row) <==> ExpiringSoonAt(row, now)
  {
    hide PrintAnd, SaturatingAdd, StatusPredicate;
    var f := StatusFilterOf(ExpiringSoon, now);
    EvalLater(Leaf(IsNull(DisabledAt)), f.expr.right, row, f.binds);
    EvalBoth(Leaf(Greater(ExpiresAt)), Leaf(AtMost(ExpiresAt)), row, [f.binds[0]], [f.binds[1]]);
    assert [f.binds[0]] + [f.binds[1]] == f.binds;
  }

  lemma ExpiredMeaning(row: Link, now: int)
    requires Sound(StatusFilterOf(Expired, now))
    ensures Accepts(StatusFilterOf(Expired, now), row) <==> ExpiredAt(row, now)
  {
    hide PrintAnd, StatusPredicate;
    var f := StatusFilterOf(Expired, now);
    EvalLater(Leaf(IsNull(DisabledAt)), f.expr.right, row, f.binds);
    EvalLater(Leaf(IsNotNull(ExpiresAt)), Leaf(AtMost(ExpiresAt)), row, f.binds);
  }

  lemma DisabledMeaning(row: Link, now: int)
    requires Sound(StatusFilterOf(Disabled, now))
    ensures Accepts(StatusFilterOf(Disabled, now), row) <==> IsDisabled(row)
  {
  }

  lemma StatusFilterMeaning(status: StatusFilter, row: Link, now: int)
    requires !status.AnyStatus?
    ensures var f := StatusFilterOf(status, now);
            Sound(f) && (Accepts(f, row) <==> StatusMatches(status, row, now))
  {
    StatusFilterSound(status, now);
    hide Sound, Accepts, StatusFilterOf;
    match status
    case Active => ActiveMeaning(row, now);
    case ExpiringSoon => ExpiringSoonMeaning(row, now);
    case Expired => ExpiredMeaning(row, now);
    case Disabled => DisabledMeaning(row, now);
  }

  lemma KindFilterMeaning(kind: KindFilter, row: Link)
    requires !kind.AnyKind?
    ensures var f := KindFilterOf(kind); Sound(f) && (Accepts(f, row) <==> KindMatches(kind, row))
  {
  }

  lemma SearchFilterMeaning(t: string, row: Link)
    ensures var f := SearchFilterOf(t); Sound(f) && (Accepts(f, row) <==> SearchMatches(t, row))
  {
    hide Like.Matches, Like.SearchPattern;
    var f := SearchFilterOf(t);
    var like := f.binds[0];
    EvalBoth(f.expr.left, f.expr.right, row, [like], [like, like]);
    assert [like] + [like, like] == f.binds;
    EvalBoth(f.expr.right.left, f.expr.right.right, row, [like], [like]);
    assert [like] + [like] == [like, like];
  }

  /** Some substring matches the text as a pattern. */
  predicate PartMatches(t: string, s: string) {
    exists i, j :: 0 <= i <= j <= |s| && Like.Matches(t, s[i..j])
  }

  /** The text occurs in the slug, the target or the label, ignoring ASCII case. */
  predicate OccursInRow(t: string, row: Link) {
    || Like.OccursIn(t, row.slug)
    || Like.OccursIn(t, row.target)
    || (row.labelText.Some? && Like.OccursIn(t, row.labelText.value))
  }

  /** The search misses no row the text occurs in, and without wildcards finds no other. */
  lemma SearchFindsRows(t: string, row: Link)
    ensures OccursInRow(t, row) ==> SearchMatches(t, row)
    ensures !Like.HasWildcard(t) ==> (SearchMatches(t, row) <==> OccursInRow(t, row))
  {
    hide Like.Matches, Like.SearchPattern, Like.OccursIn, Like.HasWildcard;
    Like.SearchFindsOccurrences(t, row.slug);
    Like.SearchFindsOccurrences(t, row.target);
    if row.labelText.Some? {
      Like.SearchFindsOccurrences(t, row.labelText.value);
    }
  }

  /** What a search term is: the text without the whitespace around it, if any is left. */
  lemma SearchTermMeaning(query: Option<string>, t: string)
    ensures SearchTerm(query) == Some(t) <==> query.Some? && t != [] && TrimsTo(query.value, t)
    ensures SearchTerm(query) == None <==> query == None || Blank(query.value)
  {
    if query.Some? {
      TrimMeaning(query.value, t);
      BlankMeaning(query.value);
    }
    hide Trim, TrimsTo, Blank;
  }

  /**
    The choice read off the query itself: with text `t` left after dropping outer
    whitespace, rows of the status and kind in which `t` occurs are selected, and
    no other rows if `t` has no wildcard; in general those in which some part
    matches `t` as a pattern.
   */
  lemma SearchSelects(c: Choice, t: string, row: Link)
    requires c.query.Some? && t != [] && TrimsTo(c.query.value, t)
    ensures Selected(c, row) ==> StatusMatches(c.status, row, c.now) && KindMatches(c.kind, row)
    ensures StatusMatches(c.status, row, c.now) && KindMatches(c.kind, row) && OccursInRow(t, row) ==> Selected(c, row)
    ensures !Like.HasWildcard(t) && Selected(c, row) ==> OccursInRow(t, row)
    ensures Selected(c, row)
            <==> && StatusMatches(c.status, row, c.now) && KindMatches(c.kind, row)
                 && (PartMatches(t, row.slug) || PartMatches(t, row.target)
                     || (row.labelText.Some? && PartMatches(t, row.labelText.value)))
  {
    SearchTermMeaning(c.query, t);
    SearchFindsRows(t, row);
    Like.SearchMeaning(t, row.slug);
    Like.SearchMeaning(t, row.target);
    if row.labelText.Some? {
      Like.SearchMeaning(t, row.labelText.value);
    }
    hide SearchTerm, TrimsTo, OccursInRow, StatusMatches, Like.HasWildcard, Like.Matches, Like.SearchPattern;
  }

  /** A missing or blank query asks for nothing. */
  lemma BlankSearchSelects(c: Choice, row: Link)
    requires c.query == None || Blank(c.query.value)
    ensures Selected(c, row) <==> StatusMatches(c.status, row, c.now) && KindMatches(c.kind, row)
  {
    SearchTermMeaning(c.query, []);
    hide SearchTerm, Blank;
  }

  // ---------------------------------------------------------------- joining fragments

  /** Joining text with AND nests to the right. */
  function AndAppend(e: Expr, t: Expr): Expr {
    match e
    case And(l, r) => And(l, AndAppend(r, t))
    case _ => And(e, t)
  }

  lemma {:induction false} AppendText(e: Expr, t: Expr)
    ensures PrintAnd(AndAppend(e, t)) == PrintAnd(e) + [AndWord] + PrintAnd(t)
    ensures Holes(AndAppend(e, t)) == Holes(e) + Holes(t)
  {
    match e
    case And(l, r) =>
      AppendText(r, t);
      Associate(PrintPrimary(l) + [AndWord], PrintAnd(r), [AndWord] + PrintAnd(t));
      Associate(PrintAnd(r), [AndWord], PrintAnd(t));
      Associate(PrintAnd(e), [AndWord], PrintAnd(t));
    case Leaf(a) =>
    case Or(l, r) =>
      assert PrintPrimary(e) == PrintAnd(e) by {
        assert PrintOr(e) == PrintAnd(l) + [OrWord] + PrintOr(r);
      }
  }

  /** ... and changes nothing in three-valued logic, placeholders included. */
  lemma {:induction false} AppendEval(e: Expr, t: Expr, row: Link, be: seq<Value>, bt: seq<Value>)
    requires |be| == Holes(e) && |bt| == Holes(t)
    ensures Holes(AndAppend(e, t)) == Holes(e) + Holes(t)
    ensures Eval(AndAppend(e, t), row, be + bt) == And3(Eval(e, row, be), Eval(t, row, bt))
  {
    AppendText(e, t);
    if e.And? {
      var n := Holes(e.left);
      var first, second := be[..n], be[n..];
      AppendEval(e.right, t, row, second, bt);
      AppendText(e.right, t);
      EvalBoth(e.left, e.right, row, first, second);
      EvalBoth(e.left, AndAppend(e.right, t), row, first, second + bt);
      hide Eval;
      assert first + second == be;
      Associate(first, second, bt);
    } else {
      EvalBoth(e, t, row, be, bt);
    }
  }

  ghost predicate AllSound(fs: seq<Filter>) {
    forall i :: 0 <= i < |fs| ==> Sound(fs[i])
  }

  ghost predicate Passes(fs: seq<Filter>, row: Link)
    requires AllSound(fs)
  {
    forall i :: 0 <= i < |fs| ==> Accepts(fs[i], row)
  }

  function Conjoin(fs: seq<Filter>): Expr
    requires fs != []
  {
    if |fs| == 1 then fs[0].expr else AndAppend(fs[0].expr, Conjoin(fs[1..]))
  }

  function Texts(fs: seq<Filter>): seq<seq<Token>> {
    if fs == [] then [] else [fs[0].text] + Texts(fs[1..])
  }

  function AllBinds(fs: seq<Filter>): seq<Value> {
    if fs == [] then [] else fs[0].binds + AllBinds(fs[1..])
  }

  lemma {:induction false} ConjoinText(fs: seq<Filter>)
    requires fs != [] && AllSound(fs)
    ensures JoinAnd(Texts(fs)) == PrintAnd(Conjoin(fs))
    ensures Holes(Conjoin(fs)) == |AllBinds(fs)|
  {
    hide PrintAnd, Holes;
    assert Sound(fs[0]);
    var texts := Texts(fs);
    assert texts[1..] == Texts(fs[1..]);
    if |fs| == 1 {
      assert fs[1..] == [] && AllBinds(fs[1..]) == [];
    } else {
      ConjoinText(fs[1..]);
      AppendText(fs[0].expr, Conjoin(fs[1..]));
      assert |texts| > 1;
    }
  }

  lemma {:induction false} ConjoinEval(fs: seq<Filter>, row: Link)
    requires fs != [] && AllSound(fs)
    ensures Holes(Conjoin(fs)) == |AllBinds(fs)|
    ensures Eval(Conjoin(fs), row, AllBinds(fs)) == True <==> Passes(fs, row)
  {
    ConjoinText(fs);
    hide Eval, Holes;
    assert Sound(fs[0]);
    var rest := fs[1..];
    assert forall i :: 0 <= i < |fs| ==> fs[i] == if i == 0 then fs[0] else rest[i - 1];
    if |fs| == 1 {
      assert rest == [] && AllBinds(rest) == [];
      assert AllBinds(fs) == fs[0].binds;
    } else {
      ConjoinText(rest);
      ConjoinEval(rest, row);
      AppendEval(fs[0].expr, Conjoin(rest), row, fs[0].binds, AllBinds(rest));
    }
  }

  // ---------------------------------------------------------------- the whole clause

  function StatusPart(c: Choice): seq<Filter> {
    if c.status.AnyStatus? then [] else [StatusFilterOf(c.status, c.now)]
  }

  function KindPart(c: Choice): seq<Filter> {
    if c.kind.AnyKind? then [] else [KindFilterOf(c.kind)]
  }

  function SearchPart(c: Choice): seq<Filter> {
    match SearchTerm(c.query) case None => [] case Some(t) => [SearchFilterOf(t)]
  }

  function FiltersOf(c: Choice): seq<Filter> {
    StatusPart(c) + KindPart(c) + SearchPart(c)
  }

  lemma OneFilter(f: Filter)
    ensures Texts([f]) == [f.text] && AllBinds([f]) == f.binds
  {
    assert [f][1..] == [];
  }

  lemma PartsLineUp(c: Choice)
    ensures Texts(StatusPart(c)) == (if StatusPredicate(c.status) == [] then [] else [StatusPredicate(c.status)])
    ensures AllBinds(StatusPart(c)) == StatusBinds(c.status, c.now)
    ensures Texts(KindPart(c)) == (if c.kind.AnyKind? then [] else [KindPredicate(c.kind)])
    ensures AllBinds(KindPart(c)) == []
    ensures Texts(SearchPart(c)) == (if SearchTerm(c.query) == None then [] else [SEARCH_PREDICATE])
    ensures AllBinds(SearchPart(c)) == SearchBinds(SearchTerm(c.query))
  {
    hide SearchTerm, SaturatingAdd, Like.SearchPattern;
    if !c.status.AnyStatus? {
      OneFilter(StatusFilterOf(c.status, c.now));
    }
    if !c.kind.AnyKind? {
      OneFilter(KindFilterOf(c.kind));
    }
    if SearchTerm(c.query).Some? {
      OneFilter(SearchFilterOf(SearchTerm(c.query).value));
    }
  }

  lemma ListsCons(f: Filter, fs: seq<Filter>)
    ensures Texts([f] + fs) == [f.text] + Texts(fs) && AllBinds([f] + fs) == f.binds + AllBinds(fs)
  {
    assert ([f] + fs)[1..] == fs;
  }

  lemma {:induction false} ListsConcat(a: seq<Filter>, b: seq<Filter>)
    ensures Texts(a + b) == Texts(a) + Texts(b)
    ensures AllBinds(a + b) == AllBinds(a) + AllBinds(b)
  {
    if a == [] {
      assert a + b == b;
    } else {
      var f, rest := a[0], a[1..];
      ListsConcat(rest, b);
      hide Texts, AllBinds;
      ListsCons(f, rest + b);
      ListsCons(f, rest);
      Associate([f], rest, b);
      assert a == [f] + rest;
      Associate([f.text], Texts(rest), Texts(b));
      Associate(f.binds, AllBinds(rest), AllBinds(b));
    }
  }

  /** The pushed fragments and the bound values are those of the filters, in the same order. */
  lemma ClauseLinesUp(c: Choice)
    ensures FilterTexts(c) == Texts(FiltersOf(c))
    ensures WhereBinds(c) == AllBinds(FiltersOf(c))
  {
    PartsLineUp(c);
    hide StatusPart, KindPart, SearchPart, Texts, AllBinds, StatusBinds, SearchBinds, SearchTerm, StatusPredicate;
    ListsConcat(StatusPart(c) + KindPart(c), SearchPart(c));
    ListsConcat(StatusPart(c), KindPart(c));
    assert StatusBinds(c.status, c.now) + [] == StatusBinds(c.status, c.now);
  }

  lemma PassesConcat(a: seq<Filter>, b: seq<Filter>, row: Link)
    requires AllSound(a) && AllSound(b)
    ensures AllSound(a + b) && (Passes(a + b, row) <==> Passes(a, row) && Passes(b, row))
  {
    hide Sound, Accepts;
    var whole := a + b;
    assert forall i :: 0 <= i < |a| ==> whole[i] == a[i];
    assert forall i :: 0 <= i < |b| ==> whole[|a| + i] == b[i];
  }

  lemma PassesOne(f: Filter, row: Link)
    requires Sound(f)
    ensures AllSound([f]) && (Passes([f], row) <==> Accepts(f, row))
  {
    hide Sound, Accepts;
    assert [f][0] == f;
  }

  lemma PartsMean(c: Choice, row: Link)
    ensures AllSound(StatusPart(c)) && AllSound(KindPart(c)) && AllSound(SearchPart(c))
    ensures Passes(StatusPart(c), row) <==> StatusMatches(c.status, row, c.now)
    ensures Passes(KindPart(c), row) <==> KindMatches(c.kind, row)
    ensures Passes(SearchPart(c), row)
            <==> (SearchTerm(c.query).Some? ==> SearchMatches(SearchTerm(c.query).value, row))
  {
    if !c.status.AnyStatus? {
      StatusFilterMeaning(c.status, row, c.now);
      PassesOne(StatusFilterOf(c.status, c.now), row);
    }
    if !c.kind.AnyKind? {
      KindFilterMeaning(c.kind, row);
      PassesOne(KindFilterOf(c.kind), row);
    }
    if SearchTerm(c.query).Some? {
      SearchFilterMeaning(SearchTerm(c.query).value, row);
      PassesOne(SearchFilterOf(SearchTerm(c.query).value), row);
    }
    hide Sound, Accepts, SearchMatches, StatusFilterOf, KindFilterOf, SearchFilterOf, SearchTerm;
  }

  lemma FiltersMean(c: Choice, row: Link)
    ensures AllSound(FiltersOf(c))
    ensures Passes(FiltersOf(c), row) <==> Selected(c, row)
  {
    PartsMean(c, row);
    hide StatusPart, KindPart, SearchPart, AllSound, Passes;
    PassesConcat(StatusPart(c), KindPart(c), row);
    PassesConcat(StatusPart(c) + KindPart(c), SearchPart(c), row);
  }

  /** Text printed at AND level is a whole expression wherever neither AND nor OR follows. */
  lemma ClauseReadBack(e: Expr, rest: seq<Token>)
    requires !Starts(rest, AndWord) && !Starts(rest, OrWord)
    ensures ParseOr(PrintAnd(e) + rest) == Some((e, rest))
  {
    AndReadBack(e, rest);
    hide ParseAnd, PrintAnd;
  }

  /**
    For every choice of status, kind and search: the joined text parses, under
    SQL's precedence and whatever follows, to an expression with one placeholder
    per bound value, and that expression under those values is true of exactly
    the rows selected.
   */
  lemma ClauseSelects(c: Choice, rest: seq<Token>) returns (e: Expr)
    requires FilterTexts(c) != [] && !Starts(rest, AndWord) && !Starts(rest, OrWord)
    ensures ParseOr(JoinAnd(FilterTexts(c)) + rest) == Some((e, rest))
    ensures Holes(e) == |WhereBinds(c)|
    ensures forall row :: Eval(e, row, WhereBinds(c)) == True <==> Selected(c, row)
  {
    var fs := FiltersOf(c);
    ClauseLinesUp(c);
    forall row
      ensures AllSound(fs) && (Passes(fs, row) <==> Selected(c, row))
    {
      FiltersMean(c, row);
    }
    hide ParseOr, Eval, Holes, Selected, FilterTexts, WhereBinds, FiltersOf, JoinAnd, AllSound, Passes;
    assert fs != [] by {
      assert Texts(fs) != [];
    }
    FiltersMean(c, Link("", "", "", None, None, 0, 0, None, None));
    ConjoinText(fs);
    e := Conjoin(fs);
    ClauseReadBack(e, rest);
    forall row
      ensures Eval(e, row, WhereBinds(c)) == True <==> Selected(c, row)
    {
      ConjoinEval(fs, row);
    }
  }

  /** No fragment means no condition and nothing to bind. */
  lemma NoClauseSelectsAll(c: Choice, row: Link)
    requires FilterTexts(c) == []
    ensures WhereBinds(c) == [] && Selected(c, row)
  {
  }
}
