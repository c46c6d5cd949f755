/**
  The SQL that the list query uses: WHERE expressions over one row with `?`
  placeholders, their text as tokens, a parser with SQL's precedence, and
  evaluation in three-valued logic.
 */
module Sql {
  import opened Options
  import opened LinkRules
  import Like

  datatype Column = DisabledAt | ExpiresAt | TextContent | SlugColumn | TargetUrl | LabelColumn

  datatype Value = Null | IntValue(i: int) | TextValue(s: string)

  datatype Truth = True | False | Unknown

  /** Comparisons whose right side, if any, is a placeholder. */
  datatype Atom =
    | IsNull(c: Column) | IsNotNull(c: Column) | Greater(c: Column) | AtMost(c: Column) | LikeHole(c: Column)

  datatype Expr = Leaf(atom: Atom) | And(left: Expr, right: Expr) | Or(left: Expr, right: Expr)

  datatype SortKey = ByCreated | ByUpdated | BySlug | ByClicks

  datatype Token =
    | Col(c: Column) | Is | Not | NullWord | AndWord | OrWord | GreaterSign | AtMostSign | LikeWord
    | Open | Close | Hole
    | SelectCount | SelectRows | Where | OrderBy | Key(k: SortKey) | Asc | Desc | Comma | Limit | Offset

  // ---------------------------------------------------------------- evaluation

  function OptionalInt(v: Option<int>): Value {
    match v case None => Null case Some(i) => IntValue(i)
  }

  function OptionalText(v: Option<string>): Value {
    match v case None => Null case Some(s) => TextValue(s)
  }

  function ColumnOf(row: Link, c: Column): Value {
    match c
    case DisabledAt => OptionalInt(row.disabledAt)
    case ExpiresAt => OptionalInt(row.expiresAt)
    case TextContent => OptionalText(row.text)
    case SlugColumn => TextValue(row.slug)
    case TargetUrl => TextValue(row.target)
    case LabelColumn => OptionalText(row.labelText)
  }

  function TruthOf(b: bool): Truth {
    if b then True else False
  }

  function And3(a: Truth, b: Truth): Truth {
    if a == False || b == False then False else if a == True && b == True then True else Unknown
  }

  function Or3(a: Truth, b: Truth): Truth {
    if a == True || b == True then True else if a == False && b == False then False else Unknown
  }

  function AtomHoles(a: Atom): nat {
    if a.IsNull? || a.IsNotNull? then 0 else 1
  }

  function Holes(e: Expr): nat {
    match e
    case Leaf(a) => AtomHoles(a)
    case And(l, r) => Holes(l) + Holes(r)
    case Or(l, r) => Holes(l) + Holes(r)
  }

  /** Comparing with NULL is unknown; the operands of one comparison have one type here. */
  function EvalAtom(a: Atom, row: Link, binds: seq<Value>): Truth
    requires |binds| == AtomHoles(a)
  {
    var v := ColumnOf(row, a.c);
    match a
    case IsNull(_) => TruthOf(v == Null)
    case IsNotNull(_) => TruthOf(v != Null)
    case Greater(_) => if v.IntValue? && binds[0].IntValue? then TruthOf(v.i > binds[0].i) else Unknown
    case AtMost(_) => if v.IntValue? && binds[0].IntValue? then TruthOf(v.i <= binds[0].i) else Unknown
    case LikeHole(_) => if v.TextValue? && binds[0].TextValue? then TruthOf(Like.Matches(binds[0].s, v.s)) else Unknown
  }

  /** Placeholders take the bound values from left to right. */
  function Eval(e: Expr, row: Link, binds: seq<Value>): Truth
    requires |binds| == Holes(e)
  {
    match e
    case Leaf(a) => EvalAtom(a, row, binds)
    case And(l, r) => And3(Eval(l, row, binds[..Holes(l)]), Eval(r, row, binds[Holes(l)..]))
    case Or(l, r) => Or3(Eval(l, row, binds[..Holes(l)]), Eval(r, row, binds[Holes(l)..]))
  }

  // ---------------------------------------------------------------- text

  function PrintAtom(a: Atom): (ts: seq<Token>)
    ensures |ts| >= 3
  {
    match a
    case IsNull(c) => [Col(c), Is, NullWord]
    case IsNotNull(c) => [Col(c), Is, Not, NullWord]
    case Greater(c) => [Col(c), GreaterSign, Hole]
    case AtMost(c) => [Col(c), AtMostSign, Hole]
    case LikeHole(c) => [Col(c), LikeWord, Hole]
  }

  /** The least parentheses: AND binds tighter than OR. */
  function PrintPrimary(e: Expr): seq<Token>
    decreases e, 2
  {
    match e
    case Leaf(a) => PrintAtom(a)
    case _ => [Open] + PrintOr(e) + [Close]
  }

  function PrintAnd(e: Expr): seq<Token>
    decreases e, 0
  {
    match e
    case And(l, r) => PrintPrimary(l) + [AndWord] + PrintAnd(r)
    case Leaf(a) => PrintAtom(a)
    case Or(l, r) => [Open] + (PrintAnd(l) + [OrWord] + PrintOr(r)) + [Close]
  }

  function PrintOr(e: Expr): seq<Token>
    decreases e, 1
  {
    match e
    case Or(l, r) => PrintAnd(l) + [OrWord] + PrintOr(r)
    case Leaf(a) => PrintAtom(a)
    case And(l, r) => PrintAnd(e)
  }

  // ---------------------------------------------------------------- parsing

  function ParseAtom(ts: seq<Token>): (r: Option<(Expr, seq<Token>)>)
    ensures r.Some? ==> |r.value.1| < |ts|
  {
    if |ts| < 3 || !ts[0].Col? then None
    else if ts[1] == Is && ts[2] == NullWord then Some((Leaf(IsNull(ts[0].c)), ts[3..]))
    else if |ts| >= 4 && ts[1] == Is && ts[2] == Not && ts[3] == NullWord then Some((Leaf(IsNotNull(ts[0].c)), ts[4..]))
    else if ts[1] == GreaterSign && ts[2] == Hole then Some((Leaf(Greater(ts[0].c)), ts[3..]))
    else if ts[1] == AtMostSign && ts[2] == Hole then Some((Leaf(AtMost(ts[0].c)), ts[3..]))
    else if ts[1] == LikeWord && ts[2] == Hole then Some((Leaf(LikeHole(ts[0].c)), ts[3..]))
    else None
  }

  function ParsePrimary(ts: seq<Token>): (r: Option<(Expr, seq<Token>)>)
    ensures r.Some? ==> |r.value.1| < |ts|
    decreases |ts|, 0
  {
    if ts != [] && ts[0] == Open then
      match ParseOr(ts[1..])
      case Some((e, rest)) => if rest != [] && rest[0] == Close then Some((e, rest[1..])) else None
      case None => None
    else ParseAtom(ts)
  }

  function ParseAnd(ts: seq<Token>): (r: Option<(Expr, seq<Token>)>)
    ensures r.Some? ==> |r.value.1| < |ts|
    decreases |ts|, 1
  {
    match ParsePrimary(ts)
    case None => None
    case Some((l, rest)) =>
      if rest != [] && rest[0] == AndWord then
        match ParseAnd(rest[1..])
        case Some((r, tail)) => Some((And(l, r), tail))
        case None => None
      else Some((l, rest))
  }

  function ParseOr(ts: seq<Token>): (r: Option<(Expr, seq<Token>)>)
    ensures r.Some? ==> |r.value.1| < |ts|
    decreases |ts|, 2
  {
    match ParseAnd(ts)
    case None => None
    case Some((l, rest)) =>
      if rest != [] && rest[0] == OrWord then
        match ParseOr(rest[1..])
        case Some((r, tail)) => Some((Or(l, r), tail))
        case None => None
      else Some((l, rest))
  }

  // ---------------------------------------------------------------- parsing undoes printing

  predicate Starts(ts: seq<Token>, t: Token) {
    ts != [] && ts[0] == t
  }

  lemma AtomReadBack(a: Atom, rest: seq<Token>)
    ensures ParseAtom(PrintAtom(a) + rest) == Some((Leaf(a), rest))
    ensures ParsePrimary(PrintAtom(a) + rest) == Some((Leaf(a), rest))
  {
    var ts := PrintAtom(a) + rest;
    assert ts[|PrintAtom(a)|..] == rest;
  }

  lemma ParenthesisReadBack(e: Expr, rest: seq<Token>)
    requires ParseOr(PrintOr(e) + ([Close] + rest)) == Some((e, [Close] + rest))
    ensures ParsePrimary([Open] + PrintOr(e) + [Close] + rest) == Some((e, rest))
  {
    hide ParseOr, PrintOr;
    var ts := [Open] + PrintOr(e) + [Close] + rest;
    assert ts[1..] == PrintOr(e) + ([Close] + rest);
    assert ([Close] + rest)[1..] == rest;
  }

  lemma OrStep(l: Expr, left: seq<Token>, r: Expr, right: seq<Token>, rest: seq<Token>)
    requires ParseAnd(left + ([OrWord] + (right + rest))) == Some((l, [OrWord] + (right + rest)))
    requires ParseOr(right + rest) == Some((r, rest))
    ensures ParseOr(left + [OrWord] + right + rest) == Some((Or(l, r), rest))
  {
    hide ParseAnd;
    var tail := [OrWord] + (right + rest);
    assert left + [OrWord] + right + rest == left + tail;
    assert tail[1..] == right + rest;
  }

  lemma {:induction false} PrimaryReadBack(e: Expr, rest: seq<Token>)
    ensures ParsePrimary(PrintPrimary(e) + rest) == Some((e, rest))
    decreases e, 2
  {
    if e.Leaf? {
      AtomReadBack(e.atom, rest);
    } else {
      OrReadBack(e, [Close] + rest);
      ParenthesisReadBack(e, rest);
    }
  }

  lemma AndStep(l: Expr, left: seq<Token>, r: Expr, right: seq<Token>, rest: seq<Token>)
    requires ParsePrimary(left + ([AndWord] + (right + rest))) == Some((l, [AndWord] + (right + rest)))
    requires ParseAnd(right + rest) == Some((r, rest))
    ensures ParseAnd(left + [AndWord] + right + rest) == Some((And(l, r), rest))
  {
    hide ParsePrimary;
    var tail := [AndWord] + (right + rest);
    assert left + [AndWord] + right + rest == left + tail;
    assert tail[1..] == right + rest;
  }

  lemma {:induction false} AndReadBack(e: Expr, rest: seq<Token>)
    requires !Starts(rest, AndWord)
    ensures ParseAnd(PrintAnd(e) + rest) == Some((e, rest))
    decreases e, 0
  {
    match e
    case Leaf(a) => AtomReadBack(a, rest);
    case And(l, r) =>
      AndReadBack(r, rest);
      PrimaryReadBack(l, [AndWord] + (PrintAnd(r) + rest));
      AndStep(l, PrintPrimary(l), r, PrintAnd(r), rest);
    case Or(l, r) =>
      var closed := [Close] + rest;
      OrReadBack(r, closed);
      AndReadBack(l, [OrWord] + (PrintOr(r) + closed));
      OrStep(l, PrintAnd(l), r, PrintOr(r), closed);
      ParenthesisReadBack(e, rest);
  }

  /** Whatever follows, printed text is read back as the expression it was printed from. */
  lemma {:induction false} OrReadBack(e: Expr, rest: seq<Token>)
    requires !Starts(rest, AndWord) && !Starts(rest, OrWord)
    ensures ParseOr(PrintOr(e) + rest) == Some((e, rest))
    decreases e, 1
  {
    match e
    case Leaf(a) => AtomReadBack(a, rest);
    case And(l, r) => AndReadBack(e, rest);
    case Or(l, r) =>
      OrReadBack(r, rest);
      AndReadBack(l, [OrWord] + (PrintOr(r) + rest));
      OrStep(l, PrintAnd(l), r, PrintOr(r), rest);
  }
}
