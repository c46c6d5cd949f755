/** SQLite's LIKE, and what the unescaped search pattern of `src/db/links.rs` finds with it. */
module Like {
  import opened Text

  /** `%` matches any run, `_` one character, letters match without ASCII case. */
  predicate Matches(p: string, s: string)
    decreases |p| + |s|
  {
    if p == [] then s == []
    else if p[0] == '%' then Matches(p[1..], s) || (s != [] && Matches(p, s[1..]))
    else s != [] && (p[0] == '_' || LowerChar(p[0]) == LowerChar(s[0])) && Matches(p[1..], s[1..])
  }

  function SearchPattern(t: string): string {
    ['%'] + t + ['%']
  }

  /** Equal up to ASCII case. */
  predicate SameFolded(a: string, b: string) {
    |a| == |b| && forall i :: 0 <= i < |a| ==> LowerChar(a[i]) == LowerChar(b[i])
  }

  /** `t` occurs in `s`, ignoring ASCII case. */
  predicate OccursIn(t: string, s: string) {
    exists i, j :: 0 <= i <= j <= |s| && SameFolded(t, s[i..j])
  }

  predicate HasWildcard(t: string) {
    exists i :: 0 <= i < |t| && (t[i] == '%' || t[i] == '_')
  }

  lemma {:induction false} LeadingPercent(p: string, s: string)
    ensures Matches(['%'] + p, s) <==> exists i :: 0 <= i <= |s| && Matches(p, s[i..])
  {
    var q := ['%'] + p;
    assert q[1..] == p;
    assert s[0..] == s;
    if s == [] {
      assert forall i :: 0 <= i <= |s| ==> s[i..] == s;
    } else {
      var rest := s[1..];
      LeadingPercent(p, rest);
      if exists i :: 0 <= i <= |rest| && Matches(p, rest[i..]) {
        var i :| 0 <= i <= |rest| && Matches(p, rest[i..]);
        assert s[i + 1..] == rest[i..];
      }
      if exists i :: 0 <= i <= |s| && Matches(p, s[i..]) {
        var i :| 0 <= i <= |s| && Matches(p, s[i..]);
        if i > 0 {
          assert rest[i - 1..] == s[i..];
        }
      }
    }
  }

  lemma {:induction false} OnlyPercent(s: string)
    ensures Matches(['%'], s)
  {
    assert ['%'][1..] == [];
    if s != [] {
      OnlyPercent(s[1..]);
    }
  }

  /** A prefix matched after a `%`: the run is empty, or takes the first character. */
  lemma PercentStep(p: string, s: string)
    requires p != [] && p[0] == '%'
    ensures (exists j :: 0 <= j <= |s| && Matches(p, s[..j]))
            <==> (exists j :: 0 <= j <= |s| && Matches(p[1..], s[..j]))
                 || (s != [] && exists j :: 0 <= j <= |s[1..]| && Matches(p, s[1..][..j]))
  {
    if exists j :: 0 <= j <= |s| && Matches(p, s[..j]) {
      var j :| 0 <= j <= |s| && Matches(p, s[..j]);
      if !Matches(p[1..], s[..j]) {
        assert s[..j][1..] == s[1..][..j - 1];
      }
    }
    if exists j :: 0 <= j <= |s| && Matches(p[1..], s[..j]) {
      var j :| 0 <= j <= |s| && Matches(p[1..], s[..j]);
      assert Matches(p, s[..j]);
    }
    if s != [] && exists j :: 0 <= j <= |s[1..]| && Matches(p, s[1..][..j]) {
      var j :| 0 <= j <= |s[1..]| && Matches(p, s[1..][..j]);
      assert s[..j + 1][1..] == s[1..][..j];
      assert Matches(p, s[..j + 1]);
    }
  }

  lemma PlainStep(p: string, s: string)
    requires p != [] && p[0] != '%' && s != []
    ensures (exists j :: 0 <= j <= |s| && Matches(p, s[..j]))
            <==> (p[0] == '_' || LowerChar(p[0]) == LowerChar(s[0]))
                 && exists j :: 0 <= j <= |s[1..]| && Matches(p[1..], s[1..][..j])
  {
    if exists j :: 0 <= j <= |s| && Matches(p, s[..j]) {
      var j :| 0 <= j <= |s| && Matches(p, s[..j]);
      assert s[..j][1..] == s[1..][..j - 1];
    }
    if (p[0] == '_' || LowerChar(p[0]) == LowerChar(s[0]))
       && exists j :: 0 <= j <= |s[1..]| && Matches(p[1..], s[1..][..j]) {
      var j :| 0 <= j <= |s[1..]| && Matches(p[1..], s[1..][..j]);
      assert s[..j + 1][1..] == s[1..][..j];
      assert Matches(p, s[..j + 1]);
    }
  }

  lemma {:induction false} TrailingPercent(p: string, s: string)
    ensures Matches(p + ['%'], s) <==> exists j :: 0 <= j <= |s| && Matches(p, s[..j])
    decreases |p| + |s|
  {
    var q := p + ['%'];
    if p == [] {
      assert q == ['%'];
      OnlyPercent(s);
      assert Matches(p, s[..0]);
    } else {
      assert q[0] == p[0] && q[1..] == p[1..] + ['%'];
      if p[0] == '%' {
        TrailingPercent(p[1..], s);
        if s != [] {
          TrailingPercent(p, s[1..]);
        }
        PercentStep(p, s);
      } else if s != [] {
        TrailingPercent(p[1..], s[1..]);
        PlainStep(p, s);
      }
    }
  }

  lemma MatchFrom(t: string, s: string, i: nat)
    requires i <= |s|
    ensures Matches(t + ['%'], s[i..]) <==> exists j :: i <= j <= |s| && Matches(t, s[i..j])
  {
    TrailingPercent(t, s[i..]);
    hide Matches;
    if exists j :: 0 <= j <= |s[i..]| && Matches(t, s[i..][..j]) {
      var j :| 0 <= j <= |s[i..]| && Matches(t, s[i..][..j]);
      assert s[i..][..j] == s[i..i + j];
    }
    if exists j :: i <= j <= |s| && Matches(t, s[i..j]) {
      var j :| i <= j <= |s| && Matches(t, s[i..j]);
      assert s[i..][..j - i] == s[i..j];
    }
  }

  /** The search matches exactly when the text itself, read as a pattern, matches some substring. */
  lemma SearchMeaning(t: string, s: string)
    ensures Matches(SearchPattern(t), s) <==> exists i, j :: 0 <= i <= j <= |s| && Matches(t, s[i..j])
  {
    assert SearchPattern(t) == ['%'] + (t + ['%']);
    LeadingPercent(t + ['%'], s);
    hide Matches;
    if exists i :: 0 <= i <= |s| && Matches(t + ['%'], s[i..]) {
      var i :| 0 <= i <= |s| && Matches(t + ['%'], s[i..]);
      MatchFrom(t, s, i);
      var j :| i <= j <= |s| && Matches(t, s[i..j]);
    }
    if exists i, j :: 0 <= i <= j <= |s| && Matches(t, s[i..j]) {
      var i, j :| 0 <= i <= j <= |s| && Matches(t, s[i..j]);
      MatchFrom(t, s, i);
    }
  }

  /** Any text matches itself, wildcards or not. */
  lemma {:induction false} MatchesItself(t: string, u: string)
    requires SameFolded(t, u)
    ensures Matches(t, u)
  {
    if t != [] {
      MatchesItself(t[1..], u[1..]);
      if t[0] == '%' {
        assert Matches(t, u[1..]);
      }
    }
  }

  lemma {:induction false} PlainMatchesOnlyItself(t: string, u: string)
    requires !HasWildcard(t) && Matches(t, u)
    ensures SameFolded(t, u)
  {
    if t != [] {
      assert t[0] != '%' && t[0] != '_';
      forall i | 0 <= i < |t[1..]|
        ensures t[1..][i] != '%' && t[1..][i] != '_'
      {
        assert t[1..][i] == t[i + 1];
      }
      PlainMatchesOnlyItself(t[1..], u[1..]);
      forall i | 0 <= i < |t|
        ensures LowerChar(t[i]) == LowerChar(u[i])
      {
        if i > 0 {
          assert t[1..][i - 1] == t[i] && u[1..][i - 1] == u[i];
        }
      }
    }
  }

  /** The search never misses an occurrence, and without wildcards finds nothing else. */
  lemma SearchFindsOccurrences(t: string, s: string)
    ensures OccursIn(t, s) ==> Matches(SearchPattern(t), s)
    ensures !HasWildcard(t) ==> (Matches(SearchPattern(t), s) <==> OccursIn(t, s))
  {
    SearchMeaning(t, s);
    hide Matches, SearchPattern;
    if OccursIn(t, s) {
      var i, j :| 0 <= i <= j <= |s| && SameFolded(t, s[i..j]);
      MatchesItself(t, s[i..j]);
    }
    if !HasWildcard(t) && Matches(SearchPattern(t), s) {
      var i, j :| 0 <= i <= j <= |s| && Matches(t, s[i..j]);
      PlainMatchesOnlyItself(t, s[i..j]);
    }
  }
}
