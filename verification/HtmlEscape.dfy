/** `html_escape` (`src/web/admin.rs`): five whole-string replacements, `&` first. */
module HtmlEscape {
  import opened Sequences

  /** `str::replace` of one character by a string. */
  function ReplaceChar(s: string, c: char, sub: string): string {
    if s == [] then [] else (if s[0] == c then sub else [s[0]]) + ReplaceChar(s[1..], c, sub)
  }

  /** `str::replace` of a string by one character: leftmost matches, never overlapping. */
  function ReplaceString(s: string, what: string, c: char): string
    requires what != []
    decreases |s|
  {
    if s == [] then []
    else if what <= s then [c] + ReplaceString(s[|what|..], what, c)
    else [s[0]] + ReplaceString(s[1..], what, c)
  }

  function Escape(s: string): string {
    var s1 := ReplaceChar(s, '&', "&amp;");
    var s2 := ReplaceChar(s1, '<', "&lt;");
    var s3 := ReplaceChar(s2, '>', "&gt;");
    var s4 := ReplaceChar(s3, '"', "&quot;");
    ReplaceChar(s4, '\'', "&#39;")
  }

  /** The matching decoder: the same replacements backwards, `&` last. */
  function Unescape(s: string): string {
    var s4 := ReplaceString(s, "&#39;", '\'');
    var s3 := ReplaceString(s4, "&quot;", '"');
    var s2 := ReplaceString(s3, "&gt;", '>');
    var s1 := ReplaceString(s2, "&lt;", '<');
    ReplaceString(s1, "&amp;", '&')
  }

  // ---------------------------------------------------------------- the one-pass map

  /** The `k`-th character replaced, and its entity. */
  function Nth(k: int): (r: (char, string))
    requires 1 <= k <= 5
    ensures |r.1| >= 4 && r.1[0] == '&' && '&' !in r.1[1..]
  {
    if k == 1 then ('&', "&amp;") else if k == 2 then ('<', "&lt;") else if k == 3 then ('>', "&gt;")
    else if k == 4 then ('"', "&quot;") else ('\'', "&#39;")
  }

  /** What one character becomes when the first `k` entities are in force. */
  function Entity(c: char, k: int): (e: string)
    requires 0 <= k <= 5
    ensures e != []
  {
    if k == 0 then [c] else if c == Nth(k).0 then Nth(k).1 else Entity(c, k - 1)
  }

  /** The whole map. */
  lemma EntityMeaning(c: char)
    ensures Entity(c, 5) == match c
                            case '&' => "&amp;"
                            case '<' => "&lt;"
                            case '>' => "&gt;"
                            case '"' => "&quot;"
                            case '\'' => "&#39;"
                            case _ => [c]
  {
    assert Entity(c, 1) == if c == '&' then "&amp;" else [c];
    assert Entity(c, 2) == if c == '<' then "&lt;" else Entity(c, 1);
    assert Entity(c, 3) == if c == '>' then "&gt;" else Entity(c, 2);
    assert Entity(c, 4) == if c == '"' then "&quot;" else Entity(c, 3);
  }

  function OnePass(s: string, k: int): string
    requires 0 <= k <= 5
  {
    if s == [] then [] else Entity(s[0], k) + OnePass(s[1..], k)
  }

  lemma {:induction false} ReplaceDistributes(a: string, b: string, c: char, sub: string)
    ensures ReplaceChar(a + b, c, sub) == ReplaceChar(a, c, sub) + ReplaceChar(b, c, sub)
  {
    if a == [] {
      assert a + b == b;
    } else {
      ReplaceDistributes(a[1..], b, c, sub);
      assert (a + b)[1..] == a[1..] + b;
      var first := if a[0] == c then sub else [a[0]];
      assert ReplaceChar(a, c, sub) == first + ReplaceChar(a[1..], c, sub);
      assert ReplaceChar(a + b, c, sub) == first + ReplaceChar(a[1..] + b, c, sub);
      hide ReplaceChar;
      Associate(first, ReplaceChar(a[1..], c, sub), ReplaceChar(b, c, sub));
    }
  }

  lemma {:induction false} ReplaceAbsent(s: string, c: char, sub: string)
    requires c !in s
    ensures ReplaceChar(s, c, sub) == s
  {
    if s != [] {
      ReplaceAbsent(s[1..], c, sub);
    }
  }

  lemma ReplaceOne(c: char, x: char, e: string)
    ensures ReplaceChar([c], x, e) == if c == x then e else [c]
  {
    assert [c][1..] == [];
  }

  /** A pass leaves the entities of earlier passes alone. */
  lemma {:induction false} EntityPass(c: char, j: int, k: int)
    requires 0 <= j < k <= 5
    ensures c != Nth(k).0 ==> ReplaceChar(Entity(c, j), Nth(k).0, Nth(k).1) == Entity(c, j)
    ensures c == Nth(k).0 ==> ReplaceChar(Entity(c, j), Nth(k).0, Nth(k).1) == Nth(k).1
  {
    hide ReplaceChar;
    var (x, e) := Nth(k);
    if j == 0 {
      ReplaceOne(c, x, e);
    } else if c == Nth(j).0 {
      assert x !in Nth(j).1;
      ReplaceAbsent(Nth(j).1, x, e);
    } else {
      EntityPass(c, j - 1, k);
    }
  }

  /** One more pass over the text is one more entity in the map. */
  lemma {:induction false} OneMorePass(s: string, k: int)
    requires 1 <= k <= 5
    ensures ReplaceChar(OnePass(s, k - 1), Nth(k).0, Nth(k).1) == OnePass(s, k)
  {
    if s != [] {
      OneMorePass(s[1..], k);
      EntityPass(s[0], k - 1, k);
      ReplaceDistributes(Entity(s[0], k - 1), OnePass(s[1..], k - 1), Nth(k).0, Nth(k).1);
    }
  }

  lemma {:induction false} NoPass(s: string)
    ensures OnePass(s, 0) == s
  {
    if s != [] {
      NoPass(s[1..]);
    }
  }

  /** The five passes equal the one-pass character map on every string. */
  lemma EscapeIsOnePass(s: string)
    ensures Escape(s) == OnePass(s, 5)
  {
    NoPass(s);
    hide ReplaceChar, OnePass;
    OneMorePass(s, 1);
    OneMorePass(s, 2);
    OneMorePass(s, 3);
    OneMorePass(s, 4);
    OneMorePass(s, 5);
  }

  // ---------------------------------------------------------------- undoing it

  /** No occurrence of `what` in `s`. */
  predicate Free(s: string, what: string) {
    forall i :: 0 <= i <= |s| ==> !(what <= s[i..])
  }

  /** A prefix without `&` is not made by a replacement that inserts `&...`. */
  lemma {:induction false} PrefixKept(s: string, c: char, e: string, p: string)
    requires e != [] && e[0] == '&' && '&' !in p
    ensures p <= ReplaceChar(s, c, e) ==> p <= s
  {
    var out := ReplaceChar(s, c, e);
    if p != [] && p <= out {
      assert p[0] == out[0] && p[0] in p;
      assert out[1..] == ReplaceChar(s[1..], c, e);
      assert p[1..] <= out[1..];
      PrefixKept(s[1..], c, e, p[1..]);
    }
  }

  lemma PrefixByHead(p: string, s: string)
    requires p != [] && s != []
    ensures p <= s <==> p[0] == s[0] && p[1..] <= s[1..]
  {
    assert p == [p[0]] + p[1..] && s == [s[0]] + s[1..];
  }

  /** One replacement is undone when its entity was not in the text, or starts with the replaced character. */
  lemma {:induction false} UndoOne(s: string, c: char, e: string)
    requires |e| >= 2 && e[0] == '&' && '&' !in e[1..]
    requires c == '&' || Free(s, e)
    ensures ReplaceString(ReplaceChar(s, c, e), e, c) == s
  {
    if s != [] {
      var rest := ReplaceChar(s[1..], c, e);
      var out := ReplaceChar(s, c, e);
      assert Free(s, e) ==> Free(s[1..], e) by {
        assert forall i :: 0 <= i <= |s[1..]| ==> s[1..][i..] == s[i + 1..];
      }
      UndoOne(s[1..], c, e);
      if s[0] == c {
        assert out[|e|..] == rest;
      } else {
        assert out[1..] == rest;
        PrefixKept(s[1..], c, e, e[1..]);
        PrefixByHead(e, out);
        PrefixByHead(e, s);
        assert s[0..] == s;
      }
    }
  }

  /** Two entities never start alike. */
  lemma EntityHead(s: string, j: int, k: int)
    requires 1 <= j < k <= 5 && Nth(j).1 <= s
    ensures !(Nth(k).1 <= s)
  {
    assert Nth(j).1[1] == s[1];
    assert Nth(k).1[1] != Nth(j).1[1];
  }

  lemma {:induction false} EntityShape(c: char, k: int)
    requires 0 <= k <= 5
    ensures || (Entity(c, k) == [c] && forall j :: 1 <= j <= k ==> c != Nth(j).0)
            || (exists j :: 1 <= j <= k && Entity(c, k) == Nth(j).1 && c == Nth(j).0)
  {
    if k > 0 {
      EntityShape(c, k - 1);
    }
  }

  /** An `&` in what one character becomes is the start of an entity. */
  lemma AmpersandStartsEntity(c: char, k: int, rest: string, i: nat)
    requires 1 <= k <= 5 && i < |Entity(c, k)|
    ensures var t := Entity(c, k) + rest;
            t[i] == '&' ==> i == 0 && exists j :: 1 <= j <= k && Nth(j).1 <= t
  {
    var e := Entity(c, k);
    var t := e + rest;
    EntityShape(c, k);
    if j :| 1 <= j <= k && e == Nth(j).1 {
      assert Nth(j).1 <= t;
      assert i > 0 ==> t[i] in Nth(j).1[1..];
    } else {
      assert c != Nth(1).0;
    }
  }

  /** With the first `k >= 1` entities in force, a later entity occurs nowhere. */
  lemma {:induction false} LaterFree(s: string, k: int)
    requires 1 <= k < 5
    ensures Free(OnePass(s, k), Nth(k + 1).1)
  {
    var t, e := OnePass(s, k), Nth(k + 1).1;
    if s != [] {
      var head, rest := Entity(s[0], k), OnePass(s[1..], k);
      LaterFree(s[1..], k);
      forall i | 0 <= i <= |t| ensures !(e <= t[i..]) {
        if i >= |head| {
          assert t[i..] == rest[i - |head|..];
        } else {
          AmpersandStartsEntity(s[0], k, rest, i);
          assert e <= t[i..] ==> t[i] == '&';
          if t[i] == '&' {
            var j :| 1 <= j <= k && Nth(j).1 <= t;
            EntityHead(t, j, k + 1);
            assert t[0..] == t;
          }
        }
      }
    }
  }

  lemma UndoPass(s: string, k: int)
    requires 1 <= k <= 5
    ensures ReplaceString(OnePass(s, k), Nth(k).1, Nth(k).0) == OnePass(s, k - 1)
  {
    hide ReplaceChar, ReplaceString, OnePass;
    OneMorePass(s, k);
    if k > 1 {
      LaterFree(s, k - 1);
    }
    UndoOne(OnePass(s, k - 1), Nth(k).0, Nth(k).1);
  }

  /** The decoder gives back every escaped string. */
  lemma EscapeUndone(s: string)
    ensures Unescape(Escape(s)) == s
  {
    hide ReplaceChar, ReplaceString, OnePass, Escape;
    EscapeIsOnePass(s);
    UndoPass(s, 5);
    UndoPass(s, 4);
    UndoPass(s, 3);
    UndoPass(s, 2);
    UndoPass(s, 1);
    NoPass(s);
  }

  lemma SafeHead(c: char)
    ensures var e := Entity(c, 5); '<' !in e && '>' !in e && '"' !in e && '\'' !in e
  {
    EntityShape(c, 5);
    if Entity(c, 5) == [c] {
      assert Nth(1).0 == '&';
      assert forall j :: 1 <= j <= 5 ==> [c] != Nth(j).1;
      assert c != Nth(2).0 && c != Nth(3).0 && c != Nth(4).0 && c != Nth(5).0;
    }
  }

  /** Escaped text has no raw markup character, and each `&` in it starts an entity. */
  lemma {:induction false} EscapedIsSafe(s: string)
    ensures var t := OnePass(s, 5);
            && '<' !in t && '>' !in t && '"' !in t && '\'' !in t
            && forall i :: 0 <= i < |t| && t[i] == '&' ==> exists k :: 1 <= k <= 5 && Nth(k).1 <= t[i..]
  {
    if s != [] {
      var head, rest := Entity(s[0], 5), OnePass(s[1..], 5);
      var t := OnePass(s, 5);
      EscapedIsSafe(s[1..]);
      forall i | 0 <= i < |t| && t[i] == '&'
        ensures exists k :: 1 <= k <= 5 && Nth(k).1 <= t[i..]
      {
        if i >= |head| {
          assert t[i..] == rest[i - |head|..];
          assert rest[i - |head|] == '&';
        } else {
          AmpersandStartsEntity(s[0], 5, rest, i);
          assert t[0..] == t;
        }
      }
      SafeHead(s[0]);
    }
  }

  /** The safety of `html_escape` itself. */
  lemma EscapeIsSafe(s: string)
    ensures var t := Escape(s);
            && '<' !in t && '>' !in t && '"' !in t && '\'' !in t
            && forall i :: 0 <= i < |t| && t[i] == '&' ==> exists k :: 1 <= k <= 5 && Nth(k).1 <= t[i..]
  {
    hide Escape, OnePass;
    EscapeIsOnePass(s);
    EscapedIsSafe(s);
  }
}
