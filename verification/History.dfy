/** Last mention in a history: the specification of last-writer-wins. */
module History {
  import opened Options

  /** The value of the last element that mentions one. */
  function LastMention<S, T>(history: seq<S>, mention: S -> Option<T>): Option<T> {
    if history == [] then None
    else
      var last := mention(history[|history| - 1]);
      if last.Some? then last else LastMention(history[..|history| - 1], mention)
  }

  lemma LastMentionSnoc<S, T>(history: seq<S>, x: S, mention: S -> Option<T>)
    ensures LastMention(history + [x], mention)
            == if mention(x).Some? then mention(x) else LastMention(history, mention)
  {
    assert (history + [x])[..|history|] == history;
  }

  lemma {:induction false} LastMentionMeaning<S, T>(history: seq<S>, mention: S -> Option<T>)
    ensures LastMention(history, mention) == None
            ==> forall i :: 0 <= i < |history| ==> mention(history[i]) == None
    ensures LastMention(history, mention).Some?
            ==> exists i :: && 0 <= i < |history| && mention(history[i]) == LastMention(history, mention)
                            && forall j :: i < j < |history| ==> mention(history[j]) == None
  {
    if history != [] {
      var n := |history| - 1;
      LastMentionMeaning(history[..n], mention);
      if mention(history[n]).Some? {
        assert mention(history[n]) == LastMention(history, mention);
      } else if LastMention(history, mention).Some? {
        var i :| && 0 <= i < n && mention(history[..n][i]) == LastMention(history[..n], mention)
                 && forall j :: i < j < n ==> mention(history[..n][j]) == None;
        assert mention(history[i]) == LastMention(history, mention);
        assert forall j :: i < j < n ==> history[..n][j] == history[j];
      } else {
        assert forall j :: 0 <= j < n ==> history[..n][j] == history[j];
      }
    }
  }

  /** When no two elements mention different values, their order does not matter. */
  lemma LastMentionPermuted<S, T>(a: seq<S>, b: seq<S>, mention: S -> Option<T>)
    requires multiset(a) == multiset(b)
    requires forall i, j :: 0 <= i < |a| && 0 <= j < |a| && mention(a[i]).Some? && mention(a[j]).Some?
                            ==> mention(a[i]) == mention(a[j])
    ensures LastMention(a, mention) == LastMention(b, mention)
  {
    LastMentionMeaning(a, mention);
    LastMentionMeaning(b, mention);
    if LastMention(a, mention).Some? {
      var i :| 0 <= i < |a| && mention(a[i]) == LastMention(a, mention);
      assert a[i] in multiset(b);
      var j :| 0 <= j < |b| && b[j] == a[i];
      assert mention(b[j]).Some?;
    }
    if LastMention(b, mention).Some? {
      var j :| 0 <= j < |b| && mention(b[j]) == LastMention(b, mention);
      assert b[j] in multiset(a);
      var i :| 0 <= i < |a| && a[i] == b[j];
      assert mention(a[i]).Some?;
    }
  }
}
