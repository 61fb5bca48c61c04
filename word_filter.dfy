/** The word filter applied to a normalised fragment: split it into
    whitespace-delimited tokens, drop the tokens found in the ignore set, and
    call the fragment substantive when any token is left. Membership is exact
    string equality: no punctuation is removed from the tokens. */
module WordFilter {
  import opened Text

  /** `[w for w in words if w not in ignore]` */
  function Remaining(words: seq<string>, ignore: set<string>): (remaining: seq<string>)
    ensures |remaining| <= |words|
    ensures forall w :: w in remaining <==> w in words && w !in ignore
    decreases |words|
  {
    if |words| == 0 then []
    else
      var rest := Remaining(words[1..], ignore);
      assert forall w :: w in words <==> w == words[0] || w in words[1..];
      if words[0] in ignore then rest else [words[0]] + rest
  }

  /** Filtering a concatenation filters each part and keeps their order, so
      the kept tokens appear in the order they were spoken. */
  lemma {:induction false} RemainingAppend(a: seq<string>, b: seq<string>, ignore: set<string>)
    ensures Remaining(a + b, ignore) == Remaining(a, ignore) + Remaining(b, ignore)
    decreases |a|
  {
    if a != [] {
      var ab := a + b;
      assert ab[0] == a[0];
      assert ab[1..] == a[1..] + b;
      RemainingAppend(a[1..], b, ignore);
      var head := if a[0] in ignore then [] else [a[0]];
      assert Remaining(ab, ignore) == head + Remaining(ab[1..], ignore);
      assert Remaining(a, ignore) == head + Remaining(a[1..], ignore);
    } else {
      assert a + b == b;
    }
  }

  /** A single token is kept exactly when it is not ignored. */
  lemma RemainingSingle(w: string, ignore: set<string>)
    ensures Remaining([w], ignore) == if w in ignore then [] else [w]
  {
    assert [w][1..] == [];
  }

  /** Tokens already free of ignored words pass through unchanged. */
  lemma {:induction false} RemainingKeepsAll(words: seq<string>, ignore: set<string>)
    requires forall w :: w in words ==> w !in ignore
    ensures Remaining(words, ignore) == words
    decreases |words|
  {
    if words != [] {
      assert words[0] in words;
      assert forall w :: w in words[1..] ==> w in words;
      RemainingKeepsAll(words[1..], ignore);
      assert words == [words[0]] + words[1..];
    }
  }

  /** `bool(remaining)` for the tokens of an already normalised fragment. */
  function IsSubstantive(text: string, ignore: set<string>): (substantive: bool)
    ensures substantive <==> exists w :: w in Words(text) && w !in ignore
    ensures substantive ==> !AllSpace(text)
  {
    var words := Words(text);
    var remaining := Remaining(words, ignore);
    assert AllSpace(text) ==> words == [];
    assert remaining != [] ==> remaining[0] in remaining;
    remaining != []
  }
}
