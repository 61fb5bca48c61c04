/** The string operations the barge-in filter relies on: `str.strip()`,
    `str.lower()`, `str.split(",")` and `str.split()`, restricted to ASCII.
    Whitespace is what `str.isspace()` accepts among ASCII characters:
    space, the controls 9 to 13 and the separators 28 to 31. */
module Text {

  /** ASCII whitespace as `str.isspace()` sees it. None of it is a letter or
      the comma that separates the override's pieces. */
  predicate IsSpace(c: char)
    ensures IsSpace(c) ==> c as int < 0x80 && !('A' <= c <= 'Z') && !('a' <= c <= 'z') && c != ','
  {
    c == ' ' || 9 <= c as int <= 13 || 28 <= c as int <= 31
  }

  predicate IsUpper(c: char) {
    'A' <= c <= 'Z'
  }

  predicate AllSpace(s: string) {
    forall k :: 0 <= k < |s| ==> IsSpace(s[k])
  }

  predicate NoSpace(s: string) {
    forall k :: 0 <= k < |s| ==> !IsSpace(s[k])
  }

  predicate NoUpper(s: string) {
    forall k :: 0 <= k < |s| ==> !IsUpper(s[k])
  }

  /** No whitespace at either end: what `strip()` leaves. */
  predicate Stripped(s: string) {
    s == [] || (!IsSpace(s[0]) && !IsSpace(s[|s| - 1]))
  }

  // ---------------------------------------------------------------------------
  // lower()

  /** An upper-case ASCII letter becomes the lower-case letter 32 code
      points above it; any other character is left alone. */
  function LowerChar(c: char): (d: char)
    ensures !IsUpper(d)
    ensures IsUpper(c) ==> d as int == c as int + 32 && 'a' <= d <= 'z'
    ensures IsSpace(d) <==> IsSpace(c)
    ensures !IsUpper(c) ==> d == c
  {
    if IsUpper(c) then (c as int + 32) as char else c
  }

  /** `s.lower()` on ASCII: upper-case letters become lower-case, nothing
      else changes. */
  function Lower(s: string): (r: string)
    ensures |r| == |s| && NoUpper(r)
    ensures forall k :: 0 <= k < |s| ==> r[k] == LowerChar(s[k])
    ensures forall k :: 0 <= k < |s| ==> (IsSpace(r[k]) <==> IsSpace(s[k]))
  {
    seq(|s|, k requires 0 <= k < |s| => LowerChar(s[k]))
  }

  lemma LowerFixed(s: string)
    requires NoUpper(s)
    ensures Lower(s) == s
  {
  }

  lemma LowerAppend(a: string, b: string)
    ensures Lower(a + b) == Lower(a) + Lower(b)
  {
    assert forall k :: 0 <= k < |a + b| ==> Lower(a + b)[k] == (Lower(a) + Lower(b))[k];
  }

  // ---------------------------------------------------------------------------
  // strip()

  /** Number of whitespace characters at the start of `s`. */
  function LeadLen(s: string): (n: nat)
    ensures n <= |s|
    ensures forall k :: 0 <= k < n ==> IsSpace(s[k])
    ensures n == |s| || !IsSpace(s[n])
    decreases |s|
  {
    if |s| > 0 && IsSpace(s[0]) then 1 + LeadLen(s[1..]) else 0
  }

  /** Number of whitespace characters at the end of `s`. */
  function TrailLen(s: string): (n: nat)
    ensures n <= |s|
    ensures forall k :: |s| - n <= k < |s| ==> IsSpace(s[k])
    ensures n == |s| || !IsSpace(s[|s| - n - 1])
    decreases |s|
  {
    if |s| > 0 && IsSpace(s[|s| - 1]) then 1 + TrailLen(s[..|s| - 1]) else 0
  }

  /** The leading run is the only run of whitespace at the start that is
      followed by the end or by a non-whitespace character. */
  lemma LeadLenUnique(s: string, m: nat)
    requires m <= |s| && (forall k :: 0 <= k < m ==> IsSpace(s[k]))
    requires m == |s| || !IsSpace(s[m])
    ensures LeadLen(s) == m
  {
  }

  /** The same for the trailing run. */
  lemma TrailLenUnique(s: string, m: nat)
    requires m <= |s| && (forall k :: |s| - m <= k < |s| ==> IsSpace(s[k]))
    requires m == |s| || !IsSpace(s[|s| - m - 1])
    ensures TrailLen(s) == m
  {
  }

  /** `s.strip()`: `s` without the whitespace at both ends. */
  function Strip(s: string): (r: string)
    ensures Stripped(r) && |r| <= |s|
  {
    var i := LeadLen(s);
    if i == |s| then [] else s[i..|s| - TrailLen(s)]
  }

  /** In a text that is not blank, the leading and the trailing run of
      whitespace do not meet. */
  lemma LeadTrailDisjoint(s: string)
    requires LeadLen(s) < |s|
    ensures LeadLen(s) + TrailLen(s) < |s|
  {
    assert !IsSpace(s[LeadLen(s)]);
  }

  /** What `strip()` keeps fits in `s` after its leading whitespace. */
  lemma StripFits(s: string)
    ensures LeadLen(s) + |Strip(s)| <= |s|
  {
    if LeadLen(s) < |s| {
      LeadTrailDisjoint(s);
    }
  }

  /** What `strip()` keeps is the infix of `s` that starts after its
      leading whitespace. */
  lemma StripKeepsInfix(s: string)
    ensures forall k :: 0 <= k < |Strip(s)| ==> Strip(s)[k] == s[LeadLen(s) + k]
  {
    if LeadLen(s) < |s| {
      LeadTrailDisjoint(s);
    }
  }

  /** Everything after that infix is whitespace: only whitespace at the ends
      is removed. */
  lemma StripDropsTrailing(s: string)
    ensures forall k :: LeadLen(s) + |Strip(s)| <= k < |s| ==> IsSpace(s[k])
  {
    if LeadLen(s) < |s| {
      LeadTrailDisjoint(s);
    }
  }

  /** Stripping leaves nothing exactly when the text is blank. */
  lemma StripEmptyIff(s: string)
    ensures Strip(s) == [] <==> AllSpace(s)
  {
  }

  /** Leading whitespace before a text that does not start with whitespace
      is exactly the leading run. */
  lemma LeadLenPadded(pre: string, u: string)
    requires AllSpace(pre) && (u == [] || !IsSpace(u[0]))
    ensures LeadLen(pre + u) == |pre|
  {
    var s := pre + u;
    assert forall k :: 0 <= k < |pre| ==> s[k] == pre[k];
    assert |pre| < |s| ==> s[|pre|] == u[0];
    LeadLenUnique(s, |pre|);
  }

  /** Trailing whitespace after a text that does not end with whitespace is
      exactly the trailing run. */
  lemma TrailLenPadded(u: string, post: string)
    requires AllSpace(post) && (u == [] || !IsSpace(u[|u| - 1]))
    ensures TrailLen(u + post) == |post|
  {
    var s := u + post;
    assert forall k :: |u| <= k < |s| ==> s[k] == post[k - |u|];
    assert |post| < |s| ==> s[|u| - 1] == u[|u| - 1];
    TrailLenUnique(s, |post|);
  }

  /** Whitespace padding around a stripped text is exactly what `strip()`
      removes. */
  lemma StripPadded(pre: string, t: string, post: string)
    requires AllSpace(pre) && AllSpace(post) && Stripped(t)
    ensures Strip(pre + t + post) == t
  {
    var s := pre + t + post;
    if t == [] {
      assert AllSpace(s) by { assert s == pre + post; }
    } else {
      assert s == pre + (t + post);
      LeadLenPadded(pre, t + post);
      assert s == (pre + t) + post;
      TrailLenPadded(pre + t, post);
      assert s[|pre|..|s| - |post|] == t;
    }
  }

  lemma StripFixed(t: string)
    requires Stripped(t)
    ensures Strip(t) == t
  {
    StripPadded([], t, []);
    assert [] + t + [] == t;
  }

  // ---------------------------------------------------------------------------
  // strip().lower()

  /** `s.strip().lower()`, the normalisation applied both to the configured
      ignore words and to every recognised fragment. */
  function Normalize(s: string): (r: string)
    ensures Stripped(r) && NoUpper(r) && |r| <= |s|
  {
    Lower(Strip(s))
  }

  /** A text is its own normalisation exactly when it has no surrounding
      whitespace and no upper-case letter. */
  lemma NormalizeFixedIff(s: string)
    ensures Normalize(s) == s <==> Stripped(s) && NoUpper(s)
  {
    if Stripped(s) && NoUpper(s) {
      StripFixed(s);
      LowerFixed(s);
    }
  }

  lemma NormalizeIdempotent(s: string)
    ensures Normalize(Normalize(s)) == Normalize(s)
  {
    NormalizeFixedIff(Normalize(s));
  }

  /** Normalisation yields the empty text exactly for blank input. */
  lemma NormalizeEmptyIff(s: string)
    ensures Normalize(s) == [] <==> AllSpace(s)
  {
    StripEmptyIff(s);
  }

  // ---------------------------------------------------------------------------
  // sep.join(pieces) and s.split(sep)

  /** `sep.join(pieces)`. */
  function Join(pieces: seq<string>, sep: char): (r: string)
    ensures |r| >= |pieces| - 1
  {
    if |pieces| == 0 then []
    else if |pieces| == 1 then pieces[0]
    else pieces[0] + [sep] + Join(pieces[1..], sep)
  }

  /** Joining two or more pieces puts the separator in the text, right after
      the first piece. */
  lemma JoinPutsSeparator(pieces: seq<string>, sep: char)
    requires |pieces| > 1
    ensures pieces[0] <= Join(pieces, sep)
    ensures Join(pieces, sep)[|pieces[0]|] == sep
  {
    var r := Join(pieces, sep);
    assert r == pieces[0] + ([sep] + Join(pieces[1..], sep));
  }

  /** `s.split(sep)` with an explicit separator: at least one piece, no piece
      contains the separator, and joining the pieces back gives `s`. */
  function SplitOn(s: string, sep: char): (pieces: seq<string>)
    ensures |pieces| >= 1
    ensures forall p :: p in pieces ==> sep !in p
    ensures Join(pieces, sep) == s
    decreases |s|
  {
    if |s| == 0 then [[]]
    else
      var rest := SplitOn(s[1..], sep);
      assert s == [s[0]] + s[1..];
      if s[0] == sep then
        JoinEmptyHead(rest, sep);
        [[]] + rest
      else
        JoinExtendHead(s[0], rest, sep);
        [[s[0]] + rest[0]] + rest[1..]
  }

  /** An empty first piece contributes only its separator. */
  lemma JoinEmptyHead(pieces: seq<string>, sep: char)
    requires |pieces| >= 1
    ensures Join([[]] + pieces, sep) == [sep] + Join(pieces, sep)
    ensures forall p :: p in [[]] + pieces ==> p == [] || p in pieces
  {
    assert ([[]] + pieces)[1..] == pieces;
  }

  /** A character put in front of the first piece ends up in front of the
      joined text. */
  lemma JoinExtendHead(c: char, pieces: seq<string>, sep: char)
    requires |pieces| >= 1
    ensures Join([[c] + pieces[0]] + pieces[1..], sep) == [c] + Join(pieces, sep)
    ensures forall p :: p in [[c] + pieces[0]] + pieces[1..] ==> p == [c] + pieces[0] || p in pieces
  {
    var extended := [[c] + pieces[0]] + pieces[1..];
    assert extended[0] == [c] + pieces[0] && extended[1..] == pieces[1..];
    if |pieces| > 1 {
      assert extended[0] + [sep] + Join(pieces[1..], sep) == [c] + (pieces[0] + [sep] + Join(pieces[1..], sep));
    }
    assert forall p :: p in pieces[1..] ==> p in pieces;
  }

  /** A separator-free prefix is glued onto the first piece of the rest. */
  lemma {:induction false} SplitOnPrefix(p: string, t: string, sep: char)
    requires sep !in p
    ensures SplitOn(p + t, sep) == [p + SplitOn(t, sep)[0]] + SplitOn(t, sep)[1..]
    decreases |p|
  {
    var rest := SplitOn(t, sep);
    if p == [] {
      assert p + t == t;
      assert p + rest[0] == rest[0];
      assert [rest[0]] + rest[1..] == rest;
    } else {
      var c, q := p[0], p[1..];
      assert p == [c] + q;
      assert c != sep && sep !in q;
      var s := p + t;
      assert s[0] == c && s[1..] == q + t;
      SplitOnPrefix(q, t, sep);
      var r := SplitOn(q + t, sep);
      assert r[0] == q + rest[0] && r[1..] == rest[1..];
      assert SplitOn(s, sep) == [[c] + r[0]] + r[1..];
      assert [c] + (q + rest[0]) == p + rest[0];
    }
  }

  /** Splitting undoes joining when no piece contains the separator. */
  lemma {:induction false} SplitOnJoin(pieces: seq<string>, sep: char)
    requires |pieces| >= 1
    requires forall p :: p in pieces ==> sep !in p
    ensures SplitOn(Join(pieces, sep), sep) == pieces
    decreases |pieces|
  {
    if |pieces| == 1 {
      var p := pieces[0];
      assert p + [] == p;
      SplitOnPrefix(p, [], sep);
      assert SplitOn([], sep) == [[]];
      assert Join(pieces, sep) == p && pieces == [p];
    } else {
      var p, rest := pieces[0], Join(pieces[1..], sep);
      assert p in pieces;
      assert forall q :: q in pieces[1..] ==> q in pieces;
      SplitOnJoin(pieces[1..], sep);
      assert Join(pieces, sep) == p + ([sep] + rest);
      SplitOnPrefix(p, [sep] + rest, sep);
      assert ([sep] + rest)[0] == sep && ([sep] + rest)[1..] == rest;
      var tail := SplitOn([sep] + rest, sep);
      assert tail == [[]] + pieces[1..];
      assert p + tail[0] == p;
      assert pieces == [p] + tail[1..];
    }
  }

  // ---------------------------------------------------------------------------
  // s.split()

  /** Length of the leading run of non-whitespace characters. */
  function WordLen(s: string): (n: nat)
    ensures n <= |s|
    ensures NoSpace(s[..n])
    ensures n == |s| || IsSpace(s[n])
    decreases |s|
  {
    if |s| == 0 || IsSpace(s[0]) then 0
    else
      var n := 1 + WordLen(s[1..]);
      assert s[..n] == [s[0]] + s[1..][..n - 1];
      n
  }

  /** `s.split()` with no argument: the maximal runs of non-whitespace
      characters, in order. */
  function Words(s: string): (ws: seq<string>)
    ensures forall w :: w in ws ==> w != [] && NoSpace(w)
    ensures ws == [] <==> AllSpace(s)
    decreases |s|
  {
    if |s| == 0 then []
    else if IsSpace(s[0]) then
      assert AllSpace(s) <==> AllSpace(s[1..]) by {
        assert forall k :: 1 <= k < |s| ==> s[k] == s[1..][k - 1];
      }
      Words(s[1..])
    else
      var n := WordLen(s);
      assert s[..n][0] == s[0];
      [s[..n]] + Words(s[n..])
  }

  lemma {:induction false} WordLenCons(w: string, t: string)
    requires NoSpace(w)
    requires t == [] || IsSpace(t[0])
    ensures WordLen(w + t) == |w|
    decreases |w|
  {
    if w == [] {
      assert w + t == t;
    } else {
      assert (w + t)[0] == w[0];
      assert (w + t)[1..] == w[1..] + t;
      assert NoSpace(w[1..]) by {
        assert forall k :: 0 <= k < |w| - 1 ==> w[1..][k] == w[k + 1];
      }
      WordLenCons(w[1..], t);
    }
  }

  /** A word followed by nothing or by whitespace is split off whole. */
  lemma WordsCons(w: string, t: string)
    requires w != [] && NoSpace(w)
    requires t == [] || IsSpace(t[0])
    ensures Words(w + t) == [w] + Words(t)
  {
    var s := w + t;
    WordLenCons(w, t);
    var n := WordLen(s);
    assert s[0] == w[0];
    assert s[..n] == w;
    assert s[n..] == t;
  }

  /** A leading whitespace character is skipped. */
  lemma WordsSkipSpace(t: string)
    requires t != [] && IsSpace(t[0])
    ensures Words(t) == Words(t[1..])
  {
  }

  /** One more word in front of joined words is split off whole. */
  lemma WordsJoinCons(w: string, tail: seq<string>)
    requires w != [] && NoSpace(w) && tail != []
    ensures Words(Join([w] + tail, ' ')) == [w] + Words(Join(tail, ' '))
  {
    var rest := Join(tail, ' ');
    var spaced := [' '] + rest;
    assert ([w] + tail)[0] == w && ([w] + tail)[1..] == tail;
    assert Join([w] + tail, ' ') == w + spaced;
    WordsCons(w, spaced);
    WordsSkipSpace(spaced);
    assert spaced[1..] == rest;
  }

  /** Splitting on whitespace undoes joining with single spaces when every
      word is non-empty and has no whitespace. */
  lemma {:induction false} WordsJoin(ws: seq<string>)
    requires forall w :: w in ws ==> w != [] && NoSpace(w)
    ensures Words(Join(ws, ' ')) == ws
    decreases |ws|
  {
    if |ws| == 1 {
      assert ws[0] in ws;
      WordsCons(ws[0], []);
      assert ws[0] + [] == ws[0];
    } else if |ws| > 1 {
      var w, tail := ws[0], ws[1..];
      assert w in ws;
      assert forall v :: v in tail ==> v in ws;
      WordsJoin(tail);
      WordsJoinCons(w, tail);
      assert ws == [w] + tail;
    }
  }

  /** Words joined by single spaces have no whitespace at either end. */
  lemma {:induction false} JoinWordsStripped(ws: seq<string>)
    requires ws != []
    requires forall w :: w in ws ==> w != [] && NoSpace(w)
    ensures Join(ws, ' ') != [] && Stripped(Join(ws, ' '))
    decreases |ws|
  {
    assert ws[0] in ws;
    if |ws| > 1 {
      var rest := Join(ws[1..], ' ');
      assert forall w :: w in ws[1..] ==> w in ws;
      JoinWordsStripped(ws[1..]);
      var j := ws[0] + [' '] + rest;
      assert j[0] == ws[0][0];
      assert j[|j| - 1] == rest[|rest| - 1];
    }
  }

  /** Lower-casing keeps a word non-empty and free of whitespace. */
  lemma LowerAllWords(ws: seq<string>)
    requires forall w :: w in ws ==> w != [] && NoSpace(w)
    ensures forall w :: w in LowerAll(ws) ==> w != [] && NoSpace(w)
  {
    forall w | w in LowerAll(ws) ensures w != [] && NoSpace(w) {
      var k :| 0 <= k < |ws| && LowerAll(ws)[k] == w;
      assert ws[k] in ws;
    }
  }

  /** Lower-casing commutes with joining on a space. */
  lemma {:induction false} LowerJoin(ws: seq<string>)
    ensures Lower(Join(ws, ' ')) == Join(LowerAll(ws), ' ')
    decreases |ws|
  {
    if |ws| > 1 {
      LowerJoin(ws[1..]);
      LowerAppend(ws[0] + [' '], Join(ws[1..], ' '));
      LowerAppend(ws[0], [' ']);
      assert Lower([' ']) == [' '];
      assert LowerAll(ws)[1..] == LowerAll(ws[1..]);
    }
  }

  function LowerAll(ws: seq<string>): (r: seq<string>)
    ensures |r| == |ws|
    ensures forall k :: 0 <= k < |ws| ==> r[k] == Lower(ws[k])
  {
    seq(|ws|, k requires 0 <= k < |ws| => Lower(ws[k]))
  }

  /** A phrase of words in any case, padded with whitespace, normalises to
      its words lower-cased and joined by single spaces, and splits back into
      those lower-cased words. */
  lemma NormalizePaddedPhrase(ws: seq<string>, pre: string, post: string)
    requires ws != []
    requires forall w :: w in ws ==> w != [] && NoSpace(w)
    requires AllSpace(pre) && AllSpace(post)
    ensures Normalize(pre + Join(ws, ' ') + post) == Join(LowerAll(ws), ' ')
    ensures Words(Normalize(pre + Join(ws, ' ') + post)) == LowerAll(ws)
  {
    JoinWordsStripped(ws);
    StripPadded(pre, Join(ws, ' '), post);
    LowerJoin(ws);
    LowerAllWords(ws);
    WordsJoin(LowerAll(ws));
  }
}
