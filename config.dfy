/** Resolution of the ignore set: the backchannel words that never count as
    an interruption. An `IGNORE_WORDS` environment value, when present and
    non-empty, replaces the built-in set; the environment is passed in as an
    optional string. */
module Config {
  import opened Wrappers
  import opened Text

  /** The built-in ignore set. Its entries keep their trailing period, so
      only a token written exactly so is ignored. */
  const DefaultIgnoreWords: set<string> :=
    {"yeah.", "ok.", "hmm.", "right.", "uh-huh.", "okay.", "yep.", "aha."}

  /** `set(f(x) for x in xs)`: every value's image is in it, every entry is
      such an image, and a non-empty sequence gives a non-empty set. */
  function Image<X(==), Y>(xs: seq<X>, f: X -> Y): (r: set<Y>)
    ensures forall x :: x in xs ==> f(x) in r
    ensures forall y :: y in r ==> exists x :: x in xs && y == f(x)
    ensures xs != [] ==> r != {}
  {
    var r := set x | x in xs :: f(x);
    assert xs != [] ==> f(xs[0]) in r;
    r
  }

  /** `{ piece.strip().lower() for piece in s.split(",") }`: never empty, it
      holds the normalisation of every comma-separated piece and nothing
      else, and each of its entries is stripped and free of upper-case
      letters. */
  function NormalizedPieces(s: string): (r: set<string>)
    ensures r != {}
    ensures forall p :: p in SplitOn(s, ',') ==> Normalize(p) in r
    ensures forall w :: w in r ==> exists p :: p in SplitOn(s, ',') && w == Normalize(p)
    ensures forall w :: w in r ==> Stripped(w) && NoUpper(w)
  {
    Image(SplitOn(s, ','), Normalize)
  }

  /** `get_ignore_words()`: an absent or empty override falls back to the
      default set; otherwise every comma-separated piece, normalised, is an
      entry, and nothing else is. */
  function GetIgnoreWords(env: Option<string>): (words: set<string>)
    ensures words != {}
    ensures env == None || env == Some("") ==> words == DefaultIgnoreWords
    ensures env.Some? && env.value != "" ==>
              (forall p :: p in SplitOn(env.value, ',') ==> Normalize(p) in words) &&
              (forall w :: w in words ==> exists p :: p in SplitOn(env.value, ',') && w == Normalize(p))
  {
    if env.Some? && env.value != "" then
      NormalizedPieces(env.value)
    else
      DefaultIgnoreWords
  }

  /** The built-in set has eight distinct entries. */
  lemma DefaultSize()
    ensures |DefaultIgnoreWords| == 8
  {
  }

  /** The built-in entries have no surrounding whitespace. */
  lemma DefaultIgnoreWordsStripped()
    ensures forall w :: w in DefaultIgnoreWords ==> Stripped(w)
  {
  }

  /** The built-in entries have no upper-case letter. */
  lemma DefaultIgnoreWordsLowerCase()
    ensures forall w :: w in DefaultIgnoreWords ==> NoUpper(w)
  {
  }

  /** Every entry of every ignore set equals its own normalisation: no
      surrounding whitespace and no upper-case letter. */
  lemma IgnoreWordsNormalized(env: Option<string>)
    ensures forall w :: w in GetIgnoreWords(env) ==> Normalize(w) == w
  {
    var words := GetIgnoreWords(env);
    if env.Some? && env.value != "" {
      forall w | w in words ensures Normalize(w) == w {
        var p :| p in SplitOn(env.value, ',') && w == Normalize(p);
        NormalizeIdempotent(p);
      }
    } else {
      DefaultIgnoreWordsStripped();
      DefaultIgnoreWordsLowerCase();
      forall w | w in words ensures Normalize(w) == w {
        NormalizeFixedIff(w);
      }
    }
  }

  /** A set built from n values has at most n entries. */
  lemma {:induction false} ImageSize<X, Y>(xs: seq<X>, f: X -> Y)
    ensures |Image(xs, f)| <= |xs|
    decreases |xs|
  {
    if xs != [] {
      var init, last := xs[..|xs| - 1], xs[|xs| - 1];
      ImageSize(init, f);
      assert xs == init + [last];
      assert Image(xs, f) == Image(init, f) + {f(last)};
    }
  }

  /** A non-empty override yields between one entry and one entry per
      comma-separated piece. */
  lemma OverrideSize(s: string)
    requires s != ""
    ensures 1 <= |GetIgnoreWords(Some(s))| <= |SplitOn(s, ',')|
  {
    ImageSize(SplitOn(s, ','), Normalize);
  }

  /** Padding and case are removed from each piece, as in `" Ok "` to `"ok"`. */
  lemma NormalizePiece(pre: string, t: string, post: string)
    requires AllSpace(pre) && AllSpace(post) && Stripped(t)
    ensures Normalize(pre + t + post) == Lower(t)
  {
    StripPadded(pre, t, post);
  }

  /** Each piece is a core padded with whitespace on both sides; the cores
      hold no comma and have no whitespace of their own at either end. */
  predicate PaddedCores(pieces: seq<string>, pre: seq<string>, core: seq<string>, post: seq<string>)
  {
    |core| >= 1 && |pieces| == |pre| == |core| == |post| &&
    forall i :: 0 <= i < |core| ==>
      pieces[i] == pre[i] + core[i] + post[i] &&
      AllSpace(pre[i]) && AllSpace(post[i]) && Stripped(core[i]) && ',' !in core[i]
  }

  lemma PaddedCommaFree(pieces: seq<string>, pre: seq<string>, core: seq<string>, post: seq<string>)
    requires PaddedCores(pieces, pre, core, post)
    ensures forall p :: p in pieces ==> ',' !in p
  {
    forall p | p in pieces ensures ',' !in p {
      var i :| 0 <= i < |pieces| && pieces[i] == p;
      assert forall k :: 0 <= k < |pre[i]| ==> pre[i][k] != ',';
      assert forall k :: 0 <= k < |post[i]| ==> post[i][k] != ',';
    }
  }

  /** Three pieces, checked one at a time. */
  lemma ThreePaddedCores(pieces: seq<string>, pre: seq<string>, core: seq<string>, post: seq<string>)
    requires |pieces| == |pre| == |core| == |post| == 3
    requires forall i :: 0 <= i < 3 ==> pieces[i] == pre[i] + core[i] + post[i]
    requires forall i :: 0 <= i < 3 ==> AllSpace(pre[i]) && AllSpace(post[i])
    requires forall i :: 0 <= i < 3 ==> Stripped(core[i]) && ',' !in core[i]
    ensures PaddedCores(pieces, pre, core, post)
    ensures (set i | 0 <= i < |core| :: Lower(core[i])) == {Lower(core[0]), Lower(core[1]), Lower(core[2])}
  {
    var lowered := set i | 0 <= i < |core| :: Lower(core[i]);
    assert Lower(core[0]) in lowered && Lower(core[1]) in lowered && Lower(core[2]) in lowered;
  }

  /** Normalising a padded piece gives its core, lower-cased. */
  lemma PaddedNormalizes(pieces: seq<string>, pre: seq<string>, core: seq<string>, post: seq<string>)
    requires PaddedCores(pieces, pre, core, post)
    ensures forall i :: 0 <= i < |core| ==> Normalize(pieces[i]) == Lower(core[i])
  {
    forall i | 0 <= i < |core| ensures Normalize(pieces[i]) == Lower(core[i]) {
      NormalizePiece(pre[i], core[i], post[i]);
    }
  }

  /** The normalised pieces are the lower-cased cores. */
  lemma NormalizedImage(pieces: seq<string>, core: seq<string>)
    requires |pieces| == |core|
    requires forall i :: 0 <= i < |core| ==> Normalize(pieces[i]) == Lower(core[i])
    ensures Image(pieces, Normalize) == set i | 0 <= i < |core| :: Lower(core[i])
  {
    var lowered := set i | 0 <= i < |core| :: Lower(core[i]);
    forall w | w in Image(pieces, Normalize) ensures w in lowered {
      var p :| p in pieces && w == Normalize(p);
      var i :| 0 <= i < |pieces| && pieces[i] == p;
    }
    forall w | w in lowered ensures w in Image(pieces, Normalize) {
      var i :| 0 <= i < |core| && w == Lower(core[i]);
      assert pieces[i] in pieces;
    }
  }

  /** An override written as comma-separated padded cores resolves to
      exactly the lower-cased cores. */
  lemma PaddedOverride(pieces: seq<string>, pre: seq<string>, core: seq<string>, post: seq<string>)
    requires PaddedCores(pieces, pre, core, post)
    requires Join(pieces, ',') != ""
    ensures GetIgnoreWords(Some(Join(pieces, ','))) == set i | 0 <= i < |core| :: Lower(core[i])
  {
    PaddedCommaFree(pieces, pre, core, post);
    SplitOnJoin(pieces, ',');
    PaddedNormalizes(pieces, pre, core, post);
    NormalizedImage(pieces, core);
  }

  /** Pieces that differ only in ASCII case and surrounding whitespace
      collapse into a single entry. */
  lemma OverrideCollapsesDuplicates(pieces: seq<string>, pre: seq<string>, core: seq<string>, post: seq<string>, t: string)
    requires PaddedCores(pieces, pre, core, post)
    requires forall i :: 0 <= i < |core| ==> Lower(core[i]) == Lower(t)
    requires Join(pieces, ',') != ""
    ensures GetIgnoreWords(Some(Join(pieces, ','))) == {Lower(t)}
  {
    PaddedOverride(pieces, pre, core, post);
    assert Lower(core[0]) == Lower(t);
  }

  // The literal lemmas below (`ExampleLowercase`, `JoinExample`,
  // `JoinDuplicates`, `JoinBlank`) state one fact each about the example
  // strings; kept apart, they keep each example proof within the solver's
  // resource budget.

  /** The lower-case forms of the words in the examples below. */
  lemma ExampleLowercase()
    ensures Lower("Yeah") == Lower("yeah") == Lower("YEAH") == "yeah"
    ensures Lower("Ok") == "ok" && Lower("Sure") == "sure"
  {
  }

  lemma JoinExample()
    ensures Join(["Yeah", " Ok ", "  Sure"], ',') == "Yeah, Ok ,  Sure"
  {
  }

  /** The example override `"Yeah, Ok ,  Sure"` resolves to the normalised
      set `{"yeah", "ok", "sure"}`. */
  lemma OverrideExample()
    ensures GetIgnoreWords(Some("Yeah, Ok ,  Sure")) == {"yeah", "ok", "sure"}
  {
    var pieces := ["Yeah", " Ok ", "  Sure"];
    var pre, core, post := ["", " ", "  "], ["Yeah", "Ok", "Sure"], ["", " ", ""];
    ThreePaddedCores(pieces, pre, core, post);
    assert Join(pieces, ',') == "Yeah, Ok ,  Sure" by { JoinExample(); }
    PaddedOverride(pieces, pre, core, post);
    assert Lower("Yeah") == "yeah" && Lower("Ok") == "ok" && Lower("Sure") == "sure" by {
      ExampleLowercase();
    }
  }

  lemma JoinDuplicates()
    ensures Join(["Yeah", "yeah ", " YEAH"], ',') == "Yeah,yeah , YEAH"
  {
  }

  /** `"Yeah,yeah , YEAH"` collapses to the single entry `"yeah"`. */
  lemma DuplicatesExample()
    ensures GetIgnoreWords(Some("Yeah,yeah , YEAH")) == {"yeah"}
  {
    var pieces := ["Yeah", "yeah ", " YEAH"];
    var pre, core, post := ["", "", " "], ["Yeah", "yeah", "YEAH"], ["", " ", ""];
    assert PaddedCores(pieces, pre, core, post) by { ThreePaddedCores(pieces, pre, core, post); }
    assert Join(pieces, ',') == "Yeah,yeah , YEAH" by { JoinDuplicates(); }
    assert forall i :: 0 <= i < |core| ==> Lower(core[i]) == Lower("yeah") by { ExampleLowercase(); }
    OverrideCollapsesDuplicates(pieces, pre, core, post, "yeah");
    assert Lower("yeah") == "yeah" by { ExampleLowercase(); }
  }

  lemma JoinBlank()
    ensures Join(["a", " ", "b"], ',') == "a, ,b"
  {
  }

  /** A blank piece of a non-empty override is kept: it normalises to the
      empty word, which is then an entry. */
  lemma OverrideKeepsBlankPiece(s: string, p: string)
    requires s != "" && p in SplitOn(s, ',') && AllSpace(p)
    ensures "" in GetIgnoreWords(Some(s))
  {
    NormalizeEmptyIff(p);
  }

  /** In `"a, ,b"` the blank middle piece gives the empty entry. */
  lemma BlankPieceExample()
    ensures "" in GetIgnoreWords(Some("a, ,b"))
  {
    var pieces := ["a", " ", "b"];
    var pre, core, post := ["", " ", ""], ["a", "", "b"], ["", "", ""];
    ThreePaddedCores(pieces, pre, core, post);
    JoinBlank();
    PaddedOverride(pieces, pre, core, post);
    assert Lower(core[1]) == "";
  }

  /** Without an override, or with an empty one, the set is exactly the
      built-in one: a named corollary of `GetIgnoreWords`' contract. */
  lemma DefaultWhenUnset()
    ensures GetIgnoreWords(None) == GetIgnoreWords(Some("")) == DefaultIgnoreWords
  {
  }

  /** Every built-in entry keeps its trailing period, so `"yeah."` is
      ignored and `"yeah"` is not. */
  lemma DefaultKeepsPeriods()
    ensures forall w :: w in DefaultIgnoreWords ==> |w| > 1 && w[|w| - 1] == '.'
    ensures "yeah." in DefaultIgnoreWords && "yeah" !in DefaultIgnoreWords
  {
  }
}
