/**
  Keyword extraction of the result-card highlighter: the query is lower-cased,
  split on white-space runs (`split(/\s+/)`), and the tokens of at least three
  characters that are not stopwords are kept, in query order.
 */
module Keywords {
  import opened JsString

  /** The stopword list, in source order (it holds "its" twice). */
  const Stopwords: seq<string> := [
    "the", "and", "for", "are", "but", "not", "you", "all", "can", "her", "was", "one",
    "our", "out", "day", "get", "has", "him", "his", "how", "its", "may", "new", "now",
    "old", "see", "two", "way", "who", "boy", "did", "its", "let", "put", "say", "she",
    "too", "use"]

  const MinKeywordLength: nat := 3

  /** `list.includes(w)`: a left-to-right scan for an equal entry. */
  predicate Includes(list: seq<string>, w: string): (found: bool)
    ensures found <==> w in list
  {
    list != [] && (list[0] == w || Includes(list[1..], w))
  }

  /** A token survives both filters. */
  predicate IsKeywordToken(w: string) {
    |w| >= MinKeywordLength && !Includes(Stopwords, w)
  }

  /** The end of the white-space-free run that starts at `i`. */
  function TokenEnd(s: string, i: nat): (e: nat)
    requires i <= |s|
    ensures i <= e <= |s|
    ensures forall k :: i <= k < e ==> !IsWhitespace(s[k])
    ensures e == |s| || IsWhitespace(s[e])
    decreases |s| - i
  {
    if i == |s| || IsWhitespace(s[i]) then i else TokenEnd(s, i + 1)
  }

  /** No character of `w` is white space. */
  predicate NoWhitespace(w: string) {
    forall j :: 0 <= j < |w| ==> !IsWhitespace(w[j])
  }

  /** The pieces with the separators between them: `pieces[0] + seps[0] + pieces[1] + ...`. */
  function Interleave(pieces: seq<string>, seps: seq<string>): string
    requires |pieces| == |seps| + 1
    decreases |seps|
  {
    if seps == [] then pieces[0] else pieces[0] + seps[0] + Interleave(pieces[1..], seps[1..])
  }

  /**
    `s` is the pieces separated by white-space runs: the pieces are free of
    white space, each separator is a non-empty run of white space, only the
    first and the last piece may be empty, and putting them back together,
    in order, gives `s`.
   */
  ghost predicate IsWhitespaceSplit(s: string, pieces: seq<string>, seps: seq<string>) {
    && |pieces| == |seps| + 1
    && (forall j :: 0 <= j < |pieces| ==> NoWhitespace(pieces[j]))
    && (forall j :: 0 <= j < |seps| ==> seps[j] != [] && AllWhitespace(seps[j]))
    && (forall j :: 0 < j < |pieces| - 1 ==> pieces[j] != [])
    && Interleave(pieces, seps) == s
  }

  /** The white-space runs that `split(/\s+/)` removes, from position `i` on. */
  function SeparatorsFrom(s: string, i: nat): seq<string>
    requires i <= |s|
    decreases |s| - i
  {
    var e := TokenEnd(s, i);
    if e == |s| then [] else [s[e..SkipWhitespace(s, e + 1)]] + SeparatorsFrom(s, SkipWhitespace(s, e + 1))
  }

  /** A piece, a white-space run, then a split of the rest, is a split. */
  lemma {:induction false} PrependPiece(s: string, i: nat, e: nat, k: nat, tail: seq<string>, seps: seq<string>)
    requires i <= e < k <= |s|
    requires forall j :: i <= j < e ==> !IsWhitespace(s[j])
    requires forall j :: e <= j < k ==> IsWhitespace(s[j])
    requires k == |s| || !IsWhitespace(s[k])
    requires IsWhitespaceSplit(s[k..], tail, seps)
    ensures IsWhitespaceSplit(s[i..], [s[i..e]] + tail, [s[e..k]] + seps)
  {
    var pieces := [s[i..e]] + tail;
    assert pieces[1..] == tail;
    assert ([s[e..k]] + seps)[1..] == seps;
    assert s[i..] == s[i..e] + s[e..k] + s[k..];
  }

  /**
    The pieces of `s.split(/\s+/)` from position `i` on: the run up to the
    next white space, then, past the whole white-space run, the rest.
   */
  function TokensFrom(s: string, i: nat): (tokens: seq<string>)
    requires i <= |s|
    ensures |tokens| > 0
    decreases |s| - i
  {
    var e := TokenEnd(s, i);
    if e == |s| then [s[i..e]] else [s[i..e]] + TokensFrom(s, SkipWhitespace(s, e + 1))
  }

  /** The pieces from `i` on, with the white-space runs between them, put back together give `s[i..]`. */
  lemma {:induction false} TokensFromSplits(s: string, i: nat)
    requires i <= |s|
    ensures IsWhitespaceSplit(s[i..], TokensFrom(s, i), SeparatorsFrom(s, i))
    decreases |s| - i
  {
    var e := TokenEnd(s, i);
    if e == |s| {
      assert s[i..e] == s[i..];
      assert Interleave([s[i..e]], []) == s[i..e];
    } else {
      var k := SkipWhitespace(s, e + 1);
      TokensFromSplits(s, k);
      PrependPiece(s, i, e, k, TokensFrom(s, k), SeparatorsFrom(s, k));
    }
  }

  /**
    `s.split(/\s+/)`: the pieces between the maximal white-space runs, including
    the empty piece before a leading run and after a trailing one.
   */
  function SplitOnWhitespace(s: string): (tokens: seq<string>)
    ensures |tokens| > 0
    ensures exists seps :: IsWhitespaceSplit(s, tokens, seps)
  {
    TokensFromSplits(s, 0);
    assert s[0..] == s;
    TokensFrom(s, 0)
  }

  lemma {:induction false} TokenEndAt(s: string, i: nat, e: nat)
    requires i <= e <= |s|
    requires forall j :: i <= j < e ==> !IsWhitespace(s[j])
    requires e == |s| || IsWhitespace(s[e])
    ensures TokenEnd(s, i) == e
    decreases e - i
  {
    if i < e {
      TokenEndAt(s, i + 1, e);
    }
  }

  lemma {:induction false} SkipWhitespaceAt(s: string, i: nat, k: nat)
    requires i <= k <= |s|
    requires forall j :: i <= j < k ==> IsWhitespace(s[j])
    requires k == |s| || !IsWhitespace(s[k])
    ensures SkipWhitespace(s, i) == k
    decreases k - i
  {
    if i < k {
      SkipWhitespaceAt(s, i + 1, k);
    }
  }

  /** The characters of `s[i..]` where it is `a + b + c`. */
  lemma SliceOfConcat(s: string, i: nat, a: string, b: string, c: string)
    requires i <= |s| && s[i..] == a + b + c
    ensures i + |a| + |b| <= |s|
    ensures forall j :: 0 <= j < |a| ==> s[i + j] == a[j]
    ensures forall j :: 0 <= j < |b| ==> s[i + |a| + j] == b[j]
    ensures s[i + |a| + |b|..] == c
  {
    forall j | 0 <= j < |a| ensures s[i + j] == a[j] {
      assert s[i..][j] == (a + b + c)[j];
    }
    forall j | 0 <= j < |b| ensures s[i + |a| + j] == b[j] {
      assert s[i..][|a| + j] == (a + b + c)[|a| + j];
    }
    assert s[i + |a| + |b|..] == s[i..][|a| + |b|..];
  }

  /** Past a piece that does not reach the end, `split` resumes after the white-space run. */
  lemma TokensFromStep(s: string, i: nat, e: nat, k: nat, t: string)
    requires i <= e < |s| && TokenEnd(s, i) == e && SkipWhitespace(s, e + 1) == k && s[i..e] == t
    ensures TokensFrom(s, i) == [t] + TokensFrom(s, k)
  {
  }

  /** Pieces whose head is the first piece `split` finds and whose tail is the rest are what it finds. */
  lemma ConsTokens(s: string, i: nat, k: nat, t: string, pieces: seq<string>)
    requires i <= |s| && k <= |s| && pieces != [] && pieces[0] == t
    requires TokensFrom(s, i) == [t] + TokensFrom(s, k)
    requires TokensFrom(s, k) == pieces[1..]
    ensures TokensFrom(s, i) == pieces
  {
    assert pieces == [t] + pieces[1..];
  }

  /** A last piece free of white space is the only piece `split` finds. */
  lemma LastPieceIsTokensFrom(s: string, i: nat, pieces: seq<string>)
    requires i <= |s| && |pieces| == 1 && s[i..] == pieces[0] && NoWhitespace(pieces[0])
    ensures TokensFrom(s, i) == pieces
  {
    SliceOfConcat(s, i, pieces[0], [], []);
    TokenEndAt(s, i, |s|);
    assert s[i..|s|] == pieces[0];
    assert pieces == [pieces[0]];
  }

  /**
    Where `s[i..]` is a piece, a white-space run and a rest that does not
    start with white space, `split`'s piece ends at the run and its next
    piece starts at the rest.
   */
  lemma PieceEnds(s: string, i: nat, t: string, w: string, rest: string)
    requires i <= |s| && s[i..] == t + w + rest
    requires NoWhitespace(t) && w != [] && AllWhitespace(w)
    requires rest == [] || !IsWhitespace(rest[0])
    ensures i + |t| < |s| && TokenEnd(s, i) == i + |t|
    ensures SkipWhitespace(s, i + |t| + 1) == i + |t| + |w|
    ensures s[i..i + |t|] == t && s[i + |t| + |w|..] == rest
  {
    SliceOfConcat(s, i, t, w, rest);
    var e := i + |t|;
    var k := e + |w|;
    assert s[e + 0] == w[0];
    TokenEndAt(s, i, e);
    forall j | e + 1 <= j < k ensures IsWhitespace(s[j]) {
      assert s[e + (j - e)] == w[j - e];
    }
    if rest != [] {
      assert s[k..][0] == rest[0];
    }
    SkipWhitespaceAt(s, e + 1, k);
    assert s[i..e] == t;
  }

  /** The separated pieces after the first piece and separator form a split of what follows them. */
  lemma TailSplit(x: string, pieces: seq<string>, seps: seq<string>)
    requires IsWhitespaceSplit(x, pieces, seps) && seps != []
    ensures x == pieces[0] + seps[0] + Interleave(pieces[1..], seps[1..])
    ensures NoWhitespace(pieces[0]) && seps[0] != [] && AllWhitespace(seps[0])
    ensures IsWhitespaceSplit(Interleave(pieces[1..], seps[1..]), pieces[1..], seps[1..])
    ensures Interleave(pieces[1..], seps[1..]) == [] || !IsWhitespace(Interleave(pieces[1..], seps[1..])[0])
  {
    var rest := Interleave(pieces[1..], seps[1..]);
    var p1 := pieces[1..];
    assert forall j :: 0 <= j < |p1| ==> p1[j] == pieces[j + 1];
    assert NoWhitespace(p1[0]);
    if p1[0] != [] {
      if |seps| > 1 {
        assert rest == p1[0] + (seps[1..][0] + Interleave(p1[1..], seps[1..][1..]));
      }
      assert rest[0] == p1[0][0];
    }
  }

  /** Past the first piece and separator of a split, the remaining pieces and separators split what follows. */
  lemma TailIsSplit(s: string, i: nat, pieces: seq<string>, seps: seq<string>)
    requires i <= |s| && IsWhitespaceSplit(s[i..], pieces, seps) && seps != []
    ensures i + |pieces[0]| + |seps[0]| <= |s|
    ensures IsWhitespaceSplit(s[i + |pieces[0]| + |seps[0]|..], pieces[1..], seps[1..])
  {
    var t, w, rest := pieces[0], seps[0], Interleave(pieces[1..], seps[1..]);
    TailSplit(s[i..], pieces, seps);
    PieceEnds(s, i, t, w, rest);
  }

  /**
    If `split`'s piece from `i` is `t`, ending at `e`, its next piece starts
    at `k`, and it finds the remaining pieces from `k`, it finds `t` and them
    from `i`.
   */
  lemma FirstPieceTokens(s: string, i: nat, e: nat, k: nat, t: string, pieces: seq<string>)
    requires i <= e < |s| && TokenEnd(s, i) == e && SkipWhitespace(s, e + 1) == k && s[i..e] == t
    requires pieces != [] && pieces[0] == t && TokensFrom(s, k) == pieces[1..]
    ensures TokensFrom(s, i) == pieces
  {
    TokensFromStep(s, i, e, k, t);
    ConsTokens(s, i, k, t, pieces);
  }

  /** If `split` finds the remaining pieces past the first separator, it finds all the pieces from `i`. */
  lemma TailTokens(s: string, i: nat, pieces: seq<string>, seps: seq<string>)
    requires i <= |s| && IsWhitespaceSplit(s[i..], pieces, seps) && seps != []
    requires i + |pieces[0]| + |seps[0]| <= |s|
    requires TokensFrom(s, i + |pieces[0]| + |seps[0]|) == pieces[1..]
    ensures TokensFrom(s, i) == pieces
  {
    var t, w, rest := pieces[0], seps[0], Interleave(pieces[1..], seps[1..]);
    TailSplit(s[i..], pieces, seps);
    PieceEnds(s, i, t, w, rest);
    FirstPieceTokens(s, i, i + |t|, i + |t| + |w|, t, pieces);
  }

  /** A split of `s[i..]` into pieces and white-space runs is the one `split` finds from `i`. */
  lemma {:induction false} WhitespaceSplitIsTokensFrom(s: string, i: nat, pieces: seq<string>, seps: seq<string>)
    requires i <= |s| && IsWhitespaceSplit(s[i..], pieces, seps)
    ensures TokensFrom(s, i) == pieces
    decreases |seps|
  {
    if seps == [] {
      LastPieceIsTokensFrom(s, i, pieces);
    } else {
      var k := i + |pieces[0]| + |seps[0]|;
      assert k <= |s| && TokensFrom(s, k) == pieces[1..] by {
        TailIsSplit(s, i, pieces, seps);
        WhitespaceSplitIsTokensFrom(s, k, pieces[1..], seps[1..]);
      }
      TailTokens(s, i, pieces, seps);
    }
  }

  /**
    `split(/\s+/)` is characterised by the round trip: `tokens` is the split
    of `s` exactly when `s` is `tokens` separated by non-empty white-space
    runs, in order, with only the first and last piece possibly empty.
   */
  lemma SplitOnWhitespaceCharacterized(s: string, tokens: seq<string>)
    ensures (exists seps :: IsWhitespaceSplit(s, tokens, seps)) <==> tokens == SplitOnWhitespace(s)
  {
    if seps :| IsWhitespaceSplit(s, tokens, seps) {
      assert s[0..] == s;
      WhitespaceSplitIsTokensFrom(s, 0, tokens, seps);
    }
  }

  /** `w` is a maximal white-space-free run of `s` starting at `i`. */
  ghost predicate RunAt(s: string, i: int, w: string) {
    && w != []
    && 0 <= i && i + |w| <= |s|
    && s[i..i + |w|] == w
    && (forall j :: 0 <= j < |w| ==> !IsWhitespace(w[j]))
    && (i == 0 || IsWhitespace(s[i - 1]))
    && (i + |w| == |s| || IsWhitespace(s[i + |w|]))
  }

  /** Every non-empty piece from a piece start `i` on is a maximal run of the input. */
  lemma {:induction false} TokenFromIsRun(s: string, i: nat, w: string)
    requires i <= |s| && (i == 0 || IsWhitespace(s[i - 1]))
    requires w in TokensFrom(s, i) && w != []
    ensures exists p :: RunAt(s, p, w)
    decreases |s| - i
  {
    var e := TokenEnd(s, i);
    if w == s[i..e] {
      forall j | 0 <= j < |w| ensures !IsWhitespace(w[j]) {
        assert w[j] == s[i + j];
      }
      assert RunAt(s, i, w);
    } else {
      var k := SkipWhitespace(s, e + 1);
      assert IsWhitespace(s[k - 1]);
      TokenFromIsRun(s, k, w);
    }
  }

  /** The run end of a maximal run is where `TokenEnd` stops. */
  lemma RunEnd(s: string, p: int, w: string)
    requires RunAt(s, p, w)
    ensures TokenEnd(s, p) == p + |w|
  {
  }

  /** Every maximal run at or after a piece start `i` is a piece from `i` on. */
  lemma {:induction false} RunIsTokenFrom(s: string, i: nat, p: int, w: string)
    requires i <= p && RunAt(s, p, w)
    ensures w in TokensFrom(s, i)
    decreases |s| - i
  {
    var e := TokenEnd(s, i);
    if p == i {
      RunEnd(s, p, w);
      assert TokensFrom(s, i)[0] == w;
    } else {
      assert s[p] == w[0];
      assert e < p;
      var k := SkipWhitespace(s, e + 1);
      assert k <= p;
      RunIsTokenFrom(s, k, p, w);
    }
  }

  lemma TokenIsRun(s: string, w: string)
    requires w in SplitOnWhitespace(s) && w != []
    ensures exists i :: RunAt(s, i, w)
  {
    TokenFromIsRun(s, 0, w);
  }

  lemma RunIsToken(s: string, i: int, w: string)
    requires RunAt(s, i, w)
    ensures w in SplitOnWhitespace(s)
  {
    RunIsTokenFrom(s, 0, i, w);
  }

  /** The two filters of the source, applied together and in order. */
  function FilterKeywords(tokens: seq<string>): (kws: seq<string>)
    ensures |kws| <= |tokens|
    ensures forall w :: w in kws <==> w in tokens && IsKeywordToken(w)
  {
    if tokens == [] then []
    else if IsKeywordToken(tokens[0]) then [tokens[0]] + FilterKeywords(tokens[1..])
    else FilterKeywords(tokens[1..])
  }

  /** `.filter` works token by token: it distributes over concatenation, so it keeps the tokens' order and repetitions. */
  lemma {:induction false} FilterKeywordsAppend(a: seq<string>, b: seq<string>)
    ensures FilterKeywords(a + b) == FilterKeywords(a) + FilterKeywords(b)
    decreases |a|
  {
    if a == [] {
      assert a + b == b;
    } else {
      assert (a + b)[0] == a[0];
      assert (a + b)[1..] == a[1..] + b;
      FilterKeywordsAppend(a[1..], b);
    }
  }

  /** One token is kept exactly when it passes both filters. */
  lemma FilterKeywordsSingleton(w: string)
    ensures FilterKeywords([w]) == if IsKeywordToken(w) then [w] else []
  {
    assert [w][1..] == [];
  }

  /** The keyword list the highlighter builds from the search query: lower-case tokens of at least three characters. */
  function ExtractKeywords(query: string): (kws: seq<string>)
    ensures forall k :: k in kws ==> |k| >= MinKeywordLength && LowerStr(k) == k
  {
    LowerStrIdempotent(query);
    KeywordsOfLowerCase(LowerStr(query));
    FilterKeywords(SplitOnWhitespace(LowerStr(query)))
  }

  /** The keywords of a lower-case string are lower case and have at least three characters. */
  lemma KeywordsOfLowerCase(l: string)
    requires LowerStr(l) == l
    ensures forall k :: k in FilterKeywords(SplitOnWhitespace(l)) ==> |k| >= MinKeywordLength && LowerStr(k) == k
  {
    forall k | k in FilterKeywords(SplitOnWhitespace(l))
      ensures |k| >= MinKeywordLength && LowerStr(k) == k
    {
      assert k in SplitOnWhitespace(l) && |k| >= MinKeywordLength;
      TokenIsRun(l, k);
      var i :| RunAt(l, i, k);
      RunOfLowerCase(l, i, k);
    }
  }

  /**
    The extraction rule: the keywords are exactly the maximal white-space-free
    runs of the lower-cased query with at least three characters that are not
    stopwords.
   */
  lemma KeywordExtractionRule(query: string, w: string)
    ensures w in ExtractKeywords(query) <==>
              |w| >= MinKeywordLength && w !in Stopwords && exists i :: RunAt(LowerStr(query), i, w)
  {
    var l := LowerStr(query);
    if w in ExtractKeywords(query) {
      TokenIsRun(l, w);
    }
    if |w| >= MinKeywordLength && exists i :: RunAt(l, i, w) {
      var i :| RunAt(l, i, w);
      RunIsToken(l, i, w);
    }
  }

  /** Every stopword has three characters, so no longer token is ever filtered as one. */
  lemma StopwordsHaveLengthThree()
    ensures forall w :: w in Stopwords ==> |w| == 3
  {
  }

  /** A run of four or more characters is always a keyword ("with" is one). */
  lemma LongRunIsKeyword(query: string, i: int, w: string)
    requires RunAt(LowerStr(query), i, w) && |w| >= 4
    ensures w in ExtractKeywords(query)
  {
    StopwordsHaveLengthThree();
    KeywordExtractionRule(query, w);
  }

  /** A run of a lower-case string is lower case. */
  lemma RunOfLowerCase(l: string, i: int, w: string)
    requires LowerStr(l) == l && RunAt(l, i, w)
    ensures LowerStr(w) == w
  {
    LowerCaseSlice(l, i, i + |w|);
  }

  /** A blank query yields no keyword: every piece of its split is empty. */
  lemma {:induction false} BlankTokensAreEmpty(s: string, i: nat)
    requires i <= |s| && AllWhitespace(s)
    ensures forall w :: w in TokensFrom(s, i) ==> w == []
    decreases |s| - i
  {
    var e := TokenEnd(s, i);
    assert e == i;
    if e < |s| {
      BlankTokensAreEmpty(s, SkipWhitespace(s, e + 1));
    }
  }

  lemma {:induction false} NoKeywordTokenFiltersToEmpty(tokens: seq<string>)
    requires forall w :: w in tokens ==> |w| < MinKeywordLength
    ensures FilterKeywords(tokens) == []
  {
    if tokens != [] {
      assert tokens[0] in tokens;
      NoKeywordTokenFiltersToEmpty(tokens[1..]);
    }
  }

  lemma BlankQueryHasNoKeywords(query: string)
    requires Trim(query) == []
    ensures ExtractKeywords(query) == []
  {
    TrimEmptyIff(query);
    LowerKeepsBlank(query);
    BlankTokensAreEmpty(LowerStr(query), 0);
    NoKeywordTokenFiltersToEmpty(SplitOnWhitespace(LowerStr(query)));
  }

  /** The keywords depend on the query only through its lower-case form. */
  lemma ExtractKeywordsIgnoresCase(query: string)
    ensures ExtractKeywords(LowerStr(query)) == ExtractKeywords(query)
  {
    LowerStrIdempotent(query);
  }

  /** Lower-casing "AI and the" touches only the two capitals. */
  lemma LowerExample()
    ensures LowerStr("AI and the") == "ai and the"
  {
  }

  /** "ai and the" splits into its three words, in order. */
  lemma SplitExample()
    ensures SplitOnWhitespace("ai and the") == ["ai", "and", "the"]
  {
    assert IsWhitespaceSplit("ai and the", ["ai", "and", "the"], [" ", " "]);
    SplitOnWhitespaceCharacterized("ai and the", ["ai", "and", "the"]);
  }

  /** None of "ai", "and", "the" is a keyword. */
  lemma FilterExample()
    ensures FilterKeywords(["ai", "and", "the"]) == []
  {
    assert Stopwords[0] == "the" && Stopwords[1] == "and";
    var kws := FilterKeywords(["ai", "and", "the"]);
    assert forall w :: w !in kws;
  }

  /** The query "AI and the" has no keyword: "ai" is too short, "and" and "the" are stopwords. */
  lemma NoKeywordExample()
    ensures ExtractKeywords("AI and the") == []
  {
    LowerExample();
    SplitExample();
    FilterExample();
  }
}
