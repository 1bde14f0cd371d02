/**
  The result-card highlighter `highlightKeywords(text, searchQuery)`.

  The query's keywords are joined into one pattern `\b(k1|k2|...)\b` with the
  flags `gi` (each keyword escaped, so it is matched literally), the display
  text is split on that pattern keeping the captured match, and each piece is
  marked as a keyword when it equals some keyword up to case. The pattern is
  modelled without a regular-expression engine: `MatchAt` is what the pattern
  matches at one position, and `Scan` is the `split` loop.
 */
module Highlight {
  import opened Wrappers
  import opened JsString
  import opened Keywords

  /** One piece of the highlighted text. */
  datatype Segment = Segment(text: string, isKeyword: bool)

  /** Whether position `j` holds a word character; positions outside the string do not. */
  predicate IsWordAt(s: string, j: int) {
    0 <= j < |s| && IsWordChar(s[j])
  }

  /** `\b` at position `i`: the characters on either side differ in word-ness. */
  predicate IsBoundary(s: string, i: int): (b: bool)
    ensures b ==> 0 <= i <= |s|
    ensures 0 < i < |s| ==> (b <==> IsWordChar(s[i - 1]) != IsWordChar(s[i]))
    ensures i == 0 ==> (b <==> |s| > 0 && IsWordChar(s[0]))
    ensures 0 < i == |s| ==> (b <==> IsWordChar(s[i - 1]))
  {
    IsWordAt(s, i - 1) != IsWordAt(s, i)
  }

  /** A piece of length `n` at `o` starts and ends on a word boundary. */
  predicate WholeWordAt(s: string, o: int, n: int) {
    IsBoundary(s, o) && IsBoundary(s, o + n)
  }

  /** The alternative `k` followed by `\b` matches the text at `i`, up to case. */
  predicate Fits(text: string, i: int, k: string) {
    && 0 <= i && i + |k| <= |text|
    && CiEqual(text[i..i + |k|], k)
    && IsBoundary(text, i + |k|)
  }

  predicate NonEmptyWords(kws: seq<string>) {
    forall k :: k in kws ==> |k| > 0
  }

  /**
    The alternation `(k1|k2|...)\b` at position `i`: the length of the first
    alternative, in list order, that fits there; later alternatives are tried
    only when an earlier one fails, as regular-expression backtracking does.
   */
  function FirstFit(text: string, i: int, kws: seq<string>): (r: Option<nat>)
    ensures r.None? <==> forall j :: 0 <= j < |kws| ==> !Fits(text, i, kws[j])
    ensures r.Some? ==> exists j :: 0 <= j < |kws| && Fits(text, i, kws[j]) && |kws[j]| == r.value
                                 && forall j' :: 0 <= j' < j ==> !Fits(text, i, kws[j'])
  {
    if kws == [] then None
    else if Fits(text, i, kws[0]) then Some(|kws[0]|)
    else
      var r := FirstFit(text, i, kws[1..]);
      assert forall j :: 1 <= j < |kws| ==> kws[j] == kws[1..][j - 1];
      r
  }

  /** The whole pattern `\b(k1|k2|...)\b` matched at position `i`, as the length of the match. */
  function MatchAt(text: string, kws: seq<string>, i: int): (r: Option<nat>)
    ensures r.Some? ==> && IsBoundary(text, i)
                        && 0 <= i && i + r.value <= |text|
                        && IsBoundary(text, i + r.value)
                        && exists k :: k in kws && |k| == r.value && CiEqual(text[i..i + r.value], k)
  {
    if IsBoundary(text, i) then FirstFit(text, i, kws) else None
  }

  /**
    Whole words only, and keywords are literal: "pod" matches neither inside
    "pods" nor inside "ipod", and "a.b" matches "A.B" but not "axb".
   */
  lemma WholeWordExamples()
    ensures MatchAt("pods", ["pod"], 0) == None
    ensures MatchAt("ipod", ["pod"], 1) == None
    ensures MatchAt("a pod.", ["pod"], 2) == Some(3)
    ensures MatchAt("axb", ["a.b"], 0) == None
    ensures MatchAt("A.B", ["a.b"], 0) == Some(3)
  {
    assert !Fits("pods", 0, "pod");
    assert Fits("a pod.", 2, "pod") by {
      assert "a pod."[2..5] == "pod";
    }
    assert !CiEqual("axb", "a.b") by {
      assert LowerStr("axb")[1] == 'x';
    }
    assert CiEqual("A.B", "a.b") by {
      assert LowerStr("A.B") == "a.b" == LowerStr("a.b");
    }
  }

  /**
    A keyword that ends in a non-word character, such as "c++", needs a word
    character right after it for the closing `\b`, so it does not match
    before a space.
   */
  lemma TrailingSymbolExample()
    ensures MatchAt("use c++ now", ["c++"], 4) == None
  {
    assert !IsBoundary("use c++ now", 7);
  }

  /**
    A matcher gives, for each position, the length of the match that starts
    there, if any. `Pattern` is the matcher of `\b(k1|k2|...)\b`.
   */
  type Matcher = int -> Option<nat>

  function Pattern(text: string, kws: seq<string>): Matcher {
    i => MatchAt(text, kws, i)
  }

  lemma PatternAt(text: string, kws: seq<string>, i: int)
    ensures Pattern(text, kws)(i) == MatchAt(text, kws, i)
  {
  }

  /** Every match lies inside the text and is non-empty. */
  ghost predicate Progresses(text: string, m: Matcher) {
    forall i :: m(i).Some? ==> 0 <= i && 0 < m(i).value && i + m(i).value <= |text|
  }

  lemma {:induction false} PatternProgresses(text: string, kws: seq<string>)
    requires NonEmptyWords(kws)
    ensures Progresses(text, Pattern(text, kws))
  {
  }

  /** No match starts in `[a, b)`. */
  ghost predicate NoMatchIn(m: Matcher, a: int, b: int) {
    forall i :: a <= i < b ==> m(i) == None
  }

  /**
    The `split` loop (`RegExp.prototype[@@split]`) over a matcher: `p` is the
    end of the last match (the start of the current gap), `q` the position
    being tried. A match at `q` closes the gap and emits the gap and the
    captured match; otherwise `q` advances by one.
   */
  function Scan(text: string, m: Matcher, p: nat, q: nat): (parts: seq<string>)
    requires p <= q <= |text|
    requires Progresses(text, m)
    ensures |parts| % 2 == 1
    ensures Concat(parts) == text[p..]
    decreases |text| - q
  {
    if q == |text| then
      assert Concat([text[p..]]) == text[p..] + Concat([]);
      [text[p..]]
    else
      match m(q)
      case None => Scan(text, m, p, q + 1)
      case Some(n) =>
        var rest := Scan(text, m, q + n, q + n);
        ConcatPair(text[p..q], text[q..q + n], rest);
        assert text[p..] == text[p..q] + text[q..q + n] + text[q + n..];
        [text[p..q], text[q..q + n]] + rest
  }

  /**
    `text.split(pattern)` for the pattern built from `kws`: a split in the
    sense of `SplitFrom` (and the only one, by `SplitCharacterized`), whose
    pieces spell the text.
   */
  function Split(text: string, kws: seq<string>): (parts: seq<string>)
    requires NonEmptyWords(kws)
    ensures SplitFrom(text, Pattern(text, kws), 0, parts)
    ensures |parts| % 2 == 1 && Concat(parts) == text
  {
    PatternProgresses(text, kws);
    ScanSplits(text, Pattern(text, kws), 0, 0);
    Scan(text, Pattern(text, kws), 0, 0)
  }

  /** `parts.join("")`. */
  function Concat(parts: seq<string>): string {
    if parts == [] then [] else parts[0] + Concat(parts[1..])
  }

  /** Where piece `j` starts in the concatenation of the pieces. */
  function Offset(parts: seq<string>, j: nat): nat
    requires j <= |parts|
  {
    if j == 0 then 0 else |parts[0]| + Offset(parts[1..], j - 1)
  }

  /**
    `parts` is a split of `text[p..]` by `m`: a gap in which no match starts,
    then either the end of the text or the match that starts where the gap
    ends, followed by a split of the rest.
   */
  ghost predicate SplitFrom(text: string, m: Matcher, p: int, parts: seq<string>)
    decreases |parts|
  {
    && 0 <= p <= |text|
    && if |parts| == 1 then
         parts[0] == text[p..] && NoMatchIn(m, p, |text|)
       else
         && |parts| >= 3
         && p + |parts[0]| + |parts[1]| <= |text|
         && parts[0] == text[p..p + |parts[0]|]
         && NoMatchIn(m, p, p + |parts[0]|)
         && m(p + |parts[0]|) == Some(|parts[1]|)
         && parts[1] == text[p + |parts[0]|..p + |parts[0]| + |parts[1]|]
         && SplitFrom(text, m, p + |parts[0]| + |parts[1]|, parts[2..])
  }

  lemma {:induction false} ConcatPair(a: string, b: string, rest: seq<string>)
    ensures Concat([a, b] + rest) == a + b + Concat(rest)
  {
    assert ([a, b] + rest)[1..] == [b] + rest;
    assert ([b] + rest)[1..] == rest;
  }

  lemma {:induction false} OffsetPair(parts: seq<string>, j: nat)
    requires 2 <= j <= |parts|
    ensures Offset(parts, j) == |parts[0]| + |parts[1]| + Offset(parts[2..], j - 2)
  {
    assert parts[1..][1..] == parts[2..];
  }

  /** The scan from a gap start `p` with no match in `[p, q)` yields a split of `text[p..]`. */
  lemma {:induction false} ScanSplits(text: string, m: Matcher, p: nat, q: nat)
    requires p <= q <= |text| && Progresses(text, m)
    requires NoMatchIn(m, p, q)
    ensures SplitFrom(text, m, p, Scan(text, m, p, q))
    decreases |text| - q
  {
    if q < |text| {
      match m(q)
      case None =>
        ScanSplits(text, m, p, q + 1);
      case Some(n) =>
        ScanSplits(text, m, q + n, q + n);
        var parts := Scan(text, m, p, q);
        assert parts[2..] == Scan(text, m, q + n, q + n);
    }
  }

  /** A split of `text[p..]` is what the scan produces from any position inside its first gap. */
  lemma {:induction false} ScanUnique(text: string, m: Matcher, p: nat, q: nat, parts: seq<string>)
    requires Progresses(text, m) && SplitFrom(text, m, p, parts)
    requires p <= q <= p + |parts[0]|
    ensures q <= |text| && parts == Scan(text, m, p, q)
    decreases |text| - q, 1
  {
    if q == |text| {
      SplitFromLast(text, m, p, parts);
    } else if q < p + |parts[0]| {
      assert m(q) == None;
      ScanUnique(text, m, p, q + 1, parts);
    } else {
      ScanUniqueAtMatch(text, m, p, q, parts);
    }
  }

  /** `ScanUnique` where the scan reaches the end of the first gap, at the match. */
  lemma {:induction false} ScanUniqueAtMatch(text: string, m: Matcher, p: nat, q: nat, parts: seq<string>)
    requires Progresses(text, m) && SplitFrom(text, m, p, parts)
    requires p <= q == p + |parts[0]| < |text|
    ensures parts == Scan(text, m, p, q)
    decreases |text| - q, 0
  {
    SplitFromFirst(text, m, p, parts);
    var n := |parts[1]|;
    var gap, hit, rest := parts[0], parts[1], parts[2..];
    assert gap == text[p..q] && hit == text[q..q + n];
    assert rest == Scan(text, m, q + n, q + n) by {
      ScanUnique(text, m, q + n, q + n, rest);
    }
    ScanMatch(text, m, p, q, n);
    assert parts == [gap, hit] + rest;
  }

  /** A split whose first gap reaches the end of the text is that gap alone. */
  lemma SplitFromLast(text: string, m: Matcher, p: nat, parts: seq<string>)
    requires Progresses(text, m) && SplitFrom(text, m, p, parts)
    requires p + |parts[0]| >= |text|
    ensures parts == [text[p..]]
  {
  }

  /** A split whose first gap ends inside the text continues with the match there. */
  lemma SplitFromFirst(text: string, m: Matcher, p: nat, parts: seq<string>)
    requires Progresses(text, m) && SplitFrom(text, m, p, parts)
    requires p + |parts[0]| < |text|
    ensures |parts| >= 3 && p + |parts[0]| + |parts[1]| <= |text|
    ensures parts[0] == text[p..p + |parts[0]|]
    ensures m(p + |parts[0]|) == Some(|parts[1]|)
    ensures parts[1] == text[p + |parts[0]|..p + |parts[0]| + |parts[1]|]
    ensures SplitFrom(text, m, p + |parts[0]| + |parts[1]|, parts[2..])
  {
  }

  /** The scan at a match emits the gap so far and the match, then scans on past it. */
  lemma ScanMatch(text: string, m: Matcher, p: nat, q: nat, n: nat)
    requires p <= q < |text| && Progresses(text, m) && m(q) == Some(n)
    ensures Scan(text, m, p, q) == [text[p..q], text[q..q + n]] + Scan(text, m, q + n, q + n)
  {
  }

  /** `Split` is characterised by `SplitFrom`: it is a split, and the only one. */
  lemma {:induction false} SplitCharacterized(text: string, kws: seq<string>, parts: seq<string>)
    requires NonEmptyWords(kws)
    ensures SplitFrom(text, Pattern(text, kws), 0, parts) <==> parts == Split(text, kws)
  {
    PatternProgresses(text, kws);
    ScanSplits(text, Pattern(text, kws), 0, 0);
    if SplitFrom(text, Pattern(text, kws), 0, parts) {
      ScanUnique(text, Pattern(text, kws), 0, 0, parts);
    }
  }

  /** A split loses and reorders nothing, and has an odd number of pieces. */
  lemma {:induction false} SplitFromLossless(text: string, m: Matcher, p: int, parts: seq<string>)
    requires SplitFrom(text, m, p, parts)
    ensures Concat(parts) == text[p..]
    ensures |parts| % 2 == 1
    decreases |parts|
  {
    if |parts| == 1 {
      assert Concat(parts) == parts[0] + Concat([]);
    } else {
      var e := p + |parts[0]| + |parts[1]|;
      SplitFromLossless(text, m, e, parts[2..]);
      assert parts == [parts[0], parts[1]] + parts[2..];
      ConcatPair(parts[0], parts[1], parts[2..]);
      assert text[p..] == text[p..p + |parts[0]|] + text[p + |parts[0]|..e] + text[e..];
    }
  }

  /** `t` occurs in `text` at offset `o`. */
  ghost predicate OccursAt(text: string, o: int, t: string) {
    0 <= o && o + |t| <= |text| && text[o..o + |t|] == t
  }

  /**
    `t` is the text at offset `o`; as an odd piece it is the match that
    starts there, as an even piece no match starts inside it.
   */
  ghost predicate PieceAt(text: string, m: Matcher, o: int, t: string, odd: bool) {
    && OccursAt(text, o, t)
    && (odd ==> m(o) == Some(|t|))
    && (!odd ==> NoMatchIn(m, o, o + |t|))
  }

  lemma PieceAtMoved(text: string, m: Matcher, o: int, t: string, odd: bool, o': int, t': string, odd': bool)
    requires PieceAt(text, m, o', t', odd') && o == o' && t == t' && odd == odd'
    ensures PieceAt(text, m, o, t, odd)
  {
  }

  /** Piece `j` of a split is the text at its offset; an odd piece is the match that starts there, and no match starts inside an even piece. */
  lemma {:induction false} SplitFromPiece(text: string, m: Matcher, p: int, parts: seq<string>, j: nat)
    requires SplitFrom(text, m, p, parts) && j < |parts|
    ensures PieceAt(text, m, p + Offset(parts, j), parts[j], j % 2 == 1)
    decreases j, 1
  {
    if j < 2 {
      SplitFromHead(text, m, p, parts, j);
    } else {
      SplitFromPieceLater(text, m, p, parts, j);
    }
  }

  /** `SplitFromPiece` past the first gap and match: the piece is piece `j - 2` of the rest. */
  lemma {:induction false} SplitFromPieceLater(text: string, m: Matcher, p: int, parts: seq<string>, j: nat)
    requires SplitFrom(text, m, p, parts) && 2 <= j < |parts|
    ensures PieceAt(text, m, p + Offset(parts, j), parts[j], j % 2 == 1)
    decreases j, 0
  {
    var p2, rest := p + |parts[0]| + |parts[1]|, parts[2..];
    assert && SplitFrom(text, m, p2, rest)
           && p + Offset(parts, j) == p2 + Offset(rest, j - 2)
           && parts[j] == rest[j - 2] by {
      SplitFromShift(text, m, p, parts, j);
    }
    assert PieceAt(text, m, p2 + Offset(rest, j - 2), rest[j - 2], (j - 2) % 2 == 1) by {
      SplitFromPiece(text, m, p2, rest, j - 2);
    }
    PieceAtMoved(text, m, p + Offset(parts, j), parts[j], j % 2 == 1,
                 p2 + Offset(rest, j - 2), rest[j - 2], (j - 2) % 2 == 1);
  }

  lemma SplitFromHead(text: string, m: Matcher, p: int, parts: seq<string>, j: nat)
    requires SplitFrom(text, m, p, parts) && j < |parts| && j < 2
    ensures PieceAt(text, m, p + Offset(parts, j), parts[j], j % 2 == 1)
  {
    if |parts| == 1 {
      assert text[p..p + |parts[0]|] == text[p..];
    }
    if j == 1 {
      assert Offset(parts, 1) == |parts[0]| + Offset(parts[1..], 0);
    }
  }

  /** Piece `j >= 2` of a split is piece `j - 2` of the split of the rest, at the same place. */
  lemma SplitFromShift(text: string, m: Matcher, p: int, parts: seq<string>, j: nat)
    requires SplitFrom(text, m, p, parts) && 2 <= j < |parts|
    ensures SplitFrom(text, m, p + |parts[0]| + |parts[1]|, parts[2..])
    ensures p + Offset(parts, j) == p + |parts[0]| + |parts[1]| + Offset(parts[2..], j - 2)
    ensures parts[j] == parts[2..][j - 2]
  {
    OffsetPair(parts, j);
  }

  /** `keywords.some(keyword => part.toLowerCase() === keyword.toLowerCase())`. */
  predicate IsKeywordPiece(part: string, kws: seq<string>): (b: bool)
    ensures b <==> exists j :: 0 <= j < |kws| && CiEqual(part, kws[j])
    ensures (forall k :: k in kws ==> LowerStr(k) == k) ==> (b <==> LowerStr(part) in kws)
  {
    LowerStrIdempotent(part);
    exists k :: k in kws && CiEqual(part, k)
  }

  /** The `parts.map(...)` step: each piece, marked when it equals a keyword up to case. */
  function Mark(parts: seq<string>, kws: seq<string>): (segs: seq<Segment>)
    ensures Texts(segs) == parts
  {
    seq(|parts|, j requires 0 <= j < |parts| => Segment(parts[j], IsKeywordPiece(parts[j], kws)))
  }

  function Texts(segs: seq<Segment>): seq<string> {
    seq(|segs|, j requires 0 <= j < |segs| => segs[j].text)
  }

  /** The split-and-mark step for a given keyword list; with no keyword the text stays whole. */
  function HighlightWith(text: string, kws: seq<string>): (segs: seq<Segment>)
    requires NonEmptyWords(kws)
    ensures |segs| % 2 == 1 && Concat(Texts(segs)) == text
  {
    if kws == [] then
      assert Texts([Segment(text, false)]) == [text];
      assert Concat([text]) == text + Concat([]);
      [Segment(text, false)]
    else Mark(Split(text, kws), kws)
  }

  /**
    `highlightKeywords(text, searchQuery)`. Both early returns give back the
    text itself, which renders as one unmarked piece; in every case the
    pieces, in order, spell the text exactly, with its own casing.
   */
  function HighlightKeywords(text: string, query: string): (segs: seq<Segment>)
    ensures |segs| % 2 == 1 && Concat(Texts(segs)) == text
  {
    if Trim(query) == [] then HighlightWith(text, [])
    else HighlightWith(text, ExtractKeywords(query))
  }

  /** The split behind `HighlightWith`, with its pieces' defining facts in terms of `MatchAt`. */
  lemma {:induction false} PatternSplitPiece(text: string, kws: seq<string>, parts: seq<string>, j: nat)
    requires NonEmptyWords(kws) && SplitFrom(text, Pattern(text, kws), 0, parts) && j < |parts|
    ensures |parts| % 2 == 1
    ensures OccursAt(text, Offset(parts, j), parts[j])
    ensures j % 2 == 1 ==> MatchAt(text, kws, Offset(parts, j)) == Some(|parts[j]|)
    ensures j % 2 == 0 ==> forall i :: Offset(parts, j) <= i < Offset(parts, j) + |parts[j]| ==> MatchAt(text, kws, i) == None
  {
    var m := Pattern(text, kws);
    SplitFromLossless(text, m, 0, parts);
    SplitFromPiece(text, m, 0, parts, j);
    var o := Offset(parts, j);
    if j % 2 == 1 {
      PatternAt(text, kws, o);
    } else {
      NoPatternMatchIn(text, kws, o, o + |parts[j]|);
    }
  }

  lemma {:induction false} NoPatternMatchIn(text: string, kws: seq<string>, a: int, b: int)
    requires NoMatchIn(Pattern(text, kws), a, b)
    ensures forall i :: a <= i < b ==> MatchAt(text, kws, i) == None
  {
    forall i | a <= i < b ensures MatchAt(text, kws, i) == None {
      PatternAt(text, kws, i);
    }
  }

  lemma {:induction false} HighlightWithPiece(text: string, kws: seq<string>, j: nat)
    requires NonEmptyWords(kws) && kws != []
    requires j < |Texts(HighlightWith(text, kws))|
    ensures var ts := Texts(HighlightWith(text, kws));
            var o := Offset(ts, j);
            && |ts| % 2 == 1
            && OccursAt(text, o, ts[j])
            && (j % 2 == 1 ==> MatchAt(text, kws, o) == Some(|ts[j]|))
            && (j % 2 == 0 ==> forall i :: o <= i < o + |ts[j]| ==> MatchAt(text, kws, i) == None)
  {
    assert Texts(HighlightWith(text, kws)) == Split(text, kws);
    SplitCharacterized(text, kws, Split(text, kws));
    PatternSplitPiece(text, kws, Split(text, kws), j);
  }

  lemma {:induction false} HighlightWithMarking(text: string, kws: seq<string>, j: nat)
    requires NonEmptyWords(kws)
    requires j < |HighlightWith(text, kws)|
    ensures var seg := HighlightWith(text, kws)[j];
            seg.isKeyword <==> exists k :: k in kws && CiEqual(seg.text, k)
  {
  }

  /** A blank query leaves the text as one plain piece. */
  lemma {:induction false} HighlightBlankQuery(text: string, query: string)
    requires AllWhitespace(query)
    ensures HighlightKeywords(text, query) == [Segment(text, false)]
  {
    TrimEmptyIff(query);
  }

  /** A query without keywords (such as "AI and the") leaves the text as one plain piece. */
  lemma {:induction false} HighlightNoKeywords(text: string, query: string)
    requires ExtractKeywords(query) == []
    ensures HighlightKeywords(text, query) == [Segment(text, false)]
  {
  }

  lemma {:induction false} HighlightKeywordsWith(text: string, query: string)
    requires ExtractKeywords(query) != []
    ensures NonEmptyWords(ExtractKeywords(query))
    ensures HighlightKeywords(text, query) == HighlightWith(text, ExtractKeywords(query))
  {
    if Trim(query) == [] {
      BlankQueryHasNoKeywords(query);
    }
  }

  /** A match of the pattern is a whole-word occurrence of a keyword, up to case. */
  lemma {:induction false} MatchedPiece(text: string, kws: seq<string>, o: int, t: string)
    requires OccursAt(text, o, t) && MatchAt(text, kws, o) == Some(|t|)
    ensures WholeWordAt(text, o, |t|)
    ensures exists k :: k in kws && CiEqual(t, k)
  {
    var k :| k in kws && |k| == |t| && CiEqual(text[o..o + |t|], k);
  }

  /** An odd piece is a whole-word occurrence of a keyword, up to case, and is marked. */
  lemma {:induction false} HighlightWithMatchPiece(text: string, kws: seq<string>, j: nat)
    requires NonEmptyWords(kws) && kws != []
    requires j < |HighlightWith(text, kws)| && j % 2 == 1
    ensures var segs := HighlightWith(text, kws);
            var t := segs[j].text;
            var o := Offset(Texts(segs), j);
            && WholeWordAt(text, o, |t|)
            && (exists k :: k in kws && CiEqual(t, k))
            && segs[j].isKeyword
  {
    var segs := HighlightWith(text, kws);
    var ts := Texts(segs);
    assert |ts| == |segs| && ts[j] == segs[j].text;
    HighlightWithPiece(text, kws, j);
    MatchedPiece(text, kws, Offset(ts, j), ts[j]);
    HighlightWithMarking(text, kws, j);
  }

  /**
    Piece `j` of `segs` is the text at its offset; an odd piece is a
    whole-word occurrence of a keyword, up to case, and is marked, and no
    match of the pattern starts inside an even (gap) piece.
   */
  ghost predicate PieceFacts(text: string, kws: seq<string>, segs: seq<Segment>, j: nat)
    requires j < |segs|
  {
    var t := segs[j].text;
    var o := Offset(Texts(segs), j);
    && OccursAt(text, o, t)
    && (j % 2 == 1 ==>
          && WholeWordAt(text, o, |t|)
          && (exists k :: k in kws && CiEqual(t, k))
          && segs[j].isKeyword)
    && (j % 2 == 0 ==> forall i :: o <= i < o + |t| ==> MatchAt(text, kws, i) == None)
  }

  /** `HighlightPiece` for a given non-empty keyword list. */
  lemma {:induction false} HighlightWithAlternates(text: string, kws: seq<string>, j: nat)
    requires NonEmptyWords(kws) && kws != []
    requires j < |HighlightWith(text, kws)|
    ensures PieceFacts(text, kws, HighlightWith(text, kws), j)
  {
    HighlightWithPiece(text, kws, j);
    assert Texts(HighlightWith(text, kws))[j] == HighlightWith(text, kws)[j].text;
    if j % 2 == 1 {
      HighlightWithMatchPiece(text, kws, j);
    }
  }

  /**
    With keywords, the pieces alternate (there is an odd number of them, by
    `HighlightKeywords`): the odd ones are the pattern's matches where they
    start, so whole-word keyword occurrences up to case, and are marked, and
    no match starts inside an even (gap) piece.
   */
  lemma {:induction false} HighlightPiece(text: string, query: string, j: nat)
    requires ExtractKeywords(query) != []
    requires j < |HighlightKeywords(text, query)|
    ensures PieceFacts(text, ExtractKeywords(query), HighlightKeywords(text, query), j)
  {
    HighlightKeywordsWith(text, query);
    HighlightWithAlternates(text, ExtractKeywords(query), j);
  }

  /**
    A piece is marked exactly when its lower-case form is one of the
    keywords; so "NEXUS", "nexus" and "Nexus" are all marked for the query
    "Nexus", and an empty gap piece is never marked.
   */
  lemma {:induction false} HighlightMarking(text: string, query: string, j: nat)
    requires j < |HighlightKeywords(text, query)|
    ensures var seg := HighlightKeywords(text, query)[j];
            && (seg.isKeyword <==> LowerStr(seg.text) in ExtractKeywords(query))
            && (seg.text == [] ==> !seg.isKeyword)
  {
    var kws := ExtractKeywords(query);
    if Trim(query) == [] {
      BlankQueryHasNoKeywords(query);
    }
    HighlightWithMarking(text, kws, j);
  }

  /** The result depends on the query only through its lower-case form. */
  lemma {:induction false} HighlightQueryIgnoresCase(text: string, query: string)
    ensures HighlightKeywords(text, LowerStr(query)) == HighlightKeywords(text, query)
  {
    TrimEmptyIff(query);
    TrimEmptyIff(LowerStr(query));
    LowerKeepsBlank(query);
    ExtractKeywordsIgnoresCase(query);
  }
}
