# Paper search: keyword highlighter, guide-type tags and the search endpoint

This project is a Dafny model of the two pieces of logic in a small paper
search application. Each is modelled as pure functions, with lemmas that
state what they guarantee.

- **The result-card highlighter** `highlightKeywords(text, searchQuery)` in
  `app/page.tsx`.
  - It extracts keywords from the search query. The query is lower-cased and
    split on white-space runs. Tokens of at least three characters that are
    not stopwords are kept.
  - It splits the abstract on the whole-word, case-insensitive alternation
    `\b(k1|k2|...)\b` and keeps the matches.
  - It marks every piece that equals a keyword up to case.
  - The guide-type tag of a card is drawn next to it, coloured by `getTagColor`.
- **The search endpoint** `POST /api/search` in `app/api/search/route.ts`.
  - It normalises `prompt` and clamps `k`. Both conversions can throw a
    `TypeError`, for an object with its own `toString` property or an array
    holding one, and then the answer is 500 before anything else happens.
  - It rejects an empty prompt before calling anything.
  - It embeds the prompt, asks the `match_papers` function of the vector
    store for the `k` nearest papers, and shapes the rows it gets back.
  - It answers 400 for a missing prompt, and 500 for an upstream error or an
    exception.

Modules:

- `Wrappers` (`wrappers.dfy`): `Option`.
- `JsString` (`jsstring.dfy`): the JavaScript string built-ins the core uses.
  - The white-space class shared by `trim` and `\s`.
  - `trim`.
  - ASCII `toLowerCase`.
  - The word characters `[A-Za-z0-9_]` that `\b` looks at.
- `Keywords` (`keywords.dfy`): `split(/\s+/)`, the length and stopword
  filters, and the keyword rule.
- `Highlight` (`highlight.dfy`): the pattern, the split and the marking.
  - No regular-expression engine is used. `MatchAt` is what the pattern matches
    at one position: a `\b`, then the first keyword in list order that fits up
    to case and is followed by a `\b`. That is how regular-expression
    alternation backtracks.
  - `Scan` is the `split` loop, which keeps the captured match.
  - `SplitFrom` characterises a split independently of the loop: a gap in which
    no match starts, then the match at the gap's end, and so on. `Split` is
    proved to be that split, and the only one.
- `TagColor` (`tags.dfy`): `getTagColor` and the tag as drawn.
- `SearchRoute` (`search_route.dfy`): the `POST` handler.
  - JSON values are a datatype.
  - The embeddings call and the `match_papers` call are function parameters.
    Each returns what the service gave back or the exception it threw.
  - The handler returns the response and records the external calls it made,
    in order.

The stopword list is modelled as it stands in `app/page.tsx:27`. "with" is
not in it, so "with" is a keyword (`Keywords.LongRunIsKeyword`). "its" is in
the list twice.

Marking compares each piece with the keywords; it does not ask whether the
piece came from a match. So a gap piece that happens to equal a keyword is
marked too. This is possible only when the keyword starts or ends with a
non-word character, because then `\b` does not hold around it. The model
keeps this behaviour: `Highlight.HighlightMarking` is stated for every piece.

## Model

| member | source | states |
|---|---|---|
| JsString.Trim | app/api/search/route.ts:24 | `trim` keeps a slice of the input that has only white space before and after it, and the result neither starts nor ends with white space |
| JsString.TrimEmptyIff | app/page.tsx:20 | `s.trim()` is empty exactly when `s` consists of white space only |
| JsString.TrimOfTrimmed | app/api/search/route.ts:24 | a string that neither starts nor ends with white space is its own `trim` |
| JsString.TrimIdempotent | app/api/search/route.ts:24 | trimming twice is trimming once |
| JsString.Lower | app/page.tsx:24 | one character lowered: an ASCII capital becomes the small letter at the same place in the alphabet, every other character is kept, and no capital comes out |
| JsString.LowerStr | app/page.tsx:24 | `toLowerCase` keeps the length, lowers each character in place, and leaves no ASCII capital |
| JsString.LowerKeepsClasses | app/page.tsx:24 | ASCII lower-casing keeps a character white space or not, and a word character or not, and is idempotent |
| JsString.LowerStrIdempotent | app/page.tsx:24 | lower-casing a lower-cased string changes nothing |
| JsString.LowerStrSlice | app/page.tsx:24 | lower-casing commutes with taking a slice |
| JsString.LowerCaseSlice | app/page.tsx:24 | a slice of a lower-case string is lower case |
| JsString.LowerKeepsBlank | app/page.tsx:20-25 | a string is all white space exactly when its lower-case form is |
| Keywords.Includes | app/page.tsx:27 | the left-to-right `includes` scan finds `w` exactly when `w` is in the list |
| Keywords.TokenEnd | app/page.tsx:25 | a token runs up to the first white space or the end of the string, with no white space inside |
| Keywords.TokensFromSplits | app/page.tsx:25 | the pieces found from position `i` on, with the white-space runs between them, put back together in order give `s[i..]`; the pieces hold no white space, each run is non-empty white space, and only the first and last piece may be empty |
| Keywords.SplitOnWhitespace | app/page.tsx:25 | `split(/\s+/)` yields at least one piece, and the pieces, in order and with non-empty white-space runs between them, spell the string exactly; only the first and last piece may be empty (so "  a b " gives "", "a", "b", "") |
| Keywords.WhitespaceSplitIsTokensFrom | app/page.tsx:25 | any way of writing `s[i..]` as such pieces and white-space runs is the one the scan finds, so the split is unique |
| Keywords.SplitOnWhitespaceCharacterized | app/page.tsx:25 | a list of pieces is `s.split(/\s+/)` exactly when the pieces with some non-empty white-space runs between them spell `s`, with only the edge pieces possibly empty |
| Keywords.TokenFromIsRun | app/page.tsx:25 | every non-empty piece from a piece start on is a maximal white-space-free run of the string |
| Keywords.RunEnd | app/page.tsx:25 | a maximal run ends where the token scan stops |
| Keywords.RunIsTokenFrom | app/page.tsx:25 | every maximal run at or after a piece start is one of the pieces from there on |
| Keywords.TokenIsRun | app/page.tsx:25 | every non-empty piece of `split(/\s+/)` is a maximal white-space-free run of the string |
| Keywords.RunIsToken | app/page.tsx:25 | every maximal white-space-free run is a piece of `split(/\s+/)` |
| Keywords.FilterKeywords | app/page.tsx:26-27 | the filters keep exactly the tokens of length at least 3 that `includes` does not find among the stopwords, and never add a token |
| Keywords.FilterKeywordsAppend | app/page.tsx:26-27 | filtering distributes over concatenation, so kept tokens stay in their order and keep their repetitions |
| Keywords.FilterKeywordsSingleton | app/page.tsx:26-27 | a single token is kept exactly when it has at least three characters and is not a stopword |
| Keywords.ExtractKeywords | app/page.tsx:23-27 | every keyword is lower case and has at least three characters |
| Keywords.KeywordsOfLowerCase | app/page.tsx:24-27 | the keywords of a lower-case string are lower case and have at least three characters |
| Keywords.KeywordExtractionRule | app/page.tsx:23-27 | `w` is a keyword exactly when it is a maximal white-space-free run of the lower-cased query, has at least three characters and is not a stopword (so the empty edge pieces are never keywords) |
| Keywords.StopwordsHaveLengthThree | app/page.tsx:27 | every stopword has exactly three characters |
| Keywords.LongRunIsKeyword | app/page.tsx:26-27 | every run of four or more characters of the lower-cased query, "with" among them, is a keyword |
| Keywords.RunOfLowerCase | app/page.tsx:24-25 | a run of a lower-case string is lower case |
| Keywords.BlankTokensAreEmpty | app/page.tsx:25 | every piece of a split of an all-white-space string is empty |
| Keywords.NoKeywordTokenFiltersToEmpty | app/page.tsx:26 | tokens that are all shorter than three characters leave no keyword |
| Keywords.BlankQueryHasNoKeywords | app/page.tsx:20-27 | a query whose `trim` is empty yields no keyword |
| Keywords.ExtractKeywordsIgnoresCase | app/page.tsx:24 | the keywords of a query and of its lower-case form are the same |
| Keywords.LowerExample | app/page.tsx:24 | "AI and the" lower-cases to "ai and the" |
| Keywords.SplitExample | app/page.tsx:25 | "ai and the" splits into "ai", "and", "the", in that order |
| Keywords.FilterExample | app/page.tsx:26-27 | none of "ai", "and", "the" survives the filters: the first is too short, the others are stopwords |
| Keywords.NoKeywordExample | app/page.tsx:23-29 | the query "AI and the" has no keyword, so the text is returned as it is |
| Highlight.FirstFit | app/page.tsx:32 | the alternation fails exactly when no keyword fits at the position; otherwise it takes the length of the first keyword in list order that fits, where fitting means equal up to case and followed by a word boundary |
| Highlight.IsBoundary | app/page.tsx:32 | `\b` holds only at positions 0 to the length; inside the text exactly when the characters on its two sides differ in being word characters; at the start exactly when the first character is one, and at the end exactly when the last is |
| Highlight.MatchAt | app/page.tsx:32 | a match of the pattern starts and ends on a word boundary, lies inside the text, and equals some keyword up to case |
| Highlight.WholeWordExamples | app/page.tsx:32 | "pod" does not match in "pods" or "ipod" but does match in "a pod."; the keyword "a.b" matches "A.B" but not "axb", so the escaped metacharacters are literal |
| Highlight.TrailingSymbolExample | app/page.tsx:32 | the keyword "c++" does not match before a space, because the closing `\b` fails |
| Highlight.PatternAt | app/page.tsx:32 | the matcher built from the keywords is `MatchAt` at every position |
| Highlight.PatternProgresses | app/page.tsx:32 | with non-empty keywords every match is non-empty and inside the text |
| Highlight.Scan | app/page.tsx:34 | the `split` loop yields an odd number of pieces (gap, match, gap, ...), which concatenate to the text from the current gap start on |
| Highlight.ScanSplits | app/page.tsx:34 | the `split` loop yields a split: gaps without a match start, then the match at each gap's end |
| Highlight.ScanUnique | app/page.tsx:34 | any split of the text is what the `split` loop yields |
| Highlight.Split | app/page.tsx:34 | `text.split(pattern)` is a split in that sense: gaps without a match start alternate with the matches at their ends, there is an odd number of pieces, and they concatenate to the text |
| Highlight.SplitCharacterized | app/page.tsx:34 | a sequence of pieces is a split of the text by the pattern exactly when it is the result of `text.split(pattern)` |
| Highlight.ConcatPair | app/page.tsx:34 | concatenating a gap, a match and the rest is their concatenation |
| Highlight.OffsetPair | app/page.tsx:34 | the offset of a piece past the first gap and match is the lengths of both plus its offset in the rest |
| Highlight.SplitFromLossless | app/page.tsx:34 | the pieces of a split concatenate to the text, and there is an odd number of them |
| Highlight.SplitFromPiece | app/page.tsx:34 | each piece is the text at its offset (`PieceAt`); an odd piece is the match starting there, and no match starts inside an even piece |
| Highlight.Mark | app/page.tsx:36-40 | marking keeps the pieces and their order |
| Highlight.IsKeywordPiece | app/page.tsx:38-40 | `keywords.some(...)` holds exactly when some keyword in the list equals the piece up to case; for lower-case keywords, exactly when the lower-cased piece is one of them |
| Highlight.HighlightWith | app/page.tsx:29-40 | for any keyword list there is an odd number of pieces and they concatenate to the text; with no keyword the text stays whole |
| Highlight.HighlightKeywords | app/page.tsx:19-51 | for every text and query there is an odd number of pieces and they, in order, concatenate to the text exactly, with its own casing |
| Highlight.PatternSplitPiece | app/page.tsx:32-34 | each piece of the split occurs in the text at its offset; odd pieces are `MatchAt` matches and gaps contain no match start |
| Highlight.NoPatternMatchIn | app/page.tsx:32-34 | no match of the matcher in a range means `MatchAt` finds none there |
| Highlight.HighlightWithPiece | app/page.tsx:32-36 | with keywords, there is an odd number of pieces, each occurs at its offset, odd pieces are matches, and gaps contain no match start |
| Highlight.HighlightWithMarking | app/page.tsx:38-40 | a piece is marked exactly when it equals some keyword up to case |
| Highlight.HighlightBlankQuery | app/page.tsx:20 | an empty or all-white-space query leaves the text as one unmarked piece |
| Highlight.HighlightNoKeywords | app/page.tsx:29 | a query without keywords, such as "AI and the", leaves the text as one unmarked piece |
| Highlight.HighlightKeywordsWith | app/page.tsx:20-29 | when the query has keywords, the highlighter is the split-and-mark step over them |
| Highlight.MatchedPiece | app/page.tsx:32 | a piece matched by the pattern is a whole-word occurrence of a keyword up to case |
| Highlight.HighlightWithMatchPiece | app/page.tsx:32-40 | every odd piece is a whole-word occurrence of a keyword up to case, and is marked |
| Highlight.HighlightWithAlternates | app/page.tsx:32-40 | with a non-empty keyword list, piece `j` satisfies `PieceFacts`: it is the text at its offset; if odd, a marked whole-word occurrence of a keyword up to case; if even, no match starts inside it |
| Highlight.HighlightPiece | app/page.tsx:32-40 | with keywords, the pieces alternate: odd ones are marked whole-word keyword matches at their offsets, and no match starts inside an even (gap) piece; their number is odd by `HighlightKeywords` |
| Highlight.HighlightMarking | app/page.tsx:36-42 | a piece is marked exactly when its lower-case form is one of the keywords, so "NEXUS", "nexus" and "Nexus" are all marked for "Nexus"; an empty piece is never marked |
| Highlight.HighlightQueryIgnoresCase | app/page.tsx:24 | the highlighting depends on the query only through its lower-case form |
| TagColor.GetTagColor | app/page.tsx:204-209 | "CVD" is blue, "White Paper" white with a border, "Integration Guide" orange. Every other label, compared with its case, is gray. Only "White Paper" has a border |
| TagColor.RenderTag | app/page.tsx:236-250 | there is no tag exactly when the label is empty. Otherwise the tag shows the label in its style's colours. The class "white-paper-tag" is set only for "White Paper". The border is the style's border when it has one, so "1px solid #ddd" for "White Paper", and "none" otherwise |
| TagColor.KnownStylesDistinct | app/page.tsx:204-209 | the three known labels get three different styles, none of them the default gray |
| SearchRoute.NatToDecimal | app/api/search/route.ts:24 | `String(n)` of a natural number is a non-empty digit string without leading zeros |
| SearchRoute.DecimalRoundTrip | app/api/search/route.ts:24 | reading the numeral back gives the number |
| SearchRoute.IntToDecimal | app/api/search/route.ts:24 | `String(n)` of an integer is non-empty, starts with "-" exactly when `n` is negative, is otherwise digits without a leading zero, and reads back as `n` |
| SearchRoute.ToJsString | app/api/search/route.ts:24 | `String(v)` throws exactly when `v` is an object with its own `toString` property or an array holding such a value at any depth. Otherwise a boolean gives "true" or "false", a string itself, an integer its numeral, another object "[object Object]", and an array the comma join of its elements as `ElementString` converts them |
| SearchRoute.ElementString | app/api/search/route.ts:24 | `join` converts a `null` or `undefined` element to "" and every other element with `String`, throwing exactly when that does |
| SearchRoute.Lookup | app/api/search/route.ts:24 | an own property that no field binds reads as `undefined` |
| SearchRoute.LookupFindsLastBinding | app/api/search/route.ts:23-24 | with duplicate keys in the body, the last binding wins |
| SearchRoute.Get | app/api/search/route.ts:24-25 | `body?.prompt` and `body?.k` are `undefined` for a body that is not an object, and the own property for an object |
| SearchRoute.NormalizePrompt | app/api/search/route.ts:24 | the conversion throws exactly when `String` does. Otherwise a falsy prompt becomes "", and every other prompt is the `trim` of its `String`: a string is trimmed, a non-zero integer becomes its numeral, `true` gives "true", an object "[object Object]". The result never starts or ends with white space |
| SearchRoute.NumeralIsTrimmed | app/api/search/route.ts:24 | a numeral is its own `trim` |
| SearchRoute.NormalizePromptIdempotent | app/api/search/route.ts:24 | normalising a normalised prompt changes nothing |
| SearchRoute.ArrayStringExample | app/api/search/route.ts:24 | `String([1, null, "a"])` is "1,,a" |
| SearchRoute.PromptConversionThrowsExample | app/api/search/route.ts:24 | `{"toString": 0}`, alone or inside an array, makes the prompt conversion throw |
| SearchRoute.OwnValueOfExample | app/api/search/route.ts:24 | an own `valueOf` does not make `String` throw: `{"valueOf": 0}` gives "[object Object]" |
| SearchRoute.EffectiveK | app/api/search/route.ts:25 | `k` is always between 1 and 20. An absent or null `k` gives 8. A boolean gives 1. An integer in range is kept, below 1 gives 1, and above 20 gives 20 |
| SearchRoute.EffectiveKExamples | app/api/search/route.ts:25 | 0 and -5 give 1, 1000 gives 20, absent gives 8, and 12 gives 12 |
| SearchRoute.ThrownMessage | app/api/search/route.ts:63 | the error text is the exception's message, or "Unknown error" when it has none |
| SearchRoute.ShapeRow | app/api/search/route.ts:52-57 | `url` and `abstract_1l` pass through, the score is `Number` of the score, a falsy `guide_type` becomes "" and any other is kept, so the guide type is never falsy other than "" |
| SearchRoute.ShapeRows | app/api/search/route.ts:52 | absent or null data gives no rows; with data, one row per row returned |
| SearchRoute.ShapeRowsPointwise | app/api/search/route.ts:52-57 | row i of the response comes from row i of the data, shaped as `ShapeRow` says |
| SearchRoute.RequestPrompt | app/api/search/route.ts:24 | the prompt is missing (`None`) exactly when converting `body?.prompt` throws |
| SearchRoute.Prompt | app/api/search/route.ts:24-27 | the prompt a request goes on with is non-empty and neither starts nor ends with white space |
| SearchRoute.Post | app/api/search/route.ts:21-67 | The status is 200, 400 or 500, and 200 exactly when results are returned. A prompt or `k` that cannot be converted gives 500 "Cannot convert object to primitive value" with no external call. 400 ("Missing prompt") is returned exactly when the prompt normalises to "" and `k` converts, and then no call is made. A call is made exactly when the request gets past both checks; the first is the embedding of the normalised prompt. If the embedding throws, that is the only call; if it succeeds, `match_papers` is called next, with the embedding and the clamped `k`, whatever it then returns or throws. Results imply both calls |
| SearchRoute.BlankPromptRejected | app/api/search/route.ts:24-29 | a missing, falsy or all-white-space prompt with a `k` that converts gives 400 "Missing prompt" and no external call |
| SearchRoute.BlankPromptWithBadKExample | app/api/search/route.ts:24-29 | `{"prompt": "", "k": {"toString": 0}}` gives 500, not 400, because `k` is converted before the prompt is checked |
| SearchRoute.PromptObjectExample | app/api/search/route.ts:24 | `{"prompt": {"toString": 0}}` gives 500 and calls nothing |
| SearchRoute.MatchCountIsClampedK | app/api/search/route.ts:42-45 | `match_count` is the clamped `k`, between 1 and 20 |
| SearchRoute.RpcErrorIsServerError | app/api/search/route.ts:42-49 | an error from `match_papers` gives 500 with its message and no results, after exactly the embedding call and the `match_papers` call |
| SearchRoute.ThrownIsServerError | app/api/search/route.ts:61-65 | An exception gives 500 with its message, or "Unknown error" when it has none. This holds for a body that does not parse, for a conversion that throws, for the embeddings call (after which nothing else is called) and for the `match_papers` call (after both calls) |
| SearchRoute.SuccessShapesRows | app/api/search/route.ts:52-60 | without an error the response is 200 with the shaped rows; absent, null or empty data gives `{results: []}` |
| SearchRoute.ResultsBoundedByK | app/api/search/route.ts:42-52 | when the store returns at most `match_count` rows, the response holds at most the clamped `k`, so at most 20 |

## Left out

- The React rendering is not modelled: JSX, inline styles, CSS and the `<mark>` element. A piece is either plain text or marked (`Segment.isKeyword`).
- The button-disabled rule is not modelled, because it is UI.
- `onSearch`, the `fetch` call and the `useState` updates of the page are not modelled. They are network I/O and UI state.
- The OpenAI and Supabase clients are not modelled. They are foreign services, so they become the parameters `embed` and `rpc`.
- Environment variables and `console.log` are not modelled.
- A failure to read `emb.data[0].embedding` is folded into `EmbedThrew`.
- Scores are not modelled as numbers. `Number(r.score)`, `Number.isFinite` and `toFixed(3)` are floating point, so a score is kept as the value `Number` is applied to (`NumberOf`).
- The embedding vector is passed on unread.
- Unicode case folding and non-ASCII word characters are not modelled. `toLowerCase` lowers ASCII letters only, and `\b` sees `[A-Za-z0-9_]` as word characters.
- String lengths are counted in characters, not in UTF-16 code units. JavaScript's `length` counts a character outside the Basic Multilingual Plane (an emoji, say) as 2, so `word.length >= 3` and the offsets of pieces differ from the model's for such text.
- JSON numbers are the integers of at most 2^53 in magnitude (`JsInt`), which doubles hold exactly and `String` writes in plain decimal. Fractions, `-0`, larger integers (which `JSON.parse` rounds, and which `String` writes in exponent form from 1e21 on) are floating point and left out.
- SearchRoute.Lookup: reads own properties only. Inherited ones, such as `toString` from `Object.prototype`, are not modelled; the handler reads only `prompt` and `k`, which no built-in prototype defines, and `Get` is restricted to those two keys.
- SearchRoute.ConversionError: the text of the `TypeError` is the one the V8 engine of the Node runtime gives; other engines word it differently.
- SearchRoute.Post: requires a `k` that is absent, `null`, a boolean or an integer whenever the request gets past the prompt check. For a string, an array or an object without its own `toString`, the source computes `Number(k)`. That can be NaN, and NaN propagates through `Math.min` and `Math.max` to `match_count`. This is floating point and is not modelled.
- SearchRoute.ShapeRows: does not model the `TypeError` the source throws for a truthy `data` that is not an array, or for a `null` row. `data` is an optional list of rows.
- SearchRoute.Post: does not model an RPC `error` that has no `message`. The error is modelled as its message string.
