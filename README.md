# twocents: quote-aware sentence splitting

twocents collects quotations from news articles. It normalises a search
query for the BBC news search. It splits every paragraph of every article it
finds into sentences, and it keeps the sentences that hold a double
quotation mark.

This project models the pure core of that pipeline:

- **The query clean-up** (module `Query`). The fold over the characters of
  the query drops leading spaces and collapses each run of spaces into one.
  Each space then becomes `+` and the query is lowercased.
- **The sentence splitter** (modules `Text`, `Sentences`, `SentenceLaws`).
  It works in three steps:
  1. Collect the positions of the quotation marks `"` and of the
     terminators `.`, `!` and `?` (method `CollectPositions`).
  2. Walk the terminators with a cursor over the quotation pairs, which only
     moves forward. The boundary list is 0, then one past every terminator
     that is not strictly inside a pair, then the length of the paragraph
     (`WalkStops`, `ClassifyBoundaries`).
  3. Cut the paragraph between consecutive boundaries. Each slice is trimmed
     of Unicode white space, and the slices longer than one character are
     kept (`Segment`).

  Each method is proved against a specification function:
  `Positions`, `KeptStops`, `Boundaries`, `Cut` and `SentencesOf`. The
  properties of the splitter are proved as lemmas about those functions.
- **Re-splitting** (module `Resplit`). Splitting any sentence the splitter
  returned gives back just that sentence. A boundary never falls inside a
  quotation pair, so the quotation marks of a sentence pair up on their own
  as they did in the paragraph.
- **The quote filter** `HasQuote`.
- **The unit tests of the splitter** (module `Scenarios`). Each is proved
  about `SentencesOf`.
- **The splitter at the level of UTF-8 bytes** (modules `ByteSlicing`,
  `ByteCases`); see "## Findings".

Text is `seq<char>`, one entry per Unicode scalar value. The positions the
splitter collects are character indices.

The boundary list is non-decreasing, not strictly increasing. A paragraph
that ends in a terminator repeats its length at the end of the list. The
window between the two copies is empty and contributes no sentence. The
model follows the code here (`Sentences.BoundaryShape`,
`SentenceLaws.TrailingTerminatorRepeatsLength`).

## Model

| member | source | states |
|---|---|---|
| Text.TrimBounds | src/main.rs:121 | the trimmed window lies inside the window and has no white space at either end |
| Text.TrimBoundsCutsWhitespace | src/main.rs:121 | trimming removes only white space, on both sides |
| Text.TrimBoundsExact | src/main.rs:121 | the trimmed bounds are the unique pair that cuts off only white space and ends on non-white-space characters |
| Sentences.PositionsShape | src/main.rs:83-94 | the collected positions are exactly the positions of the marks, each listed once, in increasing order |
| Sentences.CollectPositions | src/main.rs:83-94 | the enumerate-and-filter pass returns the position list of the marks |
| Sentences.KeptStopsMembers | src/main.rs:99-114 | a boundary `x` is kept iff `x - 1` is a terminator that is not strictly inside a quotation pair (both directions) |
| Sentences.KeptStopsIncreasing | src/main.rs:99-114 | the kept boundaries are strictly increasing |
| Sentences.CursorDecides | src/main.rs:100-111 | once the cursor has skipped the pairs that close before the terminator, the pair under the cursor alone decides whether the terminator is quoted |
| Sentences.WalkStops | src/main.rs:96-114 | the cursor walk returns 0 followed by the kept boundaries; the cursor stays even and within the quote list, including when the number of quotation marks is odd |
| Sentences.ClassifyBoundaries | src/main.rs:83-116 | the boundary list is 0, the kept boundaries, then the paragraph length |
| Sentences.BoundaryShape | src/main.rs:96-116 | the boundaries start with 0 and end with the length; they are non-decreasing and strictly increasing except for the last step |
| Sentences.SpansShape | src/main.rs:120-126 | every kept span is a trimmed stretch longer than one character; the spans lie between the boundaries and do not overlap |
| Sentences.CutShape | src/main.rs:120-126 | every cut piece is longer than one character and trimmed |
| Sentences.Segment | src/main.rs:118-128 | the window loop returns the specification cut of all windows |
| Sentences.ExtractSentences | src/main.rs:82-129 | the splitter returns `SentencesOf` of the paragraph, and every sentence is longer than one character and trimmed |
| Sentences.HasQuote | src/main.rs:78-80 | true iff some character of the text is a quotation mark |
| SentenceLaws.HasQuoteIffQuoteMarks | src/main.rs:78-88 | a text has a quote iff its list of quotation mark positions is non-empty |
| SentenceLaws.PositionsExact | src/main.rs:83-94 | an increasing list holding exactly the positions of the marks is the collected list |
| SentenceLaws.NoQuotesPlainSplit | src/main.rs:96-116 | without quotation marks the boundaries are 0, one past every terminator, then the length |
| SentenceLaws.BoundaryMembership | src/main.rs:96-116 | 0 and the length are always boundaries; an inner position is a boundary iff it follows an unquoted terminator |
| SentenceLaws.QuotedTerminatorSuppressed | src/main.rs:104-111 | a terminator strictly between quotation marks `2k` and `2k + 1` gives no boundary |
| SentenceLaws.UnpairedQuoteIgnored | src/main.rs:100-111 | a last, unpaired quotation mark does not change whether a position is quoted |
| SentenceLaws.KeptStopsIgnoreUnpaired | src/main.rs:100-111 | the kept boundaries are the same with or without a last, unpaired quotation mark |
| SentenceLaws.TrailingTerminatorRepeatsLength | src/main.rs:113-116 | the length appears twice at the end of the boundaries iff the paragraph ends in a terminator |
| SentenceLaws.SentencesAreOrderedTrimmedPieces | src/main.rs:118-128 | every sentence is the text of a trimmed span longer than one character; the spans are inside the paragraph, in order and disjoint |
| SentenceLaws.EmptyParagraph | src/main.rs:82-129 | the empty paragraph gives no sentences |
| Resplit.InsideQuoteByCount | src/main.rs:100-111 | a position that is not a quotation mark is inside a pair iff an odd number of marks comes before it and at least one comes after it |
| Resplit.BoundaryOutsideQuotes | src/main.rs:99-116 | an even number of quotation marks comes before every boundary that has a mark somewhere after it |
| Resplit.BoundaryClosesQuote | src/main.rs:99-116 | a quotation pair open at a terminator closes before the next boundary |
| Resplit.InteriorTerminatorQuoted | src/main.rs:99-126 | every terminator of a sentence other than its last character is inside a quotation pair of the sentence on its own |
| Resplit.OneSentence | src/main.rs:96-126 | a trimmed text longer than one character, whose earlier terminators are all quoted, splits into just itself |
| Resplit.SentencesIdempotent | src/main.rs:82-129 | splitting any sentence of a paragraph again gives back just that sentence |
| Scenarios.PlainSplit | src/main.rs:172-178 | "The dog. Runs around" gives "The dog." and "Runs around" |
| Scenarios.HangingPeriod | src/main.rs:180-186 | "The dog. Runs around." gives "The dog." and "Runs around." |
| Scenarios.Ellipsis | src/main.rs:188-194 | "The dog... Runs around" gives "The dog." and "Runs around" |
| Scenarios.Quoted | src/main.rs:196-202 | the period inside the quotation does not split; the question mark after it does |
| Scenarios.QuoteFilter | src/main.rs:155-161 | of the quoted test's sentences, the first holds a quote and the second does not |
| Query.CollapseIsSqueeze | src/main.rs:30-46 | the fold equals an independent definition: drop leading spaces, then squeeze each run of spaces into one |
| Query.CollapseShape | src/main.rs:30-46 | the fold's result has no leading space and no two spaces in a row, and it keeps every non-space character in order |
| Query.CollapseIdempotent | src/main.rs:30-46 | text already in that shape is left unchanged by the fold |
| Query.CollapseTwice | src/main.rs:30-46 | folding twice gives what folding once gives |
| Query.NormaliseQuery | src/main.rs:30-50 | the result is as long as the folded query; a position holds `+` iff the folded query held a space or `+` there; the result holds no space and no letter `A` to `Z`; each of those letters becomes its lowercase letter, and every other character except a space is kept |
| Query.PlusSeparatesWords | src/main.rs:30-50 | for a query without `+`, the result neither starts with `+` nor holds two `+` in a row |
| Query.NormaliseIdempotent | src/main.rs:30-50 | normalising a normalised query changes nothing |
| Query.MainQuery | src/main.rs:150 | the program's query "boris johnson" becomes "boris+johnson" |
| Query.BorisJohnson | src/main.rs:30-50 | "  Boris   Johnson" becomes "boris+johnson" |
| ByteSlicing.AsciiByteLen | src/main.rs:116 | an ASCII text's byte length equals its character count |
| ByteSlicing.ByteLenAppend | src/main.rs:116 | the byte length of a concatenation is the sum of the byte lengths |
| ByteSlicing.CharIndexSound | src/main.rs:121 | a byte offset resolved to a character index is exactly that character's start offset |
| ByteSlicing.CharIndexOfPrefix | src/main.rs:121 | the start offset of every character resolves to that character |
| ByteSlicing.CharIndexInside | src/main.rs:121 | an offset strictly inside a multi-byte character resolves to nothing, which is a slicing panic |
| ByteSlicing.TrimmedSlice | src/main.rs:121 | trimming a slice gives the text between the window's trimmed bounds |
| ByteSlicing.AsciiAgrees | src/main.rs:82-129 | on ASCII text the byte-level splitter does not panic and returns `SentencesOf` |
| ByteCases.AccentAsWritten | src/main.rs:116-123 | as written, "é. Ok" gives "é" and ". Ok" |
| ByteCases.AccentIntended | src/main.rs:82-129 | at the level of characters, "é. Ok" gives "é." and "Ok" |
| ByteCases.PanicAsWritten | src/main.rs:116-123 | as written, "éé. Ok" panics |
| ByteCases.PanicIntended | src/main.rs:82-129 | at the level of characters, "éé. Ok" gives "éé." and "Ok" |

## Left out

- Fetching and scraping (src/main.rs:48-72, 131-145) are left out: HTTP requests, HTML parsing, the search URL template, the page loop and the link set are network I/O.
- `main` (src/main.rs:147-166) is left out: it prints and fetches. Its query is covered by `Query.MainQuery`, and its quote filter by `Sentences.HasQuote` and `Scenarios.QuoteFilter`.
- The `Article` record and its constructor (src/main.rs:13-26) are left out: they only hold a URL and a list of strings.
- Query.NormaliseQuery: lowercases only `A` to `Z`, not the full Unicode lowercase mapping of `to_lowercase`, which can also change the length of the text.
- Sentences.WalkStops: the cursor invariant (even, at most the number of quotation marks) is a loop invariant of the method, not a separate lemma about a function, because the specification `KeptStops` has no cursor.
- Sentences.ExtractSentences: returns copies of the sentences rather than slices that borrow the paragraph. `SentenceLaws.SentencesAreOrderedTrimmedPieces` records where each one sits.

## Findings

| source | as written | input that shows it | evidently intended | confidence | as-written member | corrected member |
|---|---|---|---|---|---|---|
| src/main.rs:116-123 | positions are collected as character indices, but the string is sliced at them as byte offsets, closed with the byte length, and filtered by byte length | "é. Ok" | "é." and "Ok" | not executed | ByteCases.AccentAsWritten | ByteCases.AccentIntended |
| src/main.rs:121 | slicing at a character index used as a byte offset panics when the offset falls inside a multi-byte character | "éé. Ok" | "éé." and "Ok" | not executed | ByteCases.PanicAsWritten | ByteCases.PanicIntended |

The corrected splitter is `Sentences.ExtractSentences` (specified by
`SentencesOf`), which slices at character positions. `ByteSlicing` models
the code as written. `ByteSlicing.AsciiAgrees` shows that the two agree on
every ASCII paragraph, and the paragraphs of the unit tests are ASCII.
