# Select inside quotes

A Dafny model of the one piece of logic in the Visual Studio extension *SelectInsideQuotes*.
When invoked, the command takes the text of the active document and the cursor position. It
decides whether the cursor lies inside a pair of double quotes. If it does, it selects the text
between the nearest quote characters (`"` or `'`) to the left and to the right of the cursor.

The model has three modules:

- `TextScan` (`TextScan.dfy`) covers `GetCharPositions`. It normalises line endings with two
  ordinal `Replace` passes: CR LF becomes LF, then any remaining CR becomes LF. It then scans
  the text with the opening/closing toggle, recording `index + 1` for an opening occurrence and
  `index + 2` for a closing one. The method is proved equal to `Positions`, a specification
  function built from `Occurrences`, the ordered list of indices of a character. `Positions`
  is then proved to have one entry per occurrence, to be ordered, and to have a first entry
  smaller than the second within each pair.
- `Chunking` (`Chunking.dfy`) covers `ChunkList`. The method is proved equal to `Chunks`, and
  `Chunks` is proved to partition its input. Concatenating the chunks gives the list back. All
  chunks but the last have exactly `chunkSize` elements, and the last one is non-empty. The
  number of chunks is the length divided by `chunkSize`, rounded up.
- `QuoteSelection` (`QuoteSelection.dfy`) covers the body of `Execute`. This is the containment
  test on the pairs of double-quote positions, followed by the two boundary walks. The
  document's `EditPoint`s are replaced by gap indices into the normalised text `t`. Gap `p` lies
  between `t[p-1]` and `t[p]`, so "the character to the left" is `t[p-1]` and "the character to
  the right" is `t[p]`. The call to `selection.MoveToPoint` becomes an `Option<Span>` result.

Offset convention. The model assumes that the host's `AbsoluteCharOffset` of a cursor at gap
`p` is `p + 1` (the function `AbsoluteCharOffset`), counted in the normalised text. It also
assumes that the editor's `EditPoint` walks run over that same normalised text. These are
assumptions about the host, not something the model verifies. Under them, the containment test
holds exactly when the cursor gap `p` satisfies `q < p <= r` for some opening/closing pair of
double quotes at indices `q` and `r`. When the test holds, both walks stop next to a quote
character and never at a document boundary.

Two small cases show the code's behaviour. For `a"bc"d` the quotes sit at indices 1 and 4, so
the code records the pair (2, 6): host offsets 3 to 5 are inside, 2 and 6 are not
(`BoundaryOffsets`). A single unclosed quote never forms a pair, so no walk happens and nothing
is selected (`UnclosedQuoteNoPair`, `UnclosedQuote`).

## Model

| member | source | states |
|---|---|---|
| `TextScan.ReplaceAll` | SelectInsideQuotes/SelectInsideQuotesCommand.cs:88 | one ordinal `Replace` pass: it never lengthens the text when the replacement is no longer than the pattern, and replacing a single character by a text without it leaves none of that character |
| `TextScan.Normalise` | SelectInsideQuotes/SelectInsideQuotesCommand.cs:88 | the two `Replace` passes leave no CR in the text and never make it longer |
| `TextScan.NormaliseIsLfLineEndings` | SelectInsideQuotes/SelectInsideQuotesCommand.cs:88 | the two `Replace` passes equal the one-pass rule: each CR LF pair and each lone CR becomes one LF, and every other character is kept in order |
| `TextScan.NormaliseRemovesCr` | SelectInsideQuotes/SelectInsideQuotesCommand.cs:88 | the normalised text contains no CR, and each of its characters is LF or occurs in the input |
| `TextScan.NormaliseWithoutCr` | SelectInsideQuotes/SelectInsideQuotesCommand.cs:88 | a text without CR is left unchanged |
| `TextScan.NormaliseIdempotent` | SelectInsideQuotes/SelectInsideQuotesCommand.cs:88 | normalising twice gives the same text as normalising once |
| `TextScan.Occurrences` | SelectInsideQuotes/SelectInsideQuotesCommand.cs:93-95 | the scan finds exactly the indices holding `c`: each listed index holds `c`, every index holding `c` is listed, and the list strictly increases (left-to-right order) |
| `TextScan.OccurrencesCount` | SelectInsideQuotes/SelectInsideQuotesCommand.cs:93-108 | the number of occurrences equals the multiplicity of `c` in the text |
| `TextScan.GetCharPositions` | SelectInsideQuotes/SelectInsideQuotesCommand.cs:86-111 | the loop with the `start` toggle returns entry `k` = (k-th occurrence in the normalised text) + 1 when `k` is even and + 2 when `k` is odd |
| `TextScan.PositionsOfOccurrences` | SelectInsideQuotes/SelectInsideQuotesCommand.cs:92-108 | there is one entry per copy of `c` in the normalised text, and subtracting the bias from each entry gives an index holding `c` |
| `TextScan.PositionsOrdered` | SelectInsideQuotes/SelectInsideQuotesCommand.cs:97-106 | within each (opening, closing) pair the first entry is strictly smaller; the whole list is non-decreasing; every entry lies between 1 and the text length + 1 |
| `TextScan.AdjacentPairsTouch` | SelectInsideQuotes/SelectInsideQuotesCommand.cs:97-106 | for three quotes in a row the entries are 1, 3, 3, so consecutive pairs may touch |
| `Chunking.ChunkList` | SelectInsideQuotes/SelectInsideQuotesCommand.cs:113-122 | the loop stepping `i` by `chunkSize` returns `Chunks(source, chunkSize)`; it is callable with any size on an empty list and with a positive size otherwise |
| `Chunking.ChunksFlatten` | SelectInsideQuotes/SelectInsideQuotesCommand.cs:116-119 | concatenating the chunks gives back the source list |
| `Chunking.ChunksSizes` | SelectInsideQuotes/SelectInsideQuotesCommand.cs:118 | every chunk is non-empty with at most `n` elements, and every chunk except the last has exactly `n` |
| `Chunking.ChunksCountBounds` | SelectInsideQuotes/SelectInsideQuotesCommand.cs:116 | (chunks − 1) · n < length ≤ chunks · n |
| `Chunking.ChunksCount` | SelectInsideQuotes/SelectInsideQuotesCommand.cs:116 | the number of chunks is the length divided by `n`, rounded up |
| `QuoteSelection.InDoubleQuotes` | SelectInsideQuotes/SelectInsideQuotesCommand.cs:152 | the `Any` test: a list without any two-entry group never passes, and when it passes some two-entry group has at least one offset strictly between its entries |
| `QuoteSelection.InDoubleQuotesOnChunks` | SelectInsideQuotes/SelectInsideQuotesCommand.cs:152 | on chunks of two, the `Any` test holds exactly when entries 2j and 2j+1 strictly bracket the offset for some j; a trailing single entry never counts, and an offset equal to an entry is not inside |
| `QuoteSelection.BiasedBrackets` | SelectInsideQuotes/SelectInsideQuotesCommand.cs:99-104 | because of the +1/+2 bias, strict bracketing of offset `p + 1` is the same as the opening occurrence lying before gap `p` and the closing one at or after it |
| `QuoteSelection.ContainmentTest` | SelectInsideQuotes/SelectInsideQuotesCommand.cs:145-152 | with `curPos = p + 1`, the test on the chunked double-quote positions holds exactly when `q < p <= r` for an opening/closing double-quote pair at indices `q`, `r` of the normalised text |
| `QuoteSelection.WalkLeft` | SelectInsideQuotes/SelectInsideQuotesCommand.cs:157-168 | stops at `s <= cursor` with no `"` or `'` in `t[s..cursor)`, and either `s = 0` or `t[s-1]` is a quote; the stop test is `IsQuote`, which is exactly `ch == '"' \|\| ch == '\''` as at line 160 |
| `QuoteSelection.WalkRight` | SelectInsideQuotes/SelectInsideQuotesCommand.cs:171-182 | stops at `e >= cursor` with no quote in `t[cursor..e)`, and either `e` is the text length or `t[e]` is a quote; the stop test is the same `IsQuote` (`"` or `'`, as at line 174) |
| `QuoteSelection.StopsAreUnique` | SelectInsideQuotes/SelectInsideQuotesCommand.cs:157-182 | the stopping conditions of each walk determine its stopping point uniquely |
| `QuoteSelection.WalksStayBetweenQuotes` | SelectInsideQuotes/SelectInsideQuotesCommand.cs:157-182 | with a quote at `q < cursor` and one at `r >= cursor`, the walks stop within `(q, r]`, each next to a quote |
| `QuoteSelection.SpanIsInterior` | SelectInsideQuotes/SelectInsideQuotesCommand.cs:157-182 | when no quote lies strictly between quotes at `q` and `r` around the cursor, the span is exactly `(q + 1, r)`, the interior |
| `QuoteSelection.InsidePairStopsAtQuotes` | SelectInsideQuotes/SelectInsideQuotesCommand.cs:152-182 | when the cursor is inside a double-quote pair, both walks stop at a quote character and never at a document boundary |
| `QuoteSelection.Execute` | SelectInsideQuotes/SelectInsideQuotesCommand.cs:145-187 | a span is produced exactly when the cursor is inside a double-quote pair; the span is the two walks' stopping points, with `0 < start <= cursor <= end <` the text length and a quote just outside each end |
| `QuoteSelection.NoDoubleQuoteNoSpan` | SelectInsideQuotes/SelectInsideQuotesCommand.cs:145-154 | a document without `"` never yields a span, whatever the cursor |
| `QuoteSelection.FirstQuotePair` | SelectInsideQuotes/SelectInsideQuotesCommand.cs:93-108 | the first two double quotes of a text are occurrences 0 and 1, and so form the first pair |
| `QuoteSelection.BoundaryOffsets` | SelectInsideQuotes/SelectInsideQuotesCommand.cs:145-152 | for `a"bc"d` the pair is (2, 6); offsets 2 and 6 are not inside, while 3, 4 and 5 are |
| `QuoteSelection.UnclosedQuote` | SelectInsideQuotes/SelectInsideQuotesCommand.cs:152-182 | `"open but never closed` has no CR, so normalisation keeps it; no cursor after the quote is inside a pair, and a right walk from after the quote would run to the document end |
| `QuoteSelection.UnclosedQuoteNoPair` | SelectInsideQuotes/SelectInsideQuotesCommand.cs:145-152 | in `"open but never closed` the single double quote forms no pair, so no cursor anywhere is inside one and the containment test never selects |
| `QuoteSelection.MixedDelimiters` | SelectInsideQuotes/SelectInsideQuotesCommand.cs:157-182 | `"He said 'hi' to me"` has no CR, so normalisation keeps it; a cursor inside `hi` is inside the double-quote pair, but the walks stop at the single quotes, so the span is `hi` |

## Left out

- Command registration, the singleton `Instance`, `InitializeAsync`, the constructor and the `CommandId`/`CommandSet` constants (lines 24-84) are Visual Studio package plumbing.
- Switching to the UI thread and `ThreadHelper.ThrowIfNotOnUIThread` (lines 80, 133) concern host thread affinity, not logic.
- The DTE service lookup, `ActiveDocument` (including the no-active-document case at line 138), `TextDocument`, `EditPoint` and `selection.MoveToPoint` are editor APIs. They are modelled as document text in and an optional span out.
- The unused `message` string (line 134) is left out.
- How the host maps `AbsoluteCharOffset` onto a document containing CR LF is not modelled. The offset convention above is an assumption about the host.
- Chunking.ChunkList: requires `chunkSize > 0` unless the list is empty. In the code, a zero size on a non-empty list loops forever and a negative size makes `GetRange` throw. The only caller passes 2.
- TextScan.GetCharPositions: the recorded entries are unbounded integers. 32-bit overflow of `i + 2` would need a text of about 2^31 characters and is not modelled.
- A document is modelled as its sequence of UTF-16 code units, one Dafny `char` each, as the C# indexing counts them, so a character outside the Basic Multilingual Plane counts as two. No surrogate code unit, paired or lone, fits in a Dafny `char`. The model writes each one as an arbitrary character other than `"`, `'`, CR and LF. This changes nothing, because the computation compares only with those four.
