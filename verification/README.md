# Chinese word segmenter and blog pagination, in Dafny

This project models two pieces of a Go blog engine.

The first is its word segmenter, `internal/utils/segmenter`. The segmenter
is a jieba-style cutter.

- A dictionary of words is stored in a trie. Each word has a frequency and
  a cost, which is the log of total frequency over the word's frequency.
- For a text, the segmenter builds a word graph over the runes. Each rune
  position lists the end positions reachable through the trie.
- A right-to-left pass fills a route table with the cheapest way to cut
  the rest of the text. A position where no dictionary word starts costs
  a fixed 10000.
- A left-to-right replay emits the words.
- An optional HMM fallback tags runs of one-rune words B/M/E/S and regroups
  them.
- The loaders read a dictionary file and a stop-word file. The index and
  query entry points cut a text, strip symbols, spaces, punctuation and
  stop words, and join the result with spaces.

The second is `GeneratePagination` from `internal/utils/pagination.go`. It
builds the page list of the blog's index pages: page 1, a window of two
pages on each side of the current page, ellipses over the gaps, and the
last page.

## Module layout

| module | file | models |
|---|---|---|
| `Wrappers` | wrappers.dfy | `Option` |
| `Seqs` | seqs.dfy | the subsequence relation used by `Trim` and the pagination pass |
| `Strings` | strings.dfy | `toLower`, `SplitTextToWords`, `textSliceToBytes`; the parts of Go's `strings.Split`, `strings.Join`, `bufio.ScanLines` and UTF-8 `len` that the code relies on |
| `Dictionary` | dictionary.dfy | `Token`, `Dictionary`, `NewToken`, `NewDict`, `AddToken`, `Find` |
| `Dag` | dag.dfy | `getDAG` |
| `Routes` | routes.dfy | the backward route loop of `cut`, and its global optimality |
| `Hmm` | hmm.dfy | the tag-path-to-words end of `viterbi` |
| `Engine` | engine.dfy | `Segmenter`, `Cut`, `cut` (forward replay and HMM gate), `Trim`, `FilterSymbol` |
| `Api` | api.dfy | `loadDictFromString`, `recalculateTokenDistances`, `loadStopFromString`, `SegmentTextForIndex`, `SegmentTextForQuery` |
| `Pagination` | pagination.dfy | `Page`, `GeneratePagination` |
| `Examples` | examples.dfy | the expectations of `segmenter_test.go`, and a pagination example |

## Modelling decisions

- **Text.** Text is a sequence of runes (`string`). Go's byte-level
  `toLower` lower-cases only the bytes `A`..`Z`. Every byte of a multi-byte
  UTF-8 sequence is at least 0x80. So lower-casing the bytes is the same as
  lower-casing the runes `A`..`Z`. Go's byte `len` becomes `Strings.Utf8Len`.
- **Trie.** The cedar trie is abstracted as two things:
  - its node set, which holds every prefix of every key plus the root;
  - a map from each key to its index in the token table.

  `Find` then behaves as cedar's `Jump` and `Value` do:
  - an exact key gives its token and `ok`;
  - a non-empty proper prefix of a key gives `ok` with no token;
  - anything else gives nothing.
- **Oracles.** Costs are `int`s standing for the `float32` distances. Three
  parts of the code are passed in as function parameters (oracles):
  - `logOf` stands for `float32(math.Log(·))`;
  - `parse` stands for `strconv.ParseFloat`;
  - `tagger` stands for the Viterbi scoring. It yields either no tag at all,
    or one tag per rune along a path `viterbi` can pick (`Hmm.Fits`).
    After the first rune every tag follows `PrevStatus`, and the path ends
    in E or S. The first tag is free: the start loop remakes `V[0]` for each
    state (engine.go:299-310), so only `V[0]['S']` is kept, and B, M and E
    read as 0.0, the best score.
- **Unicode classes.** `unicode.IsSymbol`, `IsSpace` and `IsPunct` are the
  uninterpreted fields of `Engine.RuneClass`.
- **Global state.** The global segmenter `seg` becomes an explicit
  `Engine.Segmenter` parameter.

## Behaviours of the code worth knowing

- **Route sentinel.** The route at position `len(runes)` is `route{0, 0}`
  (engine.go:184). Its index is never read, so nothing depends on it.
- **Graph probes.** `getDAG` probes every end position up to the end of the
  text, not only up to the longest word. It keeps every end for which
  `Find` reports `ok`, and that includes proper prefixes of words. The
  route loop then keeps only exact words (`ok && token != nil`).
  `Dag.DagEdges` states this.
- **Ties.** Offers of equal distance are ordered by `sort.Slice`, which is
  not stable, so which of them wins is not fixed. The model takes the
  earliest cheapest offer, and its contracts state only minimality
  (`Routes.BestOffer`).
- **HMM gate.** The gate tests `len(word) == 1`, which is the byte length
  of the word. So only a route of one byte, a single ASCII rune, can open
  an HMM run (`Engine.HmmGate`). Once open, the run extends over every
  following one-rune route, Han runes included (engine.go:214-222,
  `Engine.RunEnd`): "x甲乙" with no dictionary words hands all three runes
  to the tagger. A text with no ASCII rune never reaches the tagger
  (`Engine.NonAsciiSkipsHmm`, `Engine.CutNonAscii`).
- **Viterbi start.** Because only `V[0]['S']` survives the start loop, a
  tag path may open with M or E, as if a word had begun before rune 0.
  The tag-to-word loop still cuts such a path into the runes, since
  `begin` starts at 0 (`Hmm.OpeningEndTag`, `Hmm.Viterbi`).
- **Stop words.** The index test expects 的 to be dropped. So the stop-word
  list must contain 的 as well as 这 and 是 (`Examples.IndexSentence`).
- **Loader total.** The frequency total that `loadDictFromString` returns
  counts every line that is not skipped. That includes duplicate words,
  which `AddToken` ignores. So the total can exceed the dictionary's own
  `totalFreq` (`Examples.DuplicateLineCountsTwice`, `Api.LoadLines`). The two agree
  when the keys are distinct (`Api.LoadDistinctKeys`).
- **Pagination de-duplication.** The de-duplication pass of
  `GeneratePagination` never drops an entry. The raw list's page numbers
  already increase (`Pagination.RawIncreasing`,
  `Pagination.DedupeIncreasing`), so the pass only unlinks the current
  page.

## Model

| member | source | states |
|---|---|---|
| Strings.ToLower | internal/utils/segmenter/engine.go:395-404 | length is kept, and each rune is mapped on its own to its lower-case partner if it is `A`..`Z` |
| Strings.ToLowerChangesOnlyUpper | internal/utils/segmenter/engine.go:395-404 | a rune changes exactly when it is an ASCII capital; it becomes a letter `a`..`z`; no capital remains |
| Strings.ToLowerIdempotent | internal/utils/segmenter/engine.go:395-404 | lower-casing twice equals lower-casing once |
| Strings.ToLowerNoUpper | internal/utils/segmenter/engine.go:395-404 | a text with no ASCII capital is unchanged |
| Strings.ToLowerAppend | internal/utils/segmenter/engine.go:395-404 | lower-casing distributes over concatenation |
| Strings.ConcatAppend | internal/utils/segmenter/engine.go:421-427 | joining text slices distributes over appending slice lists |
| Strings.Utf8LenOne | internal/utils/segmenter/engine.go:212 | a string is one byte long exactly when it is a single ASCII rune |
| Strings.SplitFrom | internal/utils/segmenter/engine.go:380-391 | from any point of the scan, the runs concatenate to the lower-cased rest; they alternate between alphanumeric and not; all except possibly the first are non-empty |
| Strings.SplitTextToWords | internal/utils/segmenter/engine.go:376-393 | at least one run; the runs concatenate to the lower-cased text; they alternate alphanumeric/non-alphanumeric starting with alphanumeric; only the first may be empty |
| Strings.IndexOf | internal/utils/segmenter/api.go:17 | a non-negative result is an offset at which the separator occurs; otherwise the result is -1 |
| Strings.IndexOfFirst | internal/utils/segmenter/api.go:17 | the occurrence found is the first one, and -1 means the separator occurs nowhere |
| Strings.Split | internal/utils/segmenter/api.go:17 | a non-empty separator gives at least one field; an empty one gives one one-rune field per rune, in order |
| Strings.SplitAtFirst | internal/utils/segmenter/api.go:17 | the first field ends at the first occurrence of the separator, and the other fields are the split of what follows that occurrence |
| Strings.SplitFirstIsPrefix | internal/utils/segmenter/api.go:17 | the first field is a prefix of the line |
| Strings.SplitJoin | internal/utils/segmenter/api.go:17 | joining the fields of a split with the same separator rebuilds the line |
| Strings.JoinSplit | internal/utils/segmenter/api.go:66 | splitting a join on a one-rune separator that no field contains gives back the fields |
| Strings.ScanLinesRoundTrip | internal/utils/segmenter/api.go:13-16 | scanning newline-terminated lines that hold no newline and no trailing CR gives back exactly those lines |
| Dictionary.NewToken | internal/utils/segmenter/engine.go:57-63 | text, frequency and part of speech are kept; a token with positive frequency costs `logOf` of the total over its frequency; any other token costs 0 |
| Dictionary.Prefixes | internal/utils/segmenter/engine.go:73 | the trie nodes that inserting a key creates are exactly its prefixes |
| Dictionary.NewDict | internal/utils/segmenter/engine.go:66 | an empty, consistent dictionary: no key, no token, total frequency 0 and longest token 0 |
| Dictionary.AddToken | internal/utils/segmenter/engine.go:67-79 | consistency is kept; a key that is already stored leaves the dictionary unchanged (first insert wins); a new key is indexed at the old table length, and the token is appended, its frequency added and the maximum length updated |
| Dictionary.Find | internal/utils/segmenter/engine.go:92-102 | a token comes back exactly for a stored key, and it is the token stored under that key; `ok` without a token exactly for a non-empty proper prefix of a key |
| Dictionary.AddTokenGrows | internal/utils/segmenter/engine.go:67-79 | adding keeps every old token and the index of every old key; the keys afterwards are the old ones plus the token's key |
| Dictionary.FindAfterAdd | internal/utils/segmenter/engine.go:67-102 | after an add, Find changes only on the new key, which now finds the new token, and on the key's non-empty prefixes, which become `ok` |
| Dag.Probes | internal/utils/segmenter/engine.go:256-261 | the probe loop keeps exactly the successful ends, ascending |
| Dag.DagAt | internal/utils/segmenter/engine.go:248-266 | a row is non-empty and ascending and lies within [k, n-1]; it holds exactly the successful probes, or just [k] when there are none |
| Dag.GetDAG | internal/utils/segmenter/engine.go:245-269 | one valid row per rune position |
| Dag.DagEdges | internal/utils/segmenter/engine.go:245-269 | edge k..i exists exactly when the lower-cased runes are a key or a prefix of a key, or when i == k and no probe from k succeeds |
| Routes.WordIsFind | internal/utils/segmenter/engine.go:189-192 | `ok && token != nil` from Find holds exactly for an exact dictionary word, and then the token's distance is the word's cost |
| Routes.BestOffer | internal/utils/segmenter/engine.go:187-200 | none exactly when no end of the row makes a word; otherwise it is an offer of the row, and no word offer of the row is cheaper |
| Routes.BestRoute | internal/utils/segmenter/engine.go:196-203 | the route kept at idx is locally optimal, and its end lies in [idx, n-1] |
| Routes.RouteMap | internal/utils/segmenter/engine.go:183-204 | the table covers positions idx..n, holds the sentinel Route(0, 0) at n, and is locally optimal at every position |
| Routes.ExtendTable | internal/utils/segmenter/engine.go:186-204 | adding the route chosen at idx to a table filled from idx+1 gives a table that covers idx..n and is locally optimal from idx on |
| Routes.ChosenFrame | internal/utils/segmenter/engine.go:186-204 | filling a lower position leaves the choices already made above it intact |
| Routes.RouteTable | internal/utils/segmenter/engine.go:181-204 | the same for the whole text |
| Routes.UniqueWordForcesRoute | internal/utils/segmenter/engine.go:188-200 | when exactly one word starts at idx, the route takes it whatever the costs |
| Routes.NoWordUnknownRoute | internal/utils/segmenter/engine.go:201-203 | when no word starts at idx, the route is the single rune at cost 10000 plus the rest |
| Routes.RouteTableForced | internal/utils/segmenter/engine.go:186-204 | in a text's route table, a position with a single word takes that word |
| Routes.RouteTableUnknown | internal/utils/segmenter/engine.go:201-203 | in a text's route table, a position with no word is a one-rune route |
| Routes.ChosenStep | internal/utils/segmenter/engine.go:186-204 | a locally optimal route is a step (a word of the row, or the single rune where no word starts), and its distance is that step's cost plus the distance after it |
| Routes.ChosenBeats | internal/utils/segmenter/engine.go:186-204 | a locally optimal route costs no more than any other step followed by the table's route after that step |
| Routes.LocalToGlobal | internal/utils/segmenter/engine.go:186-204 | under local optimality, no segmentation built from words (single runes where no word starts) costs less than the table's distance |
| Routes.LocalAttained | internal/utils/segmenter/engine.go:186-204 | the table's own segmentation is one of those, and it costs exactly the table's distance |
| Routes.RouteOptimal | internal/utils/segmenter/engine.go:183-204 | the route table of a text is globally minimal among those segmentations |
| Hmm.TagsToWordsPartition | internal/utils/segmenter/engine.go:352-370 | a (B M* E \| S)* path, or one that opens inside a word begun at `begin`, yields non-empty words that concatenate to the runes from that word's start |
| Hmm.Viterbi | internal/utils/segmenter/engine.go:294-372 | an empty path gives no words; any other path viterbi can pick, whatever its first tag, cuts the runes into non-empty words that concatenate to them |
| Hmm.OpeningEndTag | internal/utils/segmenter/engine.go:299-310 | the path E S, which only the start quirk allows, is a path viterbi can pick, and it cuts "ab" into "a", "b" |
| Engine.RunEnd | internal/utils/segmenter/engine.go:214-222 | the run of one-rune routes from e is maximal: every route inside it is one rune, and the route at its end is not |
| Engine.Replay | internal/utils/segmenter/engine.go:206-240 | with or without the HMM, the emitted words are non-empty and concatenate to the runes from idx |
| Engine.ReplayStep | internal/utils/segmenter/engine.go:230-239 | words covering idx..mid followed by words covering mid.. cover idx.. |
| Engine.RouteTableIsTable | internal/utils/segmenter/engine.go:183-204 | every position 0..n has a route, and each route ends inside the text at or after its start |
| Engine.ReplayPlain | internal/utils/segmenter/engine.go:237-239 | without the HMM, a step emits the route's word in its original case and jumps past it |
| Engine.ReplayLongWord | internal/utils/segmenter/engine.go:208-239 | with the HMM on, a route word longer than one byte is emitted whole and the replay jumps past it |
| Engine.WordsOfConcat | internal/utils/segmenter/engine.go:206-240 | cutting a text at the last rune of each word it is made of gives back exactly those words |
| Engine.ReplayFollowsRoutes | internal/utils/segmenter/engine.go:206-240 | without the HMM, the replay emits exactly the segmentation the route table encodes |
| Engine.CutFollowsRoutes | internal/utils/segmenter/engine.go:175-243 | the same for the route table of a whole text |
| Engine.CutIsOptimal | internal/utils/segmenter/engine.go:175-243 | without the HMM, Cut emits a segmentation built from words, and no such segmentation costs less |
| Engine.CutText | internal/utils/segmenter/engine.go:175-243 | an empty text gives no words; with or without the HMM, the words are non-empty and concatenate to the text in its original case |
| Engine.Cut | internal/utils/segmenter/engine.go:104-113 | as CutText, with the HMM on unless the first option is false |
| Engine.CutDefaultsToHmm | internal/utils/segmenter/engine.go:104-113 | no option or `true` selects the HMM cut; `false` selects the plain cut |
| Engine.HmmGate | internal/utils/segmenter/engine.go:211-235 | a step departs from emitting the route's word only at a one-rune route whose rune is ASCII and which is followed by another one-rune route |
| Engine.NonAsciiSkipsHmm | internal/utils/segmenter/engine.go:212 | on runes none of which is ASCII, the HMM replay equals the plain replay |
| Engine.CutNonAscii | internal/utils/segmenter/engine.go:212 | on a text with no ASCII rune, Cut gives the same words with and without the HMM |
| Engine.FilterSymbol | internal/utils/segmenter/engine.go:452-461 | a single rune is dropped exactly when it is a symbol, space or punctuation; the result holds no such rune; it is a subsequence of the text; it keeps every other rune; a clean text is returned unchanged |
| Engine.FilterSymbolAppend | internal/utils/segmenter/engine.go:452-461 | filtering a concatenation is filtering each part, so with the one-rune case the result is fixed rune by rune, repeats included |
| Engine.MapFilter | internal/utils/segmenter/engine.go:439 | each token is filtered on its own |
| Engine.Trim | internal/utils/segmenter/engine.go:437-450 | every kept token is clean, non-empty and not a stop word; the result is exactly the filtered tokens with the empty ones and the stop words left out, in order, repeats included |
| Engine.KeptOnlyFacts | internal/utils/segmenter/engine.go:437-450 | dropping the empty tokens and the stop words from clean tokens keeps them in order, leaves only clean, kept tokens, and loses none that is non-empty and not a stop word |
| Engine.TrimCleanHead | internal/utils/segmenter/engine.go:438-447 | a clean head token is kept as is exactly when it is non-empty and not a stop word |
| Engine.TrimClean | internal/utils/segmenter/engine.go:437-450 | on clean tokens, Trim drops exactly the empty tokens and the stop words |
| Engine.TrimIdempotent | internal/utils/segmenter/engine.go:437-461 | trimming trimmed tokens changes nothing |
| Api.ParseLine | internal/utils/segmenter/api.go:16-35 | an empty line is skipped; an entry's word is non-empty and is a prefix of the line |
| Api.ParseLineFirstField | internal/utils/segmenter/api.go:17-24 | a line is skipped exactly when its first field (the text before the first separator) is empty, and otherwise that field is the word |
| Api.ParseLineOfFields | internal/utils/segmenter/api.go:17-35 | a line of one or more fields joined by a one-rune separator reads back as: skipped if the first field is empty, else that word, the second field's frequency or 1.0, and the third field or "" as part of speech; fields after the third are ignored |
| Api.ParseLineOfJoin | internal/utils/segmenter/api.go:17-35 | a line "word SEP freq SEP pos" reads back as that word, the parsed frequency (1.0 if unparsable) and that part of speech |
| Api.ParseLineWordOnly | internal/utils/segmenter/api.go:21-35 | a line holding only a word gets frequency 1.0 and an empty part of speech |
| Api.ParseLineLeadingSep | internal/utils/segmenter/api.go:17-24 | a line that starts with the separator has an empty word and is skipped |
| Api.EntryToken | internal/utils/segmenter/api.go:37-38 | the token's trie key is the lower-cased word; frequency and part of speech are kept |
| Api.LoadLine | internal/utils/segmenter/api.go:16-39 | consistency is kept; old tokens and key indices stay; the only key that can be new is the line's lower-cased word, and only when the line is not skipped |
| Api.LoadLines | internal/utils/segmenter/api.go:15-40 | consistency is kept; the old tokens are a prefix of the new ones; old keys keep their index; a key is stored exactly when it was stored before or comes from a line that is not skipped; the returned total is the sum of the frequencies of all lines that are not skipped, repeated words included |
| Api.LoadDictFromString | internal/utils/segmenter/api.go:12-42 | the same over the scanned lines of the file, returning that sum; the separator and the stop words are untouched |
| Api.FirstLoadedWins | internal/utils/segmenter/api.go:15-39 | for a key new to the dictionary, the token stored after loading is that of the first line carrying the key, wherever it is, whatever later lines say |
| Api.LoadDistinctKeys | internal/utils/segmenter/api.go:25-39 | with distinct new keys, the returned total equals the dictionary's frequency growth, and one token is stored per loaded line |
| Api.DistinctTail | internal/utils/segmenter/api.go:37-39 | after the first of a list of distinct new keys is added, the rest are still distinct and new |
| Api.Recalculate | internal/utils/segmenter/api.go:44-50 | the length is kept; each token's text, frequency and part of speech are kept; a token with positive frequency gets NewToken's cost against the final total; the others are unchanged |
| Api.RecalculateIdempotent | internal/utils/segmenter/api.go:44-50 | recalculating twice against the same total is recalculating once |
| Api.RecalculateTokenDistances | internal/utils/segmenter/api.go:44-50 | the tokens are exactly those `Api.Recalculate` describes; consistency is kept; the trie, the nodes, the table length, the maximum length and the total are unchanged, and so is every Find `ok` |
| Api.InsertStops | internal/utils/segmenter/api.go:55-60 | after the insert loop, a word is a stop word exactly when it was one before or is a non-empty line of those read |
| Api.LoadStop | internal/utils/segmenter/api.go:52-61 | starting from an empty map, a stop word is exactly a non-empty scanned line |
| Api.LoadStopFromString | internal/utils/segmenter/api.go:52-61 | the stop words are replaced by the non-empty lines; the dictionary and the separator are untouched |
| Api.LoadStopOfLines | internal/utils/segmenter/api.go:52-61 | a one-word-per-line file loads back exactly its non-empty words |
| Api.JoinNonEmpty | internal/utils/segmenter/api.go:66 | joining tokens whose first is non-empty is non-empty |
| Api.SegmentTextForIndex | internal/utils/segmenter/api.go:63-67 | an empty text gives ""; the result is empty exactly when no token survives Trim; when ' ' is a space rune the result splits on " " back into exactly the trimmed tokens |
| Api.SpaceFree | internal/utils/segmenter/engine.go:452-461 | when ' ' counts as space, no trimmed token contains it |
| Api.SegmentTextForQuery | internal/utils/segmenter/api.go:69-73 | a query is segmented exactly as indexed text is |
| Pagination.Span | internal/utils/pagination.go:34-36 | the linked pages lo..hi, one per number, ascending |
| Pagination.Dedupe | internal/utils/pagination.go:48-63 | the result is the marked list with entries left out, in order; no page number appears twice or repeats one seen before; every ellipsis and every first entry of a number is kept; the current page is never a link |
| Pagination.MarkCurrent | internal/utils/pagination.go:51-54 | every entry keeps its number, and is a link exactly when it was one and is not the current page |
| Pagination.MarkedEllipsis | internal/utils/pagination.go:51-56 | marking the current page neither makes nor unmakes an ellipsis entry |
| Pagination.DedupeIncreasing | internal/utils/pagination.go:48-63 | on a list of increasing page numbers, de-duplication drops nothing and only unlinks the current page |
| Pagination.RawIncreasing | internal/utils/pagination.go:19-46 | the raw list's page numbers increase strictly and lie in 1..total |
| Pagination.RawLinks | internal/utils/pagination.go:19-46 | in the raw list, exactly the numbered entries are links |
| Pagination.GeneratePagination | internal/utils/pagination.go:14-74 | no result exactly when total <= 1; otherwise the navigation fields; the page list is the raw list with the current page unlinked; numbers increase and lie in 1..total; an entry is a link exactly when it is numbered and not the current page |
| Pagination.PaginationEnds | internal/utils/pagination.go:22-46 | the list opens with page 1 and closes with the last page, each a link unless it is the current page |
| Pagination.RawListed | internal/utils/pagination.go:19-46 | the raw list shows exactly 1, the last page, and the window |
| Pagination.PaginationWindow | internal/utils/pagination.go:30-36 | the numbers shown are exactly 1, the last page, and max(2, cur-2)..min(total-1, cur+2) |
| Pagination.PaginationEllipses | internal/utils/pagination.go:25-41 | an ellipsis follows page 1 exactly when cur > 4, and precedes the last page exactly when cur < total-3 |
| Pagination.RawEllipses | internal/utils/pagination.go:22-46 | the same for the raw list |
| Examples.Beijing | internal/utils/segmenter/engine.go:67-79 | adding 北京 then 天安门 to an empty dictionary indexes them 0 and 1 |
| Examples.AddWord | internal/utils/segmenter/engine.go:67-79 | a word not yet stored is indexed at the old table length, and the table grows by one |
| Examples.BeijingWords | internal/utils/segmenter/segmenter_test.go:17-24 | in 北京天安门 only runes 0..1 and 2..4 are words |
| Examples.BeijingRoutes | internal/utils/segmenter/segmenter_test.go:17-24 | the route table takes 北京 and 天安门 |
| Examples.CutBeijing | internal/utils/segmenter/segmenter_test.go:17-24 | with the HMM on and any costs, Cut gives 北京, 天安门 |
| Examples.Sentence | internal/utils/segmenter/engine.go:67-79 | adding 一个, 用于, 测试 and 句子 to an empty dictionary indexes them 0 to 3 |
| Examples.SentenceRoute | internal/utils/segmenter/segmenter_test.go:28-36 | the route table of the sentence keeps 这, 是 and 的 as single runes and takes the four dictionary words whole |
| Examples.SentenceEnds | internal/utils/segmenter/engine.go:206-240 | routes taking those words encode the segmentation that ends at runes 0, 1, 3, 5, 7, 8 and 10 |
| Examples.CutSentence | internal/utils/segmenter/segmenter_test.go:28-36 | 这是一个用于测试的句子 cuts into 这, 是, 一个, 用于, 测试, 的, 句子 with the HMM on, whatever the costs and the tagger |
| Examples.IndexSentence | internal/utils/segmenter/segmenter_test.go:28-36 | with stop words 这, 是, 的 the index text is "一个 用于 测试 句子" |
| Examples.IndexSentenceLoaded | internal/utils/segmenter/segmenter_test.go:28-36 | the same with the four-word dictionary built by AddToken |
| Examples.DuplicateLineCountsTwice | internal/utils/segmenter/api.go:25-39 | loading the same word twice returns total 2.0 but stores one token and frequency 1.0 |
| Examples.FifthOfTen | internal/utils/pagination.go:14-74 | page 5 of 10 lists 1, …, 3, 4, 5 (not a link), 6, 7, …, 10 |

## Left out

- `segmentWords` and `updateJumper` (engine.go:115-162), and `Dictionary.LookupTokens` (engine.go:80-91): a second, jumper-based segmentation. `Cut` never calls them.
- The Viterbi scoring (engine.go:293-350): `ProbEmit`, `startP`, `transP` and the float64 dynamic programme are the `tagger` oracle. The model keeps the shape of the path it returns (`Hmm.Fits`) and the tag-path-to-words conversion, not which path the scores select.
- `math.Log`, the `float32` rounding of distances and the float comparisons of `sort.Slice`: costs are abstract integers given by `logOf`.
- `strconv.ParseFloat`: the `parse` oracle.
- Frequencies and totals are exact `real`s: the `float64` rounding of `totalFreq += freq` (api.go:31, engine.go:76) is not modelled, so `Api.LoadLines`, `Api.LoadDictFromString` and `Api.LoadDistinctKeys` state totals of exact, associative sums (lines `a 1e16` and `b 1` total 10000000000000001 here, 1e16 in Go). `parse` returns only finite values: `ParseFloat`'s NaN and ±Inf results, which Go accepts without error and which then spread through the total and every distance, are not modelled.
- The Unicode tables behind `unicode.IsSymbol`, `IsSpace` and `IsPunct`: the `RuneClass` fields.
- Invalid UTF-8: text is a sequence of runes, so a byte string that is not valid UTF-8, which Go's `[]rune` conversion maps to U+FFFD, has no counterpart.
- `bufio.Scanner`'s 64 KiB line limit: a longer line stops the scan in Go, and the loaders ignore the error. The model reads every line.
- `log.Printf` in `cut`: logging only.
- The `AlphaNum`, `Alpha` and `Num` fields of `Segmenter`, the `Segment` accessors, `Token.Text`, `textSliceByteLen` and `minInt`: no modelled operation reads them.
- The package-level `seg` variable and its initialisation from embedded files (segmenter_prod.go, segmenter_dev.go): the segmenter is an explicit parameter, and loading is `Api.LoadDictFromString` followed by `Api.RecalculateTokenDistances` and `Api.LoadStopFromString`.
- Go's 64-bit `int` in `GeneratePagination`: `cur + 2`, `cur - 2` and `total - 1` can wrap near the int limits, and `math.Max`/`math.Min` go through `float64`, which rounds above 2^53. The model uses unbounded integers.
- The `map[string]interface{}` that `GeneratePagination` returns: it is the `Pagination` record.
- Routes.BestOffer: when several offers share the lowest distance, the model takes the earliest, whereas the unstable `sort.Slice` may take another of them. The contract states only that the offer is minimal.
- Api.SegmentTextForIndex: the split round trip is stated for a `RuneClass` in which `' '` is a space rune, as Go's `unicode.IsSpace` is.
- Pagination.PaginationEllipses: stated for a current page within 1..total. Outside that range the ellipses follow the same comparisons, but the window can be empty.
