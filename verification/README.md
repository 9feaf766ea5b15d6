# Similarity engine of a plagiarism detector, modelled in Dafny

The program compares every pair of text files in a folder. For each pair it
mines the shared fragments and scores how much of the two texts they cover.
It then reports the ten most similar pairs. This project models the engine
that does the comparing, all in `plagio1.go`:

- `lcs`, the longest-common-substring extractor. It fills an (n+1) x (m+1)
  dynamic-programming table and keeps the first cell, in row-major order,
  that holds the largest value in the table.
- `removeSubstring`, which deletes every non-overlapping occurrence of a
  substring, scanning left to right.
- `findAllLCS`, the fragment miner. It calls `lcs` on shrinking working copies
  and stops when the match is shorter than `minLength`. It drops matches made
  only of stop words. It strips every non-overlapping occurrence of each match
  from both texts. The text left over can hold a fresh copy of the match
  ("aabb" without "ab" leaves "ab").
- `calcularSimilitud`, the scorer. It divides the summed fragment length by the
  floor average of the original lengths and rounds the percentage.
- The pair loop, sort and `[:10]` cut inside `compararArchivosHTML`.

Modules, one per component:

| file | module | models |
|---|---|---|
| `substrings.dfy` | `Substrings` | occurrence, common substrings, `removeSubstring` |
| `longest_common.dfy` | `LongestCommon` | `lcs`: the table cell `Run`, the row-major scan, the table-filling method `Lcs` |
| `words.dfy` | `Words` | byte texts, `strings.Fields`, ASCII `strings.ToLower`, the stop-word set and test |
| `miner.dfy` | `Miner` | `findAllLCS`, as a recursive function `Mine` and as the loop `FindAllLcs` |
| `scoring.dfy` | `Scoring` | `calcularSimilitud` with exact rounding |
| `ranking.dfy` | `Ranking` | pair enumeration, sort by score, the cut to ten (as written and corrected) |
| `arithmetic.dfy` | `Arithmetic` | small multiplication and division facts |

Texts are sequences of `Byte`, a `char` below 256, so a text's length is the
byte length Go's `len` reports. The extractor and the removal are generic in
the element type.

The central characterisation is `LongestCommon.IsPickedLcs(r, a, b)`. It says
that `r` occurs in both texts and no common substring is longer. When `r` is
non-empty, it is also the copy in `a` with the smallest end index. Both the
functional scan and the table-filling method satisfy it, and
`PickedIsUnique` shows it fixes the answer completely.

Some behaviours of the code are easy to misread:

- The stop-word set is fixed inside `findAllLCS`. It is not a caller's
  parameter.
- The score is not symmetric in its arguments. The extractor's tie-break
  follows the first text (`ArgumentOrderMatters`), so the fragment
  lists can differ. No symmetry is claimed.
- The score cannot exceed 100. Each fragment is cut out of both working texts,
  so the fragments together are no longer than either original text
  (`MinedLengthBounded`).
- A `minLength` of 0 or less never ends the loop
  (`LoopNeverExitsWithoutPositiveMinimum`). `Mine` therefore requires
  `minLength >= 1`.
- The cut to ten is a fixed slice that fails below ten pairs. See Findings.

## Model

| member | source | states |
|---|---|---|
| Substrings.RemoveAll | plagio1.go:125-127 | removing occurrences never makes the text longer, and removing the empty sequence returns the text unchanged |
| Substrings.RemoveAbsent | plagio1.go:125-127 | if the substring does not occur, the text comes back unchanged |
| Substrings.RemoveShrinks | plagio1.go:125-127 | if a non-empty substring occurs, the result is at least its length shorter |
| Substrings.RemoveKeepsUnmatchedPrefix | plagio1.go:125-127 | a prefix of the text in which no copy of the substring starts comes through removal unchanged |
| Substrings.RemoveAtFirstOccurrence | plagio1.go:125-127 | with `k` the first index where a non-empty substring occurs, the result is the text before `k` followed by the removal applied after that copy, the leftmost non-overlapping deletion `strings.Replace(t, s, "", -1)` performs |
| LongestCommon.Run | plagio1.go:67-68 | a table cell never exceeds either prefix length |
| LongestCommon.RunMatches | plagio1.go:67-68 | the run a cell counts is a common run: the `Run` elements before i in `a` equal those before j in `b` |
| LongestCommon.RunAtLeast | plagio1.go:67-68 | every common run ending at (p, q) is counted by cell (p, q) |
| LongestCommon.ScanRowSummarises | plagio1.go:66-74 | after each cell of a row, no visited cell beats the best, the best was reached in row `endPos`, and earlier rows are strictly smaller |
| LongestCommon.ScanRowsSummarises | plagio1.go:65-75 | the same summary holds after whole rows |
| LongestCommon.ResultIsCommon | plagio1.go:65-80 | the result, `a[endPos-length..endPos]`, occurs in both texts |
| LongestCommon.NoEarlierCommonEnd | plagio1.go:69-71 | when every cell of the rows before `e` is below `len`, no common substring of length `len` ends in `a` before `e` |
| LongestCommon.ResultEndsFirst | plagio1.go:65-80 | no common substring as long as a non-empty result ends earlier in `a` |
| LongestCommon.ResultIsMaximal | plagio1.go:65-79 | no common substring of the two texts is longer than the result |
| LongestCommon.LongestCommonSubstringIsPicked | plagio1.go:55-81 | the extractor's result is common, maximal, and the copy ending earliest in `a` |
| LongestCommon.PickedIsUnique | plagio1.go:69-71 | with the strict `>` tie-break, only one substring satisfies the characterisation |
| LongestCommon.EmptyIffNothingShared | plagio1.go:77-79 | the result is empty exactly when the texts share no byte |
| LongestCommon.SelfComparisonIsWhole | plagio1.go:55-81 | a non-empty text compared with itself yields the whole text |
| LongestCommon.ResultDependsOnArgumentOrder | plagio1.go:69-71 | "ab" against "ba" yields "a" |
| LongestCommon.ResultDependsOnArgumentOrderSwapped | plagio1.go:69-71 | "ba" against "ab" yields "b" |
| LongestCommon.ArgumentOrderMatters | plagio1.go:55-81 | swapping the two texts can change the extracted substring: the result is not symmetric |
| LongestCommon.FillRow | plagio1.go:66-74 | filling one row leaves every filled row holding its run lengths and carries the scan's best across it |
| LongestCommon.Lcs | plagio1.go:55-81 | the table-filling routine returns the row-major scan's answer, which is common, maximal and earliest-ending |
| Words.LowerByte | plagio1.go:99 | lower-casing maps A-Z up by 32, keeps other bytes, and never yields an upper-case letter |
| Words.Lower | plagio1.go:99 | a word's lower-case form has its length and lowers each byte |
| Words.WordLength | plagio1.go:96 | a word's leading run holds no white space and stops at white space or the end |
| Words.FieldsPartition | plagio1.go:96 | every field is non-empty without white space, and the fields glued together give the text minus its white space |
| Words.BlankHasNoFields | plagio1.go:96 | a text of white space alone has no fields |
| Words.FieldsOfWord | plagio1.go:96 | a non-empty run without white space is a single field, so fields are never cut short |
| Words.FieldsSplitAtSpace | plagio1.go:96 | splitting a text at a white-space byte splits its fields there, so no field spans white space |
| Words.AllStopWords | plagio1.go:97-103 | the test passes exactly when every word, lower-cased, is in the stop-word set |
| Words.CapitalIIsInert | plagio1.go:87-99 | no lower-cased word equals "I", so that entry of the set never matches |
| Words.BlankIsAllStopWords | plagio1.go:96-105 | a white-space-only match passes the stop-word test vacuously and is dropped |
| Miner.MatchShrinks | plagio1.go:109-110 | removing a non-empty match shortens both working texts by at least its length |
| Miner.Mine | plagio1.go:84-114 | every fragment is at least `minLength` long and has a word that is not a stop word |
| Miner.RoundsTimesMinimum | plagio1.go:90-111 | rounds times `minLength` is at most the length of each text |
| Miner.RoundsBounded | plagio1.go:90-111 | the loop body runs at most len(text1)/minLength and at most len(text2)/minLength times |
| Miner.FragmentsAtMostRounds | plagio1.go:90-111 | there are no more fragments than rounds |
| Miner.MinedLengthBounded | plagio1.go:90-113 | the fragment lengths add up to at most the length of each original text |
| Miner.LoopNeverExitsWithoutPositiveMinimum | plagio1.go:90-111 | with `minLength <= 0` the exit test always fails, and once nothing is shared a round changes nothing |
| Miner.IsAllStopWords | plagio1.go:96-103 | the early-exit loop answers true exactly when every word, lower-cased, is a stop word |
| Miner.FindAllLcs | plagio1.go:84-114 | the loop over working copies returns the fragments `Mine` defines, each long enough and not all stop words |
| Scoring.RoundedPercent | plagio1.go:139 | the result is 100*common/total rounded to nearest, with halves rounded up |
| Scoring.RoundedPercentAtMostHundred | plagio1.go:139 | a part no larger than the whole rounds to at most 100 |
| Scoring.Similarity | plagio1.go:130-142 | the score is NaN exactly when the floor average length is 0; otherwise it lies in [0, 100] and is the rounded ratio of summed fragment length to average length |
| Scoring.ZeroAverageMeansNothingMined | plagio1.go:133-139 | with a zero average length the summed fragment length is 0, so Go divides 0 by 0 |
| Ranking.RowPairs | plagio1.go:162 | the inner loop yields (i, j), (i, j+1), ..., (i, n-1) |
| Ranking.PairsFrom | plagio1.go:161-162 | every pair a < b is produced once, in increasing order, n(n-1)/2 in all |
| Ranking.PairResultsCoverEveryPair | plagio1.go:160-168 | there are n(n-1)/2 results, the k-th compares the k-th pair i < j, every pair appears, none repeats |
| Ranking.Insert | plagio1.go:170-172 | inserting into a score-sorted list keeps it sorted and adds exactly that element |
| Ranking.HeadStillFirst | plagio1.go:170-172 | an element scoring at least as high as `x` and as all of `rest` still leads any permutation of them |
| Ranking.SortByScore | plagio1.go:170-172 | the sorted list is a permutation of the input in which no later score exceeds an earlier one |
| Ranking.SliceTopTen | plagio1.go:174 | as written, the cut fails exactly when fewer than ten results exist, else it keeps the first ten |
| Ranking.TopN | plagio1.go:174 | the guarded cut keeps the first min(n, length) results |
| Ranking.RankAsWrittenPanicsBelowFiveFiles | plagio1.go:161-174 | the as-written ranker fails exactly when the folder holds fewer than five files |
| Ranking.RankAgreesWithAsWritten | plagio1.go:174 | wherever the as-written cut succeeds, the guarded ranker returns the same ten results |
| Ranking.TopOfSortedIsHighest | plagio1.go:170-174 | cutting a sorted list keeps entries that score no lower than any entry left out |
| Ranking.TopOfSortedIsSorted | plagio1.go:170-174 | a prefix of a score-sorted list is score-sorted |
| Ranking.RankEntriesArePairs | plagio1.go:160-174 | every reported result compares some pair i < j of distinct files |
| Ranking.RankIsTopTen | plagio1.go:160-174 | the guarded ranker reports min(10, pairs) sorted results, drawn from the pair results, with no left-out pair scoring above a kept one |

## Left out

- Reading the folder and the files (`readFilesFromFolder`, `readFile`) is I/O. So are the HTTP `handler`, `main` and the HTML template. A `Document` stands for a loaded file. `readFile`'s appended spaces are part of the text given to the model.
- `highlightCommonSubstrings` is presentation only. It wraps fragments in `<mark>` and changes no score. `PairResult` keeps the file names, score and fragments, but not the highlighted copies.
- Scoring.Similarity: uses exact rational arithmetic in place of float64. At exact halves, a float64 quotient can round differently from the exact value.
- Ranking.SortByScore: Go's `sort.Slice` is unstable. Only sortedness and permutation are stated, so the tie order among equal scores stays open. With a NaN score, Go's `>` is no strict weak order and Go's result order is unspecified. The model puts NaN entries last.
- Ranking.SliceTopTen: Go's `s[:10]` fails when the slice capacity, not its length, is below ten. `append` grows a slice of these 96-byte records to capacities 1, 2, 4, 8, 16. Pair counts are 0, 1, 3, 6, 10, .... So capacity is below ten exactly when length is, but this argument is not proved in Dafny.
- Miner.Mine: requires `minLength >= 1`, because below that the Go loop never ends. The divergence is shown one round at a time by `LoopNeverExitsWithoutPositiveMinimum`, not as a non-terminating function.
- `FindAllLcs` takes each round's match from `LongestCommonSubstring`. `Lcs` is proved to return that same value.
- Unicode: `strings.Fields` also splits on multi-byte spaces (U+0085, U+00A0, U+2000 and others). `strings.ToLower` also lowers non-ASCII letters, some to ASCII (U+0130 to "i", U+212A to "k"). The model splits on ASCII white space and lowers ASCII letters only.
- The top-N size is the fixed 10 of the code. `minLength` is a parameter; the HTTP wrapper always passes 5.
- Go's `int` overflow cannot occur at realistic text lengths and is not modelled.

## Findings

| source | as written | input that shows it | evidently intended | confidence | as-written member | corrected member |
|---|---|---|---|---|---|---|
| plagio1.go:174 | `return resultados[:10], nil` slices without checking how many results exist | a folder with four `.txt` files: 6 pairs, slice capacity 8, so `[:10]` panics; with 0 or 1 files there are no pairs at all | return the top min(10, pairs) results | high (not executed) | Ranking.RankAsWrittenPanicsBelowFiveFiles | Ranking.RankIsTopTen |
