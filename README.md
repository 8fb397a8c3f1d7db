# pyter TER engine in Dafny

This project models the core of pyter's `ter.py`, the Translation Error Rate (TER)
scorer, and proves properties of the model.

- **Tokenizing** (`_str2list`). A sentence becomes tokens, either the pieces between
  single spaces or its single characters.
- **Edit distance** (`edit_distance`). This is the Levenshtein matrix.
- **Cached edit distance** (`FastEditDistance`). It keeps a sorted list of earlier
  hypotheses, found by binary search, together with their complete matrices. A new
  hypothesis reuses the leading rows it shares with its nearest neighbours.
- **Shift search** (`_iter_matches`, `_shift`). It proposes every block move that
  places a matching phrase of the hypothesis at a mismatching reference position. It
  keeps the move that lowers the distance most.
- **Scoring** (`_ter`, `ter`, `ter_glue`). This loop shifts while a shift improves
  the distance, then adds the residual distance. `ter` scores the hypothesis as it is
  with the cache. `ter_glue` pads the hypothesis with empty tokens and drops them
  again before measuring.
- **Alignment** (`align`). It runs the same search while tracking where every moved
  block came from. A second pass matches the rest greedily. The result is a sorted
  list of triples, turned into character offsets in word mode.

The modules follow that structure:

| file | module | source |
|---|---|---|
| `order.dfy` | `LexOrder` | Python's comparison of lists and strings, and the head of a sorted list |
| `tokens.dfy` | `Tokens` | `_str2list`, the padding `hyp += [''] * n` and `filter(None, x)` |
| `levenshtein.dfy` | `Levenshtein` | `edit_distance`, `_gen_matrix` |
| `cache.dfy` | `FastEdit` | `FastEditDistance` and `bisect.bisect_left` |
| `shifting.dfy` | `Shifting` | `_iter_matches`, `_shift`, `_ter`, `ter`, `ter_glue` |
| `align.dfy` | `Alignment` | `align` |

How the model is built:

- `Lev(s, t)` is the reference definition of the edit distance. It is recursive on the
  last tokens, so cell `(i, j)` of every matrix is `Lev(s[..i], t[..j])`.
- `Row` and `DPTable` describe whole rows and matrices.
- The cache class keeps the invariant that every stored matrix is `DPTable(key, ref)`
  for its key.
- The shift search is stated for any distance `mtd: seq<Token> -> nat`.
  - `ter` uses `Lev(x, ref)`, which is what `FastEditDistance(ref)(x)` computes.
  - `ter_glue` and `align` use `Lev(ref, NonEmpty(x))`.
- Each loop of the source is a method proved against a recursive function of the
  same name family: `Shift`/`ShiftStep`, `TerCore`/`Converge`, `ShiftBlocks`/`Shifts`,
  `FillGaps`/`Gaps`.
- The lemmas are proved about those functions.

Two behaviours of the code differ from what is usually said about it. The model
follows the code in both:

- **`ter` does not pad.** Only `ter_glue` and `align` pad a short hypothesis. `ter`
  therefore cannot shift into reference positions past the end of the hypothesis.
  `Splice` models the clamping that Python's slices then apply to the cursor.
- **`ter_glue` is guaranteed to agree with `ter` only for hypotheses without empty
  tokens.** For such hypotheses at least as long as the reference,
  `GlueAgreesWithPlain` proves the agreement. Empty tokens come from a leading or
  trailing space, consecutive spaces, or an empty sentence: word mode splits on
  every single space, as `s.split(' ')` does (`SplitEmptyToken`).
  `ter_glue`'s distance ignores every empty token (`GlueIgnoresEmpty`). `ter`'s
  distance may count one: against `["a"]` the hypothesis `["a", ""]` scores
  numerator 1 under `ter` and 0 under `ter_glue` (`GlueBelowPlainOnEmptyToken`).

`_add_cache` tests `cache_keys[idx + 1] == s` rather than `cache_keys[idx] == s`.
It therefore skips the insertion only when `s` is already stored twice
(`SkipsOnlyWhenTwice`), and the second query of a hypothesis stores a duplicate key.
This affects only the size of the cache, never a score, and the model keeps the test
as written.

## Model

| member | source | states |
|---|---|---|
| Tokens.Split | pyter/ter.py:172 | `s.split(' ')` gives at least one token and no token contains a space |
| Tokens.JoinSplit | pyter/ter.py:172 | joining the split pieces with single spaces gives back the sentence |
| Tokens.SplitJoin | pyter/ter.py:172 | splitting space-free tokens joined by single spaces gives back the tokens |
| Tokens.ConcatChars | pyter/ter.py:172 | concatenating the characters of `list(s)` gives back `s` |
| Tokens.Str2List | pyter/ter.py:170-172 | word mode gives a non-empty list of space-free words that rejoins to the sentence (so it is `Split(s)`, by `SplitJoin`); character mode gives token `i` equal to character `i` of the sentence, for every `i` |
| Tokens.SplitEmptyToken | pyter/ter.py:170-172 | word mode yields an empty token exactly when the sentence is empty, starts or ends with a space, or holds two spaces in a row |
| Tokens.EmptyTokensOnlyInCharMode | pyter/ter.py:170-172 | the token list is empty exactly for the empty sentence in character mode |
| Tokens.Glued | pyter/ter.py:164-165 | padding reaches the reference length when the hypothesis is shorter, keeps the hypothesis as a prefix, and adds only empty tokens |
| Tokens.NonEmpty | pyter/ter.py:166 | `filter(None, x)` keeps every non-empty token with its multiplicity and no empty one; `NonEmptyAppend` adds that it keeps them in order |
| Tokens.NonEmptyAppend | pyter/ter.py:166 | filtering keeps the tokens in order: the filtered concatenation is the concatenation of the filtered parts |
| Tokens.NonEmptyIdentity | pyter/ter.py:166 | filtering a list without empty tokens changes nothing |
| LexOrder.LexIrreflexive | pyter/ter.py:198 | no list is below itself in Python's list order |
| LexOrder.LexTransitive | pyter/ter.py:198 | Python's list order is transitive when the element order is |
| LexOrder.LexTrichotomous | pyter/ter.py:198 | any two lists are equal or one is below the other when the element order is total |
| LexOrder.LexStrictTotal | pyter/ter.py:198 | Python's list order over a strict total element order is itself a strict total order |
| LexOrder.TokensOrder | pyter/ter.py:266 | comparing token lists, the keys `bisect` searches, is a strict total order |
| LexOrder.TokensLessAsymmetric | pyter/ter.py:266 | two token lists are never each below the other |
| LexOrder.Least | pyter/ter.py:198-199 | the head of a sorted list is one of its elements |
| LexOrder.LeastIsMinimal | pyter/ter.py:198-199 | no element is below the head of the sorted list |
| LexOrder.LeastOfPrefix | pyter/ter.py:198 | the least element of a longer prefix is the least of the shorter prefix and the new element |
| Levenshtein.Min3 | pyter/ter.py:233-235 | `min` of three values is at most each and equal to one |
| Levenshtein.LevCell | pyter/ter.py:232-235 | the reference distance obeys the matrix recurrence at every inner cell |
| Levenshtein.CellFrom | pyter/ter.py:233-235 | the cell computed from the three neighbouring cells is the distance of the two prefixes |
| Levenshtein.LevSymmetric | pyter/ter.py:226-236 | the distance does not depend on argument order |
| Levenshtein.LevZeroIffEqual | pyter/ter.py:226-236 | the distance is 0 exactly when the two sequences are equal |
| Levenshtein.LevBounds | pyter/ter.py:226-236 | the distance is at least the length difference and at most the longer length |
| Levenshtein.DPTablePrefix | pyter/ter.py:296-308 | the first `n + 1` rows of a matrix depend only on the first `n` tokens, which is why cached rows can be reused |
| Levenshtein.FillRow | pyter/ter.py:232-235 | filling row `i` leaves `Lev(s[..i], t[..j])` in every cell of that row and changes no other row |
| Levenshtein.EditDistance | pyter/ter.py:226-240 | `l[-1][-1]` of the filled matrix is the edit distance |
| FastEdit.InsertionPoint | pyter/ter.py:266 | the insertion point has only smaller keys before it and a key not below `s` at it |
| FastEdit.SortedAboveInsertionPoint | pyter/ter.py:266 | in a sorted list no key from the insertion point on is below `s` |
| FastEdit.InsertionPointUnique | pyter/ter.py:266 | any index with that partition property is the insertion point |
| FastEdit.BisectLeft | pyter/ter.py:266 | the binary search returns the insertion point |
| FastEdit.InsertAt | pyter/ter.py:283-284 | `list.insert` puts the element at the index and shifts the rest by one |
| FastEdit.InsertGrows | pyter/ter.py:283-284 | `list.insert` only adds: the old elements stay, each with its multiplicity, plus the new one |
| FastEdit.InsertKeepsSorted | pyter/ter.py:280-284 | inserting at the bisect position keeps the keys sorted |
| FastEdit.SkipsOnlyWhenTwice | pyter/ter.py:280-282 | the duplicate test skips the insertion exactly when `s` is already stored twice |
| FastEdit.Lcp | pyter/ter.py:286-294 | the common prefix length is a shared prefix, and the next tokens differ or one list ends |
| FastEdit.CommonPrefixIndex | pyter/ter.py:286-294 | the counting loop returns the longest common prefix length |
| FastEdit.ReuseRows | pyter/ter.py:269-274 | the first `n + 1` rows of a neighbour's matrix are the first rows of the new hypothesis's matrix, and the rest of the hypothesis is what is left to process |
| FastEdit.TrivialRows | pyter/ter.py:275 | the trivial first row is the first row of every matrix |
| FastEdit.FirstCell | pyter/ter.py:302-303 | column 0 of a new row is one more than the row above and equals the distance to the empty prefix |
| FastEdit.NextCell | pyter/ter.py:304-307 | an inner cell of a new row equals the distance of the two prefixes |
| FastEdit.InsertKeepsTables | pyter/ter.py:283-284 | inserting a key and its matrix at the same index keeps every stored matrix the one of its key |
| FastEdit.FastEditDistance.constructor | pyter/ter.py:251-255 | a new cache is empty, valid, and its trivial row is the first matrix row |
| FastEdit.FastEditDistance.Query | pyter/ter.py:257-261 | the call returns `Lev(hyp, ref)` and the cache changes exactly as `_add_cache` prescribes, so its keys only grow |
| FastEdit.FastEditDistance.FindCache | pyter/ter.py:263-275 | the returned rows are the leading rows of the hypothesis's own matrix, one more than the reused prefix, and the rest is the unprocessed suffix |
| FastEdit.FastEditDistance.AddCache | pyter/ter.py:277-284 | the key and matrix are inserted at the bisect position unless the skip test holds; the cache stays sorted and every matrix stays the one of its key |
| FastEdit.FastEditDistance.ExtendTable | pyter/ter.py:296-308 | extending the reused rows gives the full matrix of the hypothesis, and its last cell is the distance |
| FastEdit.FastEditDistance.FillRow | pyter/ter.py:301-307 | a new row is the matrix row of the hypothesis prefix one token longer |
| Shifting.MatchEnd | pyter/ter.py:216-219 | the end search stops inside both sentences, after a run of matching tokens, at the first position where the run cannot go on |
| Shifting.MatchesFrom | pyter/ter.py:213-219 | the moves for one cursor have that cursor and come in increasing start order |
| Shifting.MatchesAt | pyter/ter.py:208-219 | moves come ordered by cursor, then by start |
| Shifting.IterMatches | pyter/ter.py:202-222 | every yielded move is in range, ordered by cursor, then by start |
| Shifting.HeadCandidate | pyter/ter.py:213-219 | a move found at a matching start is a candidate shift |
| Shifting.MatchesFromSound | pyter/ter.py:213-219 | every move yielded for a cursor is a candidate |
| Shifting.MatchesAtSound | pyter/ter.py:208-219 | every move yielded from a cursor on is a candidate |
| Shifting.IterMatchesSound | pyter/ter.py:202-222 | every entry of `_iter_matches` is a candidate |
| Shifting.MatchEndFinds | pyter/ter.py:216-219 | the end search from inside a candidate's run finds that candidate's end |
| Shifting.MatchesFromFinds | pyter/ter.py:213-219 | the start loop from any earlier start yields a move found at a matching start |
| Shifting.MatchesFromTail | pyter/ter.py:213-219 | what a later start yields, the loop from an earlier start yields too |
| Shifting.MatchesFromHead | pyter/ter.py:213-219 | the start loop yields the move found at its first start |
| Shifting.MatchesAtFinds | pyter/ter.py:208-219 | the cursor loop from any earlier cursor yields every candidate |
| Shifting.IterMatchesExactly | pyter/ter.py:202-222 | a move is yielded exactly when it is a candidate: a mismatching cursor, a different start holding the cursor's token, and the longest match from there |
| Shifting.NoMatchesAtWhenEqual | pyter/ter.py:208-211 | with a hypothesis equal to the reference every cursor is skipped |
| Shifting.NoMatchesWhenEqual | pyter/ter.py:202-211 | a hypothesis equal to the reference has no shift to propose |
| Shifting.Splice | pyter/ter.py:193-194 | the rearranged hypothesis has the same length and the same tokens with their multiplicities |
| Shifting.SpliceLandsAtCursor | pyter/ter.py:193-194 | when it fits, the moved block starts at the cursor |
| Shifting.Score | pyter/ter.py:147-148 | a call of `mtd` returns the metric's distance, keeps the cache valid and loses no cached key |
| Shifting.ScoredOrder | pyter/ter.py:198 | the `(score, nhyp)` tuple order is irreflexive and transitive |
| Shifting.Proposals | pyter/ter.py:192-194 | one rearrangement per proposed move, each a permutation of the hypothesis |
| Shifting.ProposalsExactly | pyter/ter.py:192-194 | the proposals are exactly the splices of candidate moves |
| Shifting.Candidates | pyter/ter.py:191-195 | `scores` has one entry per proposed move |
| Shifting.Best | pyter/ter.py:198-199 | the head of the sorted `scores` is one of its entries |
| Shifting.BestIsLeast | pyter/ter.py:198-199 | no entry of `scores` is below the head |
| Shifting.BestIsProposal | pyter/ter.py:198-199 | the head is a proposal scored with its own distance |
| Shifting.ShiftStepImproves | pyter/ter.py:186-199 | `_shift` returns a non-positive delta equal to the change in distance, and delta 0 comes with the hypothesis unchanged |
| Shifting.ShiftStepPermutes | pyter/ter.py:186-199 | the returned hypothesis is a permutation of the input, and a proposal when delta is negative |
| Shifting.ShiftStepOptimal | pyter/ter.py:198-199 | an improving shift reaches the least distance of all proposals, and the least hypothesis among ties |
| Shifting.ShiftStepStops | pyter/ter.py:196-199 | when `_shift` reports no improvement, no proposal lowers the distance |
| Shifting.ScanStep | pyter/ter.py:191-198 | scoring one more proposal keeps the running minimum of the scored prefix |
| Shifting.ScanComplete | pyter/ter.py:198 | the running minimum over all of `scores` is the head of the sorted list |
| Shifting.ScoreProposals | pyter/ter.py:190-198 | the scoring loop returns the head of the sorted `scores`; the cache loses no key |
| Shifting.Shift | pyter/ter.py:186-199 | the method returns what `ShiftStep` specifies; the cache loses no key |
| Shifting.ConvergeStep | pyter/ter.py:178-182 | an improving shift counts one and continues from the shifted hypothesis; otherwise the loop stops |
| Shifting.ConvergeBound | pyter/ter.py:175-183 | shifts plus residual distance never exceed the starting distance, the final hypothesis is a permutation, and no shift improves it |
| Shifting.NumeratorAtMostDistance | pyter/ter.py:183 | the TER numerator is at most the distance of the unshifted hypothesis |
| Shifting.NumeratorOfReference | pyter/ter.py:183 | a hypothesis equal to the reference has numerator 0 |
| Shifting.NoEmptyKept | pyter/ter.py:193-194 | a rearrangement of a list without empty tokens has none |
| Shifting.ShiftStepAgrees | pyter/ter.py:186-199 | two distances that agree on lists without empty tokens make the same shift |
| Shifting.ConvergeAgrees | pyter/ter.py:175-182 | two such distances drive `_ter` through the same shifts to the same hypothesis |
| Shifting.DistancesAgree | pyter/ter.py:166 | without empty tokens the glue distance equals the cached distance |
| Shifting.GlueAgreesWithPlain | pyter/ter.py:153-167 | `ter_glue` has the same numerator as `ter` when the hypothesis is at least as long as the reference and has no empty token |
| Shifting.PlainCountsPadding | pyter/ter.py:147-148 | for `ref = ["a"]`, one padding token costs `ter`'s distance one edit |
| Shifting.GlueIgnoresEmpty | pyter/ter.py:166 | `ter_glue`'s distance of any hypothesis equals that of the hypothesis with its empty tokens removed |
| Shifting.NoMovesNumerator | pyter/ter.py:178-183 | with no move proposed, the TER numerator is the distance of the hypothesis itself |
| Shifting.NoMovesOnPaddedA | pyter/ter.py:207-211 | against `ref = ["a"]` the hypothesis `["a", ""]` has no move to propose |
| Shifting.GlueBelowPlainOnEmptyToken | pyter/ter.py:135-167 | against `ref = ["a"]`, the hypothesis `["a", ""]` has numerator 1 under `ter` and 0 under `ter_glue`, so the two scores differ |
| Shifting.TerCore | pyter/ter.py:175-183 | the loop's `err + mtd(hyp)` is the numerator of the converged search; the cache loses no key |
| Shifting.Ter | pyter/ter.py:135-148 | `ter` is that numerator over the reference length, or undefined for an empty reference, with no padding |
| Shifting.TerGlue | pyter/ter.py:153-167 | `ter_glue` is the numerator of the padded hypothesis under the filtering distance, over the reference length |
| Shifting.TerOfIdenticalSentences | pyter/ter.py:135-148 | `ter(s, s)` has numerator 0 for every sentence |
| Alignment.Range | pyter/ter.py:74 | definition of `range(n)`, each index at its own position; its role is in `Traced`, which keeps `replaced_map` a permutation of it |
| Alignment.AlignOrder | pyter/ter.py:84-86 | the order of the two sorts combined is a strict total order |
| Alignment.AlignCands | pyter/ter.py:77-81 | one entry per proposed move, scored with `dist` of its rearrangement |
| Alignment.Chosen | pyter/ter.py:84-86 | `scores[0]` after both sorts is an entry of `scores` |
| Alignment.ChosenIsBest | pyter/ter.py:84-86 | the chosen entry has the least distance, and among equal distances the longest block |
| Alignment.ChosenIsCandidate | pyter/ter.py:78-81 | the chosen entry is a candidate move and its hypothesis is the splice of that move |
| Alignment.PickStep | pyter/ter.py:84-86 | one more entry keeps the running minimum |
| Alignment.PickComplete | pyter/ter.py:84-86 | the running minimum over all entries is the chosen entry |
| Alignment.PickShift | pyter/ter.py:77-86 | building and sorting `scores` yields the chosen entry |
| Alignment.Apply | pyter/ter.py:91-97 | an accepted shift keeps the loop state well formed and takes the new hypothesis |
| Alignment.Shifts | pyter/ter.py:75-101 | the shift loop keeps the state well formed and the hypothesis length |
| Alignment.ShiftBlocks | pyter/ter.py:72-101 | the loop returns the state `Shifts` specifies |
| Alignment.SpliceSource | pyter/ter.py:94-95 | every position of a splice comes from a position of the original |
| Alignment.StartTraced | pyter/ter.py:72-74 | the initial state satisfies the trace invariant |
| Alignment.ApplyRemaps | pyter/ter.py:94-96 | `replaced_map` is rearranged as `h` is, so `h[i] == hyp[replaced_map[i]]` still holds |
| Alignment.ApplyMarks | pyter/ter.py:93-97 | the recorded mark holds original tokens equal to the reference at the cursor |
| Alignment.ApplyMarksAll | pyter/ter.py:93-97 | after a shift every mark still matches the reference where it was placed |
| Alignment.ApplyKeys | pyter/ter.py:97 | the dictionary key order still lists every mark exactly once |
| Alignment.ApplyKeepsTrace | pyter/ter.py:91-97 | one accepted shift keeps the trace invariant |
| Alignment.ShiftsKeepTrace | pyter/ter.py:75-101 | after the loop, `replaced_map` is a permutation tracking `h`, and every mark matches the reference |
| Alignment.ShiftsConverge | pyter/ter.py:75-101 | the loop never raises the distance and stops only where no proposal lowers it |
| Alignment.Unmarked | pyter/ter.py:100-103 | definition of `hyp_indexes`, exactly the positions no mark holds; what the second pass does with it is `GapsSound` |
| Alignment.FirstFree | pyter/ter.py:110-114 | a found position holds the token and is free |
| Alignment.FirstFreeIsFirst | pyter/ter.py:110-114 | whenever a free position holds the token, one is found no later than it |
| Alignment.FirstFreeNoneBefore | pyter/ter.py:110-114 | no free position before the one found holds the token |
| Alignment.FindFree | pyter/ter.py:110-114 | the loop returns the first free position holding the token |
| Alignment.RunEnd | pyter/ter.py:118-124 | the run end lies in the hypothesis and is where the run leaves one of the sentences or stops matching |
| Alignment.RunEndMatches | pyter/ter.py:118-124 | every token the run passes over matches the reference |
| Alignment.RunFits | pyter/ter.py:118-124 | the run is at least one token and fits in both sentences |
| Alignment.RunMatches | pyter/ter.py:118-124 | the whole run matches the reference token for token |
| Alignment.ScanRun | pyter/ter.py:118-124 | the end loop returns the run end, so the `assert(False)` branch is unreachable |
| Alignment.GapBlockFound | pyter/ter.py:109-122 | that block is unmarked, starts at the first free matching position, matches and is maximal |
| Alignment.GapsSound | pyter/ter.py:104-124 | every second-pass block is at an unmarked reference position, starts at the first free matching position, matches token for token, and is as long as the run goes |
| Alignment.GapsAscending | pyter/ter.py:104-124 | the second pass emits blocks in strictly increasing reference order, each ending in the reference before the next starts, so no two share a reference position |
| Alignment.GapRound | pyter/ter.py:105-124 | one round emits what the second pass emits at `sp` and moves strictly forward |
| Alignment.FillGaps | pyter/ter.py:104-124 | the loop emits exactly the second-pass blocks, in order |
| Alignment.MarkBlocks | pyter/ter.py:99 | definition: one triple per mark in dictionary order, its cursor, `y[0]` and the mark length; what the triples mean is `MarkBlocksAnchored` |
| Alignment.ConsSorted | pyter/ter.py:125 | a least element before a sorted rearrangement keeps it sorted |
| Alignment.InsertBlock | pyter/ter.py:125 | inserting into a sorted list keeps it sorted and adds exactly that element |
| Alignment.SortBlocks | pyter/ter.py:125 | `aligns.sort()` gives a sorted permutation |
| Alignment.SortedHeadLeast | pyter/ter.py:125 | the head of a sorted list is not above any element |
| Alignment.SortedTail | pyter/ter.py:125 | the tail of a sorted list is sorted and holds the rest |
| Alignment.SortedUnique | pyter/ter.py:125 | two sorted permutations of the same triples are equal, so any correct sort gives this result |
| Alignment.ToSpans | pyter/ter.py:127-131 | definition: one output triple per block, in order; what the offsets mean is `OffsetsInText` and `WordOffsets` |
| Alignment.AlignTokens | pyter/ter.py:99-125 | the token-level result is sorted |
| Alignment.Align | pyter/ter.py:60-132 | `align` returns the converted, sorted marks and second-pass blocks of the padded hypothesis |
| Alignment.MarkBlocksAnchored | pyter/ter.py:99 | every mark triple lies in both sentences and pairs equal tokens at its start |
| Alignment.GapsAnchored | pyter/ter.py:104-124 | every second-pass triple lies in both sentences and pairs equal tokens at its start |
| Alignment.AlignAnchored | pyter/ter.py:60-125 | every returned triple lies in both sentences and pairs equal tokens at its start |
| Alignment.RunEndSelf | pyter/ter.py:118-124 | against itself a run from the start reaches the end |
| Alignment.AlignIdentical | pyter/ter.py:60-125 | a sentence aligned with itself is one triple covering all of it |
| Alignment.JoinAppend | pyter/ter.py:128-130 | joining two non-empty lists is joining each, with a space between |
| Alignment.JoinWidth | pyter/ter.py:128-130 | the joined text is one character shorter than the summed widths |
| Alignment.JoinSuffix | pyter/ter.py:128 | the words from `y` on start at character offset `Width(toks[:y])` |
| Alignment.JoinPrefix | pyter/ter.py:130 | the first `w` words span `Width(toks[:w]) - 1` characters |
| Alignment.JoinSlice | pyter/ter.py:128-130 | the offset and width of words `y` to `y + w` cut exactly those words out of the joined text |
| Alignment.HypOffset | pyter/ter.py:129 | the hypothesis offset points at the start of word `z` in the joined hypothesis |
| Alignment.OffsetsInText | pyter/ter.py:127-131 | the reference offset and width cut the aligned words out of the reference text, and the hypothesis offset points at an equal word |
| Alignment.WordOffsets | pyter/ter.py:127-131 | the same for the reference text as given to `align` |

Unfolding helpers have no row: each states one branch or one entry of the
function it belongs to and is used only inside proofs. They are
`Shifting.CandidateAt`, `Shifting.ShiftStepCases`, `Shifting.ConsCandidates`,
`Alignment.AlignCandAt`, `Alignment.ShiftsStep`, `Alignment.SpliceAt`,
`Alignment.GapsEnd`, `Alignment.GapsSkip`, `Alignment.GapsFound`,
`Alignment.ConsAscending`, `Alignment.AscendingEq`, `Alignment.ConsGapBlocks`,
`Alignment.WordSpan` and `FastEdit.CachedPrefixIs`.

## Left out

- `diff_align`, `pretty_print` and `_tospace` are display utilities built on
  `difflib` and string widths. They are not part of this model.
- `ter` and `ter_glue` divide two integers into a float. The model returns the
  numerator and denominator (`TerResult.Rate`). An empty reference gives
  `DivisionUndefined`, which stands for the `ZeroDivisionError`. Floating point is
  not modelled.
- Shifting.Ter: the source builds the cache before testing the reference length and
  runs the whole search before dividing. The model returns `DivisionUndefined`
  without stating anything about the work done before it.
- Python's `None` cells in the new matrices are not modelled. Every cell is written
  before it is read.
- FastEdit.FastEditDistance.FindCache: the returned rows are values. Python shares
  row objects between cache entries, `trivial_list` and new matrices, but
  `_edit_distance` only writes rows it appends itself, so the sharing is
  unobservable.
- The cache's running time, the reason it exists, is not modelled.
- Alignment.Chosen: `scores.sort()` followed by the stable sort on block length is
  modelled as taking the least entry under one combined order. That order is
  distance ascending, then block length descending, then the remaining tuple
  fields. Only `scores[0]` is used, and it is this least entry.
- Shifting.Best: `scores.sort()` followed by `scores[0]` is modelled the same way,
  as the least `(distance, nhyp)` pair.
- Shifting.GlueAgreesWithPlain: it is proved only for hypotheses at least as long
  as the reference and without empty tokens. The claim fails when the hypothesis
  contains one (`GlueBelowPlainOnEmptyToken`), and a shorter hypothesis is padded
  with empty tokens.
- The claim that `ter_glue` never scores above `ter` is not proved.
- Alignment.GapsSound: it does not state that the alignment's blocks are disjoint in
  hypothesis positions. Second-pass blocks never share a reference position
  (`GapsAscending`); overlaps come only from hypothesis positions and marks.
  - `hyp_indexes` is never updated inside the second pass, so two second-pass blocks
    may use the same hypothesis position.
  - A later shift may also overwrite `marks[csr]` or move tokens of an earlier mark.
  - The model states what every block is (`GapsSound`, `AlignAnchored`), not that
    blocks are disjoint.
- The doctest examples in the source are not restated as lemmas. Each would need the
  whole search evaluated on a concrete sentence pair.
- Unicode handling is not modelled: strings are sequences of characters, with no
  encoding or width.
