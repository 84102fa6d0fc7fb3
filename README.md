# Verified model of the KHGRec evaluation core

KHGRec's `KGGraphRecommender` runs an evaluation pass after training epochs. The pass builds a ranked list of recommendations for every test user. A best-performance record decides when a checkpoint is saved. This project models three pieces of that evaluation code in Dafny and proves properties about them:

1. **Ranked-list assembly with seen-item masking**: the module-level `test` function (modules `Lookup`, `Masking`, `Ranking`).
   - Each test user is looked up by position in the user key list (`list.index`).
   - A fresh candidate array is filled with that user's scores.
   - Every item the user already rated gets the sentinel score -10e8, written in place at the item's position in the item key list.
   - top-K selection returns ids and scores. The ids are mapped back to item names and zipped with the scores into `rec_list[user]`.
   - A missing user, a missing rated item, or an index past the end of an array or list raises, and that ends the pass.
2. **Best-performance tracker**: the `bestPerformance` logic of `fast_evaluation` (module `Tracker`).
   - The metric report lines after the heading are split into a `key:value` snapshot.
   - The first evaluation records `[epoch + 1, snapshot]` and saves, when its report parses.
   - Later evaluations hold a vote over the stored metrics. A metric casts +1 when the stored value is strictly greater, and -1 otherwise.
   - When the count is below zero, both slots are replaced and a save follows.
   - `PerformanceTracker` is a class whose fields stand for the two list slots. A counter stands for the checkpoint save.
3. **topN cutoff parsing** in the constructor (modules `Text`, `TopN`): the option text is split on `,`, each piece goes through `int()`, and `max_N` is the largest cutoff.

Scores and metric values are integers. Strings are `seq<char>`. Every exception the modelled code raises becomes a `Fault` value (module `Outcomes`), carried in `Result` or `Outcome`. The exceptions of code outside the model are listed under "Left out".

Behaviours of the code worth knowing:
- Lookups use `list.index` as written: a linear search that returns the first occurrence. They do not use a precomputed hash map.
- `max_N` is passed to top-K selection without any check. No `k <= 0` or `k > item count` error is raised.
- The tracker can reach a third state. In the first evaluation, `self.bestPerformance.append(epoch + 1)` (line 136) runs before the report is parsed. If parsing raises, the list is left holding only the epoch. Every later update then fails: either the parse fails again, or `bestPerformance[1]` raises IndexError. `PerformanceTracker.Update` models this state and its consequences.
- The method `KGGraphRecommender.test` (base/kggraph_recommender.py:50-80) is a copy of the module-level `test` that reads `self.max_N`. It is modelled once, as `Ranking.Test`.

## Model

| member | source | states |
|---|---|---|
| `Lookup.IndexOf` | base/kggraph_recommender.py:237-240 | `list.index`: returns None exactly when the key is absent (where Python raises ValueError), otherwise the first position holding the key |
| `Lookup.IndexOfDistinct` | base/kggraph_recommender.py:237-238 | in a key list without repeats, like the keys of a dict, `index` of the element at position i returns i |
| `Masking.MaskAll` | base/kggraph_recommender.py:245-246 | masking with the loop's stop-at-first-fault behaviour; a successful masking keeps the array length |
| `Masking.MaskAllSucceeds` | base/kggraph_recommender.py:245-246 | masking succeeds if and only if every rated item is found and its index lies inside the candidate array |
| `Masking.UnknownItemFails` | base/kggraph_recommender.py:246 | a rated item missing from the item list makes masking fail rather than being skipped |
| `Masking.MaskAllPointwise` | base/kggraph_recommender.py:244-246 | after masking, the length is the same, the sentinel sits at every index `items.index` gives a rated item, and every other index keeps its original score |
| `Masking.RatedSlotsHoldSentinel` | base/kggraph_recommender.py:246 | `candidates[lst_items.index(item)] == -10e8` for every rated item |
| `Masking.MaskAllIdempotent` | base/kggraph_recommender.py:245-246 | masking a masked array again gives the same array |
| `Masking.MaskAllOrderIndependent` | base/kggraph_recommender.py:245-246 | two rated lists with the same members, in any order and with any repeats, both fail or give the same array |
| `Masking.MaskOneRatedItem` | base/kggraph_recommender.py:244-246 | worked example: scores 10, 90, 50, 20 for A, B, C, D with B rated become 10, sentinel, 50, 20 |
| `Masking.MaskAllSnocFails` | base/kggraph_recommender.py:245-246 | after a successful masking, one more rated item that is missing from the item list, or whose index lies past the array, makes masking fail with exactly that item's fault |
| `Masking.MaskRated` | base/kggraph_recommender.py:244-246 | the in-place loop: on success the array equals `MaskAll` of its old contents; on a fault it reports the same fault `MaskAll` gives, and the array is masked by exactly the rated items before the first one that fails |
| `Ranking.ItemNames` | base/kggraph_recommender.py:251 | `[lst_items[iid] for iid in ids]`: succeeds exactly when every id is in range, giving one name per id, namely `lst_items[ids[j]]` |
| `Ranking.RankUser` | base/kggraph_recommender.py:240-252 | `rec_list[user]` for one user: an unknown user fails with that user's lookup fault; a success means the user is known and masking succeeded, and the list is no longer than the ids top-K returned |
| `Ranking.RecList` | base/kggraph_recommender.py:239-252 | the pass succeeds if and only if every test user's list can be built, and then the keys of `rec_list` are exactly the test users |
| `Ranking.RecListFrom` | base/kggraph_recommender.py:239-252 | the loop over the test users from a partial `rec_list`: a completed pass keeps every key already present; a failure carries the fault of some test user's list |
| `Ranking.Zip` | base/kggraph_recommender.py:252 | `zip`: as long as the shorter list, with j-th pair `(xs[j], ys[j])` |
| `Ranking.Candidates` | base/kggraph_recommender.py:240-246 | the user lookup and masking: an unknown user fails with its lookup fault; the candidates are built if and only if the user is known and every rated item can be looked up and written; they are then as long as the user's score row |
| `Ranking.RecommendFor` | base/kggraph_recommender.py:240-252 | one loop iteration: user lookup, fresh candidate array, in-place masking, top-K selection, and name mapping, with the same result and faults as `RankUser` |
| `Ranking.Test` | base/kggraph_recommender.py:235-257 | the loop over the test users builds exactly `RecList`, and the first fault ends the pass; it follows the intended behaviour on an empty test set (see Findings) |
| `Ranking.RecListAsWritten` | base/kggraph_recommender.py:227-257 | `test` as written, including the final `process_bar` call: it agrees with `RecList` whenever the test set is non-empty or a user fails |
| `Ranking.EmptyTestSetFailsAsWritten` | base/kggraph_recommender.py:228-255 | with an empty test set, `test` as written fails with ZeroDivisionError, while the intended `rec_list` is empty |
| `Ranking.RecListFromShape` | base/kggraph_recommender.py:239-252 | loop invariant in general form: the result's keys are the accumulator's keys plus the test users; every test user maps to its own ranked list; other entries are kept |
| `Ranking.RecListFromSucceeds` | base/kggraph_recommender.py:239-252 | the pass completes if and only if every test user's list can be built |
| `Ranking.RecListShape` | base/kggraph_recommender.py:239-252 | the keys of `rec_list` are exactly the test users, and each maps to that user's ranked list |
| `Ranking.UnknownUserFails` | base/kggraph_recommender.py:240 | a test user absent from `lst_users` fails with that user's lookup fault, and the whole pass fails |
| `Ranking.UnknownRatedItemFails` | base/kggraph_recommender.py:244-246 | a rated item absent from `lst_items` makes that user's list, and therefore the pass, fail |
| `Ranking.RankUserPairs` | base/kggraph_recommender.py:248-252 | `rec_list[user]` is as long as the shorter of top-K's two lists, and its j-th pair is `(lst_items[ids[j]], scores[j])` for the ids top-K returned on the masked candidates |
| `Ranking.RankUserWithValidSelection` | base/kggraph_recommender.py:240-252 | when top-K returns valid indices with their scores and the score rows match the item list, a known user whose rated items are all known gets a list as long as `ids`; each pair carries the item's masked score, and any rated item that appears carries the sentinel |
| `Text.TrimLeft` | base/kggraph_recommender.py:121 | the leading half of `strip()`: a suffix of the input with only whitespace dropped, not starting with whitespace |
| `Text.IsSpace` | base/kggraph_recommender.py:121 | the characters `str.isspace()` accepts, which `strip()` removes: space, tab, newline and carriage return among them, and never a digit, a sign, a colon or a comma |
| `Text.TrimRight` | base/kggraph_recommender.py:121 | the trailing half of `strip()`: a prefix of the input with only whitespace dropped, not ending with whitespace |
| `Text.Split` | base/kggraph_recommender.py:26 | `str.split(sep)`: one more piece than there are separators, and no piece contains the separator |
| `Text.Strip` | base/kggraph_recommender.py:121 | `str.strip()`: no longer than the input, neither starting nor ending with whitespace, and empty for all-whitespace text |
| `Text.TrimLeftSpaces` | base/kggraph_recommender.py:121 | dropping leading whitespace removes exactly the whitespace in front of a text that does not start with whitespace |
| `Text.TrimRightSpaces` | base/kggraph_recommender.py:121 | dropping trailing whitespace removes exactly the whitespace after a text that does not end with whitespace |
| `Text.StripSurrounding` | base/kggraph_recommender.py:121 | stripping whitespace around a core that neither starts nor ends with whitespace gives back the core |
| `Text.StripUnchanged` | base/kggraph_recommender.py:121 | text with no surrounding whitespace is left unchanged by `strip()` |
| `Text.JoinSplit` | base/kggraph_recommender.py:26 | joining the pieces of a split gives back the text |
| `Text.SplitJoin` | base/kggraph_recommender.py:26 | splitting a join of separator-free pieces gives back the pieces |
| `Text.ParseIntToString` | base/kggraph_recommender.py:27 | `int(str(n)) == n` for every integer |
| `Text.ReadSigned` | base/kggraph_recommender.py:27 | the sign-and-digits core of `int()`: succeeds if and only if the text is an integer literal (digits, optionally after one `+` or `-`); digits read as their decimal value, also after a `+`; a negative result needs a leading `-` |
| `Text.ParseInt` | base/kggraph_recommender.py:27 | `int()`: succeeds if and only if the stripped text is an integer literal, so text such as `1a`, `1.5` or `--3` is rejected; stripped text of digits reads as its decimal value; a negative result needs a `-` after the whitespace |
| `Text.ReadSignedNegative` | base/kggraph_recommender.py:27 | `-` followed by digits reads as the negated decimal value |
| `Text.ParseIntNegative` | base/kggraph_recommender.py:27 | `int('-' + digits)` is the negated decimal value of the digits |
| `Text.ParseIntRejectsEmpty` | base/kggraph_recommender.py:27 | `int()` rejects empty or all-whitespace text |
| `TopN.Max` | base/kggraph_recommender.py:28 | `max` of a non-empty list is an element of the list and no element exceeds it |
| `TopN.ParseEach` | base/kggraph_recommender.py:27 | `[int(num) for num in top]`, with `int` passed in as `read` (`ParseTopN` passes `Text.ParseInt`): succeeds if and only if every piece is read; it then gives one integer per piece, in order; a failure carries a piece that `read` rejects |
| `TopN.ParseTopN` | base/kggraph_recommender.py:26-28 | succeeds if and only if every comma-separated piece parses; then there is one cutoff per piece, cutoff i is `int` of piece i, and `max_N` is one of the cutoffs and at least every cutoff |
| `TopN.ParseTopNRoundTrip` | base/kggraph_recommender.py:26-28 | writing a non-empty list of cutoffs as `n1,n2,...` and parsing the text gives back the list with its maximum |
| `TopN.EmptyPieceRejected` | base/kggraph_recommender.py:26-27 | an option with an empty piece (`10,,20`, `10,`) is rejected |
| `Tracker.KeyValue` | base/kggraph_recommender.py:121-122 | `k, v = m.strip().split(':')`: fails with the malformed-line fault unless the stripped line holds exactly one colon; a parsed key never contains a colon |
| `Tracker.KeyValueOfLine` | base/kggraph_recommender.py:121-122 | a report line `key:text`, with any whitespace around it, reads back as `(key, float(text))`, or fails with the number fault when `float` rejects `text` |
| `Tracker.SplitKeyText` | base/kggraph_recommender.py:121 | `split(':')` of `key:text` with colon-free halves gives exactly the two halves |
| `Tracker.KeyValueOfStripped` | base/kggraph_recommender.py:121-122 | a line whose stripped form splits into exactly `[key, text]` reads as `(key, float(text))`, or fails with the number fault when `float` rejects `text` |
| `Tracker.LineReader` | base/kggraph_recommender.py:121-122 | the per-line parser `m.strip().split(':')` then `float(v)`: a line whose stripped form does not hold exactly one colon is malformed, and a parsed key holds no colon |
| `Tracker.Body` | base/kggraph_recommender.py:120 | `measure[1:]`: one line fewer than a non-empty report (none for an empty one), line i being `measure[i + 1]` |
| `Tracker.Collect` | base/kggraph_recommender.py:120-122 | the snapshot loop over the lines: a success keeps every key already collected; a failure carries the fault of some line the parser rejects |
| `Tracker.Snapshot` | base/kggraph_recommender.py:120-122 | the loop over `measure[1:]`: a report with no line after the heading gives the empty snapshot; a failure carries the fault of some line after the heading |
| `Tracker.CollectSucceeds` | base/kggraph_recommender.py:120-122 | the snapshot loop completes if and only if every line parses |
| `Tracker.CollectShape` | base/kggraph_recommender.py:120-122 | the snapshot's keys are the keys of the lines; each value is that of the last line carrying the key; earlier entries no line overrides are kept |
| `Tracker.CollectKeys` | base/kggraph_recommender.py:120-122 | on success every line parsed, and the keys of the result are the earlier keys plus the key of every line |
| `Tracker.CollectLastValue` | base/kggraph_recommender.py:120-122 | on success, a line that no later line shares its key with decides that key's value (later assignments to `performance[k]` win) |
| `Tracker.LastLineWins` | base/kggraph_recommender.py:120-122 | the same fact for one chosen line `i` |
| `Tracker.FirstLineWins` | base/kggraph_recommender.py:120-122 | the same fact for the first line |
| `Tracker.CollectKeeps` | base/kggraph_recommender.py:120-122 | a collected key that no line carries keeps its earlier value |
| `Tracker.SnapshotShape` | base/kggraph_recommender.py:120-122 | the snapshot built from `measure[1:]` holds exactly the metric names of those lines, each with its last value; `fast_evaluation` reads the lines with `LineReader` |
| `Tracker.SnapshotFailsOnBadLine` | base/kggraph_recommender.py:120-122 | a line after the heading that the line parser rejects makes the snapshot fail |
| `Tracker.ParseSnapshot` | base/kggraph_recommender.py:119-122 | the line-by-line loop builds exactly `Snapshot` |
| `Tracker.MalformedLineFails` | base/kggraph_recommender.py:120-122 | a line after the heading that `k, v = m.strip().split(':')` or `float(v)` rejects makes the whole snapshot fail |
| `Tracker.Wins` | base/kggraph_recommender.py:124-125 | the +1 voters: stored metrics present in both snapshots, never one whose values are equal |
| `Tracker.Losses` | base/kggraph_recommender.py:126-127 | the -1 voters, ties included: no metric is on both sides, and when the new snapshot holds every stored metric, every stored metric is on one side |
| `Tracker.VotesPartition` | base/kggraph_recommender.py:123-127 | since every stored metric casts exactly one vote, `count` equals 2·(+1 votes) − (number of metrics) |
| `Tracker.SidesPartition` | base/kggraph_recommender.py:123-127 | every stored metric votes on exactly one side: the +1 and -1 voters together number the stored metrics |
| `Tracker.VoteCount` | base/kggraph_recommender.py:123-127 | the final `count` lies between `-n` and `n` for `n` stored metrics, and has the parity of `n` |
| `Tracker.IdenticalSnapshotWins` | base/kggraph_recommender.py:123-128 | because equal values vote -1, a snapshot identical to the stored best, with at least one metric, gets `count == -n < 0` and replaces it |
| `Tracker.NoWorseSnapshotWins` | base/kggraph_recommender.py:123-128 | a snapshot at least as good on every stored metric gets `count == -n` and replaces the best |
| `Tracker.WorseSnapshotLoses` | base/kggraph_recommender.py:123-128 | a snapshot strictly worse on every stored metric gets `count == n`, so the incumbent stays |
| `Tracker.VoteIsMajority` | base/kggraph_recommender.py:123-128 | the best is replaced if and only if the -1 votes are a strict majority; `count == 0` occurs exactly on an even split, which keeps the incumbent |
| `Tracker.VoteExamples` | base/kggraph_recommender.py:123-128 | worked examples: a 2-to-2 split gives count 0 (the incumbent stays); three -1 votes against one +1 give count -2 |
| `Tracker.Vote` | base/kggraph_recommender.py:123-127 | the counting loop fails, with the key-error fault, exactly when the new snapshot lacks a stored metric; otherwise it returns the vote count |
| `Tracker.TallyCounts` | base/kggraph_recommender.py:123-127 | the running `count` after visiting a repeat-free sequence of metrics is the number of +1 votes minus the number of -1 votes among them |
| `Tracker.Tally` | base/kggraph_recommender.py:123-127 | the running `count` after n stored metrics have voted in visiting order: between -n and n, with the parity of n |
| `Tracker.CountedAll` | base/kggraph_recommender.py:123-127 | once every stored metric has been visited once, the running count equals the vote count |
| `Tracker.PerformanceTracker.constructor` | base/kggraph_recommender.py:25 | the tracker starts as the empty list, with no saves |
| `Tracker.PerformanceTracker.Update` | base/kggraph_recommender.py:117-145 | from empty: records `[epoch + 1, snapshot]` and saves once, or on a parse fault keeps only `[epoch + 1]`. With a stored best: every fault (parse, missing second slot, missing metric) leaves the state unchanged; `count < 0` replaces both slots and saves once; otherwise nothing changes and nothing is saved. The line parser is a parameter; `fast_evaluation` reads lines with `LineReader(valueOf)` |

## Left out

- The embedding product `torch.matmul(user_emb[user_id], item_emb.transpose(0, 1))` and `.cpu().numpy()` (lines 241-242, 64-65). They are tensor arithmetic on floats. The model takes each user's score row as a given function `scoreOf` of the user index.
- `find_k_largest` (util/algorithm). Its code is not part of this model. It is a given function `findKLargest`. `RankUser`, `RecList` and `Test` are proved for any such function, including one that returns invalid ids. Only `Ranking.RankUserWithValidSelection` assumes the promise `Ranking.FindsValidIndices` states: valid indices, each paired with its score. Ordering and tie-breaking are not modelled.
- `ranking_evaluation` (lines 99, 113) is an external metrics function. The tracker takes its report lines as input.
- `float(v)` (lines 122, 140) is a given function `valueOf` from text to an optional integer. Floating-point comparison, including NaN, is not modelled.
- `data.user_rated(user)` is a given function `ratedOf`. Its second result `li` is unused. A fault raised inside `user_rated` (line 244) is not modelled.
- `user_emb[user_id]` (line 241) is not modelled as a fault: the score row of every user index is given, so an embedding table shorter than the user list raises nothing in the model.
- Text.ParseInt: models `int()` for ASCII digits with an optional sign and surrounding whitespace. It does not accept underscores between digits or non-ASCII decimal digits, which Python's `int()` does.
- Tracker.Vote: the key-error fault does not carry the name of the missing metric. The loop visits the stored keys in an unspecified order, while Python visits them in insertion order. Which missing key is reported first is therefore not modelled.
- Tracker.PerformanceTracker.Update: `self.save(model)` is modelled only as a counter increment. A failure inside `save` is not modelled.
- The best-performance report after the update (lines 146-161) is left out. It reads `bestPerformance[1]['Hit Ratio']`, `['Precision']`, `['Recall']` and `['NDCG']`, and it raises KeyError when the snapshot lacks one of these.
- Left out because they are I/O or presentation:
  - the progress bar (`process_bar`, lines 51-56 and 228-233). Its output is left out. Its one fault, on an empty test set, is covered under Findings;
  - all printing and report formatting (lines 83-91, 97, 103, 146-161);
  - file, CSV, pandas and checkpoint writing (`evaluate`, `save`, `save_model`, `save_performance_row`, `save_loss_row`, `save_loss`, `save_perfomance_training`, lines 92-102 and 164-225);
  - `print_model_info` and the creation of the output directory (lines 30-39).
- The empty stubs `build`, `train` and `predict` (lines 41-48) have no behaviour to model.
- The numbers are unbounded integers. The float32 score array is not modelled. The sentinel -10e8 is exact in float32.

## Findings

| source | as written | input that shows it | evidently intended | confidence | as-written member | corrected member |
|---|---|---|---|---|---|---|
| base/kggraph_recommender.py:228-255 | after the loop, `process_bar(user_count, user_count)` computes `float(num) / total` | an empty test set: `user_count == 0`, so `float(0) / 0` raises ZeroDivisionError | an empty test set yields an empty `rec_list` | not executed; follows from the code as written | `Ranking.RecListAsWritten`, `Ranking.EmptyTestSetFailsAsWritten` | `Ranking.RecList` (used by `Ranking.Test`), with `Ranking.RecListShape` |
