# Wordle solver — a verified model

This project models the core of a Wordle solver written in Python.

**The feedback engine** is `get_feedback` in solvers.py. It scores a guess against a secret word in two passes:

- Exact letters get code 1.
- Misplaced letters get code 0, drawn from a pool of the word's unmatched letters.
- Everything else gets -1.

The same two-pass scorer appears twice more:

- Tools/game.py writes coloured squares instead of codes.
- solver.py, an older solver, counts the whole answer first with `Counter`.

main.py has a naive membership-only scorer.

**The candidate store** is the `Handler` and `PositionHandler` classes:

- They keep the remaining candidate words and the green (known) positions.
- They filter the candidates with `match_feedback`.
- They hand out a memoised first guess.

**The strategies** build a guess from the candidates:

- Bayesian: the greatest entropy of the feedback classes.
- Minimax: the smallest largest feedback class.
- Heuristic: the greatest positional letter frequency.
- Fixed: the middle candidate.

`PositionHandler` then back-fills the green positions with frequent letters.

**The decision cache** is `TreeDB` in decision_tree.py. It memoises guesses in a table of (id, feedback label, guess, parent id) rows.

## How the model is organised

- `common.dfy` (`Common`) holds the Python semantics the core relies on:
  - `dict.get`, and letter counts.
  - `max(key=...)`, which returns the first maximum.
  - Insertion-ordered dictionaries as `seq<(K, nat)>`.
  - Stable `sorted`.
- `feedback.dfy` (`Feedback`) holds the scorer and the matcher of solvers.py:
  - Each is a closed-form specification plus a method with the source's loops, proved equal to it.
  - Filtering by the matcher.
- `strategies.dfy` (`Strategies`) holds the four `construct_guess` strategies as specification functions, plus the methods that compute them.
- `positions.dfy` (`Positions`) holds `PositionHandler.get_counts` and the back-filling of green positions.
- `handler.dfy` (`Solvers`) holds the solver class that `create(solver, handler)` builds:
  - It is one class `Handler`, whose `strategy` and `kind` say which two Python classes were combined.
  - Method resolution is respected: `construct_guess` and HeuristicSolver's `get_counts` come from the strategy, and `make_guess` from the handler.
- `decision_tree.dfy` (`DecisionTree`) holds the `TreeDB` class over an in-memory table, and the functional `Step`/`Run` model of `get_node`.
- `legacy_solver.dfy` (`LegacySolver`) holds solver.py.
- `game.dfy` (`Game`) holds Tools/game.py.
- `naive_game.dfy` (`NaiveGame`) holds main.py.

## Behaviour worth knowing

- **Matcher.** The comment on `match_feedback` (solvers.py:59) calls it a modified and faster version of `get_feedback`, so one would expect it to accept exactly `get_feedback(guess, word) == feedback`. It does not: it accepts feedback that the scorer would never produce for that word. `Feedback.MatcherIncomplete` shows this with "AAC" against "CAX" and feedback [0, -1, 0]. Only the direction "the true feedback is accepted" holds (`Feedback.RoundTrip`).
- **`PositionHandler.get_counts`** resets its counter for every free position and then doubles it in place. Its comment (solvers.py:132) speaks of the overall letter frequency at free positions. What it returns is twice the letter counts of the *last* free position, not counts over all free positions. If that position has a single letter, it is locked and the counts are returned as they are (once).
- **Empty candidate list.** The handlers index `self.words[0]`, so an empty candidate list raises IndexError. It does not give a dedicated "no guess". The model returns `None` there.
- **Root lookup.** The decision cache finds the root guess by `id = 1` (decision_tree.py:29-31). In the model, the empty feedback list `[]` stands for `None`: both take the root branch, because both are false in Python. On a miss, the model stores a row with a NULL label, which is what `None` gives.
- **Green positions.** Filtering only sets a flag per position; it does not store the letter.

## Model

| member | source | states |
|---|---|---|
| Common.FirstMax | solvers.py:144 | `max(seq, key=...)`: the index of an element with the greatest key, with every earlier element strictly smaller (the first maximum wins) |
| Common.HistogramFacts | solvers.py:193-195 | counting into a `defaultdict(int)` gives distinct keys, positive counts, each key's count equal to its occurrences, keys exactly the letters present, counts summing to the length |
| Common.AddAllFacts | solvers.py:205-206 | adding every entry of one dictionary into another adds their totals key by key and keeps keys distinct |
| Common.DoubleFacts | solvers.py:133-134 | `counts[key] += value` over `counts.items()` keeps the keys and doubles every count |
| Common.RemoveFacts | solvers.py:106-108 | `del counts[k]` removes exactly that key, leaves every other total alone, and keeps keys distinct |
| Common.SortFacts | solvers.py:201 | `sorted(..., key=count)` returns a permutation of the entries ordered by count |
| Common.SortKeys | solvers.py:110 | sorting keeps the same keys with the same totals and keeps them distinct |
| Feedback.ExactPass | solvers.py:11-19 | after the first pass, position k holds 1 iff it is an exact match and -1 otherwise, and `target_counts[c]` is the number of non-exact zipped word positions holding c |
| Feedback.MisplacedPass | solvers.py:21-25 | the second pass, started from the exact marks and the letter pool, yields the marks in which a non-exact position is 0 iff the number of earlier non-exact occurrences of its letter is below that letter's pool count, and -1 otherwise |
| Feedback.SpendStep | solvers.py:22-25 | one step of the second pass: only the current letter's remaining pool changes, dropping by one exactly when that position is marked 0 |
| Feedback.Score | solvers.py:9-27 | the closed form of `get_feedback`: one code per guess letter; 1 at a zipped position with equal letters; otherwise 0 when the number of earlier non-exact occurrences of that letter is below its pool of unmatched word letters, else -1 |
| Feedback.GetFeedback | solvers.py:9-27 | the two loops compute exactly the closed-form score `Score(guess, word)` |
| Feedback.ScoreShape | solvers.py:11-19 | the score has the guess's length, uses only the codes -1, 0 and 1, and is 1 exactly at the zipped positions where the letters agree |
| Feedback.ScoreTallies | solvers.py:19-25 | on any prefix, a letter gets as many 0s as the smaller of its non-exact occurrences and its pool, and its credited positions are its exact ones plus those 0s |
| Feedback.ExactPlusPool | solvers.py:15-19 | on the zipped prefix, a letter's exact matches plus its pool equal its occurrences in the word |
| Feedback.ExactOfZip | solvers.py:15 | positions past the end of the shorter word (cut off by `zip`) add no exact matches |
| Feedback.ScoreCreditsBounded | solvers.py:9-27 | for every letter, the positions scored 1 or 0 never outnumber that letter's copies in the word |
| Feedback.ScoreAbsentLetter | solvers.py:22-25 | a guess letter absent from the word is always scored -1 |
| Feedback.ScoreSpeedErase | solvers.py:9-27 | duplicate letters: "SPEED" against "ERASE" scores [0, -1, 0, 0, -1] |
| Feedback.CheckExact | solvers.py:60-66 | the first loop accepts exactly when every 1 sits on equal letters, and then holds, per letter, the word positions not marked 1 |
| Feedback.CheckMisplaced | solvers.py:68-72 | the second loop accepts exactly when every 0 sits on unequal letters and finds an unclaimed copy, and then holds the pool less the claimed copies |
| Feedback.CheckAbsent | solvers.py:74-76 | the third loop accepts exactly when no -1 letter has a copy left in the pool |
| Feedback.Consistent | solvers.py:58-78 | what `match_feedback` accepts: every 1 sits on equal letters; every 0 sits on unequal letters and finds an unclaimed copy in the pool of word letters not marked 1; no -1 letter has a copy left after the 0s |
| Feedback.MatchFeedback | solvers.py:58-78 | `match_feedback` returns true exactly when the three rules hold (`Consistent`) |
| Feedback.RoundTrip | solvers.py:58-78 | for equal-length words, the matcher accepts the word against its own score |
| Feedback.ConsistentSound | solvers.py:58-78 | accepted feedback is right about every 1 and every 0, and a -1 letter has all its unmatched copies claimed by 0s |
| Feedback.MatcherIncomplete | solvers.py:58-78 | the matcher accepts [0, -1, 0] for "AAC" against "CAX", whose real score is [-1, 1, 0] |
| Feedback.Filter | solvers.py:54 | the list comprehension: the candidates the matcher accepts, in their order |
| Feedback.FilterSnoc | solvers.py:54 | filtering a list extended by one word keeps that word exactly when the matcher accepts it |
| Feedback.FilterKeeps | solvers.py:54 | filtering keeps a subsequence, with every accepted word as often as before and every rejected word gone |
| Feedback.FilterIdempotent | solvers.py:54 | filtering twice by the same guess and feedback is the same as filtering once |
| Feedback.FilterKeepsSecret | solvers.py:52-56 | filtering by the true feedback never removes the secret word |
| Strategies.CountColumn | solvers.py:193-195 | counting column i over the candidates gives the histogram of that column in first-seen order |
| Strategies.SingleLetterColumn | solvers.py:197-199 | a column has exactly one letter iff there are candidates and all of them agree at that position |
| Strategies.FeedbackHistogram | solvers.py:169-172 | grouping the candidates by feedback gives the histogram of their scores |
| Strategies.FeedbackPartition | solvers.py:169-175 | the feedback classes are non-empty, their sizes sum to the number of candidates, and every candidate's score is a class |
| Strategies.WorstCase | solvers.py:169-175 | the size of the largest group of candidates sharing one feedback for the guess |
| Strategies.WorstCaseFacts | solvers.py:175 | the worst case is the size of the largest class: at least every candidate's class size, attained by one, between 1 and the number of candidates |
| Strategies.GroupWorstCase | solvers.py:169-175 | the per-guess loop computes the worst case |
| Strategies.MinimaxIndex | solvers.py:162-182 | minimax picks a candidate with the smallest worst case, strictly smaller than every earlier one (the strict `<` keeps the first) |
| Strategies.MinimaxGuess | solvers.py:162-182 | the nested loops return no guess on no candidates, and otherwise the minimax candidate |
| Strategies.BayesianIndex | solvers.py:142-158 | Bayesian search picks the first candidate with the greatest information gain |
| Strategies.FixedIndex | solvers.py:230-231 | FixedSolver picks index `len // 2`: a valid index k with 2k <= len < 2k + 2 |
| Strategies.LockedFacts | solvers.py:190-199 | after the scan, a position is green iff it was green or all candidates agree there |
| Strategies.Overall | solvers.py:188-206 | `counts_overall` after the first n positions: the sorted column counts of every position not locked, merged in position order |
| Strategies.OverallTotals | solvers.py:204-206 | `counts_overall` has distinct keys, and each letter's total is its number of occurrences at free positions over all candidates |
| Strategies.FrequencyIsAgreement | solvers.py:211-218 | a word's frequency is the number of (candidate, free position) pairs where the candidate has the word's letter |
| Strategies.HeuristicIndex | solvers.py:209-218 | the heuristic picks the first candidate with the greatest frequency |
| Strategies.ComputeFrequency | solvers.py:211-218 | the loop sums the per-position counts of the guess's letters at free positions |
| Positions.LastFreeCounts | solvers.py:118-136 | what `PositionHandler.get_counts` returns: a fresh counter per free position, so the last free column's counts, doubled in place unless that column has a single letter (which is locked and skipped), or empty with no free position |
| Positions.LastFreeSkipsGreen | solvers.py:122-123 | green positions after the last free one change nothing in `get_counts` |
| Positions.LastFreeTotals | solvers.py:118-136 | `get_counts` returns counts equal to twice the occurrences in the last free column, or once when that column has a single letter |
| Positions.NoFreeNoCounts | solvers.py:118-136 | with no free position, `get_counts` returns an empty dictionary |
| Positions.PrunedFacts | solvers.py:106-108 | deleting the letters the guess uses at free positions removes exactly those letters and leaves the other totals alone |
| Positions.PruneCounts | solvers.py:106-108 | the deletion loop computes the pruned counts |
| Positions.FillGreen | solvers.py:112-114 | the back-filling loop pops the sorted letters into green positions in order |
| Positions.PositionFill | solvers.py:104-116 | the back-filling branch of `PositionHandler.make_guess`: when some position is green, delete the letters used at free positions, sort the rest by count and pop them into the green positions left to right; otherwise the guess and the counts unchanged |
| Positions.FillPositions | solvers.py:101-116 | back-filling keeps the guess's length, changes nothing when no position is green, and keeps every position it does not fill |
| Positions.FilledLetter | solvers.py:110-114 | a filled position gets the letter of its rank from the top of the sorted pruned counts; that letter comes from the counts and is unused at free positions |
| Positions.FilledPair | solvers.py:110-114 | two filled positions get different letters, the earlier one a letter counted at least as often |
| Positions.FillLetters | solvers.py:104-114 | every filled letter comes from the counts and is unused at free positions; filled letters are pairwise distinct and in non-increasing count order |
| Solvers.Construct | solvers.py:142-231 | every strategy's `construct_guess` returns a candidate of the right length and never clears a green position |
| Solvers.GetCounts | solvers.py:118-136 | the `get_counts` method resolution picks: PositionHandler's (these lines) for every strategy but the heuristic, whose own `get_counts` (solvers.py:220-221) returns `counts_overall` and locks nothing |
| Solvers.Propose | solvers.py:80-116 | `make_guess` after the first guess: no guess on no candidates (the source raises IndexError), the first candidate when at most two remain, otherwise the strategy's guess, back-filled by PositionHandler |
| Solvers.ProposeFacts | solvers.py:80-116 | `make_guess` has a guess iff there are candidates; the guess has the word length; green positions stay green; with `Handler` the guess is a candidate |
| Solvers.PositionalKeepsFreeLetters | solvers.py:101-116 | PositionHandler changes only green positions of the constructed guess |
| Solvers.MergeCounts | solvers.py:205-206 | the merge loop adds one column's counts into `counts_overall` |
| Solvers.DoubleCounts | solvers.py:133-134 | the in-place loop doubles every count |
| Solvers.Tabulate | solvers.py:187-206 | the position scan computes the green positions, `counts_overall` and the per-position tables of the heuristic |
| Solvers.TabulateOne | solvers.py:191-206 | one position of the scan locks it or adds its column to `counts_overall` |
| Solvers.FrequencyArgmax | solvers.py:209 | the argmax loop returns the heuristic's index |
| Solvers.Handler.constructor | solvers.py:33-43 | a new solver holds the whole dictionary and re-arms the first guess; its memoised first guess, green positions and `counts_overall` are what `make_guess` proposes from an all-free start (it may lock single-letter positions) |
| Solvers.Handler.Reset | solvers.py:45-50 | `reset` restores the dictionary, clears the green positions and re-arms the first guess |
| Solvers.Handler.FilterWords | solvers.py:52-56 | the candidates become those the matcher accepts, and position i is green iff it was green or the feedback there is 1 |
| Solvers.Handler.MakeGuess | solvers.py:80-116 | the first call returns the memoised guess; later calls return the proposal of the strategy and handler, with its green positions and counts |
| Solvers.Handler.FillGuess | solvers.py:101-116 | PositionHandler's tail: `get_counts`, then back-filling of the green positions |
| Solvers.Handler.ConstructGuess | solvers.py:142-231 | `construct_guess` of the chosen strategy |
| Solvers.Handler.HeuristicConstruct | solvers.py:186-209 | HeuristicSolver locks single-letter positions, sets `counts_overall` and returns the heuristic's candidate |
| Solvers.Handler.TabulatePositions | solvers.py:187-208 | the scan stores the locked positions and `counts_overall` in the object |
| Solvers.Handler.PositionCounts | solvers.py:118-136 | PositionHandler's `get_counts` locks single-letter positions and returns the doubled counts of the last free position |
| DecisionTree.Label | decision_tree.py:27 | `''.join(map(str, feedback))`: the decimal strings of the codes, concatenated |
| DecisionTree.LabelLength | decision_tree.py:27 | the text label has one character per code plus one for each -1 |
| DecisionTree.LabelInjective | decision_tree.py:27 | different feedback lists get different labels |
| DecisionTree.Lookup | decision_tree.py:25-33 | the query returns the first matching row, and no row matches when it returns nothing |
| DecisionTree.Step | decision_tree.py:24-46 | one `get_node` call: on a hit, move to the found row and return its guess; on a miss, call `make_guess`, append a row with the next id, the label (NULL for the root) and the current node as parent, and move to it |
| DecisionTree.StepFacts | decision_tree.py:24-46 | a hit returns the stored guess and leaves the table alone; a miss calls `make_guess` once and appends one row under the current node with a larger id |
| DecisionTree.StepValid | decision_tree.py:38-44 | inserting keeps ids consecutive and at most one child per (parent, label) |
| DecisionTree.LookupExtend | decision_tree.py:28-33 | a row found stays the row found after more rows are inserted |
| DecisionTree.Run | decision_tree.py:24-46 | one `get_node` call per feedback in a sequence, collecting the guesses |
| DecisionTree.RunFacts | decision_tree.py:24-46 | a sequence of calls keeps the table valid, only appends to it, and returns one guess per call |
| DecisionTree.Replay | decision_tree.py:24-46 | replaying the same feedback sequence on the grown table returns the same guesses with no `make_guess` call |
| DecisionTree.TreeDB.constructor | decision_tree.py:5-22 | a cache starts at node 0 over a valid table |
| DecisionTree.TreeDB.GetNode | decision_tree.py:24-46 | `get_node` moves the object exactly as `Step` says and keeps the table valid |
| LegacySolver.Counter | solver.py:13 | `Counter(answer)` maps every letter to its number of occurrences |
| LegacySolver.ExactBounded | solver.py:16-19 | exact matches never exceed a letter's occurrences; when the guess is at least as long, what is left equals the two-pass pool |
| LegacySolver.LegacyScore | solver.py:10-27 | the closed form of solver.py's `get_feedback`: 1 at exact matches; otherwise 0 when the number of earlier non-exact occurrences of the letter is below its copies in the whole answer less its exact matches, else -1 |
| LegacySolver.LegacyFeedback | solver.py:10-27 | the two loops compute `LegacyScore` |
| LegacySolver.LegacyAgrees | solver.py:10-27 | when the guess is at least as long as the answer, the legacy score equals the solvers.py score |
| LegacySolver.LegacyLongerAnswer | solver.py:10-27 | with a longer answer the scores differ: "A" against "BA" gives [0] here and [-1] in solvers.py |
| LegacySolver.LegacyCheckExact | solver.py:41-45 | the first loop accepts iff every 1 sits on equal letters and every -1 letter is absent from the word |
| LegacySolver.LegacyCheckMisplaced | solver.py:48-52 | the second loop accepts iff every 0 letter is in the word, not at that position, and has a copy left |
| LegacySolver.LegacyConsistent | solver.py:37-54 | what solver.py's `match_feedback` accepts: at every checked position a 1 is an exact match, a -1 is a letter absent from the word, and a 0 is a letter of the word at another position with a copy left after the earlier 0s of that letter |
| LegacySolver.LegacyMatch | solver.py:37-54 | `match_feedback` returns true iff both rules hold |
| LegacySolver.LegacySound | solver.py:37-54 | accepted feedback is right about every 1 and every 0, its -1 letters are absent from the word, and no letter is claimed more often than it occurs |
| LegacySolver.LegacyRoundTrip | solver.py:37-54 | a word accepts its own score iff no -1 of that score falls on a letter the word contains |
| LegacySolver.LegacyRejectsAnswer | solver.py:41-45 | "AA" against "AB" scores [1, -1], and the matcher rejects the answer itself for it |
| LegacySolver.LegacyFilter | solver.py:35 | the list comprehension: the candidates the legacy matcher accepts, in their order |
| LegacySolver.LegacyFilterSnoc | solver.py:35 | filtering a list extended by one word keeps that word exactly when the matcher accepts it |
| LegacySolver.LegacyFilterKeeps | solver.py:35 | filtering keeps a subsequence, with every accepted word as often as before and every rejected word gone |
| LegacySolver.JoinOcc | solver.py:64 | counting `"".join(words)` counts each letter over all candidates |
| LegacySolver.LettersFacts | solver.py:68 | `set(word)`: exactly the word's letters, each once |
| LegacySolver.WordScore | solver.py:67-71 | `word_score`: the occurrences over all candidates of each distinct letter of the word, summed, plus twice the number of distinct letters |
| LegacySolver.LegacyIndex | solver.py:64-73 | the guess is the first candidate with the greatest frequency-plus-diversity score |
| LegacySolver.Solver.constructor | solver.py:30-32 | a solver starts with the given words |
| LegacySolver.Solver.FilterWords | solver.py:34-35 | the candidates become those the legacy matcher accepts |
| LegacySolver.Solver.MakeGuess | solver.py:56-73 | no guess iff no candidates, the only candidate when one is left, otherwise the best-scoring candidate |
| Game.PaintDecode | Tools/game.py:15-22 | squares and codes convert into each other without loss |
| Game.GameFeedback | Tools/game.py:7-25 | the emoji scorer paints exactly the solvers.py score |
| Game.GameFacts | Tools/game.py:9-25 | one square per guess letter, 🟩 exactly at exact matches, read back as the solvers.py score, and never more 🟩/🟨 on a letter than its copies in the word |
| NaiveGame.NaiveFeedback | main.py:7-17 | main.py's `get_feedback`: one square per zipped position, 🟩 on equal letters, 🟨 on a letter found anywhere in the answer, ⬜ otherwise, joined by single spaces |
| NaiveGame.Symbols | main.py:10-16 | one square per zipped position |
| NaiveGame.JoinSpaced | main.py:17 | joining n >= 1 squares with spaces gives 2n-1 characters, and no squares give the empty string |
| NaiveGame.JoinSpacedLayout | main.py:17 | squares sit at even positions with a space between each two |
| NaiveGame.NaiveFacts | main.py:9-17 | for equal lengths L >= 1: 2L-1 characters; square i is 🟩 iff the letters agree, 🟨 iff they differ but the letter occurs in the answer, ⬜ iff it does not occur |
| NaiveGame.NaiveOverCredits | main.py:10-16 | against the two-pass scorer: the same 🟩s, and 🟨 wherever it gives 0 |
| NaiveGame.NaiveIgnoresMultiplicity | main.py:10-17 | "AA" against "BA" gives "🟨 🟩" where the two-pass scorer gives [-1, 1] |

## Left out

- RandomSolver (`random.choice`) is not modelled. Through method resolution it would replace `make_guess` entirely.
- File loading (`load_words`), the interactive `main` loops, the GUI and console I/O are not modelled.
- `create(...)` class construction and `__repr__` are not modelled. A `Handler` carries the combination as its `strategy` and `kind` constants.
- SQLite is not modelled: the connection, `CREATE TABLE`, `commit` and `close`. The table is an in-memory sequence of rows, and `lastrowid` is the next consecutive id.
- Strategies.BayesianIndex: the base-2 Shannon entropy is a floating-point computation. It is a parameter of the strategy, applied to the class sizes, and returns an integer ranking. The model proves the argmax, not any property of the entropy.
- Solvers.Handler.HeuristicConstruct: `counts_positions` is kept as a local value rather than a field, because nothing outside `construct_guess` reads it.
- Solvers.Handler.MakeGuess returns `None` on an empty candidate list, where the source raises IndexError.
- Solvers.Handler.constructor requires a non-empty dictionary. The source raises IndexError at `len(db[0])` (solvers.py:36) on an empty one.
- DecisionTree.Step: a call with the literal empty list `[]` that misses the root is not modelled. The source passes the list itself to the `INSERT` (decision_tree.py:39-41), which sqlite3 cannot bind. The model stores a NULL label, as the source does for `None`.
- Solvers.Handler.FilterWords requires a feedback list at least as long as the words, where the source raises IndexError.
- LegacySolver.LegacyMatch requires the word to be at least as long as the shorter of the guess and the feedback. The source reads `word[i]` only where the feedback is 1, or is 0 with the letter in the word (solver.py:42-50), and raises IndexError only when such a position lies past the end of the word. Calls with a shorter word where every position past its end holds a -1, or a 0 on a letter the word lacks, return a result in the source without raising; the model does not cover them.
- DecisionTree.TreeDB.GetNode: `make_guess` is an oracle indexed by how many times it has been called, since its result depends on solver state outside the cache.
- `Solver.guessed_answer` in solver.py is initialised and never read, so it is not modelled.
- All words are assumed to have the dictionary's length. Zip truncation is still modelled in the scorers, which accept words of any length.
- FixedSolver's `pos` argument is always 2 in the source and is fixed at 2 here.
