# Basilisk bootstrapping, modelled in Dafny

This project models the core of `Basilisk.py`, a Basilisk-style (Thelen &
Riloff) mutual-bootstrapping learner for a semantic lexicon. Starting from a
few seed words of one category, each iteration does five things:

1. it scores every extraction pattern by RlogF, from how many lexicon words
   it was seen with;
2. it pools the best ten patterns, plus every pattern tied at rank ten, but
   never a zero-scored one;
3. it collects the head nouns of the pooled patterns as candidates;
4. it scores each candidate by the average of `log2(f + 1)` over all patterns
   holding it, where `f` is that pattern's lexicon hit count;
5. it appends the best five new candidates to the lexicon, plus every
   candidate tied with the fifth.

Files and modules:

- `seqs.dfy`
  - `Seqs`: duplicate-freedom, and first-occurrence order (`Dedup`).
  - `Dicts`: Python's insertion-ordered dictionaries, as a key list plus a
    map. Assigning to an existing key keeps its position.
- `patterns.dfy` (`Patterns`): `PatternContext` and the pattern table built
  from tokenised context lines (`parse_intial_patterns`).
- `scoring.dfy` (`Scoring`): the lexicon hit count (`semfreq` / `freq[i]`),
  RlogF, and the average log frequency. `np.log2` is a parameter `log2`.
  Only two laws of it are used: `log2(1) = 0`, and `log2(n) >= 0` for
  `n >= 1`.
- `ranking.dfy` (`Ranking`): Python's stable `sorted` by score, ascending or
  with `reverse=True`. It also defines "the K-th highest score" by counting,
  which does not depend on how ties are ordered, and the tie-aware top-K
  (`Plateau`).
- `engine.dfy` (`Bootstrapping`): the class `Basilisk`. Its fields are the
  pattern table, the lexicon, the pool, the candidate list, `avg_log` and
  `new_words`. Each step of an iteration is a method that updates them in
  place. `Run` is the iteration loop.
- `outputname.dfy` (`OutputName`): the trace-file name that `__main__`
  derives from the two input paths.

Scores are `real`. Only their order and equality matter to the selection
logic.

Points where the code's behaviour is easy to misread (the model follows the code):

- A pattern with no lexicon hit keeps its previous score; it is not reset
  to 0. Because the lexicon only grows, a pattern that once had a hit never
  drops back to none.
- Ties in both rankings keep the order of the table or of `avg_log`, as
  Python's stable sort does; there is no lexical secondary key.
- Each pattern's head nouns are a list in first-seen order, not a set.
- Candidate scoring lists every pattern of the table that holds the word,
  not only the pooled ones.

## Model

| member | source | states |
|---|---|---|
| `Dicts.Put` | Basilisk.py:79 | assigning a key keeps the dictionary valid; a known key keeps its position, a new key goes last; the entries are updated at that key only |
| `Patterns.LowerIdempotent` | Basilisk.py:42 | lower-casing a lower-cased word changes nothing |
| `Patterns.ScanLine` | Basilisk.py:34-39 | the head noun is the token just before the first `*`; the pattern id is the last token |
| `Patterns.AddOccurrence` | Basilisk.py:41-44 | recording an occurrence keeps every pattern's nouns non-empty and duplicate-free; a new id is appended to the key order; no other pattern changes |
| `Patterns.AddOccurrenceEffect` | Basilisk.py:41-44 | a new pattern starts with score 0 and exactly the lower-cased noun; a known one keeps its score and its nouns in order, and gains the lower-cased noun at the end only if it was absent |
| `Patterns.ParsePatterns` | Basilisk.py:30-46 | the table's ids are the lines' ids in first-seen order; each pattern has score 0 and its lines' lower-cased head nouns, first-seen order, each once |
| `Scoring.CountHits` | Basilisk.py:50-53 | the counting loop returns the number of lexicon entries found among the head nouns |
| `Scoring.SemFreqZeroIff` | Basilisk.py:50-55 | the hit count is 0 exactly when no lexicon word is among the head nouns |
| `Scoring.SemFreqBound` | Basilisk.py:50-53 | the hit count never exceeds the lexicon's length |
| `Scoring.SemFreqGrows` | Basilisk.py:50-53 | a longer lexicon never has fewer hits |
| `Scoring.RlogF` | Basilisk.py:57-59 | RlogF is non-negative for semfreq >= 1, and 0 for semfreq = 1 |
| `Scoring.SumLogs` | Basilisk.py:95-97 | the summing loop returns the sum of log2(f + 1) over the frequencies |
| `Scoring.SumLogBounds` | Basilisk.py:95-97 | that sum is never negative, and is 0 when every frequency is 0 |
| `Scoring.AvgLogBounds` | Basilisk.py:95-99 | a candidate's average log is never negative, and is 0 when none of its patterns hits the lexicon |
| `Ranking.SortByScore` | Basilisk.py:63 | `sorted` by score returns a permutation of the keys, ordered by score (ascending or descending); a duplicate-free input gives a duplicate-free output |
| `Ranking.SortStable` | Basilisk.py:63 | `sorted` is stable: for every score, the keys with that score appear in the ranking in their input order |
| `Ranking.InsertStable` | Basilisk.py:103 | inserting keeps the order among equal scores, with the inserted key before the others |
| `Ranking.Insert` | Basilisk.py:103 | inserting into a ranked list keeps it ranked and adds exactly the one element |
| `Ranking.KthHighestUnique` | Basilisk.py:66-67 | the K-th highest score is unique |
| `Ranking.KthHighestPermutation` | Basilisk.py:63 | the K-th highest score does not depend on the order of the keys |
| `Ranking.KthHighestExists` | Basilisk.py:66-67 | any K or more scored keys have a K-th highest score |
| `Ranking.AscendingThreshold` | Basilisk.py:66-67 | in an ascending ranking of n >= K keys, the score at index n - K is the K-th highest |
| `Ranking.DescendingThreshold` | Basilisk.py:109-110 | in a descending ranking, the score at index K - 1 is the K-th highest |
| `Ranking.PlateauPrefix` | Basilisk.py:107-116 | the tie-aware top-K is a prefix of the ranking with at least min(K, n) entries, and is all of it when n <= K |
| `Ranking.PlateauIsThreshold` | Basilisk.py:107-116 | on a descending ranking of at least K entries, an entry is in the top-K plateau exactly when its score is at least the K-th highest |
| `Ranking.PlateauMembers` | Basilisk.py:107-116 | the same, stated by membership, for a duplicate-free ranking |
| `Bootstrapping.RescoredFacts` | Basilisk.py:49-55 | rescoring keeps the head nouns and a non-negative score; a pattern with no lexicon word is left unchanged (iff); one hit scores 0; rescoring twice with one lexicon is rescoring once |
| `Bootstrapping.RescoredTable` | Basilisk.py:49-55 | rescoring every pattern keeps the table well formed with non-negative scores and unchanged head nouns |
| `Bootstrapping.RescoredAfter` | Basilisk.py:49-55 | rescoring against a lexicon and then against an extension of it is the same as rescoring against the extension once; a pattern's score after several rounds depends only on the last round's lexicon and its score before the first |
| `Bootstrapping.RoundTrailSnoc` | Basilisk.py:142-147 | a trail of rounds followed by one more round is a trail of rounds |
| `Bootstrapping.PoolFacts` | Basilisk.py:61-73 | the pool holds only ids of the table, none with score 0; when every score is 0 the pool is empty |
| `Bootstrapping.PoolDeterminedByScores` | Basilisk.py:61-73 | two pools of the same scores have the same members, however ties were ordered |
| `Bootstrapping.PoolChosen` | Basilisk.py:63-73 | the descending walk's stopping rule (zero score, or a score off the rank-10 tie, or the end) picks a pool that meets `IsPoolOf`: with n < 10 patterns, exactly the non-zero ones; otherwise exactly the non-zero ones scoring at least the 10th highest |
| `Bootstrapping.PooledCandidates` | Basilisk.py:75-79 | the candidates are exactly the head nouns of the pooled patterns, each a noun of the table |
| `Bootstrapping.PatternsWithMembers` | Basilisk.py:83-86 | a candidate's collected ids are exactly the table ids whose nouns contain it, each once |
| `Bootstrapping.CollectedIds` | Basilisk.py:81-98 | after collection every candidate lists at least one pattern id of the table, so the division at line 98 is never by zero |
| `Bootstrapping.FreqsAgreeWithScores` | Basilisk.py:89-93 | with an unchanged lexicon, the i-th frequency of a candidate is the hit count that score_patterns used: where it is non-zero the pattern's score is RlogF of it; where it is 0 the pattern is unchanged |
| `Bootstrapping.Frequencies` | Basilisk.py:89-93 | the nested counting loop gives, for each of the candidate's patterns, its lexicon hit count |
| `Bootstrapping.AverageOf` | Basilisk.py:89-99 | a candidate's score is the sum of log2(f + 1) over its patterns' frequencies, divided by their number |
| `Bootstrapping.AverageAll` | Basilisk.py:88-99 | the averaging loop fails exactly when some candidate has no pattern (the ZeroDivisionError); otherwise avg_log has the candidates' keys, in order, each with its average log |
| `Bootstrapping.PromotionBounds` | Basilisk.py:101-116 | the promoted words are distinct candidates not in the lexicon, at least min(5, k) of them, where k is the number of new candidates |
| `Bootstrapping.PromotionIsThreshold` | Basilisk.py:107-116 | with k >= 5 new candidates, a word is promoted exactly when it is a new candidate scoring at least the 5th-highest new-candidate score |
| `Bootstrapping.ExtendsTrans` | Basilisk.py:142-147 | appending distinct new words twice is appending distinct new words once |
| `Bootstrapping.Basilisk.constructor` | Basilisk.py:13-21 | the seeds are the lower-cased seed lines; the lexicon is a copy of them; the table is that of the context lines; pool, candidates, avg_log and new_words are empty; the engine's `log2` is the one given |
| `Bootstrapping.Basilisk.ScorePatterns` | Basilisk.py:48-55 | every pattern is rescored against the lexicon; ids, their order and head nouns are unchanged |
| `Bootstrapping.Basilisk.RescoreAll` | Basilisk.py:49-55 | the loop over the table rescores each pattern in place |
| `Bootstrapping.Basilisk.SortPatterns` | Basilisk.py:61-73 | the pool built meets `IsPoolOf` for the current scores, and is the top of the stable ascending ranking read from the end, in that order |
| `Bootstrapping.Basilisk.WalkPool` | Basilisk.py:65-73 | the walk pools the top of the ascending ranking, in descending order, and stops at a zero score or at the first score off the rank-10 tie |
| `Bootstrapping.Basilisk.GetCandidates` | Basilisk.py:75-79 | the candidate list maps exactly the pooled head nouns, in pool-then-noun order and each once, to empty lists |
| `Bootstrapping.Basilisk.AddPooledNouns` | Basilisk.py:77-79 | the outer loop over the pool adds every pooled pattern's nouns |
| `Bootstrapping.Basilisk.AddHeadNouns` | Basilisk.py:78-79 | the inner loop adds one pattern's nouns, each mapped to an empty list |
| `Bootstrapping.Basilisk.CollectPatterns` | Basilisk.py:83-86 | each candidate's list is extended by the ids, in table order, of the patterns whose nouns contain it |
| `Bootstrapping.Basilisk.AddToCandidates` | Basilisk.py:84-86 | one pattern's id is appended to the list of exactly the candidates among its nouns |
| `Bootstrapping.Basilisk.AverageLogs` | Basilisk.py:82-99 | avg_log is reset and refilled; it fails exactly when some candidate has no pattern |
| `Bootstrapping.Basilisk.ScoreCandidates` | Basilisk.py:81-99 | every candidate lists all table patterns holding it, non-empty, and gets its average log over them; avg_log has the candidates' keys |
| `Bootstrapping.Basilisk.SortCandidates` | Basilisk.py:101-116 | the lexicon becomes the old lexicon followed by the promoted words; new_words has exactly those keys, each with its avg_log score |
| `Bootstrapping.Basilisk.PromoteRanked` | Basilisk.py:104-116 | the loop over the descending ranking appends the tie-aware top-5 plateau of the not-yet-known words, to the lexicon and to new_words |
| `Bootstrapping.Basilisk.PatternSteps` | Basilisk.py:143-145 | after the pattern half of a round, patterns are rescored, the pool meets `IsPoolOf` in walk order, and the candidates are the pooled nouns in first-seen order, with empty lists |
| `Bootstrapping.Basilisk.CandidateSteps` | Basilisk.py:146-147 | after the candidate half, the candidates list their patterns, avg_log holds their scores against the lexicon of the round's start, and the promoted words are appended; new_words holds exactly the promoted words, each with its avg_log score |
| `Bootstrapping.Basilisk.Round` | Basilisk.py:143-147 | one iteration (`RoundStep` from the old state to the new one): rescoring against the starting lexicon, a pool meeting `IsPoolOf` in walk order, candidates exactly the pooled nouns in first-seen order listing all their patterns (non-empty, distinct, table order), their average logs, the lexicon extended by the promoted words in ranked order, and new_words holding exactly those words, each with its avg_log score |
| `Bootstrapping.Basilisk.Run` | Basilisk.py:142-147 | across all iterations the lexicon only grows: the old lexicon is a prefix, and the appended words are distinct and new; the table's ids and head nouns never change; zero iterations change neither the lexicon, the table nor the pool; otherwise the final state is what the last round (`RoundFrom`) made of a lexicon `L` that extends the initial one, and every pattern is its initial self rescored against `L` (a pattern never hit keeps its initial score); there is a trail of exactly numIterations + 1 states from the initial to the final one, each taken to the next by one `RoundStep` |
| `Bootstrapping.Basilisk.RunDefault` | Basilisk.py:138-147 | `run` with its default of 5 iterations keeps the same guarantees as `Run`, including a trail of exactly 5 `RoundStep`s from the initial state to the final one |
| `OutputName.LastIndexOf` | Basilisk.py:159-163 | the result is the index of the last occurrence of the character, or -1 exactly when it does not occur |
| `OutputName.Slice` | Basilisk.py:173 | Python's `p[s:e]` has length e - s when s < e and is empty otherwise, and holds p's characters from s on |
| `OutputName.StemFacts` | Basilisk.py:157-173 | the stem is empty when the last `-` is not after the last `/`; otherwise it is exactly the characters between them; it never holds a `/` |
| `OutputName.StemOfNamedPath` | Basilisk.py:157-173 | the stem of `dir/name-rest` or `name-rest` (no `/` in name or rest, no `-` in rest) is `name` |
| `OutputName.ScanPath` | Basilisk.py:157-171 | the scan returns one past the last `/` (or 0) and the index of the last `-` (or 0) |
| `OutputName.OutFile` | Basilisk.py:173 | the output name is the seed stem, `-`, the context stem, and holds no `/` |

## Left out

- Reading the seed and context files, including the `[:-1]` that strips
  the newline (Basilisk.py:24-27, 32-33). The constructor takes the seed
  lines and the tokenised context lines directly.
- `str.split`: context lines are given as token sequences.
- Patterns.Lower: handles the ASCII letters only. Python's Unicode case
  mapping is not modelled.
- Lines with no `*`, or with `*` as the first token. On those the source
  raises an `IndexError` (no `*`), raises an `UnboundLocalError` (`*` first
  on the first line), or reuses the previous line's `head_noun` (`*` first
  on a later line). The model requires
  a `*` at an index of 1 or more (`WellFormedLine`).
- Trace writing: `print_iter`, the float rounding and formatting, and
  opening and closing the trace file (Basilisk.py:119-141, 148-149).
  `Run` performs only the iteration steps.
- Scoring.RlogF: `np.log2` and floating-point arithmetic. Scores are
  exact reals, and `log2` is an unspecified function of which only
  log2(1) = 0 and log2(n) >= 0 for n >= 1 are assumed. No numeric value
  such as rlogf(4, 8) = 1.0 is proved. Because of rounding, two scores
  that are equal as reals can differ as floats (an `avg` summed in a
  different order, say), so the equality tests at Basilisk.py:68 and
  Basilisk.py:111 can settle a tie at rank 10 or rank 5 differently from
  the model.
- `sys.argv` handling (Basilisk.py:153-155). `OutputName.OutFile` takes
  the two paths as parameters. The call `basilisk.run(out_file)` only
  names the trace file, so it is not modelled beyond the name.
- `num_iterations` defaults to 5 in the source. The model keeps this as
  the constant `DefaultIterations`, used by `RunDefault`.
