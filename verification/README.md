# Vocabulary APP — a Dafny model of its word store, drills and import

Vocabulary APP is a desktop program for learning English–Turkish vocabulary.
The learner keeps named word sets in a SQLite database, edits and deletes them,
and practises a set in one of four ways:

- a flashcard drill;
- written recall in either direction;
- a multiple-choice test;
- a matching test that works in groups of ten.

The three scored exercises end on a shared result screen that rates the score.
A separate script imports word sets from a JSON dictionary file.

This project models that behaviour as pure functions over immutable data:

| file | module | what it models |
|---|---|---|
| `base.dfy` | `Base` | words, pairs, the error kinds, distinctness and flattening helpers |
| `text.dfy` | `Text` | Python's `str.strip()` and `str.lower()`, and the written-recall judge built from them |
| `shuffling.dfy` | `Shuffling` | `random.shuffle` as the Fisher–Yates swaps, and `random.sample` |
| `results.dfy` | `Results` | the result screen's percentage and its three message tiers |
| `word_store.dfy` | `WordStore` | the two tables; creating, editing and deleting a set; the working state and the committed state of the single connection |
| `flashcard.dfy` | `Flashcard` | the card screen: flip, know, don't know, skip, Return |
| `written_recall.dfy` | `WrittenRecall` | both written exercises: check, next, Return |
| `multiple_choice.dfy` | `MultipleChoice` | questions, options, submitting, recorded answers |
| `matching.dfy` | `Matching` | groups of ten, Turkish and English clicks, the running score |
| `json_import.dfy` | `JsonImport` | the import loop over sets and entries, and the `successed` counter |
| `edit_scenario.dfy` | `EditScenario` | what a rejected edit leaves behind, and what the atomic edit does instead |

Every random choice is an input:

- the shuffle draws;
- the sample positions;
- the coin for each card in mixed mode.

Every property therefore holds for every outcome of the random generator.

The database connection is one connection that is open for the program's whole
life and never rolls back. It is modelled as a pair of states:

- the working state, which later queries on the connection read;
- the committed state, which a restart sees.

Each drill is a step function over a session record. A `Run` function folds a
sequence of learner events through it. An invariant lemma then shows what
every reachable session satisfies.

## Model

| member | source | states |
|---|---|---|
| WordStore.FreshValid | VocabularyAPP.py:22-42 | A new database satisfies the schema invariant: set ids are positive and below the next id, and word ids within a set are distinct and below the next word id. |
| WordStore.CollectRows | VocabularyAPP.py:350-352 | Collecting editor rows keeps at most one pair per row, each with both fields non-empty and already stripped. The result is empty exactly when no row has two non-blank fields. |
| WordStore.CollectRowsComplete | VocabularyAPP.py:350-352 | Every row whose two stripped fields are non-empty appears, stripped, among the collected pairs. |
| WordStore.CollectRowsSound | VocabularyAPP.py:350-352 | Every collected pair is the stripped form of some kept row on the screen. |
| WordStore.CollectRowsAppend | VocabularyAPP.py:350-352 | Collecting keeps screen order: the rows of a screen split in two are the rows of the top part followed by those of the bottom part. |
| WordStore.Texts | VocabularyAPP.py:327-331 | A screen without destroyed rows is read as one pair of typed texts per row, in order. |
| WordStore.Inserted | VocabularyAPP.py:359-365 | Under `UNIQUE(set_id, english)` the insert loop gets through the longest prefix of the pairs that repeats no English term. It stops at a pair whose term occurs earlier, and it gets through all of them exactly when no term repeats. |
| WordStore.WithNewSet | VocabularyAPP.py:355-365 | Inserting a set and its pairs adds exactly one set under the next set id, named by the stripped name, that reads back as the pairs. Every other set is untouched, the store stays valid, and the row count grows by the number of pairs. |
| WordStore.NumberWords | VocabularyAPP.py:359-365 | Inserting pairs gives them consecutive fresh AUTOINCREMENT ids from the next word id, and reading the words back yields exactly the inserted pairs. |
| WordStore.Fetch | VocabularyAPP.py:128 | Selecting the words of an unknown set yields none. In a valid store the fetched words have distinct ids. |
| WordStore.AddedRows | VocabularyAPP.py:359-365 | Adding a set under the next set id increases `SELECT COUNT(*) FROM words` by its number of words. |
| WordStore.ReplacedRows | VocabularyAPP.py:519-535 | Replacing a set's words changes the row count by the difference between the new and old word counts. |
| WordStore.CreateSet | VocabularyAPP.py:344-367 | A blank name, a destroyed row or no complete row is rejected with nothing written. A repeated English term under `UNIQUE(set_id, english)` is rejected with nothing committed, but the set and the pairs before the repeat stay pending. Otherwise, and only then, the set is committed under a new id. Its name is the stripped name and its words are exactly the collected rows. Every other set is unchanged, and the row count grows by the number of words. |
| WordStore.Replaced | VocabularyAPP.py:519-535 | The set gets the new name and freshly numbered words that read back as the given pairs. The store stays valid, and the row count moves by the difference. |
| WordStore.SaveChanges | VocabularyAPP.py:512-537 | The edit as written. A blank name is rejected with nothing written. A destroyed row or no complete row is rejected after the rename and the deletion of every word: both stay pending in the working state, and the committed state is untouched. A repeated English term under `UNIQUE(set_id, english)` also leaves the pairs before the repeat pending. A save happens exactly when the name and rows are acceptable. It commits the set renamed and holding exactly the collected rows, and every other set is unchanged. |
| WordStore.SaveChangesAtomic | VocabularyAPP.py:512-537 | The edit validated before any write, including the repeated-term check. Every rejection leaves the database exactly as it was. A save happens exactly when the name and rows are acceptable, with the same result as the edit as written. |
| WordStore.AtomicAgreesOnValidEdits | VocabularyAPP.py:512-537 | The edit as written and the atomic edit always give the same verdict. They give the same database whenever the name is blank or the edit is acceptable. |
| WordStore.DeleteSet | VocabularyAPP.py:547-551 | Declining the prompt changes nothing. Confirming commits the removal of exactly that set and its words, and lowers the row count by the set's word count. |
| WordStore.CreateThenFetch | VocabularyAPP.py:350-367 | A saved set reads back, after the commit, as the collected rows of the screen: the same multiset of pairs in any case, and exactly that sequence in the model's id order. |
| WordStore.DeleteThenFetch | VocabularyAPP.py:548-551 | After a confirmed delete no word of the set can be read, either now or after a restart. |
| EditScenario.RejectedEditEmptiesSet | VocabularyAPP.py:519-531 | A valid name with no complete row, or with a destroyed row, leaves the set renamed and empty in the working state. The next successful new set commits that, and written recall on the set then ends in a division by zero. |
| EditScenario.RejectedEditUndoneByRestart | VocabularyAPP.py:529-531 | Without a later commit, a restart brings a rejected edit's set back as it was committed. |
| EditScenario.AtomicEditKeepsSet | VocabularyAPP.py:512-537 | With the atomic edit, the same sequence leaves the database as it was and keeps the set's name and words in the committed state. |
| EditScenario.RepeatedTermLeavesPartialSet | VocabularyAPP.py:355-367 | Under `UNIQUE(set_id, english)`, a new set whose rows repeat an English term is rejected with nothing committed. The next successful new set also commits the failed set, named by its stripped name and holding only the rows before the repeat, which is fewer than all of them. |
| Text.TrimSplit | VocabularyAPP.py:345 | A string is its stripped form with whitespace-only runs before and after it. |
| Text.TrimStripped | VocabularyAPP.py:345 | A stripped string has no whitespace character at either end. |
| Text.TrimUnique | VocabularyAPP.py:345 | Whitespace around a string with non-blank ends is removed exactly, so the stripped form is uniquely determined. |
| Text.TrimEmpty | VocabularyAPP.py:345-346 | A string strips to nothing exactly when it is all whitespace; this is what the blank-name and blank-field checks test. |
| Text.TrimIdempotent | VocabularyAPP.py:350-352 | Stripping a stored, already stripped term changes nothing. |
| Text.TrimIgnoresPadding | VocabularyAPP.py:622 | Whitespace added around an answer does not survive stripping. |
| Text.Lower | VocabularyAPP.py:622-623 | Lower-casing never shortens a string, and it gives the empty string only for the empty string. |
| Text.LowerAppend | VocabularyAPP.py:622-623 | Lower-casing works character by character: the lower-cased concatenation is the concatenation of the lower-cased parts. |
| Text.LowerIdempotent | VocabularyAPP.py:622-623 | Lower-casing twice is lower-casing once. |
| Text.LowerTrimCommute | VocabularyAPP.py:622 | Lower-casing and stripping commute. |
| Text.Judge | VocabularyAPP.py:622-625 | An accepted answer needs a stored term whose lower-cased form has no whitespace at either end. The stored term is empty exactly when the accepted answer is all whitespace. |
| Text.JudgeIgnoresCase | VocabularyAPP.py:622-625 | Answers that lower-case alike receive the same verdict. |
| Text.JudgeIgnoresPadding | VocabularyAPP.py:622-625 | Whitespace typed around an answer never changes the verdict. |
| Text.JudgeAcceptsStoredTerm | VocabularyAPP.py:622-625 | Typing back a stored term with no surrounding whitespace is judged correct. |
| Text.JudgeRejectsPaddedTerm | VocabularyAPP.py:622-625 | A stored term that starts with whitespace is never judged correct, whatever is typed. |
| Text.JudgeTrimmedAcceptsStoredTerm | VocabularyAPP.py:622-623 | With the stored term stripped too, the term's own stripped text is always accepted. On terms without padding, the verdict agrees with the judge as written. |
| Shuffling.Shuffle | VocabularyAPP.py:130 | `random.shuffle` permutes the list: the same length and the same multiset of elements. |
| Shuffling.ShuffleKeepsIds | VocabularyAPP.py:586 | Shuffled words keep their set of ids and keep those ids distinct. |
| Shuffling.StayDrawsKeepOrder | VocabularyAPP.py:130 | The draws that always pick the current position leave the list as it was, so the original order is among the possible shuffles. |
| Shuffling.Sample | VocabularyAPP.py:820 | `random.sample` returns, in pick order, the element at each pick position, so every element comes from the population. |
| Shuffling.SampleWithin | VocabularyAPP.py:820 | Sampling is without replacement: no element occurs in the sample more often than in the population. |
| Shuffling.SampleKeepsIds | VocabularyAPP.py:820 | A sample of words with distinct ids has distinct ids, all of them ids of the population. |
| Results.TierOf | VocabularyAPP.py:1020-1053 | A total of zero is a division by zero. Otherwise the tier is Excellent, Good or KeepPracticing exactly when 100·correct is at least 80·total, between 60·total and 80·total, or below 60·total. |
| Results.TierMatchesPercentage | VocabularyAPP.py:1023-1053 | The integer comparisons pick the same tier as comparing the exact percentage `correct / total * 100` with 80 and 60. |
| Results.TierMonotone | VocabularyAPP.py:1045-1053 | With the same total, more correct answers never lower the tier. |
| Results.FullMarksExcellent | VocabularyAPP.py:1045-1047 | An all-correct session gets the top message. |
| Flashcard.Start | VocabularyAPP.py:122-141 | The drill starts unflipped on a permutation of the set's words, with the mode's direction, and ends at once exactly when the set is empty. |
| Flashcard.Faces | VocabularyAPP.py:168-178 | Front and back are the current word's two terms, in the orientation that each fixed mode prescribes. |
| Flashcard.Advance | VocabularyAPP.py:233-236 | Moving on shows the next card unflipped and keeps the words and the mode. A fixed mode keeps its direction, and mixed mode takes the new card's coin. |
| Flashcard.Step | VocabularyAPP.py:212-245 | An event moves the cursor by at most one card. Moving shows the next card unflipped, with its direction tossed afresh. Staying keeps the direction, and a flipped card stays flipped. |
| Flashcard.StepButtons | VocabularyAPP.py:247-269 | Know and don't-know do nothing before the flip and advance after it. Skip always advances. Return flips first and advances second. |
| Flashcard.RunBounds | VocabularyAPP.py:149-157 | Any sequence of events keeps the words, moves at most one card per event, never passes the end, and keeps a fixed mode's direction on every card. |
| Flashcard.SkipThrough | VocabularyAPP.py:149-157 | Skipping once per remaining card ends the drill. |
| WrittenRecall.ExercisesMirror | VocabularyAPP.py:657-662 | The Turkish exercise reads the columns as (id, english, turkish). What one exercise shows, the other expects, and both use the two terms of one word. |
| WrittenRecall.Start | VocabularyAPP.py:579-594 | The exercise starts on a permutation of the set's words with a zero score. An empty set is not refused and ends at once. |
| WrittenRecall.CheckAnswer | VocabularyAPP.py:621-633 | A check locks checking and keeps the word and the cursor. The score rises by one exactly when the judge accepts the answer, and stays put otherwise. |
| WrittenRecall.Step | VocabularyAPP.py:621-650 | The score rises by one exactly when an unchecked word is checked and the stripped, lower-cased answer equals the lower-cased term. The cursor advances exactly when a checked word is moved past. A check locks the word until the next button. |
| WrittenRecall.ReturnKey | VocabularyAPP.py:650 | Return in the answer field acts as the check button before the check and as the next button after it. |
| WrittenRecall.RunKeepsInv | VocabularyAPP.py:593-650 | Whatever is clicked and typed, the score never runs ahead of the words answered, so an ended exercise reports at most one point per word. |
| WrittenRecall.Finish | VocabularyAPP.py:594-595 | An ended exercise's result is a division by zero exactly when the set was empty, and is the top tier exactly when at least 80 per cent were right. |
| WrittenRecall.EmptySetDividesByZero | VocabularyAPP.py:594-595 | Practising an empty set goes straight to the result screen's division by zero. |
| WrittenRecall.ScriptScores | VocabularyAPP.py:621-637 | Checking each remaining word once and moving on ends the exercise, and adds exactly the per-word count of accepted answers. |
| WrittenRecall.TypingTheTermsScoresAll | VocabularyAPP.py:621-633 | When no stored term has surrounding whitespace, typing each term back scores every word. |
| WrittenRecall.PaddedTermCapsScore | VocabularyAPP.py:622-623 | A stored term that begins with whitespace makes full marks impossible, whatever the answers. |
| MultipleChoice.Others | VocabularyAPP.py:819 | The other words are words of the set whose id differs from the question's word. |
| MultipleChoice.OthersCount | VocabularyAPP.py:819-820 | With distinct ids exactly one word is excluded, so there are `n - 1` candidate distractors. |
| MultipleChoice.Distractors | VocabularyAPP.py:819-822 | There is one distractor per pick, and each is the English term of a word of the set other than the question's word. |
| MultipleChoice.OthersDistinct | VocabularyAPP.py:819 | The other words keep the distinct ids of the set. |
| MultipleChoice.DistractorWords | VocabularyAPP.py:819-822 | The distractors are the English terms of `min(3, n - 1)` different words, none of them the question's word. With four or more words that is three other words, never the same word twice. |
| MultipleChoice.Options | VocabularyAPP.py:822-823 | A set of at least four words gets exactly four options. The English term is among them, and the options are a permutation of the term plus the distractors. |
| MultipleChoice.Start | VocabularyAPP.py:789-801 | Fewer than four words are refused before anything is shuffled. Otherwise the test starts on a permutation of the words with no answers. |
| MultipleChoice.Current | VocabularyAPP.py:819-836 | An open question always shows four options, one of them its English term. |
| MultipleChoice.Submit | VocabularyAPP.py:838-850 | An empty selection only warns. Otherwise the answer is recorded, the cursor advances, and the score rises exactly when the selected text equals the English term. |
| MultipleChoice.RightOptionScores | VocabularyAPP.py:838-845 | Some option always scores, whenever the English term is not empty. |
| MultipleChoice.SelectedScores | VocabularyAPP.py:842-844 | Selecting the option whose text is the question's English term raises the score by one. |
| MultipleChoice.RecordCounts | VocabularyAPP.py:843-847 | Appending an answer raises the count of right answers exactly when its selection equals its term. |
| MultipleChoice.SubmitKeepsInv | VocabularyAPP.py:838-850 | A submission keeps one record per answered question, in question order, with the score equal to the number of right records. |
| MultipleChoice.RunKeepsInv | VocabularyAPP.py:809-850 | Whatever is selected, an ended test has one record per word and a score of at most the word count, and its result screen never divides by zero. |
| Matching.ChunksShape | VocabularyAPP.py:892 | Up to ten words form one group. Longer lists are their first ten words followed by the groups of the rest. |
| Matching.ChunksFlatten | VocabularyAPP.py:892 | The groups concatenate back to the shuffled list. |
| Matching.ChunkSizes | VocabularyAPP.py:892 | Every group but the last holds ten words, and the last holds one to ten. |
| Matching.ChunkDistinct | VocabularyAPP.py:892 | A group of words with distinct ids has distinct ids. |
| Matching.Start | VocabularyAPP.py:884-934 | Fewer than three words are refused. Otherwise the test starts on a permutation of the words, cut into groups, at the first group with nothing selected, nothing matched and a zero score, a state that satisfies the test's invariant. |
| Matching.Step | VocabularyAPP.py:942-996 | A click on a matched or absent word does nothing. A Turkish click selects. An English click with no selection only hints. A wrong pair clears the selection. The score rises by one exactly when the English click matches the selected word. |
| Matching.MatchedBound | VocabularyAPP.py:969-974 | Distinct matched ids from one group cannot outnumber the group. |
| Matching.StepKeepsInv | VocabularyAPP.py:955-987 | A click keeps the score equal to the words of finished groups plus those matched in the current group, and the matched ids distinct and fewer than the group. |
| Matching.RunKeepsInv | VocabularyAPP.py:897-996 | Whatever is clicked, the score never exceeds the word count, and once every group is done it equals the word count. |
| Matching.TotalBound | VocabularyAPP.py:897-900 | A reachable score is at most the word count, and all of it once the last group is done. |
| Matching.FinishedIsExcellent | VocabularyAPP.py:897-900 | A finished matching test always shows the top message. |
| Matching.StartedTestScoresAll | VocabularyAPP.py:884-996 | From the start of a test, whatever is clicked, the score stays within the word count. A test that reaches the result screen has matched every fetched word and shows the top message. |
| JsonImport.ImportEntries | dict_to_database/dict_to_database.py:41-49 | The entries only append to the set. `successed` grows by the number of words added, which is at most the number of entries, and the word id advances by the same amount. |
| JsonImport.ImportedIds | dict_to_database/dict_to_database.py:41-46 | Inserted words get fresh ids, so a set keeps distinct ids below the next id. |
| JsonImport.ImportedEnglish | dict_to_database/dict_to_database.py:41-49 | After the entries, the set's English terms are its old ones plus the stripped key of every non-null entry, under either schema. |
| JsonImport.ImportedFromEntries | dict_to_database/dict_to_database.py:43-46 | Every inserted word comes from a non-null entry: its English term is the stripped key and its Turkish term is the value as given. |
| JsonImport.UniqueKeepsEnglishDistinct | dict_to_database/dict_to_database.py:27 | Under `UNIQUE(set_id, english)` a set never holds an English term twice. |
| JsonImport.WithoutUniqueOnlyNullsSkip | dict_to_database/dict_to_database.py:41-49 | Without the UNIQUE constraint only the null values are refused, so the counter is the number of non-null entries. |
| JsonImport.UniqueCountsNewKeys | dict_to_database/dict_to_database.py:27 | Under the UNIQUE constraint the counter is the number of distinct stripped non-null keys that the set did not already hold. |
| JsonImport.AddSet | dict_to_database/dict_to_database.py:36-49 | One top-level key adds exactly one set under the next set id, holding the imported words. The row count grows by the inserts counted. |
| JsonImport.ImportAll | dict_to_database/dict_to_database.py:33-55 | The loop keeps the store valid and adds one set id per key. The final `COUNT(*)` equals the old count plus `successed`, which never exceeds the number of entries in the file. |
| JsonImport.ImportKeepsOldSets | dict_to_database/dict_to_database.py:33-40 | The import only adds sets, under consecutive new ids, and leaves every existing set as it was. |
| JsonImport.AddedSet | dict_to_database/dict_to_database.py:36-49 | The set a key creates is named by the key and holds the stripped keys of its non-null entries, each at most once under the UNIQUE constraint. |
| JsonImport.ImportedSets | dict_to_database/dict_to_database.py:33-49 | Key `i` of the file becomes set `nextSetId + i`, with the key's name and its non-null entries' stripped English keys, and no duplicates under the UNIQUE constraint. |

## Left out

- The Tk user interface is not modelled:
  - widgets, colours, hover effects and message boxes;
  - the scrollable editors, adding rows on screen, and the exit and back buttons;
  - `clear_window`. Because it unbinds space and Return on every screen change, no handler from an earlier screen stays active, and the model has no stale handlers either.
- The set chooser (`select_set_for_practice`, VocabularyAPP.py:735-787) is not modelled. Each drill starts from the words of a chosen set, fetched with `Fetch`.
- Timestamps are not modelled: `created_date` and `datetime.now()` do not affect any behaviour modelled here. The order of the set list is not modelled either.
- The 500 ms red flash after a wrong pair in matching is not modelled. The selection is cleared at once, as in the code.
- The display shuffle of the English column in matching (VocabularyAPP.py:921) is not modelled: clicks name word ids, so the screen order does not matter.
- The error that follows a rejected edit's return (the screen stays open) is not modelled. The model keeps only the database effect.
- Floating-point formatting of the percentage (`%.1f`) is not modelled. The tier is decided in exact arithmetic, which agrees with the integer comparisons (`TierMatchesPercentage`).
- Python's full Unicode case mapping is not modelled. `Text.LowerChar` covers ASCII, Latin-1 and the Turkish capitals, and leaves other characters unchanged.
- The import script's file and database I/O and its `print` calls are not modelled.
  - JSON values other than strings and null are not modelled.
  - Duplicate keys, which the JSON parser collapses, are not modelled.
  - The `word_sets` insert's IntegrityError fallback (dict_to_database.py:38-40) is not modelled. The `name` column has no UNIQUE constraint, so that branch cannot run.
- `JsonImport.ImportAll` models the dictionary loop as a fold over the keys in file order.
- Which schema created the `words` table is an input (`unique`), for the import and for the application's saves alike. The application's `CREATE TABLE IF NOT EXISTS` (VocabularyAPP.py:32-40) has no UNIQUE constraint, but it keeps a table that the import script created first (dict_to_database.py:27).
- The delete button of an editor row is modelled only through its effect on the save: the row becomes `Destroyed`, and which rows were destroyed is part of the screen given to the save. The Tk error report that follows a `TclError` or an `IntegrityError` in a button handler is not modelled; the screen stays open, and the model keeps only the database effect.
- WordStore.Fetch: returns a set's words in id order. SQLite promises no order for a `SELECT` without `ORDER BY`, and under `UNIQUE(set_id, english)` it may return them by English term through the constraint's index. Only the multiset of words is order-free; every drill shuffles the fetched words with arbitrary draws first, so no modelled property depends on the order.
- WordStore.SaveChanges: requires the edited set to exist. The edit screen is only reachable from a listed set.
- Text.Trim: its contract states only that it never lengthens the string. What it computes is stated by `TrimSplit`, `TrimStripped`, `TrimUnique` and `TrimEmpty`.
- Shuffling.Shuffle: takes the random draws as input instead of drawing them, so it says nothing about the distribution.
- Shuffling.Sample: takes the sample positions as input, so it says nothing about the distribution.
- In two places the code evidently does not do what was meant, and the model follows the code:
  - the edit is not atomic: it writes before it validates;
  - the expected term in written recall is lower-cased but not stripped.

  Both are listed under Findings, each with a corrected member.

## Findings

| source | as written | input that shows it | evidently intended | confidence | as-written member | corrected member |
|---|---|---|---|---|---|---|
| VocabularyAPP.py:519-531 | The edit renames the set and deletes its words before it reads the rows and checks that any row survives, then returns without a commit or rollback. A row removed with its delete button stops it at the same point with a `TclError`. The next commit on the shared connection makes the emptied set permanent. | Edit a set, keep a valid name, blank every row and save (rejected), then create any other set. The edited set is committed with no words, and written recall on it divides by zero. | Validate before writing, so that a rejected edit leaves the set as it was. | not executed; follows from the order of statements and the single shared connection | EditScenario.RejectedEditEmptiesSet | WordStore.SaveChangesAtomic |
| VocabularyAPP.py:622-623, 700-701, dict_to_database/dict_to_database.py:46 | The answer is stripped, but the stored term is only lower-cased. The import script stores the Turkish value unstripped. | Import `{"s": {"book": " kitap"}}`, then practise written recall in Turkish. No answer matches `" kitap"`, so full marks are impossible. | Compare stripped forms on both sides, so that typing a term is always accepted. | not executed; follows from the two string expressions | WrittenRecall.PaddedTermCapsScore | Text.JudgeTrimmedAcceptsStoredTerm |
