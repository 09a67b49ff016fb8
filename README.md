# Logos vocabulary drill — a Dafny model

Logos is a browser application for drilling Koine Greek vocabulary. A learner
starts a session of ten words drawn from a fixed catalog of 25 entries. For
each word they type either the English meaning (Greek-to-English mode) or the
Greek word (English-to-Greek mode). The card judges the guess. The application
then updates the learner's progress record for that word: counters, a last-tested
time and a mastery level from 0 to 5 in half-level steps. The home screen shows
statistics and mastery bars computed from those records. A lexicon screen
filters the catalog by a search term.

This project models that core in Dafny and proves what it promises:

- `types.dfy` (module `Types`): the catalog entry, the progress record and the quiz direction.
  The mastery `level` is an integer count of half-steps: the application's
  0.0 .. 5.0 is 0 .. 10 here. Every level the code can produce is a multiple of
  0.5, so this is exact.
- `text.dfy` (module `Text`): the string operations the card and the lexicon use.
  These are `toLowerCase`, `trim`, `split(',')[0]` and `includes`, written as
  functions on `seq<char>` with their algebra proved. For example, trimming
  commutes with lower-casing, and padding with blanks does not change a trim.
- `catalog.dfy` (module `Catalog`): the 25-entry catalog as a constant sequence.
  It carries the facts the rest relies on: its size, distinct ids (they read
  as 1 .. 25) and a non-blank first sense for every entry.
- `quiz_card.dfy` (module `QuizCard`): the verdict on a guess in each direction,
  as a pure predicate, and the card's state as a class. The state is whether the
  answer is shown, the guess typed so far, and the verdict.
- `app.dfy` (module `App`): the answer rule on the progress list as pure
  functions, with the lemmas about them. The application's
  state is a class `AppState` whose `HandleAnswer` method updates the
  record in place, step by step, and is proved to produce exactly the
  list those functions give. The module also covers the session (shuffle and take
  ten), reset, and the home screen's mastery bar.
- `stats.dfy` (module `Stats`): the statistics panel as folds over the progress
  list. These are words seen, totals, rounded accuracy and mastered count.
- `vocabulary_list.dfy` (module `VocabularyList`): the lexicon's search filter.

Points where the model takes the code's behaviour as it is:

- Loading runs `JSON.parse` on the saved snapshot without a guard (App.tsx:21),
  so a corrupt snapshot would throw. The model takes the snapshot as an
  already-parsed value and does not model a corrupt one.
- At the last card the index is not advanced (App.tsx:68-75): it stays on that
  card and the page returns home after a delay. `HandleAnswer` keeps the index
  there and reports `finished`.
- Progress is a list searched with `findIndex` (App.tsx:44), and the model
  keeps it a list.
- The session draw sorts with the comparator `() => 0.5 - Math.random()`
  (App.tsx:33). The model takes the result as a supplied permutation.
- The verdict compares the guess with the definition's first sense or with the
  Greek word (components/QuizCard.tsx:32), never with the transliteration:
  "theos" is wrong for θεός, whose expected answer is "god".

## Model

| member | source | states |
|---|---|---|
| `Text.LowerChar` | components/QuizCard.tsx:32 | lower-casing one character keeps white space white space and a comma a comma, and nothing else becomes either |
| `Text.Lower` | components/QuizCard.tsx:32 | lower-casing keeps the length and maps each character on its own |
| `Text.Trim` | components/QuizCard.tsx:32 | a trimmed string is empty or starts and ends with a non-blank character |
| `Text.TrimPadded` | components/QuizCard.tsx:32 | blanks added at either end do not change the trimmed string |
| `Text.TrimLowerCommute` | components/QuizCard.tsx:32 | trimming then lower-casing equals lower-casing then trimming |
| `Text.FirstPiece` | components/QuizCard.tsx:32 | `split(',')[0]` is a prefix with no comma, ending at the string's end or just before its first comma |
| `Text.FirstPieceAt` | components/QuizCard.tsx:32 | the first piece is exactly the prefix up to the first comma |
| `Text.FirstPieceNoComma` | components/QuizCard.tsx:32 | a string with no comma is its own first piece |
| `Text.TrimSubstring` | components/QuizCard.tsx:32 | trimming adds no character |
| `Text.Contains` | components/VocabularyList.tsx:10-14 | `includes`: the string holds the other at some position, which needs it to be no longer |
| `Text.ContainsTransitive` | components/VocabularyList.tsx:10-14 | a substring of a substring is a substring |
| `Text.LowerContains` | components/VocabularyList.tsx:10-14 | lower-casing both sides keeps a substring occurrence |
| `Catalog.VocabularySize` | constants.ts:4-30 | the catalog has 25 entries, so index 10 and `slice(0, 5)` are in bounds |
| `Catalog.EntryId` | constants.ts:5-29 | entry i has the id i + 1 |
| `Catalog.EntryHasFirstSense` | constants.ts:5-29 | every entry has a non-empty Greek word and a definition whose first character is neither white space nor a comma |
| `Catalog.VocabularyIdsUnique` | constants.ts:5-29 | no two catalog entries share an id |
| `QuizCard.Expected` | components/QuizCard.tsx:32 | the expected side: in Greek-to-English the trimmed, lower-cased first sense, so empty or without a blank at either end; in English-to-Greek the lower-cased Greek word, of the same length |
| `QuizCard.Normalize` | components/QuizCard.tsx:32 | the guess trimmed and lower-cased: no longer than the guess, and empty or without a blank at either end |
| `QuizCard.IsCorrect` | components/QuizCard.tsx:32 | the normalized guess equals the expected side; in English-to-Greek a correct guess trims to the Greek word's length |
| `QuizCard.VerdictIgnoresCase` | components/QuizCard.tsx:32 | guesses equal up to letter case get the same verdict |
| `QuizCard.VerdictOfLowered` | components/QuizCard.tsx:32 | lower-casing a guess never changes its verdict |
| `QuizCard.VerdictIgnoresPadding` | components/QuizCard.tsx:32 | leading or trailing blanks never change a verdict |
| `QuizCard.BlankGuessIncorrect` | components/QuizCard.tsx:32 | an empty or all-blank guess is wrong whenever the expected answer is non-empty |
| `QuizCard.GuessWithCommaIncorrect` | components/QuizCard.tsx:32 | the Greek-to-English expected answer has no comma, so a guess listing several senses is wrong |
| `QuizCard.WholeDefinitionWithoutComma` | components/QuizCard.tsx:32 | a definition without a comma is expected whole, trimmed and lower-cased |
| `QuizCard.UntrimmedGreekWordUnreachable` | components/QuizCard.tsx:32 | the English-to-Greek expected side is not trimmed: a Greek word ending in a blank could never be matched |
| `QuizCard.GreekWordAccepted` | components/QuizCard.tsx:32 | in English-to-Greek mode a guess that lower-cases to the lower-cased Greek word is accepted, with blanks around it, whenever the word has no blank at either end |
| `QuizCard.ExpectedNonBlank` | components/QuizCard.tsx:32 | an entry with a non-empty Greek word and a definition whose first character is neither white space nor a comma has a non-empty expected answer in both directions |
| `QuizCard.CatalogAnswersNonBlank` | components/QuizCard.tsx:32 | for every catalog entry the expected answer is non-empty, so every blank guess is wrong |
| `QuizCard.NormalizeLowerUnpadded` | components/QuizCard.tsx:32 | a lower-case guess with no blank at either end is compared as typed |
| `QuizCard.KaiExpectsFirstSense` | components/QuizCard.tsx:32 | καί ("and, even, also") expects "and" |
| `QuizCard.KaiAcceptsFirstSense` | components/QuizCard.tsx:32 | "  And " is accepted for καί |
| `QuizCard.KaiRejectsLaterSense` | components/QuizCard.tsx:32 | "even", a later sense of καί, is rejected |
| `QuizCard.KaiAcceptsGreekWord` | components/QuizCard.tsx:32 | in English-to-Greek mode "  Καί " is accepted for καί |
| `QuizCard.AgapeExpectsWholeDefinition` | components/QuizCard.tsx:32 | ἀγάπη ("love") expects its whole definition "love" |
| `QuizCard.VerdictOf` | components/QuizCard.tsx:33 | the label is 'correct' exactly when the guess is correct |
| `QuizCard.Card.constructor` | components/QuizCard.tsx:13-15 | a new card hides the answer and has no guess and no verdict; the answer is shown exactly when a verdict exists |
| `QuizCard.Card.Type` | components/QuizCard.tsx:75-80 | typing, offered only while the answer is hidden, replaces the guess and nothing else |
| `QuizCard.Card.CheckAnswer` | components/QuizCard.tsx:31-40 | offered only while the answer is hidden; the returned boolean is the verdict on the typed guess, the verdict label matches it, and the answer is shown |
| `QuizCard.Card.Receive` | components/QuizCard.tsx:18-22 | a new word hides the answer and clears the guess and verdict; the same word leaves the card as it was; the answer stays shown exactly when a verdict exists |
| `App.FindIndex` | App.tsx:44 | -1 exactly when no record has the word's id, otherwise the position of the first such record |
| `App.FindIndexAt` | App.tsx:44 | the search finds `k` when `k` holds the id and no earlier record does |
| `App.NextLevel` | App.tsx:47-53 | the level after an answer: within 0 .. 5.0 when it started there, never lower after a correct answer and never higher after a wrong one |
| `App.Answered` | App.tsx:46-54 | an answered record keeps its id, is tested now, has one more answer in total and keeps its level in range |
| `App.FirstRecord` | App.tsx:55-62 | a first record has the word's id, is tested now, counts exactly one answer and has a level in range |
| `App.Recorded` | App.tsx:43-63 | an answer keeps the list's length when the word has a record and adds one otherwise |
| `App.Replay` | App.tsx:40-65 | a series of answers never shortens the list and adds at most one record per answer |
| `App.CorrectRaisesLevel` | App.tsx:47-49 | a correct answer raises the level by half a step, capped at 5.0 |
| `App.WrongLowersLevel` | App.tsx:50-52 | a wrong answer lowers the level by one, floored at 0 |
| `App.NextLevelInRange` | App.tsx:47-53 | a level within 0 .. 5.0 stays within it after any answer |
| `App.AnsweredCounts` | App.tsx:46-54 | another answer adds one to exactly one counter, keeps the id, sets the last-tested time to now and sets the level to `NextLevel` of the old one: min(5.0, level + 0.5) when correct, max(0, level - 1) when wrong |
| `App.FirstRecordDiffersFromRule` | App.tsx:55-62 | a first correct answer gives level 1.0, not the 0.5 of the update rule, and counts (1, 0); a first wrong answer gives level 0 and counts (0, 1) |
| `App.RecordedUpdatesExisting` | App.tsx:43-54 | with a record for the word, exactly that record is replaced by its updated version |
| `App.RecordedAppendsFirst` | App.tsx:55-63 | without a record for the word, exactly one first record is appended |
| `App.RecordedFrame` | App.tsx:43-63 | the list grows by one exactly when the word was new, other words' records stay in place unchanged, and the word then has a record |
| `App.RecordedKeepsPositions` | App.tsx:43-63 | an answer keeps every existing record at its position, for the same word |
| `App.ReplayKeepsPositions` | App.tsx:40-65 | a series of answers removes and moves no record: every earlier position still holds the same word's record |
| `App.RecordedStaysHealthy` | App.tsx:43-63 | an answer keeps word ids unique, levels within 0 .. 5.0 and every record answered at least once |
| `App.ReplayStaysHealthy` | App.tsx:40-65 | any series of answers keeps those properties |
| `App.RecordedStatistics` | App.tsx:43-63 | an answer adds one to exactly one of the panel's totals, and one word seen exactly when the word was new |
| `App.Mastery` | App.tsx:142-143 | the bar's width is a multiple of 10 percent, and 0 for an untested word |
| `App.MasteryInRange` | App.tsx:142-143 | the mastery bar is within 0 .. 100 and 0 for an untested word |
| `App.MasteryOfRecord` | App.tsx:142-143 | the bar shows ten times the half-step level of the word's record, that is level / 5 · 100 |
| `App.MasteryAfterAnswer` | App.tsx:142-143 | after an answer the bar rises 10 points, capped at 100, when correct and falls 20 points, floored at 0, when wrong |
| `App.MasterySaturates` | App.tsx:47-53 | a full bar stays full after a correct answer and an empty one stays empty after a wrong answer |
| `App.Shuffled` | App.tsx:33 | the shuffled copy has the catalog's length and only catalog entries |
| `App.SessionWords` | App.tsx:33-34 | `slice(0, 10)` of the shuffle has min(10, n) entries, each from the catalog |
| `App.SessionSelection` | App.tsx:33-34 | a session holds min(10, n) words, each taken from the catalog, each position once, with no repeated id |
| `App.FullSession` | App.tsx:33-34 | with the real catalog a session always has ten distinct words |
| `App.ScoreAtMostAnswers` | App.tsx:66 | the session score never exceeds the number of answers |
| `App.AppState.constructor` | App.tsx:10-15 | the page starts with no records, Greek-to-English mode and no session |
| `App.AppState.LoadSaved` | App.tsx:18-23 | a saved snapshot replaces the records; without one they are kept |
| `App.AppState.SaveProgress` | App.tsx:26-29 | the records shown and the saved snapshot both become the new list |
| `App.AppState.ResetProgress` | App.tsx:250-253 | after a reset the records and the saved snapshot are empty |
| `App.AppState.SetMode` | App.tsx:234-237 | the settings menu sets the quiz direction |
| `App.AppState.StartQuiz` | App.tsx:31-38 | the session is ten distinct catalog words in shuffled order; index and score restart at 0 |
| `App.AppState.UpdatedProgress` | App.tsx:43-63 | the step-by-step update of the copied list (counter, level and time of the first record for the word, or a pushed first record) yields exactly `Recorded` |
| `App.AppState.Score` | App.tsx:66 | the score grows by one exactly for a correct answer and stays the number of correct answers logged |
| `App.AppState.HandleAnswer` | App.tsx:40-76 | the records become `Recorded` of the old list and are saved; the score grows by one exactly for a correct answer; the index moves on except at the last card, which ends the session |
| `Stats.SumOf` | components/Stats.tsx:12-13 | `reduce` with `+`: every record's term is at most the total |
| `Stats.TotalCorrect` | components/Stats.tsx:12 | the correct total is at least each record's correct count |
| `Stats.TotalIncorrect` | components/Stats.tsx:13 | the incorrect total is at least each record's incorrect count |
| `Stats.Mastered` | components/Stats.tsx:16 | a record is kept exactly when it is in the list at level 3.0 or above, at most all records |
| `Stats.MasteredMultiplicity` | components/Stats.tsx:16 | each mastered record is kept as often as it occurs, and no other record is kept |
| `Stats.MasteredCount` | components/Stats.tsx:16 | the mastered count is at most the number of records |
| `Stats.Accuracy` | components/Stats.tsx:14 | 0 with no records; NaN exactly when records exist but no answer was counted; otherwise `RoundedPercent` of the correct answers over all answers, a percentage in 0 .. 100 |
| `Stats.Summarize` | components/Stats.tsx:11-16 | words seen is the number of records, mastered at most that, accuracy within 0 .. 100 when it is a number |
| `Stats.RoundedPercent` | components/Stats.tsx:14 | the percentage is 100·c/t rounded half up, within 0 .. 100 |
| `Stats.SumOfUpdate` | components/Stats.tsx:12-13 | replacing one record changes a total by the difference of the two records' counts |
| `Stats.SumOfAppend` | components/Stats.tsx:12-13 | appending a record adds its count to a total |
| `Stats.SumOfPermutation` | components/Stats.tsx:12-13 | a total does not depend on the order of the records |
| `Stats.MasteredCountIsSum` | components/Stats.tsx:16 | the mastered count is the number of records at level 3.0 or above |
| `Stats.AnsweredTotalPositive` | components/Stats.tsx:12-14 | when every record was answered, the answers total at least the number of records |
| `Stats.AccuracyDefined` | components/Stats.tsx:14 | when every record was answered, accuracy is a number within 0 .. 100, and with any record it is the rounded share of correct answers |
| `Stats.RoundedAll` | components/Stats.tsx:14 | all correct rounds to 100 |
| `Stats.RoundedNone` | components/Stats.tsx:14 | none correct rounds to 0 |
| `Stats.AccuracyPerfect` | components/Stats.tsx:14 | accuracy is 100 when no answer was wrong |
| `Stats.AccuracyNone` | components/Stats.tsx:14 | accuracy is 0 when no answer was right |
| `Stats.EmptySummary` | components/Stats.tsx:11-16 | with no records: 0 words seen, accuracy 0 with no division, nothing mastered, no correct answers |
| `Stats.MasteredAtMostSeen` | components/Stats.tsx:11-16 | the mastered count never exceeds the words seen |
| `Stats.SummaryIgnoresOrder` | components/Stats.tsx:11-16 | reordering the records changes none of the four figures |
| `VocabularyList.Matches` | components/VocabularyList.tsx:10-14 | an entry matches when its lower-cased word, definition or transliteration includes the lower-cased term, so the term is no longer than one of them |
| `VocabularyList.Filter` | components/VocabularyList.tsx:10-14 | an entry is kept exactly when it is in the list and matches, and the result is a subsequence of the list in its order |
| `VocabularyList.FilterMultiplicity` | components/VocabularyList.tsx:10-14 | each matching entry is kept as often as it occurs, and no other entry is kept |
| `VocabularyList.FilteredVocabulary` | components/VocabularyList.tsx:10-14 | the listed entries are at most the catalog and every one matches the term |
| `VocabularyList.ShowsNoWordsFound` | components/VocabularyList.tsx:77 | the message is shown only for a non-empty term |
| `VocabularyList.FilterEmptyTerm` | components/VocabularyList.tsx:10-14 | an empty term keeps every entry |
| `VocabularyList.FilterIgnoresTermCase` | components/VocabularyList.tsx:10-14 | terms equal up to letter case select the same entries |
| `VocabularyList.FilterOfLoweredTerm` | components/VocabularyList.tsx:10-14 | lower-casing the term changes nothing |
| `VocabularyList.MatchesNarrower` | components/VocabularyList.tsx:10-14 | an entry matching a term matches every substring of it |
| `VocabularyList.SubsequenceOfTail` | components/VocabularyList.tsx:10-14 | a subsequence of a list's tail is a subsequence of the list |
| `VocabularyList.SubsequenceDropFirst` | components/VocabularyList.tsx:10-14 | dropping the first entry of a subsequence leaves a subsequence |
| `VocabularyList.FilterNarrows` | components/VocabularyList.tsx:10-14 | extending the term can only remove entries from the result |
| `VocabularyList.FilterEmptyIff` | components/VocabularyList.tsx:10-14 | the result is empty exactly when no entry matches |
| `VocabularyList.NoWordsFoundIff` | components/VocabularyList.tsx:77 | "No words found" is shown exactly when no catalog entry matches |
| `VocabularyList.EmptySearchListsCatalog` | components/VocabularyList.tsx:10-14 | an empty search lists the whole catalog, so the message is hidden |

## Left out

- Text-to-speech (`services/geminiService.ts` and the speak buttons and their busy latches) is not part of this model. It is network I/O, base64 decoding and floating-point audio.
- Browser storage and JSON are not modelled. The saved snapshot is a value handed to `AppState`. Saving replaces it, and loading a corrupt snapshot is not modelled.
- The shuffle's randomness is a supplied permutation of the catalog's positions. Whether the shuffle is uniform is not modelled.
- Rendering, tab navigation, the confirm and alert dialogs around reset, and the 1.5-second delays are left out. So is the session's progress bar at App.tsx:207, which is floating-point display.
- `Text.LowerChar`: `toLowerCase` covers ASCII letters and the unaccented Greek capitals Α .. Ω. Every other character is left unchanged, so accented capitals and locale rules are not modelled. Capital Σ always becomes the medial σ. JavaScript lowers a Σ at the end of a word to the final ς (the Final_Sigma rule of the Unicode standard), which depends on the neighbouring characters and is not modelled. So the English-to-Greek guess "ὁδόΣ" is accepted by the code for ὁδός but rejected by the model, and a search term such as "ΟΣ" is compared as "οσ" rather than "ος". `trim` removes the ECMAScript white-space and line-terminator characters.
- `Stats.RoundedPercent`: computes `Math.round` of the exact quotient, rounding halves up. It does not model floating-point error at halves.
- Accuracy on a list whose records all have zero counts gives NaN in JavaScript. The model shows this as `NotANumber`. Only a hand-edited snapshot can produce such records.
- `HandleAnswer` builds the new list as values. In the code, the shallow copy `[...progress]` shares record objects with the previous state, and the update changes them in place. That sharing is not modelled. Only the resulting list is.
- `QuizCard.Card.Receive`: compares words as values. React compares the word object by reference. Catalog entries are distinct values, so the two agree on every word the session can hand the card.
- The optional `example` field of a catalog entry is not modelled. No catalog entry sets it, and nothing reads it.
- The `QuizState` type is not modelled because nothing uses it.
