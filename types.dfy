/** The records shared by the quiz, the progress store, the statistics and the lexicon. */
module Types {

  datatype Option<+T> = None | Some(value: T)

  /** One entry of the static catalog. */
  datatype GreekWord = GreekWord(
    id: string,
    word: string,            // Greek text
    transliteration: string,
    definition: string,      // comma-separated English senses
    partOfSpeech: string,
    frequency: nat           // occurrences in the Greek New Testament
  )

  /** The learner's record for one word.
      `level` counts half-steps: the application's mastery level 0.0 .. 5.0 is 0 .. 10 here. */
  datatype UserProgress = UserProgress(
    wordId: string,
    correctCount: nat,
    incorrectCount: nat,
    lastTested: int,
    level: int
  )

  /** The two quiz directions. */
  datatype QuizMode = GreekToEnglish | EnglishToGreek

  /** No two catalog entries share an id. */
  predicate UniqueIds(ws: seq<GreekWord>) {
    forall i, j :: 0 <= i < j < |ws| ==> ws[i].id != ws[j].id
  }

  /** Every record has been answered at least once; the application only
      creates records when an answer is given. */
  predicate EveryRecordAnswered(p: seq<UserProgress>) {
    forall i :: 0 <= i < |p| ==> p[i].correctCount + p[i].incorrectCount >= 1
  }
}
