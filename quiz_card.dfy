/** The quiz card: how a typed answer is judged in each quiz direction, and the
    card's own state (whether the answer is shown, the guess typed so far, and
    the verdict). */
module QuizCard {
  import opened Types
  import opened Text
  import Catalog

  /** The answer the card expects: in Greek-to-English mode the first
      comma-separated sense of the lower-cased definition, trimmed; in
      English-to-Greek mode the lower-cased Greek word, untrimmed. */
  function Expected(word: GreekWord, mode: QuizMode): (r: string)
    ensures mode == GreekToEnglish ==> r == [] || (!IsSpace(r[0]) && !IsSpace(r[|r| - 1]))
    ensures mode == EnglishToGreek ==> |r| == |word.word|
  {
    match mode
    case GreekToEnglish => Trim(FirstPiece(Lower(word.definition)))
    case EnglishToGreek => Lower(word.word)
  }

  /** The learner's guess as the card compares it: trimmed, then lower-cased. */
  function Normalize(guess: string): (r: string)
    ensures |r| <= |guess|
    ensures r == [] || (!IsSpace(r[0]) && !IsSpace(r[|r| - 1]))
  {
    Lower(Trim(guess))
  }

  /** The verdict on a guess. */
  predicate IsCorrect(guess: string, word: GreekWord, mode: QuizMode)
    ensures IsCorrect(guess, word, mode) && mode == EnglishToGreek ==> |Trim(guess)| == |word.word|
  {
    Normalize(guess) == Expected(word, mode)
  }

  /** Two guesses that differ only in letter case get the same verdict. */
  lemma VerdictIgnoresCase(g1: string, g2: string, word: GreekWord, mode: QuizMode)
    requires Lower(g1) == Lower(g2)
    ensures IsCorrect(g1, word, mode) == IsCorrect(g2, word, mode)
  {
    TrimLowerCommute(g1);
    TrimLowerCommute(g2);
  }

  /** Lower-casing a guess never changes its verdict. */
  lemma VerdictOfLowered(guess: string, word: GreekWord, mode: QuizMode)
    ensures IsCorrect(Lower(guess), word, mode) == IsCorrect(guess, word, mode)
  {
    LowerIdempotent(guess);
    VerdictIgnoresCase(Lower(guess), guess, word, mode);
  }

  /** Leading and trailing white space never changes a verdict. */
  lemma VerdictIgnoresPadding(before: string, guess: string, after: string, word: GreekWord, mode: QuizMode)
    requires AllSpace(before) && AllSpace(after)
    ensures IsCorrect(before + guess + after, word, mode) == IsCorrect(guess, word, mode)
  {
    TrimPadded(before, guess, after);
  }

  /** An empty or all-blank guess is wrong whenever something is expected. */
  lemma BlankGuessIncorrect(guess: string, word: GreekWord, mode: QuizMode)
    requires AllSpace(guess) && Expected(word, mode) != []
    ensures !IsCorrect(guess, word, mode)
  {
    TrimAllSpace(guess);
  }

  /** In Greek-to-English mode only one sense is accepted: the expected answer
      holds no comma, so a guess listing several senses is wrong. */
  lemma GuessWithCommaIncorrect(guess: string, word: GreekWord)
    requires ',' in Normalize(guess)
    ensures ',' !in Expected(word, GreekToEnglish)
    ensures !IsCorrect(guess, word, GreekToEnglish)
  {
    if ',' in Expected(word, GreekToEnglish) {
      TrimSubstring(FirstPiece(Lower(word.definition)), ',');
      assert false;
    }
  }

  /** A definition without a comma is expected whole (trimmed, lower-cased). */
  lemma WholeDefinitionWithoutComma(word: GreekWord)
    requires ',' !in word.definition
    ensures Expected(word, GreekToEnglish) == Trim(Lower(word.definition))
  {
    var d := Lower(word.definition);
    assert ',' !in d by {
      forall k | 0 <= k < |d|
        ensures d[k] != ','
      {
        assert word.definition[k] != ',';
      }
    }
    FirstPieceNoComma(d);
  }

  /** In English-to-Greek mode the Greek word itself is accepted, typed in
      any letter case and with blanks around it. */
  lemma GreekWordAccepted(before: string, typed: string, after: string, word: GreekWord)
    requires AllSpace(before) && AllSpace(after)
    requires Lower(typed) == Lower(word.word)
    requires word.word == [] || (!IsSpace(word.word[0]) && !IsSpace(word.word[|word.word| - 1]))
    ensures IsCorrect(before + typed + after, word, EnglishToGreek)
  {
    VerdictIgnoresPadding(before, typed, after, word, EnglishToGreek);
    if typed != [] {
      assert LowerChar(typed[0]) == LowerChar(word.word[0]);
      assert LowerChar(typed[|typed| - 1]) == LowerChar(word.word[|word.word| - 1]);
    }
    TrimUnpadded(typed);
  }

  /** The expected side is not trimmed in English-to-Greek mode: a Greek word
      ending in white space could never be answered correctly, because a
      normalized guess never ends in white space. */
  lemma UntrimmedGreekWordUnreachable(guess: string, word: GreekWord)
    requires |word.word| > 0 && IsSpace(word.word[|word.word| - 1])
    ensures !IsCorrect(guess, word, EnglishToGreek)
  {
    TrimLowerCommute(guess);
    var e := Lower(word.word);
    assert IsSpace(e[|e| - 1]);
  }

  /** A definition whose first character is neither white space nor a comma
      has a non-blank expected answer, and so does a non-empty Greek word. */
  lemma ExpectedNonBlank(word: GreekWord, mode: QuizMode)
    requires |word.word| > 0
    requires |word.definition| > 0 && !IsSpace(word.definition[0]) && word.definition[0] != ','
    ensures Expected(word, mode) != []
  {
    if mode == GreekToEnglish {
      var d := Lower(word.definition);
      assert d[0] == LowerChar(word.definition[0]);
      var p := FirstPiece(d);
      assert p[0] == d[0];
      TrimNonBlank(p);
    }
  }

  /** Every catalog entry has a non-blank expected answer in both directions,
      so a blank guess is always judged wrong. */
  lemma CatalogAnswersNonBlank(i: nat, mode: QuizMode)
    requires i < |Catalog.Vocabulary|
    ensures Expected(Catalog.Vocabulary[i], mode) != []
    ensures forall g :: AllSpace(g) ==> !IsCorrect(g, Catalog.Vocabulary[i], mode)
  {
    Catalog.EntryHasFirstSense(i);
    ExpectedNonBlank(Catalog.Vocabulary[i], mode);
    forall g | AllSpace(g)
      ensures !IsCorrect(g, Catalog.Vocabulary[i], mode)
    {
      BlankGuessIncorrect(g, Catalog.Vocabulary[i], mode);
    }
  }

  /** A lower-case guess with no blank at either end is compared as typed. */
  lemma NormalizeLowerUnpadded(guess: string)
    requires guess == [] || (!IsSpace(guess[0]) && !IsSpace(guess[|guess| - 1]))
    requires forall i :: 0 <= i < |guess| ==> LowerChar(guess[i]) == guess[i]
    ensures Normalize(guess) == guess
  {
    TrimUnpadded(guess);
    LowerOfLowerCase(guess);
  }

  lemma FirstPieceOfKaiDefinition()
    ensures FirstPiece("and, even, also") == "and"
  {
    var d := "and, even, also";
    assert d[..3] == "and" && d[3] == ',';
    FirstPieceAt(d, 3);
  }

  lemma FirstPieceOfKai()
    ensures FirstPiece(Lower("and, even, also")) == "and"
  {
    LowerOfLowerCase("and, even, also");
    FirstPieceOfKaiDefinition();
  }

  /** καί ("and, even, also") expects its first sense, "and". */
  lemma KaiExpectsFirstSense()
    ensures Catalog.Vocabulary[1].word == "καί"
    ensures Expected(Catalog.Vocabulary[1], GreekToEnglish) == "and"
  {
    assert Catalog.Vocabulary[1].definition == "and, even, also";
    FirstPieceOfKai();
    TrimUnpadded("and");
  }

  /** For καί the first sense is accepted in any letter case and with
      surrounding blanks. */
  lemma KaiAcceptsFirstSense()
    ensures IsCorrect("  And ", Catalog.Vocabulary[1], GreekToEnglish)
  {
    KaiExpectsFirstSense();
    PaddedCapitalNormalizes();
  }

  lemma PaddedCapitalUnpads()
    ensures Trim("  And ") == Trim("And")
  {
    var before, word, after := "  ", "And", " ";
    assert AllSpace(before) && AllSpace(after);
    assert before + word + after == "  And ";
    TrimPadded(before, word, after);
  }

  lemma CapitalTrimsToItself()
    ensures Trim("And") == "And"
  {
    TrimUnpadded("And");
  }

  lemma PaddedCapitalTrims()
    ensures Trim("  And ") == "And"
  {
    PaddedCapitalUnpads();
    CapitalTrimsToItself();
  }

  lemma PaddedCapitalNormalizes()
    ensures Normalize("  And ") == "and"
  {
    PaddedCapitalTrims();
    CapitalAndLowers();
  }

  lemma CapitalAndLowers()
    ensures Lower("And") == "and"
  {
    var s := "And";
    assert Lower(s)[0] == LowerChar('A') == 'a';
  }

  /** For καί, the Greek word with a capital and blanks around it is accepted. */
  lemma KaiAcceptsGreekWord()
    ensures IsCorrect("  Καί ", Catalog.Vocabulary[1], EnglishToGreek)
  {
    KaiExpectsFirstSense();
    PaddedKaiSplits();
    CapitalKaiLowers();
    GreekWordAccepted("  ", "Καί", " ", Catalog.Vocabulary[1]);
  }

  lemma PaddedKaiSplits()
    ensures AllSpace("  ") && AllSpace(" ")
    ensures "  " + "Καί" + " " == "  Καί "
  {
  }

  lemma CapitalKaiLowers()
    ensures Lower("Καί") == Lower("καί")
    ensures !IsSpace('κ') && !IsSpace('ί')
  {
    var s, t := "Καί", "καί";
    assert Lower(s)[0] == LowerChar('Κ') == 'κ' == Lower(t)[0];
  }

  /** For καί a later sense such as "even" is judged wrong. */
  lemma KaiRejectsLaterSense()
    ensures !IsCorrect("even", Catalog.Vocabulary[1], GreekToEnglish)
  {
    KaiExpectsFirstSense();
    NormalizeLowerUnpadded("even");
  }

  lemma LoveIsItsOwnFirstSense()
    ensures Trim(FirstPiece(Lower("love"))) == "love"
  {
    LowerOfLowerCase("love");
    FirstPieceNoComma("love");
    TrimUnpadded("love");
  }

  /** ἀγάπη ("love"): a definition without a comma is expected whole. */
  lemma AgapeExpectsWholeDefinition()
    ensures Catalog.Vocabulary[6].word == "ἀγάπη"
    ensures Expected(Catalog.Vocabulary[6], GreekToEnglish) == "love"
  {
    assert Catalog.Vocabulary[6].definition == "love";
    LoveIsItsOwnFirstSense();
  }

  /** The card's verdict label. */
  datatype Verdict = Correct | Incorrect

  function VerdictOf(isCorrect: bool): (v: Verdict)
    ensures v == Correct <==> isCorrect
  {
    if isCorrect then Correct else Incorrect
  }

  /** The state of one quiz card. */
  class Card {
    var word: GreekWord
    var mode: QuizMode
    var showAnswer: bool
    var userGuess: string
    var result: Option<Verdict>

    /** The answer is shown exactly when a verdict has been given. */
    ghost predicate Valid()
      reads this
    {
      showAnswer <==> result.Some?
    }

    /** A card as first shown: answer hidden, nothing typed, no verdict. */
    constructor (word: GreekWord, mode: QuizMode)
      ensures Valid()
      ensures this.word == word && this.mode == mode
      ensures !showAnswer && userGuess == [] && result == None
    {
      this.word := word;
      this.mode := mode;
      showAnswer := false;
      userGuess := [];
      result := None;
    }

    /** The learner edits the guess; the input is offered only while the
        answer is hidden. */
    method Type(text: string)
      requires Valid() && !showAnswer
      modifies this`userGuess
      ensures Valid()
      ensures userGuess == text
    {
      userGuess := text;
    }

    /** Judges the guess, records the verdict and reveals the answer; the
        returned verdict is what the card hands to the session afterwards.
        The check button is offered only while the answer is hidden, so a
        card is judged once per word. */
    method CheckAnswer() returns (isCorrect: bool)
      requires Valid() && !showAnswer
      modifies this`result, this`showAnswer
      ensures Valid()
      ensures isCorrect == IsCorrect(userGuess, word, mode)
      ensures result == Some(VerdictOf(isCorrect)) && showAnswer
    {
      var guess, w, m := userGuess, word, mode;
      isCorrect := IsCorrect(guess, w, m);
      result := Some(VerdictOf(isCorrect));
      showAnswer := true;
      assert userGuess == guess && word == w && mode == m;
    }

    /** The session hands the card its word and mode; a different word resets
        the card, the same word leaves it as it is. */
    method Receive(newWord: GreekWord, newMode: QuizMode)
      requires Valid()
      modifies this
      ensures Valid()
      ensures word == newWord && mode == newMode
      ensures newWord != old(word) ==> !showAnswer && userGuess == [] && result == None
      ensures newWord == old(word) ==>
        showAnswer == old(showAnswer) && userGuess == old(userGuess) && result == old(result)
    {
      var changed := newWord != word;
      word, mode := newWord, newMode;
      if changed {
        showAnswer := false;
        userGuess := [];
        result := None;
      }
    }
  }
}
