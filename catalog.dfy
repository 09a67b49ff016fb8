/** The static catalog the quiz, the home screen and the lexicon draw from. */
module Catalog {
  import opened Types
  import Text

  /** `GREEK_VOCABULARY`, in its declared order. */
  const Vocabulary: seq<GreekWord> :=
    [
      GreekWord("1", "θεός", "theos", "God, a god", "noun", 1317),
      GreekWord("2", "καί", "kai", "and, even, also", "conjunction", 9018),
      GreekWord("3", "λέγω", "legō", "I say, speak", "verb", 2354),
      GreekWord("4", "κύριος", "kyrios", "Lord, master, sir", "noun", 717),
      GreekWord("5", "ἄνθρωπος", "anthrōpos", "man, mankind, person", "noun", 550),
      GreekWord("6", "χριστός", "christos", "Christ, Messiah, Anointed One", "noun", 529),
      GreekWord("7", "ἀγάπη", "agapē", "love", "noun", 116),
      GreekWord("8", "πίστις", "pistis", "faith, belief, trust", "noun", 243),
      GreekWord("9", "κόσμος", "kosmos", "world, universe", "noun", 185),
      GreekWord("10", "λόγος", "logos", "word, message, reason", "noun", 331),
      GreekWord("11", "πνεῦμα", "pneuma", "spirit, wind, breath", "noun", 379),
      GreekWord("12", "υἱός", "huios", "son, descendant", "noun", 377),
      GreekWord("13", "ἀδελφός", "adelphos", "brother", "noun", 343),
      GreekWord("14", "οὐρανός", "ouranos", "heaven, sky", "noun", 273),
      GreekWord("15", "μαθητής", "mathētēs", "disciple, student", "noun", 261),
      GreekWord("16", "ἐκκλησία", "ekklēsia", "church, assembly", "noun", 114),
      GreekWord("17", "ζωή", "zōē", "life", "noun", 135),
      GreekWord("18", "φωνή", "phōnē", "voice, sound", "noun", 139),
      GreekWord("19", "ὁδός", "hodos", "way, path, road", "noun", 101),
      GreekWord("20", "καρδία", "kardia", "heart", "noun", 156),
      GreekWord("21", "ἀλήθεια", "alētheia", "truth", "noun", 109),
      GreekWord("22", "χάρις", "charis", "grace, favor", "noun", 155),
      GreekWord("23", "βασιλεία", "basileia", "kingdom", "noun", 162),
      GreekWord("24", "ἔργον", "ergon", "work, deed", "noun", 169),
      GreekWord("25", "δόξα", "doxa", "glory, splendor", "noun", 166)
    ]

  /** The catalog holds 25 entries, so the home screen's `GREEK_VOCABULARY[10]`
      and `slice(0, 5)` stay in bounds and a session of 10 words is always full. */
  lemma VocabularySize()
    ensures |Vocabulary| == 25
    ensures 10 < |Vocabulary| && 5 <= |Vocabulary|
  {
  }

  /** The value of a string of decimal digits (every id is one). */
  function DecimalValue(s: string): nat {
    if s == [] then 0
    else
      var d := s[|s| - 1];
      10 * DecimalValue(s[..|s| - 1]) + (if '0' <= d <= '9' then d as int - '0' as int else 0)
  }

  /** The id of an entry reads as the number `n`. */
  predicate IdReads(w: GreekWord, n: nat) {
    DecimalValue(w.id) == n
  }

  /** The entry's Greek word is non-empty and its definition starts with a
      character that is neither white space nor a comma, so its first sense
      is non-blank. */
  predicate HasFirstSense(w: GreekWord) {
    && |w.word| > 0
    && |w.definition| > 0
    && !Text.IsSpace(w.definition[0])
    && w.definition[0] != ','
  }

  lemma IdsRead0(i: nat)
    requires i < 5
    ensures IdReads(Vocabulary[i], i + 1)
  {
    if i == 0 {} else if i == 1 {} else if i == 2 {} else if i == 3 {} else {}
  }

  lemma IdsRead1(i: nat)
    requires 5 <= i < 10
    ensures IdReads(Vocabulary[i], i + 1)
  {
    if i == 5 {} else if i == 6 {} else if i == 7 {} else if i == 8 {} else {}
  }

  lemma IdsRead2(i: nat)
    requires 10 <= i < 15
    ensures IdReads(Vocabulary[i], i + 1)
  {
    if i == 10 {} else if i == 11 {} else if i == 12 {} else if i == 13 {} else {}
  }

  lemma IdsRead3(i: nat)
    requires 15 <= i < 20
    ensures IdReads(Vocabulary[i], i + 1)
  {
    if i == 15 {} else if i == 16 {} else if i == 17 {} else if i == 18 {} else {}
  }

  lemma IdsRead4(i: nat)
    requires 20 <= i < 25
    ensures IdReads(Vocabulary[i], i + 1)
  {
    if i == 20 {} else if i == 21 {} else if i == 22 {} else if i == 23 {} else {}
  }

  lemma SensesPresent0(i: nat)
    requires i < 5
    ensures HasFirstSense(Vocabulary[i])
  {
    if i == 0 {} else if i == 1 {} else if i == 2 {} else if i == 3 {} else {}
  }

  lemma SensesPresent1(i: nat)
    requires 5 <= i < 10
    ensures HasFirstSense(Vocabulary[i])
  {
    if i == 5 {} else if i == 6 {} else if i == 7 {} else if i == 8 {} else {}
  }

  lemma SensesPresent2(i: nat)
    requires 10 <= i < 15
    ensures HasFirstSense(Vocabulary[i])
  {
    if i == 10 {} else if i == 11 {} else if i == 12 {} else if i == 13 {} else {}
  }

  lemma SensesPresent3(i: nat)
    requires 15 <= i < 20
    ensures HasFirstSense(Vocabulary[i])
  {
    if i == 15 {} else if i == 16 {} else if i == 17 {} else if i == 18 {} else {}
  }

  lemma SensesPresent4(i: nat)
    requires 20 <= i < 25
    ensures HasFirstSense(Vocabulary[i])
  {
    if i == 20 {} else if i == 21 {} else if i == 22 {} else if i == 23 {} else {}
  }

  /** Entry i (counting from 0) has the id i + 1. */
  lemma EntryId(i: nat)
    requires i < |Vocabulary|
    ensures IdReads(Vocabulary[i], i + 1)
  {
    if i < 5 { IdsRead0(i); }
    else if i < 10 { IdsRead1(i); }
    else if i < 15 { IdsRead2(i); }
    else if i < 20 { IdsRead3(i); }
    else { IdsRead4(i); }
  }

  /** Every entry has a non-blank Greek word and first sense. */
  lemma EntryHasFirstSense(i: nat)
    requires i < |Vocabulary|
    ensures HasFirstSense(Vocabulary[i])
  {
    if i < 5 { SensesPresent0(i); }
    else if i < 10 { SensesPresent1(i); }
    else if i < 15 { SensesPresent2(i); }
    else if i < 20 { SensesPresent3(i); }
    else { SensesPresent4(i); }
  }

  /** No two catalog entries share an id: the ids read as 1, 2, ..., 25. */
  lemma VocabularyIdsUnique()
    ensures UniqueIds(Vocabulary)
  {
    forall i, j | 0 <= i < j < |Vocabulary|
      ensures Vocabulary[i].id != Vocabulary[j].id
    {
      EntryId(i);
      EntryId(j);
    }
  }
}
