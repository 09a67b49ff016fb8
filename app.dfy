/** The application shell: the learner's progress records, the answer rule
    that updates them, and the ten-word quiz session. */
module App {
  import opened Types
  import Catalog
  import Stats

  /** Mastery level 5.0, in half-steps. */
  const MaxLevel: int := 10
  /** Words per session. */
  const SessionSize: nat := 10

  function Min(a: int, b: int): int { if a <= b then a else b }
  function Max(a: int, b: int): int { if a >= b then a else b }

  predicate LevelInRange(level: int) { 0 <= level <= MaxLevel }

  predicate LevelsInRange(p: seq<UserProgress>) {
    forall i :: 0 <= i < |p| ==> LevelInRange(p[i].level)
  }

  /** No word has two records. */
  predicate UniqueWordIds(p: seq<UserProgress>) {
    forall i, j :: 0 <= i < j < |p| ==> p[i].wordId != p[j].wordId
  }

  /** What the answer rule keeps true of the progress list. */
  predicate Healthy(p: seq<UserProgress>) {
    LevelsInRange(p) && UniqueWordIds(p) && EveryRecordAnswered(p)
  }

  predicate HasRecord(p: seq<UserProgress>, id: string) {
    exists i :: 0 <= i < |p| && p[i].wordId == id
  }

  /** `progress.findIndex(p => p.wordId === id)`: the first record for `id`, or -1. */
  function FindIndex(p: seq<UserProgress>, id: string): (k: int)
    ensures -1 <= k < |p|
    ensures k == -1 <==> !HasRecord(p, id)
    ensures k >= 0 ==> p[k].wordId == id && forall i :: 0 <= i < k ==> p[i].wordId != id
  {
    if p == [] then -1
    else if p[0].wordId == id then 0
    else
      var k := FindIndex(p[1..], id);
      assert forall i :: 1 <= i < |p| ==> p[i] == p[1..][i - 1];
      if k == -1 then -1 else k + 1
  }

  /** The level after another answer to a word already on record:
      half a level up, capped at 5.0, or a whole level down, floored at 0. */
  function NextLevel(level: int, correct: bool): (l: int)
    ensures LevelInRange(level) ==> LevelInRange(l)
    ensures LevelInRange(level) && correct ==> l >= level
    ensures LevelInRange(level) && !correct ==> l <= level
  {
    if correct then Min(MaxLevel, level + 1) else Max(0, level - 2)
  }

  /** A record after another answer at time `now`. */
  function Answered(rec: UserProgress, correct: bool, now: int): (r: UserProgress)
    ensures r.wordId == rec.wordId && r.lastTested == now
    ensures r.correctCount + r.incorrectCount == rec.correctCount + rec.incorrectCount + 1
    ensures LevelInRange(rec.level) ==> LevelInRange(r.level)
  {
    rec.(correctCount := if correct then rec.correctCount + 1 else rec.correctCount,
         incorrectCount := if correct then rec.incorrectCount else rec.incorrectCount + 1,
         lastTested := now,
         level := NextLevel(rec.level, correct))
  }

  /** The record created by a word's first answer: level 1.0 or 0. */
  function FirstRecord(id: string, correct: bool, now: int): (r: UserProgress)
    ensures r.wordId == id && r.lastTested == now
    ensures r.correctCount + r.incorrectCount == 1
    ensures LevelInRange(r.level)
  {
    UserProgress(id, if correct then 1 else 0, if correct then 0 else 1, now, if correct then 2 else 0)
  }

  /** The progress list after one answer for word `id`. */
  function Recorded(p: seq<UserProgress>, id: string, correct: bool, now: int): (r: seq<UserProgress>)
    ensures |r| == if HasRecord(p, id) then |p| else |p| + 1
  {
    var k := FindIndex(p, id);
    if k >= 0 then p[k := Answered(p[k], correct, now)] else p + [FirstRecord(id, correct, now)]
  }

  /** The progress list after a series of answers, oldest first. */
  function Replay(p: seq<UserProgress>, answers: seq<(string, bool, int)>): (r: seq<UserProgress>)
    ensures |p| <= |r| <= |p| + |answers|
  {
    if answers == [] then p
    else
      var (id, correct, now) := answers[|answers| - 1];
      Recorded(Replay(p, answers[..|answers| - 1]), id, correct, now)
  }

  /** `prog ? (prog.level / 5) * 100 : 0` for the home screen's mastery bar:
      with `level` in half-steps this is exactly ten times the stored value. */
  function Mastery(p: seq<UserProgress>, id: string): (m: int)
    ensures m % 10 == 0
    ensures !HasRecord(p, id) ==> m == 0
  {
    var k := FindIndex(p, id);
    if k >= 0 then p[k].level * 10 else 0
  }

  /** The first record for `id` is at `k` exactly when `k` holds one and no earlier position does. */
  lemma FindIndexAt(p: seq<UserProgress>, id: string, k: nat)
    requires k < |p| && p[k].wordId == id
    requires forall i :: 0 <= i < k ==> p[i].wordId != id
    ensures FindIndex(p, id) == k
  {
    var j := FindIndex(p, id);
    assert HasRecord(p, id);
    assert j >= 0 && p[j].wordId == id;
    assert !(j < k);
    assert !(k < j);
  }

  // ---------------------------------------------------------------------------
  // The level rule

  /** A correct answer raises the level by half a step, stopping at 5.0. */
  lemma CorrectRaisesLevel(level: int)
    requires LevelInRange(level)
    ensures NextLevel(level, true) == if level < MaxLevel then level + 1 else MaxLevel
    ensures NextLevel(level, true) >= level
  {
  }

  /** A wrong answer lowers the level by a whole step, stopping at 0. */
  lemma WrongLowersLevel(level: int)
    requires LevelInRange(level)
    ensures NextLevel(level, false) == if level >= 2 then level - 2 else 0
    ensures NextLevel(level, false) <= level
  {
  }

  /** Levels stay within 0 .. 5.0, whatever the answer. */
  lemma NextLevelInRange(level: int, correct: bool)
    requires LevelInRange(level)
    ensures LevelInRange(NextLevel(level, correct))
  {
  }

  /** Another answer counts exactly once, in the right counter, stamps the
      time and moves the level by the level rule. */
  lemma AnsweredCounts(rec: UserProgress, correct: bool, now: int)
    ensures Answered(rec, correct, now).wordId == rec.wordId
    ensures Answered(rec, correct, now).lastTested == now
    ensures Answered(rec, correct, now).correctCount == rec.correctCount + (if correct then 1 else 0)
    ensures Answered(rec, correct, now).incorrectCount == rec.incorrectCount + (if correct then 0 else 1)
    ensures Answered(rec, correct, now).level == NextLevel(rec.level, correct)
    ensures Answered(rec, true, now).level == Min(MaxLevel, rec.level + 1)
    ensures Answered(rec, false, now).level == Max(0, rec.level - 2)
  {
  }

  /** A first answer starts from level 1.0 when correct, not from 0 + 0.5,
      and from level 0 when wrong; it counts one answer in the right counter. */
  lemma FirstRecordDiffersFromRule(id: string, now: int)
    ensures FirstRecord(id, true, now).level == 2
    ensures NextLevel(0, true) == 1
    ensures FirstRecord(id, false, now).level == 0
    ensures FirstRecord(id, true, now).correctCount == 1 && FirstRecord(id, true, now).incorrectCount == 0
    ensures FirstRecord(id, false, now).correctCount == 0 && FirstRecord(id, false, now).incorrectCount == 1
  {
  }

  // ---------------------------------------------------------------------------
  // One answer on the progress list

  /** With a record for the word, exactly that record is replaced and the
      list keeps its length and order. */
  lemma RecordedUpdatesExisting(p: seq<UserProgress>, id: string, correct: bool, now: int, k: nat)
    requires UniqueWordIds(p)
    requires k < |p| && p[k].wordId == id
    ensures Recorded(p, id, correct, now) == p[k := Answered(p[k], correct, now)]
  {
    forall i | 0 <= i < k ensures p[i].wordId != id {
      assert p[i].wordId != p[k].wordId;
    }
    FindIndexAt(p, id, k);
  }

  /** Without a record for the word, exactly one first record is appended. */
  lemma RecordedAppendsFirst(p: seq<UserProgress>, id: string, correct: bool, now: int)
    requires !HasRecord(p, id)
    ensures Recorded(p, id, correct, now) == p + [FirstRecord(id, correct, now)]
  {
  }

  /** Only the answered word's record changes; the list grows by one exactly
      when the word had no record, and afterwards the word has one. */
  lemma RecordedFrame(p: seq<UserProgress>, id: string, correct: bool, now: int)
    ensures |Recorded(p, id, correct, now)| == if HasRecord(p, id) then |p| else |p| + 1
    ensures forall i :: 0 <= i < |p| && p[i].wordId != id ==> Recorded(p, id, correct, now)[i] == p[i]
    ensures HasRecord(Recorded(p, id, correct, now), id)
  {
    var r := Recorded(p, id, correct, now);
    var k := FindIndex(p, id);
    if k >= 0 {
      assert r[k].wordId == id;
    } else {
      assert r[|p|].wordId == id;
    }
  }

  /** The answer rule keeps word ids unique, levels in range and every record answered. */
  lemma RecordedStaysHealthy(p: seq<UserProgress>, id: string, correct: bool, now: int)
    requires Healthy(p)
    ensures Healthy(Recorded(p, id, correct, now))
  {
    var r := Recorded(p, id, correct, now);
    var k := FindIndex(p, id);
    if k >= 0 {
      NextLevelInRange(p[k].level, correct);
      assert forall i :: 0 <= i < |r| ==> r[i].wordId == p[i].wordId;
    } else {
      assert forall i :: 0 <= i < |p| ==> r[i] == p[i];
    }
  }

  /** An answer keeps every existing record at its position, for the same word. */
  lemma RecordedKeepsPositions(p: seq<UserProgress>, id: string, correct: bool, now: int)
    ensures forall i :: 0 <= i < |p| ==> Recorded(p, id, correct, now)[i].wordId == p[i].wordId
  {
    var k := FindIndex(p, id);
    if k >= 0 {
      assert Recorded(p, id, correct, now) == p[k := Answered(p[k], correct, now)];
    } else {
      assert Recorded(p, id, correct, now) == p + [FirstRecord(id, correct, now)];
    }
  }

  /** A series of answers removes no record and moves none: every earlier
      position still holds a record for the same word. */
  lemma {:induction false} ReplayKeepsPositions(p: seq<UserProgress>, answers: seq<(string, bool, int)>)
    ensures forall i :: 0 <= i < |p| ==> Replay(p, answers)[i].wordId == p[i].wordId
  {
    if answers != [] {
      var q := Replay(p, answers[..|answers| - 1]);
      ReplayKeepsPositions(p, answers[..|answers| - 1]);
      var (id, correct, now) := answers[|answers| - 1];
      RecordedKeepsPositions(q, id, correct, now);
      assert Replay(p, answers) == Recorded(q, id, correct, now);
    }
  }

  /** Any series of answers keeps the progress list healthy. */
  lemma {:induction false} ReplayStaysHealthy(p: seq<UserProgress>, answers: seq<(string, bool, int)>)
    requires Healthy(p)
    ensures Healthy(Replay(p, answers))
  {
    if answers != [] {
      ReplayStaysHealthy(p, answers[..|answers| - 1]);
      var (id, correct, now) := answers[|answers| - 1];
      RecordedStaysHealthy(Replay(p, answers[..|answers| - 1]), id, correct, now);
    }
  }

  /** On the statistics panel an answer adds one to exactly one of the totals,
      and one word seen exactly when the word was new. */
  lemma RecordedStatistics(p: seq<UserProgress>, id: string, correct: bool, now: int)
    ensures Stats.TotalCorrect(Recorded(p, id, correct, now)) == Stats.TotalCorrect(p) + (if correct then 1 else 0)
    ensures Stats.TotalIncorrect(Recorded(p, id, correct, now)) == Stats.TotalIncorrect(p) + (if correct then 0 else 1)
    ensures Stats.Summarize(Recorded(p, id, correct, now)).wordsSeen == Stats.Summarize(p).wordsSeen + (if HasRecord(p, id) then 0 else 1)
  {
    RecordedFrame(p, id, correct, now);
    var k := FindIndex(p, id);
    if k >= 0 {
      var x := Answered(p[k], correct, now);
      Stats.SumOfUpdate(p, k, x, Stats.CorrectOf);
      Stats.SumOfUpdate(p, k, x, Stats.IncorrectOf);
    } else {
      var x := FirstRecord(id, correct, now);
      Stats.SumOfAppend(p, x, Stats.CorrectOf);
      Stats.SumOfAppend(p, x, Stats.IncorrectOf);
    }
  }

  /** The mastery bar lies within 0 .. 100 and is 0 for a word never tested. */
  lemma MasteryInRange(p: seq<UserProgress>, id: string)
    requires LevelsInRange(p)
    ensures 0 <= Mastery(p, id) <= 100
    ensures !HasRecord(p, id) ==> Mastery(p, id) == 0
  {
  }

  /** The bar shows ten times the half-step level of the word's record, that
      is `level / 5 * 100` in the application's units. */
  lemma MasteryOfRecord(p: seq<UserProgress>, id: string, k: nat)
    requires UniqueWordIds(p)
    requires k < |p| && p[k].wordId == id
    ensures Mastery(p, id) == 10 * p[k].level
  {
    forall i | 0 <= i < k ensures p[i].wordId != id {
      assert p[i].wordId != p[k].wordId;
    }
    FindIndexAt(p, id, k);
  }

  /** After an answer the bar moves by the level rule: up 10 points, stopping
      at 100, when correct; down 20 points, stopping at 0, when wrong. */
  lemma MasteryAfterAnswer(p: seq<UserProgress>, id: string, now: int)
    requires UniqueWordIds(p) && HasRecord(p, id)
    ensures Mastery(Recorded(p, id, true, now), id) == Min(100, Mastery(p, id) + 10)
    ensures Mastery(Recorded(p, id, false, now), id) == Max(0, Mastery(p, id) - 20)
  {
    var k := FindIndex(p, id);
    RecordedUpdatesExisting(p, id, true, now, k);
    RecordedUpdatesExisting(p, id, false, now, k);
    var r1, r2 := Recorded(p, id, true, now), Recorded(p, id, false, now);
    FindIndexAt(p, id, k);
    FindIndexAt(r1, id, k);
    FindIndexAt(r2, id, k);
  }

  /** The bar is full after a correct answer at full mastery and empty after
      a wrong answer at none. */
  lemma MasterySaturates(p: seq<UserProgress>, id: string, now: int)
    requires UniqueWordIds(p) && HasRecord(p, id)
    ensures Mastery(p, id) == 100 ==> Mastery(Recorded(p, id, true, now), id) == 100
    ensures Mastery(p, id) == 0 ==> Mastery(Recorded(p, id, false, now), id) == 0
  {
    var k := FindIndex(p, id);
    RecordedUpdatesExisting(p, id, true, now, k);
    RecordedUpdatesExisting(p, id, false, now, k);
    var r1, r2 := Recorded(p, id, true, now), Recorded(p, id, false, now);
    FindIndexAt(p, id, k);
    FindIndexAt(r1, id, k);
    FindIndexAt(r2, id, k);
  }

  // ---------------------------------------------------------------------------
  // The session

  /** A reordering of the positions 0 .. n-1; the shuffle is supplied from outside. */
  predicate IsPermutation(perm: seq<nat>, n: nat) {
    && |perm| == n
    && (forall i :: 0 <= i < n ==> perm[i] < n)
    && (forall i, j :: 0 <= i < j < n ==> perm[i] != perm[j])
  }

  /** The catalog's entries in the order `perm` gives them. */
  function Shuffled(catalog: seq<GreekWord>, perm: seq<nat>): (r: seq<GreekWord>)
    requires IsPermutation(perm, |catalog|)
    ensures |r| == |catalog|
    ensures forall w :: w in r ==> w in catalog
  {
    seq(|catalog|, i requires 0 <= i < |catalog| => catalog[perm[i]])
  }

  /** `shuffled.slice(0, 10)`. */
  function SessionWords(catalog: seq<GreekWord>, perm: seq<nat>): (ws: seq<GreekWord>)
    requires IsPermutation(perm, |catalog|)
    ensures |ws| == Min(SessionSize, |catalog|)
    ensures forall w :: w in ws ==> w in catalog
  {
    Shuffled(catalog, perm)[..Min(SessionSize, |catalog|)]
  }

  /** A session holds min(10, n) words, each one taken from the catalog, each
      catalog position at most once; with distinct ids no word repeats. */
  lemma SessionSelection(catalog: seq<GreekWord>, perm: seq<nat>)
    requires IsPermutation(perm, |catalog|)
    ensures |SessionWords(catalog, perm)| == Min(SessionSize, |catalog|)
    ensures forall i :: 0 <= i < |SessionWords(catalog, perm)| ==>
      SessionWords(catalog, perm)[i] == catalog[perm[i]]
    ensures forall w :: w in SessionWords(catalog, perm) ==> w in catalog
    ensures UniqueIds(catalog) ==> UniqueIds(SessionWords(catalog, perm))
  {
    var ws := SessionWords(catalog, perm);
    forall w | w in ws ensures w in catalog {
      var i :| 0 <= i < |ws| && ws[i] == w;
      assert w == catalog[perm[i]];
    }
  }

  /** With the real catalog every session is a full ten distinct words. */
  lemma FullSession(perm: seq<nat>)
    requires IsPermutation(perm, |Catalog.Vocabulary|)
    ensures |SessionWords(Catalog.Vocabulary, perm)| == SessionSize
    ensures UniqueIds(SessionWords(Catalog.Vocabulary, perm))
  {
    Catalog.VocabularySize();
    Catalog.VocabularyIdsUnique();
    SessionSelection(Catalog.Vocabulary, perm);
  }

  /** The learner's state as the application holds it. */
  class AppState {
    /** The progress records on screen. */
    var progress: seq<UserProgress>
    /** The saved snapshot in browser storage, if any. */
    var stored: Option<seq<UserProgress>>
    var mode: QuizMode
    /** The current session's words, the card shown and the session score. */
    var words: seq<GreekWord>
    var index: nat
    var score: nat
    /** The answers of the current session, oldest first. */
    ghost var answers: seq<bool>

    ghost predicate Valid()
      reads this
    {
      && (if |words| == 0 then index == 0 else index < |words|)
      && score == CountCorrect(answers)
    }

    static ghost function CountCorrect(answers: seq<bool>): nat {
      if answers == [] then 0
      else CountCorrect(answers[..|answers| - 1]) + (if answers[|answers| - 1] then 1 else 0)
    }

    /** A fresh page: no records yet, the default direction and no session.
        `saved` is what browser storage holds. */
    constructor (saved: Option<seq<UserProgress>>)
      ensures Valid()
      ensures progress == [] && stored == saved && mode == GreekToEnglish
      ensures words == [] && index == 0 && score == 0 && answers == []
    {
      progress := [];
      stored := saved;
      mode := GreekToEnglish;
      words := [];
      index := 0;
      score := 0;
      answers := [];
    }

    /** The mount effect: a saved snapshot replaces the records. */
    method LoadSaved()
      modifies this`progress
      ensures progress == if stored.Some? then stored.value else old(progress)
    {
      if stored.Some? {
        progress := stored.value;
      }
    }

    /** Shows the records and writes the same snapshot to storage. */
    method SaveProgress(newProgress: seq<UserProgress>)
      modifies this`progress, this`stored
      ensures progress == newProgress && stored == Some(newProgress)
    {
      progress := newProgress;
      stored := Some(newProgress);
    }

    /** Resetting empties the records and the saved snapshot. */
    method ResetProgress()
      modifies this`progress, this`stored
      ensures progress == [] && stored == Some([])
    {
      SaveProgress([]);
    }

    method SetMode(m: QuizMode)
      modifies this`mode
      ensures mode == m
    {
      mode := m;
    }

    /** Starts a session of the first ten entries of a shuffled copy of the catalog. */
    method StartQuiz(perm: seq<nat>)
      requires IsPermutation(perm, |Catalog.Vocabulary|)
      modifies this`words, this`index, this`score, this`answers
      ensures Valid()
      ensures words == SessionWords(Catalog.Vocabulary, perm)
      ensures |words| == SessionSize && UniqueIds(words)
      ensures forall w :: w in words ==> w in Catalog.Vocabulary
      ensures index == 0 && score == 0 && answers == []
    {
      FullSession(perm);
      SessionSelection(Catalog.Vocabulary, perm);
      var shuffled := Shuffled(Catalog.Vocabulary, perm);
      words := shuffled[..Min(SessionSize, |shuffled|)];
      index := 0;
      score := 0;
      answers := [];
    }

    /** The list `[...progress]` after an answer for word `id`: the first
        record with that id gets its counter, level and time updated field by
        field, or a first record is pushed. */
    static method UpdatedProgress(progress: seq<UserProgress>, id: string, correct: bool, now: int)
      returns (newProgress: seq<UserProgress>)
      ensures newProgress == Recorded(progress, id, correct, now)
    {
      newProgress := progress;
      var existingIndex := FindIndex(newProgress, id);
      if existingIndex > -1 {
        var rec := newProgress[existingIndex];
        if correct {
          rec := rec.(correctCount := rec.correctCount + 1);
          rec := rec.(level := Min(MaxLevel, rec.level + 1));
        } else {
          rec := rec.(incorrectCount := rec.incorrectCount + 1);
          rec := rec.(level := Max(0, rec.level - 2));
        }
        rec := rec.(lastTested := now);
        newProgress := newProgress[existingIndex := rec];
      } else {
        newProgress := newProgress + [UserProgress(
          id,
          if correct then 1 else 0,
          if correct then 0 else 1,
          now,
          if correct then 2 else 0)];
      }
    }

    /** `if (correct) setQuizScore(prev => prev + 1)`, with the answer logged. */
    method Score(correct: bool)
      requires score == CountCorrect(answers)
      modifies this`score, this`answers
      ensures score == old(score) + (if correct then 1 else 0)
      ensures answers == old(answers) + [correct]
      ensures score == CountCorrect(answers)
    {
      if correct {
        score := score + 1;
      }
      answers := answers + [correct];
      assert answers[..|answers| - 1] == old(answers);
    }

    /** Records an answer to the card shown: updates or creates the word's
        record, saves, scores, and moves to the next card unless this was the
        last one; `finished` says that the session is over. */
    method HandleAnswer(correct: bool, now: int) returns (finished: bool)
      requires Valid() && |words| > 0
      modifies this`progress, this`stored, this`score, this`index, this`answers
      ensures Valid()
      ensures progress == Recorded(old(progress), words[old(index)].id, correct, now)
      ensures stored == Some(progress)
      ensures score == old(score) + (if correct then 1 else 0)
      ensures answers == old(answers) + [correct]
      ensures finished <==> old(index) == |words| - 1
      ensures index == if finished then old(index) else old(index) + 1
    {
      var word := words[index];
      var newProgress := UpdatedProgress(progress, word.id, correct, now);
      SaveProgress(newProgress);
      Score(correct);
      finished := !(index < |words| - 1);
      if !finished {
        index := index + 1;
      }
    }
  }

  /** The session score never exceeds the number of answers given. */
  lemma {:induction false} ScoreAtMostAnswers(answers: seq<bool>)
    ensures AppState.CountCorrect(answers) <= |answers|
  {
    if answers != [] {
      ScoreAtMostAnswers(answers[..|answers| - 1]);
    }
  }
}
