/** The home screen's statistics panel: pure folds over the progress list. */
module Stats {
  import opened Types

  /** A left fold `progress.reduce((acc, p) => acc + f(p), 0)`. */
  function SumOf(p: seq<UserProgress>, f: UserProgress -> nat): (s: nat)
    ensures forall i :: 0 <= i < |p| ==> f(p[i]) <= s
  {
    if p == [] then 0 else SumOf(p[..|p| - 1], f) + f(p[|p| - 1])
  }

  function CorrectOf(r: UserProgress): nat { r.correctCount }

  function IncorrectOf(r: UserProgress): nat { r.incorrectCount }

  function TotalCorrect(p: seq<UserProgress>): (n: nat)
    ensures forall i :: 0 <= i < |p| ==> p[i].correctCount <= n
  {
    SumOf(p, CorrectOf)
  }

  function TotalIncorrect(p: seq<UserProgress>): (n: nat)
    ensures forall i :: 0 <= i < |p| ==> p[i].incorrectCount <= n
  {
    SumOf(p, IncorrectOf)
  }

  /** Mastery level 3.0 and above, that is 6 half-steps. */
  const MasteredLevel: int := 6

  predicate IsMastered(r: UserProgress) { r.level >= MasteredLevel }

  /** `progress.filter(p => p.level >= 3)`: the mastered records, in order. */
  function Mastered(p: seq<UserProgress>): (m: seq<UserProgress>)
    ensures |m| <= |p|
    ensures forall r :: r in m <==> r in p && IsMastered(r)
  {
    if p == [] then []
    else Mastered(p[..|p| - 1]) + (if IsMastered(p[|p| - 1]) then [p[|p| - 1]] else [])
  }

  /** `filter` keeps each mastered record as often as it occurs, and no other. */
  lemma {:induction false} MasteredMultiplicity(p: seq<UserProgress>)
    ensures forall r :: multiset(Mastered(p))[r] == if IsMastered(r) then multiset(p)[r] else 0
  {
    if p != [] {
      var init, last := p[..|p| - 1], p[|p| - 1];
      MasteredMultiplicity(init);
      assert p == init + [last];
      assert multiset(p) == multiset(init) + multiset{last};
    }
  }

  function MasteredCount(p: seq<UserProgress>): (n: nat)
    ensures n <= |p|
  {
    |Mastered(p)|
  }

  /** A displayed percentage; JavaScript's 0 / 0 gives NaN. */
  datatype Percentage = Percent(value: int) | NotANumber

  lemma NonNegativeFactor(t: int, x: int)
    requires t > 0 && t * x >= 0
    ensures x >= 0
  {
  }

  /** `Math.round(c / t * 100)` computed exactly, rounding halves up. */
  function RoundedPercent(c: nat, t: nat): (r: int)
    requires 0 < t && c <= t
    ensures 2 * t * r <= 200 * c + t < 2 * t * (r + 1)
    ensures 0 <= r <= 100
  {
    var q := (200 * c + t) / (2 * t);
    assert (200 * c + t) % (2 * t) < 2 * t;
    assert 2 * t * q <= 200 * c + t;
    assert t * (201 - 2 * q) >= 0;
    NonNegativeFactor(t, 201 - 2 * q);
    q
  }

  /** All of t rounds to 100 percent. */
  lemma RoundedAll(t: nat)
    requires t > 0
    ensures RoundedPercent(t, t) == 100
  {
    var r := RoundedPercent(t, t);
    assert t * (2 * r - 198) > 0;
    NonNegativeFactor(t, 2 * r - 199);
  }

  /** None of t rounds to 0 percent. */
  lemma RoundedNone(t: nat)
    requires t > 0
    ensures RoundedPercent(0, t) == 0
  {
    var r := RoundedPercent(0, t);
    assert t * (1 - 2 * r) >= 0;
    NonNegativeFactor(t, 1 - 2 * r);
  }

  /** The accuracy shown: 0 when nothing has been seen, else the rounded
      share of correct answers among all answers. */
  function Accuracy(p: seq<UserProgress>): (a: Percentage)
    ensures |p| == 0 ==> a == Percent(0)
    ensures a.Percent? ==> 0 <= a.value <= 100
    ensures a == NotANumber <==> |p| > 0 && TotalCorrect(p) + TotalIncorrect(p) == 0
    ensures |p| > 0 && TotalCorrect(p) + TotalIncorrect(p) > 0 ==>
      a == Percent(RoundedPercent(TotalCorrect(p), TotalCorrect(p) + TotalIncorrect(p)))
  {
    if |p| > 0 then
      var c, t := TotalCorrect(p), TotalCorrect(p) + TotalIncorrect(p);
      if t == 0 then NotANumber else Percent(RoundedPercent(c, t))
    else Percent(0)
  }

  /** The four figures of the panel. */
  datatype Summary = Summary(wordsSeen: nat, accuracy: Percentage, mastered: nat, totalCorrect: nat)

  function Summarize(p: seq<UserProgress>): (s: Summary)
    ensures s.wordsSeen == |p| && s.mastered <= s.wordsSeen
    ensures s.accuracy.Percent? ==> 0 <= s.accuracy.value <= 100
  {
    Summary(|p|, Accuracy(p), MasteredCount(p), TotalCorrect(p))
  }

  lemma {:induction false} SumOfConcat(a: seq<UserProgress>, b: seq<UserProgress>, f: UserProgress -> nat)
    ensures SumOf(a + b, f) == SumOf(a, f) + SumOf(b, f)
  {
    if b != [] {
      assert (a + b)[..|a + b| - 1] == a + b[..|b| - 1];
      SumOfConcat(a, b[..|b| - 1], f);
    } else {
      assert a + b == a;
    }
  }

  /** Replacing one record changes a sum by the difference of that record's terms. */
  lemma SumOfUpdate(p: seq<UserProgress>, k: nat, x: UserProgress, f: UserProgress -> nat)
    requires k < |p|
    ensures SumOf(p[k := x], f) + f(p[k]) == SumOf(p, f) + f(x)
  {
    assert p == p[..k] + [p[k]] + p[k + 1..];
    assert p[k := x] == p[..k] + [x] + p[k + 1..];
    SumOfConcat(p[..k] + [p[k]], p[k + 1..], f);
    SumOfConcat(p[..k] + [x], p[k + 1..], f);
    SumOfConcat(p[..k], [p[k]], f);
    SumOfConcat(p[..k], [x], f);
    assert [p[k]][..0] == [] && [x][..0] == [];
  }

  /** Appending one record adds its term. */
  lemma SumOfAppend(p: seq<UserProgress>, x: UserProgress, f: UserProgress -> nat)
    ensures SumOf(p + [x], f) == SumOf(p, f) + f(x)
  {
    assert (p + [x])[..|p + [x]| - 1] == p;
  }

  lemma MultisetWithout(q: seq<UserProgress>, k: nat)
    requires k < |q|
    ensures multiset(q[..k] + q[k + 1..]) == multiset(q) - multiset{q[k]}
  {
    assert q == q[..k] + [q[k]] + q[k + 1..];
  }

  /** A sum does not depend on the order of the records. */
  lemma {:induction false} SumOfPermutation(p: seq<UserProgress>, q: seq<UserProgress>, f: UserProgress -> nat)
    requires multiset(p) == multiset(q)
    ensures SumOf(p, f) == SumOf(q, f)
  {
    if p == [] {
      assert |q| == |multiset(q)| == 0;
    } else {
      var last := p[|p| - 1];
      assert p == p[..|p| - 1] + [last];
      assert last in multiset(q);
      var k :| 0 <= k < |q| && q[k] == last;
      var rest := q[..k] + q[k + 1..];
      assert q == q[..k] + [last] + q[k + 1..];
      MultisetWithout(p, |p| - 1);
      MultisetWithout(q, k);
      assert p[..|p| - 1] + p[|p|..] == p[..|p| - 1];
      SumOfPermutation(p[..|p| - 1], rest, f);
      SumOfConcat(q[..k] + [last], q[k + 1..], f);
      SumOfConcat(q[..k], [last], f);
      SumOfConcat(q[..k], q[k + 1..], f);
      assert [last][..0] == [];
    }
  }

  function MasteredIndicator(r: UserProgress): nat { if IsMastered(r) then 1 else 0 }

  /** The mastered count is the sum of a 0/1 indicator. */
  lemma {:induction false} MasteredCountIsSum(p: seq<UserProgress>)
    ensures MasteredCount(p) == SumOf(p, MasteredIndicator)
  {
    if p != [] {
      MasteredCountIsSum(p[..|p| - 1]);
    }
  }

  /** Records never answered contribute nothing; with every record answered
      at least once, a non-empty list has a positive answer total. */
  lemma {:induction false} AnsweredTotalPositive(p: seq<UserProgress>)
    requires EveryRecordAnswered(p)
    ensures TotalCorrect(p) + TotalIncorrect(p) >= |p|
  {
    if p != [] {
      var init := p[..|p| - 1];
      assert EveryRecordAnswered(init) by {
        forall i | 0 <= i < |init| ensures init[i].correctCount + init[i].incorrectCount >= 1 {
          assert init[i] == p[i];
        }
      }
      AnsweredTotalPositive(init);
    }
  }

  /** The accuracy is NaN only when records exist but no answer was ever
      counted; when every record was answered it is a percentage in 0..100. */
  lemma AccuracyDefined(p: seq<UserProgress>)
    requires EveryRecordAnswered(p)
    ensures Accuracy(p).Percent? && 0 <= Accuracy(p).value <= 100
    ensures |p| > 0 ==>
      Accuracy(p).value == RoundedPercent(TotalCorrect(p), TotalCorrect(p) + TotalIncorrect(p))
  {
    AnsweredTotalPositive(p);
  }

  /** Accuracy is 100 when nothing was answered wrong (and something was answered). */
  lemma AccuracyPerfect(p: seq<UserProgress>)
    requires |p| > 0 && TotalIncorrect(p) == 0 && TotalCorrect(p) > 0
    ensures Accuracy(p) == Percent(100)
  {
    RoundedAll(TotalCorrect(p));
  }

  /** Accuracy is 0 when nothing was answered right. */
  lemma AccuracyNone(p: seq<UserProgress>)
    requires |p| > 0 && TotalCorrect(p) == 0 && TotalIncorrect(p) > 0
    ensures Accuracy(p) == Percent(0)
  {
    RoundedNone(TotalIncorrect(p));
  }

  /** With no records the panel shows 0 words, 0% and no division is made. */
  lemma EmptySummary()
    ensures Summarize([]) == Summary(0, Percent(0), 0, 0)
  {
  }

  /** The mastered count never exceeds the words seen. */
  lemma MasteredAtMostSeen(p: seq<UserProgress>)
    ensures Summarize(p).mastered <= Summarize(p).wordsSeen
  {
  }

  /** Reordering the progress list changes none of the figures. */
  lemma SummaryIgnoresOrder(p: seq<UserProgress>, q: seq<UserProgress>)
    requires multiset(p) == multiset(q)
    ensures Summarize(p) == Summarize(q)
  {
    assert |p| == |multiset(p)| == |multiset(q)| == |q|;
    SumOfPermutation(p, q, CorrectOf);
    SumOfPermutation(p, q, IncorrectOf);
    SumOfPermutation(p, q, MasteredIndicator);
    MasteredCountIsSum(p);
    MasteredCountIsSum(q);
    assert TotalCorrect(p) == TotalCorrect(q) && TotalIncorrect(p) == TotalIncorrect(q);
    assert Accuracy(p) == Accuracy(q);
    assert MasteredCount(p) == MasteredCount(q);
  }
}
