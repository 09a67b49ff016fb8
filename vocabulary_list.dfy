/** The lexicon screen's search: an order-preserving, case-insensitive
    substring filter over the catalog. */
module VocabularyList {
  import opened Types
  import opened Text
  import Catalog

  /** The entry's Greek word, definition or transliteration contains the
      term, both sides lower-cased. */
  predicate Matches(w: GreekWord, term: string)
    ensures Matches(w, term) ==> |term| <= |w.word| || |term| <= |w.definition| || |term| <= |w.transliteration|
  {
    var t := Lower(term);
    Contains(Lower(w.word), t) || Contains(Lower(w.definition), t) || Contains(Lower(w.transliteration), t)
  }

  /** `a` is `b` with some entries dropped, the rest in their order. */
  predicate IsSubsequence(a: seq<GreekWord>, b: seq<GreekWord>) {
    if a == [] then true
    else if b == [] then false
    else if a[0] == b[0] then IsSubsequence(a[1..], b[1..])
    else IsSubsequence(a, b[1..])
  }

  /** `ws.filter(word => Matches(word, term))`. */
  function Filter(ws: seq<GreekWord>, term: string): (r: seq<GreekWord>)
    ensures |r| <= |ws|
    ensures forall w :: w in r <==> w in ws && Matches(w, term)
    ensures IsSubsequence(r, ws)
  {
    if ws == [] then []
    else if Matches(ws[0], term) then [ws[0]] + Filter(ws[1..], term)
    else Filter(ws[1..], term)
  }

  /** `filter` keeps each matching entry as often as it occurs, and no other. */
  lemma {:induction false} FilterMultiplicity(ws: seq<GreekWord>, term: string)
    ensures forall w :: multiset(Filter(ws, term))[w] == if Matches(w, term) then multiset(ws)[w] else 0
  {
    if ws != [] {
      FilterMultiplicity(ws[1..], term);
      assert ws == [ws[0]] + ws[1..];
      assert multiset(ws) == multiset{ws[0]} + multiset(ws[1..]);
    }
  }

  /** The entries the lexicon lists for a search term. */
  function FilteredVocabulary(term: string): (r: seq<GreekWord>)
    ensures |r| <= |Catalog.Vocabulary|
    ensures forall w :: w in r ==> Matches(w, term)
  {
    Filter(Catalog.Vocabulary, term)
  }

  /** "No words found" is shown for an empty result. */
  predicate ShowsNoWordsFound(term: string)
    ensures ShowsNoWordsFound(term) ==> term != []
  {
    FilterEmptyTerm(Catalog.Vocabulary);
    |FilteredVocabulary(term)| == 0
  }

  /** Every entry matches the empty term, so an empty search lists the whole catalog. */
  lemma {:induction false} FilterEmptyTerm(ws: seq<GreekWord>)
    ensures Filter(ws, "") == ws
  {
    if ws != [] {
      ContainsEmpty(Lower(ws[0].word));
      assert Lower("") == [];
      FilterEmptyTerm(ws[1..]);
    }
  }

  /** Terms equal up to letter case select the same entries. */
  lemma {:induction false} FilterIgnoresTermCase(ws: seq<GreekWord>, t1: string, t2: string)
    requires Lower(t1) == Lower(t2)
    ensures Filter(ws, t1) == Filter(ws, t2)
  {
    if ws != [] {
      FilterIgnoresTermCase(ws[1..], t1, t2);
    }
  }

  /** Searching for the lower-cased term is searching for the term. */
  lemma FilterOfLoweredTerm(ws: seq<GreekWord>, t: string)
    ensures Filter(ws, Lower(t)) == Filter(ws, t)
  {
    LowerIdempotent(t);
    FilterIgnoresTermCase(ws, Lower(t), t);
  }

  /** An entry that matches a longer term matches every part of it. */
  lemma MatchesNarrower(w: GreekWord, shorter: string, longer: string)
    requires Contains(longer, shorter) && Matches(w, longer)
    ensures Matches(w, shorter)
  {
    LowerContains(longer, shorter);
    var t1, t2 := Lower(shorter), Lower(longer);
    if Contains(Lower(w.word), t2) {
      ContainsTransitive(Lower(w.word), t2, t1);
    } else if Contains(Lower(w.definition), t2) {
      ContainsTransitive(Lower(w.definition), t2, t1);
    } else {
      ContainsTransitive(Lower(w.transliteration), t2, t1);
    }
  }

  /** A subsequence of the tail of `b` is a subsequence of `b`. */
  lemma {:induction false} SubsequenceOfTail(a: seq<GreekWord>, b: seq<GreekWord>)
    requires |b| > 0 && IsSubsequence(a, b[1..])
    ensures IsSubsequence(a, b)
    decreases |a| + |b|, 1
  {
    if a != [] && a[0] == b[0] {
      SubsequenceDropFirst(a, b[1..]);
    }
  }

  /** Dropping the first entry of a subsequence keeps a subsequence. */
  lemma {:induction false} SubsequenceDropFirst(a: seq<GreekWord>, c: seq<GreekWord>)
    requires |a| > 0 && IsSubsequence(a, c)
    ensures IsSubsequence(a[1..], c)
    decreases |a| + |c|, 0
  {
    if a[0] == c[0] {
      if |a| > 1 {
        SubsequenceOfTail(a[1..], c);
      }
    } else {
      SubsequenceDropFirst(a, c[1..]);
      SubsequenceOfTail(a[1..], c);
    }
  }

  /** Typing more of a term never brings back an entry: the result for a term
      that contains the old one is a subsequence of the old result. */
  lemma {:induction false} FilterNarrows(ws: seq<GreekWord>, shorter: string, longer: string)
    requires Contains(longer, shorter)
    ensures IsSubsequence(Filter(ws, longer), Filter(ws, shorter))
  {
    if ws != [] {
      FilterNarrows(ws[1..], shorter, longer);
      var rest2, rest1 := Filter(ws[1..], longer), Filter(ws[1..], shorter);
      if Matches(ws[0], longer) {
        MatchesNarrower(ws[0], shorter, longer);
        assert ([ws[0]] + rest2)[1..] == rest2;
        assert ([ws[0]] + rest1)[1..] == rest1;
      } else if Matches(ws[0], shorter) {
        assert ([ws[0]] + rest1)[1..] == rest1;
        SubsequenceOfTail(rest2, [ws[0]] + rest1);
      }
    }
  }

  /** The result is empty exactly when no entry matches. */
  lemma FilterEmptyIff(ws: seq<GreekWord>, term: string)
    ensures |Filter(ws, term)| == 0 <==> forall i :: 0 <= i < |ws| ==> !Matches(ws[i], term)
  {
    var r := Filter(ws, term);
    if |r| > 0 {
      assert r[0] in r;
    }
  }

  /** "No words found" appears exactly when no catalog entry matches. */
  lemma NoWordsFoundIff(term: string)
    ensures ShowsNoWordsFound(term) <==> forall i :: 0 <= i < |Catalog.Vocabulary| ==> !Matches(Catalog.Vocabulary[i], term)
  {
    FilterEmptyIff(Catalog.Vocabulary, term);
  }

  /** An empty search lists all 25 entries, so the message is not shown. */
  lemma EmptySearchListsCatalog()
    ensures FilteredVocabulary("") == Catalog.Vocabulary
    ensures !ShowsNoWordsFound("")
  {
    var v := Catalog.Vocabulary;
    FilterEmptyTerm(v);
    Catalog.VocabularySize();
    assert |FilteredVocabulary("")| == 25;
  }
}
