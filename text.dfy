/** The string primitives the application calls: `toLowerCase`, `trim`,
    `includes` and `split(',')[0]`, over `seq<char>`. */
module Text {

  /** The characters ECMAScript's `trim` removes: WhiteSpace and LineTerminator. */
  predicate IsSpace(c: char) {
    || c == '\t' || c == '\n' || c == '\U{B}' || c == '\U{C}' || c == '\r' || c == ' '
    || c == '\U{A0}' || c == '\U{1680}' || ('\U{2000}' <= c <= '\U{200A}')
    || c == '\U{2028}' || c == '\U{2029}' || c == '\U{202F}' || c == '\U{205F}'
    || c == '\U{3000}' || c == '\U{FEFF}'
  }

  predicate AllSpace(s: string) {
    forall i :: 0 <= i < |s| ==> IsSpace(s[i])
  }

  /** Lower-case mapping of one character: Latin A-Z and the unaccented Greek
      capitals (U+0391..U+03A9, U+03A2 being unassigned) move down by 32;
      every other character is left as it is. Capital sigma always becomes
      the medial σ: the word-final ς that `toLowerCase` gives at the end of a
      word depends on the neighbouring characters and is not part of this
      per-character mapping. */
  function LowerChar(c: char): (d: char)
    ensures IsSpace(d) == IsSpace(c)
    ensures d == ',' <==> c == ','
  {
    if 'A' <= c <= 'Z' then (c as int + 32) as char
    else if '\U{391}' <= c <= '\U{3A9}' && c != '\U{3A2}' then (c as int + 32) as char
    else c
  }

  /** `s.toLowerCase()`, character by character. */
  function Lower(s: string): (r: string)
    ensures |r| == |s|
    ensures forall i :: 0 <= i < |s| ==> r[i] == LowerChar(s[i])
  {
    if s == [] then [] else [LowerChar(s[0])] + Lower(s[1..])
  }

  lemma LowerIdempotent(s: string)
    ensures Lower(Lower(s)) == Lower(s)
  {
  }

  lemma LowerAppend(a: string, b: string)
    ensures Lower(a + b) == Lower(a) + Lower(b)
  {
  }

  /** The number of white-space characters `s` starts with. */
  function LeadingSpaces(s: string): (n: nat)
    ensures n <= |s| && AllSpace(s[..n])
    ensures n == |s| || !IsSpace(s[n])
  {
    if |s| > 0 && IsSpace(s[0]) then 1 + LeadingSpaces(s[1..]) else 0
  }

  /** The number of white-space characters `s` ends with. */
  function TrailingSpaces(s: string): (n: nat)
    ensures n <= |s| && AllSpace(s[|s| - n..])
    ensures n == |s| || !IsSpace(s[|s| - 1 - n])
  {
    if |s| > 0 && IsSpace(s[|s| - 1]) then
      var n := 1 + TrailingSpaces(s[..|s| - 1]);
      assert s[|s| - n..] == s[..|s| - 1][|s| - n..] + [s[|s| - 1]];
      n
    else 0
  }

  function TrimStart(s: string): string {
    s[LeadingSpaces(s)..]
  }

  function TrimEnd(s: string): string {
    s[..|s| - TrailingSpaces(s)]
  }

  /** `s.trim()`: what is left starts and ends with a non-space, or is empty. */
  function Trim(s: string): (r: string)
    ensures r == [] || (!IsSpace(r[0]) && !IsSpace(r[|r| - 1]))
  {
    var t := TrimStart(s);
    var r := TrimEnd(t);
    assert r != [] ==> r[0] == s[LeadingSpaces(s)];
    r
  }

  /** A string made only of white space consists of leading spaces alone. */
  lemma LeadingAllSpace(s: string)
    requires AllSpace(s)
    ensures LeadingSpaces(s) == |s|
  {
    var n := LeadingSpaces(s);
    if n < |s| {
      assert IsSpace(s[n]);
    }
  }

  /** Trimming a string made only of white space leaves nothing. */
  lemma TrimAllSpace(s: string)
    requires AllSpace(s)
    ensures Trim(s) == []
  {
    LeadingAllSpace(s);
  }

  lemma {:induction false} LeadingSpacesPadded(a: string, s: string)
    requires AllSpace(a)
    ensures LeadingSpaces(a + s) == |a| + LeadingSpaces(s)
  {
    if a != [] {
      assert IsSpace((a + s)[0]);
      assert (a + s)[1..] == a[1..] + s;
      LeadingSpacesPadded(a[1..], s);
    } else {
      assert a + s == s;
    }
  }

  lemma {:induction false} TrailingSpacesPadded(s: string, b: string)
    requires AllSpace(b)
    ensures TrailingSpaces(s + b) == |b| + TrailingSpaces(s)
  {
    if b != [] {
      assert IsSpace((s + b)[|s + b| - 1]);
      assert (s + b)[..|s + b| - 1] == s + b[..|b| - 1];
      TrailingSpacesPadded(s, b[..|b| - 1]);
    } else {
      assert s + b == s;
    }
  }

  lemma {:induction false} LeadingSpacesAppend(s: string, b: string)
    requires LeadingSpaces(s) < |s|
    ensures LeadingSpaces(s + b) == LeadingSpaces(s)
  {
    if IsSpace(s[0]) {
      assert (s + b)[0] == s[0];
      assert (s + b)[1..] == s[1..] + b;
      LeadingSpacesAppend(s[1..], b);
    } else {
      assert (s + b)[0] == s[0];
    }
  }

  lemma TrimStartPadded(a: string, s: string)
    requires AllSpace(a)
    ensures TrimStart(a + s) == TrimStart(s)
  {
    LeadingSpacesPadded(a, s);
    assert (a + s)[|a|..] == s;
  }

  lemma TrimEndPadded(s: string, b: string)
    requires AllSpace(b)
    ensures TrimEnd(s + b) == TrimEnd(s)
  {
    TrailingSpacesPadded(s, b);
    assert (s + b)[..|s|] == s;
  }

  lemma TrimStartAppend(s: string, b: string)
    requires LeadingSpaces(s) < |s|
    ensures TrimStart(s + b) == TrimStart(s) + b
  {
    LeadingSpacesAppend(s, b);
  }

  /** Leading and trailing white space never changes what `trim` returns. */
  lemma TrimPadded(a: string, s: string, b: string)
    requires AllSpace(a) && AllSpace(b)
    ensures Trim(a + s + b) == Trim(s)
  {
    assert a + s + b == a + (s + b);
    TrimStartPadded(a, s + b);
    if LeadingSpaces(s) < |s| {
      TrimStartAppend(s, b);
      TrimEndPadded(TrimStart(s), b);
    } else {
      assert AllSpace(s + b);
      TrimAllSpace(s + b);
      TrimAllSpace(s);
    }
  }

  /** Lower-casing commutes with taking a slice. */
  lemma LowerSlice(s: string, i: nat, j: nat)
    requires i <= j <= |s|
    ensures Lower(s)[i..j] == Lower(s[i..j])
  {
    var whole, part, t := Lower(s), Lower(s[i..j]), s[i..j];
    assert |part| == j - i;
    forall k | 0 <= k < j - i
      ensures whole[i + k] == part[k]
    {
      assert t[k] == s[i + k];
    }
    assert whole[i..j] == part;
  }

  lemma {:induction false} LeadingSpacesLower(s: string)
    ensures LeadingSpaces(Lower(s)) == LeadingSpaces(s)
  {
    if |s| > 0 && IsSpace(s[0]) {
      assert Lower(s)[1..] == Lower(s[1..]);
      LeadingSpacesLower(s[1..]);
    }
  }

  lemma {:induction false} TrailingSpacesLower(s: string)
    ensures TrailingSpaces(Lower(s)) == TrailingSpaces(s)
  {
    if |s| > 0 && IsSpace(s[|s| - 1]) {
      assert Lower(s)[..|s| - 1] == Lower(s[..|s| - 1]);
      TrailingSpacesLower(s[..|s| - 1]);
    }
  }

  lemma TrimStartLower(s: string)
    ensures TrimStart(Lower(s)) == Lower(TrimStart(s))
  {
    LeadingSpacesLower(s);
    LowerSlice(s, LeadingSpaces(s), |s|);
  }

  lemma TrimEndLower(s: string)
    ensures TrimEnd(Lower(s)) == Lower(TrimEnd(s))
  {
    TrailingSpacesLower(s);
    var m := |s| - TrailingSpaces(s);
    LowerSlice(s, 0, m);
    assert Lower(s)[..m] == Lower(s)[0..m];
    assert s[..m] == s[0..m];
  }

  /** `trim` and `toLowerCase` commute, so `s.trim().toLowerCase()` equals
      `s.toLowerCase().trim()`. */
  lemma TrimLowerCommute(s: string)
    ensures Trim(Lower(s)) == Lower(Trim(s))
  {
    TrimStartLower(s);
    TrimEndLower(TrimStart(s));
  }

  /** A string with no blank at either end is its own trim. */
  lemma TrimUnpadded(s: string)
    requires s == [] || (!IsSpace(s[0]) && !IsSpace(s[|s| - 1]))
    ensures Trim(s) == s
  {
    if s != [] {
      assert TrimStart(s) == s;
      assert s[..|s|] == s;
    }
  }

  /** A string without capitals is its own lower case. */
  lemma LowerOfLowerCase(s: string)
    requires forall i :: 0 <= i < |s| ==> LowerChar(s[i]) == s[i]
    ensures Lower(s) == s
  {
  }

  /** A string that starts with a non-space does not trim to nothing. */
  lemma TrimNonBlank(s: string)
    requires |s| > 0 && !IsSpace(s[0])
    ensures Trim(s) != []
  {
    assert TrimStart(s) == s;
  }

  /** Trimming keeps a contiguous piece of the string, so it adds no character. */
  lemma TrimSubstring(s: string, c: char)
    requires c in Trim(s)
    ensures c in s
  {
    var k :| 0 <= k < |Trim(s)| && Trim(s)[k] == c;
    assert s[LeadingSpaces(s) + k] == c;
  }

  /** `s.split(',')[0]`: the prefix of `s` before its first comma, or all of
      `s` when there is none. */
  function FirstPiece(s: string): (r: string)
    ensures |r| <= |s| && r == s[..|r|]
    ensures ',' !in r
    ensures |r| == |s| || s[|r|] == ','
  {
    if s == [] || s[0] == ',' then [] else [s[0]] + FirstPiece(s[1..])
  }

  /** The first piece ends at the first comma: a comma at `k` with none before
      it cuts the string there. */
  lemma FirstPieceAt(s: string, k: nat)
    requires k <= |s| && ',' !in s[..k] && (k == |s| || s[k] == ',')
    ensures FirstPiece(s) == s[..k]
  {
    var r := FirstPiece(s);
    forall i | 0 <= i < k
      ensures s[i] != ','
    {
      assert s[..k][i] == s[i];
    }
    forall i | 0 <= i < |r|
      ensures s[i] != ','
    {
      assert r[i] == s[i];
    }
  }

  /** A string without a comma is its own first piece. */
  lemma FirstPieceNoComma(s: string)
    requires ',' !in s
    ensures FirstPiece(s) == s
  {
  }

  /** `sub` occurs in `s` at position `i`. */
  predicate OccursAt(s: string, sub: string, i: nat) {
    i + |sub| <= |s| && s[i..i + |sub|] == sub
  }

  /** `s.includes(sub)`. */
  predicate Contains(s: string, sub: string)
    ensures Contains(s, sub) ==> |sub| <= |s|
  {
    exists i: nat | i <= |s| :: OccursAt(s, sub, i)
  }

  /** Every string contains the empty string. */
  lemma ContainsEmpty(s: string)
    ensures Contains(s, [])
  {
    assert OccursAt(s, [], 0);
  }

  /** Containment is transitive. */
  lemma ContainsTransitive(a: string, b: string, c: string)
    requires Contains(a, b) && Contains(b, c)
    ensures Contains(a, c)
  {
    var i: nat :| i <= |a| && OccursAt(a, b, i);
    var j: nat :| j <= |b| && OccursAt(b, c, j);
    assert a[i + j..i + j + |c|] == c by {
      forall k | 0 <= k < |c|
        ensures a[i + j + k] == c[k]
      {
        assert a[i..i + |b|][j + k] == b[j + k];
        assert b[j..j + |c|][k] == c[k];
      }
    }
    assert OccursAt(a, c, i + j);
  }

  /** Lower-casing both sides keeps an occurrence. */
  lemma LowerContains(s: string, sub: string)
    requires Contains(s, sub)
    ensures Contains(Lower(s), Lower(sub))
  {
    var i: nat :| i <= |s| && OccursAt(s, sub, i);
    assert Lower(s)[i..i + |sub|] == Lower(sub) by {
      forall k | 0 <= k < |sub|
        ensures Lower(s)[i + k] == Lower(sub)[k]
      {
        assert s[i..i + |sub|][k] == sub[k];
      }
    }
    assert OccursAt(Lower(s), Lower(sub), i);
  }
}
