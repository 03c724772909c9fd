/** Text primitives the keyword filter relies on: lower-casing a string and
    testing whether one string occurs inside another (Python's `str.lower()`
    and the `in` operator on two strings).

    Lower-casing is ASCII case folding: 'A'..'Z' become 'a'..'z' and every
    other character is left alone. */
module CaseFold {

  predicate IsUpper(c: char) { 'A' <= c <= 'Z' }

  predicate IsLower(c: char) { 'a' <= c <= 'z' }

  /** The lower-case form of one character. */
  function LowerChar(c: char): (r: char)
    ensures IsUpper(c) ==> IsLower(r) && r as int - c as int == 32
    ensures !IsUpper(c) ==> r == c
    ensures !IsUpper(r)
  {
    if IsUpper(c) then (c as int + 32) as char else c
  }

  /** The upper-case form of one character (used only to state that matching
      ignores case). */
  function UpperChar(c: char): (r: char)
    ensures IsLower(c) ==> IsUpper(r) && c as int - r as int == 32
    ensures !IsLower(c) ==> r == c
  {
    if IsLower(c) then (c as int - 32) as char else c
  }

  /** Two characters that are equal, or the same ASCII letter in the two
      cases. */
  predicate CharCaseVariant(x: char, y: char)
  {
    || x == y
    || (IsUpper(x) && y as int == x as int + 32)
    || (IsLower(x) && y as int == x as int - 32)
  }

  /** Two strings that differ at most in the case of their letters. */
  predicate CaseVariant(a: string, b: string)
  {
    |a| == |b| && forall i :: 0 <= i < |a| ==> CharCaseVariant(a[i], b[i])
  }

  /** `s.lower()`: only letter case changes, and no upper-case letter is
      left. */
  function Lower(s: string): (r: string)
    ensures CaseVariant(s, r)
    ensures forall i :: 0 <= i < |r| ==> !IsUpper(r[i])
  {
    seq(|s|, i requires 0 <= i < |s| => LowerChar(s[i]))
  }

  /** `s.upper()` on the same ASCII terms: only letter case changes, and no
      lower-case letter is left. */
  function Upper(s: string): (r: string)
    ensures CaseVariant(s, r)
    ensures forall i :: 0 <= i < |r| ==> !IsLower(r[i])
  {
    seq(|s|, i requires 0 <= i < |s| => UpperChar(s[i]))
  }

  /** `word` occurs in `text` starting at position `i`. */
  predicate OccursAt(text: string, word: string, i: int)
  {
    0 <= i && i + |word| <= |text| && text[i..i + |word|] == word
  }

  /** `word in text`: `word` occurs in `text` at some position. */
  function Contains(text: string, word: string): (r: bool)
    ensures r <==> exists i :: OccursAt(text, word, i)
    decreases |text|
  {
    if |text| < |word| then
      assert forall i :: !OccursAt(text, word, i);
      false
    else if text[..|word|] == word then
      assert OccursAt(text, word, 0);
      true
    else
      var found := Contains(text[1..], word);
      assert found ==> exists i :: OccursAt(text, word, i) by {
        if found {
          var j :| OccursAt(text[1..], word, j);
          assert text[j + 1..j + 1 + |word|] == text[1..][j..j + |word|];
          assert OccursAt(text, word, j + 1);
        }
      }
      assert (exists i :: OccursAt(text, word, i)) ==> found by {
        if i :| OccursAt(text, word, i) {
          assert i != 0;
          assert text[1..][i - 1..i - 1 + |word|] == text[i..i + |word|];
          assert OccursAt(text[1..], word, i - 1);
        }
      }
      found
  }

  /** The two properties of `Lower` determine it: any case variant of `s`
      without upper-case letters is `Lower(s)`. */
  lemma {:induction false} LowerUnique(s: string, r: string)
    requires CaseVariant(s, r)
    requires forall i :: 0 <= i < |r| ==> !IsUpper(r[i])
    ensures r == Lower(s)
  {
    forall i | 0 <= i < |s|
      ensures r[i] == Lower(s)[i]
    {
      assert Lower(s)[i] == LowerChar(s[i]);
    }
  }

  /** Lower-casing twice is lower-casing once. */
  lemma {:induction false} LowerIdempotent(s: string)
    ensures Lower(Lower(s)) == Lower(s)
  {
    var l := Lower(s);
    forall i | 0 <= i < |l|
      ensures Lower(l)[i] == l[i]
    {
      assert Lower(l)[i] == LowerChar(l[i]);
    }
  }

  /** Strings that differ only in letter case have the same lower-case
      form. */
  lemma {:induction false} LowerIgnoresCase(a: string, b: string)
    requires CaseVariant(a, b)
    ensures Lower(a) == Lower(b)
  {
    forall i | 0 <= i < |a|
      ensures Lower(a)[i] == Lower(b)[i]
    {
      assert Lower(a)[i] == LowerChar(a[i]) && Lower(b)[i] == LowerChar(b[i]);
    }
  }

  /** `word` occurs in `text` at position `i`, each character of `text`
      matching the one of `word` or its other-case letter. */
  predicate MatchesAt(text: string, word: string, i: int)
  {
    0 <= i && i + |word| <= |text| && CaseVariant(text[i..i + |word|], word)
  }

  /** For a lower-case word, searching the lower-cased text is searching the
      text ignoring case. */
  lemma {:induction false} ContainsLowerIff(text: string, word: string)
    requires forall j :: 0 <= j < |word| ==> IsLower(word[j])
    ensures Contains(Lower(text), word) <==> exists i :: MatchesAt(text, word, i)
  {
    var l := Lower(text);
    forall i
      ensures OccursAt(l, word, i) <==> MatchesAt(text, word, i)
    {
      if 0 <= i && i + |word| <= |text| {
        forall j | 0 <= j < |word|
          ensures l[i..i + |word|][j] == word[j] <==> CharCaseVariant(text[i..i + |word|][j], word[j])
        {
          assert l[i + j] == LowerChar(text[i + j]);
        }
        assert l[i..i + |word|] == word <==> forall j :: 0 <= j < |word| ==> l[i..i + |word|][j] == word[j];
      }
    }
  }
}
