/** Plain string helpers standing for the two Python string operations the
    format check relies on: `str.lower()` and the substring test `s in t`. */
module Text {

  /** Lower-cases one character; only the ASCII letters 'A'..'Z' change. */
  function LowerChar(c: char): (d: char)
    ensures 'A' <= c <= 'Z' ==> d as int == c as int + 32
    ensures !('A' <= c <= 'Z') ==> d == c
    ensures !('A' <= d <= 'Z')
  {
    if 'A' <= c <= 'Z' then (c as int + 32) as char else c
  }

  /** `s.lower()`, character by character. */
  function Lower(s: string): (r: string)
    ensures |r| == |s|
    ensures forall i :: 0 <= i < |s| ==> r[i] == LowerChar(s[i])
  {
    seq(|s|, i requires 0 <= i < |s| => LowerChar(s[i]))
  }

  /** Lower-casing is idempotent: a lower-cased string has nothing left to lower. */
  lemma LowerIdempotent(s: string)
    ensures Lower(Lower(s)) == Lower(s)
  {
  }

  /** Lower-casing commutes with taking a slice. */
  lemma LowerSlice(s: string, i: nat, j: nat)
    requires i <= j <= |s|
    ensures Lower(s)[i..j] == Lower(s[i..j])
  {
  }

  /** `pat` occurs in `text` starting at position `i`. */
  predicate OccursAt(pat: string, text: string, i: int)
  {
    0 <= i && i + |pat| <= |text| && text[i..i + |pat|] == pat
  }

  /** `pat` occurs at position `i` of `text` once the text is lower-cased. */
  predicate OccursIgnoringCase(pat: string, text: string, i: int)
  {
    0 <= i && i + |pat| <= |text| && Lower(text[i..i + |pat|]) == pat
  }

  /** Python's `pat in text` for strings: a contiguous occurrence exists. */
  function SubstringIn(pat: string, text: string): (b: bool)
    ensures b <==> exists i :: OccursAt(pat, text, i)
    decreases |text|
  {
    if |pat| > |text| then
      assert forall i :: !OccursAt(pat, text, i);
      false
    else if text[..|pat|] == pat then
      assert OccursAt(pat, text, 0);
      true
    else
      var rest := SubstringIn(pat, text[1..]);
      assert forall i :: OccursAt(pat, text[1..], i) <==> OccursAt(pat, text, i + 1) by {
        forall i ensures OccursAt(pat, text[1..], i) <==> OccursAt(pat, text, i + 1) {
          if 0 <= i && i + |pat| <= |text| - 1 {
            assert text[1..][i..i + |pat|] == text[i + 1..i + 1 + |pat|];
          }
        }
      }
      assert !OccursAt(pat, text, 0);
      assert (exists i :: OccursAt(pat, text, i)) ==> exists i :: OccursAt(pat, text[1..], i) by {
        if i :| OccursAt(pat, text, i) {
          assert i >= 1;
          assert OccursAt(pat, text[1..], i - 1);
        }
      }
      rest
  }

  /** A pattern with a character that the text lacks does not occur in it. */
  lemma CharMissingNotIn(pat: string, text: string, k: nat)
    requires k < |pat| && pat[k] !in text
    ensures !SubstringIn(pat, text)
  {
  }
}
