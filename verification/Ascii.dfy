/** ASCII case folding on strings, as `to_ascii_lowercase` and `eq_ignore_ascii_case` do it. */
module Ascii {
  function LowerChar(c: char): char {
    if 'A' <= c <= 'Z' then (c as int + 32) as char else c
  }

  function Lower(s: string): (r: string)
    ensures |r| == |s|
    ensures forall i :: 0 <= i < |s| ==> r[i] == LowerChar(s[i])
  {
    seq(|s|, i requires 0 <= i < |s| => LowerChar(s[i]))
  }

  predicate SameIgnoringCase(a: string, b: string) {
    Lower(a) == Lower(b)
  }

  lemma LowerIsIdempotent(s: string)
    ensures Lower(Lower(s)) == Lower(s)
  {
  }

  /** Folding identifies 'A' to 'Z' with 'a' to 'z' pairwise, and nothing else. */
  lemma FoldsLettersOnly(a: char, b: char)
    ensures LowerChar(a) == LowerChar(b) <==>
              || a == b
              || ('A' <= a <= 'Z' && b as int == a as int + 32)
              || ('A' <= b <= 'Z' && a as int == b as int + 32)
    ensures !('A' <= LowerChar(a) <= 'Z')
  {
  }

  /** Strings are the same ignoring case exactly when they are so character by character. */
  lemma SameIgnoringCaseIff(s: string, t: string)
    ensures SameIgnoringCase(s, t) <==>
              |s| == |t| && forall i :: 0 <= i < |s| ==> LowerChar(s[i]) == LowerChar(t[i])
  {
    if |s| == |t| && forall i :: 0 <= i < |s| ==> LowerChar(s[i]) == LowerChar(t[i]) {
      assert Lower(s) == Lower(t);
    }
    if SameIgnoringCase(s, t) {
      forall i | 0 <= i < |s| ensures LowerChar(s[i]) == LowerChar(t[i]) {
        assert Lower(s)[i] == Lower(t)[i];
      }
    }
  }
}
