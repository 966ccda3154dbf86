/** Character classes used by the two regular expressions of dockstring/utils.py,
    and the maximal runs of each class that a greedy `[0-9]*`, `\s*` or `\w+` consumes. */
module Lexical {

  /** `[0-9]`: ASCII digits only, as the pattern spells them out. */
  predicate IsDigit(c: char) { '0' <= c <= '9' }

  /** `\s` in a Python str pattern: the characters for which str.isspace holds. */
  predicate IsSpace(c: char) {
    || ('\t' <= c <= '\r')
    || ('\U{1c}' <= c <= ' ')
    || c == '\U{85}' || c == '\U{a0}' || c == '\U{1680}'
    || ('\U{2000}' <= c <= '\U{200a}')
    || c == '\U{2028}' || c == '\U{2029}' || c == '\U{202f}' || c == '\U{205f}' || c == '\U{3000}'
  }

  /** `\w`, restricted to ASCII letters, digits and the underscore. */
  predicate IsWordChar(c: char) {
    ('a' <= c <= 'z') || ('A' <= c <= 'Z') || IsDigit(c) || c == '_'
  }

  predicate AllDigits(t: string) { forall i :: 0 <= i < |t| ==> IsDigit(t[i]) }

  predicate AllSpace(t: string) { forall i :: 0 <= i < |t| ==> IsSpace(t[i]) }

  predicate AllWord(t: string) { forall i :: 0 <= i < |t| ==> IsWordChar(t[i]) }

  /** End of the longest run of digits starting at i. */
  function DigitsEnd(s: string, i: nat): (r: nat)
    requires i <= |s|
    ensures i <= r <= |s|
    ensures r == |s| || !IsDigit(s[r])
    decreases |s| - i
  {
    if i < |s| && IsDigit(s[i]) then DigitsEnd(s, i + 1) else i
  }

  /** End of the longest run of whitespace starting at i. */
  function SpaceEnd(s: string, i: nat): (r: nat)
    requires i <= |s|
    ensures i <= r <= |s|
    ensures r == |s| || !IsSpace(s[r])
    decreases |s| - i
  {
    if i < |s| && IsSpace(s[i]) then SpaceEnd(s, i + 1) else i
  }

  /** End of the longest run of word characters starting at i. */
  function WordEnd(s: string, i: nat): (r: nat)
    requires i <= |s|
    ensures i <= r <= |s|
    ensures r == |s| || !IsWordChar(s[r])
    decreases |s| - i
  {
    if i < |s| && IsWordChar(s[i]) then WordEnd(s, i + 1) else i
  }

  /** Everything before the end of the run from i is digits. */
  lemma {:induction false} DigitsRun(s: string, i: nat)
    requires i <= |s|
    ensures forall q :: i <= q < DigitsEnd(s, i) ==> IsDigit(s[q])
    decreases |s| - i
  {
    if i < |s| && IsDigit(s[i]) {
      DigitsRun(s, i + 1);
    }
  }

  /** Everything before the end of the run from i is whitespace. */
  lemma {:induction false} SpaceRun(s: string, i: nat)
    requires i <= |s|
    ensures forall q :: i <= q < SpaceEnd(s, i) ==> IsSpace(s[q])
    decreases |s| - i
  {
    if i < |s| && IsSpace(s[i]) {
      SpaceRun(s, i + 1);
    }
  }

  /** Everything before the end of the run from i is word characters. */
  lemma {:induction false} WordRun(s: string, i: nat)
    requires i <= |s|
    ensures forall q :: i <= q < WordEnd(s, i) ==> IsWordChar(s[q])
    decreases |s| - i
  {
    if i < |s| && IsWordChar(s[i]) {
      WordRun(s, i + 1);
    }
  }

  lemma AllSpaceAt(s: string, i: nat, j: nat)
    requires i <= j <= |s| && AllSpace(s[i..j])
    ensures forall q :: i <= q < j ==> IsSpace(s[q])
  {
    forall q | i <= q < j
      ensures IsSpace(s[q])
    {
      assert s[i..j][q - i] == s[q];
    }
  }

  lemma AllWordAt(s: string, i: nat, j: nat)
    requires i <= j <= |s| && AllWord(s[i..j])
    ensures forall q :: i <= q < j ==> IsWordChar(s[q])
  {
    forall q | i <= q < j
      ensures IsWordChar(s[q])
    {
      assert s[i..j][q - i] == s[q];
    }
  }

  /** The whitespace run from i ends at j when [i, j) is whitespace and s[j] is not. */
  lemma {:induction false} SpaceEndExact(s: string, i: nat, j: nat)
    requires i <= j <= |s|
    requires forall q :: i <= q < j ==> IsSpace(s[q])
    requires j == |s| || !IsSpace(s[j])
    ensures SpaceEnd(s, i) == j
    decreases j - i
  {
    if i < j {
      SpaceEndExact(s, i + 1, j);
    }
  }

  /** The word run from i ends at j when [i, j) is word characters and s[j] is not. */
  lemma {:induction false} WordEndExact(s: string, i: nat, j: nat)
    requires i <= j <= |s|
    requires forall q :: i <= q < j ==> IsWordChar(s[q])
    requires j == |s| || !IsWordChar(s[j])
    ensures WordEnd(s, i) == j
    decreases j - i
  {
    if i < j {
      WordEndExact(s, i + 1, j);
    }
  }

  /** A string that is w then rest from position i holds w at [i, i + |w|) and rest after it. */
  lemma Peel(s: string, i: nat, w: string, rest: string)
    requires i <= |s| && s[i..] == w + rest
    ensures i + |w| <= |s| && s[i..i + |w|] == w && s[i + |w|..] == rest
  {
    assert s[i..][..|w|] == w;
    assert s[i..][|w|..] == rest;
  }
}
