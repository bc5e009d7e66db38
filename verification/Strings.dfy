/** What strings share across the program: white space, and the zero that ends a C string. */
module Strings {

  const NUL: char := '\0'

  predicate IsSpace(c: char) {
    c == ' ' || '\t' <= c <= '\r'
  }

  predicate AllSpaces(s: string) {
    forall k | 0 <= k < |s| :: IsSpace(s[k])
  }

  /** Blank, tab, line feed, vertical tab, form feed and carriage return. */
  lemma SpaceExactly(c: char)
    ensures IsSpace(c) <==> c as int in {32, 9, 10, 11, 12, 13}
  {
  }

  /** What a C function sees of a string: the characters before the first NUL. */
  function CString(s: string): (r: string)
    ensures |r| <= |s|
  {
    if s == "" || s[0] == NUL then "" else [s[0]] + CString(s[1..])
  }

  predicate Without(s: string, c: char) {
    forall k | 0 <= k < |s| :: s[k] != c
  }

  /** A C function sees the whole string exactly if it has no NUL. */
  lemma {:induction false} CStringExactly(s: string)
    ensures CString(s) == s <==> Without(s, NUL)
  {
    if s != "" {
      CStringExactly(s[1..]);
      if s[0] != NUL {
        assert CString(s)[1..] == CString(s[1..]);
        assert Without(s, NUL) <==> Without(s[1..], NUL) by {
          assert forall k | 1 <= k < |s| :: s[k] == s[1..][k - 1];
        }
      }
    }
  }

  lemma {:induction false} CStringTwice(s: string)
    ensures CString(CString(s)) == CString(s)
  {
    if s != "" && s[0] != NUL {
      CStringTwice(s[1..]);
      assert CString(s)[1..] == CString(s[1..]);
    }
  }

  /** The first place in the range where the character stands, or the end of the range. */
  function Find(s: string, lo: nat, hi: nat, c: char): (i: nat)
    requires lo <= hi <= |s|
    ensures lo <= i <= hi
    decreases hi - lo
  {
    if lo == hi || s[lo] == c then lo
    else Find(s, lo + 1, hi, c)
  }

  lemma {:induction false} FindIs(s: string, lo: nat, hi: nat, c: char, i: nat)
    requires lo <= i <= hi <= |s|
    ensures Find(s, lo, hi, c) == i <==> (forall k | lo <= k < i :: s[k] != c) && (i < hi ==> s[i] == c)
    decreases hi - lo
  {
    if lo < i {
      FindIs(s, lo + 1, hi, c, i);
    }
  }
}
