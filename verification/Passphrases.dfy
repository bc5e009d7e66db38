/**
 Passphrases of up to 24 words: reading a phrase with a word list, printing it with a word list,
 translating between lists, and the bytes from which the key pair is derived.
 */
module Passphrases {
  import opened Strings
  import opened Wrappers

  const PHRASE_WORD_COUNT := 24
  const STR_BUFFER_SIZE := 25
  const WORDS_IN_LIST := 2048

  // ---------------------------------------------------------------- word lists

  /**
   A word list and its reverse lookup. The lookup finds every word of the list, but it compares
   hashes, so it may also answer for a string that is no word.
   */
  datatype WordList = WordList(words: seq<string>, indexOf: string -> int) {
    ghost predicate Valid() {
      && |words| == WORDS_IN_LIST
      && (forall i | 0 <= i < WORDS_IN_LIST :: IsPlain(words[i]) && indexOf(words[i]) == i)
      && (forall s: string {:trigger indexOf(s)} :: -1 <= indexOf(s) < WORDS_IN_LIST)
      && indexOf("") == -1
    }

    /** getWord: null outside of the list, and for a word with other characters than words have. */
    function GetWord(index: nat): Option<string>
      requires |words| == WORDS_IN_LIST
    {
      var i := Short(index);
      if 0 <= i < WORDS_IN_LIST && IsProper(words[i]) then Some(words[i]) else None
    }
  }

  /** Letters, the German ones as in ISO 8859-1, and what HTML writes for them. */
  predicate IsWordCharacter(c: char) {
    || 'a' <= c <= 'z' || 'A' <= c <= 'Z' || c == '&' || c == ';'
    || c as int in {0xC4, 0xD6, 0xDC, 0xE4, 0xF6, 0xFC, 0xDF}
  }

  predicate IsProper(w: string) {
    w != "" && forall k | 0 <= k < |w| :: IsWordCharacter(w[k])
  }

  /** 3 to 24 characters, all of them proper ones; so no blanks and no NUL. */
  predicate IsPlain(w: string) {
    3 <= |w| < STR_BUFFER_SIZE && IsProper(w)
  }

  function Short(index: nat): int {
    (index + 0x8000) % 0x1_0000 - 0x8000
  }

  function Lookup(d: WordList, s: string): int {
    d.indexOf(CString(s))
  }

  // ---------------------------------------------------------------- reading, as a function

  /**
   The words of p that are ended by a blank, and what is left in the buffer at the end. A blank
   after fewer than 3 characters is dropped, so that a short word is glued to the next one.
   */
  function Tokens(p: string, buffer: string): (seq<string>, string) {
    if p == "" then ([], buffer)
    else if p[0] != ' ' then Tokens(p[1..], buffer + [p[0]])
    else if |buffer| < 3 then Tokens(p[1..], buffer)
    else var (ts, rest) := Tokens(p[1..], ""); ([buffer] + ts, rest)
  }

  /** The 25-byte buffer always keeps room for the final NUL. */
  predicate Fits(p: string, filled: nat) {
    filled < STR_BUFFER_SIZE &&
    (p == "" ||
     if p[0] != ' ' then Fits(p[1..], filled + 1)
     else Fits(p[1..], if filled < 3 then filled else 0))
  }

  predicate AllKnown(d: WordList, ts: seq<string>) {
    forall i | 0 <= i < |ts| :: Lookup(d, ts[i]) != -1
  }

  function Indices(d: WordList, ts: seq<string>): (r: seq<nat>)
    requires d.Valid() && AllKnown(d, ts)
    ensures |r| == |ts|
  {
    seq(|ts|, i requires 0 <= i < |ts| => Lookup(d, ts[i]))
  }

  function Padded(ix: seq<nat>): (r: seq<nat>)
    requires |ix| <= PHRASE_WORD_COUNT
    ensures |r| == PHRASE_WORD_COUNT
  {
    ix + seq(PHRASE_WORD_COUNT - |ix|, _ => 0)
  }

  /**
   The 24 word indices of a phrase. A word that is unknown, or one too many, is an error if a
   blank follows it; at the end of the phrase it is ignored.
   */
  function Parse(d: WordList, p: string): (r: Option<seq<nat>>)
    requires d.Valid()
    ensures r.Some? ==> |r.value| == PHRASE_WORD_COUNT && forall i | 0 <= i < PHRASE_WORD_COUNT :: r.value[i] < WORDS_IN_LIST
  {
    var (ts, rest) := Tokens(p, "");
    if |ts| > PHRASE_WORD_COUNT || !AllKnown(d, ts) then None
    else if |ts| < PHRASE_WORD_COUNT && Lookup(d, rest) != -1 then Some(Padded(Indices(d, ts) + [Lookup(d, rest)]))
    else Some(Padded(Indices(d, ts)))
  }

  /** The words before the first unknown one. */
  function KnownPrefix(d: WordList, ts: seq<string>): (r: seq<string>)
    ensures AllKnown(d, r)
  {
    if ts == [] || Lookup(d, ts[0]) == -1 then [] else [ts[0]] + KnownPrefix(d, ts[1..])
  }

  function AtMost24(ts: seq<string>): (r: seq<string>)
    ensures |r| <= PHRASE_WORD_COUNT
  {
    if |ts| <= PHRASE_WORD_COUNT then ts else ts[..PHRASE_WORD_COUNT]
  }

  /** The indices that reading has filled in when it ends, or when it stops at a word that is unknown or one too many. */
  function FilledIn(d: WordList, p: string): (r: seq<nat>)
    requires d.Valid()
    ensures |r| == PHRASE_WORD_COUNT && InList(r)
  {
    if Parse(d, p).Some? then Parse(d, p).value
    else Padded(Indices(d, AtMost24(KnownPrefix(d, Tokens(p, "").0))))
  }

  lemma {:induction false} KnownPrefixIs(d: WordList, ts: seq<string>, done: seq<string>)
    requires done <= ts && AllKnown(d, done)
    requires |done| < |ts| && (|done| < PHRASE_WORD_COUNT ==> Lookup(d, ts[|done|]) == -1) && |done| <= PHRASE_WORD_COUNT
    ensures AtMost24(KnownPrefix(d, ts)) == done
  {
    PrefixKnown(d, ts, done);
  }

  lemma {:induction false} PrefixKnown(d: WordList, ts: seq<string>, done: seq<string>)
    requires done <= ts && AllKnown(d, done)
    ensures done <= KnownPrefix(d, ts)
    ensures |done| < |ts| && Lookup(d, ts[|done|]) == -1 ==> KnownPrefix(d, ts) == done
  {
    if done != [] {
      assert ts[0] == done[0] && done[1..] <= ts[1..];
      PrefixKnown(d, ts[1..], done[1..]);
    }
  }

  // ---------------------------------------------------------------- reading, as the program does it

  lemma {:induction false} CStringOfBuffer(s: string, zeros: nat)
    ensures zeros > 0 ==> CString(s + seq(zeros, _ => NUL)) == CString(s)
  {
    var t := s + seq(zeros, _ => NUL);
    if zeros > 0 {
      if s == "" {
        assert t[0] == NUL;
      } else {
        assert t[0] == s[0] && t[1..] == s[1..] + seq(zeros, _ => NUL);
        CStringOfBuffer(s[1..], zeros);
      }
    }
  }

  /** The word in the buffer, read up to its NUL. */
  method WordInBuffer(acBuffer: array<char>, cursor: nat, d: WordList) returns (index: int)
    requires d.Valid() && acBuffer.Length == STR_BUFFER_SIZE && cursor < STR_BUFFER_SIZE
    requires forall k | cursor <= k < STR_BUFFER_SIZE :: acBuffer[k] == NUL
    ensures index == Lookup(d, acBuffer[..cursor])
  {
    CStringOfBuffer(acBuffer[..cursor], STR_BUFFER_SIZE - cursor);
    assert acBuffer[..] == acBuffer[..cursor] + seq(STR_BUFFER_SIZE - cursor, _ => NUL);
    index := d.indexOf(CString(acBuffer[..]));
  }

  lemma IndicesAppend(d: WordList, ts: seq<string>, t: string)
    requires d.Valid() && |ts| < PHRASE_WORD_COUNT && AllKnown(d, ts) && Lookup(d, t) != -1
    ensures AllKnown(d, ts + [t]) && Indices(d, ts + [t]) == Indices(d, ts) + [Lookup(d, t)]
    ensures Padded(Indices(d, ts + [t])) == Padded(Indices(d, ts))[|ts| := Lookup(d, t)]
  {
    assert forall i | 0 <= i < |ts| :: (ts + [t])[i] == ts[i];
  }

  /** The state of the reader before character `it`. */
  ghost predicate Reading(d: WordList, p: string, it: nat, buffer: string, done: seq<string>, indices: seq<nat>)
    requires d.Valid()
  {
    && it <= |p| && Fits(p[it..], |buffer|)
    && |done| <= PHRASE_WORD_COUNT && AllKnown(d, done) && indices == Padded(Indices(d, done))
    && Tokens(p, "").0 == done + Tokens(p[it..], buffer).0
    && Tokens(p, "").1 == Tokens(p[it..], buffer).1
  }

  lemma ReadingStart(d: WordList, p: string)
    requires d.Valid() && Fits(p, 0)
    ensures Reading(d, p, 0, "", [], seq(PHRASE_WORD_COUNT, _ => 0))
  {
    assert p[0..] == p;
    assert Padded(Indices(d, [])) == seq(PHRASE_WORD_COUNT, _ => 0);
  }

  lemma ReadingCharacter(d: WordList, p: string, it: nat, buffer: string, done: seq<string>, indices: seq<nat>)
    requires d.Valid() && Reading(d, p, it, buffer, done, indices)
    requires it < |p| && (p[it] != ' ' || |buffer| < 3)
    ensures |buffer| < STR_BUFFER_SIZE
    ensures Reading(d, p, it + 1, if p[it] == ' ' then buffer else buffer + [p[it]], done, indices)
    ensures p[it] != ' ' ==> |buffer| + 1 < STR_BUFFER_SIZE
  {
    assert p[it..][1..] == p[it + 1..];
  }

  /** A blank ends a word: it is looked up, or the phrase is rejected. */
  lemma ReadingWord(d: WordList, p: string, it: nat, buffer: string, done: seq<string>, indices: seq<nat>)
    requires d.Valid() && Reading(d, p, it, buffer, done, indices)
    requires it < |p| && p[it] == ' ' && |buffer| >= 3
    ensures if |done| < PHRASE_WORD_COUNT && Lookup(d, buffer) != -1
            then Reading(d, p, it + 1, "", done + [buffer], indices[|done| := Lookup(d, buffer)])
            else Parse(d, p) == None && FilledIn(d, p) == indices
  {
    assert p[it..][1..] == p[it + 1..];
    var all := Tokens(p, "").0;
    assert all == done + ([buffer] + Tokens(p[it + 1..], "").0);
    assert all[|done|] == buffer;
    if |done| < PHRASE_WORD_COUNT && Lookup(d, buffer) != -1 {
      IndicesAppend(d, done, buffer);
      assert all == (done + [buffer]) + Tokens(p[it + 1..], "").0;
    } else {
      KnownPrefixIs(d, all, done);
    }
  }

  lemma ReadingEnd(d: WordList, p: string, buffer: string, done: seq<string>, indices: seq<nat>)
    requires d.Valid() && Reading(d, p, |p|, buffer, done, indices)
    ensures Parse(d, p) == Some(if |done| < PHRASE_WORD_COUNT && Lookup(d, buffer) != -1
                                then indices[|done| := Lookup(d, buffer)] else indices)
  {
    assert p[|p|..] == "";
    assert Tokens(p, "").0 == done + [] == done && Tokens(p, "").1 == buffer;
    if |done| < PHRASE_WORD_COUNT && Lookup(d, buffer) != -1 {
      IndicesAppend(d, done, buffer);
    }
  }

  method CreateWordIndices(passphrase: string, d: WordList) returns (r: Option<seq<nat>>)
    requires d.Valid() && Fits(passphrase, 0)
    ensures r == Parse(d, passphrase)
  {
    var ok, indices := ReadWordIndices(passphrase, d);
    return if ok then Some(indices) else None;
  }

  /** The character loop of both key classes; one of them keeps the indices even after an error. */
  method ReadWordIndices(passphrase: string, d: WordList) returns (ok: bool, filled: seq<nat>)
    requires d.Valid() && Fits(passphrase, 0)
    ensures ok <==> Parse(d, passphrase).Some?
    ensures filled == FilledIn(d, passphrase)
  {
    var indices := new nat[PHRASE_WORD_COUNT](_ => 0);
    var acBuffer := new char[STR_BUFFER_SIZE](_ => NUL);
    var bufferCursor, wordCursor := 0, 0;
    ghost var buffer, done: seq<string> := "", [];
    ReadingStart(d, passphrase);
    assert indices[..] == seq(PHRASE_WORD_COUNT, _ => 0);
    var it := 0;
    while it < |passphrase|
      invariant 0 <= it <= |passphrase| && 0 <= bufferCursor < STR_BUFFER_SIZE
      invariant acBuffer[..bufferCursor] == buffer && wordCursor == |done|
      invariant forall k | bufferCursor <= k < STR_BUFFER_SIZE :: acBuffer[k] == NUL
      invariant Reading(d, passphrase, it, buffer, done, indices[..])
    {
      if passphrase[it] == ' ' {
        if bufferCursor >= 3 {
          ReadingWord(d, passphrase, it, buffer, done, indices[..]);
          var index := WordInBuffer(acBuffer, bufferCursor, d);
          if PHRASE_WORD_COUNT > wordCursor && index != -1 {
            indices[wordCursor] := index;
          } else {
            return false, indices[..];
          }
          wordCursor := wordCursor + 1;
          forall k | 0 <= k < STR_BUFFER_SIZE { acBuffer[k] := NUL; }
          bufferCursor := 0;
          buffer, done := "", done + [buffer];
        } else {
          ReadingCharacter(d, passphrase, it, buffer, done, indices[..]);
        }
      } else {
        ReadingCharacter(d, passphrase, it, buffer, done, indices[..]);
        acBuffer[bufferCursor] := passphrase[it];
        bufferCursor := bufferCursor + 1;
        buffer := buffer + [passphrase[it]];
      }
      it := it + 1;
    }
    ReadingEnd(d, passphrase, buffer, done, indices[..]);
    var index := WordInBuffer(acBuffer, bufferCursor, d);
    if PHRASE_WORD_COUNT > wordCursor && index != -1 {
      indices[wordCursor] := index;
      wordCursor := wordCursor + 1;
    }
    return true, indices[..];
  }

  // ---------------------------------------------------------------- printing

  predicate InList(ix: seq<nat>) {
    forall i | 0 <= i < |ix| :: ix[i] < WORDS_IN_LIST
  }

  function PrintWord(d: WordList, i: nat): string
    requires d.Valid()
  {
    match d.GetWord(i) case Some(word) => word + " " case None => ""
  }

  function Print(d: WordList, ix: seq<nat>): string
    requires d.Valid()
  {
    if ix == [] then "" else PrintWord(d, ix[0]) + Print(d, ix[1..])
  }

  lemma {:induction false} PrintAppend(d: WordList, ix: seq<nat>, i: nat)
    requires d.Valid()
    ensures Print(d, ix + [i]) == Print(d, ix) + PrintWord(d, i)
  {
    if ix == [] {
      assert ([] + [i])[1..] == [];
      assert Print(d, [i]) == PrintWord(d, i) + "";
    } else {
      assert (ix + [i])[1..] == ix[1..] + [i] && (ix + [i])[0] == ix[0];
      PrintAppend(d, ix[1..], i);
    }
  }

  method CreateClearPassphrase(wordIndices: seq<nat>, d: WordList) returns (clear: string)
    requires d.Valid()
    ensures clear == Print(d, if |wordIndices| <= PHRASE_WORD_COUNT then wordIndices else wordIndices[..PHRASE_WORD_COUNT])
  {
    clear := "";
    var i := 0;
    while i < PHRASE_WORD_COUNT
      invariant 0 <= i <= PHRASE_WORD_COUNT && i <= |wordIndices|
      invariant clear == Print(d, wordIndices[..i])
    {
      if i >= |wordIndices| {
        break;
      }
      var word := d.GetWord(wordIndices[i]);
      assert wordIndices[..i + 1] == wordIndices[..i] + [wordIndices[i]];
      PrintAppend(d, wordIndices[..i], wordIndices[i]);
      if word.Some? {
        clear := clear + word.value;
        clear := clear + " ";
      }
      i := i + 1;
    }
    assert i == |wordIndices| ==> wordIndices[..i] == wordIndices;
  }

  // ---------------------------------------------------------------- printing and reading

  lemma {:induction false} ReadWord(w: string, q: string, buffer: string)
    requires forall k | 0 <= k < |w| :: w[k] != ' '
    requires |buffer| + |w| < STR_BUFFER_SIZE
    ensures Tokens(w + q, buffer) == Tokens(q, buffer + w)
    ensures Fits(w + q, |buffer|) == Fits(q, |buffer| + |w|)
  {
    if w == "" {
      assert w + q == q && buffer + w == buffer;
    } else {
      assert (w + q)[0] == w[0] && (w + q)[1..] == w[1..] + q;
      ReadWord(w[1..], q, buffer + [w[0]]);
      assert buffer + [w[0]] + w[1..] == buffer + w;
    }
  }

  /** The words that the indices name. */
  function WordsOf(d: WordList, ix: seq<nat>): (r: seq<string>)
    requires d.Valid() && InList(ix)
    ensures |r| == |ix|
  {
    seq(|ix|, i requires 0 <= i < |ix| => d.words[ix[i]])
  }

  lemma {:induction false} ReadPrinted(d: WordList, ix: seq<nat>)
    requires d.Valid() && InList(ix)
    ensures Tokens(Print(d, ix), "") == (WordsOf(d, ix), "")
    ensures Fits(Print(d, ix), 0)
  {
    if ix != [] {
      var w := d.words[ix[0]];
      var q := Print(d, ix[1..]);
      assert PrintWord(d, ix[0]) == w + " ";
      assert Print(d, ix) == w + (" " + q);
      ReadWord(w, " " + q, "");
      assert (" " + q)[1..] == q && "" + w == w;
      ReadPrinted(d, ix[1..]);
      assert WordsOf(d, ix) == [w] + WordsOf(d, ix[1..]);
    }
  }

  /** Printing 24 indices and reading the phrase gives the indices back. */
  lemma PrintThenParse(d: WordList, ix: seq<nat>)
    requires d.Valid() && InList(ix) && |ix| == PHRASE_WORD_COUNT
    ensures Fits(Print(d, ix), 0)
    ensures Parse(d, Print(d, ix)) == Some(ix)
  {
    ReadPrinted(d, ix);
    var ts := WordsOf(d, ix);
    forall i | 0 <= i < |ts| ensures Lookup(d, ts[i]) == ix[i] {
      CStringExactly(ts[i]);
    }
    assert Indices(d, ts) == ix;
    assert Padded(ix) == ix;
  }

  // ---------------------------------------------------------------- translating

  /** The form in which a phrase is printed. */
  function Canonical(d: WordList, p: string): string
    requires d.Valid() && Parse(d, p).Some?
  {
    Print(d, Parse(d, p).value)
  }

  /** Lists are told apart by address: by their number here. A null pointer is None. */
  function Translated(lists: seq<WordList>, p: string, current: Option<nat>, target: Option<nat>): string
    requires forall d | d in lists :: d.Valid()
    requires current.Some? ==> current.value < |lists|
    requires target.Some? ==> target.value < |lists|
  {
    if current.None? || target.None? then ""
    else if current == target then p
    else match Parse(lists[current.value], p)
         case None => ""
         case Some(ix) => Print(lists[target.value], ix)
  }

  method PassphraseTransform(lists: seq<WordList>, p: string, current: Option<nat>, target: Option<nat>)
    returns (r: string)
    requires forall d | d in lists :: d.Valid()
    requires current.Some? ==> current.value < |lists|
    requires target.Some? ==> target.value < |lists|
    requires Fits(p, 0)
    ensures r == Translated(lists, p, current, target)
  {
    if current.None? || target.None? {
      return "";
    }
    if current == target {
      return p;
    }
    var ix := CreateWordIndices(p, lists[current.value]);
    if ix.None? {
      return "";
    }
    r := CreateClearPassphrase(ix.value, lists[target.value]);
  }

  /** Translating a phrase into another list and back gives its canonical form. */
  lemma ThereAndBack(lists: seq<WordList>, p: string, a: nat, b: nat)
    requires forall d | d in lists :: d.Valid()
    requires a < |lists| && b < |lists| && a != b
    requires Parse(lists[a], p).Some?
    ensures Translated(lists, Translated(lists, p, Some(a), Some(b)), Some(b), Some(a)) == Canonical(lists[a], p)
  {
    PrintThenParse(lists[b], Parse(lists[a], p).value);
  }

  /** The canonical form means the same 24 words, and is its own canonical form. */
  lemma CanonicalIdempotent(d: WordList, p: string)
    requires d.Valid() && Parse(d, p).Some?
    ensures Fits(Canonical(d, p), 0)
    ensures Parse(d, Canonical(d, p)) == Parse(d, p)
    ensures Canonical(d, Canonical(d, p)) == Canonical(d, p)
  {
    PrintThenParse(d, Parse(d, p).value);
  }

  /** Two phrases have the same canonical form exactly if they are read as the same indices. */
  lemma CanonicalExactly(d: WordList, p: string, q: string)
    requires d.Valid() && Parse(d, p).Some? && Parse(d, q).Some?
    ensures Canonical(d, p) == Canonical(d, q) <==> Parse(d, p) == Parse(d, q)
  {
    CanonicalIdempotent(d, p);
    CanonicalIdempotent(d, q);
  }

  /** A failed translation is the empty phrase, and that is read as 24 times the first word. */
  lemma FailureReadsAsFirstWords(d: WordList)
    requires d.Valid()
    ensures Parse(d, "") == Some(seq(PHRASE_WORD_COUNT, _ => 0))
  {
    assert AllKnown(d, []);
    assert Padded(Indices(d, [])) == seq(PHRASE_WORD_COUNT, _ => 0);
  }

  // ---------------------------------------------------------------- validating

  /** Extraction of blank-separated words from a stream. */
  function Split(p: string, word: string): seq<string> {
    if p == "" then (if word == "" then [] else [word])
    else if !IsSpace(p[0]) then Split(p[1..], word + [p[0]])
    else if word == "" then Split(p[1..], "")
    else [word] + Split(p[1..], "")
  }

  predicate Accepts(d: WordList, words: seq<string>) {
    forall i | 0 <= i < |words| :: |words[i]| >= 3 ==> Lookup(d, words[i]) != -1
  }

  /** The number of the first list that has all words of three or more characters. */
  method ValidatePassphrase(passphrase: string, lists: seq<WordList>) returns (wordSource: Option<nat>)
    ensures wordSource.Some? ==>
              && wordSource.value < |lists| && Accepts(lists[wordSource.value], Split(passphrase, ""))
              && forall j | 0 <= j < wordSource.value :: !Accepts(lists[j], Split(passphrase, ""))
    ensures wordSource.None? ==> forall d | d in lists :: !Accepts(d, Split(passphrase, ""))
  {
    var results := Split(passphrase, "");
    var i := 0;
    while i < |lists|
      invariant 0 <= i <= |lists|
      invariant forall j | 0 <= j < i :: !Accepts(lists[j], results)
    {
      var existAll := true;
      var k := 0;
      while k < |results|
        invariant 0 <= k <= |results|
        invariant existAll == forall j | 0 <= j < k :: |results[j]| >= 3 ==> Lookup(lists[i], results[j]) != -1
      {
        if |results[k]| >= 3 && Lookup(lists[i], results[k]) == -1 {
          existAll := false;
        }
        k := k + 1;
      }
      if existAll {
        return Some(i);
      }
      i := i + 1;
    }
    return None;
  }

  predicate NoSpaces(s: string) {
    forall k | 0 <= k < |s| :: !IsSpace(s[k])
  }

  lemma {:induction false} SplitSpaces(a: string, p: string)
    requires AllSpaces(a)
    ensures Split(a + p, "") == Split(p, "")
  {
    if a == "" {
      assert a + p == p;
    } else {
      assert (a + p)[0] == a[0] && (a + p)[1..] == a[1..] + p;
      assert forall k | 0 <= k < |a[1..]| :: a[1..][k] == a[k + 1];
      SplitSpaces(a[1..], p);
    }
  }

  lemma {:induction false} SplitWord(w: string, p: string, word: string)
    requires NoSpaces(w)
    ensures Split(w + p, word) == Split(p, word + w)
  {
    if w == "" {
      assert w + p == p && word + w == word;
    } else {
      assert (w + p)[0] == w[0] && (w + p)[1..] == w[1..] + p;
      assert forall k | 0 <= k < |w[1..]| :: w[1..][k] == w[k + 1];
      SplitWord(w[1..], p, word + [w[0]]);
      assert word + [w[0]] + w[1..] == word + w;
    }
  }

  /** Whatever white space stands before and after a word, it is taken out as it is, and splitting goes on behind it. */
  lemma SplitTakes(a: string, w: string, b: char, p: string)
    requires AllSpaces(a) && w != "" && NoSpaces(w) && IsSpace(b)
    ensures Split(a + (w + ([b] + p)), "") == [w] + Split(p, "")
    ensures Split(a + w, "") == [w] && Split(a, "") == []
  {
    SplitSpaces(a, w + ([b] + p));
    SplitWord(w, [b] + p, "");
    assert "" + w == w && ([b] + p)[0] == b && ([b] + p)[1..] == p;
    SplitSpaces(a, w);
    SplitWord(w, "", "");
    assert w + "" == w;
    SplitSpaces(a, "");
    assert a + "" == a;
  }

  /** Words of one or two characters are not looked up, and every longer one is. */
  lemma ShortWordsPass(d: WordList, words: seq<string>, w: string)
    ensures |w| < 3 ==> (Accepts(d, words + [w]) <==> Accepts(d, words))
    ensures |w| >= 3 ==> (Accepts(d, words + [w]) <==> Accepts(d, words) && Lookup(d, w) != -1)
  {
    assert forall i | 0 <= i < |words| :: (words + [w])[i] == words[i];
    assert (words + [w])[|words|] == w;
  }

  /** Blanks are the only white space, and every word has 3 to 24 characters. */
  predicate WellSpaced(p: string) {
    && (forall k | 0 <= k < |p| :: IsSpace(p[k]) ==> p[k] == ' ')
    && forall i | 0 <= i < |Split(p, "")| :: 3 <= |Split(p, "")[i]| < STR_BUFFER_SIZE
  }

  lemma {:induction false} SplitGrows(p: string, word: string)
    requires word != ""
    ensures |Split(p, word)| >= 1 && word <= Split(p, word)[0]
  {
    if p != "" && !IsSpace(p[0]) {
      SplitGrows(p[1..], word + [p[0]]);
    }
  }

  /** Reading and splitting agree on well-spaced phrases. */
  lemma {:induction false} TokensAreWords(p: string, word: string)
    requires forall k | 0 <= k < |p| :: IsSpace(p[k]) ==> p[k] == ' '
    requires forall i | 0 <= i < |Split(p, word)| :: 3 <= |Split(p, word)[i]| < STR_BUFFER_SIZE
    ensures var (ts, rest) := Tokens(p, word);
            Split(p, word) == ts + if rest == "" then [] else [rest]
    ensures Fits(p, |word|)
  {
    if word != "" {
      SplitGrows(p, word);
    }
    if p != "" {
      if p[0] != ' ' {
        assert Split(p, word) == Split(p[1..], word + [p[0]]);
        TokensAreWords(p[1..], word + [p[0]]);
      } else if word == "" {
        assert Split(p, word) == Split(p[1..], "");
        TokensAreWords(p[1..], "");
      } else {
        assert Split(p, word) == [word] + Split(p[1..], "");
        assert Split(p, word)[0] == word;
        forall i | 0 <= i < |Split(p[1..], "")| ensures 3 <= |Split(p[1..], "")[i]| < STR_BUFFER_SIZE {
          assert Split(p[1..], "")[i] == Split(p, word)[i + 1];
        }
        TokensAreWords(p[1..], "");
      }
    }
  }

  /**
   A well-spaced phrase of at most 24 words that validation accepts is read without error, as the
   indices of its words in order followed by zeros.
   */
  lemma ValidatedParses(d: WordList, p: string)
    requires d.Valid() && WellSpaced(p)
    requires |Split(p, "")| <= PHRASE_WORD_COUNT && Accepts(d, Split(p, ""))
    ensures Fits(p, 0)
    ensures AllKnown(d, Split(p, ""))
    ensures Parse(d, p) == Some(Padded(Indices(d, Split(p, ""))))
  {
    TokensAreWords(p, "");
    var words := Split(p, "");
    var (ts, rest) := Tokens(p, "");
    assert forall i | 0 <= i < |ts| :: ts[i] == words[i];
    if rest == "" {
      assert words == ts;
    } else {
      assert words[|ts|] == rest;
      IndicesAppend(d, ts, rest);
    }
  }

  /** The other way round, reading accepts a well-spaced phrase also if its last word is unknown. */
  lemma ParsesExactly(d: WordList, p: string)
    requires d.Valid() && WellSpaced(p)
    ensures var (ts, rest) := Tokens(p, "");
            && Split(p, "") == ts + (if rest == "" then [] else [rest])
            && (Parse(d, p).Some? <==> |ts| <= PHRASE_WORD_COUNT && Accepts(d, ts))
  {
    TokensAreWords(p, "");
    var words := Split(p, "");
    var ts := Tokens(p, "").0;
    assert forall i | 0 <= i < |ts| :: ts[i] == words[i];
  }

  // ---------------------------------------------------------------- the bytes hashed into the key

  /** An unsigned 64-bit number in memory, lowest byte first. */
  function LittleEndian(v: nat, bytes: nat): (r: seq<int>)
    ensures |r| == bytes
  {
    if bytes == 0 then [] else [v % 0x100] + LittleEndian(v / 0x100, bytes - 1)
  }

  function Decode(bytes: seq<int>): int {
    if bytes == [] then 0 else bytes[0] + 0x100 * Decode(bytes[1..])
  }

  /** The 24 indices as they lie in memory: 192 bytes. */
  function RawMemory(ix: seq<nat>): (r: seq<int>)
    ensures |r| == 8 * |ix|
  {
    if ix == [] then [] else LittleEndian(ix[0], 8) + RawMemory(ix[1..])
  }

  function Bytes(s: string): seq<int> {
    seq(|s|, i requires 0 <= i < |s| => s[i] as int)
  }

  /** What is hashed into the key of a phrase with these indices: the indices, then the English words. */
  function KeyInput(english: WordList, ix: seq<nat>): seq<int>
    requires english.Valid()
  {
    RawMemory(ix) + Bytes(Print(english, ix))
  }

  // ---------------------------------------------------------------- what is hashed, byte by byte

  function Letters(ws: seq<string>): nat {
    if ws == [] then 0 else |ws[0]| + Letters(ws[1..])
  }

  /** The phrase consists of the words of the indices, each followed by one blank. */
  ghost predicate Spells(d: WordList, ix: seq<nat>, clear: string)
    requires d.Valid() && InList(ix)
  {
    && Tokens(clear, "") == (WordsOf(d, ix), "")
    && |clear| == Letters(WordsOf(d, ix)) + |ix|
  }

  /** Eight bytes that are a 16-bit number, lowest byte first. */
  predicate IsWidened(bytes: seq<int>, v: int) {
    && |bytes| == 8 && bytes[0] + 0x100 * bytes[1] == v
    && 0 <= bytes[0] < 0x100 && 0 <= bytes[1] < 0x100 && bytes[2..] == [0, 0, 0, 0, 0, 0]
  }

  /** 24 indices of eight bytes each, and then the characters of their English words. */
  ghost predicate Hashed(english: WordList, ix: seq<nat>, clear: string, fed: seq<int>)
    requires english.Valid()
  {
    && |ix| == PHRASE_WORD_COUNT && InList(ix)
    && |fed| == 192 + |clear|
    && (forall i | 0 <= i < PHRASE_WORD_COUNT :: IsWidened(fed[8 * i..8 * i + 8], ix[i]))
    && (forall k | 0 <= k < |clear| :: fed[192 + k] == clear[k] as int && fed[192 + k] < 0x100)
    && Spells(english, ix, clear) && Parse(english, clear) == Some(ix)
  }

  lemma WidenedBytes(v: nat)
    requires v < WORDS_IN_LIST
    ensures IsWidened(LittleEndian(v, 8), v)
  {
    assert LittleEndian(v, 8) == [v % 0x100] + LittleEndian(v / 0x100, 7);
    assert LittleEndian(v / 0x100, 7) == [v / 0x100] + LittleEndian(0, 6);
    assert LittleEndian(0, 3) == [0, 0, 0];
    assert LittleEndian(0, 6) == [0, 0, 0] + LittleEndian(0, 3);
  }

  lemma {:induction false} MemoryAt(ix: seq<nat>, i: nat)
    requires i < |ix|
    ensures RawMemory(ix)[8 * i..8 * i + 8] == LittleEndian(ix[i], 8)
  {
    var first, rest := LittleEndian(ix[0], 8), RawMemory(ix[1..]);
    assert RawMemory(ix) == first + rest;
    if i > 0 {
      MemoryAt(ix[1..], i - 1);
      assert RawMemory(ix)[8 * i..8 * i + 8] == rest[8 * (i - 1)..8 * (i - 1) + 8];
    }
  }

  lemma PrintStep(d: WordList, ix: seq<nat>)
    requires d.Valid() && InList(ix) && ix != []
    ensures Print(d, ix) == d.words[ix[0]] + " " + Print(d, ix[1..])
    ensures WordsOf(d, ix) == [d.words[ix[0]]] + WordsOf(d, ix[1..])
  {
    assert PrintWord(d, ix[0]) == d.words[ix[0]] + " ";
  }

  lemma LettersStep(w: string, ws: seq<string>)
    ensures Letters([w] + ws) == |w| + Letters(ws)
  {
    assert ([w] + ws)[1..] == ws;
  }

  lemma {:induction false} PrintedLength(d: WordList, ix: seq<nat>)
    requires d.Valid() && InList(ix)
    ensures |Print(d, ix)| == Letters(WordsOf(d, ix)) + |ix|
  {
    if ix != [] {
      PrintedLength(d, ix[1..]);
      PrintStep(d, ix);
      LettersStep(d.words[ix[0]], WordsOf(d, ix[1..]));
    }
  }

  predicate OneByteEach(s: string) {
    forall k | 0 <= k < |s| :: s[k] as int < 0x100
  }

  lemma {:induction false} PrintedBytes(d: WordList, ix: seq<nat>)
    requires d.Valid() && InList(ix)
    ensures OneByteEach(Print(d, ix))
  {
    if ix != [] {
      PrintedBytes(d, ix[1..]);
      PrintStep(d, ix);
      ProperBytes(d.words[ix[0]], Print(d, ix[1..]));
    }
  }

  lemma ProperBytes(w: string, rest: string)
    requires IsPlain(w) && OneByteEach(rest)
    ensures OneByteEach(w + " " + rest)
  {
    assert forall k | 0 <= k < |w| :: IsWordCharacter(w[k]);
  }

  lemma IndexBytes(english: WordList, ix: seq<nat>, i: nat)
    requires english.Valid() && |ix| == PHRASE_WORD_COUNT && InList(ix) && i < |ix|
    ensures IsWidened(KeyInput(english, ix)[8 * i..8 * i + 8], ix[i])
  {
    var m := RawMemory(ix);
    assert KeyInput(english, ix)[8 * i..8 * i + 8] == m[8 * i..8 * i + 8];
    MemoryAt(ix, i);
    WidenedBytes(ix[i]);
  }

  lemma CharacterBytes(english: WordList, ix: seq<nat>)
    requires english.Valid() && |ix| == PHRASE_WORD_COUNT && InList(ix)
    ensures var clear, fed := Print(english, ix), KeyInput(english, ix);
            && |fed| == 192 + |clear|
            && forall k | 0 <= k < |clear| :: fed[192 + k] == clear[k] as int && fed[192 + k] < 0x100
  {
    PrintedBytes(english, ix);
  }

  lemma KeyInputHashed(english: WordList, ix: seq<nat>)
    requires english.Valid() && |ix| == PHRASE_WORD_COUNT && InList(ix)
    ensures Hashed(english, ix, Print(english, ix), KeyInput(english, ix))
  {
    ReadPrinted(english, ix);
    PrintThenParse(english, ix);
    PrintedLength(english, ix);
    CharacterBytes(english, ix);
    forall i | 0 <= i < PHRASE_WORD_COUNT ensures IsWidened(KeyInput(english, ix)[8 * i..8 * i + 8], ix[i]) {
      IndexBytes(english, ix, i);
    }
  }

  /** A hash state, as the list of bytes fed into it. */
  class Sha512 {
    var fed: seq<int>

    constructor ()
      ensures fed == []
    {
      fed := [];
    }

    method Update(bytes: seq<int>)
      modifies this
      ensures fed == old(fed) + bytes
    {
      fed := fed + bytes;
    }
  }

  /** The hash input of KeyPair: the index memory in one piece, then the clear passphrase. */
  method FeedKeyPair(passphrase: string, source: WordList, english: WordList)
    returns (sha: Option<Sha512>, ghost clear: string)
    requires source.Valid() && english.Valid() && Fits(passphrase, 0)
    ensures sha.None? <==> Parse(source, passphrase).None?
    ensures sha.Some? ==> fresh(sha.value) && sha.value.fed == KeyInput(english, Parse(source, passphrase).value)
    ensures sha.Some? ==> Hashed(english, Parse(source, passphrase).value, clear, sha.value.fed)
  {
    var ix := CreateWordIndices(passphrase, source);
    if ix.None? {
      return None, "";
    }
    var printed := CreateClearPassphrase(ix.value, english);
    var state := new Sha512();
    state.Update(RawMemory(ix.value));
    state.Update(Bytes(printed));
    KeyInputHashed(english, ix.value);
    return Some(state), printed;
  }

  /** The hash input of KeyPairEd25519: 16-bit indices widened one by one, then the clear passphrase. */
  method FeedKeyPairEd25519(wordIndices: seq<nat>, english: WordList)
    returns (sha: Option<Sha512>, ghost clear: string)
    requires english.Valid() && |wordIndices| == PHRASE_WORD_COUNT
    ensures sha.None? <==> forall k | 0 <= k < 4 :: wordIndices[k] == 0
    ensures sha.Some? ==> fresh(sha.value) && sha.value.fed == KeyInput(english, wordIndices)
    ensures sha.Some? && InList(wordIndices) ==> Hashed(english, wordIndices, clear, sha.value.fed)
  {
    if wordIndices[0] == 0 && wordIndices[1] == 0 && wordIndices[2] == 0 && wordIndices[3] == 0 {
      return None, "";
    }
    var printed := CreateClearPassphrase(wordIndices, english);
    var state := new Sha512();
    var i := 0;
    while i < PHRASE_WORD_COUNT
      invariant 0 <= i <= PHRASE_WORD_COUNT && fresh(state)
      invariant state.fed == RawMemory(wordIndices[..i])
    {
      var value := wordIndices[i];
      state.Update(LittleEndian(value, 8));
      assert wordIndices[..i + 1] == wordIndices[..i] + [value];
      RawMemoryAppend(wordIndices[..i], value);
      i := i + 1;
    }
    assert wordIndices[..i] == wordIndices;
    state.Update(Bytes(printed));
    if InList(wordIndices) {
      KeyInputHashed(english, wordIndices);
    }
    return Some(state), printed;
  }

  /** A phrase with its word list, and the indices of its words, which are read when it is made. */
  class Passphrase {
    const phrase: string
    const source: Option<WordList>
    var wordIndices: seq<nat>

    /** The buffer of the reader is long enough for the phrase. */
    predicate Readable() {
      Fits(phrase, 0)
    }

    ghost function Held(): seq<nat>
      requires source.Some? ==> source.value.Valid()
    {
      if source.None? then seq(PHRASE_WORD_COUNT, _ => 0) else FilledIn(source.value, phrase)
    }

    ghost predicate Valid()
      reads this
    {
      && (source.Some? ==> source.value.Valid() && Readable())
      && wordIndices == Held()
    }

    constructor (phrase: string, source: Option<WordList>)
      requires source.Some? ==> source.value.Valid() && Fits(phrase, 0)
      ensures Valid() && this.phrase == phrase && this.source == source
    {
      this.phrase, this.source := phrase, source;
      wordIndices := seq(PHRASE_WORD_COUNT, _ => 0);
      new;
      if source.Some? {
        var _, filled := ReadWordIndices(phrase, source.value);
        wordIndices := filled;
      }
    }

    /** Reads again while the first four indices are zero, which fills in the same. */
    method GetWordIndices() returns (indices: seq<nat>)
      requires Valid()
      modifies this
      ensures Valid() && indices == Held() && |indices| == PHRASE_WORD_COUNT
    {
      if (forall k | 0 <= k < 4 :: wordIndices[k] == 0) && source.Some? {
        var _, filled := ReadWordIndices(phrase, source.value);
        wordIndices := filled;
      }
      return wordIndices;
    }
  }

  /**
   A phrase makes a key in the second class exactly if not all of the first four indices that were
   filled in are zero, even if it cannot be read to its end.
   */
  method CreateKeyPairEd25519(p: Passphrase, english: WordList)
    returns (sha: Option<Sha512>, ghost clear: string)
    requires p.Valid() && english.Valid()
    modifies p
    ensures p.Valid()
    ensures sha.None? <==> forall k | 0 <= k < 4 :: p.Held()[k] == 0
    ensures sha.Some? ==> fresh(sha.value) && sha.value.fed == KeyInput(english, p.Held())
    ensures sha.Some? ==> Hashed(english, p.Held(), clear, sha.value.fed)
  {
    var indices := p.GetWordIndices();
    sha, clear := FeedKeyPairEd25519(indices, english);
  }

  /** This happens: a phrase with an unknown second word is refused by the first class and hashed as one word by the second. */
  lemma UnknownWordIgnored(d: WordList, i: nat, u: string)
    requires d.Valid() && 0 < i < WORDS_IN_LIST && IsPlain(u) && d.indexOf(u) == -1
    ensures var p := d.words[i] + " " + (u + " ");
            && Fits(p, 0) && Parse(d, p).None?
            && FilledIn(d, p) == Padded([i])
  {
    var w := d.words[i];
    var p := w + " " + (u + " ");
    assert p == w + (" " + (u + " "));
    ReadWord(w, " " + (u + " "), "");
    assert (" " + (u + " "))[1..] == u + " ";
    ReadWord(u, " ", "");
    assert " "[1..] == "";
    assert "" + w == w && "" + u == u;
    assert Tokens("", "") == ([], "") && [u] + [] == [u];
    assert Tokens(" ", u) == ([u], "");
    assert Tokens(" " + (u + " "), w) == ([w] + [u], "");
    CStringExactly(w);
    CStringExactly(u);
    KnownPrefixIs(d, [w] + [u], [w]);
    assert Lookup(d, ([w] + [u])[1]) == -1;
    assert Indices(d, [w]) == [i];
  }

  /** A word of one or two characters is glued to the one after it. */
  lemma ShortWordGlued(u: string, w: string)
    requires 0 < |u| < 3 <= |w| && |u| + |w| <= 24 && Without(u, ' ') && Without(w, ' ')
    ensures Tokens(u + (" " + (w + " ")), "") == ([u + w], "")
  {
    ReadWord(u, " " + (w + " "), "");
    assert "" + u == u && (" " + (w + " "))[1..] == w + " ";
    ReadWord(w, " ", u);
    assert " "[1..] == "" && [u + w] + [] == [u + w];
  }

  /** Of more than 24 words the first class reads none, and the second the first 24. */
  lemma LongPhrase(d: WordList, ix: seq<nat>)
    requires d.Valid() && InList(ix) && |ix| > PHRASE_WORD_COUNT
    ensures Fits(Print(d, ix), 0) && Parse(d, Print(d, ix)).None?
    ensures FilledIn(d, Print(d, ix)) == ix[..PHRASE_WORD_COUNT]
  {
    ReadPrinted(d, ix);
    var ts := WordsOf(d, ix);
    forall i | 0 <= i < |ts| ensures Lookup(d, ts[i]) == ix[i] {
      CStringExactly(ts[i]);
    }
    AllPrefix(d, ts);
    assert Indices(d, ts[..PHRASE_WORD_COUNT]) == ix[..PHRASE_WORD_COUNT];
  }

  lemma {:induction false} AllPrefix(d: WordList, ts: seq<string>)
    requires AllKnown(d, ts)
    ensures KnownPrefix(d, ts) == ts
  {
    if ts != [] {
      AllPrefix(d, ts[1..]);
    }
  }

  lemma {:induction false} RawMemoryAppend(ix: seq<nat>, v: nat)
    ensures RawMemory(ix + [v]) == RawMemory(ix) + LittleEndian(v, 8)
  {
    if ix == [] {
      assert [v][1..] == [] && [] + [v] == [v];
      assert RawMemory([v]) == LittleEndian(v, 8) + [];
    } else {
      assert (ix + [v])[1..] == ix[1..] + [v] && (ix + [v])[0] == ix[0];
      RawMemoryAppend(ix[1..], v);
    }
  }

  /**
   Both key classes hash the same bytes for a phrase and for its translation into any list, except
   that KeyPairEd25519 refuses phrases whose first four words are all the first of the list.
   */
  method SameKeyFromTranslation(lists: seq<WordList>, english: WordList, p: string, a: nat, b: nat)
    returns (one: Option<Sha512>, two: Option<Sha512>, three: Option<Sha512>)
    requires english.Valid() && forall d | d in lists :: d.Valid()
    requires a < |lists| && b < |lists| && Fits(p, 0)
    requires Parse(lists[a], p).Some?
    ensures one.Some? && two.Some? && one.value.fed == two.value.fed
    ensures three.Some? <==> exists k :: 0 <= k < 4 && Parse(lists[a], p).value[k] != 0
    ensures three.Some? ==> three.value.fed == one.value.fed
  {
    ghost var clear;
    one, clear := FeedKeyPair(p, lists[a], english);
    var q := PassphraseTransform(lists, p, Some(a), Some(b));
    if a != b {
      PrintThenParse(lists[b], Parse(lists[a], p).value);
    }
    two, clear := FeedKeyPair(q, lists[b], english);
    var ix := CreateWordIndices(q, lists[b]);
    three, clear := FeedKeyPairEd25519(ix.value, english);
  }

  lemma {:induction false} DecodeLittleEndian(v: nat, bytes: nat)
    requires v < Power256(bytes)
    ensures Decode(LittleEndian(v, bytes)) == v
  {
    if bytes > 0 {
      DecodeLittleEndian(v / 0x100, bytes - 1);
    }
  }

  function Power256(n: nat): nat {
    if n == 0 then 1 else 0x100 * Power256(n - 1)
  }

  lemma {:induction false} RawMemoryInjective(ix: seq<nat>, jx: seq<nat>)
    requires |ix| == |jx| && RawMemory(ix) == RawMemory(jx)
    requires InList(ix) && InList(jx)
    ensures ix == jx
  {
    if ix != [] {
      assert RawMemory(ix)[..8] == LittleEndian(ix[0], 8) && RawMemory(ix)[8..] == RawMemory(ix[1..]);
      assert RawMemory(jx)[..8] == LittleEndian(jx[0], 8) && RawMemory(jx)[8..] == RawMemory(jx[1..]);
      assert Power256(8) >= WORDS_IN_LIST;
      DecodeLittleEndian(ix[0], 8);
      DecodeLittleEndian(jx[0], 8);
      RawMemoryInjective(ix[1..], jx[1..]);
    }
  }

  /** Phrases hash the same bytes exactly if they are read as the same indices. */
  lemma KeyInputExactly(english: WordList, ix: seq<nat>, jx: seq<nat>)
    requires english.Valid() && |ix| == |jx| == PHRASE_WORD_COUNT && InList(ix) && InList(jx)
    ensures KeyInput(english, ix) == KeyInput(english, jx) <==> ix == jx
  {
    var m, n := RawMemory(ix), RawMemory(jx);
    if KeyInput(english, ix) == KeyInput(english, jx) {
      assert KeyInput(english, ix)[..|m|] == m && KeyInput(english, jx)[..|n|] == n;
      RawMemoryInjective(ix, jx);
    }
  }
}
