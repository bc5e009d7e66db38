/**
 A word list and its two look-up tables: from the hash of a word to its index, and, for the hashes
 that several words share, from the word itself.
 */
module Mnemonic {
  import Passphrases
  import opened Sequences
  import opened Strings

  type Hash = nat

  type Indices = map<Hash, nat>

  type Collisions = map<Hash, map<string, nat>>

  // ---------------------------------------------------------------- the tables

  lemma OneMore(words: seq<string>, w: string)
    requires Distinct(words)
    ensures Distinct(words + [w]) <==> w !in words
  {
    if w in words {
      var i :| 0 <= i < |words| && words[i] == w;
      assert (words + [w])[i] == (words + [w])[|words|];
    }
  }

  ghost predicate SameHash(words: seq<string>, hash: string -> Hash, i: nat, j: nat) {
    i < j < |words| && hash(words[i]) == hash(words[j])
  }

  ghost predicate Shared(words: seq<string>, hash: string -> Hash, h: Hash) {
    exists i: nat, j: nat :: SameHash(words, hash, i, j) && hash(words[i]) == h
  }

  /** The tables know each of the words, those in the second table by name. */
  ghost predicate Lists(words: seq<string>, hash: string -> Hash, indices: Indices, collisions: Collisions) {
    && (forall i | 0 <= i < |words| :: Listed(words, hash, indices, collisions, i))
    && (forall h | h in indices :: indices[h] < |words| && hash(words[indices[h]]) == h)
    && (forall h | h in collisions :: Shared(words, hash, h) && h in indices)
    && (forall h | h in collisions :: Named(words, hash, collisions[h], h))
  }

  ghost predicate Listed(words: seq<string>, hash: string -> Hash, indices: Indices, collisions: Collisions, i: nat) {
    i < |words| ==>
      var h := hash(words[i]);
      && h in indices
      && if h in collisions then words[i] in collisions[h] && collisions[h][words[i]] == i else indices[h] == i
  }

  ghost predicate Named(words: seq<string>, hash: string -> Hash, names: map<string, nat>, h: Hash) {
    forall w | w in names :: names[w] < |words| && words[names[w]] == w && hash(w) == h
  }

  function FindIn(hash: string -> Hash, indices: Indices, collisions: Collisions, word: string): int {
    var h := hash(word);
    if h in indices then indices[h]
    else if h in collisions && word in collisions[h] then collisions[h][word]
    else -1
  }

  lemma SharedGrows(words: seq<string>, hash: string -> Hash, w: string, h: Hash)
    ensures Shared(words, hash, h) ==> Shared(words + [w], hash, h)
  {
    if Shared(words, hash, h) {
      var i: nat, j: nat :| SameHash(words, hash, i, j) && hash(words[i]) == h;
      assert SameHash(words + [w], hash, i, j);
    }
  }

  lemma NewHash(words: seq<string>, hash: string -> Hash, indices: Indices, collisions: Collisions, w: string)
    requires Lists(words, hash, indices, collisions) && hash(w) !in indices
    ensures w !in words
  {
    forall i | 0 <= i < |words| ensures words[i] != w {
      assert Listed(words, hash, indices, collisions, i);
    }
  }

  /** A word with a hash of its own so far. */
  lemma AddUnshared(words: seq<string>, hash: string -> Hash, indices: Indices, collisions: Collisions, w: string)
    requires Lists(words, hash, indices, collisions) && hash(w) !in indices
    ensures Lists(words + [w], hash, indices[hash(w) := |words|], collisions)
  {
    var more, after := words + [w], indices[hash(w) := |words|];
    forall i | 0 <= i < |more| ensures Listed(more, hash, after, collisions, i) {
      assert i < |words| ==> Listed(words, hash, indices, collisions, i);
    }
    forall h | h in collisions ensures Shared(more, hash, h) && Named(more, hash, collisions[h], h) {
      SharedGrows(words, hash, w, h);
      assert Named(words, hash, collisions[h], h);
    }
  }

  /** A word whose hash is taken joins the names for that hash, after the word that took it. */
  lemma AddShared(
      words: seq<string>, hash: string -> Hash, indices: Indices, collisions: Collisions, names: map<string, nat>, w: string)
    requires Lists(words, hash, indices, collisions) && hash(w) in indices
    requires names == if hash(w) in collisions then collisions[hash(w)] else map[words[indices[hash(w)]] := indices[hash(w)]]
    requires w !in names
    ensures Lists(words + [w], hash, indices, collisions[hash(w) := names[w := |words|]])
  {
    var more, g, first := words + [w], hash(w), indices[hash(w)];
    var after := collisions[g := names[w := |words|]];
    assert SameHash(more, hash, first, |words|);
    forall i | 0 <= i < |more| ensures Listed(more, hash, indices, after, i) {
      assert i < |words| ==> Listed(words, hash, indices, collisions, i);
    }
    forall h | h in after ensures Shared(more, hash, h) && Named(more, hash, after[h], h) {
      SharedGrows(words, hash, w, h);
      assert h in collisions ==> Named(words, hash, collisions[h], h);
    }
  }

  /** The names for a hash are complete, so that a word that is missing there is new. */
  lemma NamesComplete(
      words: seq<string>, hash: string -> Hash, indices: Indices, collisions: Collisions, names: map<string, nat>, w: string)
    requires Lists(words, hash, indices, collisions) && hash(w) in indices
    requires names == if hash(w) in collisions then collisions[hash(w)] else map[words[indices[hash(w)]] := indices[hash(w)]]
    ensures w in names <==> w in words
  {
    if w in words {
      var i: nat :| i < |words| && words[i] == w;
      assert Listed(words, hash, indices, collisions, i);
    }
    if w in names && hash(w) in collisions {
      assert Named(words, hash, collisions[hash(w)], hash(w));
    }
  }

  /** Exactly the words of the list, and strangers that share the hash of a word that no other shares, are found. */
  lemma FoundExactly(words: seq<string>, hash: string -> Hash, indices: Indices, collisions: Collisions, w: string)
    requires Lists(words, hash, indices, collisions)
    ensures var r := FindIn(hash, indices - collisions.Keys, collisions, w);
            && -1 <= r < |words|
            && (r >= 0 ==> hash(words[r]) == hash(w))
            && (r >= 0 <==> w in words || (Taken(words, hash, hash(w)) && !Shared(words, hash, hash(w))))
            && (w in words ==> words[r] == w)
  {
    var h := hash(w);
    if w in words {
      var i: nat :| i < |words| && words[i] == w;
      assert Listed(words, hash, indices, collisions, i);
      assert h in collisions ==> Named(words, hash, collisions[h], h);
    } else if h in collisions {
      assert Named(words, hash, collisions[h], h);
    } else if Taken(words, hash, h) {
      var i: nat :| i < |words| && hash(words[i]) == h;
      assert Listed(words, hash, indices, collisions, i);
      if Shared(words, hash, h) {
        var j: nat, k: nat :| SameHash(words, hash, j, k) && hash(words[j]) == h;
        assert Listed(words, hash, indices, collisions, j) && Listed(words, hash, indices, collisions, k);
      }
    }
  }

  ghost predicate Taken(words: seq<string>, hash: string -> Hash, h: Hash) {
    exists i | 0 <= i < |words| :: hash(words[i]) == h
  }

  // ---------------------------------------------------------------- the text of a list

  /** The words of a text from some place on: what stands before each comma, and behind the last one if anything does. */
  function Listing(text: string, start: nat): seq<string>
    decreases |text| - start
  {
    if start >= |text| then []
    else
      var n := Find(text, start, |text|, ',');
      [CString(text[start..n])] + Listing(text, n + 1)
  }

  /** A word is cut at a NUL, as it passes through a C string. */
  lemma {:induction false} ListedNulFree(text: string, start: nat)
    ensures forall w | w in Listing(text, start) :: Without(w, NUL)
    decreases |text| - start
  {
    if start < |text| {
      var n := Find(text, start, |text|, ',');
      ListedNulFree(text, n + 1);
      CStringTwice(text[start..n]);
      CStringExactly(CString(text[start..n]));
    }
  }

  lemma ListingStep(text: string, start: nat, n: nat)
    requires start <= n <= |text| && start < |text| && Without(text[start..n], ',') && (n < |text| ==> text[n] == ',')
    ensures Listing(text, start) == [CString(text[start..n])] + Listing(text, n + 1)
  {
    assert forall k | start <= k < n :: text[k] == text[start..n][k - start];
    FindIs(text, start, |text|, ',', n);
  }

  /** The loop at place i: the current word began at wordBegin, and these were the words before it. */
  ghost predicate At(text: string, wordBegin: nat, i: nat, before: seq<string>) {
    && wordBegin <= i <= |text| && (i == |text| ==> wordBegin == i)
    && Without(text[wordBegin..i], ',')
    && before + Listing(text, wordBegin) == Listing(text, 0)
  }

  predicate EndsWord(text: string, i: nat) {
    i < |text| && (text[i] == ',' || i == |text| - 1)
  }

  function WordAt(text: string, wordBegin: nat, i: nat): string
    requires wordBegin <= i && EndsWord(text, i)
  {
    CString(text[wordBegin..if text[i] == ',' then i else i + 1])
  }

  lemma NoWordYet(text: string, wordBegin: nat, i: nat, before: seq<string>)
    requires At(text, wordBegin, i, before) && i < |text| && !EndsWord(text, i)
    ensures At(text, wordBegin, i + 1, before)
  {
    NoComma(text, wordBegin, i);
  }

  lemma NoComma(text: string, wordBegin: nat, i: nat)
    requires wordBegin <= i < |text| && Without(text[wordBegin..i], ',') && text[i] != ','
    ensures Without(text[wordBegin..i + 1], ',')
  {
    assert text[wordBegin..i + 1] == text[wordBegin..i] + [text[i]];
  }

  lemma NextWord(text: string, wordBegin: nat, i: nat, before: seq<string>)
    requires At(text, wordBegin, i, before) && EndsWord(text, i)
    ensures At(text, i + 1, i + 1, before + [WordAt(text, wordBegin, i)])
  {
    var word, rest := WordAt(text, wordBegin, i), Listing(text, i + 1);
    if text[i] == ',' {
      ListingStep(text, wordBegin, i);
    } else {
      NoComma(text, wordBegin, i);
      ListingStep(text, wordBegin, i + 1);
      assert rest == Listing(text, i + 2) == [];
    }
    assert Listing(text, wordBegin) == [word] + rest;
    assert before + ([word] + rest) == before + [word] + rest;
  }

  /** Where the current word begins, and the words before it, when the loop stands at place i. */
  function BeginAt(text: string, i: nat): (n: nat)
    requires i <= |text|
    ensures n <= i
  {
    if i == 0 || EndsWord(text, i - 1) then i else BeginAt(text, i - 1)
  }

  function WordsBefore(text: string, i: nat): seq<string>
    requires i <= |text|
  {
    if i == 0 then []
    else
      var before := WordsBefore(text, i - 1);
      if EndsWord(text, i - 1) then before + [WordAt(text, BeginAt(text, i - 1), i - 1)] else before
  }

  lemma {:induction false} LoopAt(text: string, i: nat)
    requires i <= |text|
    ensures At(text, BeginAt(text, i), i, WordsBefore(text, i))
  {
    if i == 0 {
      assert [] + Listing(text, 0) == Listing(text, 0);
    } else {
      LoopAt(text, i - 1);
      var begun, before := BeginAt(text, i - 1), WordsBefore(text, i - 1);
      if EndsWord(text, i - 1) {
        NextWord(text, begun, i - 1, before);
      } else {
        NoWordYet(text, begun, i - 1, before);
      }
    }
  }

  /** The loop has found the listing at the end, and a part of it before. */
  lemma LoopFinds(text: string, i: nat)
    requires i <= |text|
    ensures i == |text| ==> WordsBefore(text, i) == Listing(text, 0)
    ensures i < |text| ==> |WordsBefore(text, i)| < |Listing(text, 0)|
    ensures !Distinct(WordsBefore(text, i)) ==> !Distinct(Listing(text, 0))
  {
    LoopAt(text, i);
    var before, list := WordsBefore(text, i), Listing(text, 0);
    assert forall k | 0 <= k < |before| :: before[k] == list[k];
  }

  /** The text of a list, with or without a comma at its end. */
  function Text(list: seq<string>, closed: bool): string {
    if list == [] then ""
    else if |list| == 1 && !closed then list[0]
    else list[0] + "," + Text(list[1..], closed)
  }

  lemma FirstPart(text: string, start: nat, w: string, more: string)
    requires start <= |text| && text[start..] == w + "," + more
    ensures var n := start + |w|;
            n < |text| && text[start..n] == w && text[n] == ',' && text[n + 1..] == more
  {
    var rest, n := text[start..], start + |w|;
    assert rest[..|w|] == w && rest[|w|] == ',' && rest[|w| + 1..] == more;
    SliceOfSlice(text, start, |text|, 0, |w|);
    SliceOfSlice(text, start, |text|, |w| + 1, |rest|);
  }

  ghost predicate IsWord(w: string) {
    Without(w, ',') && CString(w) == w
  }

  /** Words that a text can hold, the last of them not empty unless a comma follows. */
  ghost predicate AreWords(list: seq<string>, closed: bool) {
    list != [] ==>
      && IsWord(list[0])
      && (|list| == 1 && !closed ==> list[0] != "")
      && AreWords(list[1..], closed)
  }

  /** The text of the list stands from the place on. */
  ghost predicate Stands(text: string, start: nat, list: seq<string>, closed: bool)
    decreases |list|
  {
    if list == [] then start == |text|
    else if |list| == 1 && !closed then start <= |text| && text[start..] == list[0]
    else
      var n := start + |list[0]|;
      n < |text| && text[start..n] == list[0] && text[n] == ',' && Stands(text, n + 1, list[1..], closed)
  }

  lemma {:induction false} TextStands(text: string, start: nat, list: seq<string>, closed: bool)
    requires start <= |text| && text[start..] == Text(list, closed)
    ensures Stands(text, start, list, closed)
    decreases |list|
  {
    if list != [] && (closed || |list| > 1) {
      FirstPart(text, start, list[0], Text(list[1..], closed));
      TextStands(text, start + |list[0]| + 1, list[1..], closed);
    }
  }

  lemma LastStands(text: string, start: nat, w: string)
    requires start <= |text| && text[start..] == w && IsWord(w) && w != ""
    ensures Listing(text, start) == [w]
  {
    assert text[start..|text|] == w;
    ListingStep(text, start, |text|);
  }

  lemma FirstStands(text: string, start: nat, list: seq<string>)
    requires list != [] && IsWord(list[0])
    requires var n := start + |list[0]|;
             n < |text| && text[start..n] == list[0] && text[n] == ',' && Listing(text, n + 1) == list[1..]
    ensures Listing(text, start) == list
  {
    ListingStep(text, start, start + |list[0]|);
    assert list == [list[0]] + list[1..];
  }

  lemma RestStands(text: string, start: nat, list: seq<string>, closed: bool)
    returns (next: nat, rest: seq<string>)
    requires Stands(text, start, list, closed) && AreWords(list, closed)
    requires list != [] && (closed || |list| > 1)
    ensures Stands(text, next, rest, closed) && AreWords(rest, closed) && |rest| < |list|
    ensures Listing(text, next) == rest ==> Listing(text, start) == list
  {
    next, rest := start + |list[0]| + 1, list[1..];
    if Listing(text, next) == rest {
      FirstStands(text, start, list);
    }
  }

  lemma OnlyStands(text: string, start: nat, list: seq<string>, closed: bool)
    requires Stands(text, start, list, closed) && AreWords(list, closed)
    requires list == [] || (|list| == 1 && !closed)
    ensures Listing(text, start) == list
  {
    if list != [] {
      LastStands(text, start, list[0]);
    }
  }

  lemma {:induction false} ListingWhereStands(text: string, start: nat, list: seq<string>, closed: bool)
    requires Stands(text, start, list, closed) && AreWords(list, closed)
    ensures Listing(text, start) == list
    decreases |list|
  {
    if list == [] || (|list| == 1 && !closed) {
      OnlyStands(text, start, list, closed);
    } else {
      var next, rest := RestStands(text, start, list, closed);
      ListingWhereStands(text, next, rest, closed);
    }
  }

  /** Every list of words without commas and NUL comes back from its text. */
  lemma ListingOfText(list: seq<string>, closed: bool)
    requires AreWords(list, closed)
    ensures Listing(Text(list, closed), 0) == list
  {
    TextStands(Text(list, closed), 0, list, closed);
    ListingWhereStands(Text(list, closed), 0, list, closed);
  }

  // ---------------------------------------------------------------- the list

  class Words {
    const hash: string -> Hash
    var words: seq<string>
    var wordHashIndices: Indices
    var hashCollisionWords: Collisions

    constructor (hash: string -> Hash)
      ensures this.hash == hash && words == [] && wordHashIndices == map[] && hashCollisionWords == map[]
    {
      this.hash, words, wordHashIndices, hashCollisionWords := hash, [], map[], map[];
    }

    /**
     Fills the list anew from the text in which the words stand, one comma after each but perhaps the
     last. -3: more words than indices; -7: a word occurs twice.
     */
    method Init(text: string) returns (code: int)
      modifies this
      ensures var list := Listing(text, 0);
              && (code == 0 <==> |list| <= 2048 && Distinct(list))
              && (code == -3 ==> |list| > 2048)
              && (code == -7 ==> !Distinct(list))
              && (code == 0 ==> words == list)
      ensures code in {0, -3, -7}
      ensures code == 0 ==> forall w: string :: FoundAs(w, FindIn(hash, wordHashIndices, hashCollisionWords, w))
    {
      words, wordHashIndices, hashCollisionWords := [], map[], map[];
      code := Fill(text);
      if code == 0 {
        forall w: string ensures FoundAs(w, FindIn(hash, wordHashIndices - hashCollisionWords.Keys, hashCollisionWords, w)) {
          FoundExactly(words, hash, wordHashIndices, hashCollisionWords, w);
        }
        wordHashIndices := wordHashIndices - hashCollisionWords.Keys;
      }
    }

    method Fill(text: string) returns (code: int)
      requires words == [] && Lists(words, hash, wordHashIndices, hashCollisionWords)
      modifies this
      ensures code == 0 || code == -3 || code == -7
      ensures code == 0 ==> words == Listing(text, 0) && Sound()
      ensures code == -3 ==> |Listing(text, 0)| > Passphrases.WORDS_IN_LIST
      ensures code == -7 ==> !Distinct(Listing(text, 0))
    {
      var i, wordBegin := 0, 0;
      while i < |text|
        invariant 0 <= i <= |text| && wordBegin == BeginAt(text, i) && words == WordsBefore(text, i)
        invariant Sound()
      {
        if |words| >= Passphrases.WORDS_IN_LIST {
          LoopFinds(text, i);
          return -3;
        }
        if EndsWord(text, i) {
          OneMore(words, WordAt(text, wordBegin, i));
          var inserted := AddWord(WordAt(text, wordBegin, i));
          if !inserted {
            LoopFinds(text, i + 1);
            return -7;
          }
          wordBegin := i + 1;
        }
        i := i + 1;
      }
      LoopFinds(text, i);
      return 0;
    }

    /** At most as many words as there are indices, all different, and the tables know them. */
    ghost predicate Sound()
      reads this
    {
      |words| <= Passphrases.WORDS_IN_LIST && Distinct(words) && Lists(words, hash, wordHashIndices, hashCollisionWords)
    }

    /** False: the word is listed already. */
    method AddWord(word: string) returns (inserted: bool)
      requires Lists(words, hash, wordHashIndices, hashCollisionWords)
      modifies this
      ensures inserted <==> word !in old(words)
      ensures inserted ==> words == old(words) + [word] && Lists(words, hash, wordHashIndices, hashCollisionWords)
    {
      var h, cursor := hash(word), |words|;
      if h !in wordHashIndices {
        AddUnshared(words, hash, wordHashIndices, hashCollisionWords, word);
        NewHash(words, hash, wordHashIndices, hashCollisionWords, word);
        words, wordHashIndices := words + [word], wordHashIndices[h := cursor];
        return true;
      }
      var first := wordHashIndices[h];
      var names := if h in hashCollisionWords then hashCollisionWords[h] else map[words[first] := first];
      NamesComplete(words, hash, wordHashIndices, hashCollisionWords, names, word);
      if word in names {
        return false;
      }
      AddShared(words, hash, wordHashIndices, hashCollisionWords, names, word);
      words, hashCollisionWords := words + [word], hashCollisionWords[h := names[word := cursor]];
      return true;
    }

    ghost predicate FoundAs(w: string, index: int)
      reads this
    {
      && -1 <= index < |words|
      && (index >= 0 ==> hash(words[index]) == hash(w))
      && (index >= 0 <==> w in words || (Taken(words, hash, hash(w)) && !Shared(words, hash, hash(w))))
      && (w in words ==> words[index] == w)
    }
  }

  /**
   A loaded text of 2048 plain words gives a list that passphrases can be written and read with,
   exactly if the empty string is not taken for the only word with its hash.
   */
  method Load(text: string, hash: string -> Hash) returns (code: int, d: Passphrases.WordList)
    requires |Listing(text, 0)| == Passphrases.WORDS_IN_LIST && forall w | w in Listing(text, 0) :: Passphrases.IsPlain(w)
    ensures code == 0 <==> Distinct(Listing(text, 0))
    ensures code == 0 ==> d.words == Listing(text, 0)
    ensures code == 0 ==> (d.Valid() <==> !Taken(d.words, hash, hash("")) || Shared(d.words, hash, hash("")))
  {
    var m := new Words(hash);
    code := m.Init(text);
    var indices, collisions := m.wordHashIndices, m.hashCollisionWords;
    d := Passphrases.WordList(m.words, w => FindIn(hash, indices, collisions, w));
    if code == 0 {
      var list := m.words;
      forall i | 0 <= i < |list| ensures d.indexOf(list[i]) == i {
        assert m.FoundAs(list[i], d.indexOf(list[i]));
      }
      forall s: string ensures -1 <= d.indexOf(s) < Passphrases.WORDS_IN_LIST {
        assert m.FoundAs(s, d.indexOf(s));
      }
      assert m.FoundAs("", d.indexOf(""));
    }
  }
}
