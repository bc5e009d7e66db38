/**
 The 32-bit string hash, in its two forms: over the characters up to the terminating zero, and
 over a given number of characters.
 */
module StringHash {

  type Char = bv8

  const NUL: Char := 0

  function RotateLeft(hash: bv32, rotateBy: nat): bv32
    requires 0 < rotateBy < 32
  {
    (hash << rotateBy) | (hash >> (32 - rotateBy))
  }

  /** A character is signed: it is added as a number from -128 to 127. */
  function SignExtended(c: Char): bv32 {
    if c < 128 then c as bv32 else (c as bv32) | 0xFFFF_FF00
  }

  function Mixed(hash: bv32, c: Char): bv32 {
    RotateLeft(hash, 7) + SignExtended(c)
  }

  function Hash(s: seq<Char>): bv32 {
    if s == [] then 0 else Mixed(Hash(s[..|s| - 1]), s[|s| - 1])
  }

  lemma HashNext(memory: seq<Char>, i: nat)
    requires i < |memory|
    ensures Hash(memory[..i + 1]) == Mixed(Hash(memory[..i]), memory[i])
  {
    assert memory[..i + 1][..i] == memory[..i];
  }

  /** The characters of a string in memory. */
  function Bytes(s: string): seq<Char> {
    seq(|s|, i requires 0 <= i < |s| => (s[i] as int % 0x100) as Char)
  }

  /** A character below 256 is kept. */
  lemma BytesAre(s: string, i: nat)
    requires i < |s| && s[i] as int < 0x100
    ensures Bytes(s)[i] as int == s[i] as int
  {
    ByteBack(s[i] as int);
  }

  lemma ByteBack(v: int)
    requires 0 <= v < 0x100
    ensures (v % 0x100) as Char as int == v
  {
  }

  /** The length of the string that starts the memory. */
  ghost predicate EndsAt(memory: seq<Char>, n: nat) {
    n < |memory| && memory[n] == NUL && forall j | 0 <= j < n :: memory[j] != NUL
  }

  method MakeStringHash(memory: seq<Char>) returns (ret: bv32)
    requires NUL in memory
    ensures forall n: nat | EndsAt(memory, n) :: ret == Hash(memory[..n])
  {
    ghost var k :| 0 <= k < |memory| && memory[k] == NUL;
    ret := 0;
    var i := 0;
    while memory[i] != NUL
      invariant 0 <= i <= k && ret == Hash(memory[..i])
      invariant forall j | 0 <= j < i :: memory[j] != NUL
      decreases k - i
    {
      HashNext(memory, i);
      ret := Mixed(ret, memory[i]);
      i := i + 1;
    }
  }

  method MakeSizedStringHash(memory: seq<Char>, size: nat) returns (ret: bv32)
    requires size <= |memory|
    ensures ret == Hash(memory[..size])
  {
    ret := 0;
    for i := 0 to size
      invariant ret == Hash(memory[..i])
    {
      HashNext(memory, i);
      ret := Mixed(ret, memory[i]);
    }
  }

  /**
   Both forms, on a text stored with its size and a zero after it. They agree on a text without
   zeros; otherwise one of them hashes the beginning only.
   */
  method BothHashes(text: seq<Char>) returns (terminated: bv32, sized: bv32)
    ensures sized == Hash(text)
    ensures NUL !in text ==> terminated == sized
    ensures forall n: nat | EndsAt(text, n) :: terminated == Hash(text[..n])
  {
    var memory := text + [NUL];
    assert memory[|text|] == NUL && memory[..|text|] == text;
    terminated := MakeStringHash(memory);
    sized := MakeSizedStringHash(memory, |text|);
    assert NUL !in text ==> EndsAt(memory, |text|);
    forall n: nat | EndsAt(text, n) ensures terminated == Hash(text[..n]) {
      assert memory[..n] == text[..n];
      assert EndsAt(memory, n);
    }
  }

  // ---------------------------------------------------------------- as arithmetic

  /** Rotation by seven bits multiplies by 2^7 and adds what that loses at the top. */
  lemma RotateIsArithmetic(hash: bv32)
    ensures RotateLeft(hash, 7) == hash * 128 + hash / 0x200_0000
  {
    var r := (hash << 7) | (hash >> 25);
    assert RotateLeft(hash, 7) == r;
    assert (hash << 7) | (hash >> 25) == hash * 128 + hash / 0x200_0000;
  }

  lemma SignIsArithmetic(c: Char)
    ensures SignExtended(c) == (c as bv32) - if c < 128 then 0 else 256
  {
  }

  /** Addition modulo 2^32. */
  function Sum(x: bv32, y: bv32): bv32 {
    x + y
  }

  lemma MixedIsSum(hash: bv32, c: Char)
    ensures Mixed(hash, c) == Sum(RotateLeft(hash, 7), SignExtended(c))
  {
  }

  /** Modulo 2^32, a character adds its signed value to the rotated hash. */
  lemma MixedIsArithmetic(hash: bv32, c: Char)
    ensures Mixed(hash, c) == Sum(hash * 128 + hash / 0x200_0000, (c as bv32) - if c < 128 then 0 else 256)
  {
    MixedIsSum(hash, c);
    RotateIsArithmetic(hash);
    SignIsArithmetic(c);
  }

  lemma SumSmall(x: bv32, c: Char)
    requires x < 0x200_0000 && c < 128
    ensures Sum(x * 128 + x / 0x200_0000, (c as bv32) - if c < 128 then 0 else 256) == x * 128 + c as bv32
  {
  }

  /** A character of seven bits is one more digit to the base 128, as long as the number has at most 25 bits. */
  lemma NextDigit(hash: bv32, c: Char)
    requires hash < 0x200_0000 && c < 128
    ensures Mixed(hash, c) == hash * 128 + c as bv32
  {
    MixedIsArithmetic(hash, c);
    SumSmall(hash, c);
  }

  lemma OneCharacter(a: Char)
    requires a < 128
    ensures Hash([a]) == a as bv32
  {
    HashNext([a], 0);
    assert [a][..1] == [a] && [a][..0] == [];
    NextDigit(0, a);
  }

  lemma TwoCharacters(a: Char, b: Char)
    requires a < 128 && b < 128
    ensures Hash([a, b]) == (a as bv32) * 128 + b as bv32
  {
    HashNext([a, b], 1);
    assert [a, b][..2] == [a, b] && [a, b][..1] == [a];
    OneCharacter(a);
    NextDigit(a as bv32, b);
  }

  // ---------------------------------------------------------------- collisions

  lemma RotateBack(hash: bv32)
    ensures RotateLeft(RotateLeft(hash, 7), 25) == hash
  {
    var r := (hash << 7) | (hash >> 25);
    assert RotateLeft(hash, 7) == r;
    assert (r << 25) | (r >> 7) == hash;
  }

  lemma RotateSeparates(g: bv32, h: bv32)
    requires RotateLeft(g, 7) == RotateLeft(h, 7)
    ensures g == h
  {
    assert RotateLeft(RotateLeft(g, 7), 25) == RotateLeft(RotateLeft(h, 7), 25);
    RotateBack(g);
    RotateBack(h);
  }

  lemma SumSeparates(x: bv32, y: bv32, z: bv32)
    requires x + z == y + z
    ensures x == y
  {
    assert x == (x + z) - z;
  }

  lemma MixedSeparates(g: bv32, h: bv32, c: Char)
    requires Mixed(g, c) == Mixed(h, c)
    ensures g == h
  {
    SumSeparates(RotateLeft(g, 7), RotateLeft(h, 7), SignExtended(c));
    RotateSeparates(g, h);
  }

  lemma CharactersSeparate(h: bv32, c: Char, d: Char)
    requires Mixed(h, c) == Mixed(h, d)
    ensures c == d
  {
    SumSeparates(SignExtended(c), SignExtended(d), RotateLeft(h, 7));
  }

  /** The same text after two others does not make them collide or keep them from it. */
  lemma {:induction false} SuffixKeeps(s: seq<Char>, t: seq<Char>, u: seq<Char>)
    ensures Hash(s + u) == Hash(t + u) <==> Hash(s) == Hash(t)
  {
    if u == [] {
      assert s + u == s && t + u == t;
    } else {
      var n := |u| - 1;
      assert (s + u)[..|s + u| - 1] == s + u[..n] && (t + u)[..|t + u| - 1] == t + u[..n];
      SuffixKeeps(s, t, u[..n]);
      if Hash(s + u) == Hash(t + u) {
        MixedSeparates(Hash(s + u[..n]), Hash(t + u[..n]), u[n]);
      }
    }
  }

  /** Changing a single character changes the hash. */
  lemma OneCharacterMatters(s: seq<Char>, i: nat, c: Char)
    requires i < |s| && c != s[i]
    ensures Hash(s[i := c]) != Hash(s)
  {
    var a, b := s[..i] + [s[i]], s[..i] + [c];
    assert s == a + s[i + 1..] && s[i := c] == b + s[i + 1..];
    SuffixKeeps(a, b, s[i + 1..]);
    assert a[..i] == s[..i] && b[..i] == s[..i];
    if Hash(a) == Hash(b) {
      CharactersSeparate(Hash(s[..i]), s[i], c);
    }
  }
}
