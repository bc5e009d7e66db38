/**
 What seeding means for whole words, stated without the routine: which words the buffer starts with,
 what one pass makes of the buffer, and how the generator state comes out of it.  Each of these
 determines its result, so that there is one seeded state for every seed.
 */
module WholeWords {
  import opened Gf2Ring
  import opened LaggedFibonacci

  function Pow2(n: nat): (r: nat)
    ensures r >= 1
  {
    if n == 0 then 1 else 2 * Pow2(n - 1)
  }

  predicate Congruent(a: int, b: int) {
    (a - b) % MM == 0
  }

  lemma CongruentBy(a: int, b: int, q: int)
    requires a - b == MM * q
    ensures Congruent(a, b)
  {
  }

  lemma CongruentAll(a: int, b: int, c: int)
    requires Congruent(a, b) && Congruent(b, c)
    ensures Congruent(a, c) && Congruent(b, a)
  {
  }

  predicate IsWord(v: int) {
    0 <= v < 0x4000_0000
  }

  lemma SameWord(v: int, w: int)
    requires IsWord(v) && IsWord(w) && Congruent(v, w)
    ensures v == w
  {
  }

  // ---------------------------------------------------------------- the words at the start

  /** v is twice a 29-bit number: bits 1 to 29 of seed + 2, rotated by j places. */
  predicate IsBootWord(seed: int, j: nat, v: int) {
    var w := (seed + 2) % 0x4000_0000 / 2;
    && v == 2 * (v / 2) && IsWord(v)
    && (v / 2 - w * Pow2(j)) % 0x1FFF_FFFF == 0
    && (v == 0 <==> w == 0)
  }

  /** The words of the start buffer; cell 1 alone is made odd. */
  ghost predicate IsBoot(seed: int, x: State) {
    forall j | 0 <= j < KK :: IsBootWord(seed, j, if j == 1 then x[j] - 1 else x[j])
  }

  lemma OneRemainder(h: int, h': int, a: int)
    requires 0 <= h <= 0x1FFF_FFFF && 0 <= h' <= 0x1FFF_FFFF && (h == 0 <==> h' == 0)
    requires (h - a) % 0x1FFF_FFFF == 0 && (h' - a) % 0x1FFF_FFFF == 0
    ensures h == h'
  {
    var q, q' := (h - a) / 0x1FFF_FFFF, (h' - a) / 0x1FFF_FFFF;
    assert h - h' == 0x1FFF_FFFF * (q - q');
  }

  lemma OneBootWord(seed: int, j: nat, v: int, v': int)
    requires IsBootWord(seed, j, v) && IsBootWord(seed, j, v')
    ensures v == v'
  {
    OneRemainder(v / 2, v' / 2, (seed + 2) % 0x4000_0000 / 2 * Pow2(j));
  }

  lemma OneBoot(seed: int, x: State, x': State)
    requires IsBoot(seed, x) && IsBoot(seed, x')
    ensures x == x'
  {
    forall j | 0 <= j < KK ensures x[j] == x'[j] {
      OneBootWord(seed, j, if j == 1 then x[j] - 1 else x[j], if j == 1 then x'[j] - 1 else x'[j]);
    }
  }

  // ---------------------------------------------------------------- inner products

  function Inner(x: seq<int>, y: nat -> int, n: nat): int
    requires n <= |x|
  {
    if n == 0 then 0 else Inner(x, y, n - 1) + x[n - 1] * y(n - 1)
  }

  /** The sequences for which z^100 = -z^37 - 1. */
  predicate NegativeAt(y: nat -> int, n: nat) {
    y(n + KK) + y(n + LL) + y(n) == 0
  }

  ghost predicate Negative(y: nat -> int) {
    forall n: nat :: NegativeAt(y, n)
  }

  function EverySecond(y: nat -> int): nat -> int {
    (n: nat) => y(2 * n)
  }

  lemma {:induction false} InnerFrame(x: seq<int>, x': seq<int>, y: nat -> int, y': nat -> int, n: nat)
    requires n <= |x| && n <= |x'|
    requires forall k: nat | k < n :: x[k] == x'[k] && y(k) == y'(k)
    ensures Inner(x, y, n) == Inner(x', y', n)
  {
    if n > 0 {
      InnerFrame(x, x', y, y', n - 1);
    }
  }

  lemma {:induction false} InnerUpdate(x: seq<int>, i: nat, v: int, y: nat -> int, n: nat)
    requires i < n <= |x|
    ensures Inner(x[i := v], y, n) == Inner(x, y, n) + (v - x[i]) * y(i)
  {
    if i == n - 1 {
      InnerFrame(x, x[i := v], y, y, i);
    } else {
      InnerUpdate(x, i, v, y, n - 1);
    }
  }

  lemma {:induction false} InnerZero(x: seq<int>, y: nat -> int, n: nat)
    requires n <= |x| && forall k: nat | k < n :: x[k] == 0 || y(k) == 0
    ensures Inner(x, y, n) == 0
  {
    if n > 0 {
      InnerZero(x, y, n - 1);
    }
  }

  /** The sequence of this kind whose first 100 numbers are zero except number i. */
  function Single(i: nat, n: nat): int {
    if n < KK then (if n == i then 1 else 0) else -Single(i, n - KK + LL) - Single(i, n - KK)
  }

  lemma InnerSingle(x: State, i: nat)
    requires i < KK
    ensures Negative((n: nat) => Single(i, n))
    ensures Inner(x, (n: nat) => Single(i, n), KK) == x[i]
  {
    var y := (n: nat) => Single(i, n);
    InnerUpdate(x, i, 0, y, KK);
    InnerZero(x[i := 0], y, KK);
  }

  // ---------------------------------------------------------------- one pass

  /** q(z) is p(z^2), with the coefficients modulo 2^30 and z^100 replaced by -z^37 - 1. */
  ghost predicate SquareOf(p: State, q: State) {
    && (forall k | 0 <= k < KK :: IsWord(q[k]))
    && forall y | Negative(y) :: Congruent(Inner(q, y, KK), Inner(p, EverySecond(y), KK))
  }

  lemma OneSquare(p: State, q: State, q': State)
    requires SquareOf(p, q) && SquareOf(p, q')
    ensures q == q'
  {
    forall k | 0 <= k < KK ensures q[k] == q'[k] {
      InnerSingle(q, k);
      InnerSingle(q', k);
      var y := (n: nat) => Single(k, n);
      CongruentAll(Inner(q', y, KK), Inner(p, EverySecond(y), KK), Inner(p, EverySecond(y), KK));
      CongruentAll(Inner(q, y, KK), Inner(p, EverySecond(y), KK), Inner(q', y, KK));
      SameWord(q[k], q'[k]);
    }
  }

  /** Every cell moves up by one, the last one to the front, and cell 37 is lessened by that one. */
  ghost predicate Shifted(p: State, q: State) {
    && q[0] == p[KK - 1]
    && IsDifference(q[LL], p[LL - 1], p[KK - 1])
    && forall k | 0 < k < KK && k != LL :: q[k] == p[k - 1]
  }

  lemma OneShifted(p: State, q: State, q': State)
    requires Shifted(p, q) && Shifted(p, q')
    ensures q == q'
  {
    OnlyDifference(q[LL], q'[LL], p[LL - 1], p[KK - 1]);
  }

  ghost predicate IsPass(p: State, q: State, odd: bool) {
    if odd then exists r :: SquareOf(p, r) && Shifted(r, q) else SquareOf(p, q)
  }

  lemma OnePass(p: State, q: State, q': State, odd: bool)
    requires IsPass(p, q, odd) && IsPass(p, q', odd)
    ensures q == q'
  {
    if odd {
      var r :| SquareOf(p, r) && Shifted(r, q);
      var r' :| SquareOf(p, r') && Shifted(r', q');
      OneSquare(p, r, r');
      OneShifted(r, q, q');
    } else {
      OneSquare(p, q, q');
    }
  }

  // ---------------------------------------------------------------- all passes and the state

  predicate Digit(n: nat, i: nat) {
    n / Pow2(i) % 2 == 1
  }

  /** The buffer after every pass: one for each binary digit, from the lowest on. */
  ghost predicate ArePasses(trace: seq<State>, digits: nat) {
    forall i: nat | i + 1 < |trace| :: IsPass(trace[i], trace[i + 1], Digit(digits, i))
  }

  lemma {:induction false} OneTrace(trace: seq<State>, trace': seq<State>, digits: nat, i: nat)
    requires i < |trace| == |trace'| && trace[0] == trace'[0]
    requires ArePasses(trace, digits) && ArePasses(trace', digits)
    ensures trace[i] == trace'[i]
  {
    if i > 0 {
      OneTrace(trace, trace', digits, i - 1);
      assert IsPass(trace[i - 1], trace[i - 1 + 1], Digit(digits, i - 1));
      assert IsPass(trace'[i - 1], trace'[i - 1 + 1], Digit(digits, i - 1));
      OnePass(trace[i - 1], trace[i], trace'[i], Digit(digits, i - 1));
    }
  }

  function BitLength(s: nat): nat {
    if s == 0 then 0 else 1 + BitLength(s / 2)
  }

  /** The passes that prepare the buffer: the digits of the seed, and then 69 zeros. */
  ghost predicate IsPreparation(seed: int, trace: seq<State>, cells: State) {
    var digits := seed % 0x4000_0000;
    && |trace| == BitLength(digits) + 70
    && IsBoot(seed, trace[0]) && ArePasses(trace, digits) && cells == trace[|trace| - 1]
  }

  /** The first numbers of the sequence are the cells from 37 on and then those before; 1990 numbers are dropped. */
  ghost predicate IsRun(cells: State, run: seq<int>, s: State) {
    && |run| == 1990 + KK && AllFollow(run)
    && (forall k | 0 <= k < KK :: run[k] == cells[(k + LL) % KK])
    && s == run[1990..]
  }

  ghost predicate IsSeeded(seed: int, s: State) {
    exists trace, cells, run :: IsPreparation(seed, trace, cells) && IsRun(cells, run, s)
  }

  lemma OneRun(cells: State, run: seq<int>, run': seq<int>, s: State, s': State)
    requires IsRun(cells, run, s) && IsRun(cells, run', s')
    ensures s == s'
  {
    assert run[..KK] == run'[..KK];
    forall k | 0 <= k < |run| ensures run[k] == run'[k] {
      OnlyContinuation(run, run', k);
    }
  }

  /** There is only one state that a seed can lead to. */
  lemma OneSeeded(seed: int, s: State, s': State)
    requires IsSeeded(seed, s) && IsSeeded(seed, s')
    ensures s == s'
  {
    var trace, cells, run :| IsPreparation(seed, trace, cells) && IsRun(cells, run, s);
    var trace', cells', run' :| IsPreparation(seed, trace', cells') && IsRun(cells', run', s');
    OneBoot(seed, trace[0], trace'[0]);
    OneTrace(trace, trace', seed % 0x4000_0000, |trace| - 1);
    OneRun(cells, run, run', s, s');
  }
}
