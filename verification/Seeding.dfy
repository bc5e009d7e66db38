/**
 Seeding of the lagged-Fibonacci generator.  The preparation buffer is a polynomial whose
 coefficients are the parities of its cells; seeding raises z to a power that depends on the
 seed, so that different seeds start the low-bit sequence at far apart places.
 */
module Seeding {
  import opened Gf2Ring
  import opened LaggedFibonacci
  import opened WholeWords

  const TT := 70  // guaranteed separation between streams, as a power of two
  const WARM_UP := 10 * (2 * KK - 1)

  type Buffer = x: seq<int> | |x| == 2 * KK - 1 witness seq(2 * KK - 1, _ => 0)

  /** The ring element held in the first 100 cells. */
  function Low(x: seq<int>): Element
    requires |x| >= KK
  {
    Parities(x)[..KK]
  }

  function Parities(x: seq<int>): (p: seq<bool>)
    ensures |p| == |x|
  {
    seq(|x|, i requires 0 <= i < |x| => Odd(x[i]))
  }

  predicate InRange(x: seq<int>) {
    forall i | 0 <= i < |x| :: 0 <= x[i] < MM
  }

  // ---------------------------------------------------------------- one pass on values

  function SpreadCells(x: Buffer): Buffer {
    seq(2 * KK - 1, k requires 0 <= k < 2 * KK - 1 => if k % 2 == 0 then x[k / 2] else 0)
  }

  lemma SpreadCellsAt(x: Buffer, j: nat)
    requires j < KK
    ensures SpreadCells(x)[2 * j] == x[j]
    ensures j > 0 ==> SpreadCells(x)[2 * j - 1] == 0
  {
  }

  /** One step of the in-place spread extends the finished upper part by two cells. */
  lemma SpreadStep(o: Buffer, x: Buffer, j: nat)
    requires 0 < j < KK
    requires x[..j + 1] == o[..j + 1] && x[2 * j + 1..] == SpreadCells(o)[2 * j + 1..]
    ensures var y := x[2 * j := x[j]][2 * j - 1 := 0];
            y[..j] == o[..j] && y[2 * j - 1..] == SpreadCells(o)[2 * j - 1..]
  {
    var y, s := x[2 * j := x[j]][2 * j - 1 := 0], SpreadCells(o);
    SpreadCellsAt(o, j);
    assert x[j] == x[..j + 1][j] == o[j];
    assert y[..j] == x[..j + 1][..j] == o[..j];
    assert y[2 * j + 1..] == x[2 * j + 1..];
    assert y[2 * j - 1..] == [y[2 * j - 1], y[2 * j]] + y[2 * j + 1..];
    assert s[2 * j - 1..] == [s[2 * j - 1], s[2 * j]] + s[2 * j + 1..];
  }

  function ReduceCellsAt(x: Buffer, j: nat): Buffer
    requires KK <= j < |x|
  {
    var y := x[j - (KK - LL) := ModDiff(x[j - (KK - LL)], x[j])];
    y[j - KK := ModDiff(y[j - KK], y[j])]
  }

  function ReduceCells(x: Buffer, n: nat): Buffer
    requires KK <= n <= |x|
    decreases n
  {
    if n == KK then x else ReduceCells(ReduceCellsAt(x, n - 1), n - 1)
  }

  function ShiftCells(x: Buffer): Buffer {
    var y := [x[KK - 1]] + x[..KK] + x[KK + 1..];
    y[LL := ModDiff(y[LL], y[KK])]
  }

  function Pass(x: Buffer, odd: bool): Buffer {
    var squared := ReduceCells(SpreadCells(x), |x|);
    if odd then ShiftCells(squared) else squared
  }

  // ---------------------------------------------------------------- one pass, in the ring

  lemma ReduceCellsAtParities(x: Buffer, j: nat)
    requires KK <= j < |x|
    ensures Parities(ReduceCellsAt(x, j)) == ReduceAt(Parities(x), j)
  {
    var a, b := j - (KK - LL), j - KK;
    ModDiffOdd(x[a], x[j]);
    ModDiffOdd(x[b], x[j]);
  }

  lemma {:induction false} ReduceCellsParities(x: Buffer, n: nat)
    requires KK <= n <= |x|
    ensures Parities(ReduceCells(x, n)) == Reduce(Parities(x), n)
    decreases n
  {
    if n > KK {
      ReduceCellsAtParities(x, n - 1);
      ReduceCellsParities(ReduceCellsAt(x, n - 1), n - 1);
    }
  }

  lemma {:induction false} ReduceCellsInRange(x: Buffer, n: nat)
    requires KK <= n <= |x| && InRange(x)
    ensures InRange(ReduceCells(x, n))
    decreases n
  {
    if n > KK {
      ReduceCellsInRange(ReduceCellsAt(x, n - 1), n - 1);
    }
  }

  lemma ShiftCellsParities(x: Buffer)
    ensures Low(ShiftCells(x)) == MulZ(Low(x))
    ensures InRange(x) ==> InRange(ShiftCells(x))
  {
    MulZValue(Low(x));
    forall i | 0 <= i < KK ensures Low(ShiftCells(x))[i] == MulZ(Low(x))[i] {
      if i == LL {
        ModDiffOdd(x[LL - 1], x[KK - 1]);
        assert ShiftCells(x)[i] == ModDiff(x[LL - 1], x[KK - 1]);
      } else if i > 0 {
        assert ShiftCells(x)[i] == x[i - 1];
      }
    }
  }

  /** A pass maps the ring element p to p*p, or to z*p*p, and keeps every cell in range. */
  lemma PassSquares(x: Buffer, odd: bool)
    ensures var p := Low(x);
            Low(Pass(x, odd)) == if odd then MulZ(Mul(p, p)) else Mul(p, p)
    ensures InRange(x) ==> InRange(Pass(x, odd))
  {
    var spread := SpreadCells(x);
    assert Parities(spread) == Spread(Low(x));
    ReduceCellsParities(spread, |x|);
    SpreadAndReduceIsSquare(Low(x));
    ShiftCellsParities(ReduceCells(spread, |x|));
    if InRange(x) {
      ReduceCellsInRange(spread, |x|);
    }
  }

  // ---------------------------------------------------------------- all passes

  /** The buffer after the main loop has run on from seed bits ss and counter t. */
  function AllPasses(x: Buffer, ss: nat, t: nat): Buffer
    decreases t, ss
  {
    if t == 0 then x else AllPasses(Pass(x, ss % 2 == 1), ss / 2, if ss != 0 then t else t - 1)
  }

  /** The binary digits of s, lowest first, written behind those of e. */
  function AppendReversed(e: nat, s: nat): nat
    decreases s
  {
    if s == 0 then e else AppendReversed(2 * e + s % 2, s / 2)
  }

  /** The power of z that seeding reaches. */
  function Exponent(seed: int): nat {
    Pow2(TT - 1) * AppendReversed(1, seed % MM)
  }

  lemma PassRaises(x: Buffer, bit: nat, e: nat)
    requires bit < 2 && Low(x) == ZPow(e)
    ensures Low(Pass(x, bit == 1)) == ZPow(2 * e + bit)
  {
    PassSquares(x, bit == 1);
    SquaredPower(Low(x), Low(Pass(x, bit == 1)), bit, e);
  }

  lemma SquaredPower(p: Element, q: Element, bit: nat, e: nat)
    requires bit < 2 && p == ZPow(e)
    requires q == if bit == 1 then MulZ(Mul(p, p)) else Mul(p, p)
    ensures q == ZPow(2 * e + bit)
  {
    SquareOfPower(e, bit == 1);
  }

  /** The exponent after the main loop: every pass doubles it and adds the lowest seed bit. */
  function Raise(e: nat, ss: nat, t: nat): nat
    decreases t, ss
  {
    if t == 0 then e else Raise(2 * e + ss % 2, ss / 2, if ss != 0 then t else t - 1)
  }

  lemma {:induction false} AllPassesRaise(x: Buffer, ss: nat, t: nat, e: nat)
    requires Low(x) == ZPow(e)
    ensures Low(AllPasses(x, ss, t)) == ZPow(Raise(e, ss, t))
    decreases t, ss
  {
    if t > 0 {
      PassRaises(x, ss % 2, e);
      AllPassesRaise(Pass(x, ss % 2 == 1), ss / 2, if ss != 0 then t else t - 1, 2 * e + ss % 2);
    }
  }

  lemma {:induction false} RaiseZeroBits(e: nat, t: nat)
    ensures Raise(e, 0, t) == Pow2(t) * e
    decreases t
  {
    if t > 0 {
      RaiseZeroBits(2 * e, t - 1);
      assert Pow2(t) * e == Pow2(t - 1) * (2 * e);
    }
  }

  /** In closed form: the seed bits are appended lowest first, then t zero bits follow. */
  lemma {:induction false} RaiseClosedForm(e: nat, ss: nat, t: nat)
    requires t > 0
    ensures Raise(e, ss, t) == Pow2(t) * AppendReversed(e, ss)
    decreases ss
  {
    if ss == 0 {
      RaiseZeroBits(e, t);
    } else {
      RaiseClosedForm(2 * e + ss % 2, ss / 2, t);
    }
  }

  lemma {:induction false} AllPassesInRange(x: Buffer, ss: nat, t: nat)
    requires InRange(x)
    ensures InRange(AllPasses(x, ss, t))
    decreases t, ss
  {
    if t > 0 {
      PassSquares(x, ss % 2 == 1);
      AllPassesInRange(Pass(x, ss % 2 == 1), ss / 2, if ss != 0 then t else t - 1);
    }
  }

  // ---------------------------------------------------------------- separation of exponents

  lemma {:induction false} AppendReversedBounds(e: nat, s: nat)
    ensures e * Pow2(BitLength(s)) <= AppendReversed(e, s) < (e + 1) * Pow2(BitLength(s))
    decreases s
  {
    if s > 0 {
      AppendReversedBounds(2 * e + s % 2, s / 2);
      Halves(e, s % 2, Pow2(BitLength(s / 2)));
    }
  }

  lemma Halves(e: nat, bit: nat, p: nat)
    requires bit < 2
    ensures e * (2 * p) <= (2 * e + bit) * p && (2 * e + bit + 1) * p <= (e + 1) * (2 * p)
  {
    assert (2 * e + bit) * p == 2 * (e * p) + bit * p;
    assert 0 <= bit * p <= p;
  }

  lemma {:induction false} Pow2Increasing(m: nat, n: nat)
    requires m < n
    ensures 2 * Pow2(m) <= Pow2(n)
  {
    if m + 1 < n {
      Pow2Increasing(m, n - 1);
    }
  }

  /** The digit strings of different seeds differ, because the seed's top bit is never zero. */
  lemma {:induction false} SameLengthInjective(e: nat, s: nat, e': nat, s': nat)
    requires BitLength(s) == BitLength(s') && AppendReversed(e, s) == AppendReversed(e', s')
    ensures e == e' && s == s'
    decreases s
  {
    if s > 0 {
      SameLengthInjective(2 * e + s % 2, s / 2, 2 * e' + s' % 2, s' / 2);
    }
  }

  lemma AppendReversedInjective(s: nat, s': nat)
    requires AppendReversed(1, s) == AppendReversed(1, s')
    ensures s == s'
  {
    var b, b' := BitLength(s), BitLength(s');
    AppendReversedBounds(1, s);
    AppendReversedBounds(1, s');
    if b < b' {
      Pow2Increasing(b, b');
    } else if b' < b {
      Pow2Increasing(b', b);
    }
    SameLengthInjective(1, s, 1, s');
  }

  lemma {:induction false} AppendReversedOdd(e: nat, s: nat)
    ensures AppendReversed(e, s) % 2 == if s == 0 then e % 2 else 1
    decreases s
  {
    if s > 0 {
      AppendReversedOdd(2 * e + s % 2, s / 2);
    }
  }

  /** Seeds that differ modulo 2^30 reach exponents at least 2^70 apart. */
  lemma ExponentsFarApart(a: int, b: int)
    requires a % MM != b % MM
    ensures Exponent(a) >= Exponent(b) + Pow2(TT) || Exponent(b) >= Exponent(a) + Pow2(TT)
  {
    var m, n := AppendReversed(1, a % MM), AppendReversed(1, b % MM);
    if m == n {
      AppendReversedInjective(a % MM, b % MM);
    }
    AppendReversedOdd(1, a % MM);
    AppendReversedOdd(1, b % MM);
    if m >= n + 2 {
      OddMultiplesApart(TT - 1, m, n);
    } else {
      OddMultiplesApart(TT - 1, n, m);
    }
  }

  lemma OddMultiplesApart(t: nat, m: nat, n: nat)
    requires m >= n + 2
    ensures Pow2(t) * m >= Pow2(t) * n + Pow2(t + 1)
  {
    var p := Pow2(t);
    assert p * m >= p * (n + 2) == p * n + 2 * p;
  }

  // ---------------------------------------------------------------- the seeded state

  /** seed + 2 with all but bits 1..29 cleared. */
  function FirstWord(seed: int): (w: nat)
    ensures w < MM
  {
    var m := (seed + 2) % MM;
    m - m % 2
  }

  /** The bootstrap words: even numbers, each the last one rotated within bits 1..29. */
  function BootWord(seed: int, j: nat): (w: nat)
    ensures w < MM
  {
    if j == 0 then FirstWord(seed)
    else
      var w := 2 * BootWord(seed, j - 1);
      if w >= MM then w - (MM - 2) else w
  }

  lemma {:induction false} BootWordEven(seed: int, j: nat)
    ensures !Odd(BootWord(seed, j))
  {
    if j > 0 {
      BootWordEven(seed, j - 1);
    }
  }

  function BootCells(seed: int, rest: seq<int>): Buffer
    requires |rest| == KK - 1
  {
    seq(KK, j requires 0 <= j < KK => BootWord(seed, j) + if j == 1 then 1 else 0) + rest
  }

  /** The order in which the buffer's first 100 cells become the generator state. */
  function Load(x: seq<int>): State
    requires |x| >= KK
  {
    x[LL..KK] + x[..LL]
  }

  function Unload(s: State): State {
    s[KK - LL..] + s[..KK - LL]
  }

  function Prepared(seed: int, rest: seq<int>): Buffer
    requires |rest| == KK - 1
  {
    AllPasses(BootCells(seed, rest), seed % MM, TT - 1)
  }

  /** The generator state that seeding leaves. */
  function SeedState(seed: int): State {
    StateAt(Load(Prepared(seed, seq(KK - 1, _ => 0))), WARM_UP)
  }

  /** Cells beyond the first 100 never reach the result: the spread overwrites them. */
  lemma UninitialisedCellsIrrelevant(seed: int, rest: seq<int>, rest': seq<int>)
    requires |rest| == |rest'| == KK - 1
    ensures Prepared(seed, rest) == Prepared(seed, rest')
  {
    var x, y := BootCells(seed, rest), BootCells(seed, rest');
    assert forall k | 0 <= k < KK :: x[k] == y[k];
    assert SpreadCells(x) == SpreadCells(y);
  }

  lemma OddSuccessor(v: int)
    ensures Odd(v + 1) == !Odd(v)
  {
  }

  /** Only x[1] is odd: the buffer starts as the element z. */
  lemma BootElement(seed: int, rest: seq<int>)
    requires |rest| == KK - 1
    ensures Low(BootCells(seed, rest)) == ZPow(1)
  {
    var x := BootCells(seed, rest);
    forall i | 0 <= i < KK ensures Low(x)[i] == (i == 1) {
      BootWordEven(seed, i);
      if i == 1 {
        OddSuccessor(BootWord(seed, 1));
      }
    }
    MulZValue(One());
    assert ZPow(1) == MulZ(ZPow(0)) == MulZ(One());
  }

  lemma PreparedElement(seed: int, rest: seq<int>)
    requires |rest| == KK - 1
    ensures Low(Prepared(seed, rest)) == ZPow(Exponent(seed))
  {
    var x := BootCells(seed, rest);
    BootElement(seed, rest);
    AllPassesRaise(x, seed % MM, TT - 1, 1);
    RaiseClosedForm(1, seed % MM, TT - 1);
  }

  // ---------------------------------------------------------------- whole words

  /** One rotation within 29 bits doubles the half of a word modulo 2^29 - 1. */
  lemma BootWordStep(seed: int, j: nat)
    requires j > 0
    ensures var u, v := BootWord(seed, j - 1) / 2, BootWord(seed, j) / 2;
            && (v == 2 * u || v == 2 * u - 0x1FFF_FFFF)
            && BootWord(seed, j) == 2 * v && (v == 0 <==> u == 0)
  {
    BootWordEven(seed, j - 1);
    BootWordEven(seed, j);
    var h := BootWord(seed, j - 1) / 2;
    assert BootWord(seed, j - 1) == 2 * h;
  }

  lemma {:induction false} BootWordIs(seed: int, j: nat)
    ensures IsBootWord(seed, j, BootWord(seed, j))
  {
    if j > 0 {
      var w := (seed + 2) % 0x4000_0000 / 2;
      BootWordIs(seed, j - 1);
      BootWordStep(seed, j);
      NextPower(w, j);
      Rotated(BootWord(seed, j - 1) / 2, w * Pow2(j - 1), BootWord(seed, j) / 2);
    }
  }

  lemma NextPower(w: nat, j: nat)
    requires j > 0
    ensures w * Pow2(j) == 2 * (w * Pow2(j - 1))
  {
  }

  lemma Rotated(u: int, a: int, v: int)
    requires (u - a) % 0x1FFF_FFFF == 0 && (v == 2 * u || v == 2 * u - 0x1FFF_FFFF)
    ensures (v - 2 * a) % 0x1FFF_FFFF == 0
  {
    var q := (u - a) / 0x1FFF_FFFF;
    assert v - 2 * a == 0x1FFF_FFFF * (2 * q) || v - 2 * a == 0x1FFF_FFFF * (2 * q - 1);
  }

  lemma BootCellsAreBoot(seed: int, rest: seq<int>)
    requires |rest| == KK - 1
    ensures IsBoot(seed, BootCells(seed, rest)[..KK])
    ensures BootCells(seed, rest)[0] == 2 * ((seed + 2) % 0x4000_0000 / 2)
  {
    var x := BootCells(seed, rest);
    forall j | 0 <= j < KK ensures IsBootWord(seed, j, if j == 1 then x[..KK][j] - 1 else x[..KK][j]) {
      BootWordIs(seed, j);
    }
  }

  lemma InnerReduceAt(x: Buffer, j: nat, y: nat -> int)
    requires KK <= j < |x| && Negative(y)
    ensures Congruent(Inner(ReduceCellsAt(x, j), y, j), Inner(x, y, j + 1))
  {
    var a, b := j - (KK - LL), j - KK;
    var d, e := ModDiff(x[a], x[j]), ModDiff(x[b], x[j]);
    var r := x[a := d];
    InnerUpdate(x, a, d, y, j);
    InnerUpdate(r, b, e, y, j);
    ModDiffIs(x[a], x[j]);
    ModDiffIs(x[b], x[j]);
    assert NegativeAt(y, b);
    Reduction(x[a], x[b], x[j], d, e, y(a), y(b), y(j), Inner(x, y, j));
  }

  lemma Reduction(xa: int, xb: int, xj: int, d: int, e: int, ya: int, yb: int, yj: int, sum: int)
    requires IsDifference(d, xa, xj) && IsDifference(e, xb, xj) && yj + ya + yb == 0
    ensures Congruent(sum + (d - xa) * ya + (e - xb) * yb, sum + xj * yj)
  {
    var p, q := (d + xj - xa) / MM, (e + xj - xb) / MM;
    assert (d - xa) * ya == (MM * p - xj) * ya == MM * (p * ya) - xj * ya;
    assert (e - xb) * yb == (MM * q - xj) * yb == MM * (q * yb) - xj * yb;
    assert xj * yj == xj * (-ya - yb) == -xj * ya - xj * yb;
    CongruentBy(sum + (d - xa) * ya + (e - xb) * yb, sum + xj * yj, p * ya + q * yb);
  }

  /** On whole words, reduction keeps inner products modulo 2^30. */
  lemma {:induction false} InnerReduce(x: Buffer, n: nat, y: nat -> int)
    requires KK <= n <= |x| && Negative(y)
    ensures Congruent(Inner(ReduceCells(x, n), y, KK), Inner(x, y, n))
    decreases n
  {
    if n > KK {
      InnerReduceAt(x, n - 1, y);
      InnerReduce(ReduceCellsAt(x, n - 1), n - 1, y);
      CongruentAll(Inner(ReduceCells(x, n), y, KK), Inner(ReduceCellsAt(x, n - 1), y, n - 1), Inner(x, y, n));
    }
  }

  lemma {:induction false} InnerSpread(x: Buffer, y: nat -> int, n: nat)
    requires 1 <= n <= KK
    ensures Inner(SpreadCells(x), y, 2 * n - 1) == Inner(x, EverySecond(y), n)
  {
    var s := SpreadCells(x);
    if n == 1 {
      assert Inner(s, y, 0) == 0 && Inner(x, EverySecond(y), 0) == 0;
    } else {
      InnerSpread(x, y, n - 1);
      assert Inner(s, y, 2 * n - 2) == Inner(s, y, 2 * n - 3);
    }
  }

  lemma InnerSquared(x: Buffer, y: nat -> int)
    requires Negative(y)
    ensures Congruent(Inner(ReduceCells(SpreadCells(x), |x|), y, KK), Inner(x, EverySecond(y), KK))
  {
    InnerReduce(SpreadCells(x), |x|, y);
    InnerSpread(x, y, KK);
  }

  lemma InnerLow(x: Buffer, y: nat -> int)
    ensures Inner(x[..KK], y, KK) == Inner(x, y, KK)
  {
    InnerFrame(x[..KK], x, y, y, KK);
  }

  lemma SquaredCells(x: Buffer)
    requires InRange(x)
    ensures SquareOf(x[..KK], ReduceCells(SpreadCells(x), |x|)[..KK])
  {
    var s := SpreadCells(x);
    assert InRange(s);
    ReduceCellsInRange(s, |x|);
    forall y | Negative(y)
      ensures Congruent(Inner(ReduceCells(s, |x|)[..KK], y, KK), Inner(x[..KK], EverySecond(y), KK))
    {
      InnerSquared(x, y);
      InnerLow(ReduceCells(s, |x|), y);
      InnerLow(x, EverySecond(y));
    }
  }

  lemma ShiftedCells(x: Buffer)
    ensures Shifted(x[..KK], ShiftCells(x)[..KK])
  {
    ModDiffIs(x[LL - 1], x[KK - 1]);
    var r := ShiftCells(x);
    assert r[LL] == ModDiff(x[LL - 1], x[KK - 1]);
    assert forall k | 0 < k < KK && k != LL :: r[k] == x[k - 1];
  }

  /** One pass on whole words. */
  lemma PassOnWords(x: Buffer, odd: bool)
    requires InRange(x)
    ensures IsPass(x[..KK], Pass(x, odd)[..KK], odd)
  {
    SquaredCells(x);
    ShiftedCells(ReduceCells(SpreadCells(x), |x|));
  }

  lemma NextDigit(n: nat, i: nat)
    ensures Digit(n, i + 1) == Digit(n / 2, i)
    ensures Digit(n, 0) == (n % 2 == 1)
  {
    var p := Pow2(i);
    assert n / (2 * p) == n / 2 / p by {
      HalfFirst(n, p);
    }
  }

  lemma HalfFirst(n: nat, p: nat)
    requires p > 0
    ensures n / (2 * p) == n / 2 / p
  {
    var q := n / 2 / p;
    var r := n / 2 - q * p;
    assert n == (2 * p) * q + (2 * r + n % 2);
    Quotient(n, 2 * p, q, 2 * r + n % 2);
  }

  lemma Quotient(n: nat, d: nat, q: nat, r: nat)
    requires n == d * q + r && r < d
    ensures n / d == q
  {
    NextMultiple(d, q, n / d);
    NextMultiple(d, n / d, q);
  }

  lemma NextMultiple(d: nat, a: nat, b: nat)
    ensures a < b ==> d * b >= d * a + d
  {
    if a < b {
      MultipleParts(d, a, b - a - 1);
    }
  }

  lemma MultipleParts(d: nat, a: nat, k: nat)
    ensures d * (a + 1 + k) == d * a + d + d * k && d * k >= 0
  {
  }

  lemma ConsPasses(p: State, trace: seq<State>, digits: nat)
    requires trace != [] && ArePasses(trace, digits / 2) && IsPass(p, trace[0], digits % 2 == 1)
    ensures ArePasses([p] + trace, digits)
  {
    var more := [p] + trace;
    forall i: nat | i + 1 < |more| ensures IsPass(more[i], more[i + 1], Digit(digits, i)) {
      NextDigit(digits, if i == 0 then 0 else i - 1);
      if i > 0 {
        assert IsPass(trace[i - 1], trace[i - 1 + 1], Digit(digits / 2, i - 1));
      }
    }
  }

  lemma {:induction false} TraceOfPasses(x: Buffer, ss: nat, t: nat) returns (trace: seq<State>)
    requires InRange(x) && (t > 0 || ss == 0)
    ensures |trace| == BitLength(ss) + t + 1 && trace[0] == x[..KK]
    ensures trace[|trace| - 1] == AllPasses(x, ss, t)[..KK] && ArePasses(trace, ss)
    decreases t, ss
  {
    if t == 0 {
      trace := [x[..KK]];
    } else {
      var odd := ss % 2 == 1;
      PassSquares(x, odd);
      PassOnWords(x, odd);
      var later := TraceOfPasses(Pass(x, odd), ss / 2, if ss != 0 then t else t - 1);
      ConsPasses(x[..KK], later, ss);
      trace := [x[..KK]] + later;
    }
  }

  lemma BootInRange(seed: int, rest: seq<int>)
    requires |rest| == KK - 1 && InRange(rest)
    ensures InRange(BootCells(seed, rest))
  {
    forall j | 0 <= j < KK ensures 0 <= BootCells(seed, rest)[j] < MM {
      BootWordEven(seed, j);
    }
  }

  lemma Preparation(seed: int, rest: seq<int>) returns (trace: seq<State>)
    requires |rest| == KK - 1 && InRange(rest)
    ensures IsPreparation(seed, trace, Prepared(seed, rest)[..KK])
  {
    BootInRange(seed, rest);
    BootCellsAreBoot(seed, rest);
    trace := TraceOfPasses(BootCells(seed, rest), seed % MM, TT - 1);
  }

  lemma LoadedAt(x: Buffer, k: nat)
    requires k < KK
    ensures Load(x)[k] == x[..KK][(k + LL) % KK]
  {
  }

  lemma RunFrom(x: Buffer) returns (run: seq<int>)
    ensures IsRun(x[..KK], run, StateAt(Load(x), WARM_UP))
  {
    var first := Load(x);
    run := Outputs(first, 0, WARM_UP + KK);
    OutputsFollow(first, 0, WARM_UP + KK);
    forall k | 0 <= k < KK ensures run[k] == x[..KK][(k + LL) % KK] {
      LoadedAt(x, k);
    }
  }

  /** The routine leads to the one state that the seed determines. */
  lemma SeedStateIsSeeded(seed: int)
    ensures IsSeeded(seed, SeedState(seed))
  {
    var rest := seq(KK - 1, _ => 0);
    var trace := Preparation(seed, rest);
    var run := RunFrom(Prepared(seed, rest));
  }

  // ---------------------------------------------------------------- streams

  lemma UnloadedBit(s: State, k: nat, i: nat)
    requires i < KK
    ensures Low(Unload(StateAt(s, k)))[i] == Odd(X(s, k + if i < LL then i + KK - LL else i - LL))
  {
  }

  /** Taking one number divides the state's ring element by z. */
  lemma StepDividesByZ(s: State, k: nat)
    ensures MulZ(Low(Unload(StateAt(s, k + 1)))) == Low(Unload(StateAt(s, k)))
  {
    var p, q := Low(Unload(StateAt(s, k))), Low(Unload(StateAt(s, k + 1)));
    MulZValue(q);
    ModDiffOdd(X(s, k), X(s, k + KK - LL));
    UnloadedBit(s, k + 1, KK - 1);
    UnloadedBit(s, k + 1, LL - 1);
    forall i | 0 <= i < KK ensures MulZ(q)[i] == p[i] {
      UnloadedBit(s, k, i);
      if i > 0 {
        UnloadedBit(s, k + 1, i - 1);
      }
    }
  }

  lemma {:induction false} StepsDivideByZPow(s: State, e: nat, k: nat)
    requires k <= e && Low(Unload(s)) == ZPow(e)
    ensures Low(Unload(StateAt(s, k))) == ZPow(e - k)
  {
    if k == 0 {
      StateAtZero(s);
    } else {
      StepsDivideByZPow(s, e, k - 1);
      StepDividesByZ(s, k - 1);
      assert ZPow(e - k + 1) == MulZ(ZPow(e - k));
      MulZInjective(Low(Unload(StateAt(s, k))), ZPow(e - k));
    }
  }

  lemma {:induction false} ExponentExceedsWarmUp(seed: int)
    ensures Exponent(seed) > WARM_UP
  {
    AppendReversedBounds(1, seed % MM);
    assert AppendReversed(1, seed % MM) >= 1;
    assert Pow2(11) == 2048;
    Pow2Increasing(11, TT - 1);
    var m, p := AppendReversed(1, seed % MM), Pow2(TT - 1);
    assert p * m >= p;
  }

  lemma {:induction false} SameParityForever(s: State, r: State, k: nat)
    requires Low(Unload(s)) == Low(Unload(r))
    ensures Odd(X(s, k)) == Odd(X(r, k))
  {
    if k < KK {
      var i := if k < KK - LL then k + LL else k - (KK - LL);
      assert Low(Unload(s))[i] == Odd(s[k]) && Low(Unload(r))[i] == Odd(r[k]);
    } else {
      SameParityForever(s, r, k - KK);
      SameParityForever(s, r, k - LL);
      ModDiffOdd(X(s, k - KK), X(s, k - LL));
      ModDiffOdd(X(r, k - KK), X(r, k - LL));
    }
  }

  /** A state holding a higher power of z reaches the low bits of a lower one after d numbers. */
  lemma PowersMeet(s: State, r: State, e: nat, d: nat, k: nat)
    requires Low(Unload(s)) == ZPow(e + d) && Low(Unload(r)) == ZPow(e)
    ensures Odd(X(s, d + k)) == Odd(X(r, k))
  {
    StepsDivideByZPow(s, e + d, d);
    SameParityForever(StateAt(s, d), r, k);
    Restart(s, d, k);
  }

  /** After seeding and k more numbers, the low bits of the state are z^(E - 1990 - k). */
  lemma SeededElement(seed: int, k: nat)
    requires k + WARM_UP <= Exponent(seed)
    ensures Low(Unload(StateAt(SeedState(seed), k))) == ZPow(Exponent(seed) - WARM_UP - k)
  {
    var x := Prepared(seed, seq(KK - 1, _ => 0));
    PreparedElement(seed, seq(KK - 1, _ => 0));
    assert Unload(Load(x)) == x[..KK];
    assert Low(x[..KK]) == Low(x);
    StepsDivideByZPow(Load(x), Exponent(seed), WARM_UP + k);
    RestartState(Load(x), WARM_UP, k);
  }

  /** The low bits of two streams are one and the same sequence, entered E(a) - E(b) places apart. */
  lemma StreamsShifted(a: int, b: int, k: nat)
    requires Exponent(a) >= Exponent(b)
    ensures Odd(X(SeedState(a), Exponent(a) - Exponent(b) + k)) == Odd(X(SeedState(b), k))
  {
    ExponentExceedsWarmUp(a);
    ExponentExceedsWarmUp(b);
    SeededElement(a, 0);
    SeededElement(b, 0);
    StateAtZero(SeedState(a));
    StateAtZero(SeedState(b));
    PowersMeet(SeedState(a), SeedState(b), Exponent(b) - WARM_UP, Exponent(a) - Exponent(b), k);
  }

  // ---------------------------------------------------------------- the routine itself

  /** "Square": moves cell j to cell 2j in place and clears the odd cells. */
  method SpreadInPlace(x: array<int>)
    requires x.Length == 2 * KK - 1
    modifies x
    ensures x[..] == SpreadCells(old(x[..]))
  {
    ghost var o, spread := x[..], SpreadCells(x[..]);
    var j := KK - 1;
    while j > 0
      invariant 0 <= j <= KK - 1
      invariant x[..][..j + 1] == o[..j + 1]
      invariant x[..][2 * j + 1..] == spread[2 * j + 1..]
    {
      ghost var before := x[..];
      SpreadStep(o, before, j);
      x[j + j] := x[j];
      x[j + j - 1] := 0;
      assert x[..] == before[2 * j := before[j]][2 * j - 1 := 0];
      j := j - 1;
    }
    SpreadCellsAt(o, 0);
    assert x[0] == x[..][..1][0];
    assert x[..] == [x[0]] + x[..][1..];
    assert spread == [spread[0]] + spread[1..];
  }

  method ReduceInPlace(x: array<int>)
    requires x.Length == 2 * KK - 1
    modifies x
    ensures x[..] == ReduceCells(old(x[..]), x.Length)
  {
    var j := 2 * KK - 2;
    while j >= KK
      invariant KK - 1 <= j <= 2 * KK - 2
      invariant ReduceCells(x[..], j + 1) == ReduceCells(old(x[..]), x.Length)
    {
      ghost var before := x[..];
      x[j - (KK - LL)] := ModDiff(x[j - (KK - LL)], x[j]);
      x[j - KK] := ModDiff(x[j - KK], x[j]);
      assert x[..] == ReduceCellsAt(before, j);
      j := j - 1;
    }
  }

  /** "Multiply by z": shifts the first 100 cells cyclically and corrects cell 37. */
  method ShiftInPlace(x: array<int>)
    requires x.Length == 2 * KK - 1
    modifies x
    ensures x[..] == ShiftCells(old(x[..]))
  {
    ghost var o := x[..];
    var j := KK;
    while j > 0
      invariant 0 <= j <= KK
      invariant forall k | 0 <= k <= j && k != KK :: x[k] == o[k]
      invariant forall k | j < k <= KK :: x[k] == o[k - 1]
      invariant forall k | KK < k < x.Length :: x[k] == o[k]
    {
      x[j] := x[j - 1];
      j := j - 1;
    }
    x[0] := x[KK];
    assert x[..] == [o[KK - 1]] + o[..KK] + o[KK + 1..];
    x[LL] := ModDiff(x[LL], x[KK]);
  }

  /** The main loop: bit length of the seed plus 69 passes. */
  method RunPasses(x: array<int>, seed: int) returns (ghost passes: nat)
    requires x.Length == 2 * KK - 1
    modifies x
    ensures x[..] == AllPasses(old(x[..]), seed % MM, TT - 1)
    ensures passes == BitLength(seed % MM) + TT - 1
  {
    var ss, t := seed % MM, TT - 1;
    passes := 0;
    while t != 0
      invariant 0 <= ss && 0 <= t
      invariant AllPasses(x[..], ss, t) == AllPasses(old(x[..]), seed % MM, TT - 1)
      invariant t > 0 || ss == 0
      invariant passes + BitLength(ss) + t == BitLength(seed % MM) + TT - 1
      decreases t, ss
    {
      ghost var before := x[..];
      SpreadInPlace(x);
      ReduceInPlace(x);
      if ss % 2 == 1 {
        ShiftInPlace(x);
      }
      assert x[..] == Pass(before, ss % 2 == 1);
      passes := passes + 1;
      if ss != 0 {
        ss := ss / 2;
      } else {
        t := t - 1;
      }
    }
  }

  method BootstrapBuffer(seed: int) returns (x: array<int>, ghost rest: seq<int>)
    ensures fresh(x) && x.Length == 2 * KK - 1 && |rest| == KK - 1
    ensures x[..] == BootCells(seed, rest)
    ensures IsBoot(seed, x[..KK]) && x[0] == 2 * ((seed + 2) % 0x4000_0000 / 2)
  {
    x := new int[2 * KK - 1];
    var ss := FirstWord(seed);
    var j := 0;
    while j < KK
      invariant 0 <= j <= KK
      invariant ss == BootWord(seed, j)
      invariant forall k | 0 <= k < j :: x[k] == BootWord(seed, k)
    {
      x[j] := ss;
      ss := 2 * ss;
      if ss >= MM {
        ss := ss - (MM - 2);
      }
      j := j + 1;
    }
    x[1] := x[1] + 1;
    rest := x[KK..];
    IsBootCells(x[..], seed, rest);
    BootCellsAreBoot(seed, rest);
    assert x[..KK] == x[..][..KK] && x[0] == x[..][0];
  }

  lemma IsBootCells(x: Buffer, seed: int, rest: seq<int>)
    requires |rest| == KK - 1 && x[KK..] == rest
    requires forall k | 0 <= k < KK :: x[k] == BootWord(seed, k) + if k == 1 then 1 else 0
    ensures x == BootCells(seed, rest)
  {
    var boot := BootCells(seed, rest);
    forall k | 0 <= k < |x| ensures x[k] == boot[k] {
      if k >= KK {
        assert x[k] == x[KK..][k - KK];
      }
    }
  }

  method LoadState(g: Generator, x: array<int>)
    requires g.Valid() && x != g.ranX && x.Length >= KK
    modifies g.ranX
    ensures g.ranX[..] == Load(x[..])
  {
    var j := 0;
    while j < LL
      invariant 0 <= j <= LL
      invariant forall k | KK - LL <= k < KK - LL + j :: g.ranX[k] == x[k - (KK - LL)]
    {
      g.ranX[j + KK - LL] := x[j];
      j := j + 1;
    }
    while j < KK
      invariant LL <= j <= KK
      invariant forall k | KK - LL <= k < KK :: g.ranX[k] == x[k - (KK - LL)]
      invariant forall k | 0 <= k < j - LL :: g.ranX[k] == x[k + LL]
    {
      g.ranX[j - LL] := x[j];
      j := j + 1;
    }
  }

  /** Ten blocks of 199 numbers are generated and thrown away. */
  method WarmUp(g: Generator, x: array<int>)
    requires g.Valid() && x != g.ranX && x.Length == 2 * KK - 1
    modifies g.ranX, x
    ensures g.ranX[..] == StateAt(old(g.ranX[..]), WARM_UP)
  {
    ghost var s: State := g.ranX[..];
    StateAtZero(s);
    ghost var done := 0;
    var j := 0;
    while j < 10
      invariant 0 <= j <= 10 && done == j * (2 * KK - 1)
      invariant g.ranX[..] == StateAt(s, done)
    {
      g.RanArray(x, 2 * KK - 1);
      RestartState(s, done, 2 * KK - 1);
      done := done + (2 * KK - 1);
      j := j + 1;
    }
  }

  /** Seeds the generator. */
  method RanStart(g: Generator, seed: int)
    requires g.Valid()
    modifies g.ranX
    ensures g.ranX[..] == SeedState(seed) && IsSeeded(seed, g.ranX[..])
  {
    SeedStateIsSeeded(seed);
    var x, rest := BootstrapBuffer(seed);
    ghost var passes := RunPasses(x, seed);
    UninitialisedCellsIrrelevant(seed, rest, seq(KK - 1, _ => 0));
    LoadState(g, x);
    WarmUp(g, x);
  }

  /** Reseeds the stream and discards what was buffered. */
  method Seed(g: Generator, seed: int)
    requires g.Valid()
    modifies g, g.ranX
    ensures g.Valid() && g.Serves(SeedState(seed), 0) && IsSeeded(seed, SeedState(seed))
  {
    RanStart(g, seed);
    g.cursor := KK;
    StateAtZero(SeedState(seed));
  }

  /** The k-th number returned after seeding is the k-th number of the recurrence. */
  method SeedAndDraw(g: Generator, seed: int, n: nat) returns (r: seq<int>)
    requires g.Valid()
    modifies g, g.ranX, g.randomBuffer
    ensures g.Valid() && g.Serves(SeedState(seed), n)
    ensures r == Outputs(SeedState(seed), 0, n)
    ensures AllFollow(r) && (n >= KK ==> IsSeeded(seed, r[..KK]))
  {
    Seed(g, seed);
    r := g.Draw(SeedState(seed), 0, n);
    if n >= KK {
      assert r[..KK] == SeedState(seed);
    }
  }
}
