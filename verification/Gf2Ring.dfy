/**
 Polynomials over the two-element field modulo z^100 + z^37 + 1, the ring in which Knuth's
 seeding routine computes.  A ring element is its 100 coefficients, lowest power first.

 Equality of ring elements is proved by testing against bit sequences y that satisfy
 y(n+100) = y(n+37) + y(n):  reducing a polynomial does not change its inner product with
 such a y, and the first 100 bits of y can be chosen freely.
 */
module Gf2Ring {

  const KK := 100  // the long lag
  const LL := 37   // the short lag

  type Element = p: seq<bool> | |p| == KK witness seq(KK, _ => false)

  // ---------------------------------------------------------------- ring operations

  function Zero(): Element {
    seq(KK, _ => false)
  }

  function Add(p: Element, q: Element): Element {
    seq(KK, i requires 0 <= i < KK => p[i] != q[i])
  }

  /** Replaces the term z^j by z^(j-63) + z^(j-100), which is equal to it in the ring. */
  function ReduceAt(q: seq<bool>, j: nat): (r: seq<bool>)
    requires KK <= j < |q|
    ensures |r| == |q|
  {
    var r := q[j - (KK - LL) := q[j - (KK - LL)] != q[j]];
    r[j - KK := r[j - KK] != r[j]]
  }

  /** Eliminates the terms z^(n-1), ..., z^100, from the top down. */
  function Reduce(q: seq<bool>, n: nat): (r: seq<bool>)
    requires KK <= n <= |q|
    ensures |r| == |q|
    decreases n
  {
    if n == KK then q else Reduce(ReduceAt(q, n - 1), n - 1)
  }

  /** Multiplication by z: move every coefficient up by one, then reduce z^100. */
  function MulZ(p: Element): Element {
    Reduce([false] + p, KK + 1)[..KK]
  }

  function MulZPow(p: Element, k: nat): Element {
    if k == 0 then p else MulZ(MulZPow(p, k - 1))
  }

  /** The sum of z^i * q over the i < n for which p has the term z^i. */
  function MulUpTo(p: Element, q: Element, n: nat): Element
    requires n <= KK
  {
    if n == 0 then Zero()
    else Add(MulUpTo(p, q, n - 1), if p[n - 1] then MulZPow(q, n - 1) else Zero())
  }

  /** The product of the ring. */
  function Mul(p: Element, q: Element): Element {
    MulUpTo(p, q, KK)
  }

  function One(): Element {
    [true] + seq(KK - 1, _ => false)
  }

  /** The element z^e. */
  function ZPow(e: nat): Element {
    MulZPow(One(), e)
  }

  /** p(z^2) before reduction: coefficient k of p goes to 2k, the odd places are empty. */
  function Spread(p: Element): (q: seq<bool>)
    ensures |q| == 2 * KK - 1
  {
    seq(2 * KK - 1, k requires 0 <= k < 2 * KK - 1 => k % 2 == 0 && p[k / 2])
  }

  /** The way the seeding routine squares: spread, then reduce. */
  function SpreadAndReduce(p: Element): Element {
    Reduce(Spread(p), 2 * KK - 1)[..KK]
  }

  // ---------------------------------------------------------------- test sequences

  predicate RecurrentAt(y: nat -> bool, n: nat) {
    y(n + KK) == (y(n + LL) != y(n))
  }

  ghost predicate Recurrent(y: nat -> bool) {
    forall n: nat :: RecurrentAt(y, n)
  }

  function Shift(y: nat -> bool, k: nat): nat -> bool {
    (n: nat) => y(n + k)
  }

  function Double(y: nat -> bool): nat -> bool {
    (n: nat) => y(2 * n)
  }

  /** The recurrent sequence whose first 100 bits are zero except bit i. */
  function Unit(i: nat, n: nat): bool {
    if n < KK then n == i else Unit(i, n - KK + LL) != Unit(i, n - KK)
  }

  /** The inner product of the first n coefficients of p with y. */
  function Dot(p: seq<bool>, y: nat -> bool, n: nat): bool
    requires n <= |p|
  {
    if n == 0 then false else Dot(p, y, n - 1) != (p[n - 1] && y(n - 1))
  }

  lemma ShiftRecurrent(y: nat -> bool, k: nat)
    requires Recurrent(y)
    ensures Recurrent(Shift(y, k))
  {
    forall n: nat ensures RecurrentAt(Shift(y, k), n) {
      assert RecurrentAt(y, n + k);
    }
  }

  /** Taking every second bit keeps the recurrence: squaring is additive over the field. */
  lemma DoubleRecurrent(y: nat -> bool)
    requires Recurrent(y)
    ensures Recurrent(Double(y))
  {
    forall n: nat ensures RecurrentAt(Double(y), n) {
      assert RecurrentAt(y, 2 * n + KK);
      assert RecurrentAt(y, 2 * n + LL);
      assert RecurrentAt(y, 2 * n);
    }
  }

  lemma UnitRecurrent(i: nat)
    ensures Recurrent((n: nat) => Unit(i, n))
  {
  }

  // ---------------------------------------------------------------- inner products

  lemma {:induction false} DotFrame(p: seq<bool>, q: seq<bool>, y: nat -> bool, w: nat -> bool, n: nat)
    requires n <= |p| && n <= |q|
    requires forall k: nat | k < n :: p[k] == q[k] && y(k) == w(k)
    ensures Dot(p, y, n) == Dot(q, w, n)
  {
    if n > 0 {
      DotFrame(p, q, y, w, n - 1);
    }
  }

  lemma {:induction false} DotZero(p: seq<bool>, y: nat -> bool, n: nat)
    requires n <= |p|
    requires forall k: nat | k < n :: !p[k] || !y(k)
    ensures !Dot(p, y, n)
  {
    if n > 0 {
      DotZero(p, y, n - 1);
    }
  }

  lemma {:induction false} DotUpdate(p: seq<bool>, i: nat, b: bool, y: nat -> bool, n: nat)
    requires i < |p| && n <= |p|
    ensures Dot(p[i := b], y, n) == (Dot(p, y, n) != (i < n && p[i] != b && y(i)))
  {
    if n > 0 {
      DotUpdate(p, i, b, y, n - 1);
    }
  }

  lemma {:induction false} DotAdd(p: Element, q: Element, y: nat -> bool, n: nat)
    requires n <= KK
    ensures Dot(Add(p, q), y, n) == (Dot(p, y, n) != Dot(q, y, n))
  {
    if n > 0 {
      DotAdd(p, q, y, n - 1);
    }
  }

  /** Linearity in the second argument. */
  lemma {:induction false} DotSum(p: seq<bool>, f: nat -> bool, c: bool, g: nat -> bool, n: nat)
    requires n <= |p|
    ensures Dot(p, (k: nat) => f(k) != (c && g(k)), n) == (Dot(p, f, n) != (c && Dot(p, g, n)))
  {
    if n > 0 {
      DotSum(p, f, c, g, n - 1);
    }
  }

  lemma {:induction false} DotShift(p: seq<bool>, y: nat -> bool, n: nat)
    requires n <= |p|
    ensures Dot([false] + p, y, n + 1) == Dot(p, Shift(y, 1), n)
  {
    if n > 0 {
      DotShift(p, y, n - 1);
    } else {
      assert !Dot([false] + p, y, 0);
    }
  }

  lemma {:induction false} DotSpread(p: Element, y: nat -> bool, n: nat)
    requires 1 <= n <= KK
    ensures Dot(Spread(p), y, 2 * n - 1) == Dot(p, Double(y), n)
  {
    if n == 1 {
      assert !Dot(Spread(p), y, 0) && !Dot(p, Double(y), 0);
    } else {
      DotSpread(p, y, n - 1);
      assert Dot(Spread(p), y, 2 * n - 2) == Dot(Spread(p), y, 2 * n - 3);
    }
  }

  lemma DotReduceAt(q: seq<bool>, j: nat, y: nat -> bool)
    requires KK <= j < |q| && Recurrent(y)
    ensures Dot(ReduceAt(q, j), y, j) == Dot(q, y, j + 1)
  {
    var a, b := j - (KK - LL), j - KK;
    var r := q[a := q[a] != q[j]];
    DotUpdate(q, a, q[a] != q[j], y, j);
    DotUpdate(r, b, r[b] != r[j], y, j);
    assert RecurrentAt(y, b);
  }

  lemma {:induction false} DotReduce(q: seq<bool>, n: nat, y: nat -> bool)
    requires KK <= n <= |q| && Recurrent(y)
    ensures Dot(Reduce(q, n)[..KK], y, KK) == Dot(q, y, n)
    decreases n
  {
    if n == KK {
      DotFrame(q[..KK], q, y, y, KK);
    } else {
      DotReduceAt(q, n - 1, y);
      DotReduce(ReduceAt(q, n - 1), n - 1, y);
    }
  }

  /** Ring elements that no recurrent sequence tells apart are equal. */
  lemma DotSeparates(p: Element, q: Element)
    requires forall y | Recurrent(y) :: Dot(p, y, KK) == Dot(q, y, KK)
    ensures p == q
  {
    forall i | 0 <= i < KK ensures p[i] == q[i] {
      var y := (n: nat) => Unit(i, n);
      UnitRecurrent(i);
      assert Dot(p, y, KK) == Dot(q, y, KK);
      DotUnit(p, i);
      DotUnit(q, i);
    }
  }

  lemma DotUnit(p: Element, i: nat)
    requires i < KK
    ensures Dot(p, (n: nat) => Unit(i, n), KK) == p[i]
  {
    var y := (n: nat) => Unit(i, n);
    DotUpdate(p, i, false, y, KK);
    DotZero(p[i := false], y, KK);
  }

  // ---------------------------------------------------------------- products

  lemma DotMulZ(p: Element, y: nat -> bool)
    requires Recurrent(y)
    ensures Dot(MulZ(p), y, KK) == Dot(p, Shift(y, 1), KK)
  {
    DotReduce([false] + p, KK + 1, y);
    DotShift(p, y, KK);
  }

  lemma {:induction false} DotMulZPow(p: Element, k: nat, y: nat -> bool)
    requires Recurrent(y)
    ensures Dot(MulZPow(p, k), y, KK) == Dot(p, Shift(y, k), KK)
  {
    if k == 0 {
      DotFrame(p, p, y, Shift(y, 0), KK);
    } else {
      DotMulZ(MulZPow(p, k - 1), y);
      ShiftRecurrent(y, 1);
      DotMulZPow(p, k - 1, Shift(y, 1));
      DotFrame(p, p, Shift(Shift(y, 1), k - 1), Shift(y, k), KK);
    }
  }

  function Row(q: seq<bool>, y: nat -> bool, n: nat): nat -> bool
    requires n <= |q|
  {
    (k: nat) => Dot(q, Shift(y, k), n)
  }

  lemma {:induction false} DotMulUpTo(p: Element, q: Element, y: nat -> bool, n: nat)
    requires n <= KK && Recurrent(y)
    ensures Dot(MulUpTo(p, q, n), y, KK) == Dot(p, Row(q, y, KK), n)
  {
    if n == 0 {
      DotZero(Zero(), y, KK);
    } else {
      var term := if p[n - 1] then MulZPow(q, n - 1) else Zero();
      DotMulUpTo(p, q, y, n - 1);
      DotAdd(MulUpTo(p, q, n - 1), term, y, KK);
      DotMulZPow(q, n - 1, y);
      DotZero(Zero(), y, KK);
    }
  }

  lemma DotZPow(e: nat, y: nat -> bool)
    requires Recurrent(y)
    ensures Dot(ZPow(e), y, KK) == y(e)
  {
    DotMulZPow(One(), e, y);
    var w := Shift(y, e);
    DotUpdate(One(), 0, false, w, KK);
    DotZero(One()[0 := false], w, KK);
  }

  /** Powers of z multiply by adding exponents. */
  lemma MulOfPowers(a: nat, b: nat)
    ensures Mul(ZPow(a), ZPow(b)) == ZPow(a + b)
  {
    var p, q := ZPow(a), ZPow(b);
    forall y | Recurrent(y) ensures Dot(Mul(p, q), y, KK) == Dot(ZPow(a + b), y, KK) {
      DotMulUpTo(p, q, y, KK);
      forall k: nat ensures Row(q, y, KK)(k) == Shift(y, b)(k) {
        ShiftRecurrent(y, k);
        DotZPow(b, Shift(y, k));
      }
      DotFrame(p, p, Row(q, y, KK), Shift(y, b), KK);
      ShiftRecurrent(y, b);
      DotZPow(a, Shift(y, b));
      DotZPow(a + b, y);
    }
    DotSeparates(Mul(p, q), ZPow(a + b));
  }

  /** Squaring doubles an exponent, and multiplying by z adds one to it. */
  lemma SquareOfPower(e: nat, timesZ: bool)
    ensures var q := Mul(ZPow(e), ZPow(e));
            (if timesZ then MulZ(q) else q) == ZPow(2 * e + if timesZ then 1 else 0)
  {
    MulOfPowers(e, e);
    assert ZPow(2 * e + 1) == MulZ(ZPow(2 * e));
  }

  /** In the double sum of p_i p_j y(i+j) the terms (i,j) and (j,i) cancel. */
  lemma {:induction false} DotSquare(p: seq<bool>, y: nat -> bool, n: nat)
    requires n <= |p|
    ensures Dot(p, Row(p, y, n), n) == Dot(p, Double(y), n)
  {
    if n > 0 {
      var m := n - 1;
      DotSquare(p, y, m);
      var last := Shift(y, m);
      DotFrame(p, p, Row(p, y, n), (k: nat) => Row(p, y, m)(k) != (p[m] && last(k)), m);
      DotSum(p, Row(p, y, m), p[m], last, m);
      assert Row(p, y, n)(m) == (Dot(p, last, m) != (p[m] && last(m)));
    }
  }

  /** Spreading and reducing computes the ring square of any element. */
  lemma SpreadAndReduceIsSquare(p: Element)
    ensures SpreadAndReduce(p) == Mul(p, p)
  {
    forall y | Recurrent(y) ensures Dot(SpreadAndReduce(p), y, KK) == Dot(Mul(p, p), y, KK) {
      DotReduce(Spread(p), 2 * KK - 1, y);
      DotSpread(p, y, KK);
      DotMulUpTo(p, p, y, KK);
      DotSquare(p, y, KK);
    }
    DotSeparates(SpreadAndReduce(p), Mul(p, p));
  }

  lemma MulZValue(p: Element)
    ensures MulZ(p)[0] == p[KK - 1]
    ensures MulZ(p)[LL] == (p[LL - 1] != p[KK - 1])
    ensures forall k | 0 < k < KK && k != LL :: MulZ(p)[k] == p[k - 1]
  {
    var q := [false] + p;
    assert Reduce(q, KK + 1) == Reduce(ReduceAt(q, KK), KK) == ReduceAt(q, KK);
  }

  /** z can be cancelled. */
  lemma MulZInjective(p: Element, q: Element)
    requires MulZ(p) == MulZ(q)
    ensures p == q
  {
    MulZValue(p);
    MulZValue(q);
    forall i | 0 <= i < KK ensures p[i] == q[i] {
      if i < KK - 1 && i + 1 != LL {
        assert MulZ(p)[i + 1] == MulZ(q)[i + 1];
      }
    }
  }
}
