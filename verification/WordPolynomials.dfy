/**
 Ring elements as machine words: bit i is the coefficient of z^i. Squaring and multiplication by z
 are a few operations on words, so that a high power of z can be computed in a proof.

 0xfff...f with 25 digits is the mask of the 100 coefficients, 0x10000000000000000000000000 is 2^100,
 and 0x10000000000000002000000001 is the modulus.
 */
module WordPolynomials {
  import opened Gf2Ring

  type Wide = bv208

  // ---------------------------------------------------------------- operations

  /** Moves bit i to bit 2i, halving the stretches that are moved as one. */
  function Spread(x: Wide): (s: Wide)
    ensures s >> 207 == 0
  {
    var a := (x | (x << 64)) & 0xffffffffffffffff0000000000000000ffffffffffffffff;
    var b := (a | (a << 32)) & 0xffff00000000ffffffff00000000ffffffff00000000ffffffff;
    var c := (b | (b << 16)) & 0xffff0000ffff0000ffff0000ffff0000ffff0000ffff0000ffff;
    var d := (c | (c << 8)) & 0xff00ff00ff00ff00ff00ff00ff00ff00ff00ff00ff00ff00ff;
    var e := (d | (d << 4)) & 0xf0f0f0f0f0f0f0f0f0f0f0f0f0f0f0f0f0f0f0f0f0f0f0f0f0f;
    var f := (e | (e << 2)) & 0x3333333333333333333333333333333333333333333333333333;
    (f | (f << 1)) & 0x5555555555555555555555555555555555555555555555555555
  }

  /** Twice replaces z^100 by z^37 + 1, in all terms at once. */
  function Reduced(g: Wide): Wide {
    var h := (g & 0xfffffffffffffffffffffffff) ^ (g >> 100) ^ ((g >> 100) << 37);
    (h & 0xfffffffffffffffffffffffff) ^ (h >> 100) ^ ((h >> 100) << 37)
  }

  function TimesZ(x: Wide): Wide {
    var g := x << 1;
    (g & 0xfffffffffffffffffffffffff) ^ (g >> 100) ^ ((g >> 100) << 37)
  }

  function Squared(x: Wide): Wide {
    Reduced(Spread(x))
  }

  /** z^e. */
  function Power(e: nat): Wide {
    if e == 0 then 1 else TimesZ(Power(e - 1))
  }

  // ---------------------------------------------------------------- squaring doubles exponents

  lemma SpreadUp(x: Wide)
    requires x < 0x10000000000000000000000000
    ensures Spread(x << 1) == Spread(x) << 2
  {
  }

  lemma SpreadBoundUp(x: Wide)
    requires x < 0x10000000000000000000000000
    ensures (Spread(x) << 1) >> 207 == 0
  {
  }

  // What functions of functions compute is written out here, so that the two sides are compared bit by bit.

  lemma ReducedUpBits(g: Wide)
    requires g >> 207 == 0
    ensures (var u := g << 1;
             var h := (u & 0xfffffffffffffffffffffffff) ^ (u >> 100) ^ ((u >> 100) << 37);
             (h & 0xfffffffffffffffffffffffff) ^ (h >> 100) ^ ((h >> 100) << 37)) ==
            (var h := (g & 0xfffffffffffffffffffffffff) ^ (g >> 100) ^ ((g >> 100) << 37);
             var r := (h & 0xfffffffffffffffffffffffff) ^ (h >> 100) ^ ((h >> 100) << 37);
             var u := r << 1;
             (u & 0xfffffffffffffffffffffffff) ^ (u >> 100) ^ ((u >> 100) << 37))
  {
  }

  lemma ReducedUpValues(g: Wide, p: Wide, q: Wide)
    requires g >> 207 == 0
    requires p == (var u := g << 1;
                   var h := (u & 0xfffffffffffffffffffffffff) ^ (u >> 100) ^ ((u >> 100) << 37);
                   (h & 0xfffffffffffffffffffffffff) ^ (h >> 100) ^ ((h >> 100) << 37))
    requires q == (var h := (g & 0xfffffffffffffffffffffffff) ^ (g >> 100) ^ ((g >> 100) << 37);
                   var r := (h & 0xfffffffffffffffffffffffff) ^ (h >> 100) ^ ((h >> 100) << 37);
                   var u := r << 1;
                   (u & 0xfffffffffffffffffffffffff) ^ (u >> 100) ^ ((u >> 100) << 37))
    ensures p == q
  {
    ReducedUpBits(g);
  }

  lemma ReducedIs(g: Wide)
    ensures Reduced(g << 1) == (var u := g << 1;
                                var h := (u & 0xfffffffffffffffffffffffff) ^ (u >> 100) ^ ((u >> 100) << 37);
                                (h & 0xfffffffffffffffffffffffff) ^ (h >> 100) ^ ((h >> 100) << 37))
    ensures Reduced(g) == (var h := (g & 0xfffffffffffffffffffffffff) ^ (g >> 100) ^ ((g >> 100) << 37);
                           (h & 0xfffffffffffffffffffffffff) ^ (h >> 100) ^ ((h >> 100) << 37))
  {
  }

  lemma TimesZOfReduced(g: Wide)
    ensures TimesZ((var h := (g & 0xfffffffffffffffffffffffff) ^ (g >> 100) ^ ((g >> 100) << 37);
                    (h & 0xfffffffffffffffffffffffff) ^ (h >> 100) ^ ((h >> 100) << 37))) ==
            (var h := (g & 0xfffffffffffffffffffffffff) ^ (g >> 100) ^ ((g >> 100) << 37);
             var r := (h & 0xfffffffffffffffffffffffff) ^ (h >> 100) ^ ((h >> 100) << 37);
             var u := r << 1;
             (u & 0xfffffffffffffffffffffffff) ^ (u >> 100) ^ ((u >> 100) << 37))
  {
  }

  lemma CongruentTimesZ(x: Wide, y: Wide)
    requires x == y
    ensures TimesZ(x) == TimesZ(y)
  {
  }

  lemma ReducedUp(g: Wide)
    requires g >> 207 == 0
    ensures Reduced(g << 1) == TimesZ(Reduced(g))
  {
    ReducedIs(g);
    TimesZOfReduced(g);
    CongruentTimesZ(Reduced(g), (var h := (g & 0xfffffffffffffffffffffffff) ^ (g >> 100) ^ ((g >> 100) << 37);
                                 (h & 0xfffffffffffffffffffffffff) ^ (h >> 100) ^ ((h >> 100) << 37)));
    ReducedUpValues(g, Reduced(g << 1), TimesZ(Reduced(g)));
  }

  lemma TimesZBound(x: Wide)
    requires x < 0x10000000000000000000000000
    ensures TimesZ(x) < 0x10000000000000000000000000
  {
  }

  lemma TimesZIs(x: Wide)
    requires x < 0x10000000000000000000000000
    ensures TimesZ(x) == if x < 0x8000000000000000000000000 then x << 1 else (x << 1) ^ 0x10000000000000002000000001
  {
    TimesZValue(x, TimesZ(x));
  }

  lemma TimesZValue(x: Wide, p: Wide)
    requires x < 0x10000000000000000000000000
    requires p == (var g := x << 1;
                   (g & 0xfffffffffffffffffffffffff) ^ (g >> 100) ^ ((g >> 100) << 37))
    ensures p == if x < 0x8000000000000000000000000 then x << 1 else (x << 1) ^ 0x10000000000000002000000001
  {
  }

  lemma SpreadReduced(x: Wide)
    requires x < 0x10000000000000000000000000
    ensures Spread((x << 1) ^ 0x10000000000000002000000001) ==
            Spread(x << 1) ^ 0x100000000000000000000000000000004000000000000000001
  {
  }

  lemma ReducedValues(s: Wide, p: Wide, q: Wide)
    requires p == (var g := s ^ 0x100000000000000000000000000000004000000000000000001;
                   var h := (g & 0xfffffffffffffffffffffffff) ^ (g >> 100) ^ ((g >> 100) << 37);
                   (h & 0xfffffffffffffffffffffffff) ^ (h >> 100) ^ ((h >> 100) << 37))
    requires q == (var h := (s & 0xfffffffffffffffffffffffff) ^ (s >> 100) ^ ((s >> 100) << 37);
                   (h & 0xfffffffffffffffffffffffff) ^ (h >> 100) ^ ((h >> 100) << 37))
    ensures p == q
  {
  }

  lemma ReducedSame(s: Wide)
    ensures Reduced(s ^ 0x100000000000000000000000000000004000000000000000001) == Reduced(s)
  {
    ReducedValues(s, Reduced(s ^ 0x100000000000000000000000000000004000000000000000001), Reduced(s));
  }

  lemma SquaredReduced(x: Wide)
    requires x < 0x10000000000000000000000000
    ensures Squared((x << 1) ^ 0x10000000000000002000000001) == Squared(x << 1)
  {
    SpreadReduced(x);
    ReducedSame(Spread(x << 1));
  }

  lemma SquaredUp(x: Wide)
    requires x < 0x10000000000000000000000000
    ensures Squared(x << 1) == TimesZ(TimesZ(Squared(x)))
  {
    SpreadUp(x);
    SpreadBoundUp(x);
    var s := Spread(x);
    ReducedUp(s);
    ReducedUp(s << 1);
    assert (s << 1) << 1 == s << 2;
  }

  lemma SquaredTimesZ(x: Wide)
    requires x < 0x10000000000000000000000000
    ensures Squared(TimesZ(x)) == TimesZ(TimesZ(Squared(x)))
  {
    TimesZIs(x);
    SquaredUp(x);
    SquaredReduced(x);
  }

  lemma {:induction false} PowerBound(e: nat)
    ensures Power(e) < 0x10000000000000000000000000
  {
    if e > 0 {
      PowerBound(e - 1);
      TimesZBound(Power(e - 1));
    }
  }

  lemma SquareOfOne()
    ensures Squared(1) == 1
  {
  }

  lemma TwoMore(e: nat)
    ensures Power(e + 2) == TimesZ(TimesZ(Power(e)))
  {
    assert Power(e + 1) == TimesZ(Power(e));
  }

  lemma {:induction false} SquaredPower(e: nat)
    ensures Squared(Power(e)) == Power(2 * e)
  {
    if e == 0 {
      SquareOfOne();
    } else {
      SquaredPower(e - 1);
      SquaredNext(e - 1);
    }
  }

  lemma SquaredNext(e: nat)
    requires Squared(Power(e)) == Power(2 * e)
    ensures Squared(Power(e + 1)) == Power(2 * (e + 1))
  {
    PowerBound(e);
    SquaredTimesZ(Power(e));
    TwoMore(2 * e);
  }

  // ---------------------------------------------------------------- raising to a power

  /** Squares, and multiplies by z if odd. */
  function Pass(x: Wide, odd: bool): Wide {
    var a := (x | (x << 64)) & 0xffffffffffffffff0000000000000000ffffffffffffffff;
    var b := (a | (a << 32)) & 0xffff00000000ffffffff00000000ffffffff00000000ffffffff;
    var c := (b | (b << 16)) & 0xffff0000ffff0000ffff0000ffff0000ffff0000ffff0000ffff;
    var d := (c | (c << 8)) & 0xff00ff00ff00ff00ff00ff00ff00ff00ff00ff00ff00ff00ff;
    var e := (d | (d << 4)) & 0xf0f0f0f0f0f0f0f0f0f0f0f0f0f0f0f0f0f0f0f0f0f0f0f0f0f;
    var f := (e | (e << 2)) & 0x3333333333333333333333333333333333333333333333333333;
    var s := (f | (f << 1)) & 0x5555555555555555555555555555555555555555555555555555;
    var g := if odd then s << 1 else s;
    var h := (g & 0xfffffffffffffffffffffffff) ^ (g >> 100) ^ ((g >> 100) << 37);
    (h & 0xfffffffffffffffffffffffff) ^ (h >> 100) ^ ((h >> 100) << 37)
  }

  /** One pass for each of the lowest n digits. It is written without calls, so that it computes on literals. */
  function Passes(x: Wide, digits: bv16, n: nat): Wide
    decreases n
  {
    if n == 0 then x
    else
      var odd := digits & 1 == 1;
      var a := (x | (x << 64)) & 0xffffffffffffffff0000000000000000ffffffffffffffff;
      var b := (a | (a << 32)) & 0xffff00000000ffffffff00000000ffffffff00000000ffffffff;
      var c := (b | (b << 16)) & 0xffff0000ffff0000ffff0000ffff0000ffff0000ffff0000ffff;
      var d := (c | (c << 8)) & 0xff00ff00ff00ff00ff00ff00ff00ff00ff00ff00ff00ff00ff;
      var e := (d | (d << 4)) & 0xf0f0f0f0f0f0f0f0f0f0f0f0f0f0f0f0f0f0f0f0f0f0f0f0f0f;
      var f := (e | (e << 2)) & 0x3333333333333333333333333333333333333333333333333333;
      var s := (f | (f << 1)) & 0x5555555555555555555555555555555555555555555555555555;
      var g := if odd then s << 1 else s;
      var h := (g & 0xfffffffffffffffffffffffff) ^ (g >> 100) ^ ((g >> 100) << 37);
      Passes((h & 0xfffffffffffffffffffffffff) ^ (h >> 100) ^ ((h >> 100) << 37), digits >> 1, n - 1)
  }

  /** The exponent that e becomes when those digits are appended to it. */
  function Raised(e: nat, digits: bv16, n: nat): nat
    decreases n
  {
    if n == 0 then e else Raised(2 * e + if digits & 1 == 1 then 1 else 0, digits >> 1, n - 1)
  }

  lemma PassesNext(x: Wide, digits: bv16, n: nat)
    requires n > 0
    ensures Passes(x, digits, n) == Passes(Pass(x, digits & 1 == 1), digits >> 1, n - 1)
  {
  }

  lemma PassIs(x: Wide, odd: bool)
    ensures Pass(x, odd) == Reduced((var a := (x | (x << 64)) & 0xffffffffffffffff0000000000000000ffffffffffffffff;
                                     var b := (a | (a << 32)) & 0xffff00000000ffffffff00000000ffffffff00000000ffffffff;
                                     var c := (b | (b << 16)) & 0xffff0000ffff0000ffff0000ffff0000ffff0000ffff0000ffff;
                                     var d := (c | (c << 8)) & 0xff00ff00ff00ff00ff00ff00ff00ff00ff00ff00ff00ff00ff;
                                     var e := (d | (d << 4)) & 0xf0f0f0f0f0f0f0f0f0f0f0f0f0f0f0f0f0f0f0f0f0f0f0f0f0f;
                                     var f := (e | (e << 2)) & 0x3333333333333333333333333333333333333333333333333333;
                                     var s := (f | (f << 1)) & 0x5555555555555555555555555555555555555555555555555555;
                                     if odd then s << 1 else s))
  {
  }

  lemma SpreadOdd(x: Wide, odd: bool)
    ensures (if odd then Spread(x) << 1 else Spread(x)) ==
            (var a := (x | (x << 64)) & 0xffffffffffffffff0000000000000000ffffffffffffffff;
             var b := (a | (a << 32)) & 0xffff00000000ffffffff00000000ffffffff00000000ffffffff;
             var c := (b | (b << 16)) & 0xffff0000ffff0000ffff0000ffff0000ffff0000ffff0000ffff;
             var d := (c | (c << 8)) & 0xff00ff00ff00ff00ff00ff00ff00ff00ff00ff00ff00ff00ff;
             var e := (d | (d << 4)) & 0xf0f0f0f0f0f0f0f0f0f0f0f0f0f0f0f0f0f0f0f0f0f0f0f0f0f;
             var f := (e | (e << 2)) & 0x3333333333333333333333333333333333333333333333333333;
             var s := (f | (f << 1)) & 0x5555555555555555555555555555555555555555555555555555;
             if odd then s << 1 else s)
  {
    assert Spread(x) == (var a := (x | (x << 64)) & 0xffffffffffffffff0000000000000000ffffffffffffffff;
                         var b := (a | (a << 32)) & 0xffff00000000ffffffff00000000ffffffff00000000ffffffff;
                         var c := (b | (b << 16)) & 0xffff0000ffff0000ffff0000ffff0000ffff0000ffff0000ffff;
                         var d := (c | (c << 8)) & 0xff00ff00ff00ff00ff00ff00ff00ff00ff00ff00ff00ff00ff;
                         var e := (d | (d << 4)) & 0xf0f0f0f0f0f0f0f0f0f0f0f0f0f0f0f0f0f0f0f0f0f0f0f0f0f;
                         var f := (e | (e << 2)) & 0x3333333333333333333333333333333333333333333333333333;
                         (f | (f << 1)) & 0x5555555555555555555555555555555555555555555555555555);
  }

  lemma CongruentReduced(x: Wide, y: Wide)
    requires x == y
    ensures Reduced(x) == Reduced(y)
  {
  }

  lemma PassReduces(x: Wide, odd: bool)
    ensures Pass(x, odd) == Reduced(if odd then Spread(x) << 1 else Spread(x))
  {
    PassIs(x, odd);
    SpreadOdd(x, odd);
    CongruentReduced(if odd then Spread(x) << 1 else Spread(x),
                     (var a := (x | (x << 64)) & 0xffffffffffffffff0000000000000000ffffffffffffffff;
                      var b := (a | (a << 32)) & 0xffff00000000ffffffff00000000ffffffff00000000ffffffff;
                      var c := (b | (b << 16)) & 0xffff0000ffff0000ffff0000ffff0000ffff0000ffff0000ffff;
                      var d := (c | (c << 8)) & 0xff00ff00ff00ff00ff00ff00ff00ff00ff00ff00ff00ff00ff;
                      var e := (d | (d << 4)) & 0xf0f0f0f0f0f0f0f0f0f0f0f0f0f0f0f0f0f0f0f0f0f0f0f0f0f;
                      var f := (e | (e << 2)) & 0x3333333333333333333333333333333333333333333333333333;
                      var s := (f | (f << 1)) & 0x5555555555555555555555555555555555555555555555555555;
                      if odd then s << 1 else s));
  }

  lemma PassEven(x: Wide, odd: bool)
    requires !odd
    ensures Pass(x, odd) == Squared(x)
  {
    PassReduces(x, odd);
  }

  lemma PassOdd(x: Wide, odd: bool)
    requires odd && x < 0x10000000000000000000000000
    ensures Pass(x, odd) == TimesZ(Squared(x))
  {
    PassReducesOdd(x, odd);
    ReducedSpreadUp(x);
  }

  lemma PassReducesOdd(x: Wide, odd: bool)
    requires odd
    ensures Pass(x, odd) == Reduced(Spread(x) << 1)
  {
    PassReduces(x, odd);
    CongruentReduced(if odd then Spread(x) << 1 else Spread(x), Spread(x) << 1);
  }

  lemma ReducedSpreadUp(x: Wide)
    ensures Reduced(Spread(x) << 1) == TimesZ(Squared(x))
  {
    ReducedSpread(x);
    SquaredIs(x);
    CongruentTimesZ(Reduced(Spread(x)), Squared(x));
  }

  lemma ReducedSpread(x: Wide)
    ensures Reduced(Spread(x) << 1) == TimesZ(Reduced(Spread(x)))
  {
    ReducedUp(Spread(x));
  }

  lemma SquaredIs(x: Wide)
    ensures Reduced(Spread(x)) == Squared(x)
  {
  }

  lemma PassRaises(e: nat, odd: bool)
    ensures Pass(Power(e), odd) == Power(2 * e + if odd then 1 else 0)
  {
    SquaredPower(e);
    if odd {
      PowerBound(e);
      PassOdd(Power(e), odd);
    } else {
      PassEven(Power(e), odd);
    }
  }

  lemma PassesNextPower(e: nat, digits: bv16, n: nat, next: nat)
    requires n > 0 && next == 2 * e + if digits & 1 == 1 then 1 else 0
    ensures Passes(Power(e), digits, n) == Passes(Power(next), digits >> 1, n - 1)
  {
    PassesNext(Power(e), digits, n);
    PassRaises(e, digits & 1 == 1);
  }

  lemma NoPasses(x: Wide, digits: bv16, n: nat)
    requires n == 0
    ensures Passes(x, digits, n) == x
  {
  }

  lemma PassesThen(e: nat, digits: bv16, n: nat, next: nat, last: nat)
    requires n > 0 && next == 2 * e + if digits & 1 == 1 then 1 else 0
    requires Passes(Power(next), digits >> 1, n - 1) == Power(last)
    ensures Passes(Power(e), digits, n) == Power(last)
  {
    PassesNextPower(e, digits, n, next);
  }

  lemma {:induction false} PassesRaise(e: nat, digits: bv16, n: nat) returns (last: nat)
    ensures last == Raised(e, digits, n)
    ensures Passes(Power(e), digits, n) == Power(last)
    decreases n
  {
    if n == 0 {
      NoPasses(Power(e), digits, n);
      last := e;
    } else {
      var next := 2 * e + if digits & 1 == 1 then 1 else 0;
      last := PassesRaise(next, digits >> 1, n - 1);
      PassesThen(e, digits, n, next, last);
    }
  }

  // ---------------------------------------------------------------- coefficients

  function BitAt(x: Wide, i: nat): bool
    decreases i
  {
    if i == 0 then x & 1 == 1 else BitAt(x >> 1, i - 1)
  }

  function Coefficients(x: Wide): Element {
    seq(KK, i requires 0 <= i < KK => BitAt(x, i))
  }

  lemma BitNext(x: Wide, i: nat)
    requires i > 0
    ensures BitAt(x, i) == BitAt(x >> 1, i - 1)
  {
  }

  /** Exclusive or adds coefficient by coefficient. */
  predicate AddsUp(x: Wide, w: Wide, i: nat) {
    BitAt(x ^ w, i) == (BitAt(x, i) != BitAt(w, i))
  }

  lemma AddsUpFirst(x: Wide, w: Wide)
    ensures AddsUp(x, w, 0)
  {
    assert (x ^ w) & 1 == 1 <==> (x & 1 == 1) != (w & 1 == 1);
  }

  lemma SumNext(x: Wide, w: Wide, i: nat)
    requires i > 0
    ensures BitAt(x ^ w, i) == BitAt((x >> 1) ^ (w >> 1), i - 1)
  {
    assert (x ^ w) >> 1 == (x >> 1) ^ (w >> 1);
  }

  lemma SumStep(x: Wide, w: Wide, i: nat)
    requires i > 0 && BitAt((x >> 1) ^ (w >> 1), i - 1) == (BitAt(x >> 1, i - 1) != BitAt(w >> 1, i - 1))
    ensures BitAt(x ^ w, i) == (BitAt(x, i) != BitAt(w, i))
  {
    SumNext(x, w, i);
  }

  lemma SumNextIf(x: Wide, w: Wide, i: nat)
    ensures i > 0 && BitAt((x >> 1) ^ (w >> 1), i - 1) == (BitAt(x >> 1, i - 1) != BitAt(w >> 1, i - 1)) ==>
              BitAt(x ^ w, i) == (BitAt(x, i) != BitAt(w, i))
  {
    if i > 0 && BitAt((x >> 1) ^ (w >> 1), i - 1) == (BitAt(x >> 1, i - 1) != BitAt(w >> 1, i - 1)) {
      SumStep(x, w, i);
    }
  }

  lemma AddsUpNext(x: Wide, w: Wide, i: nat)
    ensures i > 0 && AddsUp(x >> 1, w >> 1, i - 1) ==> AddsUp(x, w, i)
  {
    SumNextIf(x, w, i);
  }

  function Half(x: Wide): Wide {
    x >> 1
  }

  /** Induction along the bits of two words. */
  lemma {:induction false} AlongBits<W>(half: W -> W, holds: (W, W, nat) -> bool, x: W, w: W, i: nat)
    requires forall a, b :: holds(a, b, 0)
    requires forall a, b, j: nat :: j > 0 && holds(half(a), half(b), j - 1) ==> holds(a, b, j)
    ensures holds(x, w, i)
    decreases i
  {
    if i > 0 {
      AlongBits(half, holds, half(x), half(w), i - 1);
    }
  }

  lemma BitOfSum(x: Wide, w: Wide, i: nat)
    ensures AddsUp(x, w, i)
  {
    forall a, b ensures AddsUp(a, b, 0) {
      AddsUpFirst(a, b);
    }
    forall a, b, j: nat ensures j > 0 && AddsUp(Half(a), Half(b), j - 1) ==> AddsUp(a, b, j) {
      AddsUpNext(a, b, j);
    }
    AlongBits(Half, AddsUp, x, w, i);
  }

  lemma BitUp(x: Wide, i: nat)
    requires x < 0x10000000000000000000000000
    ensures BitAt(x << 1, i) == (i > 0 && BitAt(x, i - 1))
  {
    assert (x << 1) >> 1 == x && (x << 1) & 1 == 0;
  }

  lemma {:induction false} BitOfOne(i: nat)
    ensures BitAt(1, i) <==> i == 0
    ensures !BitAt(0, i)
  {
    if i > 0 {
      BitOfOne(i - 1);
    }
  }

  /** Without the lowest n bits. */
  function Halved(x: Wide, n: nat): Wide
    decreases n
  {
    if n == 0 then x else Halved(x >> 1, n - 1)
  }

  /** The lowest n bits are zero. */
  predicate Even(x: Wide, n: nat)
    decreases n
  {
    n == 0 || (x & 1 == 0 && Even(x >> 1, n - 1))
  }

  lemma {:induction false} BitFurther(x: Wide, n: nat, i: nat)
    requires i >= n
    ensures BitAt(x, i) == BitAt(Halved(x, n), i - n)
    decreases n
  {
    if n > 0 {
      BitNext(x, i);
      BitFurther(x >> 1, n - 1, i - 1);
    }
  }

  lemma {:induction false} BitBelow(x: Wide, n: nat, i: nat)
    requires Even(x, n) && i < n
    ensures !BitAt(x, i)
    decreases n
  {
    if i > 0 {
      BitNext(x, i);
      BitBelow(x >> 1, n - 1, i - 1);
    }
  }

  lemma BitSkip(x: Wide, n: nat, half: Wide, i: nat)
    requires Even(x, n) && half == Halved(x, n)
    ensures BitAt(x, i) == (i >= n && BitAt(half, i - n))
  {
    if i >= n {
      BitFurther(x, n, i);
    } else {
      BitBelow(x, n, i);
    }
  }

  predicate At(x: Wide, i: int) {
    i >= 0 && BitAt(x, i)
  }

  lemma SkipNine(x: Wide, half: Wide, i: int)
    requires half == x >> 9 && x & 511 == 0
    ensures At(x, i) == At(half, i - 9)
  {
    if i >= 0 {
      BitSkip(x, 9, half, i);
    }
  }

  lemma SkipOne(x: Wide, half: Wide, i: int)
    requires half == x >> 1 && x & 1 == 0
    ensures At(x, i) == At(half, i - 1)
  {
  }

  lemma BitOfLow(i: nat)
    ensures BitAt(0x2000000000, i) <==> i == 37
  {
    SkipNine(0x2000000000, 0x10000000, i);
    SkipNine(0x10000000, 0x80000, i - 9);
    SkipNine(0x80000, 0x400, i - 18);
    SkipNine(0x400, 0x2, i - 27);
    SkipOne(0x2, 0x1, i - 36);
    if i >= 37 {
      BitOfOne(i - 37);
    }
    assert At(0x2000000000, i) == At(1, i - 37);
  }

  lemma BitOfHigh(i: nat)
    requires i < KK
    ensures !BitAt(0x10000000000000000000000000, i)
  {
    SkipNine(0x10000000000000000000000000, 0x80000000000000000000000, i);
    SkipNine(0x80000000000000000000000, 0x400000000000000000000, i - 9);
    SkipNine(0x400000000000000000000, 0x2000000000000000000, i - 18);
    SkipNine(0x2000000000000000000, 0x10000000000000000, i - 27);
    SkipNine(0x10000000000000000, 0x80000000000000, i - 36);
    SkipNine(0x80000000000000, 0x400000000000, i - 45);
    SkipNine(0x400000000000, 0x2000000000, i - 54);
    SkipNine(0x2000000000, 0x10000000, i - 63);
    SkipNine(0x10000000, 0x80000, i - 72);
    SkipNine(0x80000, 0x400, i - 81);
    SkipNine(0x400, 0x2, i - 90);
    SkipOne(0x2, 0x1, i - 99);
    assert At(0x10000000000000000000000000, i) == At(1, i - 100);
  }

  lemma BitOfTrinomial(i: nat)
    requires i < KK
    ensures BitAt(0x10000000000000002000000001, i) <==> i == 0 || i == LL
  {
    BitOfHigh(i);
    BitOfLow(i);
    BitOfOne(i);
    BitOfSum(0x2000000000, 1, i);
    BitOfSum(0x10000000000000000000000000, 0x2000000001, i);
  }

  function ByEleven(x: Wide, k: nat): Wide
    decreases k
  {
    if k == 0 then x else ByEleven(x >> 11, k - 1)
  }

  lemma {:induction false} BitByEleven(x: Wide, k: nat)
    ensures BitAt(x, 11 * k) == BitAt(ByEleven(x, k), 0)
    decreases k
  {
    if k > 0 {
      FurtherEleven(x, 11 * k);
      BitByEleven(x >> 11, k - 1);
    }
  }

  lemma FurtherEleven(x: Wide, i: nat)
    requires i >= 11
    ensures BitAt(x, i) == BitAt(x >> 11, i - 11)
  {
    BitFurther(x, 11, i);
  }

  /** The shift by 99, in steps. */
  lemma TopIs(x: Wide)
    requires x < 0x10000000000000000000000000
    ensures ByEleven(x, 9) & 1 == 1 <==> x >= 0x8000000000000000000000000
  {
  }

  lemma TopBit(x: Wide, i: nat)
    requires x < 0x10000000000000000000000000 && i == KK - 1
    ensures BitAt(x, i) <==> x >= 0x8000000000000000000000000
  {
    BitByEleven(x, 9);
    TopIs(x);
  }

  // ---------------------------------------------------------------- words and elements

  lemma BitOfFlipped(x: Wide, t: Wide, i: nat, flips: bool)
    requires BitAt(t, i) == flips
    ensures BitAt(x ^ t, i) == (BitAt(x, i) != flips)
  {
    BitOfSum(x, t, i);
  }

  lemma BitOfUpFlipped(x: Wide, i: nat)
    requires x < 0x10000000000000000000000000 && i < KK
    ensures BitAt((x << 1) ^ 0x10000000000000002000000001, i) ==
            ((i > 0 && BitAt(x, i - 1)) != (i == 0 || i == LL))
  {
    BitUp(x, i);
    BitOfTrinomial(i);
    BitOfFlipped(x << 1, 0x10000000000000002000000001, i, i == 0 || i == LL);
  }

  lemma BitOfProduct(x: Wide, i: nat, p: Wide)
    requires x < 0x10000000000000000000000000 && i < KK
    requires p == TimesZ(x)
    ensures BitAt(p, i) == ((i > 0 && BitAt(x, i - 1)) != (x >= 0x8000000000000000000000000 && (i == 0 || i == LL)))
  {
    TimesZIs(x);
    if x < 0x8000000000000000000000000 {
      BitUp(x, i);
    } else {
      BitOfUpFlipped(x, i);
    }
  }

  lemma BitOfTimesZ(x: Wide, i: nat)
    requires x < 0x10000000000000000000000000 && i < KK
    ensures BitAt(TimesZ(x), i) == ((i > 0 && BitAt(x, i - 1)) != (BitAt(x, KK - 1) && (i == 0 || i == LL)))
  {
    BitOfProduct(x, i, TimesZ(x));
    TopBit(x, KK - 1);
  }

  /** Multiplication by z is the one of the ring. */
  lemma TimesZIsMulZ(x: Wide)
    requires x < 0x10000000000000000000000000
    ensures Coefficients(TimesZ(x)) == MulZ(Coefficients(x))
  {
    MulZValue(Coefficients(x));
    forall i | 0 <= i < KK ensures Coefficients(TimesZ(x))[i] == MulZ(Coefficients(x))[i] {
      BitOfTimesZ(x, i);
    }
  }

  lemma OneIsOne()
    ensures Coefficients(1) == One()
  {
    forall i | 0 <= i < KK ensures Coefficients(1)[i] == One()[i] {
      BitOfOne(i);
    }
  }

  lemma {:induction false} PowerIsZPow(e: nat)
    ensures Coefficients(Power(e)) == ZPow(e)
  {
    if e == 0 {
      OneIsOne();
    } else {
      PowerIsZPow(e - 1);
      PowerBound(e - 1);
      TimesZIsMulZ(Power(e - 1));
    }
  }
}
