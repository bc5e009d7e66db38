/** The prime factors of the period of the random numbers, and what divides their product. */
module Primes {

  ghost predicate Product(d: nat, e: nat, p: nat) {
    d * e == p
  }

  ghost predicate IsPrime(p: nat) {
    p > 1 && forall d: nat, e: nat | Product(d, e, p) :: d == 1 || e == 1
  }

  function ProductOf(ps: seq<nat>): nat {
    if ps == [] then 1 else ps[0] * ProductOf(ps[1..])
  }

  /** If p divides r * b, for a positive r below p, it divides b. */
  lemma {:induction false} DividesOther(p: nat, r: nat, b: nat, c: nat) returns (q: nat)
    requires IsPrime(p) && 0 < r < p && r * b == p * c
    ensures b == p * q
    decreases r
  {
    if r == 1 {
      q := c;
    } else {
      var t, s := NotDivided(p, r);
      Remainder(p, r, b, c, t, s);
      NotNegative(p, b - t * c, s * b);
      q := DividesOther(p, s, b, b - t * c);
    }
  }

  lemma NotDivided(p: nat, r: nat) returns (t: nat, s: nat)
    requires IsPrime(p) && 1 < r < p
    ensures p == t * r + s && 0 < s < r
  {
    t, s := p / r, p % r;
    if s == 0 {
      assert Product(t, r, p);
    }
  }

  lemma Remainder(p: nat, r: nat, b: nat, c: nat, t: nat, s: nat)
    requires p == t * r + s && r * b == p * c
    ensures s * b == p * (b - t * c)
  {
    assert (p - t * r) * b == p * b - t * (r * b);
    assert t * (p * c) == p * (t * c);
  }

  lemma NotNegative(p: nat, x: int, n: nat)
    requires p > 0 && p * x == n
    ensures x >= 0
  {
  }

  /** A prime that divides a product divides one of its factors. */
  lemma DividesOne(p: nat, a: nat, b: nat, c: nat) returns (first: bool, q: nat)
    requires IsPrime(p) && a * b == p * c
    ensures if first then a == p * q else b == p * q
  {
    var t, r := a / p, a % p;
    first := r == 0;
    if first {
      q := t;
    } else {
      RestOf(p, a, b, c, t, r);
      NotNegative(p, c - t * b, r * b);
      q := DividesOther(p, r, b, c - t * b);
    }
  }

  lemma RestOf(p: nat, a: nat, b: nat, c: nat, t: nat, r: nat)
    requires a == p * t + r && a * b == p * c
    ensures r * b == p * (c - t * b)
  {
    assert (a - p * t) * b == a * b - p * (t * b);
  }

  /** A divisor of a product of primes other than one is a multiple of one of them. */
  lemma {:induction false} CommonPrime(ps: seq<nat>, k: nat, n: nat) returns (i: nat, j: nat)
    requires (forall p | p in ps :: IsPrime(p)) && k > 1 && k * n == ProductOf(ps)
    ensures i < |ps| && k == ps[i] * j
  {
    if ps == [] {
      OnlyOne(k, n);
    } else {
      var p, rest := ps[0], ProductOf(ps[1..]);
      assert p in ps;
      var first, q := DividesOne(p, k, n, rest);
      if first {
        i, j := 0, q;
      } else {
        Cancel(p, k * q, rest, k, n, q);
        i, j := CommonPrime(ps[1..], k, q);
        i := i + 1;
      }
    }
  }

  lemma OnlyOne(k: nat, n: nat)
    ensures k * n == 1 ==> k == 1
  {
    if k > 1 && n > 0 {
      assert k * n >= k;
    }
  }

  lemma Cancel(p: nat, x: nat, y: nat, k: nat, n: nat, q: nat)
    requires p > 0 && n == p * q && x == k * q && k * n == p * y
    ensures x == y
  {
    assert p * x == p * y;
  }

  // ---------------------------------------------------------------- the primes

  /** The prime factors of 2^100 - 1. */
  function Factors(): seq<nat> {
    [3, 5, 5, 5, 11, 31, 41, 101, 251, 601, 1801, 4051, 8101, 268501]
  }

  lemma PrimeIf(p: nat)
    requires p > 1 && forall d: nat, e: nat | 2 <= d <= e :: !Product(d, e, p)
    ensures IsPrime(p)
  {
    forall d: nat, e: nat | Product(d, e, p) ensures d == 1 || e == 1 {
      assert Product(e, d, p);
      NoZero(d, e);
    }
  }

  lemma NoZero(d: nat, e: nat)
    ensures d * e > 0 ==> d > 0 && e > 0
  {
  }

  lemma Larger(d: nat, e: nat)
    requires 519 <= d <= e
    ensures d * e >= 519 * 519
  {
  }

  lemma NoneBelow(d: nat, e: nat)
    requires 2 <= d < 519
    ensures d * e != 268501
  {
  }

  lemma GreatestIsPrime()
    ensures IsPrime(268501)
  {
    forall d: nat, e: nat | 2 <= d <= e ensures !Product(d, e, 268501) {
      if d < 519 {
        NoneBelow(d, e);
      } else {
        Larger(d, e);
      }
    }
    PrimeIf(268501);
  }

  lemma NotComposite(p: nat, d: nat, e: nat)
    requires p in {3, 5, 11, 31, 41, 101, 251}
    requires 2 <= d <= e
    ensures d * e != p
  {
  }

  lemma NotComposite601(d: nat, e: nat)
    requires 2 <= d <= e
    ensures d * e != 601
  {
  }

  lemma NotComposite1801(d: nat, e: nat)
    requires 2 <= d <= e
    ensures d * e != 1801
  {
  }

  lemma NotComposite4051(d: nat, e: nat)
    requires 2 <= d <= e
    ensures d * e != 4051
  {
  }

  lemma NotComposite8101(d: nat, e: nat)
    requires 2 <= d <= e
    ensures d * e != 8101
  {
  }

  lemma FactorsArePrime(p: nat)
    requires p in Factors()
    ensures IsPrime(p)
  {
    if p == 268501 {
      GreatestIsPrime();
    } else {
      forall d: nat, e: nat | 2 <= d <= e ensures !Product(d, e, p) {
        if p <= 251 {
          NotComposite(p, d, e);
        }
        NotComposite601(d, e);
        NotComposite1801(d, e);
        NotComposite4051(d, e);
        NotComposite8101(d, e);
      }
      PrimeIf(p);
    }
  }

  lemma OneMore(p: nat, ps: seq<nat>, m: nat) returns (more: seq<nat>)
    requires ProductOf(ps) == m
    ensures more == [p] + ps && ProductOf(more) == p * m
  {
    more := [p] + ps;
    assert more[1..] == ps;
  }

  lemma ProductOfGreater() returns (ps: seq<nat>)
    ensures ps == Factors()[7..] && 2 * ProductOf(ps) == 483570789014893317691802
  {
    ps := [];
    ps := OneMore(268501, ps, 1);
    ps := OneMore(8101, ps, 268501);
    ps := OneMore(4051, ps, 2175126601);
    ps := OneMore(1801, ps, 8811437860651);
    ps := OneMore(601, ps, 15869399587032451);
    ps := OneMore(251, ps, 9537509151806503051);
    ps := OneMore(101, ps, 2393914797103432265801);
    assert ps == Factors()[7..];
  }

  /** Twice the product, so that the product itself is not a literal of the proofs that use it. */
  lemma ProductOfFactors()
    ensures 2 * ProductOf(Factors()) + 2 == 0x20000000000000000000000000
  {
    var ps := ProductOfGreater();
    ps := OneMore(41, ps, 241785394507446658845901);
    ps := OneMore(31, ps, 9913201174805313012681941);
    ps := OneMore(11, ps, 307309236418964703393140171);
    ps := OneMore(5, ps, 3380401600608611737324541881);
    ps := OneMore(5, ps, 16902008003043058686622709405);
    ps := OneMore(5, ps, 84510040015215293433113547025);
    ps := OneMore(3, ps, 422550200076076467165567735125);
    assert ps == Factors();
  }
}
