/** The powers of z: they return to one after 2^100 - 1 steps, and not before. */
module PowersOfZ {
  import opened Gf2Ring
  import opened Primes
  import opened PeriodCertificates
  import WordPolynomials

  lemma {:induction false} MulZPowStep(p: Element, k: nat)
    ensures MulZPow(p, k + 1) == MulZPow(MulZ(p), k)
  {
    if k > 0 {
      MulZPowStep(p, k - 1);
    }
  }

  lemma {:induction false} MulZPowInjective(p: Element, q: Element, k: nat)
    requires MulZPow(p, k) == MulZPow(q, k)
    ensures p == q
  {
    if k > 0 {
      MulZInjective(MulZPow(p, k - 1), MulZPow(q, k - 1));
      MulZPowInjective(p, q, k - 1);
    }
  }

  lemma {:induction false} MulZPowAdd(e: nat, k: nat)
    ensures MulZPow(ZPow(e), k) == ZPow(e + k)
  {
    if k > 0 {
      MulZPowAdd(e, k - 1);
    }
  }

  /** z^(e+k) is z^e exactly if z^k is one. */
  lemma SamePowerExactly(e: nat, k: nat)
    ensures ZPow(e + k) == ZPow(e) <==> ZPow(k) == One()
  {
    MulZPowAdd(k, e);
    MulZPowAdd(0, e);
    assert ZPow(0) == One();
    if ZPow(e + k) == ZPow(e) {
      MulZPowInjective(ZPow(k), ZPow(0), e);
    }
  }

  // ---------------------------------------------------------------- the least period

  lemma {:induction false} WholePeriods(n: nat, q: nat, r: nat)
    requires ZPow(n) == One()
    ensures ZPow(q * n + r) == ZPow(r)
    decreases q
  {
    if q > 0 {
      WholePeriods(n, q - 1, r);
      assert q * n + r == ((q - 1) * n + r) + n;
      SamePowerExactly((q - 1) * n + r, n);
    }
  }

  ghost predicate NoneBefore(n: nat) {
    forall k | 0 < k < n :: ZPow(k) != One()
  }

  lemma RemainderIsOne(n: nat, m: nat, q: nat, r: nat)
    requires m == q * n + r && r < n && ZPow(n) == One() && NoneBefore(n)
    ensures ZPow(m) == One() <==> r == 0
  {
    WholePeriods(n, q, r);
    assert ZPow(0) == One();
  }

  lemma Division(m: nat, n: nat) returns (q: nat, r: nat)
    requires n > 0
    ensures m == q * n + r && r < n && r == m % n
  {
    q, r := m / n, m % n;
  }

  lemma {:induction false} LeastPeriod(m: nat) returns (n: nat)
    requires m > 0 && ZPow(m) == One()
    ensures 0 < n <= m && ZPow(n) == One() && NoneBefore(n)
  {
    if k :| 0 < k < m && ZPow(k) == One() {
      n := LeastPeriod(k);
    } else {
      n := m;
    }
  }

  // ---------------------------------------------------------------- from words to ring elements

  lemma PeriodIsOne(n: nat)
    requires IsPeriod(n)
    ensures ZPow(n) == One()
  {
    var e := PowerFor1();
    WordPolynomials.PowerIsZPow(e);
    WordPolynomials.OneIsOne();
  }

  lemma LowBits(x: WordPolynomials.Wide)
    requires !WordPolynomials.BitAt(x, 1) && !WordPolynomials.BitAt(x, 2) && !WordPolynomials.BitAt(x, 3)
    requires !WordPolynomials.BitAt(x, 4) && !WordPolynomials.BitAt(x, 5)
    requires !WordPolynomials.BitAt(x, 6) && !WordPolynomials.BitAt(x, 7)
    ensures x & 254 == 0
  {
  }

  lemma NotOne(e: nat)
    requires WordPolynomials.Power(e) & 254 != 0
    ensures ZPow(e) != One()
  {
    WordPolynomials.PowerIsZPow(e);
    var x := WordPolynomials.Power(e);
    if ZPow(e) == One() {
      var p := WordPolynomials.Coefficients(x);
      assert !p[1] && !p[2] && !p[3] && !p[4] && !p[5] && !p[6] && !p[7];
      LowBits(x);
    }
  }

  lemma NotOneFor(p: nat, n: nat) returns (e: nat)
    requires p in Factors() && IsPeriod(n)
    ensures p * e == n && ZPow(e) != One()
  {
    match p {
      case 3 => e := PowerFor3();
      case 5 => e := PowerFor5();
      case 11 => e := PowerFor11();
      case 31 => e := PowerFor31();
      case 41 => e := PowerFor41();
      case 101 => e := PowerFor101();
      case 251 => e := PowerFor251();
      case 601 => e := PowerFor601();
      case 1801 => e := PowerFor1801();
      case 4051 => e := PowerFor4051();
      case 8101 => e := PowerFor8101();
      case _ => e := PowerFor268501();
    }
    NotOne(e);
  }

  // ---------------------------------------------------------------- the period

  lemma SharedFactor(n: nat, k: nat, g: nat) returns (p: nat, j: nat)
    requires IsPeriod(n) && n == k * g && k > 1
    ensures p in Factors() && k == p * j
  {
    ProductOfFactors();
    forall p | p in Factors() ensures IsPrime(p) {
      FactorsArePrime(p);
    }
    var i;
    i, j := CommonPrime(Factors(), k, g);
    p := Factors()[i];
  }

  /** k has a prime factor p, and a period that divides n / k would divide n / p. */
  lemma NoProperDivisor(n: nat, k: nat, g: nat)
    requires IsPeriod(n) && n == k * g && k > 1
    ensures ZPow(g) != One()
  {
    var p, j := SharedFactor(n, k, g);
    var e := NotOneFor(p, n);
    Cancelled(p, e, j, g, n);
    if ZPow(g) == One() {
      WholePeriods(g, j, 0);
    }
  }

  lemma Cancelled(p: nat, e: nat, j: nat, g: nat, n: nat)
    requires p > 0 && p * e == n && n == (p * j) * g
    ensures e == j * g
  {
    assert p * e == p * (j * g);
  }

  lemma ZIsPrimitive(n: nat)
    requires IsPeriod(n)
    ensures ZPow(n) == One() && NoneBefore(n)
  {
    PeriodIsOne(n);
    var g := LeastPeriod(n);
    var k, r := Division(n, g);
    RemainderIsOne(g, n, k, r);
    if g < n {
      NoProperDivisor(n, k, g);
    }
  }

  /** A power of z is one exactly if its exponent is a multiple of 2^100 - 1. */
  lemma OneExactly(n: nat, m: nat)
    requires IsPeriod(n)
    ensures ZPow(m) == One() <==> m % n == 0
  {
    ZIsPrimitive(n);
    var q, r := Division(m, n);
    RemainderIsOne(n, m, q, r);
  }
}
