/**
 How far apart the streams of different seeds are. The low bits of all streams are one periodic
 sequence, so the distance of two streams is taken around its period.
 */
module Separation {
  import opened Gf2Ring
  import opened LaggedFibonacci
  import opened Seeding
  import opened WholeWords
  import opened PowersOfZ
  import PeriodCertificates

  // ---------------------------------------------------------------- when streams meet

  /** The two sequences have the same low bits from the start on. */
  ghost predicate SameLowBits(s: State, r: State) {
    forall k: nat :: Odd(X(s, k)) == Odd(X(r, k))
  }

  lemma SameLowBitsExactly(s: State, r: State)
    ensures SameLowBits(s, r) <==> Low(Unload(s)) == Low(Unload(r))
  {
    if SameLowBits(s, r) {
      forall i | 0 <= i < KK ensures Low(Unload(s))[i] == Low(Unload(r))[i] {
        var k := if i < LL then i + KK - LL else i - LL;
        assert Odd(X(s, k)) == Odd(X(r, k));
      }
    } else if Low(Unload(s)) == Low(Unload(r)) {
      forall k: nat ensures Odd(X(s, k)) == Odd(X(r, k)) {
        SameParityForever(s, r, k);
      }
    }
  }

  /** After d numbers, the stream of seed a has the low bits of the stream of seed b. */
  ghost predicate Meets(a: int, b: int, d: nat) {
    SameLowBits(StateAt(SeedState(a), d), SeedState(b))
  }

  /** The element of a state is that of the state k numbers later, times z^k. */
  lemma {:induction false} LaterElement(s: State, k: nat)
    ensures MulZPow(Low(Unload(StateAt(s, k))), k) == Low(Unload(s))
  {
    if k == 0 {
      StateAtZero(s);
    } else {
      StepDividesByZ(s, k - 1);
      MulZPowStep(Low(Unload(StateAt(s, k))), k - 1);
      LaterElement(s, k - 1);
    }
  }

  lemma MeetsAtPower(s: State, r: State, m: nat, n: nat, d: nat)
    requires Low(Unload(s)) == ZPow(m) && Low(Unload(r)) == ZPow(n)
    ensures SameLowBits(StateAt(s, d), r) <==> ZPow(m) == ZPow(n + d)
  {
    var p, q := Low(Unload(StateAt(s, d))), Low(Unload(r));
    SameLowBitsExactly(StateAt(s, d), r);
    LaterElement(s, d);
    MulZPowAdd(n, d);
    if MulZPow(p, d) == MulZPow(q, d) {
      MulZPowInjective(p, q, d);
    }
  }

  lemma SeededPower(a: int)
    ensures Exponent(a) > WARM_UP && Low(Unload(SeedState(a))) == ZPow(Exponent(a) - WARM_UP)
  {
    ExponentExceedsWarmUp(a);
    SeededElement(a, 0);
    StateAtZero(SeedState(a));
  }

  function Distance(m: int, n: int): nat {
    if m >= n then m - n else n - m
  }

  lemma SamePowers(m: nat, n: nat)
    ensures ZPow(m) == ZPow(n) <==> ZPow(Distance(m, n)) == One()
  {
    SamePowerExactly(if m >= n then n else m, Distance(m, n));
  }

  lemma SameDistance(m: nat, n: nat, d: nat, w: nat)
    requires w <= m && w <= n
    ensures Distance(m - w, n - w + d) == Distance(m, n + d)
  {
  }

  lemma MeetsBetween(s: State, r: State, x: nat, y: nat, d: nat)
    requires x > WARM_UP && Low(Unload(s)) == ZPow(x - WARM_UP)
    requires y > WARM_UP && Low(Unload(r)) == ZPow(y - WARM_UP)
    ensures SameLowBits(StateAt(s, d), r) <==> ZPow(Distance(x, y + d)) == One()
  {
    MeetsAtPower(s, r, x - WARM_UP, y - WARM_UP, d);
    SamePowers(x - WARM_UP, y - WARM_UP + d);
    SameDistance(x, y, d, WARM_UP);
  }

  lemma MeetsAtOne(a: int, b: int, d: nat)
    ensures Meets(a, b, d) <==> ZPow(Distance(Exponent(a), Exponent(b) + d)) == One()
  {
    SeededPower(a);
    SeededPower(b);
    MeetsBetween(SeedState(a), SeedState(b), Exponent(a), Exponent(b), d);
  }

  // ---------------------------------------------------------------- the separation

  lemma {:induction false} Pow2Add(m: nat, n: nat)
    ensures Pow2(m + n) == Pow2(m) * Pow2(n)
  {
    if m > 0 {
      Pow2Add(m - 1, n);
      assert Pow2(m) * Pow2(n) == 2 * (Pow2(m - 1) * Pow2(n));
    }
  }

  function Thousands(k: nat): nat {
    if k == 0 then 1 else 1024 * Thousands(k - 1)
  }

  lemma {:induction false} Pow2Thousands(m: nat, k: nat)
    requires m == 10 * k
    ensures Pow2(m) == Thousands(k)
  {
    if k > 0 {
      Pow2Thousands(m - 10, k - 1);
      Pow2Add(10, m - 10);
      assert Pow2(10) == 1024;
    }
  }

  lemma FiveThousands(k: nat)
    requires k == 5
    ensures Thousands(k) == 1125899906842624
  {
  }

  lemma PeriodIsPower(n: nat)
    requires n == Pow2(KK) - 1
    ensures PeriodCertificates.IsPeriod(n)
  {
    Pow2Thousands(50, 5);
    FiveThousands(5);
    Pow2Add(50, 50);
  }

  /**
   The low bits of the stream of seed a, after d numbers, are those of the stream of seed b from its
   start on, exactly if the exponents of a and of b plus d are equal modulo 2^100 - 1.
   */
  lemma MeetsExactly(a: int, b: int, d: nat, n: nat)
    requires n == Pow2(KK) - 1
    ensures n > 0 && (Meets(a, b, d) <==> Distance(Exponent(a), Exponent(b) + d) % n == 0)
  {
    PeriodIsPower(n);
    MeetsAtOne(a, b, d);
    OneExactly(n, Distance(Exponent(a), Exponent(b) + d));
  }

  lemma {:induction false} BitLengthBound(s: nat, n: nat)
    requires s < Pow2(n)
    ensures BitLength(s) <= n
  {
    if s > 0 {
      BitLengthBound(s / 2, n - 1);
    }
  }

  lemma ModulusIsPower()
    ensures Pow2(30) == MM
  {
    assert Pow2(10) == 1024;
    Pow2Add(10, 10);
    Pow2Add(20, 10);
  }

  lemma AppendReversedRange(s: nat, n: nat)
    requires s < Pow2(n)
    ensures 1 <= AppendReversed(1, s) < Pow2(n + 1)
  {
    BitLengthBound(s, n);
    AppendReversedBounds(1, s);
    if BitLength(s) < n {
      Pow2Increasing(BitLength(s), n);
    }
  }

  lemma MultipleRange(p: nat, m: nat, q: nat)
    requires 1 <= m < q
    ensures p <= p * m <= p * q - p
  {
    assert p * m <= p * (q - 1) == p * q - p;
  }

  lemma ExponentRange(a: int)
    ensures Pow2(TT - 1) <= Exponent(a) <= Pow2(KK) - Pow2(TT - 1)
  {
    ModulusIsPower();
    AppendReversedRange(a % MM, 30);
    Pow2Add(TT - 1, 31);
    MultipleRange(Pow2(TT - 1), AppendReversed(1, a % MM), Pow2(31));
  }

  /** Between the exponents of two seeds, around the period as well, there are at least 2^70 - 1 places. */
  lemma ExponentsFarApartAround(a: int, b: int, d: nat)
    requires a % MM != b % MM && d < Pow2(TT) - 1
    ensures 0 < Distance(Exponent(a), Exponent(b) + d) < Pow2(KK) - 1
  {
    ExponentsFarApart(a, b);
    ExponentRange(a);
    ExponentRange(b);
    assert Pow2(TT) == 2 * Pow2(TT - 1);
  }

  /**
   The separation between streams: the low bits of streams whose seeds differ modulo 2^30 do not
   meet within 2^70 - 1 numbers.
   */
  lemma StreamsSeparated(a: int, b: int, d: nat)
    requires a % MM != b % MM && d < Pow2(TT) - 1
    ensures !Meets(a, b, d)
  {
    var n := Pow2(KK) - 1;
    ExponentsFarApartAround(a, b, d);
    MeetsExactly(a, b, d, n);
    BetweenMultiples(Distance(Exponent(a), Exponent(b) + d), n);
  }

  lemma BetweenMultiples(m: nat, n: nat)
    requires 0 < m <= n
    ensures m % n == 0 <==> m == n
  {
  }

  lemma AppendOne(e: nat, p: nat)
    requires p > 0
    ensures AppendReversed(e, 2 * p - 1) == AppendReversed(2 * e + 1, p - 1)
  {
    assert (2 * p - 1) % 2 == 1 && (2 * p - 1) / 2 == p - 1;
  }

  lemma DoubledProduct(m: nat, p: nat)
    ensures (2 * m) * p == m * (2 * p)
  {
  }

  lemma {:induction false} AppendOnes(e: nat, n: nat, total: nat)
    requires total == (e + 1) * Pow2(n)
    ensures AppendReversed(e, Pow2(n) - 1) == total - 1
    decreases n
  {
    if n > 0 {
      var p := Pow2(n - 1);
      DoubledProduct(e + 1, p);
      AppendOne(e, p);
      AppendOnes(2 * e + 1, n - 1, total);
    }
  }

  lemma LeastExponent(a: int)
    requires a % MM == 0
    ensures Exponent(a) == Pow2(TT - 1)
  {
  }

  lemma GreatestExponent(b: int)
    requires b % MM == MM - 1
    ensures Exponent(b) == Pow2(KK) - Pow2(TT - 1)
  {
    ModulusIsPower();
    AppendOnes(1, 30, 2 * Pow2(30));
    Pow2Add(TT - 1, 31);
    LessOne(Pow2(TT - 1), Pow2(31));
  }

  lemma LessOne(p: nat, q: nat)
    ensures p * (q - 1) == p * q - p
  {
  }

  /** The distance of their exponents is a whole period less 2^70 - 1. */
  lemma FarthestExponents(a: int, b: int, d: nat, n: nat)
    requires a % MM == 0 && b % MM == MM - 1 && d == Pow2(TT) - 1 && n == Pow2(KK) - 1
    ensures Distance(Exponent(a), Exponent(b) + d) == n > 0
  {
    LeastExponent(a);
    GreatestExponent(b);
    assert Pow2(TT) == 2 * Pow2(TT - 1);
  }

  /** No greater separation holds: the streams of seeds 0 and 2^30 - 1 meet after 2^70 - 1 numbers. */
  lemma SeparationAttained(a: int, b: int, d: nat)
    requires a % MM == 0 && b % MM == MM - 1 && d == Pow2(TT) - 1
    ensures Meets(a, b, d)
  {
    var n := Pow2(KK) - 1;
    FarthestExponents(a, b, d, n);
    MeetsExactly(a, b, d, n);
    BetweenMultiples(n, n);
  }
}
