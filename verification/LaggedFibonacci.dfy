/**
 The subtractive lagged-Fibonacci generator: the recurrence X_j = X_(j-100) - X_(j-37) mod 2^30,
 and the block and stream forms in which the program runs it.
 */
module LaggedFibonacci {
  import opened Gf2Ring

  const MM := 0x4000_0000  // the modulus, 2^30

  type State = s: seq<int> | |s| == KK witness seq(KK, _ => 0)

  /** Subtraction modulo MM. In two's complement, masking with MM-1 is the nonnegative remainder. */
  function ModDiff(x: int, y: int): (r: int)
    ensures 0 <= r < MM
  {
    (x - y) % MM
  }

  /** d is x - y modulo 2^30, in the range of the generator. */
  predicate IsDifference(d: int, x: int, y: int) {
    0 <= d < 0x4000_0000 && (d + y - x) % 0x4000_0000 == 0
  }

  lemma ModDiffIs(x: int, y: int)
    ensures IsDifference(ModDiff(x, y), x, y)
  {
    var q := (x - y) / MM;
    assert ModDiff(x, y) + y - x == MM * -q;
  }

  lemma OnlyDifference(d: int, e: int, x: int, y: int)
    requires IsDifference(d, x, y) && IsDifference(e, x, y)
    ensures d == e
  {
    var p, q := (d + y - x) / MM, (e + y - x) / MM;
    assert d - e == MM * (p - q);
  }

  predicate Odd(v: int) {
    v % 2 == 1
  }

  /** On low bits, subtraction modulo MM is addition in the two-element field. */
  lemma ModDiffOdd(x: int, y: int)
    ensures Odd(ModDiff(x, y)) == (Odd(x) != Odd(y))
  {
    var q := (x - y) / MM;
    assert x - y == MM * q + ModDiff(x, y);
  }

  // ---------------------------------------------------------------- the recurrence

  /** The k-th number of the sequence that starts with the 100 numbers s. */
  function X(s: State, k: nat): int {
    if k < KK then s[k] else ModDiff(X(s, k - KK), X(s, k - LL))
  }

  /** On the numbers themselves: X_k + X_(k-37) = X_(k-100) modulo 2^30. */
  lemma NumbersFollow(s: State, k: nat)
    requires k >= KK
    ensures 0 <= X(s, k) < 0x4000_0000
    ensures (X(s, k) + X(s, k - LL) - X(s, k - KK)) % 0x4000_0000 == 0
  {
    ModDiffIs(X(s, k - KK), X(s, k - LL));
  }

  /** The first 100 numbers are the state, the others such differences. */
  lemma NumberIs(s: State, n: nat)
    ensures if n < KK then X(s, n) == s[n] else IsDifference(X(s, n), X(s, n - KK), X(s, n - LL))
  {
    if n >= KK {
      ModDiffIs(X(s, n - KK), X(s, n - LL));
    }
  }

  /** Every number of a run of them is the difference of the ones 100 and 37 places before it. */
  ghost predicate AllFollow(r: seq<int>) {
    forall k | KK <= k < |r| :: IsDifference(r[k], r[k - KK], r[k - LL])
  }

  lemma OutputsFollow(s: State, start: nat, n: nat)
    ensures AllFollow(Outputs(s, start, n))
  {
    var r := Outputs(s, start, n);
    forall k | KK <= k < n ensures IsDifference(r[k], r[k - KK], r[k - LL]) {
      ModDiffIs(X(s, start + k - KK), X(s, start + k - LL));
      assert r[k] == X(s, start + k) && r[k - KK] == X(s, start + k - KK) && r[k - LL] == X(s, start + k - LL);
    }
  }

  /** There is only one such continuation of 100 numbers. */
  lemma {:induction false} OnlyContinuation(r: seq<int>, q: seq<int>, k: nat)
    requires KK <= |r| == |q| && k < |r|
    requires r[..KK] == q[..KK] && AllFollow(r) && AllFollow(q)
    ensures r[k] == q[k]
  {
    if k < KK {
      assert r[k] == r[..KK][k] && q[k] == q[..KK][k];
    } else {
      OnlyContinuation(r, q, k - KK);
      OnlyContinuation(r, q, k - LL);
      OnlyDifference(r[k], q[k], r[k - KK], r[k - LL]);
    }
  }

  lemma BlockStarts(s: State, n: nat)
    requires n >= KK
    ensures Outputs(s, 0, n)[..KK] == s
  {
    assert forall k | 0 <= k < KK :: Outputs(s, 0, n)[k] == X(s, k);
  }

  lemma BlockAndState(s: State, n: nat)
    ensures Outputs(s, 0, n) + StateAt(s, n) == Outputs(s, 0, n + KK)
  {
    forall k | 0 <= k < n + KK ensures (Outputs(s, 0, n) + StateAt(s, n))[k] == Outputs(s, 0, n + KK)[k] {
      assert Outputs(s, 0, n + KK)[k] == X(s, k);
    }
  }

  /** Numbers from, ..., from+n-1 of the sequence. */
  function Outputs(s: State, from: nat, n: nat): (r: seq<int>)
    ensures |r| == n
  {
    seq(n, k requires 0 <= k < n => X(s, from + k))
  }

  /** The 100 numbers that come after k numbers have been taken. */
  function StateAt(s: State, k: nat): State {
    Outputs(s, k, KK)
  }

  lemma StateAtZero(s: State)
    ensures StateAt(s, 0) == s
  {
    assert forall i | 0 <= i < KK :: StateAt(s, 0)[i] == X(s, i);
  }

  /** A sequence restarted from a later state is the tail of the original one. */
  lemma {:induction false} Restart(s: State, n: nat, k: nat)
    ensures X(StateAt(s, n), k) == X(s, n + k)
  {
    if k >= KK {
      Restart(s, n, k - KK);
      Restart(s, n, k - LL);
    }
  }

  lemma RestartState(s: State, n: nat, k: nat)
    ensures StateAt(StateAt(s, n), k) == StateAt(s, n + k)
  {
    forall i | 0 <= i < KK ensures StateAt(StateAt(s, n), k)[i] == StateAt(s, n + k)[i] {
      Restart(s, n, k + i);
    }
  }

  lemma OutputAt(s: State, start: nat, n: nat, k: nat)
    requires k < n
    ensures Outputs(s, start, n)[k] == X(s, start + k)
  {
  }

  lemma OutputsGrow(s: State, start: nat, n: nat)
    ensures Outputs(s, start, n) + [X(s, start + n)] == Outputs(s, start, n + 1)
  {
  }

  lemma OutputsRestart(s: State, n: nat, m: nat)
    ensures Outputs(StateAt(s, n), 0, m) == Outputs(s, n, m)
  {
    forall k | 0 <= k < m ensures Outputs(StateAt(s, n), 0, m)[k] == Outputs(s, n, m)[k] {
      Restart(s, n, k);
    }
  }

  /** Blocks of n and then m numbers are one block of n + m, and leave the same state. */
  lemma BlocksCompose(s: State, n: nat, m: nat)
    ensures Outputs(s, 0, n) + Outputs(StateAt(s, n), 0, m) == Outputs(s, 0, n + m)
    ensures StateAt(StateAt(s, n), m) == StateAt(s, n + m)
  {
    forall k | 0 <= k < m ensures Outputs(StateAt(s, n), 0, m)[k] == Outputs(s, 0, n + m)[n + k] {
      Restart(s, n, k);
    }
    RestartState(s, n, m);
  }

  /** The recurrence as seen inside a block of n numbers. */
  lemma BlockEquation(s: State, n: nat, k: nat)
    requires k < n
    ensures Outputs(s, 0, n)[k] ==
            if k < KK then s[k] else ModDiff(Outputs(s, 0, n)[k - KK], Outputs(s, 0, n)[k - LL])
  {
    var out := Outputs(s, 0, n);
    assert out[k] == X(s, k);
    if k >= KK {
      assert out[k - KK] == X(s, k - KK);
      assert out[k - LL] == X(s, k - LL);
    }
  }

  /** The recurrence as seen across the end of a block of n numbers. */
  lemma RefreshEquation(s: State, n: nat, i: nat)
    requires KK <= n && i < KK
    ensures StateAt(s, n)[i] ==
            ModDiff(Outputs(s, 0, n)[n + i - KK],
                    if i < LL then Outputs(s, 0, n)[n + i - LL] else StateAt(s, n)[i - LL])
  {
    assert X(s, n + i) == ModDiff(X(s, n + i - KK), X(s, n + i - LL));
  }

  // ---------------------------------------------------------------- the generator object

  class Generator {
    const ranX: array<int>           // the generator state
    const randomBuffer: array<int>   // numbers generated but not yet handed out
    var cursor: nat

    ghost predicate Valid()
      reads this
    {
      ranX.Length == KK && randomBuffer.Length == KK && ranX != randomBuffer
    }

    /** The next number to hand out is number n of the sequence that starts with s. */
    ghost predicate Serves(s: State, n: nat)
      requires Valid()
      reads this, ranX, randomBuffer
    {
      if cursor >= KK then ranX[..] == StateAt(s, n)
      else
        && cursor <= n
        && randomBuffer[..] == Outputs(s, n - cursor, KK)
        && ranX[..] == StateAt(s, n - cursor + KK)
    }

    constructor ()
      ensures Valid() && fresh(ranX) && fresh(randomBuffer)
      ensures Serves(seq(KK, _ => 0), 0)
    {
      ranX := new int[KK](_ => 0);
      randomBuffer := new int[KK](_ => 0);
      cursor := KK;
      new;
      StateAtZero(seq(KK, _ => 0));
    }

    /** Puts the next n numbers into aa and moves the state on by n. */
    method RanArray(aa: array<int>, n: nat)
      requires Valid() && aa != ranX
      requires KK <= n <= aa.Length
      modifies aa, ranX
      ensures aa[..n] == Outputs(old(ranX[..]), 0, n)
      ensures aa[n..] == old(aa[n..])
      ensures ranX[..] == StateAt(old(ranX[..]), n)
      // the old state, the rest of the block and the new state are one run of the recurrence
      ensures aa[..KK] == old(ranX[..]) && AllFollow(aa[..n] + ranX[..])
    {
      ghost var s: State := ranX[..];
      FillBlock(aa, n);
      RefreshState(ranX[..], aa, n);
      BlockAndState(s, n);
      OutputsFollow(s, 0, n + KK);
      BlockStarts(s, n);
      assert aa[..KK] == aa[..n][..KK];
    }

    method FillBlock(aa: array<int>, n: nat)
      requires Valid() && aa != ranX
      requires KK <= n <= aa.Length
      modifies aa
      ensures aa[..n] == Outputs(ranX[..], 0, n)
      ensures aa[n..] == old(aa[n..])
    {
      ghost var out := Outputs(ranX[..], 0, n);
      var j := 0;
      while j < KK
        invariant 0 <= j <= KK
        invariant forall k | 0 <= k < j :: aa[k] == out[k]
        invariant forall k | n <= k < aa.Length :: aa[k] == old(aa[k])
      {
        BlockEquation(ranX[..], n, j);
        aa[j] := ranX[j];
        j := j + 1;
      }
      while j < n
        invariant KK <= j <= n
        invariant forall k | 0 <= k < j :: aa[k] == out[k]
        invariant forall k | n <= k < aa.Length :: aa[k] == old(aa[k])
      {
        BlockEquation(ranX[..], n, j);
        aa[j] := ModDiff(aa[j - KK], aa[j - LL]);
        j := j + 1;
      }
    }

    method RefreshState(ghost s: State, aa: array<int>, n: nat)
      requires Valid() && aa != ranX
      requires KK <= n <= aa.Length && aa[..n] == Outputs(s, 0, n)
      modifies ranX
      ensures ranX[..] == StateAt(s, n)
    {
      ghost var out, next := Outputs(s, 0, n), StateAt(s, n);
      var i, j := 0, n;
      while i < LL
        invariant 0 <= i <= LL && j == n + i
        invariant forall k | 0 <= k < i :: ranX[k] == next[k]
      {
        RefreshEquation(s, n, i);
        ranX[i] := ModDiff(aa[j - KK], aa[j - LL]);
        i, j := i + 1, j + 1;
      }
      while i < KK
        invariant LL <= i <= KK && j == n + i
        invariant forall k | 0 <= k < i :: ranX[k] == next[k]
      {
        RefreshEquation(s, n, i);
        ranX[i] := ModDiff(aa[j - KK], ranX[i - LL]);
        i, j := i + 1, j + 1;
      }
    }

    /** Hands out the next number, refilling the buffer with a block of 100 when it is used up. */
    method Core2Rand(ghost s: State, ghost n: nat) returns (r: int)
      requires Valid() && Serves(s, n)
      modifies this, ranX, randomBuffer
      ensures Valid() && Serves(s, n + 1)
      ensures r == X(s, n)
      ensures if n < KK then r == s[n] else IsDifference(r, X(s, n - KK), X(s, n - LL))
    {
      if cursor >= KK {
        cursor := 0;
        Refill(s, n);
      }
      r := randomBuffer[cursor];
      OutputAt(s, n - cursor, KK, cursor);
      cursor := cursor + 1;
      NumberIs(s, n);
    }

    method Refill(ghost s: State, ghost n: nat)
      requires Valid() && ranX[..] == StateAt(s, n)
      modifies ranX, randomBuffer
      ensures randomBuffer[..] == Outputs(s, n, KK) && ranX[..] == StateAt(s, n + KK)
    {
      RanArray(randomBuffer, KK);
      assert randomBuffer[..KK] == randomBuffer[..];
      OutputsRestart(s, n, KK);
      RestartState(s, n, KK);
    }

    /** Hands out the next n numbers one by one. */
    method Draw(ghost s: State, ghost start: nat, n: nat) returns (r: seq<int>)
      requires Valid() && Serves(s, start)
      modifies this, ranX, randomBuffer
      ensures Valid() && Serves(s, start + n)
      ensures r == Outputs(s, start, n)
      ensures AllFollow(r) && forall k: nat | k < n && start + k < KK :: r[k] == s[start + k]
    {
      r := [];
      while |r| < n
        invariant Valid() && |r| <= n && Serves(s, start + |r|)
        invariant r == Outputs(s, start, |r|)
      {
        var x := Core2Rand(s, start + |r|);
        OutputsGrow(s, start, |r|);
        r := r + [x];
      }
      OutputsFollow(s, start, n);
      forall k: nat | k < n && start + k < KK ensures r[k] == s[start + k] {
        OutputAt(s, start, n, k);
      }
    }
  }
}
