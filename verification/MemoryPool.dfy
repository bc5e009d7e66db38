/**
 The memory manager: six stacks of reusable bins of fixed sizes, and plain allocation for every
 other size.
 */
module MemoryPool {
  import opened Sequences
  import opened Wrappers

  const STACK_COUNT := 6

  const MAX_UINT16 := 0xFFFF

  function StackIndex(size: nat): (index: int)
    ensures -1 <= index < STACK_COUNT
  {
    match size
    case 32 => 0
    case 64 => 1
    case 65 => 2
    case 96 => 3
    case 161 => 4
    case 48 => 5
    case _ => -1
  }

  /** The sizes that are kept for reuse. */
  lemma PooledSizes(size: nat)
    ensures StackIndex(size) >= 0 <==> size in {32, 48, 64, 65, 96, 161}
  {
  }

  /** Sizes share a stack only if they are equal. */
  lemma StackIndexSeparates(m: nat, n: nat)
    requires StackIndex(m) == StackIndex(n) >= 0
    ensures m == n
  {
  }

  /** Remembers its size in 16 bits. */
  class MemoryBin {
    const size: nat
    const capacity: nat

    constructor (size: nat)
      ensures this.size == size % (MAX_UINT16 + 1) && capacity == size
    {
      this.size, capacity := size % (MAX_UINT16 + 1), size;
    }
  }

  class MemoryPageStack {
    const size: nat
    var bins: seq<MemoryBin>

    constructor (size: nat)
      requires size <= MAX_UINT16
      ensures this.size == size && |bins| == 1 && fresh(bins[0])
      ensures bins[0].size == bins[0].capacity == size
    {
      var bin := new MemoryBin(size);
      this.size, bins := size, [bin];
    }

    method GetFreeMemory() returns (memory: MemoryBin?)
      requires size <= MAX_UINT16
      modifies this`bins
      ensures memory == null <==> size == 0
      ensures size == 0 || old(bins) == [] ==> bins == old(bins)
      ensures size != 0 && old(bins) == [] ==> fresh(memory) && memory.size == memory.capacity == size
      ensures size != 0 && old(bins) != [] ==> memory != null && bins + [memory] == old(bins)
    {
      if size == 0 {
        return null;
      }
      if |bins| == 0 {
        memory := new MemoryBin(size);
        return;
      }
      memory := bins[|bins| - 1];
      bins := bins[..|bins| - 1];
    }

    /** Throws when the bin belongs to another stack. */
    method ReleaseMemory(memory: MemoryBin?) returns (thrown: bool)
      modifies this`bins
      ensures thrown <==> memory != null && memory.size != size
      ensures bins == if memory == null || thrown then old(bins) else old(bins) + [memory]
    {
      if memory == null {
        return false;
      }
      if memory.size != size {
        return true;
      }
      bins := bins + [memory];
      return false;
    }
  }

  /** The bins of a stack: of its size, each once, all of them free. */
  ghost predicate Pile(bins: seq<MemoryBin>, size: nat, free: set<MemoryBin>) {
    && Distinct(bins)
    && forall b | b in bins :: b.size == size && b in free
  }

  lemma PileShrinks(bins: seq<MemoryBin>, size: nat, free: set<MemoryBin>, b: MemoryBin)
    requires Pile(bins, size, free) && (bins != [] ==> bins[|bins| - 1] == b)
    ensures Pile(Popped(bins, true), size, free - {b})
  {
  }

  ghost function Popped(bins: seq<MemoryBin>, here: bool): seq<MemoryBin> {
    if here && bins != [] then bins[..|bins| - 1] else bins
  }

  ghost function Pushed(bins: seq<MemoryBin>, b: MemoryBin?, here: bool): seq<MemoryBin> {
    if here && b != null then bins + [b] else bins
  }

  class MemoryManager {
    const stacks: seq<MemoryPageStack>
    ghost var live: set<MemoryBin>  // allocated and not deleted
    ghost var held: set<MemoryBin>  // handed out and not given back

    /** The stacks of the six sizes. */
    ghost predicate Laid()
      reads this, stacks
    {
      && |stacks| == STACK_COUNT
      && (forall i | 0 <= i < |stacks| :: StackIndex(stacks[i].size) == i && stacks[i].size <= MAX_UINT16)
    }

    ghost predicate LiesIn(b: MemoryBin, i: nat)
      reads stacks
    {
      i < |stacks| && b in stacks[i].bins
    }

    ghost predicate Pooled(b: MemoryBin)
      reads stacks
    {
      exists i: nat :: LiesIn(b, i)
    }

    ghost predicate Valid()
      reads this, stacks
    {
      && Laid()
      && held <= live
      && (forall i | 0 <= i < |stacks| :: Pile(stacks[i].bins, stacks[i].size, live - held))
      && (forall b | b in live :: b.capacity == b.size <= MAX_UINT16)
      && (forall b | b in live - held :: Pooled(b))
    }

    constructor ()
      ensures Valid() && held == {} && fresh(stacks)
      ensures forall i | 0 <= i < |stacks| :: |stacks[i].bins| == 1
    {
      var s := NewStacks();
      stacks, held := s, {};
      live := set i | 0 <= i < |s| :: s[i].bins[0];
      new;
      forall b | b in live ensures Pooled(b) {
        var i: nat :| i < |stacks| && b == stacks[i].bins[0];
        assert LiesIn(b, i);
      }
    }

    /** None: the size needs more than 16 bits, and the call throws. */
    method GetFreeMemory(size: nat) returns (memory: Option<MemoryBin>)
      requires Valid()
      modifies this`live, this`held, stacks
      ensures Valid()
      ensures memory.None? <==> size > MAX_UINT16
      ensures memory.Some? ==> memory.value.size == memory.value.capacity == size
      ensures memory.Some? ==> memory.value !in old(held)
      ensures held == old(held) + if memory.Some? then {memory.value} else {}
      ensures live == old(live) + if memory.Some? then {memory.value} else {}
      ensures forall i | 0 <= i < |stacks| :: stacks[i].bins == Popped(old(stacks[i].bins), stacks[i].size == size)
      ensures forall i | 0 <= i < |stacks| && stacks[i].size == size && old(stacks[i].bins) != [] ::
                memory.Some? && memory.value == old(stacks[i].bins)[|old(stacks[i].bins)| - 1]
      ensures memory.Some? && StackIndex(size) < 0 ==> fresh(memory.value)
    {
      if size != size % (MAX_UINT16 + 1) {
        return None;
      }
      var index := StackIndex(size);
      if index < 0 {
        var bin := new MemoryBin(size);
        label before:
        live, held := live + {bin}, held + {bin};
        assert live - held == old@before(live - held);
        return Some(bin);
      }
      StackIndexSeparates(size, stacks[index].size);
      var bin := Take(index);
      return Some(bin);
    }

    method Take(index: nat) returns (bin: MemoryBin)
      requires Valid() && index < |stacks|
      modifies this`live, this`held, stacks[index]
      ensures Valid() && bin.size == bin.capacity == stacks[index].size
      ensures bin !in old(held) && held == old(held) + {bin} && live == old(live) + {bin}
      ensures stacks[index].bins == Popped(old(stacks[index].bins), true)
      ensures old(stacks[index].bins) != [] ==> bin == old(stacks[index].bins)[|old(stacks[index].bins)| - 1]
      ensures forall i | 0 <= i < |stacks| && i != index :: stacks[i].bins == old(stacks[i].bins)
    {
      ghost var pile, free := stacks[index].bins, live - held;
      bin := stacks[index].GetFreeMemory();
      live, held := live + {bin}, held + {bin};
      assert pile != [] ==> bin in pile && pile[..|pile| - 1] + [bin] == pile;
      assert live - held == free - {bin};
      PileShrinks(pile, stacks[index].size, free, bin);
      forall b | b in free && b != bin ensures Pooled(b) {
        var i: nat :| old(LiesIn(b, i));
        assert LiesIn(b, i);
      }
    }

    method Store(index: nat, memory: MemoryBin) returns (thrown: bool)
      requires Laid() && index < |stacks| && memory.size == stacks[index].size
      modifies stacks[index]
      ensures !thrown && stacks[index].bins == old(stacks[index].bins) + [memory] && LiesIn(memory, index)
      ensures forall i | 0 <= i < |stacks| && i != index :: stacks[i].bins == old(stacks[i].bins)
      ensures forall b | b in live && old(Pooled(b)) :: Pooled(b)
    {
      thrown := stacks[index].ReleaseMemory(memory);
      assert memory == stacks[index].bins[|stacks[index].bins| - 1];
      forall b | b in live && old(Pooled(b)) ensures Pooled(b) {
        var i: nat :| old(LiesIn(b, i));
        assert LiesIn(b, i);
      }
    }

    /** The caller gives back a bin that it holds. */
    method ReleaseMemory(memory: MemoryBin?) returns (thrown: bool)
      requires Valid() && (memory != null ==> memory in held)
      modifies this`live, this`held, stacks
      ensures Valid() && !thrown
      ensures held == if memory == null then old(held) else old(held) - {memory}
      ensures live == if memory == null || StackIndex(memory.size) >= 0 then old(live) else old(live) - {memory}
      ensures forall i | 0 <= i < |stacks| ::
                stacks[i].bins == Pushed(old(stacks[i].bins), memory, memory != null && stacks[i].size == memory.size)
    {
      if memory == null {
        return false;
      }
      var index := StackIndex(memory.size);
      held := held - {memory};
      if index < 0 {
        live := live - {memory};
        return false;
      }
      StackIndexSeparates(memory.size, stacks[index].size);
      thrown := Store(index, memory);
    }
  }

  method NewStacks() returns (stacks: seq<MemoryPageStack>)
    ensures |stacks| == STACK_COUNT && fresh(stacks)
    ensures forall i | 0 <= i < |stacks| ::
              && StackIndex(stacks[i].size) == i && |stacks[i].bins| == 1
              && stacks[i].bins[0].size == stacks[i].bins[0].capacity == stacks[i].size <= MAX_UINT16
  {
    var p0 := new MemoryPageStack(32);
    var p1 := new MemoryPageStack(64);
    var p2 := new MemoryPageStack(65);
    var p3 := new MemoryPageStack(96);
    var p4 := new MemoryPageStack(161);
    var p5 := new MemoryPageStack(48);
    stacks := [p0, p1, p2, p3, p4, p5];
  }

  // ---------------------------------------------------------------- any sequence of requests

  /** A client asks for a size, or gives back the k-th of the bins it holds. */
  datatype Request = Get(size: nat) | Release(k: nat)

  /** The sizes of the bins that the client should hold after the requests, oldest first. */
  ghost function Sizes(requests: seq<Request>): seq<nat> {
    if requests == [] then []
    else
      var before := Sizes(requests[..|requests| - 1]);
      match requests[|requests| - 1]
      case Get(size) => if size <= MAX_UINT16 then before + [size] else before
      case Release(k) => if k < |before| then before[..k] + before[k + 1..] else before
  }

  ghost function Count(s: seq<nat>, n: nat): nat {
    if s == [] then 0 else Count(s[..|s| - 1], n) + if s[|s| - 1] == n then 1 else 0
  }

  lemma {:induction false} CountConcat(s: seq<nat>, t: seq<nat>, n: nat)
    ensures Count(s + t, n) == Count(s, n) + Count(t, n)
  {
    if t == [] {
      assert s + t == s;
    } else {
      assert (s + t)[..|s + t| - 1] == s + t[..|t| - 1];
      CountConcat(s, t[..|t| - 1], n);
    }
  }

  lemma CountWithout(s: seq<nat>, k: nat, n: nat)
    requires k < |s|
    ensures Count(s, n) == Count(s[..k] + s[k + 1..], n) + if s[k] == n then 1 else 0
  {
    assert s == s[..k] + ([s[k]] + s[k + 1..]);
    CountConcat(s[..k], [s[k]] + s[k + 1..], n);
    CountConcat([s[k]], s[k + 1..], n);
    CountConcat(s[..k], s[k + 1..], n);
    assert [s[k]][..0] == [] && Count([s[k]], n) == if s[k] == n then 1 else 0;
  }

  ghost function Max(m: nat, n: nat): nat {
    if m < n then n else m
  }

  /** The most bins of a size that the client held at any time. */
  ghost function Peak(requests: seq<Request>, n: nat): nat {
    Max(Count(Sizes(requests), n), if requests == [] then 0 else Peak(requests[..|requests| - 1], n))
  }

  /** What the client holds: these bins, each once, of the right sizes. */
  ghost predicate Holds(held: seq<MemoryBin>, bins: set<MemoryBin>, sizes: seq<nat>) {
    && |held| == |sizes| && Distinct(held)
    && (forall k | 0 <= k < |held| :: held[k].size == held[k].capacity == sizes[k])
    && (forall b | b in bins :: b in held) && (forall b | b in held :: b in bins)
  }

  /** Free bins and bins in use of one size are as many as were ever in use at once, or one. */
  ghost predicate Sized(free: nat, requests: seq<Request>, n: nat) {
    free + Count(Sizes(requests), n) == Max(1, Peak(requests, n))
  }

  lemma SizedGet(free: nat, requests: seq<Request>, size: nat, n: nat)
    requires Sized(free, requests, n)
    ensures Sized(if size == n <= MAX_UINT16 && free > 0 then free - 1 else free, requests + [Get(size)], n)
  {
    var after := requests + [Get(size)];
    assert after[..|after| - 1] == requests;
    CountConcat(Sizes(requests), [size], n);
    assert [size][..0] == [] && Count([size], n) == if size == n then 1 else 0;
  }

  lemma SizedRelease(free: nat, requests: seq<Request>, k: nat, n: nat)
    requires Sized(free, requests, n)
    ensures var sizes := Sizes(requests);
            Sized(if k < |sizes| && sizes[k] == n then free + 1 else free, requests + [Release(k)], n)
  {
    var after := requests + [Release(k)];
    assert after[..|after| - 1] == requests;
    if k < |Sizes(requests)| {
      CountWithout(Sizes(requests), k, n);
    }
  }

  /** A client that gives back only what it holds is never handed a bin that it holds already. */
  method Serve(requests: seq<Request>) returns (m: MemoryManager, held: seq<MemoryBin>)
    ensures m.Valid() && Holds(held, m.held, Sizes(requests))
    ensures forall i | 0 <= i < |m.stacks| :: Sized(|m.stacks[i].bins|, requests, m.stacks[i].size)
  {
    m := new MemoryManager();
    held := [];
    var j := 0;
    while j < |requests|
      invariant 0 <= j <= |requests| && fresh(m) && fresh(m.stacks)
      invariant m.Valid() && Holds(held, m.held, Sizes(requests[..j]))
      invariant forall i | 0 <= i < |m.stacks| :: Sized(|m.stacks[i].bins|, requests[..j], m.stacks[i].size)
    {
      assert requests[..j + 1][..j] == requests[..j] && requests[..j + 1] == requests[..j] + [requests[j]];
      match requests[j] {
        case Get(size) =>
          held := Fetch(m, held, requests[..j], size);
        case Release(k) =>
          held := GiveBack(m, held, requests[..j], k);
      }
      j := j + 1;
    }
    assert requests[..j] == requests;
  }

  method Fetch(m: MemoryManager, bins: seq<MemoryBin>, ghost requests: seq<Request>, size: nat) returns (held: seq<MemoryBin>)
    requires m.Valid() && Holds(bins, m.held, Sizes(requests))
    requires forall i | 0 <= i < |m.stacks| :: Sized(|m.stacks[i].bins|, requests, m.stacks[i].size)
    modifies m`live, m`held, m.stacks
    ensures m.Valid() && Holds(held, m.held, Sizes(requests + [Get(size)]))
    ensures forall i | 0 <= i < |m.stacks| :: Sized(|m.stacks[i].bins|, requests + [Get(size)], m.stacks[i].size)
  {
    assert (requests + [Get(size)])[..|requests|] == requests;
    forall i | 0 <= i < |m.stacks| {
      SizedGet(|m.stacks[i].bins|, requests, size, m.stacks[i].size);
    }
    var memory := m.GetFreeMemory(size);
    held := if memory.None? then bins else bins + [memory.value];
  }

  method GiveBack(m: MemoryManager, bins: seq<MemoryBin>, ghost requests: seq<Request>, k: nat) returns (held: seq<MemoryBin>)
    requires m.Valid() && Holds(bins, m.held, Sizes(requests))
    requires forall i | 0 <= i < |m.stacks| :: Sized(|m.stacks[i].bins|, requests, m.stacks[i].size)
    modifies m`live, m`held, m.stacks
    ensures m.Valid() && Holds(held, m.held, Sizes(requests + [Release(k)]))
    ensures forall i | 0 <= i < |m.stacks| :: Sized(|m.stacks[i].bins|, requests + [Release(k)], m.stacks[i].size)
  {
    assert (requests + [Release(k)])[..|requests|] == requests;
    forall i | 0 <= i < |m.stacks| {
      SizedRelease(|m.stacks[i].bins|, requests, k, m.stacks[i].size);
    }
    if k >= |bins| {
      return bins;
    }
    var _ := m.ReleaseMemory(bins[k]);
    held := bins[..k] + bins[k + 1..];
  }

  /** The bin that was given back last is the next one of its size to be handed out, if that size is kept. */
  method GiveBackAndTake(m: MemoryManager, bin: MemoryBin) returns (next: MemoryBin)
    requires m.Valid() && bin in m.held
    modifies m`live, m`held, m.stacks
    ensures m.Valid() && next.size == bin.size && m.held == old(m.held) - {bin} + {next}
    ensures bin.size in {32, 48, 64, 65, 96, 161} <==> next == bin
  {
    PooledSizes(bin.size);
    var thrown := m.ReleaseMemory(bin);
    var index := StackIndex(bin.size);
    assert index >= 0 ==> StackIndex(m.stacks[index].size) == index;
    if index >= 0 {
      StackIndexSeparates(bin.size, m.stacks[index].size);
    }
    var memory := m.GetFreeMemory(bin.size);
    next := memory.value;
  }

  /** A bin that is given back twice is handed out twice. */
  method ReleasedTwice(stack: MemoryPageStack, bin: MemoryBin) returns (first: MemoryBin?, second: MemoryBin?)
    requires bin.size == stack.size && 0 < stack.size <= MAX_UINT16
    modifies stack
    ensures first == second == bin && stack.bins == old(stack.bins)
  {
    ghost var was := stack.bins;
    var t0 := stack.ReleaseMemory(bin);
    var t1 := stack.ReleaseMemory(bin);
    ghost var n := |stack.bins|;
    assert stack.bins[n - 1] == stack.bins[n - 2] == bin;
    first := stack.GetFreeMemory();
    assert (stack.bins + [first])[n - 1] == bin;
    second := stack.GetFreeMemory();
    assert (stack.bins + [second])[n - 2] == bin;
    assert stack.bins + [second] + [first] == was + [bin] + [bin];
    assert stack.bins == (stack.bins + [second] + [first])[..|was|];
  }
}
