/**
 The transactions of a session: submitted, processed by workers, offered to the user one at a time,
 signed or rejected, and dropped when they have errors.
 */
module SessionTransactions {
  import opened Sequences

  // ---------------------------------------------------------------- erasing while iterating

  /** What is left when the element after an erased one is passed over. */
  ghost function Purged<T>(s: seq<T>, bad: set<T>): (r: seq<T>)
    ensures |r| <= |s|
    ensures forall x | x in r :: x in s
  {
    if s == [] then []
    else if s[0] !in bad then [s[0]] + Purged(s[1..], bad)
    else if |s| == 1 then []
    else [s[1]] + Purged(s[2..], bad)
  }

  /** The list when the loop ends, if it now stands before element i. */
  ghost function PurgedFrom<T>(s: seq<T>, i: nat, bad: set<T>): seq<T>
    requires i <= |s|
  {
    s[..i] + Purged(s[i..], bad)
  }

  function ErasedAt<T>(s: seq<T>, i: nat): seq<T>
    requires i < |s|
  {
    s[..i] + s[i + 1..]
  }

  lemma PurgeStep<T>(s: seq<T>, i: nat, bad: set<T>)
    requires i < |s|
    ensures s[i] !in bad ==> PurgedFrom(s, i, bad) == PurgedFrom(s, i + 1, bad)
    ensures s[i] in bad && i == |s| - 1 ==> PurgedFrom(s, i, bad) == ErasedAt(s, i)
    ensures s[i] in bad && i < |s| - 1 ==> PurgedFrom(s, i, bad) == PurgedFrom(ErasedAt(s, i), i + 1, bad)
  {
    var t := ErasedAt(s, i);
    assert s[i..][1..] == s[i + 1..] && s[..i + 1] == s[..i] + [s[i]];
    if s[i] in bad && i < |s| - 1 {
      assert s[i..][2..] == t[i + 1..] && t[..i + 1] == s[..i] + [s[i + 1]];
    }
  }

  /** The elements that are not bad, in order. */
  function Without<T(==)>(s: seq<T>, bad: set<T>): (r: seq<T>)
    ensures forall x | x in s :: x in r <==> x !in bad
    ensures forall x | x in r :: x in s
  {
    if s == [] then [] else (if s[0] in bad then [] else [s[0]]) + Without(s[1..], bad)
  }

  ghost function CountBad<T>(s: seq<T>, bad: set<T>): nat {
    if s == [] then 0 else (if s[0] in bad then 1 else 0) + CountBad(s[1..], bad)
  }

  lemma {:induction false} PurgedKeepsOthers<T>(s: seq<T>, bad: set<T>)
    ensures Without(Purged(s, bad), bad) == Without(s, bad)
  {
    if s != [] {
      if s[0] !in bad {
        PurgedKeepsOthers(s[1..], bad);
        assert Purged(s, bad)[1..] == Purged(s[1..], bad);
      } else if |s| > 1 {
        PurgedKeepsOthers(s[2..], bad);
        assert s[1..][1..] == s[2..] && Purged(s, bad)[1..] == Purged(s[2..], bad);
      }
    }
  }

  lemma {:induction false} PurgedHalvesBad<T>(s: seq<T>, bad: set<T>)
    ensures 2 * CountBad(Purged(s, bad), bad) <= CountBad(s, bad)
  {
    if s != [] {
      if s[0] !in bad {
        PurgedHalvesBad(s[1..], bad);
        assert Purged(s, bad)[1..] == Purged(s[1..], bad);
      } else if |s| > 1 {
        PurgedHalvesBad(s[2..], bad);
        assert s[1..][1..] == s[2..] && Purged(s, bad)[1..] == Purged(s[2..], bad);
      }
    }
  }

  /** No two bad elements stand next to each other. */
  ghost predicate Apart<T>(s: seq<T>, bad: set<T>) {
    |s| <= 1 || ((s[0] in bad ==> s[1] !in bad) && Apart(s[1..], bad))
  }

  /** All bad elements go in one call if and only if no two of them are neighbours. */
  lemma {:induction false} AllBadGo<T>(s: seq<T>, bad: set<T>)
    ensures CountBad(Purged(s, bad), bad) == 0 <==> Apart(s, bad)
  {
    if s != [] {
      if s[0] !in bad {
        AllBadGo(s[1..], bad);
        assert Purged(s, bad)[1..] == Purged(s[1..], bad);
      } else if |s| > 1 {
        AllBadGo(s[2..], bad);
        assert s[1..][1..] == s[2..] && Purged(s, bad)[1..] == Purged(s[2..], bad);
      }
    }
  }

  /** Bad elements do stay: of two neighbours the second is passed over. */
  lemma OneBadStays<T>(x: T, y: T)
    ensures Purged([x, y], {x, y}) == [y] && CountBad([y], {x, y}) == 1
  {
    assert [x, y][2..] == [] && [y][1..] == [];
  }

  ghost function PurgedTimes<T>(s: seq<T>, bad: set<T>, calls: nat): seq<T> {
    if calls == 0 then s else Purged(PurgedTimes(s, bad, calls - 1), bad)
  }

  ghost function HalvedTimes(n: nat, calls: nat): nat {
    if calls == 0 then n else HalvedTimes(n, calls - 1) / 2
  }

  lemma {:induction false} ManyCalls<T>(s: seq<T>, bad: set<T>, calls: nat)
    ensures Without(PurgedTimes(s, bad, calls), bad) == Without(s, bad)
    ensures CountBad(PurgedTimes(s, bad, calls), bad) <= HalvedTimes(CountBad(s, bad), calls)
  {
    if calls > 0 {
      ManyCalls(s, bad, calls - 1);
      PurgedKeepsOthers(PurgedTimes(s, bad, calls - 1), bad);
      PurgedHalvesBad(PurgedTimes(s, bad, calls - 1), bad);
    }
  }

  lemma {:induction false} OnlyGood<T>(s: seq<T>, bad: set<T>)
    requires CountBad(s, bad) == 0
    ensures Without(s, bad) == s
  {
    if s != [] {
      OnlyGood(s[1..], bad);
    }
  }

  /** Calls repeated as often as the number of bad elements can be halved leave exactly the good ones. */
  lemma AllGoInTheEnd<T>(s: seq<T>, bad: set<T>, calls: nat)
    requires HalvedTimes(CountBad(s, bad), calls) == 0
    ensures PurgedTimes(s, bad, calls) == Without(s, bad)
  {
    ManyCalls(s, bad, calls);
    OnlyGood(PurgedTimes(s, bad, calls), bad);
  }

  // ---------------------------------------------------------------- the session

  /** A worker sets the flag and may add errors; the session reads both. */
  class ProcessingTransaction {
    const hash: nat
    var finished: bool
    var errors: nat

    constructor (hash: nat)
      ensures this.hash == hash && !finished && errors == 0
    {
      this.hash, finished, errors := hash, false, 0;
    }
  }

  ghost predicate DistinctHashes(s: seq<ProcessingTransaction>) {
    forall i, j | 0 <= i < j < |s| :: s[i].hash != s[j].hash
  }

  ghost predicate Within<T>(s: seq<T>, t: seq<T>) {
    forall x | x in s :: x in t
  }

  lemma HeadHash(s: seq<ProcessingTransaction>)
    requires s != []
    ensures DistinctHashes(s) <==> DistinctHashes(s[1..]) && forall p | p in s[1..] :: p.hash != s[0].hash
  {
    if DistinctHashes(s[1..]) && forall p | p in s[1..] :: p.hash != s[0].hash {
      forall i, j | 0 <= i < j < |s| ensures s[i].hash != s[j].hash {
        assert s[j] == s[1..][j - 1] && (i > 0 ==> s[i] == s[1..][i - 1]);
      }
    }
  }

  lemma {:induction false} GoodStay<T>(s: seq<T>, bad: set<T>)
    ensures forall x | x in s && x !in bad :: x in Purged(s, bad)
  {
    if s != [] {
      if s[0] !in bad {
        GoodStay(s[1..], bad);
      } else if |s| > 1 {
        GoodStay(s[2..], bad);
        assert s[1..][1..] == s[2..];
      }
    }
  }

  lemma FirstBadGoes(s: seq<ProcessingTransaction>, bad: set<ProcessingTransaction>)
    requires s != [] && s[0] in bad && DistinctHashes(s)
    ensures s[0] !in Purged(s, bad)
  {
    HeadHash(s);
    if |s| > 1 {
      assert s[1] == s[1..][0];
      forall x | x in s[2..] ensures x in s[1..] {
        assert s[2..] == s[1..][1..];
      }
    }
  }

  lemma {:induction false} ApartAllGo<T>(s: seq<T>, bad: set<T>)
    requires forall i | 0 < i < |s| :: s[i] !in bad || s[i - 1] !in bad
    ensures forall x | x in Purged(s, bad) :: x !in bad
  {
    if |s| > 1 {
      if s[0] !in bad {
        forall i | 0 < i < |s[1..]| ensures s[1..][i] !in bad || s[1..][i - 1] !in bad {
          assert s[1..][i] == s[i + 1] && s[1..][i - 1] == s[i];
        }
        ApartAllGo(s[1..], bad);
      } else {
        forall i | 0 < i < |s[2..]| ensures s[2..][i] !in bad || s[2..][i - 1] !in bad {
          assert s[2..][i] == s[i + 2] && s[2..][i - 1] == s[i + 1];
        }
        ApartAllGo(s[2..], bad);
        assert s[1] !in bad;
      }
    }
  }

  /** Of two neighbours, the first has no errors or the second has none. */
  ghost predicate NoErrorPairs(s: seq<ProcessingTransaction>)
    reads s
  {
    forall i | 0 < i < |s| :: s[i].errors == 0 || s[i - 1].errors == 0
  }

  lemma {:induction false} PurgedDistinctHashes(s: seq<ProcessingTransaction>, bad: set<ProcessingTransaction>)
    requires DistinctHashes(s)
    ensures DistinctHashes(Purged(s, bad))
  {
    if s != [] {
      HeadHash(s);
      if s[0] !in bad {
        PurgedDistinctHashes(s[1..], bad);
        assert Purged(s, bad)[1..] == Purged(s[1..], bad);
        HeadHash(Purged(s, bad));
      } else if |s| > 1 {
        HeadHash(s[1..]);
        assert s[1..][1..] == s[2..];
        PurgedDistinctHashes(s[2..], bad);
        assert Purged(s, bad)[1..] == Purged(s[2..], bad);
        HeadHash(Purged(s, bad));
      }
    }
  }

  lemma {:induction false} WithoutDistinctHashes(s: seq<ProcessingTransaction>, bad: set<ProcessingTransaction>)
    requires DistinctHashes(s)
    ensures DistinctHashes(Without(s, bad))
  {
    if s != [] {
      HeadHash(s);
      WithoutDistinctHashes(s[1..], bad);
      if s[0] !in bad {
        assert Without(s, bad)[1..] == Without(s[1..], bad);
        HeadHash(Without(s, bad));
      } else {
        assert Without(s, bad) == Without(s[1..], bad);
      }
    }
  }

  ghost function WithErrors(s: seq<ProcessingTransaction>): set<ProcessingTransaction>
    reads s
  {
    set p | p in s && p.errors > 0
  }

  ghost function FirstFinished(s: seq<ProcessingTransaction>): ProcessingTransaction?
    reads s
  {
    if s == [] then null else if s[0].finished then s[0] else FirstFinished(s[1..])
  }

  /** Where the first finished one stands. */
  ghost predicate IsFirstFinished(s: seq<ProcessingTransaction>, p: ProcessingTransaction?)
    reads s
  {
    if p == null then forall q | q in s :: !q.finished
    else exists i | 0 <= i < |s| :: s[i] == p && p.finished && forall j | 0 <= j < i :: !s[j].finished
  }

  lemma {:induction false} FirstFinishedIs(s: seq<ProcessingTransaction>)
    ensures IsFirstFinished(s, FirstFinished(s))
  {
    if s != [] && !s[0].finished {
      var p := FirstFinished(s[1..]);
      FirstFinishedIs(s[1..]);
      if p != null {
        var i :| 0 <= i < |s[1..]| && s[1..][i] == p && p.finished && forall j | 0 <= j < i :: !s[1..][j].finished;
        assert s[i + 1] == p && forall j | 0 <= j < i + 1 :: !s[j].finished;
      }
    } else if s != [] {
      assert s[0] == FirstFinished(s);
    }
  }

  ghost function Unfinished(s: seq<ProcessingTransaction>): set<ProcessingTransaction>
    reads s
  {
    set p | p in s && !p.finished
  }

  /** The count is the number of unfinished transactions of the list. */
  lemma {:induction false} CountWorkingIs(s: seq<ProcessingTransaction>)
    requires DistinctHashes(s)
    ensures CountWorking(s) == |Unfinished(s)|
  {
    if s != [] {
      HeadHash(s);
      CountWorkingIs(s[1..]);
      if s[0].finished {
        assert Unfinished(s) == Unfinished(s[1..]);
      } else {
        assert Unfinished(s) == {s[0]} + Unfinished(s[1..]);
        assert s[0] !in Unfinished(s[1..]);
      }
    }
  }

  ghost function CountWorking(s: seq<ProcessingTransaction>): nat
    reads s
  {
    if s == [] then 0 else (if s[0].finished then 0 else 1) + CountWorking(s[1..])
  }

  class Session {
    const calculateHash: string -> nat
    var hasUser: bool
    var processing: seq<ProcessingTransaction>
    var current: ProcessingTransaction?
    ghost var submitted: seq<ProcessingTransaction>
    ghost var offered: seq<ProcessingTransaction>  // in the order in which they became current
    ghost var signed: seq<ProcessingTransaction>   // in the order in which they were scheduled for signing

    /** Nothing is offered twice, so nothing is signed twice, and only what was offered is signed. */
    ghost predicate Valid()
      reads this
    {
      && DistinctHashes(processing) && Within(processing, submitted)
      && Distinct(offered) && Within(offered, submitted)
      && Distinct(signed) && Within(signed, offered)
      && (current != null ==> offered != [] && current == offered[|offered| - 1] && current !in signed)
      && (forall p | p in processing && p in offered :: p == current)
    }

    constructor (calculateHash: string -> nat, hasUser: bool)
      ensures Valid() && processing == [] && current == null && signed == []
      ensures this.calculateHash == calculateHash && this.hasUser == hasUser
    {
      this.calculateHash, this.hasUser := calculateHash, hasUser;
      processing, current := [], null;
      submitted, offered, signed := [], [], [];
    }

    /** False: the same message is already listed, or there is no user. */
    method StartProcessingTransaction(message: string) returns (started: bool)
      requires Valid()
      modifies this`processing, this`submitted
      ensures Valid()
      ensures started <==> hasUser && forall p | p in old(processing) :: p.hash != calculateHash(message)
      ensures !started ==> processing == old(processing) && submitted == old(submitted)
      ensures started ==>
                && processing != []
                && var p := processing[|processing| - 1];
                   fresh(p) && processing == old(processing) + [p] && p.hash == calculateHash(message) && submitted == old(submitted) + [p]
    {
      var hs := calculateHash(message);
      var it := 0;
      while it < |processing|
        invariant 0 <= it <= |processing|
        invariant forall i | 0 <= i < it :: processing[i].hash != hs
      {
        if hs == processing[it].hash {
          return false;
        }
        it := it + 1;
      }
      if !hasUser {
        return false;
      }
      var p := new ProcessingTransaction(hs);
      processing, submitted := processing + [p], submitted + [p];
      return true;
    }

    /** The transaction on offer stays; without one, the first finished one of the list is offered. */
    method GetNextReadyTransaction(counting: bool) returns (ready: ProcessingTransaction?, working: nat)
      requires Valid()
      modifies this`current, this`offered
      ensures Valid() && ready == current
      ensures current == if old(current) != null then old(current) else FirstFinished(processing)
      ensures offered == if current == old(current) then old(offered) else old(offered) + [current]
      ensures working == if counting then CountWorking(processing) else 0
      // in terms of the list: the first finished one, and the number of unfinished ones
      ensures old(current) == null ==> IsFirstFinished(processing, current)
      ensures counting ==> working == |Unfinished(processing)|
    {
      FirstFinishedIs(processing);
      CountWorkingIs(processing);
      ready, working := LookThrough(counting);
    }

    /** With counting, the current transaction is not returned early and the unfinished ones are counted. */
    method LookThrough(counting: bool) returns (ready: ProcessingTransaction?, working: nat)
      requires Valid()
      modifies this`current, this`offered
      ensures Valid() && ready == current
      ensures current == if old(current) != null then old(current) else FirstFinished(processing)
      ensures offered == if current == old(current) then old(offered) else old(offered) + [current]
      ensures working == if counting then CountWorking(processing) else 0
    {
      working := 0;
      if !counting && current != null {
        return current, 0;
      }
      var it := 0;
      assert processing[it..] == processing;
      while it < |processing|
        invariant 0 <= it <= |processing|
        invariant Valid() && offered == if current == old(current) then old(offered) else old(offered) + [current]
        invariant (if current != null then current else FirstFinished(processing[it..])) ==
                  if old(current) != null then old(current) else FirstFinished(processing)
        invariant !counting ==> current == null
        invariant counting ==> working + CountWorking(processing[it..]) == CountWorking(processing)
        invariant !counting ==> working == 0
      {
        assert processing[it..][1..] == processing[it + 1..];
        if counting && !processing[it].finished {
          working := working + 1;
        }
        if current == null && processing[it].finished {
          Offer(processing[it]);
          if !counting {
            return current, 0;
          }
        }
        it := it + 1;
      }
      return current, working;
    }

    method Offer(p: ProcessingTransaction)
      requires Valid() && current == null && p in processing
      modifies this`current, this`offered
      ensures Valid() && current == p && offered == old(offered) + [p]
    {
      current := p;
      offered := offered + [p];
    }

    method FinalizeTransaction(sign: bool, reject: bool)
      requires Valid()
      modifies this`processing, this`current, this`signed
      ensures Valid() && current == null
      ensures old(current) == null ==> processing == old(processing)
      ensures old(current) != null ==> var p: ProcessingTransaction := old(current); processing == Without(old(processing), {p})
      ensures signed == if old(current) != null && sign && !reject then old(signed) + [old(current)] else old(signed)
    {
      if current == null {
        return;
      }
      var p: ProcessingTransaction := current;
      WithoutDistinctHashes(processing, {p});
      processing := Without(processing, {p});
      if !reject {
        if sign {
          signed := signed + [current];
        }
      }
      current := null;
    }

    /** Drops transactions with errors, passing over the one after each that it drops. */
    method GetProcessingTransactionCount() returns (count: nat)
      requires Valid()
      modifies this`processing, processing
      ensures Valid() && count == |processing|
      ensures processing == Purged(old(processing), old(WithErrors(processing)))
      ensures forall p | p in old(processing) :: p.errors == if p in processing then old(p.errors) else 0
      ensures forall p | p in old(processing) :: p.finished == old(p.finished)
      ensures forall p | p in old(processing) && old(p.errors) == 0 :: p in processing
      ensures old(processing) != [] && old(processing[0].errors) > 0 ==> old(processing[0]) !in processing
      ensures old(NoErrorPairs(processing)) ==> forall p | p in processing :: p.errors == 0
    {
      ghost var s, bad := processing, WithErrors(processing);
      PurgedDistinctHashes(s, bad);
      GoodStay(s, bad);
      if s != [] && s[0] in bad {
        FirstBadGoes(s, bad);
      }
      if NoErrorPairs(s) {
        ApartAllGo(s, bad);
      }
      DropErrors();
      count := |processing|;
    }

    method DropErrors()
      requires DistinctHashes(processing)
      modifies this`processing, processing
      ensures processing == Purged(old(processing), old(WithErrors(processing)))
      ensures forall p | p in old(processing) :: p.errors == if p in processing then old(p.errors) else 0
      ensures forall p | p in old(processing) :: p.finished == old(p.finished)
    {
      ghost var s, bad := processing, WithErrors(processing);
      var it := 0;
      while it < |processing|
        invariant 0 <= it <= |processing|
        invariant Within(processing, s) && DistinctHashes(processing)
        invariant PurgedFrom(processing, it, bad) == Purged(s, bad)
        invariant forall p | p in s :: p.errors == if p in processing then old(p.errors) else 0
        invariant forall p | p in s :: p.finished == old(p.finished)
        decreases |processing| - it
      {
        PurgeStep(processing, it, bad);
        if processing[it].errors > 0 {
          EraseAt(it);
          if it == |processing| {
            break;
          }
        }
        it := it + 1;
      }
    }

    method EraseAt(it: nat)
      requires it < |processing| && DistinctHashes(processing)
      modifies this`processing, processing[it]
      ensures processing == ErasedAt(old(processing), it) && DistinctHashes(processing)
      ensures forall p | p in old(processing) :: p in processing <==> p != old(processing[it])
      ensures old(processing[it]).errors == 0 && old(processing[it]).finished == old(processing[it].finished)
    {
      ghost var s, p := processing, processing[it];
      processing[it].errors := 0;
      processing := ErasedAt(processing, it);
      assert forall i | 0 <= i < it :: processing[i] == s[i];
      assert forall i | it < i < |s| :: processing[i - 1] == s[i];
      forall q | q in s && q != p ensures q in processing {
        var i :| 0 <= i < |s| && s[i] == q;
        assert q == processing[if i < it then i else i - 1];
      }
    }

    method Reset()
      requires Valid()
      modifies this
      ensures Valid() && processing == [] && current == null && !hasUser
      ensures submitted == old(submitted) && offered == old(offered) && signed == old(signed)
    {
      hasUser, current, processing := false, null, [];
    }
  }

  lemma {:induction false} WithoutAbsent<T>(s: seq<T>, bad: set<T>)
    requires forall x | x in s :: x !in bad
    ensures Without(s, bad) == s
  {
    if s != [] {
      WithoutAbsent(s[1..], bad);
    }
  }

  method SignFirst(session: Session)
    requires session.Valid() && session.processing != [] && session.current == session.processing[0]
    modifies session
    ensures session.Valid() && session.current == null
    ensures session.processing == old(session.processing)[1..]
    ensures session.signed == old(session.signed) + [old(session.processing[0])]
    ensures session.signed + session.processing == old(session.signed + session.processing)
  {
    ghost var s, q := session.signed, session.processing;
    assert s + [q[0]] + q[1..] == s + q;
    HeadHash(session.processing);
    WithoutAbsent(session.processing[1..], {session.processing[0]});
    session.FinalizeTransaction(true, false);
  }

  /** When all work is done, asking and signing until nothing is offered signs everything, in order of submission. */
  method SignAll(session: Session)
    requires session.Valid() && session.current == null
    requires forall p | p in session.processing :: p.finished
    modifies session
    ensures session.Valid() && session.processing == [] && session.current == null
    ensures session.signed == old(session.signed + session.processing)
  {
    ghost var all := session.signed + session.processing;
    var ready, working := session.GetNextReadyTransaction(false);
    while ready != null
      invariant session.Valid() && ready == session.current
      invariant session.signed + session.processing == all
      invariant forall p | p in session.processing :: p.finished
      invariant if session.processing == [] then ready == null else ready == session.processing[0]
      decreases |session.processing|
    {
      SignFirst(session);
      ready, working := session.GetNextReadyTransaction(false);
    }
  }

  /** Messages with different hashes are listed in the order in which they come in. */
  method SubmitAll(session: Session, messages: seq<string>)
    requires session.Valid() && session.hasUser && session.processing == [] && session.current == null
    requires forall i, j | 0 <= i < j < |messages| :: session.calculateHash(messages[i]) != session.calculateHash(messages[j])
    modifies session`processing, session`submitted
    ensures session.Valid() && |session.processing| == |messages|
    ensures forall k | 0 <= k < |messages| ::
              fresh(session.processing[k]) && session.processing[k].hash == session.calculateHash(messages[k])
  {
    var i := 0;
    while i < |messages|
      invariant 0 <= i <= |messages| && session.Valid() && |session.processing| == i
      invariant forall k | 0 <= k < i ::
                  fresh(session.processing[k]) && session.processing[k].hash == session.calculateHash(messages[k])
    {
      forall p | p in session.processing ensures p.hash != session.calculateHash(messages[i]) {
        var k :| 0 <= k < i && session.processing[k] == p;
      }
      var started := session.StartProcessingTransaction(messages[i]);
      i := i + 1;
    }
  }

  /** From the messages to the signatures: when the workers are through, all are signed in the order of the messages. */
  method SubmitAndSign(calculateHash: string -> nat, messages: seq<string>) returns (session: Session)
    requires forall i, j | 0 <= i < j < |messages| :: calculateHash(messages[i]) != calculateHash(messages[j])
    ensures session.Valid() && session.processing == [] && |session.signed| == |messages|
    ensures forall k | 0 <= k < |messages| :: session.signed[k].hash == calculateHash(messages[k])
  {
    session := new Session(calculateHash, true);
    SubmitAll(session, messages);
    var s := session.processing;
    var i := 0;
    while i < |s|
      invariant 0 <= i <= |s| && session.Valid() && session.processing == s
      invariant session.signed == [] && session.current == null && session.calculateHash == calculateHash
      invariant forall k | 0 <= k < i :: s[k].finished
      invariant forall k | 0 <= k < |s| :: fresh(s[k]) && s[k].hash == calculateHash(messages[k])
    {
      s[i].finished := true;
      i := i + 1;
    }
    SignAll(session);
  }

  // ---------------------------------------------------------------- any sequence of calls

  datatype Call =
    | Submit(message: string)
    | Next(counting: bool)
    | Finalize(sign: bool, reject: bool)
    | Count
    | Finish(k: nat, newErrors: nat)
    | Reset

  /** Calls of the session, and workers that finish transactions with or without errors in between. */
  method Run(calculateHash: string -> nat, hasUser: bool, calls: seq<Call>) returns (session: Session)
    ensures session.Valid()
  {
    session := new Session(calculateHash, hasUser);
    var i := 0;
    while i < |calls|
      invariant 0 <= i <= |calls| && session.Valid()
      invariant fresh(session) && fresh(session.processing) && forall p | p in session.processing :: fresh(p)
    {
      match calls[i] {
        case Submit(message) => var _ := session.StartProcessingTransaction(message);
        case Next(counting) => var _, _ := session.GetNextReadyTransaction(counting);
        case Finalize(sign, reject) => session.FinalizeTransaction(sign, reject);
        case Count => var _ := session.GetProcessingTransactionCount();
        case Finish(k, newErrors) =>
          if k < |session.processing| {
            var p := session.processing[k];
            p.finished, p.errors := true, p.errors + newErrors;
          }
        case Reset => session.Reset();
      }
      forall k | 0 <= k < |session.processing| ensures fresh(session.processing[k]) {
        assert session.processing[k] in session.processing;
      }
      i := i + 1;
    }
  }
}
