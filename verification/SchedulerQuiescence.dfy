/**
 Which tasks remain when all threads have come to rest, for calls that overlap in any way: the
 theorem about whole calls holds as long as no signal is lost and no ready task is appended while
 no worker is going to look at the pending list.
 */
module SchedulerQuiescence {
  import opened Wrappers
  import TaskScheduler
  import opened SchedulerSteps

  type Task = TaskScheduler.Task
  type Worker = TaskScheduler.Worker
  type Graph = TaskScheduler.Graph

  // ---------------------------------------------------------------- who will look at the pending list

  predicate Scans(s: State, w: Worker) {
    s.scan.ScanBy? && s.scan.agent == Thread(w)
  }

  /** The worker has a task to run or is about to go through the list from its beginning. */
  predicate Awake(s: State, w: Worker)
    requires w < |s.workers|
  {
    var x := s.workers[w];
    || x.place.Woken? || x.place.Running? || x.place.Fetched?
    || (x.place.Testing? && x.slot.Some?)
    || (x.place.Asking? && !Scans(s, w))
  }

  /** A caller has a task for the worker, or the signal for it. */
  predicate SendsTo(c: Caller, w: Worker) {
    (c.Claimed? || c.Signalling?) && c.worker == w
  }

  predicate IsSent(s: State, w: Worker) {
    exists c | 0 <= c < |s.callers| :: SendsTo(s.callers[c], w)
  }

  predicate Attentive(s: State, w: Worker) {
    w < |s.workers| && (Awake(s, w) || IsSent(s, w))
  }

  predicate SomeAttentive(s: State) {
    exists w | 0 <= w < |s.workers| :: Attentive(s, w)
  }

  /** The caller holds a ready task and will find a free worker for it, or another caller will. */
  predicate Carries(g: Graph, s: State, c: Caller) {
    (c.Guarded? || c.Able?) && TaskScheduler.Ready(g, s.finished, c.task)
  }

  predicate SomeCarries(g: Graph, s: State) {
    |s.free| > 0 && exists c | 0 <= c < |s.callers| :: Carries(g, s, s.callers[c])
  }

  predicate Attention(g: Graph, s: State) {
    SomeAttentive(s) || SomeCarries(g, s)
  }

  /** Somebody will come by this place of the pending list. */
  predicate Watched(g: Graph, s: State, p: nat) {
    Attention(g, s) || (s.scan.ScanBy? && s.scan.next <= p)
  }

  predicate ReadyAt(g: Graph, s: State, p: nat) {
    p < |s.pending| && TaskScheduler.Ready(g, s.finished, s.pending[p])
  }

  ghost predicate WatchedIfReady(g: Graph, s: State, p: nat) {
    ReadyAt(g, s, p) ==> Watched(g, s, p)
  }

  /** Every ready task of the pending list is watched. */
  ghost predicate Attended(g: Graph, s: State) {
    forall p: nat :: WatchedIfReady(g, s, p)
  }

  predicate ScanInRange(s: State) {
    s.scan.ScanBy? ==> s.scan.next <= |s.pending|
  }

  // ---------------------------------------------------------------- one step

  /** The signal reaches its worker between two waits. */
  predicate LosesSignal(s: State, step: Step)
    requires Enabled(s, step)
  {
    step.Signal? && s.workers[s.callers[step.c].worker].place.Between?
  }

  /** A task that is ready is appended when nobody will come by. */
  predicate AppendsTooLate(g: Graph, s: State, step: Step)
    requires Enabled(s, step)
  {
    step.Append? && TaskScheduler.Ready(g, s.finished, s.callers[step.c].task) && !Watched(g, s, |s.pending|)
  }

  /** A foreign task finishes, and a pending one that waited for it is ready unseen. */
  ghost predicate FinishesUnseen(g: Graph, s: State, step: Step)
    requires Enabled(s, step)
  {
    && step.FinishElsewhere?
    && exists p: nat :: !ReadyAt(g, s, p) && ReadyAt(g, Apply(g, s, step), p) && !Watched(g, Apply(g, s, step), p)
  }

  /** A caller takes a task from the pending list, no worker is free, and another ready task stays there. */
  ghost predicate TakesOneOfTwo(g: Graph, s: State, step: Step)
    requires Enabled(s, step)
  {
    && step.ScanOne? && s.scan.agent.Client? && ReadyAt(g, s, s.scan.next)
    && |s.free| == 0 && !SomeAttentive(s)
    && exists p: nat :: p != s.scan.next && ReadyAt(g, s, p)
  }

  ghost predicate Misses(g: Graph, s: State, step: Step)
    requires Enabled(s, step)
  {
    AppendsTooLate(g, s, step) || FinishesUnseen(g, s, step) || TakesOneOfTwo(g, s, step)
  }

  /** A worker to which a caller sends keeps a sender, or is woken. */
  lemma SentKept(g: Graph, s: State, step: Step, w: Worker)
    requires Inv(g, s) && Enabled(s, step) && !LosesSignal(s, step)
    requires w < |s.workers| && IsSent(s, w)
    ensures Attentive(Apply(g, s, step), w)
  {
    var s' := Apply(g, s, step);
    var c :| 0 <= c < |s.callers| && SendsTo(s.callers[c], w);
    if step.Signal? && step.c == c {
      CountAt(s.callers, c, SignalOf, w);
      assert IsGiven(s.workers[w]);
    } else if CallerOf(s, step) == Some(c) {
      assert SendsTo(s'.callers[c], w);
    } else {
      StepMoves(g, s, step);
      assert s'.callers[c] == s.callers[c];
      assert SendsTo(s'.callers[c], w);
    }
  }

  /** An awake worker stays so until it begins to go through the list. */
  lemma AwakeKept(g: Graph, s: State, step: Step, w: Worker)
    requires Enabled(s, step) && Sane(s, step) && ScanSound(s) && w < |s.workers| && Awake(s, w)
    ensures var s' := Apply(g, s, step);
            if step == BeginAsk(w) then s'.scan.ScanBy? && s'.scan.next == 0
            else w < |s'.workers| && Awake(s', w)
  {
    StepMoves(g, s, step);
  }

  lemma AttentiveKept(g: Graph, s: State, s': State, step: Step)
    requires Inv(g, s) && Enabled(s, step) && s' == Apply(g, s, step)
    requires !LosesSignal(s, step) && SomeAttentive(s)
    ensures SomeAttentive(s') || (s'.scan.ScanBy? && s'.scan.next == 0)
  {
    var w :| 0 <= w < |s.workers| && Attentive(s, w);
    if IsSent(s, w) {
      SentKept(g, s, step, w);
      HasAttentive(s', w);
    } else {
      InvSane(g, s, step);
      AwakeKept(g, s, step, w);
      if step != BeginAsk(w) {
        HasAttentive(s', w);
      }
    }
  }

  lemma HasAttentive(s: State, w: Worker)
    requires Attentive(s, w)
    ensures SomeAttentive(s)
  {
  }

  /** A caller that takes a free worker has a task for it. */
  lemma PopAttends(g: Graph, s: State, s': State, step: Step)
    requires WorkersQueued(s) && Enabled(s, step) && s' == Apply(g, s, step) && step.PopFree? && |s.free| > 0
    ensures SomeAttentive(s')
  {
    var w := s.free[0];
    CountAt(s.free, 0, Is, w);
    assert Count(s.free, Is, w) + Count(s.callers, ClaimOf, w) == Idle(s, w);
    assert SendsTo(s'.callers[step.c], w);
    HasAttentive(s', w);
  }

  lemma CarrierKept(g: Graph, s: State, s': State, step: Step, c: nat)
    requires ScanSound(s) && Enabled(s, step) && s' == Apply(g, s, step) && !step.PopFree?
    requires c < |s.callers| && Carries(g, s, s.callers[c])
    ensures c < |s'.callers| && Carries(g, s', s'.callers[c]) && |s.free| <= |s'.free|
  {
    FinishedAndDone(g, s, step);
    StepMoves(g, s, step);
    if CallerOf(s, step) == Some(c) {
      assert step == CheckParents(c);
    } else {
      assert s'.callers[c] == s.callers[c];
    }
  }

  lemma CarriedKept(g: Graph, s: State, s': State, step: Step)
    requires WorkersQueued(s) && ScanSound(s) && Enabled(s, step) && s' == Apply(g, s, step) && SomeCarries(g, s)
    ensures Attention(g, s')
  {
    var c :| 0 <= c < |s.callers| && Carries(g, s, s.callers[c]);
    if step.PopFree? {
      PopAttends(g, s, s', step);
    } else {
      CarrierKept(g, s, s', step, c);
    }
  }

  lemma AttentionKept(g: Graph, s: State, s': State, step: Step)
    requires Inv(g, s) && Enabled(s, step) && s' == Apply(g, s, step)
    requires !LosesSignal(s, step) && Attention(g, s)
    ensures Attention(g, s') || (s'.scan.ScanBy? && s'.scan.next == 0)
  {
    if SomeAttentive(s) {
      AttentiveKept(g, s, s', step);
    } else {
      CarriedKept(g, s, s', step);
    }
  }

  /** What a step does to the pending list, as seen from a place after it. */
  lemma PendingMoved(g: Graph, s: State, s': State, step: Step, p: nat) returns (q: nat)
    requires Enabled(s, step) && s' == Apply(g, s, step) && p < |s'.pending|
    requires !(step.Append? && p == |s.pending|)
    ensures q < |s.pending| && s'.pending[p] == s.pending[q]
    ensures q == p || (step.ScanOne? && s.scan.next < q && ReadyAt(g, s, s.scan.next))
    ensures |s'.pending| < |s.pending| ==> q != s.scan.next && step.ScanOne? && ReadyAt(g, s, s.scan.next)
  {
    q := p;
    if step.ScanOne? && |s'.pending| < |s.pending| {
      q := if p < s.scan.next then p else p + 1;
    }
  }

  /** Who takes a ready task from the list and leaves another one there is attentive, or finds a free worker. */
  lemma TakerAttends(g: Graph, s: State, s': State, q: nat)
    requires Enabled(s, ScanOne) && s' == Apply(g, s, ScanOne)
    requires ReadyAt(g, s, s.scan.next) && q != s.scan.next && ReadyAt(g, s, q)
    requires !TakesOneOfTwo(g, s, ScanOne) && !SomeAttentive(s)
    ensures Attention(g, s')
  {
    if s.scan.agent.Thread? {
      HasAttentive(s', s.scan.agent.worker);
    } else {
      assert Carries(g, s', s'.callers[s.scan.agent.caller]);
    }
  }

  lemma FinishAttends(g: Graph, s: State, s': State, step: Step)
    requires Enabled(s, step) && ScanSound(s) && s' == Apply(g, s, step)
    ensures s'.finished == s.finished || SomeAttentive(s') || step.FinishElsewhere?
  {
    if step.Finish? {
      HasAttentive(s', step.w);
    }
  }

  lemma ScanStaysInRange(g: Graph, s: State, step: Step)
    requires Enabled(s, step) && ScanInRange(s)
    ensures ScanInRange(Apply(g, s, step))
  {
  }

  /** Whoever goes through the list passes no ready task by. */
  lemma ScanMoved(g: Graph, s: State, s': State, step: Step, p: nat)
    requires Enabled(s, step) && s' == Apply(g, s, step) && s'.pending == s.pending
    requires s.scan.ScanBy? && s.scan.next <= p && ReadyAt(g, s, p)
    ensures s'.scan.ScanBy? && s'.scan.next <= p
  {
  }

  lemma PlaceAttended(g: Graph, s: State, s': State, step: Step, p: nat)
    requires Inv(g, s) && Enabled(s, step) && s' == Apply(g, s, step)
    requires Attended(g, s) && ScanInRange(s) && !LosesSignal(s, step) && !Misses(g, s, step)
    requires ReadyAt(g, s', p)
    ensures Watched(g, s', p)
  {
    if !Attention(g, s') {
      if Attention(g, s) {
        AttentionKept(g, s, s', step);
      } else if step.FinishElsewhere? {
        assert WatchedIfReady(g, s, p);
      } else if !(step.Append? && p == |s.pending|) {
        FinishAttends(g, s, s', step);
        var q := PendingMoved(g, s, s', step, p);
        assert WatchedIfReady(g, s, q);
        if |s'.pending| < |s.pending| {
          TakerAttends(g, s, s', q);
        } else if !step.Append? {
          ScanMoved(g, s, s', step, p);
        }
      }
    }
  }

  // ---------------------------------------------------------------- what is missed is missed

  lemma SameAttentive(s: State, s': State)
    requires s'.workers == s.workers && s'.scan == s.scan && SomeAttentive(s')
    requires |s.callers| == |s'.callers|
    requires forall c, w | 0 <= c < |s.callers| && SendsTo(s'.callers[c], w) :: SendsTo(s.callers[c], w)
    ensures SomeAttentive(s)
  {
    var w :| 0 <= w < |s'.workers| && Attentive(s', w);
    if IsSent(s', w) {
      var c :| 0 <= c < |s'.callers| && SendsTo(s'.callers[c], w);
    }
    HasAttentive(s, w);
  }

  lemma AppendMisses(g: Graph, s: State, s': State, step: Step)
    requires Enabled(s, step) && s' == Apply(g, s, step) && AppendsTooLate(g, s, step)
    ensures !WatchedIfReady(g, s', |s.pending|)
  {
    if SomeAttentive(s') {
      SameAttentive(s, s');
    }
    assert SomeCarries(g, s') ==> SomeCarries(g, s);
  }

  lemma TakeMisses(g: Graph, s: State, s': State, step: Step) returns (p: nat)
    requires Inv(g, s) && Enabled(s, step) && s' == Apply(g, s, step) && TakesOneOfTwo(g, s, step)
    requires Attended(g, s)
    ensures !WatchedIfReady(g, s', p)
  {
    var q: nat :| q != s.scan.next && ReadyAt(g, s, q);
    assert WatchedIfReady(g, s, q);
    p := q - 1;
    if SomeAttentive(s') {
      TakenAttentive(g, s, s');
    }
  }

  lemma TakenAttentive(g: Graph, s: State, s': State)
    requires ScanSound(s) && Enabled(s, ScanOne) && s' == Apply(g, s, ScanOne) && s.scan.agent.Client?
    requires SomeAttentive(s')
    ensures SomeAttentive(s)
  {
    var w :| 0 <= w < |s'.workers| && Attentive(s', w);
    if IsSent(s', w) {
      var c :| 0 <= c < |s'.callers| && SendsTo(s'.callers[c], w);
      assert SendsTo(s.callers[c], w);
    }
    HasAttentive(s, w);
  }

  /** A step that loses no signal leaves a ready task without attention exactly if it misses one. */
  lemma {:induction false} StepAttends(g: Graph, s: State, step: Step)
    requires Inv(g, s) && Enabled(s, step) && Attended(g, s) && ScanInRange(s) && !LosesSignal(s, step)
    ensures var s' := Apply(g, s, step);
            ScanInRange(s') && (Attended(g, s') <==> !Misses(g, s, step))
  {
    var s' := Apply(g, s, step);
    ScanStaysInRange(g, s, step);
    if AppendsTooLate(g, s, step) {
      AppendMisses(g, s, s', step);
    } else if TakesOneOfTwo(g, s, step) {
      var p := TakeMisses(g, s, s', step);
    } else if FinishesUnseen(g, s, step) {
      var p: nat :| ReadyAt(g, s', p) && !Watched(g, s', p);
      assert !WatchedIfReady(g, s', p);
    } else {
      forall p: nat ensures WatchedIfReady(g, s', p) {
        if ReadyAt(g, s', p) {
          PlaceAttended(g, s, s', step, p);
        }
      }
    }
  }

  /** A look from outside takes in every place, whatever was missed before. */
  lemma LookAttends(g: Graph, s: State, c: nat)
    requires Enabled(s, BeginLook(c))
    ensures var s' := Apply(g, s, BeginLook(c)); Attended(g, s') && ScanInRange(s')
  {
  }

  // ---------------------------------------------------------------- all runs

  /** No step of the run, since the last look from outside began, loses a signal or misses a task. */
  ghost predicate NothingMissed(g: Graph, s: State, steps: seq<Step>)
    requires Legal(g, s, steps)
  {
    steps == [] ||
    (var n := |steps| - 1;
     var before := After(g, s, steps[..n]);
     || steps[n].BeginLook?
     || (NothingMissed(g, s, steps[..n]) && !LosesSignal(before, steps[n]) && !Misses(g, before, steps[n])))
  }

  lemma {:induction false} RunAttends(g: Graph, n: nat, m: nat, steps: seq<Step>)
    requires Legal(g, Init(n, m), steps) && NothingMissed(g, Init(n, m), steps)
    ensures var s := After(g, Init(n, m), steps); Attended(g, s) && ScanInRange(s)
  {
    if steps != [] {
      var k := |steps| - 1;
      var before := After(g, Init(n, m), steps[..k]);
      if steps[k].BeginLook? {
        LookAttends(g, before, steps[k].c);
      } else {
        RunAttends(g, n, m, steps[..k]);
        RunKeepsInv(g, n, m, steps[..k]);
        StepAttends(g, before, steps[k]);
      }
    }
  }

  // ---------------------------------------------------------------- at rest

  /** No caller is inside the scheduler and every worker waits without a task. */
  predicate AtRest(s: State) {
    && (forall c | 0 <= c < |s.callers| :: s.callers[c].Outside?)
    && (forall w | 0 <= w < |s.workers| :: s.workers[w] == WorkerState(Waiting, None))
  }

  /** The task was run, but never without error. */
  predicate OnlyFailed(s: State, t: Task) {
    t in s.done && t !in s.finished
  }

  lemma NoneReadyAtRest(g: Graph, s: State, p: nat)
    requires Inv(g, s) && Attended(g, s) && AtRest(s)
    ensures !ReadyAt(g, s, p)
  {
    assert WatchedIfReady(g, s, p);
  }

  /** At rest, a submitted task that was not run is in the pending list. */
  lemma PendingAtRest(g: Graph, s: State, t: Task) returns (p: nat)
    requires Inv(g, s) && AtRest(s) && t in s.submitted && t !in s.done
    ensures p < |s.pending| && s.pending[p] == t
  {
    assert s.submitted[t] == Places(s, t);
    CountZero(s.callers, HandOf, t);
    CountZero(s.workers, TaskOf, t);
    p := CountPositive(s.pending, Is, t);
  }

  /** Why a task is not run: it failed, or nobody submitted it here and no other scheduler has finished it. */
  ghost predicate Accounts(s: State, t: Task) {
    OnlyFailed(s, t) || (t !in s.submitted && t !in s.finished)
  }

  /**
   When all threads are at rest, a task that is still pending has an ancestor that was run with an
   error, was never submitted, or belongs to another scheduler and has not finished there.
   */
  lemma {:induction false} RestAt(g: Graph, rank: Task -> nat, s: State, t: Task) returns (chain: seq<Task>)
    requires TaskScheduler.Acyclic(g, rank) && Inv(g, s) && Attended(g, s) && AtRest(s)
    requires t in s.pending
    ensures TaskScheduler.Lineage(g, chain, t) && Accounts(s, chain[0])
    decreases rank(t)
  {
    var q :| 0 <= q < |s.pending| && s.pending[q] == t;
    NoneReadyAtRest(g, s, q);
    var i :| 0 <= i < |g.parents(t)| && g.parents(t)[i].Some? && g.parents(t)[i].value !in s.finished;
    var p := g.parents(t)[i].value;
    assert TaskScheduler.IsParent(g, p, t);
    if Accounts(s, p) {
      chain := [p, t];
    } else {
      var k := PendingAtRest(g, s, p);
      var up := RestAt(g, rank, s, p);
      chain := up + [t];
    }
  }

  /** All ancestors of a task that is ready have finished. */
  lemma {:induction false} AncestorsFinished(g: Graph, s: State, chain: seq<Task>, t: Task)
    requires RunsReady(g, s) && TaskScheduler.Ready(g, s.finished, t) && TaskScheduler.Lineage(g, chain, t)
    ensures chain[0] in s.finished
    decreases |chain|
  {
    var n := |chain|;
    var p := chain[n - 2];
    assert TaskScheduler.IsParent(g, p, chain[n - 1]);
    var i :| 0 <= i < |g.parents(t)| && g.parents(t)[i] == Some(p);
    if n > 2 {
      AncestorsFinished(g, s, chain[..n - 1], p);
    }
  }

  ghost predicate Explained(g: Graph, s: State, t: Task) {
    exists chain :: TaskScheduler.Lineage(g, chain, t) && Accounts(s, chain[0])
  }

  /** At rest, every pending task is explained by such an ancestor if and only if no ready one was missed. */
  lemma {:induction false} RestExactly(g: Graph, rank: Task -> nat, s: State)
    requires TaskScheduler.Acyclic(g, rank) && Inv(g, s) && AtRest(s)
    ensures (forall t | t in s.pending :: Explained(g, s, t)) <==> Attended(g, s)
  {
    if Attended(g, s) {
      forall t | t in s.pending ensures Explained(g, s, t) {
        var chain := RestAt(g, rank, s, t);
      }
    } else {
      var p: nat :| !WatchedIfReady(g, s, p);
      var t := s.pending[p];
      assert t in s.pending && TaskScheduler.Ready(g, s.finished, t);
      if Explained(g, s, t) {
        var chain :| TaskScheduler.Lineage(g, chain, t) && Accounts(s, chain[0]);
        AncestorsFinished(g, s, chain, t);
      }
    }
  }

  /**
   However the calls overlap: when all threads are at rest after a run that has missed nothing since
   the last look from outside, every submitted task that was not run has such an ancestor.
   */
  lemma {:induction false} RestAfterRun(g: Graph, rank: Task -> nat, n: nat, m: nat, steps: seq<Step>, t: Task)
    returns (chain: seq<Task>)
    requires TaskScheduler.Acyclic(g, rank)
    requires Legal(g, Init(n, m), steps) && NothingMissed(g, Init(n, m), steps)
    requires var s := After(g, Init(n, m), steps); AtRest(s) && t in s.submitted && t !in s.done
    ensures var s := After(g, Init(n, m), steps);
            TaskScheduler.Lineage(g, chain, t) && Accounts(s, chain[0])
  {
    var s := After(g, Init(n, m), steps);
    RunKeepsInv(g, n, m, steps);
    RunAttends(g, n, m, steps);
    var p := PendingAtRest(g, s, t);
    chain := RestAt(g, rank, s, t);
  }

  // ---------------------------------------------------------------- a task appended too late

  /** The worker is given task 0. */
  lemma FirstTaskGiven(g: Graph) returns (steps: seq<Step>, s: State)
    requires g.parents(0) == [] && !g.foreign(0)
    ensures Reaches(g, steps, s)
    ensures s == State([Outside], [WorkerState(Woken, Some(0))], [], [], NoScan, {0}, {}, multiset{0}, multiset{})
  {
    Starts(g);
    steps, s := Next(g, [], Fresh(Between), Wait(0));
    assert s == Fresh(Waiting);
    steps := ClaimsWorker(g, steps, Waiting);
    s := Claiming(Waiting);
    steps, s := Next(g, steps, s, SetNewTask(0));
    steps, s := Next(g, steps, s, Signal(0));
    steps, s := Next(g, steps, s, SetFlag(0));
  }

  /** It runs the task and finds the pending list empty, but has not joined the free queue. */
  lemma FoundEmpty(g: Graph) returns (steps: seq<Step>, s: State)
    requires g.parents(0) == [] && !g.foreign(0)
    ensures Reaches(g, steps, s)
    ensures s == State([Outside], [WorkerState(Empty, Some(0))], [], [], NoScan, {0}, {0}, multiset{0}, multiset{0})
  {
    steps, s := FirstTaskGiven(g);
    steps, s := Next(g, steps, s, Wake(0));
    assert s.workers == [WorkerState(Testing, Some(0))];
    steps, s := Next(g, steps, s, Test(0));
    steps, s := Next(g, steps, s, Finish(0, 0));
    steps, s := Next(g, steps, s, BeginAsk(0));
    steps, s := Next(g, steps, s, ScanOne);
  }

  lemma SecondTaskAppended(g: Graph) returns (steps: seq<Step>, s: State)
    requires g.parents(0) == g.parents(1) == [] && !g.foreign(0) && !g.foreign(1)
    ensures Reaches(g, steps, s)
    ensures s == State([Outside], [WorkerState(Empty, Some(0))], [1], [], NoScan, {0, 1}, {0}, multiset{0, 1}, multiset{0})
  {
    steps, s := FoundEmpty(g);
    steps, s := Next(g, steps, s, Guard(0, 1));
    assert s.callers == [Guarded(1, true)];
    steps, s := Next(g, steps, s, CheckParents(0));
    steps, s := Next(g, steps, s, PopFree(0));
    assert s.callers == [Unable(1, true)];
    steps, s := Next(g, steps, s, Append(0));
    steps, s := Next(g, steps, s, SetFlag(0));
  }

  /**
   This happens: a task without parents is submitted after the worker has looked at the list and
   before it has joined the free queue. Then all threads come to rest and the task stays pending.
   */
  lemma ReadyTaskForgotten(g: Graph) returns (steps: seq<Step>, s: State)
    requires g.parents(0) == g.parents(1) == [] && !g.foreign(0) && !g.foreign(1)
    ensures Legal(g, Init(1, 1), steps) && s == After(g, Init(1, 1), steps)
    ensures AtRest(s) && s.pending == [1] && TaskScheduler.Ready(g, s.finished, 1) && s.free == [0]
  {
    steps, s := SecondTaskAppended(g);
    steps, s := Next(g, steps, s, Push(0));
    steps, s := Next(g, steps, s, Assign(0));
    steps, s := Next(g, steps, s, Test(0));
    steps, s := Next(g, steps, s, Wait(0));
  }
}
