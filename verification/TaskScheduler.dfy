/**
 The task scheduler at the granularity of whole calls: submitting a task, one turn of a worker,
 and a check of the pending list.  Tasks form an arbitrary acyclic graph of dependencies.
 */
module TaskScheduler {
  import opened Sequences
  import opened Wrappers

  type Task = nat
  type Worker = nat

  // ---------------------------------------------------------------- tasks and their parents

  /**
   The parent pointers of every task, any of which may be null, and the tasks that belong to another
   scheduler. Tasks may depend on tasks of the other scheduler in both directions.
   */
  datatype Graph = Graph(parents: Task -> seq<Option<Task>>, foreign: Task -> bool)

  predicate IsParent(g: Graph, p: Task, t: Task) {
    Some(p) in g.parents(t)
  }

  ghost predicate Acyclic(g: Graph, rank: Task -> nat) {
    forall p, t | IsParent(g, p, t) :: rank(p) < rank(t)
  }

  predicate Ready(g: Graph, finished: set<Task>, t: Task) {
    forall i | 0 <= i < |g.parents(t)| :: g.parents(t)[i].Some? ==> g.parents(t)[i].value in finished
  }

  /** A task is ready exactly if all its parents have finished. */
  lemma ReadyExactly(g: Graph, finished: set<Task>, t: Task)
    ensures Ready(g, finished, t) <==> forall p | IsParent(g, p, t) :: p in finished
  {
    if Ready(g, finished, t) {
      forall p | IsParent(g, p, t) ensures p in finished {
        var i :| 0 <= i < |g.parents(t)| && g.parents(t)[i] == Some(p);
      }
    } else {
      var i :| 0 <= i < |g.parents(t)| && g.parents(t)[i].Some? && g.parents(t)[i].value !in finished;
      assert IsParent(g, g.parents(t)[i].value, t);
    }
  }

  /** chain leads from an ancestor at its head down to t, each a parent of the next. */
  ghost predicate Lineage(g: Graph, chain: seq<Task>, t: Task) {
    && |chain| >= 2
    && chain[|chain| - 1] == t
    && forall i | 0 <= i < |chain| - 1 :: IsParent(g, chain[i], chain[i + 1])
  }

  // ---------------------------------------------------------------- states

  datatype View = View(
    pending: seq<Task>,             // mPendingTasks
    free: seq<Worker>,              // mFreeWorkerThreads
    waiting: seq<Option<Task>>,     // mWaitingTask of each worker
    scheduled: set<Task>,           // tasks whose scheduled flag is set
    finished: set<Task>,            // tasks whose finished flag is set
    failed: set<Task>,              // tasks that ran and returned non-zero
    late: set<Task>                 // foreign tasks finished since the list was last gone through
  ) {
    /** The task has been run. */
    predicate Ran(t: Task) {
      t in finished || t in failed
    }

    /** Every worker waits for work. */
    predicate AllIdle() {
      forall w | 0 <= w < |waiting| :: waiting[w].None?
    }
  }

  /** Every scheduled task of this scheduler is in exactly one place; the tasks of hand are held by a caller. */
  ghost predicate Placed(g: Graph, v: View, hand: set<Task>) {
    && Distinct(v.pending)
    && (forall w, w' | 0 <= w < w' < |v.waiting| && v.waiting[w].Some? :: v.waiting[w] != v.waiting[w'])
    && v.finished !! v.failed
    && (forall t | t in v.pending :: t !in hand && Some(t) !in v.waiting && t !in v.finished && t !in v.failed)
    && (forall t: Task | Some(t) in v.waiting :: t !in hand && t !in v.finished && t !in v.failed)
    && (forall t | t in hand :: t !in v.finished && t !in v.failed)
    && (forall t: Task | !g.foreign(t) :: t in v.scheduled <==>
          t in v.pending || Some(t) in v.waiting || t in v.finished || t in v.failed || t in hand)
  }

  ghost predicate OwnTasks(g: Graph, v: View, hand: set<Task>) {
    && (forall t: Task | t in v.pending || Some(t) in v.waiting || t in v.failed || t in hand :: !g.foreign(t))
    && (forall t | t in v.late :: g.foreign(t) && t in v.finished)
    && v.finished <= v.scheduled
  }

  /** The free queue lists exactly the workers without a task that are not asking for one, each once. */
  ghost predicate Queued(v: View, asking: set<Worker>) {
    && Distinct(v.free)
    && forall w: Worker :: w in v.free <==> w < |v.waiting| && v.waiting[w].None? && w !in asking
  }

  ghost predicate ParentsScheduled(g: Graph, v: View) {
    forall p, t | t in v.scheduled && IsParent(g, p, t) :: p in v.scheduled
  }

  /** Only ready tasks are given to workers, and only ready tasks have been run. */
  ghost predicate StartedReady(g: Graph, v: View) {
    && (forall t: Task | Some(t) in v.waiting :: Ready(g, v.finished, t))
    && (forall t | t in v.finished || t in v.failed :: Ready(g, v.finished, t))
  }

  /** A parent of the task finished elsewhere, and nobody has looked since. */
  ghost predicate Overlooked(g: Graph, v: View, t: Task) {
    exists p :: IsParent(g, p, t) && p in v.late
  }

  /** While a pending task is ready and not overlooked, some worker will still look at the list. */
  ghost predicate NoneForgotten(g: Graph, v: View, asking: set<Worker>) {
    |v.waiting| > 0 && (exists t :: t in v.pending && Ready(g, v.finished, t) && !Overlooked(g, v, t)) ==>
      !v.AllIdle() || asking != {}
  }

  /** hand: tasks held by a caller; asking: workers inside getNextUndoneTask. */
  ghost predicate Inv(g: Graph, v: View, hand: set<Task>, asking: set<Worker>) {
    && Placed(g, v, hand)
    && OwnTasks(g, v, hand)
    && Queued(v, asking)
    && ParentsScheduled(g, v)
    && StartedReady(g, v)
    && NoneForgotten(g, v, asking)
  }

  // ---------------------------------------------------------------- quiescence

  /** Nobody will finish this task: it was run and returned an error, or another scheduler has it and has not finished it. */
  ghost predicate Stuck(g: Graph, v: View, t: Task) {
    t in v.failed || (g.foreign(t) && t !in v.finished)
  }

  ghost predicate BelowStuck(g: Graph, v: View, t: Task) {
    exists chain :: Lineage(g, chain, t) && Stuck(g, v, chain[0])
  }

  /**
   When all workers are idle, a submitted task that was never run has an ancestor that was run and
   returned an error, or one on the other scheduler that is unfinished, or that finished after the
   list was last gone through.
   */
  lemma {:induction false} Quiescence(g: Graph, rank: Task -> nat, v: View, t: Task) returns (chain: seq<Task>)
    requires Acyclic(g, rank) && Inv(g, v, {}, {})
    requires |v.waiting| > 0 && v.AllIdle()
    requires t in v.scheduled && !g.foreign(t) && !v.Ran(t)
    ensures Lineage(g, chain, t) && (Stuck(g, v, chain[0]) || chain[0] in v.late)
    ensures chain[0] in v.scheduled
    decreases rank(t)
  {
    assert t in v.pending;
    if Ready(g, v.finished, t) {
      var p :| IsParent(g, p, t) && p in v.late;
      chain := [p, t];
    } else {
      var i :| 0 <= i < |g.parents(t)| && g.parents(t)[i].Some? && g.parents(t)[i].value !in v.finished;
      var p := g.parents(t)[i].value;
      assert IsParent(g, p, t);
      if Stuck(g, v, p) {
        chain := [p, t];
      } else {
        var up := Quiescence(g, rank, v, p);
        chain := up + [t];
      }
    }
  }

  /** Conversely, a task below an unfinished one is never run. */
  lemma {:induction false} BelowUnfinishedNeverRuns(g: Graph, v: View, chain: seq<Task>, t: Task)
    requires Inv(g, v, {}, {})
    requires Lineage(g, chain, t) && chain[0] !in v.finished
    ensures !v.Ran(t)
    decreases |chain|
  {
    var n := |chain|;
    var p := chain[n - 2];
    assert IsParent(g, p, chain[n - 1]);
    if n > 2 {
      BelowUnfinishedNeverRuns(g, v, chain[..n - 1], p);
    }
    var i :| 0 <= i < |g.parents(t)| && g.parents(t)[i] == Some(p);
    assert p !in v.finished;
  }

  /**
   In a quiet state in which the list was gone through since a task last finished elsewhere, the
   tasks that were submitted but not run are exactly those below a stuck one.
   */
  lemma QuietExactly(g: Graph, rank: Task -> nat, v: View, t: Task)
    requires Acyclic(g, rank) && Inv(g, v, {}, {})
    requires |v.waiting| > 0 && v.AllIdle() && v.late == {}
    requires t in v.scheduled && !g.foreign(t)
    ensures !v.Ran(t) <==> BelowStuck(g, v, t)
  {
    if !v.Ran(t) {
      var chain := Quiescence(g, rank, v, t);
    } else if chain :| Lineage(g, chain, t) && Stuck(g, v, chain[0]) {
      BelowUnfinishedNeverRuns(g, v, chain, t);
    }
  }

  /** What an observer may rely on when all workers are idle. */
  ghost predicate Quiet(g: Graph, v: View) {
    && (forall t | t in v.scheduled && !g.foreign(t) && !v.Ran(t) ::
          exists chain :: Lineage(g, chain, t) && (Stuck(g, v, chain[0]) || chain[0] in v.late))
    && (v.late == {} ==> forall t | t in v.scheduled && !g.foreign(t) :: !v.Ran(t) <==> BelowStuck(g, v, t))
  }

  lemma IsQuiet(g: Graph, rank: Task -> nat, v: View)
    requires Acyclic(g, rank) && Inv(g, v, {}, {})
    requires |v.waiting| > 0 && v.AllIdle()
    ensures Quiet(g, v)
  {
    forall t | t in v.scheduled && !g.foreign(t) && !v.Ran(t)
      ensures exists chain :: Lineage(g, chain, t) && (Stuck(g, v, chain[0]) || chain[0] in v.late)
    {
      var chain := Quiescence(g, rank, v, t);
    }
    if v.late == {} {
      forall t | t in v.scheduled && !g.foreign(t) ensures !v.Ran(t) <==> BelowStuck(g, v, t) {
        QuietExactly(g, rank, v, t);
      }
    }
  }

  // ---------------------------------------------------------------- two schedulers

  /** Two schedulers over the same tasks: each task belongs to one of them, and they share the flags. */
  ghost predicate Share(g: Graph, v: View, g': Graph, v': View) {
    && g.parents == g'.parents && (forall t :: g.foreign(t) != g'.foreign(t))
    && v.scheduled == v'.scheduled && v.finished == v'.finished
  }

  /**
   When both are idle and have gone through their lists since the other last finished a task, every
   submitted task of either that was not run has an ancestor that returned an error on one of them.
   */
  lemma {:induction false} BothQuiet(g: Graph, v: View, g': Graph, v': View, rank: Task -> nat, t: Task)
    returns (chain: seq<Task>)
    requires Acyclic(g, rank) && Inv(g, v, {}, {}) && Inv(g', v', {}, {}) && Share(g, v, g', v')
    requires |v.waiting| > 0 && v.AllIdle() && v.late == {}
    requires |v'.waiting| > 0 && v'.AllIdle() && v'.late == {}
    requires t in v.scheduled && !g.foreign(t) && !v.Ran(t)
    ensures Lineage(g, chain, t) && (chain[0] in v.failed || chain[0] in v'.failed)
    decreases rank(t)
  {
    chain := Quiescence(g, rank, v, t);
    var h := chain[0];
    if h !in v.failed && h !in v'.failed {
      AncestorsRank(g, rank, chain, t);
      assert Acyclic(g', rank) by {
        assert forall p, u :: IsParent(g', p, u) <==> IsParent(g, p, u);
      }
      var up := BothQuiet(g', v', g, v, rank, h);
      chain := up + chain[1..];
    }
  }

  lemma {:induction false} AncestorsRank(g: Graph, rank: Task -> nat, chain: seq<Task>, t: Task)
    requires Acyclic(g, rank) && Lineage(g, chain, t)
    ensures rank(chain[0]) < rank(t)
    decreases |chain|
  {
    var n := |chain|;
    assert IsParent(g, chain[n - 2], chain[n - 1]);
    if n > 2 {
      AncestorsRank(g, rank, chain[..n - 1], chain[n - 2]);
    }
  }

  // ---------------------------------------------------------------- single state changes

  lemma SlotFilled(ws: seq<Option<Task>>, w: Worker, t: Task)
    requires w < |ws| && ws[w].None?
    ensures forall u: Task :: Some(u) in ws[w := Some(t)] <==> u == t || Some(u) in ws
  {
    forall u: Task | Some(u) in ws ensures Some(u) in ws[w := Some(t)] {
      var k :| 0 <= k < |ws| && ws[k] == Some(u);
      assert ws[w := Some(t)][k] == Some(u);
    }
    assert ws[w := Some(t)][w] == Some(t);
  }

  lemma SlotCleared(ws: seq<Option<Task>>, w: Worker, t: Task)
    requires w < |ws| && ws[w] == Some(t)
    requires forall k, k' | 0 <= k < k' < |ws| && ws[k].Some? :: ws[k] != ws[k']
    ensures forall u: Task :: Some(u) in ws[w := None] <==> Some(u) in ws && u != t
  {
    forall u: Task | Some(u) in ws && u != t ensures Some(u) in ws[w := None] {
      var k :| 0 <= k < |ws| && ws[k] == Some(u);
      assert ws[w := None][k] == Some(u);
    }
  }

  /** A worker that asks and has no task is given one that a caller holds. */
  lemma GiveValid(g: Graph, v: View, w: Worker, t: Task, hand: set<Task>, asking: set<Worker>)
    requires Inv(g, v.(scheduled := v.scheduled + {t}), hand + {t}, asking + {w})
    requires w < |v.waiting| && v.waiting[w].None? && Ready(g, v.finished, t)
    requires t !in hand && w !in asking
    ensures Inv(g, v.(scheduled := v.scheduled + {t}, waiting := v.waiting[w := Some(t)]), hand, asking)
  {
    assert Some(t) !in v.waiting;
    SlotFilled(v.waiting, w, t);
    var v' := v.(scheduled := v.scheduled + {t}, waiting := v.waiting[w := Some(t)]);
    assert v'.waiting[w].Some?;
    forall k, k' | 0 <= k < k' < |v'.waiting| && v'.waiting[k].Some? ensures v'.waiting[k] != v'.waiting[k'] {
      assert v.waiting[k] in v.waiting && v.waiting[k'] in v.waiting;
    }
  }

  /** A caller takes up a task that is new to the scheduler. */
  lemma TakeUpValid(g: Graph, v: View, t: Task, hand: set<Task>, asking: set<Worker>)
    requires Inv(g, v, hand, asking) && t !in v.scheduled && !g.foreign(t)
    requires forall p | IsParent(g, p, t) :: p in v.scheduled
    ensures Inv(g, v.(scheduled := v.scheduled + {t}), hand + {t}, asking)
  {
  }

  /** The first free worker leaves the queue. */
  lemma PopFreeValid(g: Graph, v: View, hand: set<Task>, asking: set<Worker>)
    requires Inv(g, v, hand, asking) && |v.free| > 0
    ensures var w := v.free[0];
            && w < |v.waiting| && v.waiting[w].None? && w !in asking
            && Inv(g, v.(free := v.free[1..]), hand, asking + {w})
  {
    var w := v.free[0];
    assert w in v.free && w !in v.free[1..];
    assert forall u | u in v.free && u != w :: u in v.free[1..];
  }

  /** A worker that asked joins the free queue when no pending task is ready. */
  lemma PushFreeValid(g: Graph, v: View, w: Worker, hand: set<Task>)
    requires Inv(g, v, hand, {w}) && w < |v.waiting| && v.waiting[w].None?
    requires forall t | t in v.pending :: !Ready(g, v.finished, t)
    ensures Inv(g, v.(free := v.free + [w]), hand, {})
  {
    assert w !in v.free;
  }

  /** A task held by a caller is appended to the pending list. */
  lemma AppendValid(g: Graph, v: View, t: Task, hand: set<Task>, asking: set<Worker>)
    requires Inv(g, v.(scheduled := v.scheduled + {t}), hand + {t}, asking) && t !in hand
    requires Ready(g, v.finished, t) ==> v.free == []
    ensures Inv(g, v.(scheduled := v.scheduled + {t}, pending := v.pending + [t]), hand, asking)
  {
    if Ready(g, v.finished, t) && |v.waiting| > 0 && asking == {} {
      assert 0 !in v.free;
      assert v.waiting[0].Some?;
    }
  }

  lemma RemoveValid(g: Graph, v: View, i: nat, hand: set<Task>, asking: set<Worker>)
    requires Inv(g, v, hand, asking) && i < |v.pending|
    ensures Inv(g, v.(pending := v.pending[..i] + v.pending[i + 1..]), hand + {v.pending[i]}, asking)
  {
    var after := v.pending[..i] + v.pending[i + 1..];
    forall t ensures t in after <==> t in v.pending && t != v.pending[i] {
      if t in v.pending && t != v.pending[i] {
        var k :| 0 <= k < |v.pending| && v.pending[k] == t;
        assert t == after[if k < i then k else k - 1];
      }
    }
    forall k, k' | 0 <= k < k' < |after| ensures after[k] != after[k'] {
      assert after[k] == v.pending[if k < i then k else k + 1];
      assert after[k'] == v.pending[if k' < i then k' else k' + 1];
    }
  }

  /** A worker's task has been run. */
  lemma RunValid(g: Graph, v: View, w: Worker, ok: bool)
    requires Inv(g, v, {}, {}) && w < |v.waiting| && v.waiting[w].Some?
    ensures Inv(g, AfterRun(v, w, ok), {}, {w})
  {
    var t := v.waiting[w].value;
    assert Some(t) in v.waiting;
    SlotCleared(v.waiting, w, t);
  }

  ghost function AfterRun(v: View, w: Worker, ok: bool): View
    requires w < |v.waiting| && v.waiting[w].Some?
  {
    var t := v.waiting[w].value;
    var v' := v.(waiting := v.waiting[w := None]);
    if ok then v'.(finished := v.finished + {t}) else v'.(failed := v.failed + {t})
  }

  /** A task of the other scheduler has been submitted there. */
  lemma SubmittedElsewhere(g: Graph, v: View, t: Task, hand: set<Task>, asking: set<Worker>)
    requires Inv(g, v, hand, asking) && g.foreign(t) && forall p | IsParent(g, p, t) :: p in v.scheduled
    ensures Inv(g, v.(scheduled := v.scheduled + {t}), hand, asking)
  {
  }

  lemma FinishedElsewhere(g: Graph, v: View, t: Task)
    requires Inv(g, v, {}, {}) && g.foreign(t) && t in v.scheduled && Ready(g, v.finished, t)
    ensures Inv(g, v.(finished := v.finished + {t}, late := v.late + {t}), {}, {})
  {
    var v' := v.(finished := v.finished + {t}, late := v.late + {t});
    forall u | u in v'.pending && Ready(g, v'.finished, u) && !Overlooked(g, v', u)
      ensures Ready(g, v.finished, u) && !Overlooked(g, v, u)
    {
      forall i | 0 <= i < |g.parents(u)| && g.parents(u)[i].Some? ensures g.parents(u)[i].value in v.finished {
        assert IsParent(g, g.parents(u)[i].value, u);
      }
    }
  }

  /** The list has just been gone through. */
  lemma LookedThrough(g: Graph, v: View)
    requires Inv(g, v, {}, {})
    requires (forall t | t in v.pending :: !Ready(g, v.finished, t)) || !v.AllIdle() || |v.waiting| == 0
    ensures Inv(g, v.(late := {}), {}, {})
  {
  }

  /** After a ready task was handed on, some worker has a task. */
  lemma BusyAfterHandOn(g: Graph, v: View, t: Task)
    requires Ready(g, v.finished, t) && (forall w | w in v.free :: w < |v.waiting|)
    requires Queued(HandedOn(g, v, t), {})
    ensures var v' := HandedOn(g, v, t); |v'.waiting| == 0 || !v'.AllIdle()
  {
    var v' := HandedOn(g, v, t);
    if v.free != [] {
      assert v.free[0] in v.free;
      assert v'.waiting[v.free[0]].Some?;
    } else if |v'.waiting| > 0 {
      assert 0 !in v'.free;
      assert v'.waiting[0].Some?;
    }
  }

  lemma NewWorkerValid(g: Graph, v: View)
    requires Inv(g, v, {}, {})
    ensures Inv(g, v.(waiting := v.waiting + [None]), {}, {|v.waiting|})
  {
    assert forall t: Task :: Some(t) in v.waiting + [None] <==> Some(t) in v.waiting;
  }

  // ---------------------------------------------------------------- the scheduler

  /** What happens to a scheduler from outside. Turn is one turn of a worker's loop. */
  datatype Op =
    | Submit(task: Task)
    | Turn(worker: Worker, returnValue: int)
    | Check
    | FinishElsewhere(task: Task)  // the other scheduler has run the task without error

  /** A run of a task, with the value it returned. */
  datatype Run = Run(task: Task, returnValue: int)

  ghost predicate FinishedIn(log: seq<Run>, t: Task) {
    Run(t, 0) in log
  }

  /** Every task was run at most once, and only after all its parents had run without error. */
  ghost predicate InOrder(g: Graph, log: seq<Run>) {
    && (forall i, j | 0 <= i < j < |log| :: log[i].task != log[j].task)
    && forall i, p | 0 <= i < |log| && IsParent(g, p, log[i].task) :: FinishedIn(log[..i], p)
  }

  /** The flags of the tasks agree with what has been run. */
  ghost predicate Recorded(finished: set<Task>, failed: set<Task>, log: seq<Run>) {
    && (forall i | 0 <= i < |log| :: log[i].task in if log[i].returnValue == 0 then finished else failed)
    && (forall t | t in finished :: FinishedIn(log, t))
    && (forall t | t in failed :: exists i :: 0 <= i < |log| && log[i].task == t && log[i].returnValue != 0)
  }

  lemma Extended(g: Graph, v: View, r: Run, log: seq<Run>)
    requires InOrder(g, log) && Recorded(v.finished, v.failed, log)
    requires !v.Ran(r.task) && Ready(g, v.finished, r.task)
    ensures InOrder(g, log + [r])
    ensures Recorded(v.finished + (if r.returnValue == 0 then {r.task} else {}),
                     v.failed + (if r.returnValue != 0 then {r.task} else {}), log + [r])
  {
    var log' := log + [r];
    forall i | 0 <= i < |log| ensures log'[i].task != r.task {
      assert v.Ran(log[i].task);
    }
    forall i, p | 0 <= i < |log'| && IsParent(g, p, log'[i].task) ensures FinishedIn(log'[..i], p) {
      if i == |log| {
        assert log'[..i] == log;
        var k :| 0 <= k < |g.parents(r.task)| && g.parents(r.task)[k] == Some(p);
        assert p in v.finished;
      } else {
        assert log'[..i] == log[..i];
      }
    }
    assert log'[|log|] == r;
    assert forall i | 0 <= i < |log| :: log'[i] == log[i];
    forall t | FinishedIn(log, t) ensures FinishedIn(log', t) {
    }
  }

  class Scheduler {
    const g: Graph
    ghost const rank: Task -> nat
    var pending: seq<Task>
    var free: seq<Worker>
    var waiting: seq<Option<Task>>
    var scheduled: set<Task>
    var finished: set<Task>
    ghost var failed: set<Task>
    ghost var late: set<Task>

    ghost function V(): View
      reads this
    {
      View(pending, free, waiting, scheduled, finished, failed, late)
    }

    ghost predicate Valid(hand: set<Task>, asking: set<Worker>)
      reads this
    {
      Acyclic(g, rank) && Inv(g, V(), hand, asking)
    }

    /** Nothing already known about tasks is lost, and no task is finished or failed. */
    ghost predicate Grown(v: View)
      reads this
    {
      && v.scheduled <= scheduled
      && finished == v.finished && failed == v.failed && late == v.late
      && |waiting| == |v.waiting|
      && (forall w | 0 <= w < |waiting| && v.waiting[w].Some? :: waiting[w] == v.waiting[w])
    }

    /** Starts threadCount workers; each finds the list empty and joins the free queue. */
    constructor (g: Graph, ghost rank: Task -> nat, threadCount: nat)
      requires Acyclic(g, rank)
      ensures Valid({}, {}) && this.g == g && this.rank == rank
      ensures |waiting| == threadCount && V().AllIdle()
      ensures scheduled == {} && finished == {} && failed == {} && late == {}
    {
      this.g, this.rank := g, rank;
      pending, free, waiting := [], [], [];
      scheduled, finished, failed, late := {}, {}, {}, {};
      new;
      var i := 0;
      while i < threadCount
        invariant 0 <= i <= threadCount && |waiting| == i
        invariant Valid({}, {}) && V().AllIdle()
        invariant scheduled == {} && pending == [] && finished == {} && failed == {} && late == {}
      {
        StartWorker();
        i := i + 1;
      }
    }

    method StartWorker()
      requires Valid({}, {}) && V().AllIdle() && pending == []
      modifies this
      ensures Valid({}, {}) && V().AllIdle() && pending == [] && late == {} && |waiting| == old(|waiting|) + 1
      ensures unchanged(`scheduled) && unchanged(`finished) && unchanged(`failed)
    {
      var w := |waiting|;
      NewWorkerValid(g, V());
      waiting := waiting + [None];
      AskForTask(w);
    }

    /** True if all parents have finished. Parents never scheduled before are scheduled now. */
    method IsAllParentsReady(t: Task, ghost hand: set<Task>, ghost asking: set<Worker>) returns (all: bool)
      requires Valid(hand, asking)
      modifies this
      ensures Valid(hand, asking)
      ensures all == Ready(g, finished, t)
      ensures forall p | IsParent(g, p, t) :: p in scheduled
      ensures old(forall p | IsParent(g, p, t) :: p in scheduled) ==> V() == old(V())
      ensures Grown(old(V()))
      ensures forall u | u in scheduled && u !in old(scheduled) :: rank(u) < rank(t)
      decreases rank(t), 0
    {
      all := true;
      var i := 0;
      while i < |g.parents(t)|
        invariant 0 <= i <= |g.parents(t)|
        invariant Valid(hand, asking)
        invariant Grown(old(V()))
        invariant forall u | u in scheduled && u !in old(scheduled) :: rank(u) < rank(t)
        invariant all == forall k | 0 <= k < i :: g.parents(t)[k].Some? ==> g.parents(t)[k].value in finished
        invariant forall k | 0 <= k < i :: g.parents(t)[k].Some? ==> g.parents(t)[k].value in scheduled
        invariant old(forall p | IsParent(g, p, t) :: p in scheduled) ==> V() == old(V())
      {
        if g.parents(t)[i].Some? && g.parents(t)[i].value !in finished {
          var p := g.parents(t)[i].value;
          assert IsParent(g, p, t);
          all := false;
          SubmitParent(p, t, hand, asking);
        }
        i := i + 1;
      }
    }

    method SubmitParent(p: Task, ghost t: Task, ghost hand: set<Task>, ghost asking: set<Worker>)
      requires IsParent(g, p, t) && Valid(hand, asking)
      modifies this
      ensures Valid(hand, asking) && Grown(old(V())) && p in scheduled
      ensures old(p in scheduled) ==> V() == old(V())
      ensures forall u | u in scheduled && u !in old(scheduled) :: rank(u) < rank(t)
      decreases rank(p), 3
    {
      if p !in scheduled {
        ScheduleTask(p, hand, asking);
      }
    }

    /** Gives the task to the first free worker if it is ready, else appends it to the pending list. */
    method HandOn(t: Task, ready: bool, ghost rest: set<Task>, ghost asking: set<Worker>)
      requires t !in rest && ready == Ready(g, finished, t)
      requires Inv(g, V().(scheduled := scheduled + {t}), rest + {t}, asking)
      modifies this
      ensures Inv(g, V().(scheduled := scheduled + {t}), rest, asking)
      ensures V() == HandedOn(g, old(V()), t) && Grown(old(V()))
    {
      if ready && |free| > 0 {
        var w := free[0];
        PopFreeValid(g, V().(scheduled := scheduled + {t}), rest + {t}, asking);
        free := free[1..];
        GiveValid(g, V(), w, t, rest, asking);
        waiting := waiting[w := Some(t)];
      } else {
        AppendValid(g, V(), t, rest, asking);
        pending := pending + [t];
      }
    }

    /** Asks after the parents, which submits those that never were, and hands the task on. */
    method SheduleTask(t: Task, ghost hand: set<Task>, ghost asking: set<Worker>)
      requires (t in hand || t !in scheduled) && !g.foreign(t)
      requires Valid(hand, asking)
      modifies this
      ensures Inv(g, V().(scheduled := scheduled + {t}), hand - {t}, asking)
      ensures Grown(old(V()))
      ensures t in hand ==> scheduled == old(scheduled)
      ensures t !in hand ==> t !in scheduled
      ensures old(forall p | IsParent(g, p, t) :: p in scheduled) ==> V() == HandedOn(g, old(V()), t)
      ensures forall u | u in scheduled && u !in old(scheduled) :: rank(u) < rank(t)
      decreases rank(t), 1
    {
      ghost var rest := hand - {t};
      var ready := IsAllParentsReady(t, hand, asking);
      if t in hand {
        assert rest + {t} == hand && scheduled + {t} == scheduled;
      } else {
        TakeUpValid(g, V(), t, hand, asking);
        assert rest == hand;
      }
      HandOn(t, ready, rest, asking);
    }

    /** Submits a task, to the scheduler it belongs to, unless it has been submitted before. */
    method ScheduleTask(t: Task, ghost hand: set<Task>, ghost asking: set<Worker>)
      requires Valid(hand, asking)
      modifies this
      ensures Valid(hand, asking)
      ensures t in scheduled
      ensures Grown(old(V()))
      ensures forall u | u in scheduled && u !in old(scheduled) :: rank(u) <= rank(t)
      ensures old(t in scheduled) ==> V() == old(V())
      ensures old(t !in scheduled && forall p | IsParent(g, p, t) :: p in scheduled) ==>
                V() == (if g.foreign(t) then old(V()) else HandedOn(g, old(V()), t)).(scheduled := old(scheduled) + {t})
      decreases rank(t), 2
    {
      if t !in scheduled {
        if g.foreign(t) {
          // the other scheduler asks after the parents as well, and then has the task
          var _ := IsAllParentsReady(t, hand, asking);
          SubmittedElsewhere(g, V(), t, hand, asking);
        } else {
          SheduleTask(t, hand, asking);
        }
        scheduled := scheduled + {t};
      }
    }

    /** Removes the first ready pending task. If there is none, a worker that asked is parked. */
    method GetNextUndoneTask(me: Option<Worker>, ghost hand: set<Task>)
      returns (task: Option<Task>)
      requires me.Some? ==> me.value < |waiting| && waiting[me.value].None?
      requires Valid(hand, Asking(me))
      modifies this
      ensures unchanged(`waiting) && unchanged(`scheduled) && unchanged(`finished) && unchanged(`failed) && unchanged(`late)
      ensures task.Some? ==>
                && FirstReadyRemoved(g, finished, old(pending), task.value, pending)
                && Valid(hand + {task.value}, Asking(me)) && free == old(free)
      ensures task.None? ==>
                && (forall t | t in pending :: !Ready(g, finished, t))
                && Valid(hand, {}) && pending == old(pending)
                && free == old(free) + if me.Some? then [me.value] else []
    {
      var i := 0;
      while i < |pending|
        invariant 0 <= i <= |pending|
        invariant V() == old(V()) && Valid(hand, Asking(me))
        invariant forall k | 0 <= k < i :: !Ready(g, finished, pending[k])
      {
        assert pending[i] in scheduled;
        var ready := IsAllParentsReady(pending[i], hand, Asking(me));
        if ready {
          task := Some(pending[i]);
          RemoveValid(g, V(), i, hand, Asking(me));
          pending := pending[..i] + pending[i + 1..];
          return;
        }
        i := i + 1;
      }
      if me.Some? {
        PushFreeValid(g, V(), me.value, hand);
        free := free + [me.value];
      }
      return None;
    }

    /** The list has just been gone through. */
    ghost method ForgetLate()
      requires Valid({}, {})
      requires (forall t | t in pending :: !Ready(g, finished, t)) || !V().AllIdle() || |waiting| == 0
      modifies this`late
      ensures Valid({}, {}) && late == {}
    {
      LookedThrough(g, V());
      late := {};
    }

    /** A worker without a task takes the first ready pending one, or parks. */
    method AskForTask(w: Worker)
      requires w < |waiting| && waiting[w].None?
      requires Valid({}, {w})
      modifies this
      ensures Valid({}, {}) && late == {}
      ensures unchanged(`scheduled) && unchanged(`finished) && unchanged(`failed)
      ensures |waiting| == old(|waiting|) && waiting == old(waiting)[w := waiting[w]]
      ensures match waiting[w]
              case Some(task) => FirstReadyRemoved(g, finished, old(pending), task, pending) && free == old(free)
              case None => pending == old(pending) && free == old(free) + [w] &&
                           forall t | t in pending :: !Ready(g, finished, t)
    {
      var task := GetNextUndoneTask(Some(w), {});
      if task.Some? {
        assert V().(scheduled := scheduled + {task.value}) == V();
        GiveValid(g, V(), w, task.value, {}, {});
      } else {
        assert waiting[w := task] == waiting;
      }
      waiting := waiting[w := task];
      ForgetLate();
    }

    /** One iteration of a worker's loop: run the waiting task, mark it, ask for the next one. */
    method TakeTurn(w: Worker, returnValue: int)
      requires Valid({}, {})
      requires w < |waiting| && waiting[w].Some?
      modifies this
      ensures Valid({}, {}) && late == {} && scheduled == old(scheduled)
      ensures old(Ready(g, finished, waiting[w].value) && !V().Ran(waiting[w].value))
      ensures finished == old(finished) + if returnValue == 0 then {old(waiting[w].value)} else {}
      ensures failed == old(failed) + if returnValue != 0 then {old(waiting[w].value)} else {}
      ensures |waiting| == old(|waiting|) && waiting == old(waiting)[w := waiting[w]]
      ensures match waiting[w]
              case Some(task) => FirstReadyRemoved(g, finished, old(pending), task, pending) && free == old(free)
              case None => pending == old(pending) && free == old(free) + [w] &&
                           forall t | t in pending :: !Ready(g, finished, t)
    {
      var t := waiting[w].value;
      assert Some(t) in waiting;
      RunValid(g, V(), w, returnValue == 0);
      waiting := waiting[w := None];
      if returnValue == 0 {
        finished := finished + {t};
      } else {
        failed := failed + {t};
      }
      assert V() == AfterRun(old(V()), w, returnValue == 0);
      assert Inv(g, V(), {}, {w});
      AskForTask(w);
    }

    /** Takes the first ready task from the pending list and hands it on anew. */
    method CheckPendingTasks()
      requires Valid({}, {})
      modifies this
      ensures Valid({}, {}) && late == {}
      ensures if old(exists t :: t in pending && Ready(g, finished, t)) then FirstReadyHandedOn(g, old(V()), V())
              else V() == old(V()).(late := {})
    {
      ghost var before := V();
      var task := GetNextUndoneTask(None, {});
      if task.Some? {
        assert task.value in before.pending && V() == before.(pending := pending);
        SheduleAgain(task.value);
      } else {
        ForgetLate();
      }
    }

    method SheduleAgain(t: Task)
      requires Valid({t}, {}) && Ready(g, finished, t)
      modifies this
      ensures Valid({}, {}) && V() == HandedOn(g, old(V()), t).(late := {})
    {
      ghost var rest := V();
      assert t in scheduled && !g.foreign(t);
      SheduleTask(t, {t}, {});
      assert scheduled + {t} == scheduled && {t} - {t} == {};
      assert V() == HandedOn(g, rest, t);
      BusyAfterHandOn(g, rest, t);
      ForgetLate();
    }

    /** The other scheduler has run a task of its own without error. */
    method SetFinishedElsewhere(t: Task)
      requires Valid({}, {}) && g.foreign(t) && t in scheduled && Ready(g, finished, t)
      modifies this`finished, this`late
      ensures Valid({}, {}) && finished == old(finished) + {t} && late == old(late) + {t}
    {
      FinishedElsewhere(g, V(), t);
      finished := finished + {t};
      late := late + {t};
    }
  }

  /** Performs one call; a worker without a task has no turn. */
  method Perform(s: Scheduler, op: Op, ghost log: seq<Run>) returns (ghost log': seq<Run>)
    requires s.Valid({}, {}) && InOrder(s.g, log) && Recorded(s.finished, s.failed, log)
    modifies s
    ensures s.Valid({}, {}) && InOrder(s.g, log') && Recorded(s.finished, s.failed, log')
    ensures log <= log' && old(s.scheduled) <= s.scheduled && |s.waiting| == old(|s.waiting|)
    ensures op.Submit? ==> op.task in s.scheduled
  {
    log' := log;
    match op
    case Submit(t) =>
      s.ScheduleTask(t, {}, {});
    case Turn(w, returnValue) =>
      if w < |s.waiting| && s.waiting[w].Some? {
        ghost var r := Run(s.waiting[w].value, returnValue);
        assert Some(r.task) in s.waiting;
        Extended(s.g, s.V(), r, log);
        s.TakeTurn(w, returnValue);
        log' := log + [r];
      }
    case Check =>
      s.CheckPendingTasks();
    case FinishElsewhere(t) =>
      if s.g.foreign(t) && t in s.scheduled && t !in s.finished && Ready(s.g, s.finished, t) {
        Extended(s.g, s.V(), Run(t, 0), log);
        s.SetFinishedElsewhere(t);
        log' := log + [Run(t, 0)];
      }
  }

  /**
   Any sequence of calls runs every task at most once and in order of dependence.  Whenever the
   workers are all idle after it, the submitted tasks of this scheduler that were not run have an
   ancestor that accounts for it, and are known exactly if the list was gone through since a task
   last finished elsewhere.
   */
  method Drive(g: Graph, ghost rank: Task -> nat, threadCount: nat, ops: seq<Op>)
    returns (s: Scheduler, ghost log: seq<Run>)
    requires Acyclic(g, rank)
    ensures s.Valid({}, {}) && s.g == g && |s.waiting| == threadCount
    ensures InOrder(g, log) && Recorded(s.finished, s.failed, log)
    ensures forall k | 0 <= k < |ops| && ops[k].Submit? :: ops[k].task in s.scheduled
    ensures threadCount > 0 && s.V().AllIdle() ==> Quiet(g, s.V())
  {
    s := new Scheduler(g, rank, threadCount);
    log := PerformAll(s, ops);
    if threadCount > 0 && s.V().AllIdle() {
      IsQuiet(g, rank, s.V());
    }
  }

  method PerformAll(s: Scheduler, ops: seq<Op>) returns (ghost log: seq<Run>)
    requires s.Valid({}, {}) && s.scheduled == s.finished == s.failed == {}
    modifies s
    ensures s.Valid({}, {}) && |s.waiting| == old(|s.waiting|)
    ensures InOrder(s.g, log) && Recorded(s.finished, s.failed, log)
    ensures forall k | 0 <= k < |ops| && ops[k].Submit? :: ops[k].task in s.scheduled
  {
    if ops == [] {
      return [];
    }
    var n := |ops| - 1;
    log := PerformAll(s, ops[..n]);
    assert forall k | 0 <= k < n :: ops[..n][k] == ops[k];
    log := Perform(s, ops[n], log);
  }

  // ---------------------------------------------------------------- first in, first run

  /** Own tasks without parents, none of them twice. */
  ghost predicate Independent(g: Graph, ts: seq<Task>) {
    Distinct(ts) && forall t | t in ts :: g.parents(t) == [] && !g.foreign(t)
  }

  /** The tasks given to workers so far and those pending are the submitted ones in order; none waits beside a free worker. */
  ghost predicate InTurn(v: View, ts: seq<Task>, given: seq<Task>) {
    && given + v.pending == ts && (v.pending != [] ==> v.free == [])
    && forall t | t in given :: v.Ran(t) || Some(t) in v.waiting
  }

  /** One more task is submitted: to the first free worker, or behind those that wait. */
  method SubmitNext(s: Scheduler, ghost ts: seq<Task>, t: Task, ghost given: seq<Task>)
    returns (ghost given': seq<Task>)
    requires s.Valid({}, {}) && InTurn(s.V(), ts, given)
    requires Independent(s.g, ts + [t]) && s.scheduled == set u | u in ts
    modifies s
    ensures s.Valid({}, {}) && InTurn(s.V(), ts + [t], given') && s.scheduled == set u | u in ts + [t]
    ensures |s.waiting| == old(|s.waiting|)
    ensures if old(s.free) == [] then given' == given
            else given' == given + [t] && old(s.free[0] < |s.waiting|) &&
                 s.waiting == old(s.waiting)[old(s.free[0]) := Some(t)]
  {
    assert t in ts + [t] && (ts + [t])[|ts|] == t;
    assert t !in s.scheduled by {
      assert forall i | 0 <= i < |ts| :: (ts + [t])[i] == ts[i];
    }
    ghost var v := s.V();
    FreeInRange(s.g, v);
    s.ScheduleTask(t, {}, {});
    assert s.V() == HandedOn(s.g, v, t).(scheduled := v.scheduled + {t});
    if v.free != [] {
      given' := given + [t];
      GivenKept(v.waiting, v.free[0], t);
    } else {
      given' := given;
      assert given + (v.pending + [t]) == ts + [t];
    }
  }

  lemma FreeInRange(g: Graph, v: View)
    requires Inv(g, v, {}, {})
    ensures v.free != [] ==> v.free[0] < |v.waiting| && v.waiting[v.free[0]].None?
  {
  }

  lemma GivenKept(ws: seq<Option<Task>>, w: Worker, t: Task)
    requires w < |ws| && ws[w].None?
    ensures forall u | Some(u) in ws || u == t :: Some(u) in ws[w := Some(t)]
  {
    forall u | Some(u) in ws || u == t ensures Some(u) in ws[w := Some(t)] {
      if u == t {
        assert ws[w := Some(t)][w] == Some(t);
      } else {
        var i :| 0 <= i < |ws| && ws[i] == Some(u);
        assert ws[w := Some(t)][i] == Some(u);
      }
    }
  }

  /** A worker ends its task and takes the first one that waits. */
  method NextTurn(s: Scheduler, ghost ts: seq<Task>, w: Worker, returnValue: int, ghost given: seq<Task>)
    returns (ghost given': seq<Task>)
    requires s.Valid({}, {}) && InTurn(s.V(), ts, given) && Independent(s.g, ts)
    requires w < |s.waiting| && s.waiting[w].Some?
    modifies s
    ensures s.Valid({}, {}) && InTurn(s.V(), ts, given') && s.scheduled == old(s.scheduled)
    ensures s.waiting == old(s.waiting)[w := if old(s.pending) == [] then None else Some(old(s.pending[0]))]
    ensures given' == if old(s.pending) == [] then given else given + [old(s.pending[0])]
  {
    ghost var v := s.V();
    s.TakeTurn(w, returnValue);
    given' := AfterTurn(s.g, v, s.V(), ts, w, given);
  }

  /** What TakeTurn ensures of the list and the queue. */
  ghost predicate Asked(g: Graph, v: View, v': View, w: Worker)
    requires w < |v'.waiting|
  {
    match v'.waiting[w]
    case Some(task) => FirstReadyRemoved(g, v'.finished, v.pending, task, v'.pending) && v'.free == v.free
    case None => v'.pending == v.pending && forall t | t in v.pending :: !Ready(g, v'.finished, t)
  }

  lemma TurnTakes(g: Graph, v: View, v': View, ts: seq<Task>, w: Worker, given: seq<Task>)
    requires InTurn(v, ts, given) && Independent(g, ts) && w < |v'.waiting| && Asked(g, v, v', w)
    requires v.pending != []
    ensures v'.waiting[w] == Some(v.pending[0]) && v'.free == []
    ensures given + [v.pending[0]] + v'.pending == ts
  {
    PendingReady(g, v, v'.finished, ts, given);
    FirstTaken(g, v'.finished, v.pending, v'.waiting[w], v'.pending);
    assert v.pending == [v.pending[0]] + v'.pending;
  }

  lemma TurnParks(g: Graph, v: View, v': View, w: Worker)
    requires w < |v'.waiting| && Asked(g, v, v', w) && v.pending == []
    ensures v'.waiting[w].None? && v'.pending == []
  {
  }

  lemma AfterTurn(g: Graph, v: View, v': View, ts: seq<Task>, w: Worker, given: seq<Task>)
    returns (given': seq<Task>)
    requires InTurn(v, ts, given) && Independent(g, ts)
    requires w < |v.waiting| == |v'.waiting| && v.waiting[w].Some? && v'.waiting == v.waiting[w := v'.waiting[w]]
    requires v.finished <= v'.finished && v.failed <= v'.failed && v'.Ran(v.waiting[w].value)
    requires Asked(g, v, v', w)
    ensures InTurn(v', ts, given')
    ensures v'.waiting[w] == if v.pending == [] then None else Some(v.pending[0])
    ensures given' == if v.pending == [] then given else given + [v.pending[0]]
  {
    if v.pending == [] {
      given' := given;
      TurnParks(g, v, v', w);
    } else {
      given' := given + [v.pending[0]];
      TurnTakes(g, v, v', ts, w, given);
    }
    TurnKeeps(v, v', w, given, given');
  }

  lemma PendingReady(g: Graph, v: View, finished: set<Task>, ts: seq<Task>, given: seq<Task>)
    requires InTurn(v, ts, given) && Independent(g, ts)
    ensures forall t | t in v.pending :: Ready(g, finished, t)
  {
    assert forall t | t in v.pending :: t in given + v.pending;
  }

  lemma TurnKeeps(v: View, v': View, w: Worker, given: seq<Task>, given': seq<Task>)
    requires w < |v.waiting| == |v'.waiting| && v.waiting[w].Some? && v'.waiting == v.waiting[w := v'.waiting[w]]
    requires v.finished <= v'.finished && v.failed <= v'.failed && v'.Ran(v.waiting[w].value)
    requires forall t | t in given :: v.Ran(t) || Some(t) in v.waiting
    requires forall t | t in given' :: t in given || v'.waiting[w] == Some(t)
    ensures forall t | t in given' :: v'.Ran(t) || Some(t) in v'.waiting
  {
    forall t | t in given' ensures v'.Ran(t) || Some(t) in v'.waiting {
      if t in given && !v.Ran(t) {
        var i :| 0 <= i < |v.waiting| && v.waiting[i] == Some(t);
        assert i != w ==> v'.waiting[i] == Some(t);
      }
    }
  }

  lemma FirstTaken(g: Graph, finished: set<Task>, before: seq<Task>, taken: Option<Task>, after: seq<Task>)
    requires before != [] && forall t | t in before :: Ready(g, finished, t)
    requires match taken
             case Some(task) => FirstReadyRemoved(g, finished, before, task, after)
             case None => forall t | t in before :: !Ready(g, finished, t)
    ensures taken == Some(before[0]) && after == before[1..]
  {
    assert before[0] in before;
    FirstIs(g, finished, before, taken.value, after);
  }

  /**
   First in, first run: tasks without parents are given to the workers in the order in which they were
   submitted, whichever workers take their turns, and none waits while a worker is free.
   */
  method ServeInOrder(g: Graph, ghost rank: Task -> nat, threadCount: nat, ts: seq<Task>, turns: seq<(Worker, int)>)
    returns (s: Scheduler, ghost given: seq<Task>)
    requires Acyclic(g, rank) && Independent(g, ts)
    ensures s.Valid({}, {}) && s.g == g && |s.waiting| == threadCount
    ensures given + s.pending == ts && (s.pending != [] ==> s.free == [])
    ensures forall t | t in given :: s.V().Ran(t) || Some(t) in s.waiting
  {
    s, given := SubmitAll(g, rank, threadCount, ts);
    var i := 0;
    while i < |turns|
      invariant 0 <= i <= |turns| && fresh(s) && s.g == g && |s.waiting| == threadCount
      invariant s.Valid({}, {}) && InTurn(s.V(), ts, given)
    {
      if turns[i].0 < |s.waiting| && s.waiting[turns[i].0].Some? {
        given := NextTurn(s, ts, turns[i].0, turns[i].1, given);
      }
      i := i + 1;
    }
  }

  method SubmitAll(g: Graph, ghost rank: Task -> nat, threadCount: nat, ts: seq<Task>)
    returns (s: Scheduler, ghost given: seq<Task>)
    requires Acyclic(g, rank) && Independent(g, ts)
    ensures fresh(s) && s.g == g && |s.waiting| == threadCount
    ensures s.Valid({}, {}) && InTurn(s.V(), ts, given) && s.scheduled == set u | u in ts
  {
    if ts == [] {
      s := new Scheduler(g, rank, threadCount);
      NothingPending(g, s.V());
      return s, [];
    }
    var n := |ts| - 1;
    PartIndependent(g, ts, n);
    assert ts == ts[..n] + [ts[n]];
    s, given := SubmitAll(g, rank, threadCount, ts[..n]);
    given := SubmitNext(s, ts[..n], ts[n], given);
  }

  lemma PendingScheduled(g: Graph, v: View, i: nat)
    requires Inv(g, v, {}, {}) && i < |v.pending|
    ensures v.pending[i] in v.scheduled
  {
    assert v.pending[i] in v.pending;
  }

  lemma NothingPending(g: Graph, v: View)
    requires Inv(g, v, {}, {}) && v.scheduled == {}
    ensures v.pending == []
  {
    if v.pending != [] {
      PendingScheduled(g, v, 0);
    }
  }

  lemma PartIndependent(g: Graph, ts: seq<Task>, i: nat)
    requires Independent(g, ts) && i < |ts|
    ensures Independent(g, ts[..i]) && Independent(g, ts[..i] + [ts[i]])
  {
    assert ts[..i + 1] == ts[..i] + [ts[i]];
  }

  /** A check of the pending list while no worker is free puts the first ready task behind all others. */
  lemma CheckPostpones(g: Graph, before: View, after: View)
    requires FirstReadyHandedOn(g, before, after) && before.free == []
    requires before.pending != [] && Ready(g, before.finished, before.pending[0])
    ensures after.pending == before.pending[1..] + [before.pending[0]]
  {
    var task, rest :| FirstReadyRemoved(g, before.finished, before.pending, task, rest)
                      && after == HandedOn(g, before.(pending := rest), task).(late := {});
    FirstIs(g, before.finished, before.pending, task, rest);
  }

  lemma FirstIs(g: Graph, finished: set<Task>, before: seq<Task>, task: Task, after: seq<Task>)
    requires FirstReadyRemoved(g, finished, before, task, after)
    requires before != [] && Ready(g, finished, before[0])
    ensures task == before[0] && after == before[1..]
  {
    var i :| 0 <= i < |before| && before[i] == task && after == before[..i] + before[i + 1..]
             && forall k | 0 <= k < i :: !Ready(g, finished, before[k]);
    assert i == 0;
  }

  /** Task 1 waits for task 0, which belongs to the other scheduler. */
  function AcrossSchedulers(): Graph {
    Graph((t: Task) => if t == 1 then [Some(0)] else [], (t: Task) => t == 0)
  }

  /** A task with a foreign parent is submitted, and its parent with it. */
  method SubmitsAcross() returns (s: Scheduler)
    ensures fresh(s) && s.Valid({}, {}) && s.g == AcrossSchedulers()
    ensures s.pending == [1] && s.waiting == [None] && s.finished == {} && s.failed == {}
    ensures 0 in s.scheduled && s.scheduled <= {0, 1}
  {
    var g := AcrossSchedulers();
    assert g.parents(1) == [Some(0)] && g.parents(0) == [];
    s := new Scheduler(g, (t: Task) => t, 1);
    s.ScheduleTask(1, {}, {});
    OneWaits(s.V());
  }

  /** Without a check of the pending list, it stays there although the foreign task has finished. */
  method WaitsForCheck() returns (s: Scheduler)
    ensures fresh(s) && s.Valid({}, {}) && s.pending == [1] && s.free == [0] && s.waiting == [None]
    ensures Ready(s.g, s.finished, 1)
  {
    s := SubmitsAcross();
    s.SetFinishedElsewhere(0);
    OneWaits(s.V());
  }

  lemma OneWaits(v: View)
    requires Inv(AcrossSchedulers(), v, {}, {}) && 1 in v.scheduled && v.scheduled <= {0, 1}
    requires |v.waiting| == 1 && 1 !in v.finished && v.failed == {} && Some(1) !in v.waiting
    ensures 0 in v.scheduled && v.pending == [1] && v.free == [0] && v.waiting == [None]
  {
    var g := AcrossSchedulers();
    assert g.parents(1) == [Some(0)] && IsParent(g, 0, 1);
    assert forall t: Task | t in v.pending || Some(t) in v.waiting :: t == 1;
    assert v.waiting[0] in v.waiting;
    OnlyElement(v.pending, 1);
    OnlyElement(v.free, 0);
  }

  /** The check gives it to the idle worker. */
  method CheckHelps() returns (s: Scheduler)
    ensures s.Valid({}, {}) && s.pending == [] && s.waiting == [Some(1)]
  {
    s := WaitsForCheck();
    assert 1 in s.pending;
    s.CheckPendingTasks();
  }

  /** The state after a task was given to the first free worker, or appended. */
  ghost function HandedOn(g: Graph, v: View, t: Task): View {
    if Ready(g, v.finished, t) && v.free != [] && v.free[0] < |v.waiting| then
      v.(waiting := v.waiting[v.free[0] := Some(t)], free := v.free[1..])
    else
      v.(pending := v.pending + [t])
  }

  ghost predicate FirstReadyHandedOn(g: Graph, before: View, after: View) {
    exists task, rest ::
      FirstReadyRemoved(g, before.finished, before.pending, task, rest) && after == HandedOn(g, before.(pending := rest), task).(late := {})
  }

  ghost function Asking(me: Option<Worker>): set<Worker> {
    if me.Some? then {me.value} else {}
  }

  /** task was the first ready one of the list before, and is the only one missing after. */
  ghost predicate FirstReadyRemoved(g: Graph, finished: set<Task>, before: seq<Task>, task: Task, after: seq<Task>) {
    exists i | 0 <= i < |before| ::
      && before[i] == task && Ready(g, finished, task)
      && after == before[..i] + before[i + 1..]
      && forall k | 0 <= k < i :: !Ready(g, finished, before[k])
  }
}
