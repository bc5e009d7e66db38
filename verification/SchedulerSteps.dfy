/**
 The task scheduler as a protocol of threads: every step is one action under one lock, and any
 number of submitting threads and workers take their steps in any order.

 A worker owns its mutex from the moment it is woken until its thread function returns, so
 setNewTask waits for that; the signal that follows it is a step of its own.
 */
module SchedulerSteps {
  import opened Sequences
  import opened Wrappers
  import opened TaskScheduler

  // ---------------------------------------------------------------- states

  /**
   Where a submitting thread is. `flag` tells whether it came through scheduleTask, which sets the
   scheduled flag at the end, or through checkPendingTasks, which does not.
   */
  datatype Caller =
    | Outside
    | Looking                                             // scanning for checkPendingTasks
    | Guarded(task: Task, flag: bool)                     // found the task not yet scheduled
    | Able(task: Task, flag: bool)                        // all parents have finished
    | Unable(task: Task, flag: bool)                      // a parent had not, or no worker is free
    | Claimed(task: Task, flag: bool, worker: Worker)     // has taken a worker from the free queue
    | Signalling(task: Task, flag: bool, worker: Worker)  // has filled the worker's slot
    | Flagging(task: Task, flag: bool)                    // the task has been handed on

  /** Where a worker thread is in Thread::run and its thread function. */
  datatype Place =
    | Between        // owns no lock and is not yet waiting
    | Waiting        // in condition.wait
    | Woken          // signalled, wants its mutex back
    | Testing        // at the loop test
    | Running        // inside run()
    | Asking         // has run its task, is in getNextUndoneTask
    | Fetched(task: Task)  // found a pending task
    | Empty          // found none
    | Parked         // has joined the free queue, slot not yet cleared

  datatype WorkerState = WorkerState(place: Place, slot: Option<Task>)

  datatype Agent = Thread(worker: Worker) | Client(caller: nat)
  datatype Scan = NoScan | ScanBy(agent: Agent, next: nat)

  datatype State = State(
    callers: seq<Caller>,
    workers: seq<WorkerState>,
    pending: seq<Task>,
    free: seq<Worker>,
    scan: Scan,                  // who goes through the pending list
    scheduled: set<Task>,
    finished: set<Task>,
    submitted: multiset<Task>,   // one for every submission that passed the guard
    done: multiset<Task>         // one for every run
  )

  function Ids(n: nat): seq<Worker> {
    if n == 0 then [] else Ids(n - 1) + [n - 1]
  }

  function Init(workers: nat, callers: nat): State {
    State(seq(callers, _ => Outside), seq(workers, _ => WorkerState(Between, None)), [],
          Ids(workers), NoScan, {}, {}, multiset{}, multiset{})
  }

  // ---------------------------------------------------------------- steps

  datatype Step =
    | Guard(c: nat, t: Task)
    | FinishElsewhere(t: Task)  // another scheduler sets the finished flag of a task of its own
    | BeginLook(c: nat)
    | BeginAsk(w: Worker)
    | ScanOne
    | CheckParents(c: nat)
    | PopFree(c: nat)
    | Append(c: nat)
    | SetNewTask(c: nat)
    | Signal(c: nat)
    | SetFlag(c: nat)
    | Wake(w: Worker)
    | Test(w: Worker)
    | Finish(w: Worker, returnValue: int)
    | Push(w: Worker)
    | Assign(w: Worker)
    | Wait(w: Worker)

  predicate OwnsMutex(p: Place) {
    !p.Between? && !p.Waiting? && !p.Woken?
  }

  predicate ScannerExists(s: State)
    requires s.scan.ScanBy?
  {
    match s.scan.agent
    case Thread(w) => w < |s.workers|
    case Client(c) => c < |s.callers|
  }

  predicate Enabled(s: State, step: Step) {
    match step
    case Guard(c, t) => c < |s.callers| && s.callers[c].Outside? && t !in s.scheduled
    case FinishElsewhere(_) => true
    case BeginLook(c) => c < |s.callers| && s.callers[c].Outside? && s.scan.NoScan?
    case BeginAsk(w) => w < |s.workers| && s.workers[w].place.Asking? && s.scan.NoScan?
    case ScanOne => s.scan.ScanBy? && ScannerExists(s)
    case CheckParents(c) => c < |s.callers| && s.callers[c].Guarded?
    case PopFree(c) => c < |s.callers| && s.callers[c].Able?
    case Append(c) => c < |s.callers| && s.callers[c].Unable?
    case SetNewTask(c) => c < |s.callers| && s.callers[c].Claimed? && s.callers[c].worker < |s.workers|
                          && !OwnsMutex(s.workers[s.callers[c].worker].place)
    case Signal(c) => c < |s.callers| && s.callers[c].Signalling? && s.callers[c].worker < |s.workers|
    case SetFlag(c) => c < |s.callers| && s.callers[c].Flagging?
    case Wake(w) => w < |s.workers| && s.workers[w].place.Woken?
    case Test(w) => w < |s.workers| && s.workers[w].place.Testing?
    case Finish(w, _) => w < |s.workers| && s.workers[w].place.Running? && s.workers[w].slot.Some?
    case Push(w) => w < |s.workers| && s.workers[w].place.Empty?
    case Assign(w) => w < |s.workers| && (s.workers[w].place.Fetched? || s.workers[w].place.Parked?)
    case Wait(w) => w < |s.workers| && s.workers[w].place.Between?
  }

  function WithCaller(s: State, c: nat, pc: Caller): State
    requires c < |s.callers|
  {
    s.(callers := s.callers[c := pc])
  }

  function WithPlace(s: State, w: Worker, p: Place): State
    requires w < |s.workers|
  {
    s.(workers := s.workers[w := s.workers[w].(place := p)])
  }

  /** One look at the pending list: take the task there if it is ready, else go on. */
  function ScanStep(g: Graph, s: State): State
    requires Enabled(s, ScanOne)
  {
    var i := s.scan.next;
    if i < |s.pending| && !Ready(g, s.finished, s.pending[i]) then
      s.(scan := ScanBy(s.scan.agent, i + 1))
    else if i < |s.pending| then
      var taken := s.(scan := NoScan, pending := s.pending[..i] + s.pending[i + 1..]);
      match s.scan.agent
      case Thread(w) => WithPlace(taken, w, Fetched(s.pending[i]))
      case Client(c) => WithCaller(taken, c, Guarded(s.pending[i], false))
    else
      var none := s.(scan := NoScan);
      match s.scan.agent
      case Thread(w) => WithPlace(none, w, Empty)
      case Client(c) => WithCaller(none, c, Outside)
  }

  /** A foreign task that is submitted goes to its own scheduler, so nothing happens here. */
  function Apply(g: Graph, s: State, step: Step): State
    requires Enabled(s, step)
  {
    match step
    case Guard(c, t) =>
      if g.foreign(t) then s else WithCaller(s, c, Guarded(t, true)).(submitted := s.submitted + multiset{t})
    case FinishElsewhere(t) =>
      if g.foreign(t) && Ready(g, s.finished, t) then s.(finished := s.finished + {t}) else s
    case BeginLook(c) => WithCaller(s, c, Looking).(scan := ScanBy(Client(c), 0))
    case BeginAsk(w) => s.(scan := ScanBy(Thread(w), 0))
    case ScanOne => ScanStep(g, s)
    case CheckParents(c) =>
      var t, flag := s.callers[c].task, s.callers[c].flag;
      WithCaller(s, c, if Ready(g, s.finished, t) then Able(t, flag) else Unable(t, flag))
    case PopFree(c) =>
      var t, flag := s.callers[c].task, s.callers[c].flag;
      if |s.free| > 0 then WithCaller(s, c, Claimed(t, flag, s.free[0])).(free := s.free[1..])
      else WithCaller(s, c, Unable(t, flag))
    case Append(c) =>
      var t, flag := s.callers[c].task, s.callers[c].flag;
      WithCaller(s, c, Flagging(t, flag)).(pending := s.pending + [t])
    case SetNewTask(c) =>
      var Claimed(t, flag, w) := s.callers[c];
      WithCaller(s, c, Signalling(t, flag, w)).(
        workers := s.workers[w := s.workers[w].(slot := Some(t))])
    case Signal(c) =>
      var Signalling(t, flag, w) := s.callers[c];
      var s' := WithCaller(s, c, Flagging(t, flag));
      if s.workers[w].place.Waiting? then WithPlace(s', w, Woken) else s'
    case SetFlag(c) =>
      var Flagging(t, flag) := s.callers[c];
      WithCaller(s, c, Outside).(scheduled := if flag then s.scheduled + {t} else s.scheduled)
    case Wake(w) => WithPlace(s, w, Testing)
    case Test(w) => WithPlace(s, w, if s.workers[w].slot.Some? then Running else Between)
    case Finish(w, returnValue) =>
      var t := s.workers[w].slot.value;
      WithPlace(s, w, Asking).(
        finished := if returnValue == 0 then s.finished + {t} else s.finished,
        done := s.done + multiset{t})
    case Push(w) => WithPlace(s, w, Parked).(free := s.free + [w])
    case Assign(w) =>
      var slot := if s.workers[w].place.Fetched? then Some(s.workers[w].place.task) else None;
      s.(workers := s.workers[w := WorkerState(Testing, slot)])
    case Wait(w) => WithPlace(s, w, Waiting)
  }

  /**
   One thread at a time goes through the pending list: until it has found a ready task or reached the
   end, nobody else begins, the part that it has seen stays as it is, and it passes no ready task by.
   */
  lemma OneScanner(g: Graph, s: State, step: Step)
    requires Enabled(s, step) && s.scan.ScanBy?
    ensures var s', i := Apply(g, s, step), s.scan.next;
            var found := i < |s.pending| && Ready(g, s.finished, s.pending[i]);
            && (step != ScanOne ==> s'.scan == s.scan && s.pending <= s'.pending)
            && (step == ScanOne && i < |s.pending| && !found ==>
                  s'.scan == ScanBy(s.scan.agent, i + 1) && s'.pending == s.pending)
            && (step == ScanOne && (found || i >= |s.pending|) ==> s'.scan == NoScan)
            && (step == ScanOne && found ==> s.pending == s'.pending[..i] + [s.pending[i]] + s'.pending[i..])
  {
    if step == ScanOne && s.scan.next < |s.pending| {
      var i := s.scan.next;
      assert s.pending == s.pending[..i] + [s.pending[i]] + s.pending[i + 1..];
    }
  }

  // ---------------------------------------------------------------- where tasks and workers are

  /** The sum of f(x, b) over the elements x of s. */
  function Count<A, B>(s: seq<A>, f: (A, B) -> nat, b: B): nat {
    if s == [] then 0 else f(s[0], b) + Count(s[1..], f, b)
  }

  lemma {:induction false} CountUpdate<A, B>(s: seq<A>, i: nat, x: A, f: (A, B) -> nat, b: B)
    requires i < |s|
    ensures Count(s[i := x], f, b) + f(s[i], b) == Count(s, f, b) + f(x, b)
  {
    if i == 0 {
      assert s[0 := x][1..] == s[1..];
    } else {
      assert s[i := x][1..] == s[1..][i - 1 := x];
      CountUpdate(s[1..], i - 1, x, f, b);
    }
  }

  lemma {:induction false} CountAt<A, B>(s: seq<A>, i: nat, f: (A, B) -> nat, b: B)
    requires i < |s|
    ensures f(s[i], b) <= Count(s, f, b)
  {
    if i > 0 {
      CountAt(s[1..], i - 1, f, b);
    }
  }

  lemma {:induction false} CountZero<A, B>(s: seq<A>, f: (A, B) -> nat, b: B)
    requires forall i | 0 <= i < |s| :: f(s[i], b) == 0
    ensures Count(s, f, b) == 0
  {
    if s != [] {
      CountZero(s[1..], f, b);
    }
  }

  lemma {:induction false} CountPositive<A, B>(s: seq<A>, f: (A, B) -> nat, b: B) returns (i: nat)
    requires Count(s, f, b) > 0
    ensures i < |s| && f(s[i], b) > 0
  {
    if f(s[0], b) > 0 {
      i := 0;
    } else {
      i := CountPositive(s[1..], f, b);
      i := i + 1;
    }
  }

  function One(b: bool): nat {
    if b then 1 else 0
  }

  function Is<T(==)>(x: T, y: T): nat {
    One(x == y)
  }

  /** The task is in the caller's hand. */
  function HandOf(c: Caller, t: Task): nat {
    One((c.Guarded? || c.Able? || c.Unable? || c.Claimed?) && c.task == t)
  }

  /** The worker holds the task and has yet to run it. */
  function TaskOf(w: WorkerState, t: Task): nat {
    match w.place
    case Fetched(task) => One(task == t)
    case Asking => 0
    case Empty => 0
    case Parked => 0
    case _ => One(w.slot == Some(t))
  }

  function ClaimOf(c: Caller, w: Worker): nat {
    One(c.Claimed? && c.worker == w)
  }

  function SignalOf(c: Caller, w: Worker): nat {
    One(c.Signalling? && c.worker == w)
  }

  /** A submission of the task is in progress that will set its flag. */
  function FlagOf(c: Caller, t: Task): nat {
    One(!c.Outside? && !c.Looking? && c.flag && c.task == t)
  }

  /** A worker that has joined the free queue and has not been given a task since. */
  predicate IsIdle(w: WorkerState) {
    w.place.Parked? || ((w.place.Testing? || w.place.Between? || w.place.Waiting?) && w.slot.None?)
  }

  /** A worker that has been given a task and has not been woken for it. */
  predicate IsGiven(w: WorkerState) {
    (w.place.Between? || w.place.Waiting?) && w.slot.Some?
  }

  function Idle(s: State, w: Worker): nat {
    One(w < |s.workers| && IsIdle(s.workers[w]))
  }

  function Given(s: State, w: Worker): nat {
    One(w < |s.workers| && IsGiven(s.workers[w]))
  }

  // ---------------------------------------------------------------- the invariant

  /** The number of places in which the task is: hands, pending list, workers, runs. */
  function Places(s: State, t: Task): nat {
    Count(s.callers, HandOf, t) + Count(s.pending, Is, t) + Count(s.workers, TaskOf, t) + s.done[t]
  }

  /** No submission is lost or doubled. */
  ghost predicate Conserved(s: State) {
    forall t: Task :: s.submitted[t] == Places(s, t)
  }

  /** Every idle worker is once in the free queue or claimed by one caller, and no other worker is. */
  ghost predicate WorkersQueued(s: State) {
    forall w: Worker :: Count(s.free, Is, w) + Count(s.callers, ClaimOf, w) == Idle(s, w)
  }

  /** At most one signal is due to a worker, and only while it has a task and was not woken. */
  ghost predicate SignalsDue(s: State) {
    forall w: Worker :: Count(s.callers, SignalOf, w) <= Given(s, w)
  }

  ghost predicate SlotsFilled(s: State) {
    forall w | 0 <= w < |s.workers| ::
      s.workers[w].place.Woken? || s.workers[w].place.Running? ==> s.workers[w].slot.Some?
  }

  /** Tasks on their way to a worker or held by one have only parents in finished. */
  ghost predicate HoldersReady(g: Graph, finished: set<Task>, callers: seq<Caller>, workers: seq<WorkerState>) {
    && (forall c | 0 <= c < |callers| && (callers[c].Able? || callers[c].Claimed?) ::
          Ready(g, finished, callers[c].task))
    && (forall w, t | 0 <= w < |workers| && TaskOf(workers[w], t) > 0 :: Ready(g, finished, t))
  }

  /** And so have tasks that were run. */
  ghost predicate RunsReady(g: Graph, s: State) {
    && (forall t | t in s.done :: Ready(g, s.finished, t))
    && (forall t | t in s.finished :: Ready(g, s.finished, t) && (t in s.done || g.foreign(t)))
  }

  ghost predicate OnlyReady(g: Graph, s: State) {
    HoldersReady(g, s.finished, s.callers, s.workers) && RunsReady(g, s)
  }

  /** A task with a submission has its flag set, or a caller is about to set it. */
  ghost predicate FlagsComing(s: State) {
    && (forall t | t in s.scheduled :: t in s.submitted)
    && (forall t | t in s.submitted :: t in s.scheduled || Count(s.callers, FlagOf, t) > 0)
    && (forall t: Task :: Count(s.callers, FlagOf, t) <= s.submitted[t])
  }

  ghost predicate ScanSound(s: State) {
    s.scan.ScanBy? ==>
      match s.scan.agent
      case Thread(w) => w < |s.workers| && s.workers[w].place.Asking?
      case Client(c) => c < |s.callers| && s.callers[c].Looking?
  }

  ghost predicate Inv(g: Graph, s: State) {
    && Conserved(s) && WorkersQueued(s) && SignalsDue(s) && SlotsFilled(s)
    && OnlyReady(g, s) && FlagsComing(s) && ScanSound(s)
  }

  // ---------------------------------------------------------------- a step moves one caller and one worker

  /** The caller that a step moves. */
  function CallerOf(s: State, step: Step): Option<nat> {
    match step
    case Guard(c, _) => Some(c)
    case BeginLook(c) => Some(c)
    case ScanOne => if s.scan.ScanBy? && s.scan.agent.Client? then Some(s.scan.agent.caller) else None
    case CheckParents(c) => Some(c)
    case PopFree(c) => Some(c)
    case Append(c) => Some(c)
    case SetNewTask(c) => Some(c)
    case Signal(c) => Some(c)
    case SetFlag(c) => Some(c)
    case _ => None
  }

  /** The worker that a step moves. */
  function WorkerOf(s: State, step: Step): Option<Worker> {
    match step
    case ScanOne => if s.scan.ScanBy? && s.scan.agent.Thread? then Some(s.scan.agent.worker) else None
    case SetNewTask(c) => if c < |s.callers| && s.callers[c].Claimed? then Some(s.callers[c].worker) else None
    case Signal(c) => if c < |s.callers| && s.callers[c].Signalling? then Some(s.callers[c].worker) else None
    case Wake(w) => Some(w)
    case Test(w) => Some(w)
    case Finish(w, _) => Some(w)
    case Push(w) => Some(w)
    case Assign(w) => Some(w)
    case Wait(w) => Some(w)
    case _ => None
  }

  /** s' differs from s in at most the caller c and the worker w. */
  ghost predicate OnlyMoves(s: State, s': State, c: Option<nat>, w: Option<Worker>) {
    && (c.Some? ==> c.value < |s.callers| == |s'.callers|)
    && (w.Some? ==> w.value < |s.workers| == |s'.workers|)
    && s'.callers == (if c.Some? then s.callers[c.value := s'.callers[c.value]] else s.callers)
    && s'.workers == (if w.Some? then s.workers[w.value := s'.workers[w.value]] else s.workers)
  }

  lemma StepMoves(g: Graph, s: State, step: Step)
    requires Enabled(s, step)
    ensures OnlyMoves(s, Apply(g, s, step), CallerOf(s, step), WorkerOf(s, step))
  {
  }

  function CallerAt(s: State, c: Option<nat>): Caller {
    if c.Some? && c.value < |s.callers| then s.callers[c.value] else Outside
  }

  function WorkerAt(s: State, w: Option<Worker>): WorkerState {
    if w.Some? && w.value < |s.workers| then s.workers[w.value] else WorkerState(Between, None)
  }

  lemma CallerCount<B>(s: State, s': State, c: Option<nat>, w: Option<Worker>, f: (Caller, B) -> nat, b: B)
    requires OnlyMoves(s, s', c, w)
    ensures Count(s'.callers, f, b) + f(CallerAt(s, c), b) == Count(s.callers, f, b) + f(CallerAt(s', c), b)
  {
    if c.Some? {
      CountUpdate(s.callers, c.value, s'.callers[c.value], f, b);
    }
  }

  lemma WorkerCount(s: State, s': State, c: Option<nat>, w: Option<Worker>, t: Task)
    requires OnlyMoves(s, s', c, w)
    ensures Count(s'.workers, TaskOf, t) + TaskOf(WorkerAt(s, w), t)
         == Count(s.workers, TaskOf, t) + TaskOf(WorkerAt(s', w), t)
  {
    if w.Some? {
      CountUpdate(s.workers, w.value, s'.workers[w.value], TaskOf, t);
    }
  }

  lemma {:induction false} CountAppend<A, B>(s: seq<A>, x: A, f: (A, B) -> nat, b: B)
    ensures Count(s + [x], f, b) == Count(s, f, b) + f(x, b)
  {
    if s == [] {
      assert s + [x] == [x] && [x][1..] == [];
      assert Count([x], f, b) == f(x, b) + Count([], f, b);
    } else {
      assert (s + [x])[1..] == s[1..] + [x] && (s + [x])[0] == s[0];
      CountAppend(s[1..], x, f, b);
    }
  }

  lemma {:induction false} CountRemove<A, B>(s: seq<A>, i: nat, f: (A, B) -> nat, b: B)
    requires i < |s|
    ensures Count(s[..i] + s[i + 1..], f, b) + f(s[i], b) == Count(s, f, b)
  {
    var r := s[..i] + s[i + 1..];
    if i == 0 {
      assert r == s[1..];
    } else {
      assert r[1..] == s[1..][..i - 1] + s[1..][i..] && r[0] == s[0];
      CountRemove(s[1..], i - 1, f, b);
    }
  }

  /** A claimed worker is idle, so its slot is empty when the caller fills it. */
  lemma ClaimedIsIdle(s: State, c: nat)
    requires WorkersQueued(s) && c < |s.callers| && s.callers[c].Claimed?
    ensures s.callers[c].worker < |s.workers| && IsIdle(s.workers[s.callers[c].worker])
  {
    var w := s.callers[c].worker;
    CountAt(s.callers, c, ClaimOf, w);
    assert Count(s.free, Is, w) + Count(s.callers, ClaimOf, w) == Idle(s, w);
  }

  // ---------------------------------------------------------------- every step keeps the invariant

  /** What the invariant says about the caller and the worker that the step moves. */
  ghost predicate Sane(s: State, step: Step)
    requires Enabled(s, step)
  {
    match step
    case ScanOne => ScanSound(s)
    case SetNewTask(c) => IsIdle(s.workers[s.callers[c].worker])
    case Signal(c) => IsGiven(s.workers[s.callers[c].worker])
    case Wake(w) => s.workers[w].slot.Some?
    case _ => true
  }

  lemma InvSane(g: Graph, s: State, step: Step)
    requires Inv(g, s) && Enabled(s, step)
    ensures Sane(s, step)
  {
    match step
    case SetNewTask(c) =>
      ClaimedIsIdle(s, c);
    case Signal(c) =>
      CountAt(s.callers, c, SignalOf, s.callers[c].worker);
    case _ =>
  }

  /** What the moved pieces hold of the task t balances. */
  ghost predicate TasksBalance(s: State, s': State, c: Option<nat>, w: Option<Worker>, t: Task) {
    s'.submitted[t] + HandOf(CallerAt(s, c), t) + Count(s.pending, Is, t) + TaskOf(WorkerAt(s, w), t) + s.done[t] ==
    s.submitted[t] + HandOf(CallerAt(s', c), t) + Count(s'.pending, Is, t) + TaskOf(WorkerAt(s', w), t) + s'.done[t]
  }

  lemma ScanTasksBalance(g: Graph, s: State, t: Task)
    requires Enabled(s, ScanOne) && ScanSound(s)
    ensures TasksBalance(s, Apply(g, s, ScanOne), CallerOf(s, ScanOne), WorkerOf(s, ScanOne), t)
  {
    if s.scan.next < |s.pending| {
      CountRemove(s.pending, s.scan.next, Is, t);
    }
  }

  lemma CallerTasksBalance(g: Graph, s: State, step: Step, t: Task)
    requires Enabled(s, step) && Sane(s, step)
    requires CallerOf(s, step).Some? && !step.ScanOne?
    ensures TasksBalance(s, Apply(g, s, step), CallerOf(s, step), WorkerOf(s, step), t)
  {
    if step.Append? {
      CountAppend(s.pending, s.callers[step.c].task, Is, t);
    }
  }

  lemma StepTasksBalance(g: Graph, s: State, step: Step, t: Task)
    requires Enabled(s, step) && Sane(s, step)
    ensures TasksBalance(s, Apply(g, s, step), CallerOf(s, step), WorkerOf(s, step), t)
  {
    if step.ScanOne? {
      ScanTasksBalance(g, s, t);
    } else if CallerOf(s, step).Some? {
      CallerTasksBalance(g, s, step, t);
    }
  }

  /** The moved pieces' hold on the worker v balances. */
  ghost predicate QueueBalances(s: State, s': State, c: Option<nat>, v: Worker) {
    Count(s'.free, Is, v) + ClaimOf(CallerAt(s', c), v) + Idle(s, v) ==
    Count(s.free, Is, v) + ClaimOf(CallerAt(s, c), v) + Idle(s', v)
  }

  lemma WorkerQueueBalances(g: Graph, s: State, step: Step, v: Worker)
    requires Enabled(s, step) && Sane(s, step) && CallerOf(s, step).None?
    ensures QueueBalances(s, Apply(g, s, step), CallerOf(s, step), v)
  {
    if step.Push? {
      CountAppend(s.free, step.w, Is, v);
    }
  }

  lemma StepQueueBalances(g: Graph, s: State, step: Step, v: Worker)
    requires Enabled(s, step) && Sane(s, step)
    ensures QueueBalances(s, Apply(g, s, step), CallerOf(s, step), v)
  {
    if CallerOf(s, step).None? {
      WorkerQueueBalances(g, s, step, v);
    }
  }

  /** A caller gains a signal only with a worker that gets a task, a worker is woken only by one. */
  ghost predicate SignalsBalance(s: State, s': State, c: Option<nat>, v: Worker) {
    SignalOf(CallerAt(s', c), v) + Given(s, v) <= SignalOf(CallerAt(s, c), v) + Given(s', v)
  }

  lemma StepSignalsBalance(g: Graph, s: State, step: Step, v: Worker)
    requires Enabled(s, step) && Sane(s, step)
    ensures SignalsBalance(s, Apply(g, s, step), CallerOf(s, step), v)
  {
  }

  lemma KeepsCounts(g: Graph, s: State, step: Step)
    requires Inv(g, s) && Enabled(s, step)
    ensures var s' := Apply(g, s, step); Conserved(s') && WorkersQueued(s') && SignalsDue(s')
  {
    var s' := Apply(g, s, step);
    var c, w := CallerOf(s, step), WorkerOf(s, step);
    StepMoves(g, s, step);
    InvSane(g, s, step);
    forall t: Task ensures s'.submitted[t] == Places(s', t) {
      StepTasksBalance(g, s, step, t);
      CallerCount(s, s', c, w, HandOf, t);
      WorkerCount(s, s', c, w, t);
    }
    forall v: Worker ensures Count(s'.free, Is, v) + Count(s'.callers, ClaimOf, v) == Idle(s', v) {
      StepQueueBalances(g, s, step, v);
      CallerCount(s, s', c, w, ClaimOf, v);
    }
    forall v: Worker ensures Count(s'.callers, SignalOf, v) <= Given(s', v) {
      StepSignalsBalance(g, s, step, v);
      CallerCount(s, s', c, w, SignalOf, v);
    }
  }

  lemma KeepsSlotsFilled(g: Graph, s: State, step: Step)
    requires SlotsFilled(s) && Enabled(s, step) && Sane(s, step)
    ensures SlotsFilled(Apply(g, s, step))
  {
    StepMoves(g, s, step);
  }

  lemma KeepsScanSound(g: Graph, s: State, step: Step)
    requires ScanSound(s) && Enabled(s, step)
    ensures ScanSound(Apply(g, s, step))
  {
    if CallerOf(s, step).None? {
      WorkerKeepsScanSound(g, s, step);
    }
  }

  lemma WorkerKeepsScanSound(g: Graph, s: State, step: Step)
    requires ScanSound(s) && Enabled(s, step) && CallerOf(s, step).None?
    ensures ScanSound(Apply(g, s, step))
  {
  }

  /** A caller or worker that holds a task after the step either held it before or checked it. */
  lemma NewCallerReady(g: Graph, s: State, step: Step)
    requires OnlyReady(g, s) && Enabled(s, step) && CallerOf(s, step).Some?
    ensures var pc := CallerAt(Apply(g, s, step), CallerOf(s, step));
            pc.Able? || pc.Claimed? ==> Ready(g, s.finished, pc.task)
  {
  }

  lemma NewWorkerReady(g: Graph, s: State, step: Step, t: Task)
    requires OnlyReady(g, s) && Enabled(s, step) && Sane(s, step) && WorkerOf(s, step).Some?
    requires TaskOf(WorkerAt(Apply(g, s, step), WorkerOf(s, step)), t) > 0
    ensures Ready(g, s.finished, t)
  {
    var w := WorkerOf(s, step);
    assert TaskOf(WorkerAt(s, w), t) > 0 ==> Ready(g, s.finished, t);
  }

  lemma FinishedAndDone(g: Graph, s: State, step: Step)
    requires Enabled(s, step)
    ensures var s' := Apply(g, s, step);
            if step.Finish? then
              && s'.done == s.done + multiset{s.workers[step.w].slot.value}
              && s.finished <= s'.finished <= s.finished + {s.workers[step.w].slot.value}
            else
              && s'.done == s.done
              && s.finished <= s'.finished
              && forall t | t in s'.finished :: t in s.finished || g.foreign(t)
  {
  }

  lemma KeepsHoldersReady(g: Graph, s: State, step: Step)
    requires OnlyReady(g, s) && Enabled(s, step) && Sane(s, step)
    ensures var s' := Apply(g, s, step); HoldersReady(g, s.finished, s'.callers, s'.workers)
  {
    var s' := Apply(g, s, step);
    StepMoves(g, s, step);
    forall c | 0 <= c < |s'.callers| && (s'.callers[c].Able? || s'.callers[c].Claimed?)
      ensures Ready(g, s.finished, s'.callers[c].task)
    {
      if CallerOf(s, step) == Some(c) {
        NewCallerReady(g, s, step);
      }
    }
    forall w, t | 0 <= w < |s'.workers| && TaskOf(s'.workers[w], t) > 0
      ensures Ready(g, s.finished, t)
    {
      if WorkerOf(s, step) == Some(w) {
        NewWorkerReady(g, s, step, t);
      }
    }
  }

  lemma ReadyMonotone(g: Graph, finished: set<Task>, more: set<Task>, callers: seq<Caller>, workers: seq<WorkerState>)
    requires finished <= more && HoldersReady(g, finished, callers, workers)
    ensures HoldersReady(g, more, callers, workers)
  {
    forall w, t | 0 <= w < |workers| && TaskOf(workers[w], t) > 0 ensures Ready(g, more, t) {
      assert Ready(g, finished, t);
    }
  }

  lemma KeepsOnlyReady(g: Graph, s: State, step: Step)
    requires OnlyReady(g, s) && Enabled(s, step) && Sane(s, step)
    ensures OnlyReady(g, Apply(g, s, step))
  {
    var s' := Apply(g, s, step);
    FinishedAndDone(g, s, step);
    KeepsHoldersReady(g, s, step);
    ReadyMonotone(g, s.finished, s'.finished, s'.callers, s'.workers);
    if step.Finish? {
      assert TaskOf(s.workers[step.w], s.workers[step.w].slot.value) > 0;
    }
    forall t | t in s'.done ensures Ready(g, s'.finished, t) {
      assert Ready(g, s.finished, t);
    }
  }

  /** A flag is set by a caller that was about to, and a submission starts with such a caller. */
  ghost predicate FlagsBalance(s: State, s': State, c: Option<nat>, t: Task) {
    var before, after := FlagOf(CallerAt(s, c), t), FlagOf(CallerAt(s', c), t);
    && s.scheduled <= s'.scheduled && s.submitted <= s'.submitted
    && (t !in s'.scheduled ==> after >= before + (s'.submitted[t] - s.submitted[t]))
    && after + s.submitted[t] <= before + s'.submitted[t]
    && (t in s'.scheduled && t !in s.scheduled ==> before > 0)
  }

  lemma KeepsFlagsComing(g: Graph, s: State, step: Step)
    requires FlagsComing(s) && Enabled(s, step) && Sane(s, step)
    ensures FlagsComing(Apply(g, s, step))
  {
    var s' := Apply(g, s, step);
    var c := CallerOf(s, step);
    StepMoves(g, s, step);
    forall t: Task
      ensures Count(s'.callers, FlagOf, t) <= s'.submitted[t]
      ensures t in s'.scheduled ==> t in s'.submitted
      ensures t in s'.submitted ==> t in s'.scheduled || Count(s'.callers, FlagOf, t) > 0
    {
      FlagBalance(g, s, step, t);
      CallerCount(s, s', c, WorkerOf(s, step), FlagOf, t);
    }
  }

  lemma FlagBalance(g: Graph, s: State, step: Step, t: Task)
    requires Enabled(s, step) && Sane(s, step)
    ensures var s' := Apply(g, s, step); FlagsBalance(s, s', CallerOf(s, step), t)
  {
    if CallerOf(s, step).Some? {
      CallerFlagBalance(g, s, step, t);
    }
  }

  lemma CallerFlagBalance(g: Graph, s: State, step: Step, t: Task)
    requires Enabled(s, step) && Sane(s, step) && CallerOf(s, step).Some?
    ensures FlagsBalance(s, Apply(g, s, step), CallerOf(s, step), t)
  {
  }

  lemma {:induction false} StepKeepsInv(g: Graph, s: State, step: Step)
    requires Inv(g, s) && Enabled(s, step)
    ensures Inv(g, Apply(g, s, step))
  {
    InvSane(g, s, step);
    KeepsCounts(g, s, step);
    KeepsSlotsFilled(g, s, step);
    KeepsOnlyReady(g, s, step);
    KeepsFlagsComing(g, s, step);
    KeepsScanSound(g, s, step);
  }

  // ---------------------------------------------------------------- all runs

  /** Each step of the run is enabled where it is taken. */
  ghost predicate Legal(g: Graph, s: State, steps: seq<Step>)
    decreases |steps|, 0
  {
    steps == [] ||
    (var n := |steps| - 1;
     Legal(g, s, steps[..n]) && Enabled(After(g, s, steps[..n]), steps[n]))
  }

  /** The state after a run. */
  ghost function After(g: Graph, s: State, steps: seq<Step>): State
    requires Legal(g, s, steps)
    decreases |steps|, 1
  {
    if steps == [] then s
    else Apply(g, After(g, s, steps[..|steps| - 1]), steps[|steps| - 1])
  }

  lemma {:induction false} IdsOnce(n: nat, w: Worker)
    ensures Count(Ids(n), Is, w) == One(w < n)
  {
    if n > 0 {
      var last: Worker := n - 1;
      IdsOnce(last, w);
      CountAppend<Worker, Worker>(Ids(last), last, Is, w);
    }
  }

  lemma InitInv(g: Graph, n: nat, m: nat)
    ensures Inv(g, Init(n, m))
  {
    var s := Init(n, m);
    forall t: Task ensures Places(s, t) == 0 && Count(s.callers, FlagOf, t) == 0 {
      CountZero(s.callers, HandOf, t);
      CountZero(s.callers, FlagOf, t);
      CountZero(s.workers, TaskOf, t);
    }
    forall w: Worker
      ensures Count(s.free, Is, w) + Count(s.callers, ClaimOf, w) == Idle(s, w)
      ensures Count(s.callers, SignalOf, w) == 0
    {
      IdsOnce(n, w);
      CountZero(s.callers, ClaimOf, w);
      CountZero(s.callers, SignalOf, w);
    }
  }

  /** The invariant holds after every run of n workers and m submitting threads. */
  lemma {:induction false} RunKeepsInv(g: Graph, n: nat, m: nat, steps: seq<Step>)
    requires Legal(g, Init(n, m), steps)
    ensures Inv(g, After(g, Init(n, m), steps))
  {
    if steps == [] {
      InitInv(g, n, m);
    } else {
      var k := |steps| - 1;
      RunKeepsInv(g, n, m, steps[..k]);
      StepKeepsInv(g, After(g, Init(n, m), steps[..k]), steps[k]);
    }
  }

  lemma FreeDistinct(s: State)
    requires WorkersQueued(s)
    ensures Distinct(s.free)
  {
    forall i, j | 0 <= i < j < |s.free| ensures s.free[i] != s.free[j] {
      var w := s.free[i];
      assert Count(s.free, Is, w) + Count(s.callers, ClaimOf, w) == Idle(s, w);
      CountRemove(s.free, i, Is, w);
      var rest := s.free[..i] + s.free[i + 1..];
      assert rest[j - 1] == s.free[j];
      CountAt(rest, j - 1, Is, w);
    }
  }

  lemma Owned(g: Graph, s: State)
    requires Inv(g, s)
    ensures forall t: Task :: Places(s, t) == s.submitted[t]
    ensures forall t: Task :: s.done[t] <= s.submitted[t]
    ensures Distinct(s.free)
    ensures forall w: Worker, r: int | Enabled(s, Finish(w, r)) :: Ready(g, s.finished, s.workers[w].slot.value)
  {
    FreeDistinct(s);
    forall t: Task ensures s.done[t] <= s.submitted[t] {
      assert s.submitted[t] == Places(s, t);
    }
    forall w: Worker, r: int | Enabled(s, Finish(w, r)) ensures Ready(g, s.finished, s.workers[w].slot.value) {
      assert TaskOf(s.workers[w], s.workers[w].slot.value) > 0;
    }
  }

  // ---------------------------------------------------------------- what the steps of a run say

  /** The step ends a run of t without error, or the other scheduler does so for a task of its own. */
  ghost predicate Finishes(g: Graph, s: State, step: Step, t: Task)
    requires Enabled(s, step)
  {
    match step
    case Finish(w, returnValue) => returnValue == 0 && s.workers[w].slot == Some(t)
    case FinishElsewhere(u) => u == t && g.foreign(t) && forall p | IsParent(g, p, t) :: p in s.finished
    case _ => false
  }

  /** Some step of the run finishes t. */
  ghost predicate HasFinished(g: Graph, s: State, steps: seq<Step>, t: Task)
    requires Legal(g, s, steps)
  {
    steps != [] &&
    (var n := |steps| - 1;
     HasFinished(g, s, steps[..n], t) || Finishes(g, After(g, s, steps[..n]), steps[n], t))
  }

  /** How many steps of the run end a run of t, with or without error. */
  ghost function RunsOf(g: Graph, s: State, steps: seq<Step>, t: Task): nat
    requires Legal(g, s, steps)
  {
    if steps == [] then 0
    else
      var n := |steps| - 1;
      var before := After(g, s, steps[..n]);
      RunsOf(g, s, steps[..n], t) + One(steps[n].Finish? && before.workers[steps[n].w].slot == Some(t))
  }

  /** How many steps of the run pass the guard for t, a task of this scheduler. */
  ghost function SubmissionsOf(g: Graph, s: State, steps: seq<Step>, t: Task): nat
    requires Legal(g, s, steps)
  {
    if steps == [] then 0
    else
      var n := |steps| - 1;
      SubmissionsOf(g, s, steps[..n], t) + One(steps[n].Guard? && steps[n].t == t && !g.foreign(t))
  }

  lemma FinishedStep(g: Graph, s: State, step: Step, t: Task)
    requires Enabled(s, step)
    ensures t in Apply(g, s, step).finished <==> t in s.finished || Finishes(g, s, step, t)
  {
    ReadyExactly(g, s.finished, t);
  }

  /** Finished are exactly the tasks that a step of the run finished. */
  lemma {:induction false} FinishedExactly(g: Graph, n: nat, m: nat, steps: seq<Step>, t: Task)
    requires Legal(g, Init(n, m), steps)
    ensures t in After(g, Init(n, m), steps).finished <==> HasFinished(g, Init(n, m), steps, t)
  {
    if steps != [] {
      var k := |steps| - 1;
      FinishedExactly(g, n, m, steps[..k], t);
      FinishedStep(g, After(g, Init(n, m), steps[..k]), steps[k], t);
    }
  }

  lemma CountedStep(g: Graph, s: State, step: Step, t: Task)
    requires Enabled(s, step)
    ensures var s' := Apply(g, s, step);
            && s'.done[t] == s.done[t] + One(step.Finish? && s.workers[step.w].slot == Some(t))
            && s'.submitted[t] == s.submitted[t] + One(step.Guard? && step.t == t && !g.foreign(t))
  {
  }

  /** The records of submissions and runs are what the steps of the run say. */
  lemma {:induction false} CountedExactly(g: Graph, n: nat, m: nat, steps: seq<Step>, t: Task)
    requires Legal(g, Init(n, m), steps)
    ensures var s := After(g, Init(n, m), steps);
            && s.done[t] == RunsOf(g, Init(n, m), steps, t)
            && s.submitted[t] == SubmissionsOf(g, Init(n, m), steps, t)
  {
    if steps != [] {
      var k := |steps| - 1;
      CountedExactly(g, n, m, steps[..k], t);
      CountedStep(g, After(g, Init(n, m), steps[..k]), steps[k], t);
    }
  }

  /** Before a task is run, some step has finished each of its parents. */
  lemma ParentsHaveFinished(g: Graph, n: nat, m: nat, steps: seq<Step>, t: Task)
    requires Legal(g, Init(n, m), steps) && Ready(g, After(g, Init(n, m), steps).finished, t)
    ensures forall p | IsParent(g, p, t) :: HasFinished(g, Init(n, m), steps, p)
  {
    ReadyExactly(g, After(g, Init(n, m), steps).finished, t);
    forall p | IsParent(g, p, t) ensures HasFinished(g, Init(n, m), steps, p) {
      FinishedExactly(g, n, m, steps, p);
    }
  }

  /**
   In every interleaving each submission is in exactly one place and is run at most once, no
   worker is in the free queue twice, and a task is run only when its parents have finished: each
   of them was run without error before.
   */
  lemma {:induction false} Ownership(g: Graph, n: nat, m: nat, steps: seq<Step>)
    requires Legal(g, Init(n, m), steps)
    ensures var s := After(g, Init(n, m), steps);
            && (forall t: Task :: Places(s, t) == s.submitted[t] == SubmissionsOf(g, Init(n, m), steps, t))
            && (forall t: Task :: RunsOf(g, Init(n, m), steps, t) == s.done[t] <= s.submitted[t])
            && Distinct(s.free)
            && (forall w: Worker, r: int | Enabled(s, Finish(w, r)) ::
                  forall p | IsParent(g, p, s.workers[w].slot.value) :: HasFinished(g, Init(n, m), steps, p))
  {
    RunKeepsInv(g, n, m, steps);
    var s := After(g, Init(n, m), steps);
    Owned(g, s);
    forall t: Task ensures s.submitted[t] == SubmissionsOf(g, Init(n, m), steps, t)
      ensures s.done[t] == RunsOf(g, Init(n, m), steps, t)
    {
      CountedExactly(g, n, m, steps, t);
    }
    forall w: Worker, r: int | Enabled(s, Finish(w, r))
      ensures forall p | IsParent(g, p, s.workers[w].slot.value) :: HasFinished(g, Init(n, m), steps, p)
    {
      ParentsHaveFinished(g, n, m, steps, s.workers[w].slot.value);
    }
  }

  // ---------------------------------------------------------------- the order of the queues

  function JoinedBy(step: Step): seq<Worker> {
    if step.Push? then [step.w] else []
  }

  /** The worker for which the caller has come out of the free queue, in the state after the step. */
  function TakenBy(after: State, step: Step): seq<Worker> {
    if step.PopFree? && step.c < |after.callers| && after.callers[step.c].Claimed? then [after.callers[step.c].worker]
    else []
  }

  /** The workers that joined the free queue, in order. All do so when they are started. */
  ghost function Joined(g: Graph, n: nat, m: nat, steps: seq<Step>): seq<Worker>
    requires Legal(g, Init(n, m), steps)
  {
    if steps == [] then seq(n, w => w)
    else Joined(g, n, m, steps[..|steps| - 1]) + JoinedBy(steps[|steps| - 1])
  }

  /** The workers that callers took for a task, in order. */
  ghost function Taken(g: Graph, n: nat, m: nat, steps: seq<Step>): seq<Worker>
    requires Legal(g, Init(n, m), steps)
  {
    if steps == [] then []
    else Taken(g, n, m, steps[..|steps| - 1]) + TakenBy(After(g, Init(n, m), steps), steps[|steps| - 1])
  }

  lemma {:induction false} IdsInOrder(n: nat)
    ensures Ids(n) == seq(n, w => w)
  {
    if n > 0 {
      IdsInOrder(n - 1);
    }
  }

  lemma FreeStep(g: Graph, s: State, step: Step)
    requires Enabled(s, step)
    ensures var s' := Apply(g, s, step); s.free + JoinedBy(step) == TakenBy(s', step) + s'.free
  {
  }

  lemma Regroup(a: seq<Worker>, b: seq<Worker>, c: seq<Worker>, d: seq<Worker>, e: seq<Worker>)
    requires b + c == d + e
    ensures (a + b) + c == (a + d) + e
  {
    assert (a + b) + c == a + (b + c);
    assert (a + d) + e == a + (d + e);
  }

  /** Workers are taken in the order in which they joined: whoever joined first is taken first. */
  lemma {:induction false} TakenInOrder(g: Graph, n: nat, m: nat, steps: seq<Step>)
    requires Legal(g, Init(n, m), steps)
    ensures Joined(g, n, m, steps) == Taken(g, n, m, steps) + After(g, Init(n, m), steps).free
  {
    if steps == [] {
      IdsInOrder(n);
    } else {
      var k := |steps| - 1;
      TakenInOrder(g, n, m, steps[..k]);
      NextInOrder(g, n, m, steps, After(g, Init(n, m), steps[..k]), steps[k]);
    }
  }

  lemma NextInOrder(g: Graph, n: nat, m: nat, steps: seq<Step>, before: State, step: Step)
    requires Legal(g, Init(n, m), steps) && steps != [] && step == steps[|steps| - 1]
    requires before == After(g, Init(n, m), steps[..|steps| - 1])
    requires Joined(g, n, m, steps[..|steps| - 1]) == Taken(g, n, m, steps[..|steps| - 1]) + before.free
    ensures Joined(g, n, m, steps) == Taken(g, n, m, steps) + After(g, Init(n, m), steps).free
  {
    var s := Apply(g, before, step);
    FreeStep(g, before, step);
    Regroup(Taken(g, n, m, steps[..|steps| - 1]), before.free, JoinedBy(step), TakenBy(s, step), s.free);
  }

  /** s arises from t by leaving elements out. */
  ghost predicate Selected<T>(s: seq<T>, t: seq<T>) {
    s == [] ||
    (t != [] &&
     (Selected(s, t[..|t| - 1]) || (s[|s| - 1] == t[|t| - 1] && Selected(s[..|s| - 1], t[..|t| - 1]))))
  }

  lemma {:induction false} SelectedAppend<T>(s: seq<T>, t: seq<T>, x: T)
    requires Selected(s, t)
    ensures Selected(s, t + [x]) && Selected(s + [x], t + [x])
  {
    assert (t + [x])[..|t|] == t && (s + [x])[..|s|] == s;
  }

  lemma {:induction false} SelectedRemove<T>(s: seq<T>, t: seq<T>, i: nat)
    requires Selected(s, t) && i < |s|
    ensures Selected(s[..i] + s[i + 1..], t)
    decreases |t|
  {
    var n, k := |t| - 1, |s| - 1;
    var r := s[..i] + s[i + 1..];
    if Selected(s, t[..n]) {
      SelectedRemove(s, t[..n], i);
    } else if i < k {
      SelectedRemove(s[..k], t[..n], i);
      assert r[..|r| - 1] == s[..k][..i] + s[..k][i + 1..];
    } else {
      assert r == s[..k];
    }
  }

  /** The tasks that were appended to the pending list, in order. */
  ghost function Appended(g: Graph, s: State, steps: seq<Step>): seq<Task>
    requires Legal(g, s, steps)
  {
    if steps == [] then []
    else
      var k := |steps| - 1;
      var before := After(g, s, steps[..k]);
      Appended(g, s, steps[..k]) + if steps[k].Append? then [before.callers[steps[k].c].task] else []
  }

  lemma PendingStep(g: Graph, s: State, step: Step)
    requires Enabled(s, step)
    ensures var s' := Apply(g, s, step);
            if step.Append? then s'.pending == s.pending + [s.callers[step.c].task]
            else s'.pending == s.pending || exists i :: 0 <= i < |s.pending| && s'.pending == s.pending[..i] + s.pending[i + 1..]
  {
    if step.ScanOne? && s.scan.next < |s.pending| && Ready(g, s.finished, s.pending[s.scan.next]) {
      var i := s.scan.next;
      assert Apply(g, s, step).pending == s.pending[..i] + s.pending[i + 1..];
    }
  }

  /** Pending tasks stand in the order in which they were appended. */
  lemma {:induction false} PendingInOrder(g: Graph, n: nat, m: nat, steps: seq<Step>)
    requires Legal(g, Init(n, m), steps)
    ensures Selected(After(g, Init(n, m), steps).pending, Appended(g, Init(n, m), steps))
  {
    if steps != [] {
      var k := |steps| - 1;
      var before, step := After(g, Init(n, m), steps[..k]), steps[k];
      var s, appended := After(g, Init(n, m), steps), Appended(g, Init(n, m), steps[..k]);
      PendingInOrder(g, n, m, steps[..k]);
      PendingStep(g, before, step);
      if step.Append? {
        SelectedAppend(before.pending, appended, before.callers[step.c].task);
      } else {
        assert Appended(g, Init(n, m), steps) == appended;
        if s.pending != before.pending {
          var i :| 0 <= i < |before.pending| && s.pending == before.pending[..i] + before.pending[i + 1..];
          SelectedRemove(before.pending, appended, i);
        }
      }
    }
  }

  // ---------------------------------------------------------------- a given task is not overwritten

  /** The worker has been given t and has not run it. */
  predicate Holds(s: State, w: Worker, t: Task) {
    w < |s.workers| && s.workers[w].slot == Some(t) && TaskOf(s.workers[w], t) == 1 && !s.workers[w].place.Fetched?
  }

  /** A task in a worker's slot stays there until that worker runs it. */
  lemma {:induction false} SlotKept(g: Graph, s: State, step: Step, w: Worker, t: Task)
    requires Inv(g, s) && Enabled(s, step) && Holds(s, w, t)
    ensures Holds(Apply(g, s, step), w, t) || (step.Finish? && step.w == w)
  {
    StepMoves(g, s, step);
    InvSane(g, s, step);
    if WorkerOf(s, step) == Some(w) {
      OwnStepKeepsSlot(g, s, step, w, t);
    }
  }

  lemma OwnStepKeepsSlot(g: Graph, s: State, step: Step, w: Worker, t: Task)
    requires Enabled(s, step) && Sane(s, step) && Holds(s, w, t)
    requires WorkerOf(s, step) == Some(w) && (step.ScanOne? ==> ScanSound(s))
    ensures Holds(Apply(g, s, step), w, t) || step.Finish?
  {
  }

  // ---------------------------------------------------------------- submitting once

  /** The guard is passed while another caller is still submitting the same task. */
  ghost predicate Overlaps(g: Graph, s: State, step: Step) {
    step.Guard? && !g.foreign(step.t) && exists c :: 0 <= c < |s.callers| && FlagOf(s.callers[c], step.t) > 0
  }

  lemma SubmittedStep(g: Graph, s: State, step: Step)
    requires Enabled(s, step)
    ensures Apply(g, s, step).submitted == s.submitted + if step.Guard? && !g.foreign(step.t) then multiset{step.t} else multiset{}
  {
  }

  ghost predicate AtMostOnce(m: multiset<Task>) {
    forall t: Task :: m[t] <= 1
  }

  /** One step submits a task a second time exactly if it overlaps. */
  lemma SecondSubmission(g: Graph, s: State, step: Step)
    requires FlagsComing(s) && Enabled(s, step) && AtMostOnce(s.submitted)
    ensures AtMostOnce(Apply(g, s, step).submitted) <==> !Overlaps(g, s, step)
  {
    SubmittedStep(g, s, step);
    if step.Guard? && !g.foreign(step.t) {
      assert step.t !in s.scheduled;
      GuardOverlaps(s, step.t);
      OneMore(s.submitted, step.t);
    }
  }

  lemma GuardOverlaps(s: State, t: Task)
    requires FlagsComing(s) && t !in s.scheduled
    ensures t in s.submitted <==> exists c :: 0 <= c < |s.callers| && FlagOf(s.callers[c], t) > 0
  {
    if t in s.submitted {
      var c := CountPositive(s.callers, FlagOf, t);
    }
    if c :| 0 <= c < |s.callers| && FlagOf(s.callers[c], t) > 0 {
      CountAt(s.callers, c, FlagOf, t);
    }
  }

  lemma OneMore(m: multiset<Task>, t: Task)
    requires AtMostOnce(m)
    ensures AtMostOnce(m + multiset{t}) <==> t !in m
  {
    assert (m + multiset{t})[t] == m[t] + 1;
    assert forall u: Task | u != t :: (m + multiset{t})[u] == m[u];
  }

  /** No step of the run overlaps. */
  ghost predicate NeverOverlaps(g: Graph, s: State, steps: seq<Step>)
    requires Legal(g, s, steps)
  {
    steps == [] ||
    (var n := |steps| - 1;
     NeverOverlaps(g, s, steps[..n]) && !Overlaps(g, After(g, s, steps[..n]), steps[n]))
  }

  /**
   The guard of scheduleTask sets the flag only after the task has been handed on.  So a run
   submits some task twice exactly if one of its steps passes the guard while another caller is
   still submitting the same task; in all other runs every task is run at most once.
   */
  lemma {:induction false} SubmittedOnceExactly(g: Graph, n: nat, m: nat, steps: seq<Step>)
    requires Legal(g, Init(n, m), steps)
    ensures AtMostOnce(After(g, Init(n, m), steps).submitted) <==> NeverOverlaps(g, Init(n, m), steps)
  {
    var s0 := Init(n, m);
    if steps != [] {
      var l := |steps| - 1;
      var before := After(g, s0, steps[..l]);
      RunKeepsInv(g, n, m, steps[..l]);
      SubmittedOnceExactly(g, n, m, steps[..l]);
      if AtMostOnce(before.submitted) {
        SecondSubmission(g, before, steps[l]);
      } else {
        SubmittedStep(g, before, steps[l]);
        var t :| before.submitted[t] > 1;
        assert After(g, s0, steps).submitted[t] > 1;
      }
    }
  }

  /** This happens: two callers pass the guard before either has set the flag. */
  lemma TaskSubmittedTwice(g: Graph)
    requires !g.foreign(0)
    ensures var steps := [Guard(0, 0)] + [Guard(1, 0)];
            Legal(g, Init(0, 2), steps) && After(g, Init(0, 2), steps).submitted[0] == 2
  {
    var s0 := Init(0, 2);
    assert [] + [Guard(0, 0)] == [Guard(0, 0)];
    Extend(g, s0, [], Guard(0, 0));
    Extend(g, s0, [Guard(0, 0)], Guard(1, 0));
  }

  lemma {:induction false} RunAtMostOnce(g: Graph, n: nat, m: nat, steps: seq<Step>)
    requires Legal(g, Init(n, m), steps) && NeverOverlaps(g, Init(n, m), steps)
    ensures AtMostOnce(After(g, Init(n, m), steps).done)
  {
    SubmittedOnceExactly(g, n, m, steps);
    Ownership(g, n, m, steps);
  }

  // ---------------------------------------------------------------- lost wake-ups

  /** The worker has a task, is not awake, and nobody will signal it. */
  ghost predicate Stranded(s: State, w: Worker) {
    w < |s.workers| && IsGiven(s.workers[w]) && Count(s.callers, SignalOf, w) == 0
  }

  /** A worker becomes stranded exactly if it is signalled between two waits. */
  lemma StrandedExactly(g: Graph, s: State, step: Step, w: Worker)
    requires Inv(g, s) && Enabled(s, step) && !Stranded(s, w)
    ensures Stranded(Apply(g, s, step), w) <==>
            step.Signal? && s.callers[step.c].worker == w && s.workers[w].place.Between?
  {
    var s' := Apply(g, s, step);
    StepMoves(g, s, step);
    InvSane(g, s, step);
    assert Count(s.callers, SignalOf, w) <= Given(s, w);
    CallerCount(s, s', CallerOf(s, step), WorkerOf(s, step), SignalOf, w);
    StrandingStep(g, s, step, w);
  }

  lemma StrandingStep(g: Graph, s: State, step: Step, w: Worker)
    requires Enabled(s, step) && Sane(s, step)
    ensures var s', c := Apply(g, s, step), CallerOf(s, step);
            if step.Signal? && s.callers[step.c].worker == w && s.workers[w].place.Between? then
              SignalOf(CallerAt(s, c), w) == 1 && SignalOf(CallerAt(s', c), w) == 0 && Given(s', w) == 1
            else
              Given(s', w) - Given(s, w) == SignalOf(CallerAt(s', c), w) - SignalOf(CallerAt(s, c), w)
  {
  }

  /** A stranded worker stays so, with its task, in every continuation. */
  lemma {:induction false} StrandedForever(g: Graph, s: State, steps: seq<Step>, w: Worker, t: Task)
    requires Inv(g, s) && Legal(g, s, steps)
    requires Stranded(s, w) && s.workers[w].slot == Some(t)
    ensures var s' := After(g, s, steps);
            Inv(g, s') && Stranded(s', w) && s'.workers[w].slot == Some(t)
  {
    if steps != [] {
      var n := |steps| - 1;
      StrandedForever(g, s, steps[..n], w, t);
      var before := After(g, s, steps[..n]);
      StepKeepsInv(g, before, steps[n]);
      StrandedStays(g, before, steps[n], w, t);
    }
  }

  lemma StrandedStays(g: Graph, s: State, step: Step, w: Worker, t: Task)
    requires Inv(g, s) && Enabled(s, step)
    requires Stranded(s, w) && s.workers[w].slot == Some(t)
    ensures var s' := Apply(g, s, step); Stranded(s', w) && s'.workers[w].slot == Some(t)
  {
    var s' := Apply(g, s, step);
    StepMoves(g, s, step);
    InvSane(g, s, step);
    SlotKept(g, s, step, w, t);
    CallerCount(s, s', CallerOf(s, step), WorkerOf(s, step), SignalOf, w);
    StrandingStep(g, s, step, w);
    if step.Signal? {
      CountAt(s.callers, step.c, SignalOf, s.callers[step.c].worker);
    }
  }

  lemma Extend(g: Graph, s: State, steps: seq<Step>, step: Step)
    requires Legal(g, s, steps) && Enabled(After(g, s, steps), step)
    ensures Legal(g, s, steps + [step]) && After(g, s, steps + [step]) == Apply(g, After(g, s, steps), step)
  {
    assert (steps + [step])[..|steps|] == steps;
  }

  /** One worker and one caller can come to this state by these steps. */
  ghost predicate Reaches(g: Graph, steps: seq<Step>, s: State) {
    Legal(g, Init(1, 1), steps) && After(g, Init(1, 1), steps) == s
  }

  lemma Next(g: Graph, steps: seq<Step>, s: State, step: Step) returns (steps': seq<Step>, s': State)
    requires Reaches(g, steps, s) && Enabled(s, step)
    ensures Reaches(g, steps', s') && s' == Apply(g, s, step)
  {
    Extend(g, Init(1, 1), steps, step);
    steps', s' := steps + [step], Apply(g, s, step);
  }

  ghost function Fresh(place: Place): State {
    State([Outside], [WorkerState(place, None)], [], [0], NoScan, {}, {}, multiset{}, multiset{})
  }

  ghost function Claiming(place: Place): State {
    State([Claimed(0, true, 0)], [WorkerState(place, None)], [], [], NoScan, {}, {}, multiset{0}, multiset{})
  }

  lemma Starts(g: Graph)
    ensures Reaches(g, [], Fresh(Between))
  {
    assert Init(1, 1) == Fresh(Between);
  }

  /** The caller submits task 0 and claims the worker. */
  lemma ClaimsWorker(g: Graph, steps: seq<Step>, place: Place) returns (steps': seq<Step>)
    requires g.parents(0) == [] && !g.foreign(0) && Reaches(g, steps, Fresh(place))
    ensures Reaches(g, steps', Claiming(place))
  {
    var s;
    steps', s := Next(g, steps, Fresh(place), Guard(0, 0));
    assert s.callers == [Guarded(0, true)];
    steps', s := Next(g, steps', s, CheckParents(0));
    assert s.callers == [Able(0, true)];
    steps', s := Next(g, steps', s, PopFree(0));
    assert s == Claiming(place);
  }

  /** This happens: a task submitted before the worker's first wait is never run. */
  lemma FirstSignalLost(g: Graph) returns (steps: seq<Step>)
    requires g.parents(0) == [] && !g.foreign(0)
    ensures Legal(g, Init(1, 1), steps)
    ensures var s := After(g, Init(1, 1), steps); Stranded(s, 0) && s.workers[0].slot == Some(0)
  {
    Starts(g);
    steps := ClaimsWorker(g, [], Between);
    var s := Claiming(Between);
    steps, s := Next(g, steps, s, SetNewTask(0));
    steps, s := Next(g, steps, s, Signal(0));
    assert s.callers == [Flagging(0, true)] && s.workers == [WorkerState(Between, Some(0))];
    CountZero(s.callers, SignalOf, 0);
  }
}
