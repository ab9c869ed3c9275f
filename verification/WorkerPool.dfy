/**
 * The worker pool of concurrency/worker/worker.go as a transition system. One step is
 * one channel operation or one atomic counter update, so that a run is any interleaving
 * of the submitting goroutines, the workers and Stop.
 */
module WorkerPool {
  import opened Common

  /** What is submitted; nothing is assumed about it, and it may be submitted again. */
  type TaskId = nat

  /** Where a worker stands in worker() and processTask(). */
  datatype Worker =
    | NotStarted
    | Waiting                                  // at the select of line 218
    | Received(task: TaskId)                   // before line 233
    | Active(task: TaskId)                     // before line 234
    | Running(task: TaskId)                    // at the select of line 256
    | Decided(task: TaskId, ok: bool)          // before line 259, 261 or 264
    | Counted(task: TaskId)                    // before line 237
    | Exited

  datatype Pool = Pool(
    queueSize: nat,
    queue: seq<TaskId>,                        // the channel; without a buffer it stays empty
    canceled: bool,
    closed: bool,
    workers: seq<Worker>,
    submitting: nat,                           // Submit calls between lines 205 and 206
    activeWorkers: int,
    pendingTasks: int,
    completedTasks: int,
    failedTasks: int,
    accepted: seq<TaskId>,                     // history: what Submit has accepted
    received: seq<TaskId>,                     // history: what workers have taken
    completed: multiset<TaskId>,               // history: what completedTasks has counted
    failed: multiset<TaskId>                   // history: what failedTasks has counted
  )

  datatype Step =
    | Send(task: TaskId)                       // line 205, into the buffer
    | HandOver(task: TaskId, w: nat)           // line 205, straight to a worker at line 221
    | CountPending                             // line 206
    | Spawn(w: nat)                            // line 178
    | Receive(w: nat)                          // line 221
    | ExitCanceled(w: nat)                     // line 219
    | ExitClosed(w: nat)                       // line 222
    | Activate(w: nat)                         // line 233
    | UncountPending(w: nat)                   // line 234
    | Decide(w: nat, ok: bool)                 // lines 256-263: a result, an error or a timeout
    | CountOutcome(w: nat)                     // lines 259, 261, 264
    | Deactivate(w: nat)                       // line 237
    | Cancel                                   // line 184
    | Close                                    // line 185

  predicate InitPool(s: Pool) {
    && s.queue == [] && s.accepted == [] && s.received == []
    && !s.canceled && !s.closed && s.submitting == 0
    && (forall w :: 0 <= w < |s.workers| ==> s.workers[w] == NotStarted)
    && s.activeWorkers == s.pendingTasks == s.completedTasks == s.failedTasks == 0
    && s.completed == multiset{} && s.failed == multiset{}
  }

  /** A send on a closed channel panics, so there is no Submit after Stop. */
  predicate Enabled(s: Pool, step: Step) {
    match step
    case Send(_) => !s.closed && |s.queue| < s.queueSize
    case HandOver(_, w) => !s.closed && s.queue == [] && w < |s.workers| && s.workers[w] == Waiting
    case CountPending => s.submitting > 0
    case Spawn(w) => w < |s.workers| && s.workers[w] == NotStarted
    case Receive(w) => w < |s.workers| && s.workers[w] == Waiting && s.queue != []
    case ExitCanceled(w) => w < |s.workers| && s.workers[w] == Waiting && s.canceled
    case ExitClosed(w) => w < |s.workers| && s.workers[w] == Waiting && s.closed && s.queue == []
    case Activate(w) => w < |s.workers| && s.workers[w].Received?
    case UncountPending(w) => w < |s.workers| && s.workers[w].Active?
    case Decide(w, _) => w < |s.workers| && s.workers[w].Running?
    case CountOutcome(w) => w < |s.workers| && s.workers[w].Decided?
    case Deactivate(w) => w < |s.workers| && s.workers[w].Counted?
    case Cancel => !s.canceled
    case Close => s.canceled && !s.closed
  }

  function Apply(s: Pool, step: Step): Pool
    requires Enabled(s, step)
  {
    match step
    case Send(t) => s.(queue := s.queue + [t], accepted := s.accepted + [t], submitting := s.submitting + 1)
    case HandOver(t, w) =>
      s.(workers := s.workers[w := Received(t)], accepted := s.accepted + [t], received := s.received + [t],
         submitting := s.submitting + 1)
    case CountPending => s.(submitting := s.submitting - 1, pendingTasks := s.pendingTasks + 1)
    case Spawn(w) => s.(workers := s.workers[w := Waiting])
    case Receive(w) =>
      s.(workers := s.workers[w := Received(s.queue[0])], queue := s.queue[1..], received := s.received + [s.queue[0]])
    case ExitCanceled(w) => s.(workers := s.workers[w := Exited])
    case ExitClosed(w) => s.(workers := s.workers[w := Exited])
    case Activate(w) =>
      s.(workers := s.workers[w := Active(s.workers[w].task)], activeWorkers := s.activeWorkers + 1)
    case UncountPending(w) =>
      s.(workers := s.workers[w := Running(s.workers[w].task)], pendingTasks := s.pendingTasks - 1)
    case Decide(w, ok) => s.(workers := s.workers[w := Decided(s.workers[w].task, ok)])
    case CountOutcome(w) =>
      var t := s.workers[w].task;
      var counted := s.(workers := s.workers[w := Counted(t)]);
      if s.workers[w].ok
      then counted.(completedTasks := s.completedTasks + 1, completed := s.completed + multiset{t})
      else counted.(failedTasks := s.failedTasks + 1, failed := s.failed + multiset{t})
    case Deactivate(w) => s.(workers := s.workers[w := Waiting], activeWorkers := s.activeWorkers - 1)
    case Cancel => s.(canceled := true)
    case Close => s.(closed := true)
  }

  /** A finite run: each state follows from the one before by the step in between. */
  ghost predicate IsRun(states: seq<Pool>, steps: seq<Step>) {
    && |states| == |steps| + 1
    && InitPool(states[0])
    && forall i :: 0 <= i < |steps| ==> Enabled(states[i], steps[i]) && states[i + 1] == Apply(states[i], steps[i])
  }

  // ----- Counting workers -----

  /** Between lines 233 and 237. */
  function IsActive(w: Worker): nat {
    if w.Active? || w.Running? || w.Decided? || w.Counted? then 1 else 0
  }

  /** Received from the channel, but not yet subtracted from the pending counter. */
  function IsUnsubtracted(w: Worker): nat {
    if w.Received? || w.Active? then 1 else 0
  }

  function Tally(ws: seq<Worker>, weight: Worker -> nat): nat {
    if ws == [] then 0 else weight(ws[0]) + Tally(ws[1..], weight)
  }

  lemma {:induction false} TallyUpdate(ws: seq<Worker>, i: nat, w: Worker, weight: Worker -> nat)
    requires i < |ws|
    ensures Tally(ws[i := w], weight) + weight(ws[i]) == Tally(ws, weight) + weight(w)
  {
    if i > 0 {
      assert ws[i := w][1..] == ws[1..][i - 1 := w];
      TallyUpdate(ws[1..], i - 1, w, weight);
    }
  }

  lemma {:induction false} TallyBound(ws: seq<Worker>, weight: Worker -> nat, bound: nat)
    requires forall i :: 0 <= i < |ws| ==> weight(ws[i]) <= bound
    ensures Tally(ws, weight) <= bound * |ws|
  {
    if ws != [] {
      TallyBound(ws[1..], weight, bound);
    }
  }

  /** The task whose outcome a worker still has to count. */
  function HeldBy(w: Worker): multiset<TaskId> {
    if w.Received? || w.Active? || w.Running? || w.Decided? then multiset{w.task} else multiset{}
  }

  function Held(ws: seq<Worker>): multiset<TaskId> {
    if ws == [] then multiset{} else HeldBy(ws[0]) + Held(ws[1..])
  }

  /** 1 if the worker still has to count the outcome of `t`. */
  ghost function Holds(w: Worker, t: TaskId): nat {
    if (w.Received? || w.Active? || w.Running? || w.Decided?) && w.task == t then 1 else 0
  }

  lemma HeldByAt(w: Worker, t: TaskId)
    ensures HeldBy(w)[t] == Holds(w, t)
  {
  }

  lemma {:induction false} HeldUpdate(ws: seq<Worker>, i: nat, w: Worker, t: TaskId)
    requires i < |ws|
    ensures Held(ws[i := w])[t] + Holds(ws[i], t) == Held(ws)[t] + Holds(w, t)
  {
    HeldByAt(ws[i], t);
    HeldByAt(w, t);
    if i > 0 {
      assert ws[i := w][1..] == ws[1..][i - 1 := w];
      HeldUpdate(ws[1..], i - 1, w, t);
    }
  }

  lemma {:induction false} NothingHeld(ws: seq<Worker>)
    requires forall i :: 0 <= i < |ws| ==> ws[i] == Exited || ws[i] == NotStarted
    ensures Held(ws) == multiset{} && Tally(ws, IsActive) == 0 && Tally(ws, IsUnsubtracted) == 0
  {
    if ws != [] {
      NothingHeld(ws[1..]);
    }
  }

  // ----- What every interleaving keeps -----

  /** First in, first out; and every received task is held, completed or failed. */
  ghost predicate TasksAccounted(s: Pool) {
    && InOrder(s)
    && multiset(s.received) == Held(s.workers) + s.completed + s.failed
    && (s.closed ==> s.canceled)
  }

  ghost predicate CountersExact(s: Pool) {
    && s.completedTasks == |s.completed| && s.failedTasks == |s.failed|
    && s.activeWorkers == Tally(s.workers, IsActive)
    && s.pendingTasks == |s.queue| + Tally(s.workers, IsUnsubtracted) - s.submitting
  }

  ghost predicate Invariant(s: Pool) {
    TasksAccounted(s) && CountersExact(s)
  }

  ghost predicate InOrder(s: Pool) {
    |s.queue| <= s.queueSize && s.accepted == s.received + s.queue
  }

  lemma SendKeepsOrder(s: Pool, t: TaskId)
    requires InOrder(s) && Enabled(s, Send(t))
    ensures InOrder(Apply(s, Send(t)))
  {
    Regroup(s.received, s.queue, [t]);
  }

  lemma HandOverKeepsOrder(s: Pool, t: TaskId, w: nat)
    requires InOrder(s) && Enabled(s, HandOver(t, w))
    ensures InOrder(Apply(s, HandOver(t, w)))
  {
    assert s.received + [] == s.received && s.received + [t] + [] == s.received + [t];
  }

  lemma ReceiveKeepsOrder(s: Pool, w: nat)
    requires InOrder(s) && Enabled(s, Receive(w))
    ensures InOrder(Apply(s, Receive(w)))
  {
    assert s.queue == [s.queue[0]] + s.queue[1..];
    Regroup(s.received, [s.queue[0]], s.queue[1..]);
  }

  lemma StepKeepsOrder(s: Pool, step: Step)
    requires InOrder(s) && Enabled(s, step)
    ensures InOrder(Apply(s, step))
  {
    match step
    case Send(t) => SendKeepsOrder(s, t);
    case HandOver(t, w) => HandOverKeepsOrder(s, t, w);
    case Receive(w) => ReceiveKeepsOrder(s, w);
    case _ =>
  }

  /** The worker that a step moves, and where it moves to. */
  function Moves(s: Pool, step: Step): Option<(nat, Worker)>
    requires Enabled(s, step)
  {
    match step
    case HandOver(t, w) => Some((w, Received(t)))
    case Spawn(w) => Some((w, Waiting))
    case Receive(w) => Some((w, Received(s.queue[0])))
    case ExitCanceled(w) => Some((w, Exited))
    case ExitClosed(w) => Some((w, Exited))
    case Activate(w) => Some((w, Active(s.workers[w].task)))
    case UncountPending(w) => Some((w, Running(s.workers[w].task)))
    case Decide(w, ok) => Some((w, Decided(s.workers[w].task, ok)))
    case CountOutcome(w) => Some((w, Counted(s.workers[w].task)))
    case Deactivate(w) => Some((w, Waiting))
    case _ => None
  }

  lemma MovesIsWhatMoves(s: Pool, step: Step)
    requires Enabled(s, step)
    ensures match Moves(s, step)
      case None => Apply(s, step).workers == s.workers
      case Some((w, pc)) => w < |s.workers| && Apply(s, step).workers == s.workers[w := pc]
  {
  }

  /** 1 if the step counts the outcome of `t`. */
  ghost function Counts(s: Pool, step: Step, t: TaskId): nat
    requires Enabled(s, step)
  {
    One(step.CountOutcome? && s.workers[step.w].task == t)
  }

  /** 1 if the step receives `t`. */
  ghost function Receives(s: Pool, step: Step, t: TaskId): nat
    requires Enabled(s, step)
  {
    One((step.Receive? && s.queue[0] == t) || (step.HandOver? && step.task == t))
  }

  lemma MoverHolds(s: Pool, step: Step, t: TaskId)
    requires Enabled(s, step)
    ensures match Moves(s, step)
      case None => Counts(s, step, t) == Receives(s, step, t) == 0
      case Some((w, pc)) =>
        w < |s.workers| && Holds(pc, t) + Counts(s, step, t) == Holds(s.workers[w], t) + Receives(s, step, t)
  {
  }

  /** Receiving adds to what is held; counting takes from it; no other step changes it. */
  lemma HeldStep(s: Pool, step: Step, ws: seq<Worker>, t: TaskId)
    requires Enabled(s, step) && ws == Apply(s, step).workers
    ensures Held(ws)[t] + Counts(s, step, t) == Held(s.workers)[t] + Receives(s, step, t)
  {
    MovesIsWhatMoves(s, step);
    MoverHolds(s, step, t);
    var m := Moves(s, step);
    if m.Some? {
      HeldUpdate(s.workers, m.value.0, m.value.1, t);
    }
  }

  lemma ReceivedGrows(s: Pool, step: Step)
    requires Enabled(s, step)
    ensures Apply(s, step).received
         == s.received + if step.Receive? then [s.queue[0]] else if step.HandOver? then [step.task] else []
  {
  }

  lemma ReceivedStep(s: Pool, step: Step, s': Pool, t: TaskId)
    requires Enabled(s, step) && s' == Apply(s, step)
    ensures multiset(s'.received)[t] == multiset(s.received)[t] + Receives(s, step, t)
  {
    ReceivedGrows(s, step);
  }

  lemma OutcomeStep(s: Pool, step: Step, s': Pool, t: TaskId)
    requires Enabled(s, step) && s' == Apply(s, step)
    ensures s'.completed[t] + s'.failed[t] == s.completed[t] + s.failed[t] + Counts(s, step, t)
  {
  }

  lemma StepKeepsTask(s: Pool, step: Step, s': Pool, t: TaskId)
    requires Enabled(s, step) && s' == Apply(s, step)
    requires multiset(s.received)[t] == Held(s.workers)[t] + s.completed[t] + s.failed[t]
    ensures multiset(s'.received)[t] == Held(s'.workers)[t] + s'.completed[t] + s'.failed[t]
  {
    HeldStep(s, step, s'.workers, t);
    ReceivedStep(s, step, s', t);
    OutcomeStep(s, step, s', t);
  }

  lemma StepKeepsReceived(s: Pool, step: Step, s': Pool)
    requires TasksAccounted(s) && Enabled(s, step) && s' == Apply(s, step)
    ensures multiset(s'.received) == Held(s'.workers) + s'.completed + s'.failed
  {
    forall t ensures multiset(s'.received)[t] == (Held(s'.workers) + s'.completed + s'.failed)[t] {
      assert multiset(s.received)[t] == Held(s.workers)[t] + s.completed[t] + s.failed[t];
      StepKeepsTask(s, step, s', t);
    }
  }

  lemma StepKeepsTasks(s: Pool, step: Step)
    requires TasksAccounted(s) && Enabled(s, step)
    ensures TasksAccounted(Apply(s, step))
  {
    StepKeepsOrder(s, step);
    StepKeepsReceived(s, step, Apply(s, step));
  }

  lemma StepKeepsOutcomes(s: Pool, step: Step)
    requires s.completedTasks == |s.completed| && s.failedTasks == |s.failed| && Enabled(s, step)
    ensures var s' := Apply(s, step); s'.completedTasks == |s'.completed| && s'.failedTasks == |s'.failed|
  {
  }

  lemma StepKeepsActive(s: Pool, step: Step)
    requires s.activeWorkers == Tally(s.workers, IsActive) && Enabled(s, step)
    ensures Apply(s, step).activeWorkers == Tally(Apply(s, step).workers, IsActive)
  {
    MovesIsWhatMoves(s, step);
    var m := Moves(s, step);
    if m.Some? {
      TallyUpdate(s.workers, m.value.0, m.value.1, IsActive);
    }
  }

  lemma StepKeepsPending(s: Pool, step: Step)
    requires s.pendingTasks == |s.queue| + Tally(s.workers, IsUnsubtracted) - s.submitting && Enabled(s, step)
    ensures var s' := Apply(s, step);
      s'.pendingTasks == |s'.queue| + Tally(s'.workers, IsUnsubtracted) - s'.submitting
  {
    MovesIsWhatMoves(s, step);
    var m := Moves(s, step);
    if m.Some? {
      TallyUpdate(s.workers, m.value.0, m.value.1, IsUnsubtracted);
    }
  }

  lemma StepKeepsCounters(s: Pool, step: Step)
    requires CountersExact(s) && Enabled(s, step)
    ensures CountersExact(Apply(s, step))
  {
    StepKeepsOutcomes(s, step);
    StepKeepsActive(s, step);
    StepKeepsPending(s, step);
  }

  lemma {:induction false} RunKeepsInvariant(states: seq<Pool>, steps: seq<Step>, i: nat)
    requires IsRun(states, steps) && i < |states|
    ensures Invariant(states[i])
  {
    if i == 0 {
      NothingHeld(states[0].workers);
    } else {
      RunKeepsInvariant(states, steps, i - 1);
      RunStep(states, steps, i - 1);
      StepKeepsTasks(states[i - 1], steps[i - 1]);
      StepKeepsCounters(states[i - 1], steps[i - 1]);
    }
  }

  lemma RunStep(states: seq<Pool>, steps: seq<Step>, i: nat)
    requires IsRun(states, steps) && i < |steps|
    ensures Enabled(states[i], steps[i]) && states[i + 1] == Apply(states[i], steps[i])
  {
  }

  lemma {:induction false} RunKeepsWorkers(states: seq<Pool>, steps: seq<Step>, i: nat)
    requires IsRun(states, steps) && i < |states|
    ensures |states[i].workers| == |states[0].workers|
  {
    if i > 0 {
      RunKeepsWorkers(states, steps, i - 1);
      assert states[i - 1 + 1] == Apply(states[i - 1], steps[i - 1]);
    }
  }

  /**
   * In every state of every interleaving: tasks leave the channel in the order in which
   * they were accepted; each accepted task is queued, held by one worker, completed or
   * failed; the counters are exact up to the updates that are under way; and the number
   * of active workers is between 0 and the number of workers.
   */
  lemma PoolAccounting(states: seq<Pool>, steps: seq<Step>, i: nat)
    requires IsRun(states, steps) && i < |states|
    ensures var s := states[i];
      && s.received <= s.accepted
      && multiset(s.accepted) == multiset(s.queue) + Held(s.workers) + s.completed + s.failed
      && |s.accepted| == |s.queue| + |Held(s.workers)| + s.completedTasks + s.failedTasks
      && s.pendingTasks == |s.queue| + Tally(s.workers, IsUnsubtracted) - s.submitting
      && 0 <= s.activeWorkers <= |states[0].workers|
  {
    var s := states[i];
    RunKeepsInvariant(states, steps, i);
    RunKeepsWorkers(states, steps, i);
    TallyBound(s.workers, IsActive, 1);
    assert multiset(s.accepted) == multiset(s.received) + multiset(s.queue);
    assert |multiset(s.accepted)| == |s.accepted|;
    assert |multiset(s.queue)| == |s.queue|;
  }

  /** When no worker is left, what was accepted is completed, failed or still in the channel. */
  lemma AfterShutdown(states: seq<Pool>, steps: seq<Step>, i: nat)
    requires IsRun(states, steps) && i < |states|
    requires forall w :: 0 <= w < |states[i].workers| ==> states[i].workers[w] == Exited
    ensures var s := states[i];
      && multiset(s.accepted) == multiset(s.queue) + s.completed + s.failed
      && |s.accepted| == |s.queue| + s.completedTasks + s.failedTasks
      && s.activeWorkers == 0 && s.pendingTasks == |s.queue| - s.submitting
  {
    RunKeepsInvariant(states, steps, i);
    PoolAccounting(states, steps, i);
    NothingHeld(states[i].workers);
  }

  // ----- Which outcomes the counters count -----

  /** The worker has decided on an outcome that it has still to count. */
  function HasDecided(ok: bool): Worker -> nat {
    (w: Worker) => One(w.Decided? && w.ok == ok)
  }

  /** The same, for one task. */
  function HasDecidedOn(ok: bool, t: TaskId): Worker -> nat {
    (w: Worker) => One(w == Decided(t, ok))
  }

  /** How many of the first `i` steps decide on this outcome. */
  function Decisions(steps: seq<Step>, ok: bool, i: nat): nat
    requires i <= |steps|
  {
    if i == 0 then 0 else Decisions(steps, ok, i - 1) + One(steps[i - 1].Decide? && steps[i - 1].ok == ok)
  }

  /** The step decides on this outcome for the task `t`. */
  predicate DecidesOn(s: Pool, step: Step, ok: bool, t: TaskId) {
    step.Decide? && step.ok == ok && step.w < |s.workers| && s.workers[step.w] == Running(t)
  }

  function DecisionsOn(states: seq<Pool>, steps: seq<Step>, ok: bool, t: TaskId, i: nat): nat
    requires i <= |steps| <= |states|
  {
    if i == 0 then 0
    else DecisionsOn(states, steps, ok, t, i - 1) + One(DecidesOn(states[i - 1], steps[i - 1], ok, t))
  }

  lemma DecisionStep(s: Pool, step: Step, ok: bool)
    requires Enabled(s, step)
    ensures var s' := Apply(s, step);
      (if ok then s'.completedTasks else s'.failedTasks) + Tally(s'.workers, HasDecided(ok))
      == (if ok then s.completedTasks else s.failedTasks) + Tally(s.workers, HasDecided(ok))
         + One(step.Decide? && step.ok == ok)
  {
    MovesIsWhatMoves(s, step);
    var m := Moves(s, step);
    if m.Some? {
      TallyUpdate(s.workers, m.value.0, m.value.1, HasDecided(ok));
    }
  }

  lemma DecisionOnStep(s: Pool, step: Step, ok: bool, t: TaskId)
    requires Enabled(s, step)
    ensures var s' := Apply(s, step);
      (if ok then s'.completed else s'.failed)[t] + Tally(s'.workers, HasDecidedOn(ok, t))
      == (if ok then s.completed else s.failed)[t] + Tally(s.workers, HasDecidedOn(ok, t))
         + One(DecidesOn(s, step, ok, t))
  {
    MovesIsWhatMoves(s, step);
    var m := Moves(s, step);
    if m.Some? {
      TallyUpdate(s.workers, m.value.0, m.value.1, HasDecidedOn(ok, t));
    }
  }

  lemma {:induction false} NoneDecided(ws: seq<Worker>, ok: bool, t: TaskId)
    requires forall i :: 0 <= i < |ws| ==> ws[i] == NotStarted
    ensures Tally(ws, HasDecided(ok)) == 0 && Tally(ws, HasDecidedOn(ok, t)) == 0
  {
    if ws != [] {
      NoneDecided(ws[1..], ok, t);
    }
  }

  /**
   * In every state of every interleaving: the tasks counted as completed, with those of the
   * workers that are about to count them, are exactly the decisions for success so far, in
   * number and task by task; and the failed ones exactly the decisions for failure.
   */
  lemma {:induction false} OutcomesAreCounted(states: seq<Pool>, steps: seq<Step>, i: nat, ok: bool, t: TaskId)
    requires IsRun(states, steps) && i < |states|
    ensures (if ok then states[i].completedTasks else states[i].failedTasks) + Tally(states[i].workers, HasDecided(ok))
         == Decisions(steps, ok, i)
    ensures (if ok then states[i].completed else states[i].failed)[t] + Tally(states[i].workers, HasDecidedOn(ok, t))
         == DecisionsOn(states, steps, ok, t, i)
  {
    if i == 0 {
      NoneDecided(states[0].workers, ok, t);
    } else {
      OutcomesAreCounted(states, steps, i - 1, ok, t);
      RunStep(states, steps, i - 1);
      DecisionStep(states[i - 1], steps[i - 1], ok);
      DecisionOnStep(states[i - 1], steps[i - 1], ok, t);
    }
  }

  // ----- What the pending counter tells -----

  /** How many workers have received a task, but not yet subtracted it. */
  ghost function Unsubtracted(s: Pool): nat {
    Tally(s.workers, IsUnsubtracted)
  }

  lemma {:induction false} NoneUnsubtracted(ws: seq<Worker>)
    ensures Tally(ws, IsUnsubtracted) == 0 <==> forall i :: 0 <= i < |ws| ==> IsUnsubtracted(ws[i]) == 0
  {
    if ws != [] {
      NoneUnsubtracted(ws[1..]);
      assert forall i :: 0 < i < |ws| ==> ws[i] == ws[1..][i - 1];
    }
  }

  /**
   * In every state of every interleaving: the pending counter is not negative exactly when
   * the Submit calls between their two lines are no more than the tasks that are queued or
   * just received; and IsEmpty is right about the channel exactly when, of an empty channel,
   * as many tasks are just received as are just sent, or, of another one, the numbers do not
   * happen to balance.
   */
  lemma PendingIff(states: seq<Pool>, steps: seq<Step>, i: nat)
    requires IsRun(states, steps) && i < |states|
    ensures var s := states[i];
      && (s.pendingTasks >= 0 <==> s.submitting <= |s.queue| + Unsubtracted(s))
      && ((s.pendingTasks == 0 <==> s.queue == []) <==>
            if s.queue == [] then s.submitting == Unsubtracted(s) else s.submitting != |s.queue| + Unsubtracted(s))
  {
    RunKeepsInvariant(states, steps, i);
  }

  /**
   * While no Submit is between its two lines the counter is never negative, and it is zero
   * exactly when the channel is empty and no worker has just received a task.
   */
  lemma QuietPendingIff(states: seq<Pool>, steps: seq<Step>, i: nat)
    requires IsRun(states, steps) && i < |states| && states[i].submitting == 0
    ensures states[i].pendingTasks >= |states[i].queue|
    ensures var s := states[i];
      s.pendingTasks == 0 <==>
        s.queue == [] && forall w :: 0 <= w < |s.workers| ==> !s.workers[w].Received? && !s.workers[w].Active?
  {
    RunKeepsInvariant(states, steps, i);
    NoneUnsubtracted(states[i].workers);
  }

  /** `s` can get to `last`. */
  ghost predicate Leads(s: Pool, last: Pool) {
    exists states: seq<Pool>, steps: seq<Step> :: IsRun(states, steps) && states[0] == s && states[|steps|] == last
  }

  lemma LeadsOn(s: Pool, mid: Pool, step: Step)
    requires Leads(s, mid) && Enabled(mid, step)
    ensures Leads(s, Apply(mid, step))
  {
    var states, steps :| IsRun(states, steps) && states[0] == s && states[|steps|] == mid;
    var states', steps' := states + [Apply(mid, step)], steps + [step];
    forall i | 0 <= i < |steps'|
      ensures Enabled(states'[i], steps'[i]) && states'[i + 1] == Apply(states'[i], steps'[i])
    {
      if i < |steps| {
        RunStep(states, steps, i);
      }
    }
    assert IsRun(states', steps') && states'[|steps'|] == Apply(mid, step);
  }

  lemma LeadsNowhere(s: Pool)
    requires InitPool(s)
    ensures Leads(s, s)
  {
    assert IsRun([s], []);
  }

  /** While a Submit is between its two lines the counter can be zero although the channel is not empty. */
  lemma PendingCanMissATask(s: Pool, t: TaskId)
    requires InitPool(s) && s.queueSize > 0
    ensures exists last :: Leads(s, last) && last.pendingTasks == 0 && last.queue == [t]
  {
    LeadsNowhere(s);
    LeadsOn(s, s, Send(t));
  }

  /** And it can be negative. */
  lemma PendingCanBeNegative(s: Pool, t: TaskId)
    requires InitPool(s) && |s.workers| > 0
    ensures exists last :: Leads(s, last) && last.pendingTasks == -1
  {
    LeadsNowhere(s);
    LeadsOn(s, s, Spawn(0));
    var s1 := Apply(s, Spawn(0));
    LeadsOn(s, s1, HandOver(t, 0));
    var s2 := Apply(s1, HandOver(t, 0));
    LeadsOn(s, s2, Activate(0));
    var s3 := Apply(s2, Activate(0));
    LeadsOn(s, s3, UncountPending(0));
  }

  /** Without any Submit under way it can still count a task that has left the channel. */
  lemma PendingCanLag(s: Pool, t: TaskId)
    requires InitPool(s) && |s.workers| > 0
    ensures exists last :: Leads(s, last) && last.submitting == 0 && last.queue == [] && last.pendingTasks == 1
  {
    LeadsNowhere(s);
    LeadsOn(s, s, Spawn(0));
    var s1 := Apply(s, Spawn(0));
    LeadsOn(s, s1, HandOver(t, 0));
    var s2 := Apply(s1, HandOver(t, 0));
    LeadsOn(s, s2, CountPending);
  }

  // ----- Shutdown -----

  /** How many steps a worker may still take for the task at hand, and to exit. */
  function Rank(w: Worker): nat {
    match w
    case Exited => 0
    case Waiting => 1
    case NotStarted => 2
    case Counted(_) => 2
    case Decided(_, _) => 3
    case Running(_) => 4
    case Active(_) => 5
    case Received(_) => 6
  }

  function StepsLeft(s: Pool): nat {
    Tally(s.workers, Rank) + 7 * |s.queue| + s.submitting
  }

  /** After Stop has closed the channel, every step brings the pool closer to its end. */
  lemma ShutdownProgresses(s: Pool, step: Step)
    requires s.closed && s.canceled && Enabled(s, step)
    ensures StepsLeft(Apply(s, step)) < StepsLeft(s) && Apply(s, step).closed && Apply(s, step).canceled
  {
    MovesIsWhatMoves(s, step);
    var m := Moves(s, step);
    if m.Some? {
      TallyUpdate(s.workers, m.value.0, m.value.1, Rank);
    }
  }

  /** And it does not get stuck before every worker has exited. */
  lemma ShutdownEndsWithAllExited(s: Pool)
    requires s.canceled
    requires forall step :: !Enabled(s, step)
    ensures forall w :: 0 <= w < |s.workers| ==> s.workers[w] == Exited
  {
    forall w | 0 <= w < |s.workers| ensures s.workers[w] == Exited {
      assert !Enabled(s, Spawn(w)) && !Enabled(s, ExitCanceled(w)) && !Enabled(s, Activate(w));
      assert !Enabled(s, UncountPending(w)) && !Enabled(s, Decide(w, false));
      assert !Enabled(s, CountOutcome(w)) && !Enabled(s, Deactivate(w));
    }
  }

  /** A worker with a task goes on; one that waits takes a task as soon as there is one. */
  lemma WorkerGoesOn(s: Pool, w: nat)
    requires w < |s.workers|
    ensures s.workers[w] == NotStarted ==> Enabled(s, Spawn(w))
    ensures s.workers[w] == Waiting && s.queue != [] ==> Enabled(s, Receive(w))
    ensures s.workers[w] == Waiting && s.queue == [] && !s.closed ==> forall t :: Enabled(s, HandOver(t, w))
    ensures s.workers[w].Received? ==> Enabled(s, Activate(w))
    ensures s.workers[w].Active? ==> Enabled(s, UncountPending(w))
    ensures s.workers[w].Running? ==> forall ok :: Enabled(s, Decide(w, ok))
    ensures s.workers[w].Decided? ==> Enabled(s, CountOutcome(w))
    ensures s.workers[w].Counted? ==> Enabled(s, Deactivate(w))
    ensures !s.closed && |s.queue| < s.queueSize ==> forall t :: Enabled(s, Send(t))
  {
  }

  lemma ClosedIsCanceled(states: seq<Pool>, steps: seq<Step>, i: nat)
    requires IsRun(states, steps) && i < |states|
    ensures states[i].closed ==> states[i].canceled
  {
    RunKeepsInvariant(states, steps, i);
  }

  lemma ShutdownStep(states: seq<Pool>, steps: seq<Step>, i: nat)
    requires IsRun(states, steps) && i < |steps| && states[i].closed
    ensures states[i + 1].closed && StepsLeft(states[i + 1]) < StepsLeft(states[i])
  {
    ClosedIsCanceled(states, steps, i);
    RunStep(states, steps, i);
    ShutdownProgresses(states[i], steps[i]);
  }

  /** So the part of a run that follows Close has a bounded length. */
  lemma {:induction false} ShutdownIsBounded(states: seq<Pool>, steps: seq<Step>, i: nat, j: nat)
    requires IsRun(states, steps) && i <= j < |states| && states[i].closed
    ensures states[j].closed && j - i + StepsLeft(states[j]) <= StepsLeft(states[i])
    decreases j
  {
    if i < j {
      ShutdownIsBounded(states, steps, i, j - 1);
      ShutdownStep(states, steps, j - 1);
    }
  }
}
