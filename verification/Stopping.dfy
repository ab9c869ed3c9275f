/**
 * What messaging/queue/queue.go does around the way of a timer task: the map of running
 * tasks that Cancel looks into, and Stop, which cancels the context and closes the channel
 * of the pool without waiting for processTimers.
 */
module Stopping {
  import opened Common
  import opened Sorting
  import opened TimerPath

  datatype Queue = Queue(
    path: State,
    processing: map<string, nat>,              // the running task that is filed under an ID
    canceled: bool,
    timersDone: bool,                          // processTimers has returned
    closed: bool,
    crashed: bool
  )

  datatype Action =
    | Move(step: Step)
    | CancelQueue                              // line 354
    | Close                                    // line 356
    | TimersExit                               // lines 552-553
    | SubmitPanics                             // line 557, the channel is closed

  predicate InitQueue(q: Queue) {
    InitState(q.path) && q.processing == map[] && !q.canceled && !q.timersDone && !q.closed && !q.crashed
  }

  predicate Submits(step: Step) {
    step.SubmitFirst? || step.HandOver? || step.SubmitFails?
  }

  /** After a panic nothing happens any more. */
  ghost predicate Possible(q: Queue, action: Action) {
    !q.crashed &&
    match action
    case Move(step) => Enabled(q.path, step) && (step.Collect? ==> !q.timersDone) && (Submits(step) ==> !q.closed)
    case CancelQueue => true
    case Close => q.canceled && !q.closed
    case TimersExit => q.canceled && !q.timersDone && q.path.due == []
    case SubmitPanics => q.closed && q.path.due != []
  }

  /** The task whose execution the step brings to an end. */
  function EndedBy(s: State, step: Step): Option<nat>
    requires Enabled(s, step)
  {
    match step
    case FinishWithoutCall(n) => Some(n)
    case CancelDelay(n) => Some(n)
    case Return(n, _) => if n in Apply(s, step).running then None else Some(n)
    case _ => None
  }

  /** Lines 439-440: an execution files its task under the ID; its end deletes whatever is filed there. */
  function ProcessingAfter(q: Queue, step: Step): map<string, nat>
    requires Enabled(q.path, step)
  {
    if step.Start? then q.processing[q.path.accepted[step.task].id := step.task]
    else match EndedBy(q.path, step)
      case None => q.processing
      case Some(n) => q.processing - {q.path.accepted[n].id}
  }

  function Do(q: Queue, action: Action): Queue
    requires Possible(q, action)
  {
    match action
    case Move(step) => q.(path := Apply(q.path, step), processing := ProcessingAfter(q, step))
    case CancelQueue => q.(canceled := true)
    case Close => q.(closed := true)
    case TimersExit => q.(timersDone := true)
    case SubmitPanics => q.(crashed := true)
  }

  /** One state follows from the one before by the action in between. */
  ghost predicate Follows(queues: seq<Queue>, actions: seq<Action>, i: nat)
    requires i < |actions| && |queues| == |actions| + 1
  {
    Possible(queues[i], actions[i]) && queues[i + 1] == Do(queues[i], actions[i])
  }

  ghost predicate IsPath(queues: seq<Queue>, actions: seq<Action>) {
    |queues| == |actions| + 1 && forall i: nat :: i < |actions| ==> Follows(queues, actions, i)
  }

  ghost predicate IsQueueRun(queues: seq<Queue>, actions: seq<Action>) {
    IsPath(queues, actions) && InitQueue(queues[0])
  }

  lemma PathStep(queues: seq<Queue>, actions: seq<Action>, i: nat)
    requires IsPath(queues, actions) && i < |actions|
    ensures Possible(queues[i], actions[i]) && queues[i + 1] == Do(queues[i], actions[i])
  {
    assert Follows(queues, actions, i);
  }

  /** All that is proved of the way of a timer task holds here too. */
  lemma {:induction false} PathIsSafe(queues: seq<Queue>, actions: seq<Action>, i: nat)
    requires IsQueueRun(queues, actions) && i < |queues|
    ensures Invariant(queues[i].path)
  {
    if i == 0 {
      TimerPathSafety([queues[0].path], [], 0);
    } else {
      PathIsSafe(queues, actions, i - 1);
      PathStep(queues, actions, i - 1);
      if actions[i - 1].Move? {
        StepKeepsInvariant(queues[i - 1].path, actions[i - 1].step);
      }
    }
  }

  // ----- What Cancel finds -----

  /** Cancel, called with the ID of `n`, finds `n`. */
  ghost predicate IsFound(q: Queue, n: nat)
    requires n < |q.path.accepted|
  {
    var id := q.path.accepted[n].id;
    id in q.processing && q.processing[id] == n
  }

  ghost predicate AllFound(q: Queue) {
    forall n: nat :: IsRunning(q.path, n) ==> IsFound(q, n)
  }

  /** No two running tasks have the same ID. */
  ghost predicate DistinctIds(q: Queue) {
    forall n: nat, m: nat :: IsRunning(q.path, n) && IsRunning(q.path, m) && n != m ==>
      q.path.accepted[n].id != q.path.accepted[m].id
  }

  lemma FoundAreDistinct(q: Queue)
    requires AllFound(q)
    ensures DistinctIds(q)
  {
    forall n: nat, m: nat | IsRunning(q.path, n) && IsRunning(q.path, m) && n != m
      ensures q.path.accepted[n].id != q.path.accepted[m].id
    {
      assert IsFound(q, n) && IsFound(q, m);
    }
  }

  /** Only Start makes a task run, and only the end of its execution stops it. */
  lemma RunningAfter(s: State, step: Step, n: nat)
    requires Enabled(s, step)
    ensures IsRunning(Apply(s, step), n) ==>
      (IsRunning(s, n) || n >= |s.accepted| || step == Start(n)) && EndedBy(s, step) != Some(n)
    ensures s.accepted <= Apply(s, step).accepted
  {
    AcceptedGrows(s, step);
    StartedStaysStarted(s, step, n);
  }

  lemma MoveKeepsFound(q: Queue, step: Step, n: nat)
    requires Possible(q, Move(step)) && AllFound(q) && DistinctIds(q) && OnePlaceEach(q.path)
    requires DistinctIds(Do(q, Move(step))) && IsRunning(Apply(q.path, step), n)
    ensures IsFound(Do(q, Move(step)), n)
  {
    var s, q' := q.path, Do(q, Move(step));
    RunningAfter(s, step, n);
    assert n < |s.accepted| by {
      assert Places(s, n) == One(n < |s.accepted|);
    }
    assert q'.path.accepted[n] == s.accepted[n];
    if step.Start? {
      StartRuns(s, step.task);
      assert IsRunning(q'.path, step.task);
      assert n != step.task ==> IsFound(q, n);
    } else {
      assert IsFound(q, n);
    }
  }

  lemma StartRuns(s: State, n: nat)
    requires Enabled(s, Start(n))
    ensures IsRunning(Apply(s, Start(n)), n) && Apply(s, Start(n)).accepted == s.accepted
  {
  }

  lemma {:induction false} DistinctAreFound(queues: seq<Queue>, actions: seq<Action>, i: nat)
    requires IsQueueRun(queues, actions) && i < |queues|
    requires forall j :: 0 <= j < |queues| ==> DistinctIds(queues[j])
    ensures AllFound(queues[i])
  {
    if i > 0 {
      DistinctAreFound(queues, actions, i - 1);
      PathIsSafe(queues, actions, i - 1);
      PathStep(queues, actions, i - 1);
      var q, action := queues[i - 1], actions[i - 1];
      if action.Move? {
        forall n: nat | IsRunning(queues[i].path, n) ensures IsFound(queues[i], n) {
          MoveKeepsFound(q, action.step, n);
        }
      } else {
        assert queues[i].path == q.path && queues[i].processing == q.processing;
        forall n: nat | IsRunning(queues[i].path, n) ensures IsFound(queues[i], n) {
          assert IsFound(q, n);
        }
      }
    }
  }

  /**
   * In a run, Cancel finds every running task under its ID at all times if and only if at no
   * time two running tasks have the same ID.
   */
  lemma CancelFindsAllIff(queues: seq<Queue>, actions: seq<Action>)
    requires IsQueueRun(queues, actions)
    ensures (forall i :: 0 <= i < |queues| ==> AllFound(queues[i]))
       <==> (forall i :: 0 <= i < |queues| ==> DistinctIds(queues[i]))
  {
    if forall i :: 0 <= i < |queues| ==> AllFound(queues[i]) {
      forall i | 0 <= i < |queues| ensures DistinctIds(queues[i]) {
        FoundAreDistinct(queues[i]);
      }
    }
    if forall i :: 0 <= i < |queues| ==> DistinctIds(queues[i]) {
      forall i | 0 <= i < |queues| ensures AllFound(queues[i]) {
        DistinctAreFound(queues, actions, i);
      }
    }
  }

  /** What is filed under an ID is a running task with that ID. */
  ghost predicate EntriesRun(q: Queue) {
    forall id :: id in q.processing ==>
      IsRunning(q.path, q.processing[id]) && q.path.accepted[q.processing[id]].id == id
  }

  /** A task stops running only by the end of its execution. */
  lemma RunsUntilEnd(s: State, step: Step, n: nat)
    requires Enabled(s, step) && IsRunning(s, n) && EndedBy(s, step) != Some(n)
    ensures IsRunning(Apply(s, step), n) && Apply(s, step).accepted[n] == s.accepted[n]
  {
    AcceptedGrows(s, step);
  }

  lemma MoveKeepsEntries(q: Queue, step: Step, id: string)
    requires Possible(q, Move(step)) && EntriesRun(q) && id in ProcessingAfter(q, step)
    ensures var n := ProcessingAfter(q, step)[id];
      IsRunning(Apply(q.path, step), n) && Apply(q.path, step).accepted[n].id == id
  {
    var n := ProcessingAfter(q, step)[id];
    if step.Start? {
      StartRuns(q.path, step.task);
    }
    if !(step.Start? && id == q.path.accepted[step.task].id) {
      assert id in q.processing && q.processing[id] == n;
      RunsUntilEnd(q.path, step, n);
    }
  }

  /** In every reachable state: Cancel never finds a task that is not running. */
  lemma {:induction false} CancelFindsOnlyRunning(queues: seq<Queue>, actions: seq<Action>, i: nat)
    requires IsQueueRun(queues, actions) && i < |queues|
    ensures EntriesRun(queues[i])
  {
    if i > 0 {
      CancelFindsOnlyRunning(queues, actions, i - 1);
      PathStep(queues, actions, i - 1);
      var q, action := queues[i - 1], actions[i - 1];
      if action.Move? {
        forall id | id in queues[i].processing
          ensures IsRunning(queues[i].path, queues[i].processing[id])
          ensures queues[i].path.accepted[queues[i].processing[id]].id == id
        {
          MoveKeepsEntries(q, action.step, id);
        }
      }
    }
  }

  // ----- Getting from one state to another -----

  ghost predicate Goes(q: Queue, last: Queue) {
    exists queues, actions :: IsPath(queues, actions) && queues[0] == q && queues[|actions|] == last
  }

  lemma GoesNowhere(q: Queue)
    ensures Goes(q, q)
  {
    assert IsPath([q], []);
  }

  lemma GoesOn(q: Queue, mid: Queue, action: Action)
    requires Goes(q, mid) && Possible(mid, action)
    ensures Goes(q, Do(mid, action))
  {
    var queues, actions :| IsPath(queues, actions) && queues[0] == q && queues[|actions|] == mid;
    var queues', actions' := queues + [Do(mid, action)], actions + [action];
    forall i: nat | i < |actions'| ensures Follows(queues', actions', i) {
      if i < |actions| {
        PathStep(queues, actions, i);
      }
    }
    assert IsPath(queues', actions') && queues'[|actions'|] == Do(mid, action);
  }

  /** Nothing waits anywhere and nothing has been stopped. */
  ghost predicate IsAtRest(q: Queue) {
    && !q.crashed && !q.timersDone && !q.closed
    && q.path.heap == {} && q.path.due == [] && q.path.channel == [] && q.path.held == {}
  }

  lemma DueAlone(s: State, n: nat)
    requires s.heap == {n} && n < |s.accepted| && s.accepted[n].triggerAt < s.clock
    ensures IsDueList(s, [n])
  {
    assert (set m | m in s.heap && m < |s.accepted| && s.accepted[m].triggerAt < s.clock) == {n};
  }

  /** A task with any ID, pushed when nothing waits, can get as far as being executed. */
  lemma CanRun(start: Queue, q: Queue, id: string) returns (last: Queue)
    requires Goes(start, q) && IsAtRest(q)
    ensures Goes(start, last) && IsAtRest(last)
    ensures |last.path.accepted| == |q.path.accepted| + 1 && q.path.accepted <= last.path.accepted
    ensures var n := |q.path.accepted|;
      last.path.accepted[n].id == id && last.path.running == q.path.running[n := AtLoop(0)]
  {
    var n, a := |q.path.accepted|, Accepted(id, q.path.clock, 0);
    GoesOn(start, q, Move(Push(a)));
    var q1 := Do(q, Move(Push(a)));
    GoesOn(start, q1, Move(Tick(1)));
    var q2 := Do(q1, Move(Tick(1)));
    last := CanRunDue(start, q2, n);
  }

  lemma CanRunDue(start: Queue, q2: Queue, n: nat) returns (last: Queue)
    requires Goes(start, q2) && !q2.crashed && !q2.timersDone && !q2.closed
    requires q2.path.heap == {n} && q2.path.due == [] && q2.path.channel == [] && q2.path.held == {}
    requires n < |q2.path.accepted| && q2.path.accepted[n].triggerAt < q2.path.clock
    ensures Goes(start, last) && IsAtRest(last) && last.path.accepted == q2.path.accepted
    ensures last.path.running == q2.path.running[n := AtLoop(0)]
  {
    DueAlone(q2.path, n);
    GoesOn(start, q2, Move(Collect([n])));
    var q3 := Do(q2, Move(Collect([n])));
    GoesOn(start, q3, Move(HandOver));
    var q4 := Do(q3, Move(HandOver));
    GoesOn(start, q4, Move(Start(n)));
    last := Do(q4, Move(Start(n)));
  }

  /** And two tasks with the same ID can be executed at the same time: DueTasks frees the ID. */
  lemma SameIdCanRunTwice(q: Queue, id: string)
    requires InitQueue(q)
    ensures exists last :: Goes(q, last) && !DistinctIds(last)
  {
    GoesNowhere(q);
    var one := CanRun(q, q, id);
    var two := CanRun(q, one, id);
    assert IsRunning(two.path, 0) && IsRunning(two.path, 1);
  }

  // ----- What Stop can do -----

  lemma DueStaysEmpty(s: State, step: Step)
    requires Enabled(s, step) && s.due == [] && !step.Collect?
    ensures Apply(s, step).due == []
  {
  }

  lemma {:induction false} SafeOnceDone(queues: seq<Queue>, actions: seq<Action>, i: nat)
    requires IsPath(queues, actions) && i < |queues|
    requires queues[0].timersDone && queues[0].path.due == [] && !queues[0].crashed
    ensures queues[i].timersDone && queues[i].path.due == [] && !queues[i].crashed
  {
    if i > 0 {
      SafeOnceDone(queues, actions, i - 1);
      PathStep(queues, actions, i - 1);
      if actions[i - 1].Move? {
        DueStaysEmpty(queues[i - 1].path, actions[i - 1].step);
      }
    }
  }

  lemma {:induction false} DoneIsIdle(queues: seq<Queue>, actions: seq<Action>, i: nat)
    requires IsQueueRun(queues, actions) && i < |queues|
    ensures queues[i].timersDone ==> queues[i].path.due == []
  {
    if i > 0 {
      DoneIsIdle(queues, actions, i - 1);
      PathStep(queues, actions, i - 1);
      if actions[i - 1].Move? && queues[i - 1].timersDone {
        DueStaysEmpty(queues[i - 1].path, actions[i - 1].step);
      }
    }
  }

  function Sooner(s: State): (int, int) -> bool {
    (n, m) =>
      0 <= n < |s.accepted| && 0 <= m < |s.accepted| ==> s.accepted[n].triggerAt <= s.accepted[m].triggerAt
  }

  /** There is always something that DueTasks can return. */
  lemma SomeDueList(s: State) returns (due: seq<nat>)
    ensures IsDueList(s, due)
  {
    var ready := set n | n in s.heap && n < |s.accepted| && s.accepted[n].triggerAt < s.clock;
    var list := Listing(ready);
    SetListing(list, ready);
    SortSorted(Sooner(s), list);
    due := Sort(Sooner(s), list);
    assert forall i, j :: 0 <= i < j < |due| ==> Sooner(s)(due[i], due[j]);
  }

  /** A due list contains what is due. */
  lemma DueListHas(s: State, due: seq<nat>, n: nat)
    requires IsDueList(s, due) && n in s.heap && n < |s.accepted| && s.accepted[n].triggerAt < s.clock
    ensures n in due
  {
    assert n in multiset(due);
  }

  /** With a task in the heap, the clock can go on until processTimers has collected something. */
  lemma CanCollect(start: Queue, q: Queue, n: nat) returns (last: Queue)
    requires Goes(start, q)
    requires !q.crashed && !q.timersDone && q.path.due == [] && n in q.path.heap && n < |q.path.accepted|
    ensures Goes(start, last) && last.path.due != [] && !last.crashed
  {
    var a, clock := q.path.accepted[n], q.path.clock;
    var d: nat := if a.triggerAt < clock then 0 else a.triggerAt - clock + 1;
    GoesOn(start, q, Move(Tick(d)));
    var later := Do(q, Move(Tick(d)));
    var due := SomeDueList(later.path);
    DueListHas(later.path, due, n);
    GoesOn(start, later, Move(Collect(due)));
    last := Do(later, Move(Collect(due)));
  }

  lemma DueStays(s: State, step: Step)
    requires Enabled(s, step) && s.due != [] && !Submits(step)
    ensures Apply(s, step).due == s.due
  {
  }

  /** If the channel is closed while collected tasks are not submitted yet, nothing averts the panic. */
  lemma {:induction false} PanicIsNext(queues: seq<Queue>, actions: seq<Action>, i: nat)
    requires IsPath(queues, actions) && i < |queues|
    requires queues[0].closed && queues[0].path.due != []
    ensures queues[i].closed && queues[i].path.due == queues[0].path.due
    ensures !queues[i].crashed ==> Possible(queues[i], SubmitPanics)
  {
    if i > 0 {
      PanicIsNext(queues, actions, i - 1);
      PathStep(queues, actions, i - 1);
      if actions[i - 1].Move? {
        DueStays(queues[i - 1].path, actions[i - 1].step);
      }
    }
  }

  /** From a state with collected tasks Stop leads to the panic. */
  lemma StopCrashes(start: Queue, q: Queue) returns (last: Queue)
    requires Goes(start, q) && !q.crashed && q.path.due != []
    ensures Goes(start, last) && last.crashed
  {
    GoesOn(start, q, CancelQueue);
    var mid := Do(q, CancelQueue);
    if !mid.closed {
      GoesOn(start, mid, Close);
      mid := Do(mid, Close);
    }
    GoesOn(start, mid, SubmitPanics);
    last := Do(mid, SubmitPanics);
  }

  /** As long as processTimers runs, something can be collected, unless something has been. */
  lemma CanHaveDue(q: Queue) returns (last: Queue)
    requires !q.crashed && !q.timersDone && Invariant(q.path)
    ensures Goes(q, last) && last.path.due != [] && !last.crashed
  {
    GoesNowhere(q);
    if q.path.due != [] {
      last := q;
    } else if q.path.heap == {} {
      var a := Accepted("", q.path.clock, 0);
      GoesOn(q, q, Move(Push(a)));
      last := CanCollect(q, Do(q, Move(Push(a))), |q.path.accepted|);
    } else {
      var n :| n in q.path.heap;
      assert Places(q.path, n) == One(n < |q.path.accepted|);
      last := CanCollect(q, q, n);
    }
  }

  /**
   * In every reachable state: a panic can still happen if and only if processTimers has not
   * returned. So Stop is safe exactly if the channel is closed only after that.
   */
  lemma PanicCanHappenIff(queues: seq<Queue>, actions: seq<Action>, i: nat)
    requires IsQueueRun(queues, actions) && i < |queues| && !queues[i].crashed
    ensures (exists last :: Goes(queues[i], last) && last.crashed) <==> !queues[i].timersDone
  {
    var q := queues[i];
    if q.timersDone {
      DoneIsIdle(queues, actions, i);
      forall last | Goes(q, last) ensures !last.crashed {
        var path, steps :| IsPath(path, steps) && path[0] == q && path[|steps|] == last;
        SafeOnceDone(path, steps, |steps|);
      }
    } else {
      PathIsSafe(queues, actions, i);
      var mid := CanHaveDue(q);
      var last := StopCrashes(q, mid);
    }
  }
}
