/**
 * The way of a timer task through messaging/queue/queue.go, as a transition system: from
 * TaskQueue.Push into the timer heap, by processTimers into the pool's channel, by a
 * worker into executeTask, through the attempts of processTaskWithRetry to its end. A
 * task is named by the number of the Push that accepted it.
 */
module TimerPath {
  import opened Common
  import opened Tasks
  import Timers = TimerQueue

  datatype Accepted = Accepted(id: string, triggerAt: Time, maxRetries: int)

  /** Where an execution stands in the loop of lines 462-489. */
  datatype Execution =
    | AtLoop(attempt: nat)                     // line 462, about to test the attempt number
    | Calling(attempt: nat)                    // inside the processor, line 478
    | Delaying(attempt: nat)                   // at the select of line 465

  datatype Event =
    | Started(task: nat, at: Time)             // executeTask begins
    | Called(task: nat, attempt: nat)          // the processor is called
    | Returned(task: nat, attempt: nat, verdict: Verdict)

  datatype State = State(
    clock: Time,
    channelSize: nat,
    accepted: seq<Accepted>,                   // history: the successful pushes of timer tasks
    heap: set<nat>,
    due: seq<nat>,                             // what DueTasks returned and is not yet submitted
    channel: seq<nat>,
    held: set<nat>,                            // received by a worker, executeTask not begun
    running: map<nat, Execution>,
    succeeded: set<nat>,
    failed: set<nat>,
    log: seq<Event>                            // history
  )

  datatype Step =
    | Tick(d: nat)
    | Push(pushed: Accepted)                   // lines 387-388
    | Collect(due: seq<nat>)                   // line 555
    | SubmitFirst                              // line 557, accepted
    | HandOver                                 // line 557, accepted by a worker that waits
    | SubmitFails                              // lines 557-561, the channel is full
    | Receive
    | Start(task: nat)
    | Call(task: nat)                          // lines 462-478
    | FinishWithoutCall(task: nat)             // line 462 fails at once
    | Return(task: nat, verdict: Verdict)      // lines 478-488
    | Retry(task: nat)                         // line 466
    | CancelDelay(task: nat)                   // lines 467-468

  predicate InitState(s: State) {
    s == State(s.clock, s.channelSize, [], {}, [], [], {}, map[], {}, {}, [])
  }

  /** The contract of TimerQueue.DueTasks: all that is due, earliest first. */
  ghost predicate IsDueList(s: State, due: seq<nat>) {
    && multiset(due) == multiset(set n | n in s.heap && n < |s.accepted| && s.accepted[n].triggerAt < s.clock)
    && (forall i, j :: 0 <= i < j < |due| && due[i] < |s.accepted| && due[j] < |s.accepted| ==>
          s.accepted[due[i]].triggerAt <= s.accepted[due[j]].triggerAt)
  }

  /** A waiting task with this ID makes TimerQueue.Push refuse another one. */
  ghost predicate IsWaiting(s: State, id: string) {
    exists n :: n in s.heap && n < |s.accepted| && s.accepted[n].id == id
  }

  ghost predicate IsRunning(s: State, n: nat) {
    n in s.running && n < |s.accepted|
  }

  ghost predicate Enabled(s: State, step: Step) {
    match step
    case Tick(_) => true
    case Push(a) => !IsWaiting(s, a.id)
    case Collect(due) => s.due == [] && IsDueList(s, due)
    case SubmitFirst => s.due != [] && |s.channel| < s.channelSize
    case HandOver => s.due != [] && s.channel == []
    case SubmitFails => s.due != [] && |s.channel| >= s.channelSize
    case Receive => s.channel != []
    case Start(n) => n in s.held && n < |s.accepted|
    case Call(n) => IsRunning(s, n) && s.running[n].AtLoop? && s.running[n].attempt <= s.accepted[n].maxRetries
    case FinishWithoutCall(n) => IsRunning(s, n) && s.running[n] == AtLoop(0) && s.accepted[n].maxRetries < 0
    case Return(n, _) => IsRunning(s, n) && s.running[n].Calling?
    case Retry(n) => IsRunning(s, n) && s.running[n].Delaying?
    case CancelDelay(n) => IsRunning(s, n) && s.running[n].Delaying?
  }

  function Apply(s: State, step: Step): State
    requires Enabled(s, step)
  {
    match step
    case Tick(d) => s.(clock := s.clock + d)
    case Push(a) => s.(accepted := s.accepted + [a], heap := s.heap + {|s.accepted|})
    case Collect(due) => s.(due := due, heap := set n | n in s.heap && n !in due)
    case SubmitFirst => s.(due := s.due[1..], channel := s.channel + [s.due[0]])
    case HandOver => s.(due := s.due[1..], held := s.held + {s.due[0]})
    case SubmitFails => s.(due := s.due[1..], failed := s.failed + {s.due[0]})
    case Receive => s.(channel := s.channel[1..], held := s.held + {s.channel[0]})
    case Start(n) =>
      s.(held := s.held - {n}, running := s.running[n := AtLoop(0)], log := s.log + [Started(n, s.clock)])
    case Call(n) =>
      s.(running := s.running[n := Calling(s.running[n].attempt)], log := s.log + [Called(n, s.running[n].attempt)])
    case FinishWithoutCall(n) => s.(running := s.running - {n}, succeeded := s.succeeded + {n})
    case Return(n, r) =>
      var k := s.running[n].attempt;
      var s' := s.(log := s.log + [Returned(n, k, r)]);
      if r == Ok then s'.(running := s.running - {n}, succeeded := s.succeeded + {n})
      else if r == Retryable && k < s.accepted[n].maxRetries then s'.(running := s.running[n := Delaying(k + 1)])
      else s'.(running := s.running - {n}, failed := s.failed + {n})
    case Retry(n) => s.(running := s.running[n := AtLoop(s.running[n].attempt)])
    case CancelDelay(n) => s.(running := s.running - {n}, failed := s.failed + {n})
  }

  ghost predicate IsRun(states: seq<State>, steps: seq<Step>) {
    && |states| == |steps| + 1
    && InitState(states[0])
    && forall i :: 0 <= i < |steps| ==> Enabled(states[i], steps[i]) && states[i + 1] == Apply(states[i], steps[i])
  }

  // ----- Each task is in one place -----

  /** How often a task occurs in all the places together. */
  function Places(s: State, n: nat): nat {
    One(n in s.heap) + multiset(s.due)[n] + multiset(s.channel)[n] + One(n in s.held)
    + One(n in s.running) + One(n in s.succeeded) + One(n in s.failed)
  }

  /** Every accepted task is in exactly one place, exactly once; nothing else is anywhere. */
  ghost predicate OnePlaceEach(s: State) {
    forall n: nat :: Places(s, n) == One(n < |s.accepted|)
  }

  lemma PushKeepsPlaces(s: State, a: Accepted, n: nat)
    requires OnePlaceEach(s) && Enabled(s, Push(a))
    ensures Places(Apply(s, Push(a)), n) == One(n <= |s.accepted|)
  {
    assert Places(s, n) == One(n < |s.accepted|);
  }

  lemma CollectKeepsPlaces(s: State, due: seq<nat>, n: nat)
    requires OnePlaceEach(s) && Enabled(s, Collect(due))
    ensures Places(Apply(s, Collect(due)), n) == One(n < |s.accepted|)
  {
    assert Places(s, n) == One(n < |s.accepted|);
    assert n in due <==> n in multiset(due);
  }

  lemma HeadAndTail(q: seq<nat>, n: nat)
    requires q != []
    ensures multiset(q)[n] == One(q[0] == n) + multiset(q[1..])[n]
  {
    assert q == [q[0]] + q[1..];
  }

  lemma SubmitFirstKeepsPlaces(s: State, n: nat)
    requires OnePlaceEach(s) && Enabled(s, SubmitFirst)
    ensures Places(Apply(s, SubmitFirst), n) == One(n < |s.accepted|)
  {
    assert Places(s, n) == One(n < |s.accepted|);
    HeadAndTail(s.due, n);
  }

  lemma HandOverKeepsPlaces(s: State, n: nat)
    requires OnePlaceEach(s) && Enabled(s, HandOver)
    ensures Places(Apply(s, HandOver), n) == One(n < |s.accepted|)
  {
    assert Places(s, n) == One(n < |s.accepted|);
    HeadAndTail(s.due, n);
  }

  lemma SubmitFailsKeepsPlaces(s: State, n: nat)
    requires OnePlaceEach(s) && Enabled(s, SubmitFails)
    ensures Places(Apply(s, SubmitFails), n) == One(n < |s.accepted|)
  {
    assert Places(s, n) == One(n < |s.accepted|);
    HeadAndTail(s.due, n);
  }

  lemma ReceiveKeepsPlaces(s: State, n: nat)
    requires OnePlaceEach(s) && Enabled(s, Receive)
    ensures Places(Apply(s, Receive), n) == One(n < |s.accepted|)
  {
    assert Places(s, n) == One(n < |s.accepted|);
    HeadAndTail(s.channel, n);
  }

  lemma StartKeepsPlaces(s: State, m: nat, n: nat)
    requires OnePlaceEach(s) && Enabled(s, Start(m))
    ensures Places(Apply(s, Start(m)), n) == One(n < |s.accepted|)
  {
    assert Places(s, n) == One(n < |s.accepted|);
  }

  lemma ReturnKeepsPlaces(s: State, m: nat, r: Verdict, n: nat)
    requires OnePlaceEach(s) && Enabled(s, Return(m, r))
    ensures Places(Apply(s, Return(m, r)), n) == One(n < |s.accepted|)
  {
    assert Places(s, n) == One(n < |s.accepted|);
  }

  lemma FinishKeepsPlaces(s: State, step: Step, n: nat)
    requires OnePlaceEach(s) && Enabled(s, step) && (step.FinishWithoutCall? || step.CancelDelay?)
    ensures Places(Apply(s, step), n) == One(n < |s.accepted|)
  {
    assert Places(s, n) == One(n < |s.accepted|);
  }

  lemma MoveKeepsPlaces(s: State, step: Step, n: nat)
    requires Enabled(s, step) && (step.Call? || step.Retry?)
    ensures Places(Apply(s, step), n) == Places(s, n) && Apply(s, step).accepted == s.accepted
  {
  }

  lemma AcceptedStep(s: State, step: Step)
    requires Enabled(s, step)
    ensures Apply(s, step).accepted == if step.Push? then s.accepted + [step.pushed] else s.accepted
  {
  }

  lemma StepKeepsPlaces(s: State, step: Step, n: nat)
    requires Enabled(s, step) && OnePlaceEach(s)
    ensures Places(Apply(s, step), n) == One(n < |Apply(s, step).accepted|)
  {
    assert Places(s, n) == One(n < |s.accepted|);
    AcceptedStep(s, step);
    match step
    case Push(a) => PushKeepsPlaces(s, a, n);
    case Collect(due) => CollectKeepsPlaces(s, due, n);
    case SubmitFirst => SubmitFirstKeepsPlaces(s, n);
    case HandOver => HandOverKeepsPlaces(s, n);
    case SubmitFails => SubmitFailsKeepsPlaces(s, n);
    case Receive => ReceiveKeepsPlaces(s, n);
    case Start(m) => StartKeepsPlaces(s, m, n);
    case Return(m, r) => ReturnKeepsPlaces(s, m, r, n);
    case FinishWithoutCall(_) => FinishKeepsPlaces(s, step, n);
    case CancelDelay(_) => FinishKeepsPlaces(s, step, n);
    case Call(_) => MoveKeepsPlaces(s, step, n);
    case Retry(_) => MoveKeepsPlaces(s, step, n);
    case Tick(_) =>
  }

  // ----- What is known of each task -----

  /** Its trigger time has passed. */
  predicate Past(s: State, n: nat) {
    n < |s.accepted| && s.accepted[n].triggerAt < s.clock
  }

  /** It has left the heap, but its execution has not begun. */
  predicate OnTheWay(s: State, n: nat) {
    n in s.due || n in s.channel || n in s.held
  }

  predicate NotStarted(s: State, n: nat) {
    n >= |s.accepted| || n in s.heap || OnTheWay(s, n)
  }

  function Starts(log: seq<Event>, n: nat): nat {
    if log == [] then 0
    else var e := log[|log| - 1]; Starts(log[..|log| - 1], n) + One(e.Started? && e.task == n)
  }

  function Calls(log: seq<Event>, n: nat): nat {
    if log == [] then 0
    else var e := log[|log| - 1]; Calls(log[..|log| - 1], n) + One(e.Called? && e.task == n)
  }

  lemma CountsSnoc(log: seq<Event>, e: Event, n: nat)
    ensures Starts(log + [e], n) == Starts(log, n) + One(e.Started? && e.task == n)
    ensures Calls(log + [e], n) == Calls(log, n) + One(e.Called? && e.task == n)
  {
    assert (log + [e])[..|log|] == log;
  }

  /** MaxRetries + 1, and nothing for a negative MaxRetries. */
  function Limit(a: Accepted): nat {
    if a.maxRetries < 0 then 0 else a.maxRetries + 1
  }

  /** An execution at attempt k has called the processor k times (one more inside a call). */
  predicate CallsMatch(log: seq<Event>, n: nat, a: Accepted, x: Execution) {
    match x
    case AtLoop(k) => Calls(log, n) == k <= Limit(a)
    case Delaying(k) => Calls(log, n) == k <= Limit(a)
    case Calling(k) => Calls(log, n) == k + 1 <= Limit(a)
  }

  // ----- What every step keeps, one fact at a time -----

  /** The event that a step records. */
  function Emits(s: State, step: Step): seq<Event>
    requires Enabled(s, step)
  {
    match step
    case Start(n) => [Started(n, s.clock)]
    case Call(n) => [Called(n, s.running[n].attempt)]
    case Return(n, r) => [Returned(n, s.running[n].attempt, r)]
    case _ => []
  }

  lemma LogGrows(s: State, step: Step)
    requires Enabled(s, step)
    ensures Apply(s, step).log == s.log + Emits(s, step)
  {
  }

  lemma AcceptedGrows(s: State, step: Step)
    requires Enabled(s, step)
    ensures s.accepted <= Apply(s, step).accepted && s.clock <= Apply(s, step).clock
  {
  }

  /** What is on the way is past its trigger time. */
  lemma StepKeepsPast(s: State, step: Step, n: nat)
    requires Enabled(s, step)
    requires OnTheWay(s, n) ==> Past(s, n)
    ensures OnTheWay(Apply(s, step), n) ==> Past(Apply(s, step), n)
  {
    AcceptedGrows(s, step);
    if step.Collect? {
      assert n in step.due <==> n in multiset(step.due);
    }
  }

  lemma NotStartedIff(s: State, n: nat)
    requires Places(s, n) == One(n < |s.accepted|)
    ensures NotStarted(s, n) <==> n !in s.running && n !in s.succeeded && n !in s.failed
  {
    assert n in s.due <==> n in multiset(s.due);
    assert n in s.channel <==> n in multiset(s.channel);
  }

  lemma StartedStaysStarted(s: State, step: Step, n: nat)
    requires Enabled(s, step)
    ensures var s' := Apply(s, step);
      && (n in s.running || n in s.succeeded || n in s.failed ==>
            n in s'.running || n in s'.succeeded || n in s'.failed)
      && (n in s'.running ==> n in s.running || step == Start(n))
      && (step == Start(n) ==> n in s'.running && n in s.held)
  {
  }

  /** A task that has started never goes back, and only Start makes it run. */
  lemma NeverGoesBack(s: State, step: Step, n: nat)
    requires Enabled(s, step) && OnePlaceEach(s)
    ensures NotStarted(Apply(s, step), n) ==> NotStarted(s, n)
    ensures n in Apply(s, step).running ==> n in s.running || step == Start(n)
    ensures step == Start(n) ==> NotStarted(s, n) && !NotStarted(Apply(s, step), n)
    ensures n in s.running ==> !NotStarted(s, n)
  {
    assert Places(s, n) == One(n < |s.accepted|);
    NotStartedIff(s, n);
    StepKeepsPlaces(s, step, n);
    NotStartedIff(Apply(s, step), n);
    StartedStaysStarted(s, step, n);
  }

  lemma CountsStep(s: State, step: Step, n: nat)
    requires Enabled(s, step)
    ensures Starts(Apply(s, step).log, n) == Starts(s.log, n) + One(step == Start(n))
    ensures Calls(Apply(s, step).log, n) == Calls(s.log, n) + One(step == Call(n))
  {
    LogGrows(s, step);
    if Emits(s, step) != [] {
      CountsSnoc(s.log, Emits(s, step)[0], n);
    } else {
      assert s.log + [] == s.log;
    }
  }

  ghost predicate StartsOnce(s: State, n: nat) {
    Starts(s.log, n) <= 1 && (NotStarted(s, n) ==> Starts(s.log, n) == 0)
  }

  lemma StepKeepsStartsOnce(s: State, step: Step, n: nat)
    requires Enabled(s, step) && OnePlaceEach(s) && StartsOnce(s, n)
    ensures StartsOnce(Apply(s, step), n)
  {
    NeverGoesBack(s, step, n);
    CountsStep(s, step, n);
  }

  ghost predicate CallsLimited(s: State, n: nat) {
    && (NotStarted(s, n) ==> Calls(s.log, n) == 0)
    && (n < |s.accepted| ==> Calls(s.log, n) <= Limit(s.accepted[n]))
    && (n in s.running ==> n < |s.accepted| && CallsMatch(s.log, n, s.accepted[n], s.running[n]))
  }

  /** How an execution gets from one position to another without a call. */
  predicate MovesOn(a: Accepted, x: Execution, x': Execution) {
    || x' == x
    || (x.Calling? && x.attempt < a.maxRetries && x' == Delaying(x.attempt + 1))
    || (x.Delaying? && x' == AtLoop(x.attempt))
  }

  /** How the execution of `n` and its number of calls get from one state to the next. */
  ghost predicate CallsMoveOn(s: State, s': State, n: nat) {
    && s.accepted <= s'.accepted && (NotStarted(s', n) ==> NotStarted(s, n))
    && if Calls(s'.log, n) == Calls(s.log, n)
       then n in s'.running ==>
         n < |s.accepted|
         && if n in s.running then MovesOn(s.accepted[n], s.running[n], s'.running[n])
            else NotStarted(s, n) && s'.running[n] == AtLoop(0)
       else
         && IsRunning(s, n) && s.running[n].AtLoop? && s.running[n].attempt <= s.accepted[n].maxRetries
         && n in s'.running && s'.running[n] == Calling(s.running[n].attempt) && !NotStarted(s', n)
         && Calls(s'.log, n) == Calls(s.log, n) + 1
  }

  lemma CallsStayLimited(s: State, s': State, n: nat)
    requires CallsLimited(s, n) && CallsMoveOn(s, s', n)
    requires n < |s'.accepted| && n >= |s.accepted| ==> Calls(s.log, n) == Calls(s'.log, n) == 0
    ensures CallsLimited(s', n)
  {
  }

  lemma RunningStep(s: State, step: Step, n: nat)
    requires Enabled(s, step) && n in Apply(s, step).running && step != Call(n)
    requires step == Start(n) ==> n !in s.running
    ensures n in s.running ==> n < |s.accepted| ==> MovesOn(s.accepted[n], s.running[n], Apply(s, step).running[n])
    ensures n !in s.running ==> step == Start(n) && Apply(s, step).running[n] == AtLoop(0)
  {
  }

  lemma CallStep(s: State, n: nat)
    requires Enabled(s, Call(n))
    ensures n in Apply(s, Call(n)).running && Apply(s, Call(n)).running[n] == Calling(s.running[n].attempt)
  {
  }

  lemma StepMovesCallsOn(s: State, step: Step, n: nat)
    requires Enabled(s, step) && OnePlaceEach(s)
    ensures CallsMoveOn(s, Apply(s, step), n)
  {
    NeverGoesBack(s, step, n);
    AcceptedGrows(s, step);
    CountsStep(s, step, n);
    assert Places(s, n) == One(n < |s.accepted|);
    if step == Call(n) {
      CallStep(s, n);
      StepKeepsPlaces(s, step, n);
      NotStartedIff(Apply(s, step), n);
    } else if n in Apply(s, step).running {
      RunningStep(s, step, n);
    }
  }

  lemma StepKeepsCallsLimited(s: State, step: Step, n: nat)
    requires Enabled(s, step) && OnePlaceEach(s) && CallsLimited(s, n)
    ensures CallsLimited(Apply(s, step), n)
  {
    StepMovesCallsOn(s, step, n);
    CallsStayLimited(s, Apply(s, step), n);
  }

  /** A success is due to a reply without error, or to a negative MaxRetries. */
  ghost predicate SuccessExplained(s: State, n: nat) {
    n in s.succeeded ==>
      n < |s.accepted| && (s.accepted[n].maxRetries < 0 || exists k: nat :: Returned(n, k, Ok) in s.log)
  }

  lemma StepKeepsSuccessExplained(s: State, step: Step, n: nat)
    requires Enabled(s, step) && SuccessExplained(s, n)
    ensures SuccessExplained(Apply(s, step), n)
  {
    AcceptedGrows(s, step);
    LogGrows(s, step);
    if step.Return? && step.task == n {
      assert Returned(n, s.running[n].attempt, step.verdict) in Apply(s, step).log;
    }
  }

  /** Every repeated call comes after a retryable error of the attempt before. */
  ghost predicate CallsFollowErrors(log: seq<Event>, n: nat) {
    forall i, k :: 0 <= i < |log| && k > 0 && log[i] == Called(n, k) ==> Returned(n, k - 1, Retryable) in log[..i]
  }

  /** And so does being about to make one. */
  ghost predicate FollowsError(log: seq<Event>, n: nat, x: Execution) {
    !x.Calling? && x.attempt > 0 ==> Returned(n, x.attempt - 1, Retryable) in log
  }

  ghost predicate RetriesCaused(s: State, n: nat) {
    CallsFollowErrors(s.log, n) && (n in s.running ==> FollowsError(s.log, n, s.running[n]))
  }

  lemma OneEventMore(log: seq<Event>, e: Event, n: nat)
    requires CallsFollowErrors(log, n)
    requires e.Called? && e.task == n && e.attempt > 0 ==> Returned(n, e.attempt - 1, Retryable) in log
    ensures CallsFollowErrors(log + [e], n)
  {
    var more := log + [e];
    forall i, k | 0 <= i < |more| && k > 0 && more[i] == Called(n, k)
      ensures Returned(n, k - 1, Retryable) in more[..i]
    {
      if i < |log| {
        assert more[..i] == log[..i];
      } else {
        assert more[..i] == log;
      }
    }
  }

  lemma LogKeepsRetriesCaused(s: State, step: Step, n: nat)
    requires Enabled(s, step) && RetriesCaused(s, n)
    ensures CallsFollowErrors(Apply(s, step).log, n)
  {
    LogGrows(s, step);
    if Emits(s, step) != [] {
      OneEventMore(s.log, Emits(s, step)[0], n);
    } else {
      assert s.log + [] == s.log;
    }
  }

  lemma RunningKeepsRetriesCaused(s: State, step: Step, n: nat)
    requires Enabled(s, step) && RetriesCaused(s, n) && n in Apply(s, step).running
    ensures FollowsError(Apply(s, step).log, n, Apply(s, step).running[n])
  {
    LogGrows(s, step);
  }

  lemma StepKeepsRetriesCaused(s: State, step: Step, n: nat)
    requires Enabled(s, step) && RetriesCaused(s, n)
    ensures RetriesCaused(Apply(s, step), n)
  {
    LogKeepsRetriesCaused(s, step, n);
    if n in Apply(s, step).running {
      RunningKeepsRetriesCaused(s, step, n);
    }
  }

  /** Every recorded start came after the trigger time, and not later than now. */
  ghost predicate StartsOnTime(s: State) {
    forall i :: 0 <= i < |s.log| && s.log[i].Started? ==>
      s.log[i].task < |s.accepted| && s.accepted[s.log[i].task].triggerAt < s.log[i].at <= s.clock
  }

  lemma StepKeepsStartsOnTime(s: State, step: Step)
    requires Enabled(s, step) && StartsOnTime(s)
    requires forall n :: OnTheWay(s, n) ==> Past(s, n)
    ensures StartsOnTime(Apply(s, step))
  {
    AcceptedGrows(s, step);
    LogGrows(s, step);
    if step.Start? {
      assert OnTheWay(s, step.task);
    }
  }

  /** What the processor has replied for a task, in order. */
  function RepliesOf(log: seq<Event>, n: nat): seq<Verdict> {
    if log == [] then []
    else
      var e := log[|log| - 1];
      RepliesOf(log[..|log| - 1], n) + if e.Returned? && e.task == n then [e.verdict] else []
  }

  ghost predicate AllRetryable(replies: seq<Verdict>) {
    forall k :: 0 <= k < |replies| ==> replies[k] == Retryable
  }

  /** Its execution has had only retryable errors so far. */
  ghost predicate IsUnderWay(a: Accepted, x: Execution, replies: seq<Verdict>) {
    && |replies| == x.attempt && AllRetryable(replies)
    && (x.attempt <= a.maxRetries || x == AtLoop(0)) && (x.Delaying? ==> x.attempt > 0)
  }

  ghost predicate HasFailed(a: Accepted, starts: nat, replies: seq<Verdict>) {
    || (starts == 0 && replies == [])
    || Ends(a.maxRetries, replies, EndedBadly) || Ends(a.maxRetries, replies, Interrupted)
  }

  /** An execution ends as the retry loop promises; a task that the pool refused was never executed. */
  ghost predicate EndsAsPromised(s: State, n: nat) {
    var replies := RepliesOf(s.log, n);
    && (NotStarted(s, n) ==> replies == [])
    && (n in s.running ==> n < |s.accepted| && IsUnderWay(s.accepted[n], s.running[n], replies))
    && (n in s.succeeded ==> n < |s.accepted| && Ends(s.accepted[n].maxRetries, replies, EndedWell))
    && (n in s.failed ==> n < |s.accepted| && HasFailed(s.accepted[n], Starts(s.log, n), replies))
  }

  lemma RepliesSnoc(log: seq<Event>, e: Event, n: nat)
    ensures RepliesOf(log + [e], n) == RepliesOf(log, n) + if e.Returned? && e.task == n then [e.verdict] else []
  {
    assert (log + [e])[..|log|] == log;
  }

  lemma RepliesStep(s: State, step: Step, n: nat)
    requires Enabled(s, step)
    ensures RepliesOf(Apply(s, step).log, n)
         == RepliesOf(s.log, n) + if step.Return? && step.task == n then [step.verdict] else []
  {
    LogGrows(s, step);
    if Emits(s, step) != [] {
      RepliesSnoc(s.log, Emits(s, step)[0], n);
    } else {
      assert s.log + [] == s.log;
    }
  }

  /** One more reply, and how it goes on. */
  lemma OneReplyMore(a: Accepted, k: nat, replies: seq<Verdict>, r: Verdict)
    requires IsUnderWay(a, Calling(k), replies)
    ensures var more := replies + [r];
      && (r == Ok ==> Ends(a.maxRetries, more, EndedWell))
      && (r == Retryable && k < a.maxRetries ==> IsUnderWay(a, Delaying(k + 1), more))
      && (r == Permanent || (r == Retryable && k == a.maxRetries) ==> Ends(a.maxRetries, more, EndedBadly))
  {
  }

  lemma OnlyInOnePlace(s: State, n: nat)
    requires OnePlaceEach(s) && n in s.running
    ensures n < |s.accepted| && n !in s.succeeded && n !in s.failed && !NotStarted(s, n)
  {
    assert Places(s, n) == One(n < |s.accepted|);
    NotStartedIff(s, n);
  }

  lemma ReturnKeepsPromise(s: State, n: nat, r: Verdict)
    requires Enabled(s, Return(n, r)) && OnePlaceEach(s) && EndsAsPromised(s, n)
    ensures EndsAsPromised(Apply(s, Return(n, r)), n)
  {
    RepliesStep(s, Return(n, r), n);
    OnlyInOnePlace(s, n);
    OneReplyMore(s.accepted[n], s.running[n].attempt, RepliesOf(s.log, n), r);
  }

  /** The steps with which an execution goes on without a reply. */
  predicate Advances(step: Step, n: nat) {
    (step.Call? || step.FinishWithoutCall? || step.Retry? || step.CancelDelay?) && step.task == n
  }

  lemma AdvanceKeepsPromise(s: State, step: Step, n: nat)
    requires Enabled(s, step) && Advances(step, n) && OnePlaceEach(s) && EndsAsPromised(s, n)
    ensures EndsAsPromised(Apply(s, step), n)
  {
    RepliesStep(s, step, n);
    OnlyInOnePlace(s, n);
  }

  /** Nothing happens to the execution of `n`, except that it starts or is refused. */
  ghost predicate CarriesOver(s: State, s': State, n: nat) {
    && s.accepted <= s'.accepted && RepliesOf(s'.log, n) == RepliesOf(s.log, n)
    && (NotStarted(s', n) ==> NotStarted(s, n))
    && (n in s'.running ==>
          if n in s.running then s'.running[n] == s.running[n] else NotStarted(s, n) && s'.running[n] == AtLoop(0))
    && (n in s'.succeeded ==> n in s.succeeded)
    && (n in s'.failed ==> Starts(s'.log, n) == Starts(s.log, n) && (n in s.failed || NotStarted(s, n)))
    && (n in s'.running || n in s'.failed ==> n < |s.accepted|)
  }

  lemma PromiseCarriesOver(s: State, s': State, n: nat)
    requires EndsAsPromised(s, n) && StartsOnce(s, n) && CarriesOver(s, s', n)
    ensures EndsAsPromised(s', n)
  {
  }

  lemma OtherStepCarriesOver(s: State, step: Step, n: nat)
    requires Enabled(s, step) && !Advances(step, n) && !(step.Return? && step.task == n) && OnePlaceEach(s)
    ensures CarriesOver(s, Apply(s, step), n)
  {
    RepliesStep(s, step, n);
    CountsStep(s, step, n);
    NeverGoesBack(s, step, n);
    AcceptedGrows(s, step);
    assert Places(s, n) == One(n < |s.accepted|);
    assert n in s.due <==> n in multiset(s.due);
  }

  lemma OtherStepKeepsPromise(s: State, step: Step, n: nat)
    requires Enabled(s, step) && !Advances(step, n) && !(step.Return? && step.task == n)
    requires OnePlaceEach(s) && EndsAsPromised(s, n) && StartsOnce(s, n)
    ensures EndsAsPromised(Apply(s, step), n)
  {
    OtherStepCarriesOver(s, step, n);
    PromiseCarriesOver(s, Apply(s, step), n);
  }

  lemma StepKeepsPromise(s: State, step: Step, n: nat)
    requires Enabled(s, step) && OnePlaceEach(s) && EndsAsPromised(s, n) && StartsOnce(s, n)
    ensures EndsAsPromised(Apply(s, step), n)
  {
    if step.Return? && step.task == n {
      ReturnKeepsPromise(s, n, step.verdict);
    } else if Advances(step, n) {
      AdvanceKeepsPromise(s, step, n);
    } else {
      OtherStepKeepsPromise(s, step, n);
    }
  }

  // ----- Runs -----

  ghost predicate Invariant(s: State) {
    && OnePlaceEach(s)
    && StartsOnTime(s)
    && (forall n: nat :: OnTheWay(s, n) ==> Past(s, n))
    && (forall n: nat :: StartsOnce(s, n))
    && (forall n: nat :: CallsLimited(s, n))
    && (forall n: nat :: SuccessExplained(s, n))
    && (forall n: nat :: RetriesCaused(s, n))
    && (forall n: nat :: EndsAsPromised(s, n))
  }

  lemma StepKeepsInvariant(s: State, step: Step)
    requires Enabled(s, step) && Invariant(s)
    ensures Invariant(Apply(s, step))
  {
    var s' := Apply(s, step);
    StepKeepsStartsOnTime(s, step);
    forall n: nat
      ensures Places(s', n) == One(n < |s'.accepted|) && (OnTheWay(s', n) ==> Past(s', n))
      ensures StartsOnce(s', n) && CallsLimited(s', n) && SuccessExplained(s', n) && RetriesCaused(s', n)
      ensures EndsAsPromised(s', n)
    {
      StepKeepsPlaces(s, step, n);
      StepKeepsPast(s, step, n);
      StepKeepsStartsOnce(s, step, n);
      StepKeepsCallsLimited(s, step, n);
      StepKeepsSuccessExplained(s, step, n);
      StepKeepsRetriesCaused(s, step, n);
      StepKeepsPromise(s, step, n);
    }
  }

  /**
   * In every state of every run: each accepted task is in exactly one place; it starts at
   * most once, and only after its trigger time; the processor is called for it at most
   * MaxRetries + 1 times, a repeated call only after a retryable error; a success has its
   * reason; and each execution ends as the retry loop promises.
   */
  lemma {:induction false} TimerPathSafety(states: seq<State>, steps: seq<Step>, i: nat)
    requires IsRun(states, steps) && i < |states|
    ensures Invariant(states[i])
  {
    if i > 0 {
      TimerPathSafety(states, steps, i - 1);
      RunStep(states, steps, i - 1);
      StepKeepsInvariant(states[i - 1], steps[i - 1]);
    }
  }

  /**
   * No task that has left the heap gets stuck: in every reachable state it is finished, or it
   * is first in its list and can move, or it waits only for those in front of it.
   */
  lemma TaskGoesOn(s: State, n: nat)
    requires Invariant(s) && n < |s.accepted| && n !in s.heap && n !in s.succeeded && n !in s.failed
    ensures n in s.due ==> Enabled(s, SubmitFirst) || Enabled(s, HandOver) || Enabled(s, SubmitFails)
    ensures n in s.channel ==> Enabled(s, Receive)
    ensures n in s.held ==> Enabled(s, Start(n))
    ensures n in s.running ==>
      match s.running[n]
      case AtLoop(_) => Enabled(s, Call(n)) || Enabled(s, FinishWithoutCall(n))
      case Calling(_) => forall r :: Enabled(s, Return(n, r))
      case Delaying(_) => Enabled(s, Retry(n)) && Enabled(s, CancelDelay(n))
    ensures n in s.due || n in s.channel || n in s.held || n in s.running
  {
    assert EndsAsPromised(s, n);
    WaitingGoesOn(s, n);
    RunningGoesOn(s, n);
  }

  lemma WaitingGoesOn(s: State, n: nat)
    requires OnePlaceEach(s) && n < |s.accepted| && n !in s.heap && n !in s.succeeded && n !in s.failed
    ensures n in s.due ==> Enabled(s, SubmitFirst) || Enabled(s, HandOver) || Enabled(s, SubmitFails)
    ensures n in s.channel ==> Enabled(s, Receive)
    ensures n in s.held ==> Enabled(s, Start(n))
    ensures n in s.due || n in s.channel || n in s.held || n in s.running
  {
    assert Places(s, n) == One(n < |s.accepted|);
    assert n in s.due <==> n in multiset(s.due);
    assert n in s.channel <==> n in multiset(s.channel);
  }

  lemma RunningGoesOn(s: State, n: nat)
    requires EndsAsPromised(s, n)
    ensures n in s.running ==>
      match s.running[n]
      case AtLoop(_) => Enabled(s, Call(n)) || Enabled(s, FinishWithoutCall(n))
      case Calling(_) => forall r :: Enabled(s, Return(n, r))
      case Delaying(_) => Enabled(s, Retry(n)) && Enabled(s, CancelDelay(n))
  {
  }

  lemma RunStep(states: seq<State>, steps: seq<Step>, i: nat)
    requires IsRun(states, steps) && i < |steps|
    ensures Enabled(states[i], steps[i]) && states[i + 1] == Apply(states[i], steps[i])
  {
  }

  // ----- The timer queue behind it -----

  /** `number` names the tasks of a timer queue by the pushes that accepted them. */
  ghost predicate Numbers(s: State, tasks: set<QueuedTask>, number: map<QueuedTask, nat>) {
    && number.Keys == tasks && s.heap == number.Values
    && (forall t, u :: t in number && u in number && number[t] == number[u] ==> t == u)
    && (forall t :: t in number ==> number[t] < |s.accepted| && s.accepted[number[t]].triggerAt == t.triggerAt)
  }

  ghost function Numbered(list: seq<QueuedTask>, number: map<QueuedTask, nat>): seq<nat>
    requires forall t :: t in list ==> t in number
  {
    seq(|list|, i requires 0 <= i < |list| => number[list[i]])
  }

  /** What TimerQueue.DueTasks returns at the clock of the state is a due list of the state. */
  lemma DueTasksIsDueList(s: State, tasks: set<QueuedTask>, number: map<QueuedTask, nat>, list: seq<QueuedTask>)
    requires Numbers(s, tasks, number)
    requires multiset(list) == multiset(Timers.Due(tasks, s.clock)) && Timers.SortedByTrigger(list)
    ensures forall t :: t in list ==> t in number
    ensures IsDueList(s, Numbered(list, number))
  {
    SetListing(list, Timers.Due(tasks, s.clock));
    var due := Numbered(list, number);
    forall i, j | 0 <= i < j < |due| ensures due[i] != due[j] {
      assert list[i] in list && list[j] in list;
    }
    forall n: nat ensures n in due <==> n in s.heap && n < |s.accepted| && s.accepted[n].triggerAt < s.clock {
      DueNumber(s, tasks, number, list, n);
    }
    ListingOf(due, set n | n in s.heap && n < |s.accepted| && s.accepted[n].triggerAt < s.clock);
    forall i, j | 0 <= i < j < |due| ensures s.accepted[due[i]].triggerAt <= s.accepted[due[j]].triggerAt {
      assert list[i] in list && list[j] in list;
    }
  }

  lemma DueNumber(s: State, tasks: set<QueuedTask>, number: map<QueuedTask, nat>, list: seq<QueuedTask>, n: nat)
    requires Numbers(s, tasks, number)
    requires forall t :: t in list <==> t in Timers.Due(tasks, s.clock)
    ensures n in Numbered(list, number) <==> n in s.heap && n < |s.accepted| && s.accepted[n].triggerAt < s.clock
  {
    if n in Numbered(list, number) {
      var i :| 0 <= i < |list| && Numbered(list, number)[i] == n;
      assert list[i] in list;
    }
    if n in s.heap && s.accepted[n].triggerAt < s.clock {
      var t :| t in number && number[t] == n;
      assert t in list;
      assert Numbered(list, number)[Index(list, t)] == n;
    }
  }
}
