/** Task execution with retries, from messaging/queue/queue.go. */
module Retry {
  import opened Common
  import opened Tasks

  /**
   * An error as isRetryableError sees it: whether it wraps one of the predefined
   * retryable errors, what Temporary() says if it implements RetryableError or
   * net.Error, and its text.
   */
  datatype TaskError = TaskError(predefined: bool, retryable: Option<bool>, network: Option<bool>, text: string)

  predicate StartsAt(text: string, part: string, i: nat) {
    i + |part| <= |text| && text[i..i + |part|] == part
  }

  /** strings.Contains. */
  predicate HasSubstring(text: string, part: string) {
    exists i: nat :: i <= |text| && StartsAt(text, part, i)
  }

  predicate IsRetryable(e: TaskError) {
    if e.predefined then true
    else if e.retryable.Some? then e.retryable.value
    else if e.network.Some? then e.network.value
    else if HasSubstring(e.text, "connection refused") then true
    else if HasSubstring(e.text, "no such host") then false
    else HasSubstring(e.text, "timeout")
  }

  /** `part` occurs in `text`. */
  lemma HasSubstringIff(text: string, part: string)
    ensures HasSubstring(text, part) <==> exists before, after :: text == before + part + after
  {
    if i: nat :| i <= |text| && StartsAt(text, part, i) {
      assert text == text[..i] + part + text[i + |part|..];
    }
    if before, after :| text == before + part + after {
      assert StartsAt(text, part, |before|);
    }
  }

  /**
   * Which errors are retried: the predefined ones; then what the error says of itself, as a
   * RetryableError before as a network error; then a refused connection, and a timeout
   * unless the host is unknown.
   */
  lemma RetryableIff(e: TaskError)
    ensures e.predefined ==> IsRetryable(e)
    ensures !e.predefined && e.retryable.Some? ==> (IsRetryable(e) <==> e.retryable == Some(true))
    ensures !e.predefined && e.retryable.None? && e.network.Some? ==> (IsRetryable(e) <==> e.network == Some(true))
    ensures !e.predefined && e.retryable.None? && e.network.None? ==>
      (IsRetryable(e) <==>
        HasSubstring(e.text, "connection refused")
        || (HasSubstring(e.text, "timeout") && !HasSubstring(e.text, "no such host")))
  {
  }

  datatype Failure = ProcessorError(e: TaskError) | ContextCanceled

  /** The error, if any, that the processor returns when it is called for the k-th time. */
  type Processor = nat -> Option<TaskError>

  /**
   * What processTaskWithRetry promises: `calls` invocations of the processor, each but
   * the last of which failed with a retryable error, and no interruption in between;
   * then success, a permanent or final error, or a cancellation during the next wait.
   */
  ghost predicate IsOutcome(maxRetries: int, process: Processor, canceled: nat -> bool, calls: nat,
                            err: Option<Failure>)
  {
    && (forall k :: 0 <= k < calls - 1 ==> process(k).Some? && IsRetryable(process(k).value))
    && (forall k :: 0 < k < calls ==> !canceled(k))
    && calls <= (if maxRetries < 0 then 0 else maxRetries + 1)
    && match err
       case None => (calls == 0 && maxRetries < 0) || (calls > 0 && process(calls - 1).None?)
       case Some(ProcessorError(e)) =>
         calls > 0 && process(calls - 1) == Some(e) && (!IsRetryable(e) || calls == maxRetries + 1)
       case Some(ContextCanceled) =>
         0 < calls <= maxRetries && process(calls - 1).Some? && IsRetryable(process(calls - 1).value) && canceled(calls)
  }

  /** The promise leaves no choice: it determines the number of calls and the result. */
  lemma OutcomeIsUnique(maxRetries: int, process: Processor, canceled: nat -> bool,
                        calls: nat, err: Option<Failure>, calls': nat, err': Option<Failure>)
    requires IsOutcome(maxRetries, process, canceled, calls, err)
    requires IsOutcome(maxRetries, process, canceled, calls', err')
    ensures calls == calls' && err == err'
  {
    NoFurtherCall(maxRetries, process, canceled, calls, err, calls', err');
    NoFurtherCall(maxRetries, process, canceled, calls', err', calls, err);
  }

  lemma NoFurtherCall(maxRetries: int, process: Processor, canceled: nat -> bool,
                      calls: nat, err: Option<Failure>, calls': nat, err': Option<Failure>)
    requires IsOutcome(maxRetries, process, canceled, calls, err)
    requires IsOutcome(maxRetries, process, canceled, calls', err')
    ensures calls' <= calls
  {
  }

  /**
   * A task is reported as a success without its processor ever having been called exactly
   * when its MaxRetries is negative. Push keeps a negative value: it replaces only zero.
   */
  lemma SuccessWithoutACall(maxRetries: int, process: Processor, canceled: nat -> bool, calls: nat,
                            err: Option<Failure>)
    requires IsOutcome(maxRetries, process, canceled, calls, err)
    ensures calls == 0 <==> maxRetries < 0
    ensures err.None? && calls == 0 <==> maxRetries < 0
  {
  }

  function VerdictOf(reply: Option<TaskError>): Verdict {
    if reply.None? then Ok else if IsRetryable(reply.value) then Retryable else Permanent
  }

  function Replies(process: Processor, calls: nat): seq<Verdict> {
    seq(calls, k requires 0 <= k < calls => VerdictOf(process(k)))
  }

  function EndingOf(err: Option<Failure>): Ending {
    match err
    case None => EndedWell
    case Some(ProcessorError(_)) => EndedBadly
    case Some(ContextCanceled) => Interrupted
  }

  /** Seen from outside, the retry loop ends as `Ends` says. */
  lemma OutcomeEnds(maxRetries: int, process: Processor, canceled: nat -> bool, calls: nat, err: Option<Failure>)
    requires IsOutcome(maxRetries, process, canceled, calls, err)
    ensures Ends(maxRetries, Replies(process, calls), EndingOf(err))
  {
  }

  /** A processor that gives these replies. */
  function Replying(replies: seq<Verdict>): Processor {
    (k: nat) =>
      if k >= |replies| || replies[k] == Ok then None
      else Some(TaskError(replies[k] == Retryable, Some(false), None, ""))
  }

  lemma RepliesAre(replies: seq<Verdict>)
    ensures Replies(Replying(replies), |replies|) == replies
    ensures forall k: nat :: k < |replies| ==> VerdictOf(Replying(replies)(k)) == replies[k]
  {
    forall k: nat | k < |replies| ensures VerdictOf(Replying(replies)(k)) == replies[k] {
      if replies[k] != Ok {
        var e := Replying(replies)(k).value;
        assert IsRetryable(e) <==> e.predefined;
      }
    }
  }

  /** And in each of these ways it can end. */
  lemma EndsIsOutcome(maxRetries: int, replies: seq<Verdict>, end: Ending)
    returns (process: Processor, canceled: nat -> bool, err: Option<Failure>)
    requires Ends(maxRetries, replies, end)
    ensures IsOutcome(maxRetries, process, canceled, |replies|, err)
    ensures Replies(process, |replies|) == replies && EndingOf(err) == end
  {
    process := Replying(replies);
    RepliesAre(replies);
    assert forall k: nat :: k < |replies| && replies[k] == Retryable ==>
      process(k).Some? && IsRetryable(process(k).value);
    canceled := (k: nat) => end == Interrupted && k == |replies|;
    err := match end
      case EndedWell => None
      case EndedBadly => Some(ProcessorError(process(|replies| - 1).value))
      case Interrupted => Some(ContextCanceled);
  }

  /** The counters of the queue that executing a task changes. */
  class Executor {
    var processing: map<string, QueuedTask>
    var processCount: int
    var activeTasks: int
    var successCount: int
    var failureCount: int
    var retryCount: int

    constructor ()
      ensures processing == map[] && processCount == activeTasks == successCount == failureCount == retryCount == 0
    {
      processing := map[];
      processCount, activeTasks, successCount, failureCount, retryCount := 0, 0, 0, 0, 0;
    }

    /** processTaskWithRetry. */
    method ProcessTaskWithRetry(task: QueuedTask, process: Processor, canceled: nat -> bool)
      returns (err: Option<Failure>, ghost calls: nat)
      modifies this`retryCount, task
      ensures IsOutcome(task.maxRetries, process, canceled, calls, err)
      ensures task.maxRetries == old(task.maxRetries) && task.priority == old(task.priority)
      ensures task.retryCount == old(task.retryCount) + if calls > 0 then calls - 1 else 0
      ensures retryCount == old(retryCount) + if calls > 0 then calls - 1 else 0
      ensures task.status == if calls <= 1 then old(task.status) else Retrying
    {
      err, calls := None, 0;
      var attempt := 0;
      while attempt <= task.maxRetries
        invariant attempt == calls <= (if task.maxRetries < 0 then 0 else task.maxRetries + 1)
        invariant task.maxRetries == old(task.maxRetries) && task.priority == old(task.priority)
        invariant forall k :: 0 <= k < calls ==> process(k).Some? && IsRetryable(process(k).value)
        invariant forall k :: 0 < k < calls ==> !canceled(k)
        invariant err == if calls == 0 then None else Some(ProcessorError(process(calls - 1).value))
        invariant task.retryCount == old(task.retryCount) + if calls > 0 then calls - 1 else 0
        invariant retryCount == old(retryCount) + if calls > 0 then calls - 1 else 0
        invariant task.status == if calls <= 1 then old(task.status) else Retrying
        decreases task.maxRetries - attempt
      {
        if attempt > 0 {
          if canceled(attempt) {
            return Some(ContextCanceled), calls;
          }
          task.retryCount := task.retryCount + 1;
          task.status := Retrying;
          retryCount := retryCount + 1;
        }
        var result := process(attempt);
        calls := calls + 1;
        if result.None? {
          return None, calls;
        }
        err := Some(ProcessorError(result.value));
        if !IsRetryable(result.value) {
          return err, calls;
        }
        attempt := attempt + 1;
      }
    }

    /** executeTask: the task is in the processing map only while it runs. */
    method ExecuteTask(task: QueuedTask, process: Processor, canceled: nat -> bool)
      returns (err: Option<Failure>, ghost calls: nat)
      modifies this, task
      ensures IsOutcome(old(task.maxRetries), process, canceled, calls, err)
      ensures task.status == if err.None? then Completed else Failed
      ensures successCount == old(successCount) + if err.None? then 1 else 0
      ensures failureCount == old(failureCount) + if err.None? then 0 else 1
      ensures processCount == old(processCount) + 1 && activeTasks == old(activeTasks)
      ensures processing == old(processing) - {task.id}
    {
      task.status := Running;
      processCount := processCount + 1;
      activeTasks := activeTasks + 1;
      processing := processing[task.id := task];
      err, calls := ProcessTaskWithRetry(task, process, canceled);
      Finish(task, err);
    }

    /** Lines 445-452, and the deferred updates of lines 436 and 440. */
    method Finish(task: QueuedTask, err: Option<Failure>)
      modifies this`processing, this`activeTasks, this`successCount, this`failureCount, task`status
      ensures task.status == if err.None? then Completed else Failed
      ensures successCount == old(successCount) + One(err.None?) && failureCount == old(failureCount) + One(err.Some?)
      ensures activeTasks == old(activeTasks) - 1 && processing == old(processing) - {task.id}
    {
      if err.Some? {
        task.status := Failed;
        failureCount := failureCount + 1;
      } else {
        task.status := Completed;
        successCount := successCount + 1;
      }
      processing := processing - {task.id};
      activeTasks := activeTasks - 1;
    }
  }
}
