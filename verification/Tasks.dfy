/** The queued task of messaging/queue/queue.go and the errors of the queues. */
module Tasks {
  import opened Common

  datatype Status = Pending | Running | Completed | Failed | Canceled | Retrying

  datatype QueueError = InvalidTask | QueueFull | TaskExists | DuplicateTask

  /** Times are relative to the zero time.Time. */
  const ZERO_TIME: Time := 0

  /**
   * A task. Nobody changes the ID or the trigger time of a task once it has been made,
   * which the constant fields express.
   */
  class QueuedTask {
    const id: string
    const triggerAt: Time
    var priority: int
    var status: Status
    var retryCount: int
    var maxRetries: int

    constructor (id: string, triggerAt: Time, priority: int, maxRetries: int)
      ensures this.id == id && this.triggerAt == triggerAt && this.priority == priority
      ensures this.maxRetries == maxRetries && retryCount == 0 && status == Pending
    {
      this.id, this.triggerAt, this.priority := id, triggerAt, priority;
      this.maxRetries, retryCount, status := maxRetries, 0, Pending;
    }
  }

  // ----- How the attempts at a task end -----

  datatype Verdict = Ok | Retryable | Permanent

  datatype Ending = EndedWell | EndedBadly | Interrupted

  /**
   * The replies of the processor, one per attempt, and how the execution ends after them:
   * all but the last are retryable errors, and there are at most MaxRetries + 1.
   */
  predicate Ends(maxRetries: int, replies: seq<Verdict>, end: Ending) {
    && |replies| <= (if maxRetries < 0 then 0 else maxRetries + 1)
    && (forall k :: 0 <= k < |replies| - 1 ==> replies[k] == Retryable)
    && match end
       case EndedWell => if replies == [] then maxRetries < 0 else replies[|replies| - 1] == Ok
       case EndedBadly =>
         && replies != []
         && (replies[|replies| - 1] == Permanent
             || (replies[|replies| - 1] == Retryable && |replies| == maxRetries + 1))
       case Interrupted => 0 < |replies| <= maxRetries && replies[|replies| - 1] == Retryable
  }

  // ----- The ID index that both queues keep -----

  /** Every task is indexed under its own ID. */
  ghost predicate WellIndexed(lookup: map<string, QueuedTask>) {
    forall id :: id in lookup ==> lookup[id].id == id
  }

  lemma IndexOf(lookup: map<string, QueuedTask>, t: QueuedTask)
    requires WellIndexed(lookup) && t in lookup.Values
    ensures t.id in lookup && lookup[t.id] == t
  {
    var id :| id in lookup && lookup[id] == t;
  }

  lemma IndexAdd(lookup: map<string, QueuedTask>, t: QueuedTask)
    requires WellIndexed(lookup) && t.id !in lookup
    ensures WellIndexed(lookup[t.id := t]) && t !in lookup.Values
    ensures lookup[t.id := t].Values == lookup.Values + {t}
    ensures multiset(lookup[t.id := t].Values) == multiset(lookup.Values) + multiset{t}
  {
    var more := lookup[t.id := t];
    assert more[t.id] == t;
    assert forall id :: id in lookup ==> more[id] == lookup[id];
  }

  lemma IndexRemove(lookup: map<string, QueuedTask>, id: string)
    requires WellIndexed(lookup) && id in lookup
    ensures WellIndexed(lookup - {id})
    ensures (lookup - {id}).Values == lookup.Values - {lookup[id]}
    ensures multiset((lookup - {id}).Values) == multiset(lookup.Values) - multiset{lookup[id]}
  {
    var less := lookup - {id};
    forall t | t in lookup.Values && t != lookup[id] ensures t in less.Values {
      IndexOf(lookup, t);
      assert less[t.id] == t;
    }
  }
}
