/** The multi-level priority queue of messaging/queue/priority.go. */
module PriorityQueue {
  import opened Common
  import opened Tasks

  /** All levels as one list, from the highest level to the lowest. */
  ghost function Flat(levels: seq<seq<QueuedTask>>): seq<QueuedTask> {
    if levels == [] then [] else levels[|levels| - 1] + Flat(levels[..|levels| - 1])
  }

  lemma {:induction false} FlatConcat(a: seq<seq<QueuedTask>>, b: seq<seq<QueuedTask>>)
    ensures Flat(a + b) == Flat(b) + Flat(a)
  {
    if b == [] {
      assert a + b == a;
    } else {
      assert (a + b)[..|a + b| - 1] == a + b[..|b| - 1];
      FlatConcat(a, b[..|b| - 1]);
    }
  }

  /** What lies above level `p`, the level itself, and what lies below it. */
  lemma FlatSplit(levels: seq<seq<QueuedTask>>, p: nat, level: seq<QueuedTask>)
    requires p < |levels|
    ensures Flat(levels) == Flat(levels[p + 1..]) + levels[p] + Flat(levels[..p])
    ensures Flat(levels[p := level]) == Flat(levels[p + 1..]) + level + Flat(levels[..p])
  {
    assert levels == levels[..p] + [levels[p]] + levels[p + 1..];
    assert levels[p := level] == levels[..p] + [level] + levels[p + 1..];
    FlatConcat(levels[..p] + [levels[p]], levels[p + 1..]);
    FlatConcat(levels[..p] + [level], levels[p + 1..]);
    FlatConcat(levels[..p], [levels[p]]);
    FlatConcat(levels[..p], [level]);
    assert Flat([levels[p]]) == levels[p] && Flat([level]) == level;
  }

  lemma {:induction false} FlatMember(levels: seq<seq<QueuedTask>>, t: QueuedTask)
    requires t in Flat(levels)
    ensures exists p :: 0 <= p < |levels| && t in levels[p]
  {
    if t !in levels[|levels| - 1] {
      FlatMember(levels[..|levels| - 1], t);
      var p :| 0 <= p < |levels| - 1 && t in levels[..|levels| - 1][p];
      assert t in levels[p];
    }
  }

  lemma {:induction false} FlatEmpty(levels: seq<seq<QueuedTask>>)
    requires forall p :: 0 <= p < |levels| ==> levels[p] == []
    ensures Flat(levels) == []
  {
    if levels != [] {
      FlatEmpty(levels[..|levels| - 1]);
    }
  }

  lemma LevelsAreIndexed(levels: seq<seq<QueuedTask>>, tasks: set<QueuedTask>)
    requires multiset(Flat(levels)) == multiset(tasks)
    ensures forall p, t :: 0 <= p < |levels| && t in levels[p] ==> t in tasks
  {
    SetListing(Flat(levels), tasks);
    forall p, t | 0 <= p < |levels| && t in levels[p] ensures t in tasks {
      FlatSplit(levels, p, []);
      assert t in Flat(levels);
    }
  }

  /** The levels hold exactly the indexed tasks, each once. */
  ghost predicate Indexes(lookup: map<string, QueuedTask>, levels: seq<seq<QueuedTask>>) {
    && WellIndexed(lookup)
    && multiset(Flat(levels)) == multiset(lookup.Values)
    && (forall p, t :: 0 <= p < |levels| && t in levels[p] ==> t in lookup.Values)
  }

  ghost predicate EmptyAbove(levels: seq<seq<QueuedTask>>, i: int) {
    forall p :: i < p < |levels| && 0 <= p ==> levels[p] == []
  }

  function RemoveIndex<T>(s: seq<T>, i: nat): seq<T>
    requires i < |s|
  {
    s[..i] + s[i + 1..]
  }

  /** Inserting `task` behind all tasks of priority `p` or higher, before all lower ones. */
  ghost predicate InsertsAt(before: seq<QueuedTask>, task: QueuedTask, p: int, at: nat, after: seq<QueuedTask>)
    reads before
  {
    && at <= |before|
    && after == before[..at] + [task] + before[at..]
    && (forall k :: 0 <= k < at ==> before[k].priority >= p)
    && (forall k :: at <= k < |before| ==> before[k].priority < p)
  }

  /**
   * What an insertion means, position by position: the task stands at `at`; everything before
   * it, which includes all of its own priority, and everything behind it is as it was.
   */
  lemma InsertedAt(before: seq<QueuedTask>, task: QueuedTask, p: int, at: nat, after: seq<QueuedTask>)
    requires InsertsAt(before, task, p, at, after)
    ensures |after| == |before| + 1 && at < |after| && after[at] == task
    ensures forall k :: 0 <= k < at ==> after[k] == before[k] && before[k].priority >= p
    ensures forall k :: at < k < |after| ==> after[k] == before[k - 1] && before[k - 1].priority < p
  {
  }

  lemma RemovedAt<T>(s: seq<T>, i: nat)
    requires i < |s|
    ensures |RemoveIndex(s, i)| == |s| - 1
    ensures forall k :: 0 <= k < |s| - 1 ==> RemoveIndex(s, i)[k] == s[if k < i then k else k + 1]
  {
  }

  lemma InsertsBetween(above: seq<QueuedTask>, level: seq<QueuedTask>, below: seq<QueuedTask>, task: QueuedTask, p: int)
    requires forall t :: t in above ==> t.priority >= p
    requires forall t :: t in level ==> t.priority >= p
    requires forall t :: t in below ==> t.priority < p
    ensures InsertsAt(above + level + below, task, p, |above| + |level|, above + (level + [task]) + below)
  {
    var c := above + level + below;
    assert c[..|above| + |level|] == above + level && c[|above| + |level|..] == below;
  }

  lemma {:induction false} DescendIn(levels: seq<seq<QueuedTask>>, i: nat, j: nat)
    requires forall p, t :: 0 <= p < |levels| && t in levels[p] ==> t.priority == p
    requires i < j < |Flat(levels)|
    ensures Flat(levels)[i].priority >= Flat(levels)[j].priority
  {
    var top, rest := levels[|levels| - 1], levels[..|levels| - 1];
    assert Flat(levels) == top + Flat(rest);
    if j < |top| {
      assert Flat(levels)[i] in top && Flat(levels)[j] in top;
    } else {
      var t := Flat(levels)[j];
      assert t == Flat(rest)[j - |top|] && t in Flat(rest);
      FlatMember(rest, t);
      if i < |top| {
        assert Flat(levels)[i] in top;
      } else {
        DescendIn(rest, i - |top|, j - |top|);
      }
    }
  }

  /** What stands before and after a level has a higher or a lower priority. */
  lemma LevelBounds(levels: seq<seq<QueuedTask>>, p: nat)
    requires forall q, t :: 0 <= q < |levels| && t in levels[q] ==> t.priority == q
    requires p < |levels|
    ensures forall t :: t in Flat(levels[p + 1..]) ==> t.priority > p
    ensures forall t :: t in Flat(levels[..p]) ==> t.priority < p
  {
    forall t | t in Flat(levels[p + 1..]) ensures t.priority > p {
      FlatMember(levels[p + 1..], t);
      var q :| 0 <= q < |levels[p + 1..]| && t in levels[p + 1..][q];
      assert t in levels[p + 1 + q];
    }
    forall t | t in Flat(levels[..p]) ensures t.priority < p {
      FlatMember(levels[..p], t);
    }
  }

  /** Behind everything of at least its priority, before everything of a lower one. */
  lemma InsertPosition(levels: seq<seq<QueuedTask>>, p: nat, task: QueuedTask) returns (at: nat)
    requires forall q, t :: 0 <= q < |levels| && t in levels[q] ==> t.priority == q
    requires p < |levels|
    ensures InsertsAt(Flat(levels), task, p, at, Flat(levels[p := levels[p] + [task]]))
  {
    LevelBounds(levels, p);
    FlatSplit(levels, p, levels[p] + [task]);
    var above, below := Flat(levels[p + 1..]), Flat(levels[..p]);
    InsertsBetween(above, levels[p], below, task, p);
    at := |above| + |levels[p]|;
  }

  class PriorityQueue {
    const capacity: int
    const maxPrio: int
    var levels: seq<seq<QueuedTask>>
    var lookup: map<string, QueuedTask>
    var size: int
    var enqueueCount: int
    var dequeueCount: int
    /** How many tasks were cancelled or cleared; the source does not count them. */
    ghost var dropped: int

    /** The abstract value: one list in the order in which tasks will be popped. */
    ghost function Contents(): seq<QueuedTask>
      reads this
    {
      Flat(levels)
    }

    /**
     * The levels hold exactly the indexed tasks, each once, in the level of its priority;
     * `size` is their number; every enqueued task is accounted for.
     */
    ghost predicate Valid()
      reads this, lookup.Values`priority
    {
      && 1 <= maxPrio && |levels| == maxPrio + 1
      && Indexes(lookup, levels)
      && (forall p, t :: 0 <= p < |levels| && t in levels[p] ==> t.priority == p)
      && size == |Contents()|
      && (size > 0 ==> size <= capacity)
      && enqueueCount == dequeueCount + size + dropped
    }

    /** NewPriorityQueue. */
    constructor (capacity: int, maxPriority: int)
      ensures Valid() && Contents() == [] && enqueueCount == dequeueCount == dropped == 0
      ensures this.capacity == capacity && maxPrio == if maxPriority < 1 then 1 else maxPriority
    {
      this.capacity := capacity;
      var top := if maxPriority < 1 then 1 else maxPriority;
      maxPrio := top;
      var empty: seq<seq<QueuedTask>> := seq(top + 1, _ => []);
      levels, lookup, size := empty, map[], 0;
      enqueueCount, dequeueCount, dropped := 0, 0, 0;
      FlatEmpty(empty);
    }

    /** The list is ordered by descending priority. */
    lemma ContentsDescend(i: nat, j: nat)
      requires Valid() && i < j < |Contents()|
      ensures Contents()[i].priority >= Contents()[j].priority
    {
      DescendIn(levels, i, j);
    }

    /** Of two tasks the one with the higher priority stands first. */
    lemma HigherStandsFirst(i: nat, j: nat)
      requires Valid() && i < |Contents()| && j < |Contents()|
      requires Contents()[i].priority < Contents()[j].priority
      ensures j < i
    {
      if i < j {
        ContentsDescend(i, j);
      }
    }

    function Clamp(priority: int): int {
      if priority < 0 then 0 else if priority > maxPrio then maxPrio else priority
    }

    /** PriorityQueue.Push. On success the task goes behind all tasks of its level. */
    method Push(task: QueuedTask?) returns (err: Option<QueueError>, ghost at: nat)
      requires Valid()
      modifies this`levels, this`lookup, this`size, this`enqueueCount, task
      ensures Valid() && enqueueCount == old(enqueueCount) + One(err.None?)
      ensures err == (if task == null then Some(InvalidTask)
                      else if |old(Contents())| >= capacity then Some(QueueFull)
                      else if task.id in old(lookup) then Some(DuplicateTask)
                      else None)
      ensures err.Some? ==> Contents() == old(Contents()) && (task != null ==> unchanged(task))
      ensures err.None? ==> task !in old(Contents()) && 0 <= task.priority <= maxPrio
      ensures err.None? && 0 <= old(task.priority) <= maxPrio ==> task.priority == old(task.priority)
      ensures err.None? && old(task.priority) < 0 ==> task.priority == 0
      ensures err.None? && old(task.priority) > maxPrio ==> task.priority == maxPrio
      ensures task != null ==> task.status == old(task.status) && task.maxRetries == old(task.maxRetries)
      ensures err.None? ==> InsertsAt(old(Contents()), task, task.priority, at, Contents())
    {
      at := 0;
      if task == null {
        return Some(InvalidTask), at;
      }
      if size >= capacity {
        return Some(QueueFull), at;
      }
      if task.id in lookup {
        return Some(DuplicateTask), at;
      }
      at := Accept(task);
      return None, at;
    }

    /** Lines 112-127. */
    method Accept(task: QueuedTask) returns (ghost at: nat)
      requires Valid() && size < capacity && task.id !in lookup
      modifies this`levels, this`lookup, this`size, this`enqueueCount, task`priority
      ensures Valid() && enqueueCount == old(enqueueCount) + 1 && task !in old(Contents())
      ensures task.priority == Clamp(old(task.priority)) && 0 <= task.priority <= maxPrio
      ensures InsertsAt(old(Contents()), task, task.priority, at, Contents())
    {
      IndexAdd(lookup, task);
      SetListing(Contents(), lookup.Values);
      task.priority := Clamp(task.priority);
      at := AppendToLevel(task);
    }

    /** Lines 123-127. */
    method AppendToLevel(task: QueuedTask) returns (ghost at: nat)
      requires Valid() && size < capacity && task.id !in lookup && 0 <= task.priority <= maxPrio
      modifies this`levels, this`lookup, this`size, this`enqueueCount
      ensures Valid() && enqueueCount == old(enqueueCount) + 1
      ensures InsertsAt(old(Contents()), task, task.priority, at, Contents())
    {
      var p := task.priority;
      at := InsertPosition(levels, p, task);
      IndexesMore(lookup, levels, p, task);
      levels := levels[p := levels[p] + [task]];
      lookup := lookup[task.id := task];
      size := size + 1;
      enqueueCount := enqueueCount + 1;
    }

    /** Lines 196-213: the first `take` tasks of the highest level that is not empty. */
    method TakeFromLevel(i: nat, take: nat) returns (taken: seq<QueuedTask>)
      requires Valid() && i < |levels| && take <= |levels[i]| && EmptyAbove(levels, i)
      modifies this`levels, this`lookup, this`size, this`dequeueCount
      ensures Valid() && dequeueCount == old(dequeueCount) + take
      ensures take <= |old(Contents())| && taken == old(Contents())[..take] && Contents() == old(Contents())[take..]
      ensures levels == old(levels)[i := old(levels)[i][take..]]
    {
      TakeFlat(levels, i, take);
      taken := levels[i][..take];
      var rest := levels[i := levels[i][take..]];
      lookup := Forget(lookup, taken, rest);
      levels := rest;
      size := size - take;
      dequeueCount := dequeueCount + take;
    }

    /** PriorityQueue.Pop. */
    method Pop() returns (task: QueuedTask?)
      requires Valid()
      modifies this`levels, this`lookup, this`size, this`dequeueCount
      ensures Valid() && dequeueCount == old(dequeueCount) + One(task != null)
      ensures old(Contents()) == [] ==> task == null && Contents() == []
      ensures old(Contents()) != [] ==> task == old(Contents())[0] && Contents() == old(Contents())[1..]
    {
      if size == 0 {
        return null;
      }
      var i := maxPrio;
      while i >= 0
        invariant -1 <= i <= maxPrio && unchanged(this) && EmptyAbove(levels, i)
      {
        if |levels[i]| > 0 {
          var taken := TakeFromLevel(i, 1);
          return taken[0];
        }
        i := i - 1;
      }
      FlatEmpty(levels);
      assert false;
    }

    /** PriorityQueue.PopBatch: as many Pops as there are tasks, but at most `n`. */
    method PopBatch(n: int) returns (tasks: seq<QueuedTask>)
      requires Valid()
      modifies this`levels, this`lookup, this`size, this`dequeueCount
      ensures Valid() && dequeueCount == old(dequeueCount) + |tasks|
      ensures tasks == old(Contents())[..Min(n, |old(Contents())|)]
      ensures Contents() == old(Contents())[Min(n, |old(Contents())|)..]
    {
      if n <= 0 || size == 0 {
        return [];
      }
      tasks := [];
      var remaining := n;
      var i := maxPrio;
      while i >= 0 && remaining > 0
        invariant -1 <= i <= maxPrio && Valid() && 0 <= remaining == n - |tasks|
        invariant tasks + Contents() == old(Contents()) && dequeueCount == old(dequeueCount) + |tasks|
        invariant remaining > 0 ==> EmptyAbove(levels, i)
      {
        var taken := TakeUpTo(i, remaining);
        Regroup(tasks, taken, Contents());
        tasks := tasks + taken;
        remaining := remaining - |taken|;
        i := i - 1;
      }
      if remaining > 0 {
        FlatEmpty(levels);
      }
      BatchOf(tasks, Contents(), n);
    }

    /** Lines 184-213: one round of PopBatch. */
    method TakeUpTo(i: nat, remaining: nat) returns (taken: seq<QueuedTask>)
      requires Valid() && i < |levels| && EmptyAbove(levels, i) && remaining > 0
      modifies this`levels, this`lookup, this`size, this`dequeueCount
      ensures dequeueCount == old(dequeueCount) + |taken|
      ensures Valid() && taken + Contents() == old(Contents()) && |taken| <= remaining
      ensures |taken| < remaining ==> EmptyAbove(levels, i - 1)
    {
      var count := |levels[i]|;
      if count == 0 {
        return [];
      }
      taken := TakeFromLevel(i, if count > remaining then remaining else count);
    }

    /** PriorityQueue.Peek. */
    method Peek() returns (task: QueuedTask?)
      requires Valid()
      ensures Contents() == [] ==> task == null
      ensures Contents() != [] ==> task == Contents()[0]
    {
      var i := maxPrio;
      while i >= 0
        invariant -1 <= i <= maxPrio && EmptyAbove(levels, i)
      {
        if |levels[i]| > 0 {
          FlatSplit(levels, i, []);
          FlatEmpty(levels[i + 1..]);
          return levels[i][0];
        }
        i := i - 1;
      }
      FlatEmpty(levels);
      return null;
    }

    /** PriorityQueue.PeekBatch: what PopBatch would return. */
    method PeekBatch(n: int) returns (tasks: seq<QueuedTask>)
      requires Valid()
      ensures tasks == Contents()[..Min(n, |Contents()|)]
    {
      if n <= 0 {
        return [];
      }
      tasks := [];
      var remaining := n;
      var i := maxPrio;
      assert levels[..maxPrio + 1] == levels;
      while i >= 0 && remaining > 0
        invariant -1 <= i <= maxPrio && 0 <= remaining == n - |tasks|
        invariant tasks <= Contents()
        invariant remaining > 0 ==> tasks + Flat(levels[..i + 1]) == Contents()
      {
        var count := |levels[i]|;
        var take := if count > remaining then remaining else count;
        PeekStep(Contents(), tasks, levels, i, take);
        if count != 0 {
          tasks := tasks + levels[i][..take];
          remaining := remaining - take;
        } else {
          assert tasks + levels[i][..take] == tasks;
        }
        i := i - 1;
      }
    }

    /** The loops of lines 231 and 275: where the task with this ID stands in its level. */
    method FindInLevel(taskID: string) returns (i: nat)
      requires Valid() && taskID in lookup
      ensures var task := lookup[taskID];
        && 0 <= task.priority < |levels| && i < |levels[task.priority]| && levels[task.priority][i] == task
    {
      var task := lookup[taskID];
      SetListing(Contents(), lookup.Values);
      FlatMember(levels, task);
      var level := levels[task.priority];
      i := 0;
      while i < |level|
        invariant i <= |level| && forall k :: 0 <= k < i ==> level[k].id != taskID
      {
        if level[i].id == taskID {
          assert level[i] in level;
          IndexOf(lookup, level[i]);
          return;
        }
        i := i + 1;
      }
      assert false;
    }

    /** PriorityQueue.Cancel: the task leaves the list, everything else stays in order. */
    method Cancel(taskID: string) returns (found: bool, ghost at: nat)
      requires Valid()
      modifies this`levels, this`lookup, this`size, this`dropped
      ensures Valid() && dropped == old(dropped) + One(found)
      ensures found <==> taskID in old(lookup)
      ensures !found ==> Contents() == old(Contents())
      ensures found ==> at < |old(Contents())| && old(Contents())[at] == old(lookup)[taskID]
                        && Contents() == RemoveIndex(old(Contents()), at)
    {
      at := 0;
      if taskID !in lookup {
        return false, at;
      }
      var i := FindInLevel(taskID);
      at := RemoveFromLevel(taskID, i);
      return true, at;
    }

    /** Lines 234-236. */
    method RemoveFromLevel(taskID: string, i: nat) returns (ghost at: nat)
      requires Valid() && taskID in lookup && 0 <= lookup[taskID].priority < |levels|
      requires i < |levels[lookup[taskID].priority]| && levels[lookup[taskID].priority][i] == lookup[taskID]
      modifies this`levels, this`lookup, this`size, this`dropped
      ensures Valid() && dropped == old(dropped) + 1
      ensures at < |old(Contents())| && old(Contents())[at] == old(lookup)[taskID]
      ensures Contents() == RemoveIndex(old(Contents()), at)
    {
      var p := lookup[taskID].priority;
      at := RemoveFlat(levels, p, i);
      IndexesLess(lookup, levels, p, i);
      levels := levels[p := RemoveIndex(levels[p], i)];
      lookup := lookup - {taskID};
      size := size - 1;
      dropped := dropped + 1;
    }

    /**
     * PriorityQueue.UpdatePriority: the task leaves its place and is inserted behind all
     * tasks of its new priority; everything else stays in order.
     */
    method UpdatePriority(taskID: string, newPriority: int) returns (found: bool, ghost from: nat, ghost to: nat)
      requires Valid()
      modifies this`levels, lookup.Values
      ensures Valid()
      ensures found <==> taskID in old(lookup)
      ensures forall t :: t in lookup.Values && t.id != taskID ==> unchanged(t)
      ensures found && 0 <= newPriority <= maxPrio ==> lookup[taskID].priority == newPriority
      ensures found && newPriority < 0 ==> lookup[taskID].priority == 0
      ensures found && newPriority > maxPrio ==> lookup[taskID].priority == maxPrio
      ensures !found || old(lookup[taskID].priority) == lookup[taskID].priority ==> Contents() == old(Contents())
      ensures found && old(lookup[taskID].priority) != lookup[taskID].priority ==>
        && from < |old(Contents())| && old(Contents())[from] == lookup[taskID]
        && InsertsAt(RemoveIndex(old(Contents()), from), lookup[taskID], lookup[taskID].priority, to, Contents())
    {
      from, to := 0, 0;
      if taskID !in lookup {
        return false, from, to;
      }
      var task := lookup[taskID];
      var priority := Clamp(newPriority);
      if task.priority == priority {
        return true, from, to;
      }
      from, to := MoveToLevel(taskID, priority);
      return true, from, to;
    }

    /** Lines 273-290. */
    method MoveToLevel(taskID: string, priority: nat) returns (ghost from: nat, ghost to: nat)
      requires Valid() && taskID in lookup && priority <= maxPrio
      modifies this`levels, lookup[taskID]
      ensures Valid() && lookup[taskID].priority == priority
      ensures from < |old(Contents())| && old(Contents())[from] == lookup[taskID]
      ensures InsertsAt(RemoveIndex(old(Contents()), from), lookup[taskID], priority, to, Contents())
    {
      var i := FindInLevel(taskID);
      from, to := MoveFrom(lookup[taskID], i, priority);
    }

    /** Lines 277-287. */
    method MoveFrom(task: QueuedTask, i: nat, priority: nat) returns (ghost from: nat, ghost to: nat)
      requires Valid() && task in lookup.Values && priority <= maxPrio
      requires 0 <= task.priority < |levels| && i < |levels[task.priority]| && levels[task.priority][i] == task
      modifies this`levels, task
      ensures Valid() && task.priority == priority
      ensures from < |old(Contents())| && old(Contents())[from] == task
      ensures InsertsAt(RemoveIndex(old(Contents()), from), task, priority, to, Contents())
    {
      var p := task.priority;
      from := RemoveFlat(levels, p, i);
      GoneFrom(lookup, levels, p, i);
      IndexesMoved(lookup, levels, p, i, priority);
      var without := levels[p := RemoveIndex(levels[p], i)];
      ShorterLevels(levels, p, i);
      SetPriority(task, priority, without);
      to := InsertPosition(without, priority, task);
      levels := without[priority := without[priority] + [task]];
    }

    /** A task that is in no level may change its priority. */
    method SetPriority(task: QueuedTask, priority: int, ghost without: seq<seq<QueuedTask>>)
      requires forall q, t :: 0 <= q < |without| && t in without[q] ==> t.priority == q
      requires forall q :: 0 <= q < |without| ==> task !in without[q]
      modifies task`priority
      ensures task.priority == priority
      ensures forall q, t :: 0 <= q < |without| && t in without[q] ==> t.priority == q
    {
      task.priority := priority;
      forall q, t | 0 <= q < |without| && t in without[q] ensures t.priority == q {
        assert task !in without[q];
        assert old(t.priority) == q;
      }
    }

    /** PriorityQueue.Clear. */
    method Clear()
      requires Valid()
      modifies this`levels, this`lookup, this`size, this`dropped
      ensures Valid() && Contents() == [] && dropped == old(dropped) + |old(Contents())|
    {
      var i := 0;
      while i < |levels|
        invariant 0 <= i <= |levels| == maxPrio + 1
        invariant forall q :: 0 <= q < i ==> levels[q] == []
        invariant size == old(size) && dropped == old(dropped)
      {
        levels := levels[i := []];
        i := i + 1;
      }
      FlatEmpty(levels);
      dropped := dropped + size;
      lookup, size := map[], 0;
    }
  }

  lemma ShorterLevels(levels: seq<seq<QueuedTask>>, p: nat, i: nat)
    requires p < |levels| && i < |levels[p]|
    ensures var without := levels[p := RemoveIndex(levels[p], i)];
      forall q, t :: 0 <= q < |without| && t in without[q] ==> t in levels[q]
  {
  }

  /** Removing position `i` of level `p` removes one position of the list. */
  lemma RemoveFlat(levels: seq<seq<QueuedTask>>, p: nat, i: nat) returns (at: nat)
    requires p < |levels| && i < |levels[p]|
    ensures at < |Flat(levels)| && Flat(levels)[at] == levels[p][i]
    ensures Flat(levels[p := RemoveIndex(levels[p], i)]) == RemoveIndex(Flat(levels), at)
  {
    FlatSplit(levels, p, RemoveIndex(levels[p], i));
    var above, below := Flat(levels[p + 1..]), Flat(levels[..p]);
    RemoveBetween(above, levels[p], below, i);
    at := |above| + i;
  }

  lemma RemoveBetween<T>(above: seq<T>, level: seq<T>, below: seq<T>, i: nat)
    requires i < |level|
    ensures RemoveIndex(above + level + below, |above| + i) == above + RemoveIndex(level, i) + below
    ensures (above + level + below)[|above| + i] == level[i]
  {
  }

  lemma RemoveMultiset<T>(s: seq<T>, i: nat)
    requires i < |s|
    ensures multiset(RemoveIndex(s, i)) == multiset(s) - multiset{s[i]}
  {
    assert s == s[..i] + [s[i]] + s[i + 1..];
  }

  lemma IndexesLess(lookup: map<string, QueuedTask>, levels: seq<seq<QueuedTask>>, p: nat, i: nat)
    requires Indexes(lookup, levels) && p < |levels| && i < |levels[p]|
    ensures levels[p][i].id in lookup
    ensures Indexes(lookup - {levels[p][i].id}, levels[p := RemoveIndex(levels[p], i)])
  {
    var t := levels[p][i];
    assert t in levels[p];
    IndexOf(lookup, t);
    IndexRemove(lookup, t.id);
    var at := RemoveFlat(levels, p, i);
    RemoveMultiset(Flat(levels), at);
    LevelsAreIndexed(levels[p := RemoveIndex(levels[p], i)], (lookup - {t.id}).Values);
  }

  lemma GoneFrom(lookup: map<string, QueuedTask>, levels: seq<seq<QueuedTask>>, p: nat, i: nat)
    requires Indexes(lookup, levels) && p < |levels| && i < |levels[p]|
    ensures var without := levels[p := RemoveIndex(levels[p], i)];
      forall r :: 0 <= r < |without| ==> levels[p][i] !in without[r]
  {
    var t := levels[p][i];
    assert t in levels[p];
    IndexOf(lookup, t);
    IndexRemove(lookup, t.id);
    IndexesLess(lookup, levels, p, i);
  }

  lemma IndexesMoved(lookup: map<string, QueuedTask>, levels: seq<seq<QueuedTask>>, p: nat, i: nat, q: nat)
    requires Indexes(lookup, levels) && p < |levels| && i < |levels[p]| && q < |levels|
    ensures var without := levels[p := RemoveIndex(levels[p], i)];
      && Indexes(lookup, without[q := without[q] + [levels[p][i]]])
      && |Flat(without[q := without[q] + [levels[p][i]]])| == |Flat(levels)|
  {
    var t := levels[p][i];
    var without := levels[p := RemoveIndex(levels[p], i)];
    assert t in levels[p];
    IndexOf(lookup, t);
    IndexesLess(lookup, levels, p, i);
    IndexesMore(lookup - {t.id}, without, q, t);
    assert (lookup - {t.id})[t.id := t] == lookup;
    var at := RemoveFlat(levels, p, i);
  }

  lemma BatchOf<T>(batch: seq<T>, rest: seq<T>, n: nat)
    requires |batch| == n || (|batch| < n && rest == [])
    ensures var all, m := batch + rest, Min(n, |batch + rest|); batch == all[..m] && rest == all[m..]
  {
  }

  lemma PeekStep(c: seq<QueuedTask>, tasks: seq<QueuedTask>, levels: seq<seq<QueuedTask>>, i: nat, take: nat)
    requires i < |levels| && take <= |levels[i]|
    requires tasks + Flat(levels[..i + 1]) == c
    ensures tasks + levels[i][..take] <= c
    ensures take == |levels[i]| ==> tasks + levels[i][..take] + Flat(levels[..i]) == c
  {
    assert levels[..i + 1][..i] == levels[..i];
    assert Flat(levels[..i + 1]) == levels[i] + Flat(levels[..i]);
  }

  lemma InsertMultiset<T>(s: seq<T>, at: nat, x: T)
    requires at <= |s|
    ensures multiset(s[..at] + [x] + s[at..]) == multiset(s) + multiset{x}
  {
    assert s == s[..at] + s[at..];
  }

  lemma TakeFlat(levels: seq<seq<QueuedTask>>, i: nat, take: nat)
    requires i < |levels| && take <= |levels[i]| && EmptyAbove(levels, i)
    ensures var taken, rest := levels[i][..take], levels[i := levels[i][take..]];
      Flat(levels) == taken + Flat(rest) && |taken| == take
      && taken == Flat(levels)[..take] && Flat(rest) == Flat(levels)[take..]
  {
    FlatSplit(levels, i, levels[i][take..]);
    FlatEmpty(levels[i + 1..]);
    assert levels[i] == levels[i][..take] + levels[i][take..];
  }

  lemma InsertAtLevelEnd(levels: seq<seq<QueuedTask>>, p: nat, task: QueuedTask)
    requires p < |levels|
    ensures var at := |Flat(levels[p + 1..])| + |levels[p]|;
      && at <= |Flat(levels)|
      && Flat(levels[p := levels[p] + [task]]) == Flat(levels)[..at] + [task] + Flat(levels)[at..]
      && Flat(levels)[..at] == Flat(levels[p + 1..]) + levels[p]
      && Flat(levels)[at..] == Flat(levels[..p])
  {
    FlatSplit(levels, p, levels[p] + [task]);
  }

  lemma AppendMultiset(levels: seq<seq<QueuedTask>>, p: nat, task: QueuedTask)
    requires p < |levels|
    ensures multiset(Flat(levels[p := levels[p] + [task]])) == multiset(Flat(levels)) + multiset{task}
    ensures |Flat(levels[p := levels[p] + [task]])| == |Flat(levels)| + 1
  {
    InsertAtLevelEnd(levels, p, task);
    InsertMultiset(Flat(levels), |Flat(levels[p + 1..])| + |levels[p]|, task);
  }

  lemma IndexesMore(lookup: map<string, QueuedTask>, levels: seq<seq<QueuedTask>>, p: nat, task: QueuedTask)
    requires WellIndexed(lookup) && multiset(Flat(levels)) == multiset(lookup.Values)
    requires task.id !in lookup && p < |levels|
    ensures Indexes(lookup[task.id := task], levels[p := levels[p] + [task]])
    ensures |Flat(levels[p := levels[p] + [task]])| == |Flat(levels)| + 1
  {
    IndexAdd(lookup, task);
    AppendMultiset(levels, p, task);
    LevelsAreIndexed(levels[p := levels[p] + [task]], lookup[task.id := task].Values);
  }

  /** Lines 200-202: delete the taken tasks from the index. */
  method Forget(lookup: map<string, QueuedTask>, taken: seq<QueuedTask>, ghost levels: seq<seq<QueuedTask>>)
    returns (left: map<string, QueuedTask>)
    requires WellIndexed(lookup) && multiset(taken + Flat(levels)) == multiset(lookup.Values)
    ensures Indexes(left, levels)
  {
    left := lookup;
    ghost var rest := Flat(levels);
    assert taken[0..] == taken;
    for i := 0 to |taken|
      invariant WellIndexed(left) && multiset(taken[i..] + rest) == multiset(left.Values)
    {
      SetListing(taken[i..] + rest, left.Values);
      var t := taken[i];
      assert taken[i..] + rest == [t] + (taken[i + 1..] + rest);
      assert t in taken[i..] + rest;
      IndexOf(left, t);
      IndexRemove(left, t.id);
      left := left - {t.id};
    }
    assert taken[|taken|..] + rest == rest;
    LevelsAreIndexed(levels, left.Values);
  }
}
