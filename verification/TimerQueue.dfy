/** The heap-ordered timer queue of messaging/queue/timer.go. */
module TimerQueue {
  import opened Common
  import opened Tasks

  function Parent(k: nat): nat
    requires k > 0
  {
    (k - 1) / 2
  }

  predicate Before(h: seq<QueuedTask>, i: nat, j: nat)
    requires i < |h| && j < |h|
  {
    h[i].triggerAt < h[j].triggerAt
  }

  ghost predicate OrderedAt(h: seq<QueuedTask>, k: nat)
    requires 0 < k < |h|
  {
    !Before(h, k, Parent(k))
  }

  /** Every element of the first `n` is at least as late as its parent. */
  ghost predicate IsHeap(h: seq<QueuedTask>, n: nat)
    requires n <= |h|
  {
    forall k :: 0 < k < n ==> OrderedAt(h, k)
  }

  /** Heap order except that the element at `i` may be out of place in either direction. */
  ghost predicate IsHeapExcept(h: seq<QueuedTask>, n: nat, i: nat)
    requires n <= |h|
  {
    && (forall k :: 0 < k < n && k != i && Parent(k) != i ==> OrderedAt(h, k))
    && (forall k :: 0 < k < n && Parent(k) == i && i > 0 ==> !Before(h, k, Parent(i)))
  }

  /** The elements below `i` are in place. */
  ghost predicate ChildrenInPlace(h: seq<QueuedTask>, n: nat, i: nat)
    requires n <= |h|
  {
    forall k :: 0 < k < n && Parent(k) == i ==> OrderedAt(h, k)
  }

  /** The root of a heap is its earliest element. */
  lemma {:induction false} RootIsEarliest(h: seq<QueuedTask>, n: nat, k: nat)
    requires k < n <= |h| && IsHeap(h, n)
    ensures h[0].triggerAt <= h[k].triggerAt
    decreases k
  {
    if k > 0 {
      assert OrderedAt(h, k);
      RootIsEarliest(h, n, Parent(k));
    }
  }

  function Swap(h: seq<QueuedTask>, i: nat, j: nat): (r: seq<QueuedTask>)
    requires i < |h| && j < |h|
    ensures |r| == |h| && multiset(r) == multiset(h)
  {
    h[i := h[j]][j := h[i]]
  }

  /** One step of sifting up: the misplaced element trades places with its parent. */
  lemma UpStep(h: seq<QueuedTask>, n: nat, j: nat)
    requires 0 < j < n <= |h| && IsHeapExcept(h, n, j) && ChildrenInPlace(h, n, j)
    requires Before(h, j, Parent(j))
    ensures var g := Swap(h, Parent(j), j);
      IsHeapExcept(g, n, Parent(j)) && ChildrenInPlace(g, n, Parent(j))
  {
    var i := Parent(j);
    var g := Swap(h, i, j);
    assert i > 0 ==> OrderedAt(h, i);
    forall k | 0 < k < n && k != i ensures OrderedAt(g, k) {
      if k != j && Parent(k) != j {
        assert OrderedAt(h, k);
      } else if Parent(k) == j {
        assert OrderedAt(h, k) && !Before(h, k, i);
      }
    }
    forall k | 0 < k < n && Parent(k) == i && i > 0 ensures !Before(g, k, Parent(i)) {
      assert k != j ==> OrderedAt(h, k);
    }
  }

  /** One step of sifting down: the misplaced element trades places with its earlier child. */
  lemma DownStep(h: seq<QueuedTask>, n: nat, i: nat, j: nat)
    requires 0 < j < n <= |h| && Parent(j) == i && IsHeapExcept(h, n, i)
    requires Before(h, j, i)
    requires forall k :: 0 < k < n && Parent(k) == i ==> !Before(h, k, j)
    ensures var g := Swap(h, i, j); IsHeapExcept(g, n, j) && OrderedAt(g, j)
  {
    var g := Swap(h, i, j);
    forall k | 0 < k < n && k != j && Parent(k) != j ensures OrderedAt(g, k) {
      if k == i {
        assert !Before(h, j, Parent(i));
      } else if Parent(k) == i {
        assert !Before(h, k, j);
      } else {
        assert OrderedAt(h, k);
      }
    }
    forall k | 0 < k < n && Parent(k) == j ensures !Before(g, k, Parent(j)) {
      assert OrderedAt(h, k);
    }
  }

  lemma ChildrenOf(k: nat, i: nat)
    requires k > 0
    ensures Parent(k) == i <==> k == 2 * i + 1 || k == 2 * i + 2
  {
  }

  lemma Childless(h: seq<QueuedTask>, n: nat, i: nat)
    requires n <= |h| && 2 * i + 1 >= n
    ensures ChildrenInPlace(h, n, i)
  {
    assert forall k: nat :: k > 0 && Parent(k) == i ==> k >= n;
  }

  /** The earlier of the children. */
  function EarlierChild(h: seq<QueuedTask>, n: nat, i: nat): (j: nat)
    requires 2 * i + 1 < n <= |h|
    ensures 0 < j < n && Parent(j) == i
  {
    var j1 := 2 * i + 1;
    if j1 + 1 < n && Before(h, j1 + 1, j1) then j1 + 1 else j1
  }

  lemma EarlierChildIsEarliest(h: seq<QueuedTask>, n: nat, i: nat)
    requires 2 * i + 1 < n <= |h|
    ensures forall k :: 0 < k < n && Parent(k) == i ==> !Before(h, k, EarlierChild(h, n, i))
    ensures !Before(h, EarlierChild(h, n, i), i) ==> ChildrenInPlace(h, n, i)
  {
    forall k | 0 < k < n && Parent(k) == i ensures !Before(h, k, EarlierChild(h, n, i)) {
      ChildrenOf(k, i);
    }
  }

  /** An insertion at the end, or a replacement, disturbs the heap at that place only. */
  lemma ReplaceAt(h: seq<QueuedTask>, n: nat, i: nat, g: seq<QueuedTask>)
    requires n <= |h| && n <= |g| && i < n
    requires IsHeap(h, n)
    requires forall k :: 0 <= k < n && k != i ==> g[k] == h[k]
    ensures IsHeapExcept(g, n, i)
  {
    forall k | 0 < k < n && k != i && Parent(k) != i ensures OrderedAt(g, k) {
      assert OrderedAt(h, k);
    }
    forall k | 0 < k < n && Parent(k) == i && i > 0 ensures !Before(g, k, Parent(i)) {
      assert OrderedAt(h, k) && OrderedAt(h, i);
    }
  }

  lemma RepairedHeap(h: seq<QueuedTask>, n: nat, i: nat)
    requires n <= |h| && IsHeapExcept(h, n, i) && ChildrenInPlace(h, n, i)
    requires 0 < i < n ==> OrderedAt(h, i)
    ensures IsHeap(h, n)
  {
    forall k | 0 < k < n ensures OrderedAt(h, k) {
      if k != i && Parent(k) != i {
        assert OrderedAt(h, k);
      }
    }
  }

  lemma SamePrefix(h: seq<QueuedTask>, g: seq<QueuedTask>, n: nat)
    requires n <= |h| && n <= |g| && IsHeap(h, n)
    requires forall k :: 0 <= k < n ==> g[k] == h[k]
    ensures IsHeap(g, n)
  {
    forall k | 0 < k < n ensures OrderedAt(g, k) {
      assert OrderedAt(h, k);
    }
  }

  lemma AppendAtEnd(h: seq<QueuedTask>, task: QueuedTask)
    requires IsHeap(h, |h|)
    ensures IsHeapExcept(h + [task], |h| + 1, |h|) && ChildrenInPlace(h + [task], |h| + 1, |h|)
  {
    SamePrefix(h, h + [task], |h|);
  }

  lemma RootIsEarliestOfAll(items: seq<QueuedTask>, tasks: set<QueuedTask>)
    requires items != [] && IsHeap(items, |items|) && multiset(items) == multiset(tasks)
    ensures forall t :: t in tasks ==> items[0].triggerAt <= t.triggerAt
  {
    SetListing(items, tasks);
    forall t | t in tasks ensures items[0].triggerAt <= t.triggerAt {
      var k :| 0 <= k < |items| && items[k] == t;
      RootIsEarliest(items, |items|, k);
    }
  }

  /** The tasks that are due at `now`: those whose trigger time lies before it. */
  ghost function Due(tasks: set<QueuedTask>, now: Time): set<QueuedTask> {
    set t | t in tasks && t.triggerAt < now
  }

  ghost predicate SortedByTrigger(tasks: seq<QueuedTask>) {
    forall i, j :: 0 <= i < j < |tasks| ==> tasks[i].triggerAt <= tasks[j].triggerAt
  }

  class TimerQueue {
    var items: seq<QueuedTask>
    const capacity: int
    var lookup: map<string, QueuedTask>
    var enqueueCount: int
    var dequeueCount: int
    var cancelCount: int
    var overdueCount: int
    /** How many tasks Clear has discarded; the source does not count them. */
    ghost var cleared: int

    /**
     * The heap holds exactly the indexed tasks, each once and under its own ID; the size
     * stays within the capacity; every enqueued task is accounted for.
     */
    ghost predicate Valid()
      reads this
    {
      && IsHeap(items, |items|)
      && multiset(items) == multiset(lookup.Values)
      && WellIndexed(lookup)
      && |items| <= capacity
      && enqueueCount == dequeueCount + cancelCount + |items| + cleared
    }

    /** The abstract value: the set of waiting tasks. */
    ghost function Contents(): set<QueuedTask>
      reads this
    {
      lookup.Values
    }

    /** NewTimerQueue. */
    constructor (capacity: int)
      ensures Valid() && Contents() == {} && this.capacity == if capacity <= 0 then 1000 else capacity
      ensures enqueueCount == dequeueCount == cancelCount == overdueCount == cleared == 0
    {
      this.capacity := if capacity <= 0 then 1000 else capacity;
      items, lookup := [], map[];
      enqueueCount, dequeueCount, cancelCount, overdueCount, cleared := 0, 0, 0, 0, 0;
    }

    /** up, from container/heap. It only touches `j0` and its ancestors. */
    method Up(j0: nat, ghost n: nat)
      requires j0 < n <= |items| && IsHeapExcept(items, n, j0) && ChildrenInPlace(items, n, j0)
      modifies this`items
      ensures multiset(items) == old(multiset(items)) && |items| == old(|items|)
      ensures forall k :: n <= k < |items| ==> items[k] == old(items)[k]
      ensures IsHeap(items, n)
    {
      var j: nat := j0;
      while true
        invariant j < n <= |items| == old(|items|) && multiset(items) == old(multiset(items))
        invariant forall k :: n <= k < |items| ==> items[k] == old(items)[k]
        invariant IsHeapExcept(items, n, j) && ChildrenInPlace(items, n, j)
        decreases j
      {
        var i := if j == 0 then 0 else (j - 1) / 2;
        if i == j || !Before(items, j, i) {
          break;
        }
        UpStep(items, n, j);
        items := Swap(items, i, j);
        j := i;
      }
      RepairedHeap(items, n, j);
    }

    /** down, from container/heap: sift within the first `n`, and tell whether anything moved. */
    method Down(i0: nat, n: nat) returns (moved: bool)
      requires i0 <= n <= |items| && IsHeapExcept(items, n, i0)
      modifies this`items
      ensures multiset(items) == old(multiset(items)) && |items| == old(|items|)
      ensures forall k :: n <= k < |items| ==> items[k] == old(items)[k]
      ensures moved ==> IsHeap(items, n)
      ensures !moved ==> items == old(items) && ChildrenInPlace(items, n, i0)
    {
      var i := i0;
      while true
        invariant i0 <= i <= n <= |items| == old(|items|) && multiset(items) == old(multiset(items))
        invariant forall k :: n <= k < |items| ==> items[k] == old(items)[k]
        invariant IsHeapExcept(items, n, i)
        invariant i == i0 ==> items == old(items)
        invariant i > i0 ==> i < n && OrderedAt(items, i)
        decreases n - i
      {
        if 2 * i + 1 >= n {
          Childless(items, n, i);
          break;
        }
        var j := EarlierChild(items, n, i);
        EarlierChildIsEarliest(items, n, i);
        if !Before(items, j, i) {
          break;
        }
        DownStep(items, n, i, j);
        items := Swap(items, i, j);
        i := j;
      }
      assert ChildrenInPlace(items, n, i);
      moved := i > i0;
      if moved {
        RepairedHeap(items, n, i);
      }
    }

    /** heap.Push. */
    method HeapPush(task: QueuedTask)
      requires IsHeap(items, |items|)
      modifies this`items
      ensures IsHeap(items, |items|) && multiset(items) == old(multiset(items)) + multiset{task}
      ensures |items| == old(|items|) + 1
    {
      ghost var h := items;
      items := items + [task];
      AppendAtEnd(h, task);
      Up(|items| - 1, |items|);
    }

    /** heap.Remove, which for position 0 is heap.Pop. */
    method HeapRemove(i: nat) returns (task: QueuedTask)
      requires i < |items| && IsHeap(items, |items|)
      modifies this`items
      ensures task == old(items)[i] && IsHeap(items, |items|)
      ensures multiset(items) == old(multiset(items)) - multiset{task} && |items| == old(|items|) - 1
    {
      var n := |items| - 1;
      if n != i {
        Replace(i, n);
      }
      task := items[n];
      assert items == items[..n] + [task];
      SamePrefix(items, items[..n], n);
      items := items[..n];
    }

    /** The last element takes the place of element `i` and is sifted to where it belongs. */
    method Replace(i: nat, n: nat)
      requires i < n && n + 1 == |items| && IsHeap(items, |items|)
      modifies this`items
      ensures |items| == old(|items|) && items[n] == old(items)[i] && IsHeap(items, n)
      ensures multiset(items) == old(multiset(items))
    {
      ghost var h := items;
      assert IsHeap(h, n);
      items := Swap(items, i, n);
      ReplaceAt(h, n, i, items);
      var moved := Down(i, n);
      if !moved {
        Up(i, n);
      }
    }

    /** Lines 119-120: into the heap and the index. */
    method Add(task: QueuedTask)
      requires Valid() && |items| < capacity && task.id !in lookup
      modifies this`items, this`lookup, this`enqueueCount
      ensures Valid() && Contents() == old(Contents()) + {task} && task !in old(Contents())
      ensures enqueueCount == old(enqueueCount) + 1
    {
      HeapPush(task);
      IndexAdd(lookup, task);
      lookup := lookup[task.id := task];
      enqueueCount := enqueueCount + 1;
    }

    /** Out of the heap and the index; the caller does the counting. */
    method RemoveAt(i: nat) returns (task: QueuedTask)
      requires Valid() && i < |items|
      modifies this`items, this`lookup
      ensures task == old(items)[i] && task in old(Contents())
      ensures IsHeap(items, |items|) && multiset(items) == multiset(lookup.Values) && WellIndexed(lookup)
      ensures |items| == old(|items|) - 1 && Contents() == old(Contents()) - {task}
    {
      SetListing(items, lookup.Values);
      assert items[i] in items;
      IndexOf(lookup, items[i]);
      IndexRemove(lookup, items[i].id);
      task := HeapRemove(i);
      lookup := lookup - {task.id};
    }

    /** TimerQueue.Push. The clock is only read for the overdue counter. */
    method Push(task: QueuedTask?, now: Time) returns (err: Option<QueueError>)
      requires Valid()
      modifies this`items, this`lookup, this`enqueueCount, this`overdueCount, task
      ensures Valid()
      ensures err == (if task == null || task.id == "" || task.triggerAt == ZERO_TIME then Some(InvalidTask)
                      else if |old(Contents())| >= capacity then Some(QueueFull)
                      else if task.id in old(lookup) then Some(TaskExists)
                      else None)
      ensures err.None? ==> Contents() == old(Contents()) + {task} && task !in old(Contents())
      ensures err.None? ==> task.status == Pending
      ensures task != null ==> task.priority == old(task.priority) && task.maxRetries == old(task.maxRetries)
      ensures err.Some? ==> Contents() == old(Contents()) && (task != null ==> unchanged(task))
      ensures enqueueCount == old(enqueueCount) + One(err.None?)
      ensures overdueCount == old(overdueCount) + One(err.None? && task.triggerAt < now)
    {
      if task == null || task.id == "" || task.triggerAt == ZERO_TIME {
        return Some(InvalidTask);
      }
      SetListing(items, lookup.Values);
      if |items| >= capacity {
        return Some(QueueFull);
      }
      if task.id in lookup {
        return Some(TaskExists);
      }
      task.status := Pending;
      Add(task);
      if task.triggerAt < now {
        overdueCount := overdueCount + 1;
      }
      return None;
    }

    /** Lines 140-142: remove the root from the heap and the index. */
    method Take() returns (task: QueuedTask)
      requires Valid() && items != []
      modifies this`items, this`lookup, this`dequeueCount
      ensures Valid() && dequeueCount == old(dequeueCount) + 1
      ensures task in old(Contents()) && Contents() == old(Contents()) - {task}
      ensures forall t :: t in old(Contents()) ==> task.triggerAt <= t.triggerAt
      ensures task == old(items)[0] && |items| == old(|items|) - 1
    {
      RootIsEarliestOfAll(items, lookup.Values);
      task := RemoveAt(0);
      dequeueCount := dequeueCount + 1;
    }

    /** TimerQueue.Pop. */
    method Pop() returns (task: QueuedTask?)
      requires Valid()
      modifies this`items, this`lookup, this`dequeueCount
      ensures Valid() && dequeueCount == old(dequeueCount) + One(task != null)
      ensures task == null <==> old(Contents()) == {}
      ensures task == null ==> Contents() == {}
      ensures task != null ==> task in old(Contents()) && Contents() == old(Contents()) - {task}
      ensures task != null ==> forall t :: t in old(Contents()) ==> task.triggerAt <= t.triggerAt
    {
      SetListing(items, lookup.Values);
      if |items| == 0 {
        return null;
      }
      task := Take();
    }

    /** TimerQueue.Cancel: removal from anywhere in the heap. */
    method Cancel(taskID: string) returns (found: bool)
      requires Valid()
      modifies this`items, this`lookup, this`cancelCount, lookup.Values`status
      ensures Valid() && cancelCount == old(cancelCount) + One(found)
      ensures found <==> taskID in old(lookup)
      ensures found ==> Contents() == old(Contents()) - {old(lookup)[taskID]} && old(lookup)[taskID].status == Canceled
      ensures !found ==> Contents() == old(Contents())
      ensures forall t :: t in Contents() ==> t.status == old(t.status)
    {
      if taskID !in lookup {
        return false;
      }
      var task := lookup[taskID];
      SetListing(items, lookup.Values);
      assert task in items;
      for i := 0 to |items|
        invariant unchanged(this)
        invariant forall k :: 0 <= k < i ==> items[k].id != taskID
      {
        if items[i].id == taskID {
          assert items[i] in items;
          IndexOf(lookup, items[i]);
          var removed := RemoveAt(i);
          task.status := Canceled;
          cancelCount := cancelCount + 1;
          return true;
        }
      }
      assert false;
    }

    /** TimerQueue.DueTasks at the time `now`. */
    method DueTasks(now: Time) returns (tasks: seq<QueuedTask>)
      requires Valid()
      modifies this`items, this`lookup, this`dequeueCount
      ensures Valid() && dequeueCount == old(dequeueCount) + |tasks|
      ensures multiset(tasks) == multiset(Due(old(Contents()), now))
      ensures SortedByTrigger(tasks)
      ensures Contents() == old(Contents()) - Due(old(Contents()), now)
      ensures NoDup(tasks) && forall t :: t in tasks <==> t in old(Contents()) && t.triggerAt < now
    {
      tasks := [];
      while |items| > 0 && items[0].triggerAt < now
        invariant Valid() && IsDuePart(old(Contents()), tasks, Contents(), now)
        invariant dequeueCount == old(dequeueCount) + |tasks|
        decreases |items|
      {
        ghost var before := Contents();
        var task := Take();
        DueOneMore(old(Contents()), tasks, before, task, now);
        tasks := tasks + [task];
      }
      if items != [] {
        RootIsEarliestOfAll(items, lookup.Values);
      } else {
        SetListing(items, lookup.Values);
      }
      SplitByTime(old(Contents()), tasks, Contents(), now);
      SetListing(tasks, Due(old(Contents()), now));
    }

    /** TimerQueue.Peek. */
    method Peek() returns (task: QueuedTask?)
      requires Valid()
      ensures task == null <==> Contents() == {}
      ensures task != null ==> task in Contents() && forall t :: t in Contents() ==> task.triggerAt <= t.triggerAt
    {
      SetListing(items, lookup.Values);
      if |items| == 0 {
        return null;
      }
      task := items[0];
      assert task in items;
      RootIsEarliestOfAll(items, lookup.Values);
    }

    /** TimerQueue.Clear. */
    method Clear()
      requires Valid()
      modifies this`items, this`lookup, this`cleared
      ensures Valid() && Contents() == {} && cleared == old(cleared) + |old(Contents())|
    {
      SetListing(items, lookup.Values);
      cleared := cleared + |items|;
      items, lookup := [], map[];
    }
  }

  /** `tasks`, all due and sorted, have been taken from the front of `all`. */
  ghost predicate IsDuePart(all: set<QueuedTask>, tasks: seq<QueuedTask>, rest: set<QueuedTask>, now: Time) {
    && multiset(tasks) + multiset(rest) == multiset(all)
    && (forall t :: t in tasks ==> t.triggerAt < now)
    && (forall t, u :: t in tasks && u in rest ==> t.triggerAt <= u.triggerAt)
    && SortedByTrigger(tasks)
  }

  lemma DueOneMore(all: set<QueuedTask>, tasks: seq<QueuedTask>, rest: set<QueuedTask>, task: QueuedTask, now: Time)
    requires IsDuePart(all, tasks, rest, now) && task in rest && task.triggerAt < now
    requires forall t :: t in rest ==> task.triggerAt <= t.triggerAt
    ensures IsDuePart(all, tasks + [task], rest - {task}, now)
  {
    assert multiset(rest) == multiset(rest - {task}) + multiset{task};
    forall i | 0 <= i < |tasks| ensures tasks[i].triggerAt <= task.triggerAt {
      assert tasks[i] in tasks;
    }
  }

  lemma SplitByTime(all: set<QueuedTask>, due: seq<QueuedTask>, rest: set<QueuedTask>, now: Time)
    requires multiset(due) + multiset(rest) == multiset(all)
    requires forall t :: t in due ==> t.triggerAt < now
    requires forall t :: t in rest ==> t.triggerAt >= now
    ensures multiset(due) == multiset(Due(all, now)) && rest == all - Due(all, now)
  {
    assert forall t :: t in due <==> t in multiset(due);
    forall t ensures multiset(due)[t] == multiset(Due(all, now))[t] && (t in rest <==> t in all - Due(all, now)) {
      assert multiset(due)[t] + multiset(rest)[t] == multiset(all)[t];
    }
  }
}
