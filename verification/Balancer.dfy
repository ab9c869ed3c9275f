/** Read-replica selection, from data/connection/database.go. */
module Balancer {
  import opened Common

  /** A connection pool, by identity. */
  type DB = nat

  const WRAP: nat := 0x1_0000_0000_0000_0000

  /** atomic.AddUint64(counter, 1). */
  function Increment(counter: nat): nat {
    (counter + 1) % WRAP
  }

  // ----- Weighted selection -----

  function Total(weights: seq<nat>): nat {
    if weights == [] then 0 else weights[0] + Total(weights[1..])
  }

  /** The sum of the first `i` weights. */
  function Prefix(weights: seq<nat>, i: nat): nat
    requires i <= |weights|
  {
    if i == 0 then 0 else Prefix(weights, i - 1) + weights[i - 1]
  }

  lemma {:induction false} PrefixTail(weights: seq<nat>, i: nat)
    requires 0 < i <= |weights|
    ensures Prefix(weights, i) == weights[0] + Prefix(weights[1..], i - 1)
  {
    if i > 1 {
      PrefixTail(weights, i - 1);
    }
  }

  lemma {:induction false} PrefixIsTotal(weights: seq<nat>)
    ensures Prefix(weights, |weights|) == Total(weights)
  {
    if weights != [] {
      PrefixTail(weights, |weights|);
      PrefixIsTotal(weights[1..]);
    }
  }

  lemma {:induction false} PrefixGrows(weights: seq<nat>, i: nat, j: nat)
    requires i <= j <= |weights|
    ensures Prefix(weights, i) <= Prefix(weights, j)
  {
    if i < j {
      PrefixGrows(weights, i, j - 1);
    }
  }

  /** Number `next` falls to replica `i`. */
  ghost predicate FallsTo(weights: seq<nat>, next: nat, i: nat) {
    i < |weights| && Prefix(weights, i) <= next < Prefix(weights, i + 1)
  }

  lemma FallsToOne(weights: seq<nat>, next: nat, i: nat, j: nat)
    ensures FallsTo(weights, next, i) && FallsTo(weights, next, j) ==> i == j
  {
    if i < j < |weights| {
      PrefixGrows(weights, i + 1, j);
    } else if j < i < |weights| {
      PrefixGrows(weights, j + 1, i);
    }
  }

  /** What the conversion to uint64 makes of a sum of ints, which wraps around at 64 bits. */
  function Bits(sum: nat): nat {
    sum % WRAP
  }

  /** What the loop over the weights has accumulated after `weights[i]`. */
  function Accumulated(weights: seq<nat>, i: nat): nat
    requires i < |weights|
  {
    Bits(Prefix(weights, i + 1))
  }

  /** The addition of ints, which wraps around. */
  function AddInt(a: nat, b: nat): nat {
    (a + b) % WRAP
  }

  lemma AddedIsAccumulated(weights: seq<nat>, i: nat)
    requires i < |weights|
    ensures AddInt(Bits(Prefix(weights, i)), weights[i]) == Accumulated(weights, i)
    ensures Accumulated(weights, i) == Bits(Prefix(weights, i + 1))
  {
  }

  /** The loop stops at `i`: the first whose accumulated weight exceeds `next`. */
  ghost predicate Stops(weights: seq<nat>, next: nat, i: nat) {
    && i < |weights| && Accumulated(weights, i) > next
    && forall j: nat :: j < i ==> Accumulated(weights, j) <= next
  }

  lemma AccumulatedIsPrefix(weights: seq<nat>, i: nat)
    requires Total(weights) < WRAP && i < |weights|
    ensures Accumulated(weights, i) == Prefix(weights, i + 1) <= Total(weights)
  {
    PrefixIsTotal(weights);
    PrefixGrows(weights, i + 1, |weights|);
  }

  /** Unless the total wraps around, it stops at the replica to which the number falls. */
  lemma StopsWhereItFalls(weights: seq<nat>, next: nat, i: nat)
    requires Total(weights) < WRAP
    ensures Stops(weights, next, i) <==> FallsTo(weights, next, i)
  {
    if i < |weights| {
      AccumulatedIsPrefix(weights, i);
      if FallsTo(weights, next, i) {
        forall j: nat | j < i ensures Accumulated(weights, j) <= next {
          AccumulatedIsPrefix(weights, j);
          PrefixGrows(weights, j + 1, i);
        }
      } else if i > 0 {
        AccumulatedIsPrefix(weights, i - 1);
      }
    }
  }

  /** Lines 141-144, and the conversion of line 147. */
  method TotalWeight(weights: seq<nat>) returns (total: nat)
    ensures total == Bits(Total(weights))
  {
    total := 0;
    for i := 0 to |weights|
      invariant total == Bits(Prefix(weights, i))
    {
      AddedIsAccumulated(weights, i);
      total := AddInt(total, weights[i]);
    }
    PrefixIsTotal(weights);
  }

  /** Lines 150-159. For a number below the total the loop always returns, even after a wrap-around. */
  method Select(weights: seq<nat>, next: nat) returns (i: nat)
    requires next < Bits(Total(weights))
    ensures Stops(weights, next, i)
  {
    TotalIsAccumulated(weights);
    var accumulator := 0;
    i := 0;
    while i < |weights|
      invariant i <= |weights| && accumulator == Bits(Prefix(weights, i))
      invariant forall j: nat :: j < i ==> Accumulated(weights, j) <= next
    {
      AddedIsAccumulated(weights, i);
      accumulator := AddInt(accumulator, weights[i]);
      if accumulator > next {
        return;
      }
      i := i + 1;
    }
    assert false;
  }

  lemma TotalIsAccumulated(weights: seq<nat>)
    requires Bits(Total(weights)) > 0
    ensures weights != [] && Accumulated(weights, |weights| - 1) == Bits(Total(weights))
  {
    PrefixIsTotal(weights);
  }

  /** How many of the numbers below `n` fall to replica `i`. */
  ghost function Share(weights: seq<nat>, n: nat, i: nat): nat {
    if n == 0 then 0 else Share(weights, n - 1, i) + One(FallsTo(weights, n - 1, i))
  }

  lemma {:induction false} ShareUpTo(weights: seq<nat>, n: nat, i: nat)
    requires i < |weights|
    ensures var lo, hi := Prefix(weights, i), Prefix(weights, i + 1);
      Share(weights, n, i) == if n <= lo then 0 else if n <= hi then n - lo else hi - lo
  {
    if n > 0 {
      ShareUpTo(weights, n - 1, i);
    }
  }

  /** How many of the `n` counter values from `c` on choose replica `i`. */
  ghost function Chosen(weights: seq<nat>, c: nat, n: nat, i: nat): nat
    requires Total(weights) > 0
  {
    if n == 0 then 0 else Chosen(weights, c, n - 1, i) + One(FallsTo(weights, (c + n - 1) % Total(weights), i))
  }

  /** Dropping the first call of a window and appending one behind it. */
  lemma {:induction false} SlideWindow(weights: seq<nat>, c: nat, n: nat, i: nat)
    requires Total(weights) > 0
    ensures Chosen(weights, c, n + 1, i)
         == One(FallsTo(weights, c % Total(weights), i)) + Chosen(weights, c + 1, n, i)
  {
    if n > 0 {
      SlideWindow(weights, c, n - 1, i);
    }
  }

  lemma {:induction false} FirstWindow(weights: seq<nat>, n: nat, i: nat)
    requires n <= Total(weights) && Total(weights) > 0
    ensures Chosen(weights, 0, n, i) == Share(weights, n, i)
  {
    if n > 0 {
      FirstWindow(weights, n - 1, i);
      RemainderIs(0, Total(weights), n - 1);
    }
  }

  lemma OneRoundLater(c: nat, n: nat)
    requires n > 0
    ensures (c + n) % n == c % n
  {
    var q, r := c / n, c % n;
    assert c == q * n + r;
    assert c + n == (q + 1) * n + r;
    RemainderIs(q + 1, n, r);
  }

  /**
   * In any window of as many consecutive counter values as the weights sum up to, replica
   * `i` is chosen exactly weights[i] times.
   */
  lemma {:induction false} WeightedFairness(weights: seq<nat>, c: nat, i: nat)
    requires Total(weights) > 0 && i < |weights|
    ensures Chosen(weights, c, Total(weights), i) == weights[i]
    decreases c
  {
    var n := Total(weights);
    if c == 0 {
      FirstWindow(weights, n, i);
      ShareUpTo(weights, n, i);
      PrefixIsTotal(weights);
      PrefixGrows(weights, i + 1, |weights|);
    } else {
      WeightedFairness(weights, c - 1, i);
      SlideWindow(weights, c - 1, n, i);
      OneRoundLater(c - 1, n);
      assert Chosen(weights, c - 1, n + 1, i)
          == Chosen(weights, c - 1, n, i) + One(FallsTo(weights, (c - 1 + n) % n, i));
    }
  }

  // ----- Windows of calls, with a counter of 64 bits -----

  /** What the k-th call after the counter stood at `c` makes of it. */
  function Seen(c: nat, k: nat): nat {
    (c + k) % WRAP
  }

  lemma SeenByCall(c: nat, k: nat)
    requires c < WRAP
    ensures Seen(c, 0) == c && Increment(Seen(c, k)) == Seen(c, k + 1)
  {
  }

  /** How many of the `n` calls after the counter stood at `c` choose replica `i`. */
  ghost function Calls(weights: seq<nat>, c: nat, n: nat, i: nat): nat
    requires Total(weights) > 0
  {
    if n == 0 then 0 else Calls(weights, c, n - 1, i) + One(FallsTo(weights, Seen(c, n) % Total(weights), i))
  }

  ghost predicate FairWindow(weights: seq<nat>, c: nat)
    requires Total(weights) > 0
  {
    forall i :: 0 <= i < |weights| ==> Calls(weights, c, Total(weights), i) == weights[i]
  }

  /** Calls that see the counter modulo the total as if it had not wrapped. */
  lemma {:induction false} CallsWithoutWrap(weights: seq<nat>, c: nat, n: nat, i: nat)
    requires Total(weights) > 0
    requires forall k :: 1 <= k <= n ==> Seen(c, k) % Total(weights) == (c + k) % Total(weights)
    ensures Calls(weights, c, n, i) == Chosen(weights, c + 1, n, i)
  {
    if n > 0 {
      CallsWithoutWrap(weights, c, n - 1, i);
      assert Seen(c, n) % Total(weights) == (c + n) % Total(weights);
    }
  }

  /** A window in which the counter does not wrap around is fair. */
  lemma FairWithoutWrap(weights: seq<nat>, c: nat)
    requires Total(weights) > 0 && c + Total(weights) < WRAP
    ensures FairWindow(weights, c)
  {
    SeenWithoutWrap(c, Total(weights));
    forall i | 0 <= i < |weights| ensures Calls(weights, c, Total(weights), i) == weights[i] {
      CallsWithoutWrap(weights, c, Total(weights), i);
      WeightedFairness(weights, c + 1, i);
    }
  }

  lemma SeenWithoutWrap(c: nat, n: nat)
    requires c + n < WRAP
    ensures forall k :: 1 <= k <= n ==> Seen(c, k) == c + k
  {
  }

  lemma RemainderOfRemainder(x: nat, t: nat)
    requires t > 0 && WRAP % t == 0
    ensures x % WRAP % t == x % t
  {
    var q, p := WRAP / t, x / WRAP;
    var y := x % WRAP;
    assert WRAP == q * t && x == p * WRAP + y;
    assert y == y / t * t + y % t;
    assert x == (p * q + y / t) * t + y % t by {
      assert p * WRAP == p * q * t;
    }
    RemainderIs(p * q + y / t, t, y % t);
  }

  /** So is every window if the total divides 2^64. */
  lemma FairWhenTotalDivides(weights: seq<nat>, c: nat)
    requires Total(weights) > 0 && WRAP % Total(weights) == 0
    ensures FairWindow(weights, c)
  {
    forall i | 0 <= i < |weights| ensures Calls(weights, c, Total(weights), i) == weights[i] {
      forall k | 1 <= k <= Total(weights) ensures Seen(c, k) % Total(weights) == (c + k) % Total(weights) {
        RemainderOfRemainder(c + k, Total(weights));
      }
      CallsWithoutWrap(weights, c, Total(weights), i);
      WeightedFairness(weights, c + 1, i);
    }
  }

  /** And if there is but one replica. */
  lemma {:induction false} OneReplicaTakesAll(weights: seq<nat>, c: nat, n: nat)
    requires |weights| == 1 && weights[0] > 0
    ensures Calls(weights, c, n, 0) == n
  {
    if n > 0 {
      OneReplicaTakesAll(weights, c, n - 1);
      assert Total(weights[1..]) == 0;
      assert Prefix(weights, 0) == 0 && Prefix(weights, 1) == weights[0];
    }
  }

  /** Comparing two windows that differ by one call at either end. */
  lemma {:induction false} SlideCalls(weights: seq<nat>, c: nat, n: nat, i: nat)
    requires Total(weights) > 0
    ensures Calls(weights, c, n + 1, i)
         == One(FallsTo(weights, Seen(c, 1) % Total(weights), i)) + Calls(weights, c + 1, n, i)
  {
    if n > 0 {
      SlideCalls(weights, c, n - 1, i);
      assert Seen(c, n + 1) == Seen(c + 1, n);
    }
  }

  /** If both are fair, the call that was dropped and the one that was added chose alike. */
  lemma FairNeighbours(weights: seq<nat>, c: nat, i: nat)
    requires Total(weights) > 0 && FairWindow(weights, c) && FairWindow(weights, c + 1) && i < |weights|
    ensures FallsTo(weights, Seen(c, 1) % Total(weights), i)
       <==> FallsTo(weights, Seen(c, Total(weights) + 1) % Total(weights), i)
  {
    SlideCalls(weights, c, Total(weights), i);
    assert Calls(weights, c, Total(weights) + 1, i)
        == Calls(weights, c, Total(weights), i)
           + One(FallsTo(weights, Seen(c, Total(weights) + 1) % Total(weights), i));
  }

  lemma WrapRemainder(t: nat, k: nat)
    requires 0 < t < WRAP
    ensures (WRAP - t + k) % t == (WRAP % t + k) % t
  {
    var q, r := WRAP / t, WRAP % t;
    assert WRAP == q * t + r;
    assert q >= 1;
    assert WRAP - t + k == (q - 1) * t + (r + k);
    ShiftRemainder(q - 1, t, r + k);
  }

  /** Around the point where the counter wraps, the remainders jump from that of 2^64 + `k` to that of `k`. */
  lemma AcrossTheWrap(weights: seq<nat>, c: nat, k: nat, i: nat)
    requires 0 < Total(weights) < WRAP && k < Total(weights) && i < |weights|
    requires c == WRAP - Total(weights) + k - 1 && FairWindow(weights, c) && FairWindow(weights, c + 1)
    ensures FallsTo(weights, (WRAP % Total(weights) + k) % Total(weights), i) <==> FallsTo(weights, k, i)
  {
    var t := Total(weights);
    FairNeighbours(weights, c, i);
    SeenAcross(t, k);
    WrapRemainder(t, k);
    RemainderIs(0, t, k);
  }

  lemma SeenAcross(t: nat, k: nat)
    requires 0 < t < WRAP && k < t
    ensures Seen(WRAP - t + k - 1, 1) == WRAP - t + k && Seen(WRAP - t + k - 1, t + 1) == k
  {
  }

  lemma {:induction false} ShiftRemainder(q: nat, t: nat, x: nat)
    requires t > 0
    ensures (q * t + x) % t == x % t
  {
    if q > 0 {
      ShiftRemainder(q - 1, t, x);
      assert q * t + x == (q - 1) * t + x + t;
      OneRoundLater((q - 1) * t + x, t);
    }
  }

  lemma FirstAndLast(weights: seq<nat>)
    requires |weights| > 0 && forall k :: 0 <= k < |weights| ==> weights[k] >= 1
    ensures Total(weights) > 0 && FallsTo(weights, 0, 0) && FallsTo(weights, Total(weights) - 1, |weights| - 1)
  {
    PrefixIsTotal(weights);
    PrefixGrows(weights, 1, |weights|);
  }

  /**
   * With positive weights, every window of calls is fair exactly when the total weight divides
   * 2^64 or there is only one replica. Otherwise some window across the wrap-around of the
   * counter is not.
   */
  lemma AlwaysFairIff(weights: seq<nat>)
    requires |weights| > 0 && Total(weights) < WRAP && forall k :: 0 <= k < |weights| ==> weights[k] >= 1
    ensures Total(weights) > 0
    ensures (forall c: nat :: FairWindow(weights, c)) <==> WRAP % Total(weights) == 0 || |weights| == 1
  {
    FirstAndLast(weights);
    var t := Total(weights);
    if WRAP % t == 0 {
      forall c: nat ensures FairWindow(weights, c) {
        FairWhenTotalDivides(weights, c);
      }
    } else if |weights| == 1 {
      forall c: nat ensures FairWindow(weights, c) {
        OneReplicaTakesAll(weights, c, t);
        assert Total(weights[1..]) == 0;
      }
    } else if forall c: nat :: FairWindow(weights, c) {
      UnfairAcrossTheWrap(weights);
    }
  }

  /** If the windows around the wrap were fair, the last number would fall to the first replica. */
  lemma LastFallsToFirst(weights: seq<nat>, c: nat)
    requires |weights| > 0 && Total(weights) < WRAP && forall k :: 0 <= k < |weights| ==> weights[k] >= 1
    requires Total(weights) > 0 && WRAP % Total(weights) != 0 && c == WRAP - WRAP % Total(weights) - 2
    requires FairWindow(weights, c) && FairWindow(weights, c + 1) && FairWindow(weights, c + 2)
    ensures FallsTo(weights, Total(weights) - 1, 0)
  {
    FirstAndLast(weights);
    var t := Total(weights);
    var r := WRAP % t;
    BackToZero(weights, c + 1, r);
    LowerFallsToFirst(weights, t - r, t - 1 - r);
    AcrossTheWrap(weights, c, t - 1 - r, 0);
    RemainderIs(0, t, t - 1);
  }

  lemma BackToZero(weights: seq<nat>, c: nat, r: nat)
    requires weights != [] && 0 < Total(weights) < WRAP && r == WRAP % Total(weights) && r > 0
    requires c == WRAP - r - 1 && FairWindow(weights, c) && FairWindow(weights, c + 1) && FallsTo(weights, 0, 0)
    ensures FallsTo(weights, Total(weights) - r, 0)
  {
    AcrossTheWrap(weights, c, Total(weights) - r, 0);
    RemainderIs(1, Total(weights), 0);
  }

  lemma LowerFallsToFirst(weights: seq<nat>, high: nat, low: nat)
    requires FallsTo(weights, high, 0) && low <= high
    ensures FallsTo(weights, low, 0)
  {
  }

  lemma UnfairAcrossTheWrap(weights: seq<nat>)
    requires |weights| > 1 && Total(weights) < WRAP && forall k :: 0 <= k < |weights| ==> weights[k] >= 1
    requires Total(weights) > 0 && WRAP % Total(weights) != 0
    ensures exists c: nat :: !FairWindow(weights, c)
  {
    FirstAndLast(weights);
    FallsToOne(weights, Total(weights) - 1, 0, |weights| - 1);
    var c := WRAP - WRAP % Total(weights) - 2;
    if FairWindow(weights, c) && FairWindow(weights, c + 1) && FairWindow(weights, c + 2) {
      LastFallsToFirst(weights, c);
    }
  }

  // ----- One selection, for every strategy -----

  datatype Strategy = RoundRobin | Random | Weight(weights: seq<nat>)

  datatype Choice = Picked(db: DB) | NoSlaves | Panic

  ghost predicate IsSelection(weights: seq<nat>, slaves: seq<DB>, next: nat, r: Choice) {
    exists i: nat :: Stops(weights, next, i) && r == if i < |slaves| then Picked(slaves[i]) else Panic
  }

  /** One weighted selection: the share of the replica list into which the incremented counter falls. */
  ghost predicate IsWeightedCall(weights: seq<nat>, slaves: seq<DB>, counter: nat, r: Choice, counter': nat) {
    && counter' == Increment(counter)
    && (Bits(Total(weights)) == 0 ==> r == Panic)
    && (Bits(Total(weights)) > 0 ==> IsSelection(weights, slaves, counter' % Bits(Total(weights)), r))
  }

  /**
   * LoadBalancer.Next. Panics are results here: a total weight of zero, also one that has
   * wrapped around to zero, divides by zero, and a weight list that is longer than the
   * replica list may index past its end.
   */
  method Next(strategy: Strategy, slaves: seq<DB>, counter: nat, random: nat) returns (r: Choice, counter': nat)
    ensures r == NoSlaves <==> slaves == []
    ensures slaves == [] ==> counter' == counter
    ensures slaves != [] && strategy.RoundRobin? ==>
      counter' == Increment(counter) && r == Picked(slaves[Increment(counter) % |slaves|])
    ensures slaves != [] && strategy.Random? ==> counter' == counter && r == Picked(slaves[random % |slaves|])
    ensures slaves != [] && strategy.Weight? ==> IsWeightedCall(strategy.weights, slaves, counter, r, counter')
    ensures r.Picked? ==> r.db in slaves
  {
    if |slaves| == 0 {
      return NoSlaves, counter;
    }
    match strategy
    case RoundRobin =>
      counter' := Increment(counter);
      r := Picked(slaves[counter' % |slaves|]);
    case Random =>
      r, counter' := Picked(slaves[random % |slaves|]), counter;
    case Weight(weights) =>
      var total := TotalWeight(weights);
      counter' := Increment(counter);
      if total == 0 {
        return Panic, counter';
      }
      var i := Select(weights, counter' % total);
      if i >= |slaves| {
        return Panic, counter';
      }
      r := Picked(slaves[i]);
  }

  // ----- Successive weighted selections -----

  /** `picks` are the results of successive calls, which move the counter along `counters`. */
  ghost predicate AreCalls(weights: seq<nat>, slaves: seq<DB>, counters: seq<nat>, picks: seq<Choice>) {
    && |counters| == |picks| + 1 && counters[0] < WRAP
    && forall k :: 0 <= k < |picks| ==> IsWeightedCall(weights, slaves, counters[k], picks[k], counters[k + 1])
  }

  lemma {:induction false} CounterAfterCalls(weights: seq<nat>, slaves: seq<DB>, counters: seq<nat>,
                                             picks: seq<Choice>, k: nat)
    requires AreCalls(weights, slaves, counters, picks) && k <= |picks|
    ensures counters[k] == Seen(counters[0], k)
  {
    if k > 0 {
      CounterAfterCalls(weights, slaves, counters, picks, k - 1);
      SeenByCall(counters[0], k - 1);
      assert IsWeightedCall(weights, slaves, counters[k - 1], picks[k - 1], counters[k - 1 + 1]);
    }
    SeenByCall(counters[0], 0);
  }

  /** A call picks replica `i` exactly when the incremented counter falls to it. */
  lemma CallPicks(weights: seq<nat>, slaves: seq<DB>, counter: nat, r: Choice, counter': nat, i: nat)
    requires IsWeightedCall(weights, slaves, counter, r, counter')
    requires 0 < Total(weights) < WRAP && |weights| <= |slaves| && NoDup(slaves) && i < |weights|
    ensures r == Picked(slaves[i]) <==> FallsTo(weights, counter' % Total(weights), i)
  {
    var next := counter' % Total(weights);
    SmallBits(Total(weights));
    SelectionPicks(weights, slaves, next, r, i);
  }

  lemma SelectionPicks(weights: seq<nat>, slaves: seq<DB>, next: nat, r: Choice, i: nat)
    requires IsSelection(weights, slaves, next, r)
    requires Total(weights) < WRAP && |weights| <= |slaves| && NoDup(slaves) && i < |weights|
    ensures r == Picked(slaves[i]) <==> FallsTo(weights, next, i)
  {
    var j: nat :| Stops(weights, next, j) && r == if j < |slaves| then Picked(slaves[j]) else Panic;
    StopsWhereItFalls(weights, next, j);
    FallsToOne(weights, next, i, j);
  }

  /** So often do successive calls pick replica `i`. */
  lemma {:induction false} CallsPick(weights: seq<nat>, slaves: seq<DB>, counters: seq<nat>, picks: seq<Choice>, i: nat)
    requires AreCalls(weights, slaves, counters, picks)
    requires 0 < Total(weights) < WRAP && |weights| <= |slaves| && NoDup(slaves) && i < |weights|
    ensures multiset(picks)[Picked(slaves[i])] == Calls(weights, counters[0], |picks|, i)
    decreases |picks|
  {
    if picks != [] {
      var n := |picks| - 1;
      CallsPick(weights, slaves, counters[..n + 1], picks[..n], i);
      assert picks == picks[..n] + [picks[n]];
      CounterAfterCalls(weights, slaves, counters, picks, n + 1);
      CallPicks(weights, slaves, counters[n], picks[n], counters[n + 1], i);
    }
  }

  /** As many successive calls as the weights sum up to pick every replica as often as its weight says. */
  lemma FairCalls(weights: seq<nat>, slaves: seq<DB>, counters: seq<nat>, picks: seq<Choice>, i: nat)
    requires AreCalls(weights, slaves, counters, picks) && |picks| == Total(weights) > 0
    requires counters[0] + Total(weights) < WRAP && |weights| <= |slaves| && NoDup(slaves) && i < |weights|
    ensures multiset(picks)[Picked(slaves[i])] == weights[i]
  {
    CallsPick(weights, slaves, counters, picks, i);
    FairWithoutWrap(weights, counters[0]);
  }

  // ----- Panics -----

  /** With this counter value the weighted selection indexes past the end of the replicas. */
  ghost predicate Overruns(weights: seq<nat>, slaves: nat, counter: nat)
    requires Bits(Total(weights)) > 0
  {
    exists i: nat :: Stops(weights, counter % Bits(Total(weights)), i) && i >= slaves
  }

  /** Some counter value makes the weighted selection panic. */
  ghost predicate CanPanic(weights: seq<nat>, slaves: nat) {
    Bits(Total(weights)) == 0 || exists counter: nat :: counter < WRAP && Overruns(weights, slaves, counter)
  }

  lemma PanicShows(weights: seq<nat>, slaves: seq<DB>, counter: nat, counter': nat)
    requires IsWeightedCall(weights, slaves, counter, Panic, counter')
    ensures CanPanic(weights, |slaves|)
  {
    assert Bits(Total(weights)) > 0 ==> Overruns(weights, |slaves|, counter');
  }

  /** The accumulated weight reaches the total within the replicas. */
  ghost predicate ReachesTotal(weights: seq<nat>, slaves: nat) {
    exists i: nat :: i < |weights| && i < slaves && Accumulated(weights, i) >= Bits(Total(weights))
  }

  lemma {:induction false} FirstStop(weights: seq<nat>, next: nat, n: nat) returns (i: nat)
    requires n < |weights| && Accumulated(weights, n) > next
    ensures i <= n && Stops(weights, next, i)
  {
    if m: nat :| m < n && Accumulated(weights, m) > next {
      i := FirstStop(weights, next, m);
    } else {
      i := n;
    }
  }

  lemma SafeIfTotalIsReached(weights: seq<nat>, slaves: nat, counter: nat)
    requires Bits(Total(weights)) > 0 && ReachesTotal(weights, slaves)
    ensures !Overruns(weights, slaves, counter)
  {
    var next := counter % Bits(Total(weights));
    var i: nat :| i < |weights| && i < slaves && Accumulated(weights, i) >= Bits(Total(weights));
    forall k: nat | Stops(weights, next, k) ensures k < slaves {
      assert k <= i;
    }
  }

  lemma OverrunsIfTotalIsNotReached(weights: seq<nat>, slaves: nat)
    requires Bits(Total(weights)) > 0 && !ReachesTotal(weights, slaves)
    ensures Overruns(weights, slaves, Bits(Total(weights)) - 1)
  {
    var t := Bits(Total(weights));
    TotalIsAccumulated(weights);
    var i := FirstStop(weights, t - 1, |weights| - 1);
    RemainderIs(0, t, t - 1);
  }

  /**
   * For any weights, the weighted selection is safe for every counter value exactly when
   * the total does not wrap around to zero and is reached within the replicas.
   */
  lemma WeightedIsSafeIff(weights: seq<nat>, slaves: nat)
    ensures !CanPanic(weights, slaves) <==> Bits(Total(weights)) > 0 && ReachesTotal(weights, slaves)
  {
    if Bits(Total(weights)) > 0 {
      if ReachesTotal(weights, slaves) {
        forall counter: nat | counter < WRAP ensures !Overruns(weights, slaves, counter) {
          SafeIfTotalIsReached(weights, slaves, counter);
        }
      } else {
        OverrunsIfTotalIsNotReached(weights, slaves);
      }
    }
  }

  /** If the total does not wrap around, there must be a weight and no more weights than replicas. */
  lemma WeightedIsSafeWithoutWrapIff(weights: seq<nat>, slaves: nat)
    requires Total(weights) < WRAP && forall k :: 0 <= k < |weights| ==> weights[k] >= 1
    ensures !CanPanic(weights, slaves) <==> 0 < |weights| <= slaves
  {
    WeightedIsSafeIff(weights, slaves);
    forall i: nat | i < |weights|
      ensures Accumulated(weights, i) >= Bits(Total(weights)) <==> i == |weights| - 1
    {
      AccumulatedIsPrefix(weights, i);
      OnlyLastReachesTotal(weights, i);
    }
    if weights != [] {
      OnlyLastReachesTotal(weights, |weights| - 1);
    }
  }

  lemma OnlyLastReachesTotal(weights: seq<nat>, i: nat)
    requires i < |weights| && forall k :: 0 <= k < |weights| ==> weights[k] >= 1
    ensures Total(weights) > 0 && (Prefix(weights, i + 1) >= Total(weights) <==> i == |weights| - 1)
  {
    PrefixIsTotal(weights);
    PrefixGrows(weights, 0, |weights| - 1);
    if i < |weights| - 1 {
      PrefixGrows(weights, i + 1, |weights| - 1);
    }
  }

  /** Four connected replicas of equal weight whose total wraps around to zero. */
  lemma WrappedTotalPanics()
    ensures var w := 0x4000_0000_0000_0000; CanPanic([w, w, w, w], 4)
  {
    var w: nat := 0x4000_0000_0000_0000;
    var weights := [w, w, w, w];
    PrefixIsTotal(weights);
    assert Prefix(weights, 1) == Prefix(weights, 0) + weights[0] == w;
    assert Prefix(weights, 2) == Prefix(weights, 1) + weights[1] == 2 * w;
    assert Prefix(weights, 3) == Prefix(weights, 2) + weights[2] == 3 * w;
    assert Prefix(weights, 4) == Prefix(weights, 3) + weights[3] == 4 * w == WRAP;
  }

  // ----- The manager -----

  /** Among `n` consecutive numbers every residue modulo `n` occurs. */
  lemma EveryResidue(c: nat, n: nat, j: nat) returns (k: nat)
    requires j < n
    ensures 1 <= k <= n && (c + k) % n == j
  {
    var r := c % n;
    k := if j > r then j - r else j - r + n;
    assert c == c / n * n + r;
    if j > r {
      assert c + k == c / n * n + j;
      RemainderIs(c / n, n, j);
    } else {
      assert c + k == (c / n + 1) * n + j;
      RemainderIs(c / n + 1, n, j);
    }
  }

  /** The k-th try after the counter stood at `c` meets a replica that can be reached. */
  ghost predicate Reaches(slaves: seq<DB>, ping: DB -> bool, c: nat, k: nat)
    requires slaves != []
  {
    ping(slaves[Seen(c, k) % |slaves|])
  }

  /**
   * With a try for every replica, round robin comes by any replica that can be reached,
   * unless the counter wraps around; with nearly twice as many it does so in any case.
   */
  lemma EnoughRetries(slaves: seq<DB>, ping: DB -> bool, c: nat, maxRetry: int, db: DB)
    requires db in slaves && ping(db) && c < WRAP && |slaves| <= WRAP
    requires maxRetry + 1 >= if c + |slaves| < WRAP then |slaves| else 2 * |slaves| - 1
    ensures exists k: nat :: 1 <= k <= maxRetry + 1 && Reaches(slaves, ping, c, k)
  {
    var n := |slaves|;
    var j: nat := Index(slaves, db);
    if c + n < WRAP {
      var k := EveryResidue(c, n, j);
      assert Seen(c, k) == c + k;
      assert Reaches(slaves, ping, c, k);
    } else {
      var k := WRAP - c + j;
      assert Seen(c, k) == j by {
        RemainderIs(1, WRAP, j);
      }
      RemainderIs(0, n, j);
      assert Reaches(slaves, ping, c, k);
    }
  }

  /** What the weighted selection yields in the k-th try after the counter stood at `c`. */
  ghost predicate IsTry(weights: seq<nat>, slaves: seq<DB>, c: nat, k: nat, r: Choice) {
    if Bits(Total(weights)) == 0 then r == Panic else IsSelection(weights, slaves, NumberOf(weights, c, k), r)
  }

  /** The number, below the total, that the k-th try after the counter stood at `c` draws. */
  function NumberOf(weights: seq<nat>, c: nat, k: nat): nat
    requires Bits(Total(weights)) > 0
  {
    Seen(c, k) % Bits(Total(weights))
  }

  /** That try picks a replica that can be reached. */
  ghost predicate TryReaches(weights: seq<nat>, slaves: seq<DB>, ping: DB -> bool, c: nat, k: nat) {
    exists db :: IsTry(weights, slaves, c, k, Picked(db)) && ping(db)
  }

  lemma StopsOnce(weights: seq<nat>, next: nat, i: nat, j: nat)
    requires Stops(weights, next, i) && Stops(weights, next, j)
    ensures i == j
  {
  }

  lemma SelectsOnce(weights: seq<nat>, slaves: seq<DB>, next: nat, r: Choice, r': Choice)
    requires IsSelection(weights, slaves, next, r) && IsSelection(weights, slaves, next, r')
    ensures r == r'
  {
    var i: nat :| Stops(weights, next, i) && r == if i < |slaves| then Picked(slaves[i]) else Panic;
    var j: nat :| Stops(weights, next, j) && r' == if j < |slaves| then Picked(slaves[j]) else Panic;
    StopsOnce(weights, next, i, j);
  }

  lemma CallIsTry(weights: seq<nat>, slaves: seq<DB>, c: nat, k: nat, counter: nat, r: Choice, counter': nat)
    requires c < WRAP && counter == Seen(c, k) && IsWeightedCall(weights, slaves, counter, r, counter')
    ensures counter' == Seen(c, k + 1) && IsOnlyTry(weights, slaves, c, k + 1, r)
  {
    SeenByCall(c, k);
    TryIsUnique(weights, slaves, c, k + 1, r);
  }

  ghost predicate IsOnlyTry(weights: seq<nat>, slaves: seq<DB>, c: nat, k: nat, r: Choice) {
    IsTry(weights, slaves, c, k, r) && forall r' :: IsTry(weights, slaves, c, k, r') ==> r' == r
  }

  lemma TryIsUnique(weights: seq<nat>, slaves: seq<DB>, c: nat, k: nat, r: Choice)
    requires IsTry(weights, slaves, c, k, r)
    ensures IsOnlyTry(weights, slaves, c, k, r)
  {
    forall r' | IsTry(weights, slaves, c, k, r') ensures r' == r {
      if Bits(Total(weights)) > 0 {
        SelectsOnce(weights, slaves, NumberOf(weights, c, k), r, r');
      }
    }
  }

  /** No try up to the k-th panics, and none reaches a replica. */
  ghost predicate Unsettled(weights: seq<nat>, slaves: seq<DB>, ping: DB -> bool, c: nat, k: nat) {
    forall j: nat :: 1 <= j <= k ==> !IsTry(weights, slaves, c, j, Panic) && !TryReaches(weights, slaves, ping, c, j)
  }

  /** Some try within the bound reaches a replica, and none before it panics. */
  ghost predicate FindsWithin(weights: seq<nat>, slaves: seq<DB>, ping: DB -> bool, c: nat, bound: int) {
    exists k: nat :: 1 <= k <= bound && TryReaches(weights, slaves, ping, c, k)
      && forall j: nat :: 1 <= j < k ==> !IsTry(weights, slaves, c, j, Panic)
  }

  /** Some try within the bound panics, and none before it reaches a replica. */
  ghost predicate CrashesWithin(weights: seq<nat>, slaves: seq<DB>, ping: DB -> bool, c: nat, bound: int) {
    exists k: nat :: 1 <= k <= bound && IsTry(weights, slaves, c, k, Panic)
      && forall j: nat :: 1 <= j < k ==> !TryReaches(weights, slaves, ping, c, j)
  }

  /** The first try that settles it decides between finding and crashing. */
  lemma Settled(weights: seq<nat>, slaves: seq<DB>, ping: DB -> bool, c: nat, k: nat, bound: int, r: Choice)
    requires Unsettled(weights, slaves, ping, c, k) && k + 1 <= bound && IsOnlyTry(weights, slaves, c, k + 1, r)
    ensures r == Panic ==>
      CrashesWithin(weights, slaves, ping, c, bound) && !FindsWithin(weights, slaves, ping, c, bound)
    ensures r.Picked? && ping(r.db) ==>
      FindsWithin(weights, slaves, ping, c, bound) && !CrashesWithin(weights, slaves, ping, c, bound)
    ensures r.Picked? && !ping(r.db) ==> Unsettled(weights, slaves, ping, c, k + 1)
  {
    if r.Picked? && ping(r.db) {
      assert TryReaches(weights, slaves, ping, c, k + 1);
    }
  }

  /** One selection of a strategy that does not depend on chance. */
  ghost predicate IsCall(strategy: Strategy, slaves: seq<DB>, counter: nat, r: Choice, counter': nat)
    requires slaves != []
  {
    match strategy
    case RoundRobin => counter' == Increment(counter) && r == Picked(slaves[counter' % |slaves|])
    case Weight(weights) => IsWeightedCall(weights, slaves, counter, r, counter')
    case Random => false
  }

  /** The first `k` tries after the counter stood at `c` come to nothing. */
  ghost predicate ComeToNothing(strategy: Strategy, slaves: seq<DB>, ping: DB -> bool, c: nat, k: nat)
    requires slaves != []
  {
    match strategy
    case RoundRobin => forall j: nat :: 1 <= j <= k ==> !Reaches(slaves, ping, c, j)
    case Weight(weights) => Unsettled(weights, slaves, ping, c, k)
    case Random => true
  }

  /** Within so many tries a replica is found. */
  ghost predicate Finds(strategy: Strategy, slaves: seq<DB>, ping: DB -> bool, c: nat, bound: int)
    requires slaves != []
  {
    match strategy
    case RoundRobin => exists k: nat :: 1 <= k <= bound && Reaches(slaves, ping, c, k)
    case Weight(weights) => FindsWithin(weights, slaves, ping, c, bound)
    case Random => false
  }

  /** Within so many tries there is a panic. */
  ghost predicate Crashes(strategy: Strategy, slaves: seq<DB>, ping: DB -> bool, c: nat, bound: int) {
    strategy.Weight? && CrashesWithin(strategy.weights, slaves, ping, c, bound)
  }

  lemma OneTry(strategy: Strategy, slaves: seq<DB>, ping: DB -> bool, c: nat, k: nat, bound: int,
               counter: nat, r: Choice, counter': nat)
    requires slaves != [] && c < WRAP && counter == Seen(c, k) && k + 1 <= bound
    requires IsCall(strategy, slaves, counter, r, counter') && ComeToNothing(strategy, slaves, ping, c, k)
    ensures counter' == Seen(c, k + 1)
    ensures r == Panic ==> Crashes(strategy, slaves, ping, c, bound) && !Finds(strategy, slaves, ping, c, bound)
    ensures r.Picked? && ping(r.db) ==>
      Finds(strategy, slaves, ping, c, bound) && !Crashes(strategy, slaves, ping, c, bound)
    ensures r.Picked? && !ping(r.db) ==> ComeToNothing(strategy, slaves, ping, c, k + 1)
  {
    SeenByCall(c, k);
    match strategy
    case RoundRobin =>
      assert Reaches(slaves, ping, c, k + 1) <==> ping(r.db);
    case Weight(weights) =>
      CallIsTry(weights, slaves, c, k, counter, r, counter');
      Settled(weights, slaves, ping, c, k, bound, r);
  }

  lemma NothingFound(strategy: Strategy, slaves: seq<DB>, ping: DB -> bool, c: nat, k: nat, bound: int)
    requires slaves != [] && !strategy.Random? && ComeToNothing(strategy, slaves, ping, c, k) && bound <= k
    ensures !Finds(strategy, slaves, ping, c, bound) && !Crashes(strategy, slaves, ping, c, bound)
  {
  }

  /**
   * If no total wraps, as many tries as the weights sum up to come by any weighted replica
   * that can be reached.
   */
  lemma EnoughWeightedRetries(weights: seq<nat>, slaves: seq<DB>, ping: DB -> bool, c: nat, maxRetry: int, i: nat)
    requires i < |weights| <= |slaves| && weights[i] >= 1 && ping(slaves[i])
    requires Total(weights) < WRAP && c + Total(weights) < WRAP && maxRetry + 1 >= Total(weights)
    ensures FindsWithin(weights, slaves, ping, c, maxRetry + 1)
  {
    var k := TurnOf(weights, c, i);
    FirstOfShare(weights, slaves, i);
    assert IsTry(weights, slaves, c, k, Picked(slaves[i]));
    assert TryReaches(weights, slaves, ping, c, k);
    forall j: nat | 1 <= j < k ensures !IsTry(weights, slaves, c, j, Panic) {
      NoPanic(weights, slaves, c, j);
    }
  }

  /** A try whose number is the first of the share of replica `i`. */
  lemma TurnOf(weights: seq<nat>, c: nat, i: nat) returns (k: nat)
    requires i < |weights| && weights[i] >= 1 && c + Total(weights) < WRAP
    ensures Bits(Total(weights)) > 0 && 1 <= k <= Total(weights) && NumberOf(weights, c, k) == Prefix(weights, i)
  {
    PrefixIsTotal(weights);
    PrefixGrows(weights, i + 1, |weights|);
    SmallBits(Total(weights));
    k := EveryResidue(c, Total(weights), Prefix(weights, i));
    SeenWithoutWrap(c, k);
  }

  lemma SmallBits(n: nat)
    requires n < WRAP
    ensures Bits(n) == n
  {
  }

  lemma FirstOfShare(weights: seq<nat>, slaves: seq<DB>, i: nat)
    requires i < |weights| <= |slaves| && weights[i] >= 1 && Total(weights) < WRAP
    ensures IsSelection(weights, slaves, Prefix(weights, i), Picked(slaves[i]))
  {
    StopsWhereItFalls(weights, Prefix(weights, i), i);
  }

  lemma NoPanic(weights: seq<nat>, slaves: seq<DB>, c: nat, k: nat)
    requires 0 < Total(weights) < WRAP && |weights| <= |slaves|
    ensures !IsTry(weights, slaves, c, k, Panic)
  {
    SmallBits(Total(weights));
    NoPanicIn(weights, slaves, NumberOf(weights, c, k));
  }

  lemma NoPanicIn(weights: seq<nat>, slaves: seq<DB>, next: nat)
    requires |weights| <= |slaves|
    ensures !IsSelection(weights, slaves, next, Panic)
  {
  }

  datatype Outcome = Found(db: DB) | AllFailed | Crashed

  /** A replica of the configuration: whether it can be connected to, and its weight. */
  datatype Replica = Replica(connection: Option<DB>, weight: int)

  datatype Config = Config(master: Option<DB>, replicas: seq<Replica>, strategy: string, maxRetry: int)

  /** NewWeightBalancer: a weight that is not positive counts as one. */
  function Weights(replicas: seq<Replica>): (r: seq<nat>)
    ensures |r| == |replicas| && forall i :: 0 <= i < |r| ==> r[i] >= 1
    ensures forall i :: 0 <= i < |r| && replicas[i].weight > 0 ==> r[i] == replicas[i].weight
    ensures forall i :: 0 <= i < |r| && replicas[i].weight <= 0 ==> r[i] == 1
  {
    seq(|replicas|, i requires 0 <= i < |replicas| => if replicas[i].weight <= 0 then 1 else replicas[i].weight)
  }

  /** The replicas that could be connected to, in configuration order. */
  function Connected(replicas: seq<Replica>): seq<DB> {
    if replicas == [] then []
    else
      var init := Connected(replicas[..|replicas| - 1]);
      match replicas[|replicas| - 1].connection
      case None => init
      case Some(db) => init + [db]
  }

  class DBManager {
    const master: DB
    var slaves: seq<DB>
    const strategy: Strategy
    var counter: nat
    const maxRetry: int
    /** The replicas that were connected at the start. */
    ghost const originals: seq<DB>

    /** The replica list is never empty and holds only originals and the master; the counter has 64 bits. */
    ghost predicate Valid()
      reads this
    {
      && slaves != [] && counter < WRAP
      && (forall s :: s in slaves ==> s == master || s in originals)
    }

    constructor (master: DB, slaves: seq<DB>, strategy: Strategy, maxRetry: int, ghost originals: seq<DB>)
      requires slaves != [] && forall s :: s in slaves ==> s == master || s in originals
      ensures Valid() && this.master == master && this.slaves == slaves && this.strategy == strategy
      ensures this.maxRetry == maxRetry && counter == 0 && this.originals == originals
    {
      this.master, this.slaves, this.strategy, this.maxRetry := master, slaves, strategy, maxRetry;
      this.originals, counter := originals, 0;
    }

    /** DBManager.Slave, undisturbed by other callers and with fixed ping results. */
    method Slave(ping: DB -> bool, random: nat -> nat) returns (r: Outcome)
      requires Valid()
      modifies this`counter
      ensures Valid()
      ensures r.Found? ==> r.db in slaves && ping(r.db)
      ensures !strategy.Random? ==>
        && (r.Found? <==> Finds(strategy, slaves, ping, old(counter), maxRetry + 1))
        && (r.Crashed? <==> Crashes(strategy, slaves, ping, old(counter), maxRetry + 1))
      ensures (strategy.Weight? ==> !CanPanic(strategy.weights, |slaves|)) ==> !r.Crashed?
    {
      SeenByCall(counter, 0);
      var i := 0;
      while i <= maxRetry
        invariant 0 <= i && (maxRetry >= 0 ==> i <= maxRetry + 1) && (maxRetry < 0 ==> i == 0)
        invariant Valid()
        invariant !strategy.Random? ==> counter == Seen(old(counter), i)
        invariant !strategy.Random? ==> ComeToNothing(strategy, slaves, ping, old(counter), i)
        decreases maxRetry - i
      {
        var outcome := Attempt(ping, random(i), old(counter), i);
        if outcome.Some? {
          return outcome.value;
        }
        i := i + 1;
      }
      if !strategy.Random? {
        NothingFound(strategy, slaves, ping, old(counter), i, maxRetry + 1);
      }
      r := AllFailed;
    }

    /** Lines 245-258: one try, the one after `k` others that came to nothing. */
    method Attempt(ping: DB -> bool, random: nat, ghost c: nat, ghost k: nat) returns (r: Option<Outcome>)
      requires Valid() && c < WRAP && k <= maxRetry
      requires !strategy.Random? ==> counter == Seen(c, k) && ComeToNothing(strategy, slaves, ping, c, k)
      modifies this`counter
      ensures Valid()
      ensures r.None? && !strategy.Random? ==>
        counter == Seen(c, k + 1) && ComeToNothing(strategy, slaves, ping, c, k + 1)
      ensures r.Some? ==> !r.value.AllFailed? && (r.value.Found? ==> r.value.db in slaves && ping(r.value.db))
      ensures r.Some? && !strategy.Random? ==>
        && (r.value.Found? <==> Finds(strategy, slaves, ping, c, maxRetry + 1))
        && (r.value.Crashed? <==> Crashes(strategy, slaves, ping, c, maxRetry + 1))
      ensures r == Some(Crashed) ==> strategy.Weight? && CanPanic(strategy.weights, |slaves|)
    {
      ghost var before := counter;
      var choice, next := Next(strategy, slaves, counter, random);
      counter := next;
      if !strategy.Random? {
        OneTry(strategy, slaves, ping, c, k, maxRetry + 1, before, choice, next);
      }
      match choice
      case Panic =>
        PanicShows(strategy.weights, slaves, before, counter);
        r := Some(Crashed);
      case NoSlaves =>
        assert false;
      case Picked(db) =>
        r := if ping(db) then Some(Found(db)) else None;
    }

    /** DBManager.Health. Without the master nothing changes. */
    method Health(ping: DB -> bool) returns (ok: bool)
      requires Valid()
      modifies this`slaves
      ensures Valid()
      ensures ok <==> ping(master)
      ensures !ok ==> slaves == old(slaves)
      ensures ok ==> slaves == if Filter(old(slaves), ping) == [] then [master] else Filter(old(slaves), ping)
      ensures ok ==> forall s :: s in slaves ==> ping(s)
    {
      if !ping(master) {
        return false;
      }
      var healthy := [];
      for i := 0 to |slaves|
        invariant slaves == old(slaves) && healthy == Filter(slaves[..i], ping)
      {
        assert slaves[..i + 1] == slaves[..i] + [slaves[i]];
        FilterSnoc(slaves[..i], slaves[i], ping);
        if ping(slaves[i]) {
          healthy := healthy + [slaves[i]];
        }
      }
      assert slaves[..|slaves|] == slaves;
      slaves := healthy;
      if |slaves| == 0 {
        slaves := slaves + [master];
      }
      return true;
    }
  }

  /** NewDBManager. */
  method NewDBManager(conf: Config) returns (r: Result<DBManager, string>)
    ensures r.Success? <==> conf.master.Some? && conf.strategy in {"round_robin", "", "random", "weight"}
    ensures r.Success? ==>
      && fresh(r.value) && r.value.Valid() && r.value.counter == 0
      && r.value.master == conf.master.value && r.value.maxRetry == conf.maxRetry
      && r.value.slaves == (if Connected(conf.replicas) == [] then [r.value.master] else Connected(conf.replicas))
      && r.value.strategy == (if conf.strategy == "random" then Random
                              else if conf.strategy == "weight" then Weight(Weights(conf.replicas)) else RoundRobin)
  {
    if conf.master.None? {
      return Failure("master database configuration is required");
    }
    var master := conf.master.value;
    var slaves: seq<DB> := [];
    for i := 0 to |conf.replicas|
      invariant slaves == Connected(conf.replicas[..i])
    {
      assert conf.replicas[..i + 1][..i] == conf.replicas[..i];
      if conf.replicas[i].connection.Some? {
        slaves := slaves + [conf.replicas[i].connection.value];
      }
    }
    assert conf.replicas[..|conf.replicas|] == conf.replicas;
    ghost var originals := slaves;
    if |slaves| == 0 {
      slaves := slaves + [master];
    }
    var strategy;
    if conf.strategy == "round_robin" || conf.strategy == "" {
      strategy := RoundRobin;
    } else if conf.strategy == "random" {
      strategy := Random;
    } else if conf.strategy == "weight" {
      strategy := Weight(Weights(conf.replicas));
    } else {
      return Failure("invalid load balance strategy");
    }
    var manager := new DBManager(master, slaves, strategy, conf.maxRetry, originals);
    return Success(manager);
  }

  /** The connections that could be made, in the order of the configuration. */
  lemma {:induction false} ConnectedIs(front: seq<Replica>, back: seq<Replica>, r: Replica)
    ensures Connected([]) == [] && Connected([r]) == if r.connection == None then [] else [r.connection.value]
    ensures Connected(front + back) == Connected(front) + Connected(back)
  {
    assert [r][..0] == [];
    if back == [] {
      assert front + back == front;
    } else {
      var n := |back| - 1;
      ConnectedIs(front, back[..n], r);
      assert (front + back)[..|front + back| - 1] == front + back[..n];
    }
  }

  lemma {:induction false} ConnectedAtMost(replicas: seq<Replica>)
    ensures |Connected(replicas)| <= |replicas|
    ensures |Connected(replicas)| == |replicas| <==> forall i :: 0 <= i < |replicas| ==> replicas[i].connection.Some?
  {
    if replicas != [] {
      ConnectedAtMost(replicas[..|replicas| - 1]);
    }
  }

  /**
   * A freshly made manager with the weight strategy can panic unless replicas are configured,
   * either all of them could be connected to or there is just one, and the total weight does
   * not wrap around.
   */
  lemma FreshWeightedManagerIsSafeIff(replicas: seq<Replica>)
    ensures var weights, slaves := Weights(replicas), if Connected(replicas) == [] then 1 else |Connected(replicas)|;
      && (!CanPanic(weights, slaves) <==> Bits(Total(weights)) > 0 && ReachesTotal(weights, slaves))
      && (Total(weights) < WRAP ==>
            (!CanPanic(weights, slaves) <==>
             |replicas| == 1 || (|replicas| > 0 && forall i :: 0 <= i < |replicas| ==> replicas[i].connection.Some?)))
  {
    ConnectedAtMost(replicas);
    var weights, slaves := Weights(replicas), if Connected(replicas) == [] then 1 else |Connected(replicas)|;
    WeightedIsSafeIff(weights, slaves);
    if Total(weights) < WRAP {
      WeightedIsSafeWithoutWrapIff(weights, slaves);
    }
  }
}
