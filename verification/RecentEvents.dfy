/** The sliding window of event times in extension/event/dispatcher.go. */
module RecentEvents {
  import opened Common

  const MINUTE: int := 60_000_000_000
  const MAX_EVENTS: nat := 1000

  ghost predicate NonDecreasing(s: seq<Time>) {
    forall i, j :: 0 <= i < j < |s| ==> s[i] <= s[j]
  }

  /** How many of the times lie in the minute that ends at `now`. */
  function InLastMinute(s: seq<Time>, now: Time): nat {
    if s == [] then 0
    else InLastMinute(s[..|s| - 1], now) + if s[|s| - 1] > now - MINUTE then 1 else 0
  }

  /** The events less than 60 seconds before `now`, by position. */
  ghost function RecentPositions(s: seq<Time>, now: Time): set<int> {
    set i | 0 <= i < |s| && now - s[i] < 60_000_000_000
  }

  lemma {:induction false} InLastMinuteIs(s: seq<Time>, now: Time)
    ensures InLastMinute(s, now) == |RecentPositions(s, now)|
  {
    if s != [] {
      var n := |s| - 1;
      InLastMinuteIs(s[..n], now);
      var before := RecentPositions(s[..n], now);
      assert n !in before;
      if s[n] > now - MINUTE {
        assert RecentPositions(s, now) == before + {n};
      } else {
        assert RecentPositions(s, now) == before;
      }
    }
  }

  /** The cap is 1000 events. */
  lemma CapIs(s: seq<Time>)
    ensures |s| <= 1000 ==> Capped(s) == s && Overflow(s) == 0
    ensures |s| > 1000 ==> Capped(s) == s[|s| - 1000..] && Overflow(s) == |s| - 1000
  {
  }

  lemma {:induction false} InLastMinuteBound(s: seq<Time>, now: Time)
    ensures InLastMinute(s, now) <= |s|
  {
    if s != [] {
      InLastMinuteBound(s[..|s| - 1], now);
    }
  }

  /** In a non-decreasing list the recent times are a suffix. */
  lemma {:induction false} RecentSuffix(s: seq<Time>, now: Time, k: nat)
    requires NonDecreasing(s) && k <= |s|
    requires forall i :: 0 <= i < k ==> s[i] <= now - MINUTE
    requires k < |s| ==> s[k] > now - MINUTE
    ensures InLastMinute(s, now) == |s| - k
  {
    if s != [] {
      var init := s[..|s| - 1];
      if k == |s| {
        RecentSuffix(init, now, k - 1);
      } else {
        RecentSuffix(init, now, k);
      }
    }
  }

  /** Every time has a first recent position, or there is none. */
  lemma {:induction false} FirstRecent(s: seq<Time>, now: Time) returns (k: nat)
    ensures k <= |s| && (forall i :: 0 <= i < k ==> s[i] <= now - MINUTE) && (k < |s| ==> s[k] > now - MINUTE)
  {
    if s == [] {
      k := 0;
    } else {
      k := FirstRecent(s[..|s| - 1], now);
      if k == |s| - 1 && s[k] <= now - MINUTE {
        k := k + 1;
      }
    }
  }

  function Last<T>(s: seq<T>, n: nat): seq<T>
    requires n <= |s|
  {
    s[|s| - n..]
  }

  /** The window after the events of `history`: the last of them, at most 1000 and at most a minute old. */
  ghost function Window(history: seq<Time>): seq<Time> {
    if history == [] then []
    else
      var now := history[|history| - 1];
      InLastMinuteBound(history, now);
      Last(history, Min(MAX_EVENTS, InLastMinute(history, now)))
  }

  /** The first recent position of the history determines its window. */
  lemma WindowFrom(history: seq<Time>, k: nat)
    requires history != [] && NonDecreasing(history) && k < |history|
    requires var now := history[|history| - 1];
      (forall i :: 0 <= i < k ==> history[i] <= now - MINUTE) && history[k] > now - MINUTE
    ensures Window(history) == Last(history, Min(MAX_EVENTS, |history| - k))
  {
    RecentSuffix(history, history[|history| - 1], k);
  }

  function Capped(s: seq<Time>): seq<Time> {
    if |s| > MAX_EVENTS then s[|s| - MAX_EVENTS..] else s
  }

  /** How many times the cap drops. */
  function Overflow(s: seq<Time>): nat {
    if |s| > MAX_EVENTS then |s| - MAX_EVENTS else 0
  }

  /**
   * Appending an event to the window, dropping what is older than a minute and capping
   * the rest gives the window of the longer history, although events that the cap
   * dropped earlier are gone for good.
   */
  lemma {:induction false} WindowStep(history: seq<Time>, t: Time, start: nat)
    requires NonDecreasing(history) && (history != [] ==> history[|history| - 1] <= t)
    requires var s := Window(history) + [t];
      start < |s| && (forall i :: 0 <= i < start ==> s[i] <= t - MINUTE) && s[start] > t - MINUTE
    ensures Capped((Window(history) + [t])[start..]) == Window(history + [t])
  {
    if history == [] {
      WindowFrom([t], 0);
      assert history + [t] == [t] && Window(history) + [t] == [t];
    } else {
      var k0 := FirstRecent(history, history[|history| - 1]);
      WindowFrom(history, k0);
      StepFrom(history, Window(history), t, start, k0);
    }
  }

  lemma StepFrom(history: seq<Time>, w: seq<Time>, t: Time, start: nat, k0: nat)
    requires NonDecreasing(history) && history != [] && history[|history| - 1] <= t && k0 <= |history|
    requires forall i :: 0 <= i < k0 ==> history[i] <= history[|history| - 1] - MINUTE
    requires w == Last(history, Min(MAX_EVENTS, |history| - k0))
    requires var s := w + [t];
      start < |s| && (forall i :: 0 <= i < start ==> s[i] <= t - MINUTE) && s[start] > t - MINUTE
    ensures Capped((w + [t])[start..]) == Window(history + [t])
  {
    var h := history + [t];
    NonDecreasingSnoc(history, t);
    var k := FirstRecent(h, t);
    var base := |history| - |w|;
    assert w + [t] == h[base..] && h[|h| - 1] == t;
    NoRecentEarlier(history, t, k0, k);
    SuffixStart(h, t, base, k, start);
    CappedSuffix(h, k0, k, base);
    WindowFrom(h, k);
  }

  /** Capping the recent part of a capped window is capping the recent part of the history. */
  lemma CappedSuffix(h: seq<Time>, k0: nat, k: nat, base: nat)
    requires k0 <= k < |h| && base == |h| - 1 - Min(MAX_EVENTS, |h| - 1 - k0)
    ensures base < |h|
    ensures Capped(h[base..][if base <= k then k - base else 0..]) == Last(h, Min(MAX_EVENTS, |h| - k))
  {
    var start := if base <= k then k - base else 0;
    assert h[base..][start..] == h[base + start..];
  }

  /** A later time makes no further events recent. */
  lemma NoRecentEarlier(history: seq<Time>, t: Time, k0: nat, k: nat)
    requires history != [] && history[|history| - 1] <= t && k0 <= |history| && k <= |history|
    requires forall i :: 0 <= i < k0 ==> history[i] <= history[|history| - 1] - MINUTE
    requires (history + [t])[k] > t - MINUTE
    ensures k0 <= k
  {
  }

  /** Where the recent times of a suffix start. */
  lemma SuffixStart(h: seq<Time>, t: Time, base: nat, k: nat, start: nat)
    requires NonDecreasing(h) && base < |h| && k < |h| && start < |h| - base
    requires (forall i :: 0 <= i < k ==> h[i] <= t - MINUTE) && h[k] > t - MINUTE
    requires (forall i :: 0 <= i < start ==> h[base..][i] <= t - MINUTE) && h[base..][start] > t - MINUTE
    ensures start == if base <= k then k - base else 0
  {
    var s := h[base..];
    assert forall i :: 0 <= i < |s| ==> s[i] == h[base + i];
    if base <= k {
      assert s[k - base] > t - MINUTE;
      assert h[base + start] > t - MINUTE;
    } else {
      assert h[k] <= h[base] && s[0] > t - MINUTE;
    }
  }

  /** A recent time is only dropped from the window when the cap has been reached. */
  lemma WindowCount(history: seq<Time>, now: Time)
    requires NonDecreasing(history) && (history != [] ==> history[|history| - 1] <= now)
    ensures InLastMinute(Window(history), now) == Min(MAX_EVENTS, InLastMinute(history, now))
  {
    if history != [] {
      var last := history[|history| - 1];
      var k0 := FirstRecent(history, last);
      var k := FirstRecent(history, now);
      WindowFrom(history, k0);
      RecentSuffix(history, now, k);
      assert k0 <= k;
      var w := Window(history);
      RecentInSuffix(history, |history| - |w|, now, k);
    }
  }

  lemma RecentInSuffix(h: seq<Time>, base: nat, now: Time, k: nat)
    requires NonDecreasing(h) && base <= |h| && k <= |h|
    requires (forall i :: 0 <= i < k ==> h[i] <= now - MINUTE) && (k < |h| ==> h[k] > now - MINUTE)
    ensures InLastMinute(h[base..], now) == if base <= k then |h| - k else |h| - base
  {
    var w := h[base..];
    assert forall i :: 0 <= i < |w| ==> w[i] == h[base + i];
    RecentSuffix(w, now, if base <= k then k - base else 0);
  }

  /** copy(s, s[start:]) within one array: the tail moves to the front, the rest stays. */
  function CopyDown(s: seq<Time>, start: nat): seq<Time>
    requires start <= |s|
  {
    s[start..] + s[|s| - start..]
  }

  lemma NonDecreasingSnoc(s: seq<Time>, t: Time)
    requires NonDecreasing(s) && (s != [] ==> s[|s| - 1] <= t)
    ensures NonDecreasing(s + [t])
  {
    assert forall i :: 0 <= i < |s| ==> s[i] <= t;
  }

  /** Without the times up to the cutoff at its front. Later ones that are out of order stay. */
  function WithoutStale(s: seq<Time>, cutoff: Time): seq<Time> {
    if s == [] || s[0] > cutoff then s else WithoutStale(s[1..], cutoff)
  }

  lemma {:induction false} StaleFront(s: seq<Time>, cutoff: Time, start: nat)
    requires start < |s| && (forall k :: 0 <= k < start ==> s[k] <= cutoff) && s[start] > cutoff
    ensures WithoutStale(s, cutoff) == s[start..]
  {
    if start > 0 {
      StaleFront(s[1..], cutoff, start - 1);
    }
  }

  ghost predicate IsSuffix(r: seq<Time>, s: seq<Time>) {
    |r| <= |s| && r == Last(s, |r|)
  }

  lemma SuffixAfterEvent(r: seq<Time>, s: seq<Time>, t: Time, start: nat)
    requires IsSuffix(r, s) && start < |r| + 1
    ensures IsSuffix(Capped((r + [t])[start..]), s + [t]) && |Capped((r + [t])[start..])| <= MAX_EVENTS
  {
    var h := s + [t];
    assert h == s[..|s| - |r|] + (r + [t]);
    SuffixOfSuffix(s[..|s| - |r|], r + [t], start);
    var u := (r + [t])[start..];
    if |u| > MAX_EVENTS {
      SuffixOfSuffix(h[..|h| - |u|], u, |u| - MAX_EVENTS);
      assert h == h[..|h| - |u|] + u;
    }
  }

  lemma SuffixOfSuffix(front: seq<Time>, back: seq<Time>, k: nat)
    requires k <= |back|
    ensures IsSuffix(back[k..], front + back)
  {
  }

  lemma InOrderBefore(history: seq<Time>, t: Time)
    requires NonDecreasing(history + [t])
    ensures NonDecreasing(history) && (history != [] ==> history[|history| - 1] <= t)
  {
    var h := history + [t];
    assert forall i :: 0 <= i < |history| ==> history[i] == h[i];
    assert h[|history|] == t;
  }

  /** No event is later than `now`. */
  ghost predicate AllBy(s: seq<Time>, now: Time) {
    forall i :: 0 <= i < |s| ==> s[i] <= now
  }

  lemma {:induction false} CountsConcat(a: seq<Time>, b: seq<Time>, now: Time)
    ensures InLastMinute(a + b, now) == InLastMinute(a, now) + InLastMinute(b, now)
  {
    if b == [] {
      assert a + b == a;
    } else {
      assert (a + b)[..|a + b| - 1] == a + b[..|b| - 1];
      CountsConcat(a, b[..|b| - 1], now);
    }
  }

  lemma {:induction false} StaleDoNotCount(s: seq<Time>, now: Time)
    requires AllBy(s, now - MINUTE)
    ensures InLastMinute(s, now) == 0
  {
    if s != [] {
      StaleDoNotCount(s[..|s| - 1], now);
    }
  }

  /** The end of a list counts what the whole list counts, less what the front counts. */
  lemma SplitCount(s: seq<Time>, n: nat, now: Time)
    requires n <= |s|
    ensures InLastMinute(s, now) == InLastMinute(s[..|s| - n], now) + InLastMinute(Last(s, n), now)
  {
    assert s == s[..|s| - n] + Last(s, n);
    CountsConcat(s[..|s| - n], Last(s, n), now);
  }

  /**
   * At any time that no event is later than, the front of the history that is not in the
   * buffer counts at most `lost`.
   */
  ghost predicate LosesAtMost(history: seq<Time>, kept: nat, lost: nat)
    requires kept <= |history|
  {
    forall now :: AllBy(history, now) ==> InLastMinute(history[..|history| - kept], now) <= lost
  }

  lemma LostParts(front: seq<Time>, stale: seq<Time>, capped: seq<Time>, now: Time)
    requires AllBy(stale, now - MINUTE)
    ensures InLastMinute(front + stale + capped, now) <= InLastMinute(front, now) + |capped|
  {
    CountsConcat(front + stale, capped, now);
    CountsConcat(front, stale, now);
    StaleDoNotCount(stale, now);
    InLastMinuteBound(capped, now);
  }

  /** How one more event divides what is not in the buffer afterwards. */
  lemma PartsAfterEvent(history: seq<Time>, r: seq<Time>, t: Time, start: nat, kept: nat)
    requires IsSuffix(r, history) && start < |r| + 1 && kept <= |r| + 1 - start
    ensures var s := r + [t];
      (history + [t])[..|history| + 1 - kept] == history[..|history| - |r|] + s[..start] + s[start..|s| - kept]
  {
    assert history + [t] == history[..|history| - |r|] + (r + [t]);
  }

  /** The stale front of the buffer counts nothing any more; what the cap drops counts as lost. */
  lemma LosesAfterEvent(history: seq<Time>, r: seq<Time>, t: Time, start: nat, lost: nat, kept: nat)
    requires IsSuffix(r, history) && LosesAtMost(history, |r|, lost)
    requires start < |r| + 1 && AllBy((r + [t])[..start], t - MINUTE) && kept <= |r| + 1 - start
    ensures LosesAtMost(history + [t], kept, lost + (|r| + 1 - start - kept))
  {
    var h, s := history + [t], r + [t];
    PartsAfterEvent(history, r, t, start, kept);
    forall now | AllBy(h, now) ensures InLastMinute(h[..|h| - kept], now) <= lost + (|s| - start - kept) {
      AllByBefore(history, t, now);
      LostParts(history[..|history| - |r|], s[..start], s[start..|s| - kept], now);
    }
  }

  lemma AllByBefore(history: seq<Time>, t: Time, now: Time)
    requires AllBy(history + [t], now)
    ensures AllBy(history, now) && t <= now
  {
    var h := history + [t];
    assert h[|history|] == t && forall i :: 0 <= i < |history| ==> history[i] == h[i];
  }

  /**
   * The buffer is the end of the history; of what is not in it, no more than what the cap
   * has dropped can be recent. If the times never went back, the buffer is the last of
   * them, at most 1000 and at most a minute old.
   */
  ghost predicate IsBuffer(r: seq<Time>, history: seq<Time>, lost: nat) {
    && IsSuffix(r, history) && |r| <= MAX_EVENTS
    && LosesAtMost(history, |r|, lost)
    && (NonDecreasing(history) ==> r == Window(history))
  }

  /** `start` is the position of the first time of `s` after the cutoff. */
  ghost predicate IsStart(s: seq<Time>, cutoff: Time, start: nat) {
    start < |s| && (forall i :: 0 <= i < start ==> s[i] <= cutoff) && s[start] > cutoff
  }

  lemma BufferLoses(r: seq<Time>, history: seq<Time>, t: Time, start: nat, lost: nat)
    requires IsSuffix(r, history) && LosesAtMost(history, |r|, lost) && IsStart(r + [t], t - MINUTE, start)
    ensures var unstale := (r + [t])[start..];
      |Capped(unstale)| <= |history| + 1 && LosesAtMost(history + [t], |Capped(unstale)|, lost + Overflow(unstale))
  {
    LosesAfterEvent(history, r, t, start, lost, |Capped((r + [t])[start..])|);
  }

  lemma {:induction false} BufferIsWindow(r: seq<Time>, history: seq<Time>, t: Time, start: nat)
    requires NonDecreasing(history) ==> r == Window(history)
    requires IsStart(r + [t], t - MINUTE, start) && NonDecreasing(history + [t])
    ensures Capped((r + [t])[start..]) == Window(history + [t])
  {
    InOrderBefore(history, t);
    WindowStep(history, t, start);
  }

  lemma BufferAfterStart(r: seq<Time>, history: seq<Time>, t: Time, start: nat, lost: nat)
    requires IsBuffer(r, history, lost) && IsStart(r + [t], t - MINUTE, start)
    ensures var unstale := (r + [t])[start..]; IsBuffer(Capped(unstale), history + [t], lost + Overflow(unstale))
  {
    SuffixAfterEvent(r, history, t, start);
    BufferLoses(r, history, t, start, lost);
    if NonDecreasing(history + [t]) {
      BufferIsWindow(r, history, t, start);
    }
  }

  /** Where the first time after the cutoff stands. */
  lemma {:induction false} StartOf(s: seq<Time>, cutoff: Time) returns (start: nat)
    requires s != [] && s[|s| - 1] > cutoff
    ensures IsStart(s, cutoff, start)
  {
    if s[0] > cutoff {
      start := 0;
    } else {
      start := StartOf(s[1..], cutoff);
      start := start + 1;
    }
  }

  /** The buffer after one more event, and how many more events the cap has dropped by then. */
  lemma BufferAfterEvent(r: seq<Time>, history: seq<Time>, t: Time, lost: nat, unstale: seq<Time>)
    requires IsBuffer(r, history, lost) && unstale == WithoutStale(r + [t], t - MINUTE)
    ensures IsBuffer(Capped(unstale), history + [t], lost + Overflow(unstale))
  {
    var start := StartOf(r + [t], t - MINUTE);
    StaleFront(r + [t], t - MINUTE, start);
    BufferAfterStart(r, history, t, start, lost);
  }

  class Dispatcher {
    var recentEvents: seq<Time>
    /** All event times so far. */
    ghost var history: seq<Time>
    /** How many events the cap has dropped. */
    ghost var lost: nat

    ghost predicate Valid()
      reads this
    {
      IsBuffer(recentEvents, history, lost)
    }

    constructor ()
      ensures Valid() && history == [] && lost == 0
    {
      recentEvents, history, lost := [], [], 0;
    }

    /** recordRecentEvent. */
    method RecordRecentEvent(eventTime: Time)
      requires Valid()
      modifies this
      ensures Valid() && history == old(history) + [eventTime]
      ensures var unstale := WithoutStale(old(recentEvents) + [eventTime], eventTime - MINUTE);
        recentEvents == Capped(unstale) && lost == old(lost) + Overflow(unstale)
    {
      ghost var before := recentEvents;
      AppendAndTrim(eventTime);
      Account(before, eventTime);
    }

    /** The history of an event that has been recorded. */
    ghost method Account(before: seq<Time>, eventTime: Time)
      requires IsBuffer(before, history, lost)
      requires recentEvents == Capped(WithoutStale(before + [eventTime], eventTime - MINUTE))
      modifies this`history, this`lost
      ensures Valid() && history == old(history) + [eventTime]
      ensures lost == old(lost) + Overflow(WithoutStale(before + [eventTime], eventTime - MINUTE))
    {
      var unstale := WithoutStale(before + [eventTime], eventTime - MINUTE);
      BufferAfterEvent(before, history, eventTime, lost, unstale);
      history := history + [eventTime];
      lost := lost + Overflow(unstale);
    }

    /** Lines 121-143. */
    method AppendAndTrim(eventTime: Time)
      modifies this`recentEvents
      ensures recentEvents == Capped(WithoutStale(old(recentEvents) + [eventTime], eventTime - MINUTE))
    {
      recentEvents := recentEvents + [eventTime];
      var start := FirstAfter(recentEvents, eventTime - MINUTE);
      StaleFront(recentEvents, eventTime - MINUTE, start);
      DropFront(start);
      if |recentEvents| > MAX_EVENTS {
        DropFront(|recentEvents| - MAX_EVENTS);
      }
    }

    /** Lines 133-136 and 140-142: shift the array down and cut it off. */
    method DropFront(start: nat)
      requires start <= |recentEvents|
      modifies this`recentEvents
      ensures recentEvents == old(recentEvents)[start..]
    {
      if start > 0 {
        var n := |recentEvents|;
        recentEvents := CopyDown(recentEvents, start);
        recentEvents := recentEvents[..n - start];
      }
    }

    /** Lines 125-131. The last event is the current one, so there is a recent one. */
    method FirstAfter(events: seq<Time>, cutoff: Time) returns (start: nat)
      requires events != [] && events[|events| - 1] > cutoff
      ensures start < |events| && (forall k :: 0 <= k < start ==> events[k] <= cutoff) && events[start] > cutoff
    {
      start := 0;
      for i := 0 to |events|
        invariant forall k :: 0 <= k < i ==> events[k] <= cutoff
      {
        if events[i] > cutoff {
          return i;
        }
      }
      assert false;
    }

    /**
     * calculateEventsPerMinute. It never reports too many. At a time that is not before any
     * event it misses at most what the cap has dropped, in whatever order the events came;
     * so it is exact until the cap drops something. If the times never went back it is exact
     * up to the cap.
     */
    method EventsPerMinute(now: Time) returns (count: nat)
      requires Valid()
      ensures count <= Min(MAX_EVENTS, InLastMinute(history, now))
      ensures AllBy(history, now) ==> InLastMinute(history, now) <= count + lost
      ensures AllBy(history, now) && lost == 0 ==> count == InLastMinute(history, now)
      ensures NonDecreasing(history) && (history != [] ==> history[|history| - 1] <= now) ==>
        count == Min(MAX_EVENTS, InLastMinute(history, now))
    {
      if NonDecreasing(history) && (history != [] ==> history[|history| - 1] <= now) {
        WindowCount(history, now);
      }
      SplitCount(history, |recentEvents|, now);
      InLastMinuteBound(recentEvents, now);
      if |recentEvents| == 0 {
        return 0;
      }
      count := CountAfter(now);
    }

    /** Lines 232-239. */
    method CountAfter(now: Time) returns (count: nat)
      ensures count == InLastMinute(recentEvents, now)
    {
      count := 0;
      for i := 0 to |recentEvents|
        invariant count == InLastMinute(recentEvents[..i], now)
      {
        assert recentEvents[..i + 1][..i] == recentEvents[..i];
        if recentEvents[i] > now - MINUTE {
          count := count + 1;
        }
      }
      assert recentEvents[..|recentEvents|] == recentEvents;
    }
  }
}
