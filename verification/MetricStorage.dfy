/**
 * The in-memory metric store of extension/metrics/memory_storage.go. Times are relative
 * to the Unix epoch.
 */
module MetricStorage {
  import opened Common

  datatype Snapshot = Snapshot(extensionName: string, metricType: string, value: int, labels: map<string, string>,
                               timestamp: Time)

  // ----- Keys -----

  function BuildKey(extensionName: string, metricType: string): string {
    extensionName + [':'] + metricType
  }

  function ParseKey(key: string): (string, string) {
    var parts := SplitFirst(key, ':');
    if parts.None? then ("", "") else parts.value
  }

  /**
   * Parsing a key returns the names it was built from exactly when the extension name has
   * no colon. Query and GetLatest compare the parsed name, so they find the metrics of an
   * extension under its own name if and only if its name has no colon.
   */
  lemma KeyRoundTrip(extensionName: string, metricType: string)
    ensures ParseKey(BuildKey(extensionName, metricType)) == (extensionName, metricType) <==> ':' !in extensionName
    ensures ParseKey(BuildKey(extensionName, metricType)).0 == extensionName <==> ':' !in extensionName
  {
    SplitUndoesJoin(extensionName, ':', metricType);
  }

  /** A name up to its first colon. */
  function FirstPart(name: string): string {
    var parts := SplitFirst(name, ':');
    if parts.None? then name else parts.value.0
  }

  lemma FirstPartIff(name: string)
    ensures FirstPart(name) == name <==> ':' !in name
    ensures ':' !in FirstPart(name)
  {
    SplitFirstIs(name, ':');
  }

  /** For every extension name, the name under which its metrics are found. */
  lemma {:induction false} ParsedName(extensionName: string, metricType: string)
    ensures ParseKey(BuildKey(extensionName, metricType)).0 == FirstPart(extensionName)
  {
    var key := BuildKey(extensionName, metricType);
    if extensionName != [] && extensionName[0] != ':' {
      ParsedName(extensionName[1..], metricType);
      assert key[1..] == BuildKey(extensionName[1..], metricType);
    }
  }

  /** The first part of the metric type `m` belongs to the extension name `b` instead. */
  ghost predicate Shifts(a: string, m: string, b: string, n: string) {
    exists x :: b == a + [':'] + x && m == x + [':'] + n
  }

  /** Two metrics are filed together exactly if they have the same names, or one shift of a colon apart. */
  lemma SameKeyIff(a: string, m: string, b: string, n: string)
    ensures BuildKey(a, m) == BuildKey(b, n) <==> (a == b && m == n) || Shifts(a, m, b, n) || Shifts(b, n, a, m)
  {
    if BuildKey(a, m) == BuildKey(b, n) {
      if |a| == |b| {
        SameLength(a, m, b, n);
      } else if |a| < |b| {
        LongerName(a, m, b, n);
      } else {
        LongerName(b, n, a, m);
      }
    }
    forall x | b == a + [':'] + x && m == x + [':'] + n ensures BuildKey(a, m) == BuildKey(b, n) {
      assert a + [':'] + (x + [':'] + n) == a + [':'] + x + [':'] + n;
    }
    forall x | a == b + [':'] + x && n == x + [':'] + m ensures BuildKey(a, m) == BuildKey(b, n) {
      assert b + [':'] + (x + [':'] + m) == b + [':'] + x + [':'] + m;
    }
  }

  lemma SameLength(a: string, m: string, b: string, n: string)
    requires BuildKey(a, m) == BuildKey(b, n) && |a| == |b|
    ensures a == b && m == n
  {
    var key := BuildKey(a, m);
    assert a == key[..|a|] && m == key[|a| + 1..];
    assert b == BuildKey(b, n)[..|b|] && n == BuildKey(b, n)[|b| + 1..];
  }

  lemma LongerName(a: string, m: string, b: string, n: string)
    requires BuildKey(a, m) == BuildKey(b, n) && |a| < |b|
    ensures Shifts(a, m, b, n)
  {
    var key := BuildKey(a, m);
    var x := b[|a| + 1..];
    assert a == key[..|a|] && m == key[|a| + 1..] && key[|a|] == ':';
    assert key == BuildKey(b, n) && b == key[..|b|] && n == key[|b| + 1..] && key[|b|] == ':';
    assert b == key[..|a|] + [key[|a|]] + key[|a| + 1..|b|];
    assert m == key[|a| + 1..|b|] + [key[|b|]] + key[|b| + 1..];
    assert b == a + [':'] + x && m == x + [':'] + n;
  }

  function KeyOf(s: Snapshot): string {
    BuildKey(s.extensionName, s.metricType)
  }

  function HasKey(key: string): Snapshot -> bool {
    (s: Snapshot) => KeyOf(s) == key
  }

  function IsAfter(before: Time): Snapshot -> bool {
    (s: Snapshot) => s.timestamp > before
  }

  // ----- The data map -----

  type Data = map<string, seq<Snapshot>>

  /** Reading a missing key of a Go map yields the empty list. */
  function Get(data: Data, key: string): seq<Snapshot> {
    if key in data then data[key] else []
  }

  /** How many snapshots the map holds. */
  ghost function Size(data: Data): nat
    decreases |data|
  {
    if data == map[] then 0
    else
      var key :| key in data;
      |data[key]| + Size(data - {key})
  }

  lemma {:induction false} SizeWithout(data: Data, key: string)
    requires key in data
    ensures Size(data) == |data[key]| + Size(data - {key})
    decreases |data|
  {
    var k :| k in data && Size(data) == |data[k]| + Size(data - {k});
    if k != key {
      SizeWithout(data - {k}, key);
      SizeWithout(data - {key}, k);
      assert data - {k} - {key} == data - {key} - {k};
    }
  }

  lemma SizeUpdated(data: Data, key: string, list: seq<Snapshot>)
    ensures Size(data[key := list]) + |Get(data, key)| == Size(data) + |list|
  {
    var data' := data[key := list];
    SizeWithout(data', key);
    if key in data {
      SizeWithout(data, key);
      assert data' - {key} == data - {key};
    } else {
      assert data' - {key} == data;
    }
  }

  /** No list is empty, and each snapshot is filed under its own key. */
  ghost predicate Filed(data: Data) {
    && (forall key :: key in data ==> data[key] != [])
    && (forall key, s :: key in data && s in data[key] ==> KeyOf(s) == key)
  }

  /** `data` is `before` with `added` appended, list by list. */
  ghost predicate Extends(before: Data, added: seq<Snapshot>, data: Data) {
    forall key :: Get(data, key) == Get(before, key) + Filter(added, HasKey(key))
  }

  function AppendTo(data: Data, s: Snapshot): Data {
    data[KeyOf(s) := Get(data, KeyOf(s)) + [s]]
  }

  lemma AppendExtendsAt(before: Data, added: seq<Snapshot>, data: Data, s: Snapshot, key: string)
    requires Get(data, key) == Get(before, key) + Filter(added, HasKey(key))
    ensures Get(AppendTo(data, s), key) == Get(before, key) + Filter(added + [s], HasKey(key))
  {
    FilterSnoc(added, s, HasKey(key));
    if key == KeyOf(s) {
      assert Get(AppendTo(data, s), key) == Get(data, key) + [s];
    } else {
      assert Get(AppendTo(data, s), key) == Get(data, key);
    }
  }

  lemma AppendExtends(before: Data, added: seq<Snapshot>, data: Data, s: Snapshot)
    requires Extends(before, added, data)
    ensures Extends(before, added + [s], AppendTo(data, s))
  {
    forall key ensures Get(AppendTo(data, s), key) == Get(before, key) + Filter(added + [s], HasKey(key)) {
      AppendExtendsAt(before, added, data, s, key);
    }
  }

  lemma AppendKeepsFiled(data: Data, s: Snapshot)
    requires Filed(data)
    ensures Filed(AppendTo(data, s)) && Size(AppendTo(data, s)) == Size(data) + 1
  {
    SizeUpdated(data, KeyOf(s), Get(data, KeyOf(s)) + [s]);
  }

  /** The lists outside `todo` are filtered, those in `todo` are as before. */
  ghost predicate IsCleaned(before: Data, data: Data, todo: set<string>, cutoff: Time) {
    forall key :: Get(data, key) == if key in todo then Get(before, key) else Filter(Get(before, key), IsAfter(cutoff))
  }

  lemma CleanedOneMore(before: Data, data: Data, data': Data, todo: set<string>, key: string, cutoff: Time)
    requires IsCleaned(before, data, todo, cutoff) && key in todo
    requires Get(data', key) == Filter(Get(before, key), IsAfter(cutoff))
    requires forall k :: k != key ==> Get(data', k) == Get(data, k)
    ensures IsCleaned(before, data', todo - {key}, cutoff)
  {
  }

  predicate Storable(s: Option<Snapshot>) {
    s.Some? && s.value.extensionName != "" && s.value.metricType != ""
  }

  /** The snapshots of a batch that are stored; the others are skipped. */
  function Stored(batch: seq<Option<Snapshot>>): seq<Snapshot> {
    if batch == [] then []
    else
      var init := Stored(batch[..|batch| - 1]);
      var last := batch[|batch| - 1];
      if Storable(last) then init + [last.value] else init
  }

  /** Which snapshots of a batch are stored, and that they keep their order. */
  lemma {:induction false} StoredIs(batch: seq<Option<Snapshot>>, item: Option<Snapshot>)
    ensures Stored(batch + [item])
         == Stored(batch)
            + if item.Some? && item.value.extensionName != "" && item.value.metricType != "" then [item.value] else []
  {
    assert (batch + [item])[..|batch|] == batch;
  }

  datatype StoreError = NilSnapshot | NoExtensionName | NoMetricType

  class MemoryStorage {
    var data: Data
    var total: int

    /** The total is the number of snapshots held; each is filed under its own key. */
    ghost predicate Valid()
      reads this
    {
      total == Size(data) && Filed(data)
    }

    constructor ()
      ensures Valid() && data == map[] && total == 0
    {
      data, total := map[], 0;
    }

    /** MemoryStorage.Store. */
    method Store(snapshot: Option<Snapshot>) returns (err: Option<StoreError>)
      requires Valid()
      modifies this
      ensures Valid()
      ensures err == (if snapshot.None? then Some(NilSnapshot)
                      else if snapshot.value.extensionName == "" then Some(NoExtensionName)
                      else if snapshot.value.metricType == "" then Some(NoMetricType)
                      else None)
      ensures err.Some? ==> data == old(data)
      ensures err.None? ==> data == AppendTo(old(data), snapshot.value)
      ensures total == old(total) + if err.None? then 1 else 0
    {
      if snapshot.None? {
        return Some(NilSnapshot);
      }
      if snapshot.value.extensionName == "" {
        return Some(NoExtensionName);
      }
      if snapshot.value.metricType == "" {
        return Some(NoMetricType);
      }
      AppendKeepsFiled(data, snapshot.value);
      data := AppendTo(data, snapshot.value);
      total := total + 1;
      return None;
    }

    /** MemoryStorage.StoreBatch: the storable snapshots are appended to their lists in order. */
    method StoreBatch(batch: seq<Option<Snapshot>>)
      requires Valid()
      modifies this
      ensures Valid()
      ensures total == old(total) + |Stored(batch)|
      ensures Extends(old(data), Stored(batch), data)
    {
      if |batch| == 0 {
        return;
      }
      var validCount := 0;
      for i := 0 to |batch|
        invariant total == old(total) && validCount == |Stored(batch[..i])|
        invariant Size(data) == total + validCount && Filed(data)
        invariant Extends(old(data), Stored(batch[..i]), data)
      {
        assert batch[..i + 1][..i] == batch[..i];
        if Storable(batch[i]) {
          AppendExtends(old(data), Stored(batch[..i]), data, batch[i].value);
          AppendKeepsFiled(data, batch[i].value);
          data := AppendTo(data, batch[i].value);
          validCount := validCount + 1;
        }
      }
      assert batch[..|batch|] == batch;
      total := total + validCount;
    }

    /** Lines 175-182 for one list. */
    method Keep(snapshots: seq<Snapshot>, before: Time) returns (kept: seq<Snapshot>, removed: nat)
      ensures kept == Filter(snapshots, IsAfter(before)) && removed == |snapshots| - |kept|
    {
      kept, removed := [], 0;
      for i := 0 to |snapshots|
        invariant kept == Filter(snapshots[..i], IsAfter(before)) && removed == i - |kept|
      {
        FilterSnoc(snapshots[..i], snapshots[i], IsAfter(before));
        assert snapshots[..i + 1] == snapshots[..i] + [snapshots[i]];
        if snapshots[i].timestamp > before {
          kept := kept + [snapshots[i]];
        } else {
          removed := removed + 1;
        }
      }
      assert snapshots[..|snapshots|] == snapshots;
    }

    /** Lines 174-189 for one key. */
    method CleanKey(key: string, before: Time) returns (removed: nat)
      requires key in data && Filed(data)
      modifies this`data
      ensures Filed(data) && Size(data) + removed == old(Size(data))
      ensures Get(data, key) == Filter(old(data)[key], IsAfter(before))
      ensures forall k :: k != key ==> Get(data, k) == Get(old(data), k) && (k in data <==> k in old(data))
    {
      var kept;
      kept, removed := Keep(data[key], before);
      SizeWithout(data, key);
      SizeUpdated(data, key, kept);
      if |kept| == 0 {
        data := data - {key};
      } else {
        data := data[key := kept];
      }
    }

    /** MemoryStorage.Cleanup keeps exactly the snapshots after the cutoff, in their order. */
    method Cleanup(before: Time)
      requires Valid()
      modifies this
      ensures Valid()
      ensures forall key :: Get(data, key) == Filter(Get(old(data), key), IsAfter(before))
      ensures forall key, s :: s in Get(data, key) <==> s in Get(old(data), key) && s.timestamp > before
    {
      var todo, removedCount := data.Keys, 0;
      while todo != {}
        invariant todo <= data.Keys && total == old(total)
        invariant Size(data) + removedCount == old(Size(data)) && Filed(data)
        invariant IsCleaned(old(data), data, todo, before)
      {
        var key :| key in todo;
        ghost var earlier := data;
        assert Get(data, key) == Get(old(data), key);
        var removed := CleanKey(key, before);
        CleanedOneMore(old(data), earlier, data, todo, key, before);
        todo := todo - {key};
        removedCount := removedCount + removed;
      }
      total := total - removedCount;
    }
  }
}
