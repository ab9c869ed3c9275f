/** Query and GetLatest of extension/metrics/memory_storage.go, over the map of a store. */
module MetricQuery {
  import opened Common
  import opened MetricAggregation
  import opened MetricStorage
  import opened Sorting

  /** A zero time.Time is None. */
  datatype Options = Options(extensionName: string, metricType: string, labels: map<string, string>,
                             start: Option<Time>, end: Option<Time>, aggregation: string, interval: int, limit: int)

  /** QueryOptions.Validate. */
  predicate AreValid(opts: Option<Options>) {
    opts.Some? && var o := opts.value;
    && o.start.Some? && o.end.Some? && o.end.value >= o.start.value
    && o.limit >= 0 && o.interval >= 0
    && (o.aggregation == "" || o.aggregation == "raw" || o.aggregation == "sum" || o.aggregation == "avg"
        || o.aggregation == "max" || o.aggregation == "min" || o.aggregation == "count")
  }

  // ----- What a query selects -----

  /** isInTimeRange and matchesLabels. */
  function Matches(o: Options): Snapshot -> bool
    requires AreValid(Some(o))
  {
    (s: Snapshot) =>
      && o.start.value < s.timestamp < o.end.value
      && (forall k :: k in o.labels ==> k in s.labels && s.labels[k] == o.labels[k])
  }

  /** The time lies strictly between start and end, and the snapshot bears all labels asked for. */
  lemma MatchesIff(o: Options, s: Snapshot)
    requires AreValid(Some(o))
    ensures Matches(o)(s) <==>
      s.timestamp > o.start.value && s.timestamp < o.end.value && o.labels.Items <= s.labels.Items
  {
    if o.labels.Items <= s.labels.Items {
      forall k | k in o.labels ensures k in s.labels && s.labels[k] == o.labels[k] {
        assert (k, o.labels[k]) in o.labels.Items;
      }
    }
  }

  /** Which options are valid. */
  lemma ValidIff(o: Options)
    ensures AreValid(None) == false
    ensures AreValid(Some(o)) <==>
      && o.start != None && o.end != None && !(o.end.value < o.start.value)
      && !(o.limit < 0) && !(o.interval < 0)
      && o.aggregation in {"", "raw", "sum", "avg", "max", "min", "count"}
  {
  }

  predicate SelectsKey(o: Options, key: string) {
    var (extensionName, metricType) := ParseKey(key);
    (o.extensionName == "" || extensionName == o.extensionName) && (o.metricType == "" || metricType == o.metricType)
  }

  function Matching(data: Data, o: Options, key: string): seq<Snapshot>
    requires AreValid(Some(o)) && key in data
  {
    Filter(data[key], Matches(o))
  }

  predicate IsSelected(data: Data, o: Options, key: string)
    requires AreValid(Some(o))
  {
    key in data && SelectsKey(o, key) && Matching(data, o, key) != []
  }

  /** The matching snapshots of the store, key by key. */
  function Selected(data: Data, o: Options): Data
    requires AreValid(Some(o))
  {
    map key | key in data && IsSelected(data, o, key) :: Matching(data, o, key)
  }

  /**
   * A filter by extension name selects by the snapshot's extension name up to its first
   * colon. So it selects by that name itself exactly if the name has no colon, and then a
   * filter by metric type selects by the snapshot's metric type.
   */
  lemma SelectsByName(data: Data, o: Options, key: string, s: Snapshot)
    requires Filed(data) && key in data && s in data[key]
    ensures o.metricType == "" ==>
      (SelectsKey(o, key) <==> o.extensionName == "" || FirstPart(s.extensionName) == o.extensionName)
    ensures ':' !in s.extensionName ==>
      (SelectsKey(o, key) <==>
        (o.extensionName == "" || s.extensionName == o.extensionName)
        && (o.metricType == "" || s.metricType == o.metricType))
    ensures o.extensionName == s.extensionName != "" && o.metricType == "" ==>
      (SelectsKey(o, key) <==> ':' !in s.extensionName)
  {
    assert KeyOf(s) == key;
    KeyRoundTrip(s.extensionName, s.metricType);
    ParsedName(s.extensionName, s.metricType);
    FirstPartIff(s.extensionName);
  }

  // ----- The latest snapshots -----

  predicate NotEarlier(a: Snapshot, b: Snapshot) {
    a.timestamp >= b.timestamp
  }

  /** `n` of the snapshots, or all if there are fewer; none of the others is later than one of these. */
  ghost predicate AreLatest(all: seq<Snapshot>, n: nat, chosen: seq<Snapshot>) {
    && |chosen| == (if n < |all| then n else |all|)
    && multiset(chosen) <= multiset(all)
    && (forall s, t :: s in chosen && t in multiset(all) - multiset(chosen) ==> t.timestamp <= s.timestamp)
  }

  lemma PrefixIsLatest(all: seq<Snapshot>, sorted: seq<Snapshot>, n: nat)
    requires multiset(sorted) == multiset(all) && Sorted(NotEarlier, sorted) && n <= |sorted|
    ensures AreLatest(all, n, sorted[..n])
  {
    var chosen, others := sorted[..n], sorted[n..];
    assert |multiset(sorted)| == |sorted| && |multiset(all)| == |all|;
    assert sorted == chosen + others;
    assert multiset(all) - multiset(chosen) == multiset(others);
    forall s: Snapshot, t: Snapshot | s in chosen && t in multiset(others)
      ensures t.timestamp <= s.timestamp
    {
      PrefixIsNotEarlier(sorted, n, s, t);
    }
  }

  lemma PrefixIsNotEarlier(sorted: seq<Snapshot>, n: nat, s: Snapshot, t: Snapshot)
    requires Sorted(NotEarlier, sorted) && n <= |sorted| && s in sorted[..n] && t in sorted[n..]
    ensures t.timestamp <= s.timestamp
  {
    var i :| 0 <= i < n && sorted[i] == s;
    var j :| n <= j < |sorted| && sorted[j] == t;
    assert NotEarlier(sorted[i], sorted[j]);
  }

  /** Sorting by descending time and cutting off, as lines 117-123 and 156-163 do. */
  method TakeLatest(all: seq<Snapshot>, n: nat) returns (r: seq<Snapshot>)
    ensures Sorted(NotEarlier, r) && AreLatest(all, n, r)
  {
    SortSorted(NotEarlier, all);
    var sorted := Sort(NotEarlier, all);
    r := if |sorted| > n then sorted[..n] else sorted;
    PrefixIsLatest(all, sorted, |r|);
    assert r == sorted[..|r|];
  }

  // ----- Query -----

  datatype Answer = Answer(extensionName: string, metricType: string, points: seq<Point>, aggregation: string)

  function PointOf(s: Snapshot): Point {
    Point(s.timestamp, s.value)
  }

  function PointsOf(snapshots: seq<Snapshot>): seq<Point> {
    seq(|snapshots|, i requires 0 <= i < |snapshots| => PointOf(snapshots[i]))
  }

  lemma PointsAre(snapshots: seq<Snapshot>, i: nat)
    requires i < |snapshots|
    ensures |PointsOf(snapshots)| == |snapshots|
    ensures PointsOf(snapshots)[i].timestamp == snapshots[i].timestamp
    ensures PointsOf(snapshots)[i].value == snapshots[i].value
  {
  }

  /** Without an interval: the latest snapshots, each as a point, by ascending time. */
  ghost predicate IsRaw(filtered: seq<Snapshot>, limit: int, chosen: seq<Snapshot>, points: seq<Point>) {
    && (if 0 < limit < |filtered| then AreLatest(filtered, limit, chosen) else chosen == filtered)
    && multiset(points) == multiset(PointsOf(chosen)) && Sorted(Earlier, points)
  }

  /** With an interval: one point per interval, truncated to the limit. */
  ghost predicate IsAggregated(filtered: seq<Snapshot>, o: Options, seconds: int, keys: seq<int>, all: seq<Point>,
                               points: seq<Point>)
  {
    && seconds > 0 && IsWholeSeconds(o.interval, seconds)
    && IsSeries(filtered, seconds, o.aggregation, keys, all)
    && points == (if 0 < o.limit < |all| then all[..o.limit] else all)
  }

  ghost predicate HasPoints(filtered: seq<Snapshot>, o: Options, points: seq<Point>) {
    if o.interval == 0 then exists chosen :: IsRaw(filtered, o.limit, chosen, points)
    else exists seconds, keys, all :: IsAggregated(filtered, o, seconds, keys, all, points)
  }

  ghost predicate IsAnswer(filtered: seq<Snapshot>, o: Options, a: Answer) {
    && HasPoints(filtered, o, a.points)
    && (exists s :: s in filtered && s.extensionName == a.extensionName && s.metricType == a.metricType)
    && a.aggregation == (if o.aggregation != "" then o.aggregation else if o.interval == 0 then "raw" else "avg")
  }

  /**
   * An answer bears the names of all its snapshots if their extension names have no colon.
   * Otherwise one key may mix several extensions, as `SameKeyIff` says.
   */
  lemma AnswerBearsNames(filtered: seq<Snapshot>, key: string, o: Options, a: Answer, s: Snapshot)
    requires IsAnswer(filtered, o, a) && s in filtered
    requires forall t :: t in filtered ==> KeyOf(t) == key && ':' !in t.extensionName
    ensures s.extensionName == a.extensionName && s.metricType == a.metricType
  {
    var t :| t in filtered && t.extensionName == a.extensionName && t.metricType == a.metricType;
    KeyRoundTrip(s.extensionName, s.metricType);
    KeyRoundTrip(t.extensionName, t.metricType);
  }

  /** One answer per key with matching snapshots, and nothing else. */
  ghost predicate AreAnswers(selected: Data, o: Options, keys: seq<string>, answers: seq<Answer>) {
    && |keys| == |answers| && NoDup(keys)
    && (forall k :: k in keys <==> k in selected)
    && (forall i :: 0 <= i < |keys| ==> IsAnswer(selected[keys[i]], o, answers[i]))
  }

  datatype QueryError = InvalidOptions | DividesByZero

  /** Lines 104-110. */
  method FilterSnapshots(snapshots: seq<Snapshot>, o: Options) returns (filtered: seq<Snapshot>)
    requires AreValid(Some(o))
    ensures filtered == Filter(snapshots, Matches(o))
  {
    filtered := [];
    for i := 0 to |snapshots|
      invariant filtered == Filter(snapshots[..i], Matches(o))
    {
      FilterSnoc(snapshots[..i], snapshots[i], Matches(o));
      assert snapshots[..i + 1] == snapshots[..i] + [snapshots[i]];
      if Matches(o)(snapshots[i]) {
        filtered := filtered + [snapshots[i]];
      }
    }
    assert snapshots[..|snapshots|] == snapshots;
  }

  /** Lines 116-123 and 271-283. */
  method RawPoints(filtered: seq<Snapshot>, limit: int) returns (chosen: seq<Snapshot>, points: seq<Point>)
    ensures IsRaw(filtered, limit, chosen, points)
  {
    chosen := filtered;
    if limit > 0 && |filtered| > limit {
      chosen := TakeLatest(filtered, limit);
    }
    var values: seq<Point> := [];
    for i := 0 to |chosen|
      invariant values == PointsOf(chosen[..i])
    {
      values := values + [PointOf(chosen[i])];
    }
    assert chosen[..|chosen|] == chosen;
    SortSorted(Earlier, values);
    points := Sort(Earlier, values);
  }

  /** Lines 116-126 for the matching snapshots of one key. */
  method AnswerFor(filtered: seq<Snapshot>, o: Options, seconds: int) returns (r: Result<Answer, QueryError>)
    requires AreValid(Some(o)) && filtered != [] && IsWholeSeconds(o.interval, seconds)
    ensures r.Failure? <==> 0 < o.interval < SECOND
    ensures r.Failure? ==> r.error == DividesByZero
    ensures r.Success? ==> IsAnswer(filtered, o, r.value)
  {
    if o.interval > 0 {
      var aggregated, keys, all := AggregateByInterval(filtered, o.interval, seconds, o.aggregation, o.limit);
      if aggregated.DivisionByZero? {
        return Failure(DividesByZero);
      }
      assert IsAggregated(filtered, o, seconds, keys, all, aggregated.points);
      assert filtered[0] in filtered;
      return Success(Answer(filtered[0].extensionName, filtered[0].metricType,
                            aggregated.points, aggregated.aggregation));
    }
    var chosen, points := RawPoints(filtered, o.limit);
    assert chosen[0] in multiset(chosen) && chosen[0] in filtered;
    return Success(Answer(chosen[0].extensionName, chosen[0].metricType, points,
                          if o.aggregation == "" then "raw" else o.aggregation));
  }

  /** One key more has been answered. */
  lemma OneAnswerMore(selected: Data, more: Data, o: Options, keys: seq<string>, answers: seq<Answer>, key: string,
                      a: Answer)
    requires AreAnswers(selected, o, keys, answers) && key !in selected
    requires more.Keys == selected.Keys + {key} && (forall k :: k in selected ==> more[k] == selected[k])
    requires IsAnswer(more[key], o, a)
    ensures AreAnswers(more, o, keys + [key], answers + [a])
  {
    var keys', answers' := keys + [key], answers + [a];
    forall i | 0 <= i < |keys'| ensures IsAnswer(more[keys'[i]], o, answers'[i]) {
      if i < |keys| {
        assert keys[i] in keys;
      }
    }
  }

  /** The part of the answer map that belongs to the keys that are done. */
  ghost function SelectedIn(data: Data, o: Options, todo: set<string>): Data
    requires AreValid(Some(o))
  {
    map key | key in data && key !in todo && IsSelected(data, o, key) :: Matching(data, o, key)
  }

  lemma SelectedOneMore(data: Data, o: Options, todo: set<string>, key: string)
    requires AreValid(Some(o)) && key in todo && key in data
    ensures var selected, more := SelectedIn(data, o, todo), SelectedIn(data, o, todo - {key});
      if IsSelected(data, o, key)
      then more.Keys == selected.Keys + {key} && (forall k :: k in selected ==> more[k] == selected[k])
           && more[key] == Matching(data, o, key)
      else more == selected
  {
  }

  /** Lines 92-129 for one key. */
  method QueryKey(data: Data, o: Options, seconds: int, key: string) returns (r: Result<Option<Answer>, QueryError>)
    requires AreValid(Some(o)) && key in data && IsWholeSeconds(o.interval, seconds)
    ensures r.Failure? <==> IsSelected(data, o, key) && 0 < o.interval < SECOND
    ensures r.Success? ==> (r.value.Some? <==> IsSelected(data, o, key))
    ensures r.Success? && r.value.Some? ==> IsAnswer(Matching(data, o, key), o, r.value.value)
  {
    if !SelectsKey(o, key) {
      return Success(None);
    }
    var filtered := FilterSnapshots(data[key], o);
    if |filtered| == 0 {
      return Success(None);
    }
    var answer := AnswerFor(filtered, o, seconds);
    return if answer.Failure? then Failure(DividesByZero) else Success(Some(answer.value));
  }

  lemma SelectedKey(data: Data, o: Options, key: string)
    requires AreValid(Some(o)) && IsSelected(data, o, key)
    ensures key in Selected(data, o) && Selected(data, o) != map[]
  {
  }

  /** Lines 92-130, over the keys in arbitrary order. */
  method QueryAll(data: Data, o: Options, seconds: int)
    returns (r: Result<seq<Answer>, QueryError>, ghost keys: seq<string>)
    requires AreValid(Some(o)) && IsWholeSeconds(o.interval, seconds)
    ensures r.Failure? <==> 0 < o.interval < SECOND && Selected(data, o) != map[]
    ensures r.Failure? ==> r.error == DividesByZero
    ensures r.Success? ==> AreAnswers(Selected(data, o), o, keys, r.value)
  {
    keys := [];
    var results: seq<Answer> := [];
    var todo := data.Keys;
    NoneAnswered(data, o);
    while todo != {}
      invariant todo <= data.Keys && IsAnswered(data, o, todo, keys, results)
    {
      var key :| key in todo;
      var answer := QueryKey(data, o, seconds, key);
      if answer.Failure? {
        SelectedKey(data, o, key);
        return Failure(DividesByZero), keys;
      }
      AnsweredOneMore(data, o, todo, keys, results, key, answer.value);
      todo := todo - {key};
      if answer.value.Some? {
        results := results + [answer.value.value];
        keys := keys + [key];
      }
    }
    AllAnswered(data, o, keys, results);
    return Success(results), keys;
  }

  lemma NoneAnswered(data: Data, o: Options)
    requires AreValid(Some(o))
    ensures IsAnswered(data, o, data.Keys, [], [])
  {
    assert SelectedIn(data, o, data.Keys) == map[];
  }

  lemma AllAnswered(data: Data, o: Options, keys: seq<string>, results: seq<Answer>)
    requires AreValid(Some(o)) && IsAnswered(data, o, {}, keys, results)
    ensures AreAnswers(Selected(data, o), o, keys, results)
    ensures 0 < o.interval < SECOND ==> Selected(data, o) == map[]
  {
    assert SelectedIn(data, o, {}) == Selected(data, o);
  }

  /** The answers to the keys that are done; if the interval is too short none of these was selected. */
  ghost predicate IsAnswered(data: Data, o: Options, todo: set<string>, keys: seq<string>, results: seq<Answer>)
    requires AreValid(Some(o))
  {
    && AreAnswers(SelectedIn(data, o, todo), o, keys, results)
    && (0 < o.interval < SECOND ==> SelectedIn(data, o, todo) == map[])
  }

  lemma AnsweredOneMore(data: Data, o: Options, todo: set<string>, keys: seq<string>, results: seq<Answer>, key: string,
                        answer: Option<Answer>)
    requires AreValid(Some(o)) && IsAnswered(data, o, todo, keys, results) && key in todo && key in data
    requires answer.Some? <==> IsSelected(data, o, key)
    requires answer.Some? ==> IsAnswer(Matching(data, o, key), o, answer.value) && !(0 < o.interval < SECOND)
    ensures match answer
      case None => IsAnswered(data, o, todo - {key}, keys, results)
      case Some(a) => IsAnswered(data, o, todo - {key}, keys + [key], results + [a])
  {
    SelectedOneMore(data, o, todo, key);
    if answer.Some? {
      OneAnswerMore(SelectedIn(data, o, todo), SelectedIn(data, o, todo - {key}), o, keys, results, key, answer.value);
    }
  }

  /** MemoryStorage.Query. `seconds` is what the interval comes to in line 306. */
  method Query(data: Data, opts: Option<Options>, seconds: int)
    returns (r: Result<seq<Answer>, QueryError>, ghost keys: seq<string>)
    requires opts.Some? ==> IsWholeSeconds(opts.value.interval, seconds)
    ensures r == Failure(InvalidOptions) <==> !AreValid(opts)
    ensures AreValid(opts) ==>
      (r == Failure(DividesByZero) <==> 0 < opts.value.interval < SECOND && Selected(data, opts.value) != map[])
    ensures r.Success? ==> AreAnswers(Selected(data, opts.value), opts.value, keys, r.value)
  {
    if !AreValid(opts) {
      return Failure(InvalidOptions), [];
    }
    r, keys := QueryAll(data, opts.value, seconds);
  }

  // ----- Nothing is lost or counted twice -----

  ghost function SumOfData(data: Data): int
    decreases |data|
  {
    if data == map[] then 0
    else
      var key :| key in data;
      Sum(data[key]) + SumOfData(data - {key})
  }

  lemma {:induction false} SumWithout(data: Data, key: string)
    requires key in data
    ensures SumOfData(data) == Sum(data[key]) + SumOfData(data - {key})
    decreases |data|
  {
    var k :| k in data && SumOfData(data) == Sum(data[k]) + SumOfData(data - {k});
    if k != key {
      SumWithout(data - {k}, key);
      SumWithout(data - {key}, k);
      assert data - {k} - {key} == data - {key} - {k};
    }
  }

  function SumOfAnswers(answers: seq<Answer>): int {
    if answers == [] then 0 else SumOfPoints(answers[0].points) + SumOfAnswers(answers[1..])
  }

  lemma AnswerAddsUp(filtered: seq<Snapshot>, o: Options, a: Answer)
    requires IsAnswer(filtered, o, a) && o.interval >= SECOND && o.limit == 0
    ensures Measures(o.aggregation, SumOfPoints(a.points), Sum(filtered), |filtered|)
  {
    var seconds, keys, all :| IsAggregated(filtered, o, seconds, keys, all, a.points);
    SeriesAddsUp(filtered, seconds, o.aggregation, keys, all);
  }

  lemma ListedWithoutFirst(selected: Data, keys: seq<string>)
    requires NoDup(keys) && keys != [] && forall k :: k in keys <==> k in selected
    ensures NoDup(keys[1..]) && forall k :: k in keys[1..] <==> k in selected - {keys[0]}
  {
    forall k ensures k in keys[1..] <==> k in selected - {keys[0]} {
      assert k in keys <==> k == keys[0] || k in keys[1..];
    }
  }

  ghost predicate AllIn(keys: seq<string>, data: Data) {
    forall i :: 0 <= i < |keys| ==> keys[i] in data
  }

  ghost function SumOver(keys: seq<string>, data: Data): int
    requires AllIn(keys, data)
  {
    if keys == [] then 0 else Sum(data[keys[0]]) + SumOver(keys[1..], data)
  }

  ghost function CountOver(keys: seq<string>, data: Data): nat
    requires AllIn(keys, data)
  {
    if keys == [] then 0 else |data[keys[0]]| + CountOver(keys[1..], data)
  }

  lemma {:induction false} OverSameLists(keys: seq<string>, data: Data, other: Data)
    requires AllIn(keys, data) && AllIn(keys, other)
    requires forall i :: 0 <= i < |keys| ==> data[keys[i]] == other[keys[i]]
    ensures SumOver(keys, data) == SumOver(keys, other) && CountOver(keys, data) == CountOver(keys, other)
  {
    if keys != [] {
      OverSameLists(keys[1..], data, other);
    }
  }

  /** A listing of the keys sums up, and counts, the whole map. */
  lemma {:induction false} OverAllKeys(keys: seq<string>, data: Data)
    requires NoDup(keys) && forall k :: k in keys <==> k in data
    ensures AllIn(keys, data) && SumOver(keys, data) == SumOfData(data) && CountOver(keys, data) == Size(data)
    decreases |keys|
  {
    if keys == [] {
      assert data == map[];
    } else {
      assert keys[0] in keys && AllIn(keys, data);
      ListedWithoutFirst(data, keys);
      OverAllKeys(keys[1..], data - {keys[0]});
      OverSameLists(keys[1..], data, data - {keys[0]});
      SumWithout(data, keys[0]);
      SizeWithout(data, keys[0]);
    }
  }

  /**
   * Without a limit, the points of all answers to a query together count all matching
   * snapshots of the store, or sum them up modulo 2^64, each exactly once.
   */
  lemma QueryAddsUp(selected: Data, o: Options, keys: seq<string>, answers: seq<Answer>)
    requires AreAnswers(selected, o, keys, answers) && o.interval >= SECOND && o.limit == 0
    ensures o.aggregation == "sum" || o.aggregation == "" ==>
      Wrap(SumOfAnswers(answers)) == Wrap(SumOfData(selected))
    ensures o.aggregation == "count" ==> SumOfAnswers(answers) == Size(selected)
  {
    OverAllKeys(keys, selected);
    AnswersMeasure(selected, o, keys, answers);
    AnswersAddUp(o.aggregation, selected, keys, answers);
  }

  /** Each answer measures the list of its key. */
  ghost predicate AllMeasure(aggregation: string, selected: Data, keys: seq<string>, answers: seq<Answer>) {
    && |keys| == |answers| && AllIn(keys, selected)
    && forall i :: 0 <= i < |keys| ==> MeasuresList(aggregation, answers[i], selected[keys[i]])
  }

  ghost predicate MeasuresList(aggregation: string, a: Answer, list: seq<Snapshot>) {
    Measures(aggregation, SumOfPoints(a.points), Sum(list), |list|)
  }

  lemma AnswersMeasure(selected: Data, o: Options, keys: seq<string>, answers: seq<Answer>)
    requires |keys| == |answers| && AllIn(keys, selected) && o.interval >= SECOND && o.limit == 0
    requires forall i :: 0 <= i < |keys| ==> IsAnswer(selected[keys[i]], o, answers[i])
    ensures AllMeasure(o.aggregation, selected, keys, answers)
  {
    forall i | 0 <= i < |keys| ensures MeasuresList(o.aggregation, answers[i], selected[keys[i]]) {
      AnswerAddsUp(selected[keys[i]], o, answers[i]);
    }
  }

  lemma {:induction false} AnswersAddUp(aggregation: string, selected: Data, keys: seq<string>, answers: seq<Answer>)
    requires AllMeasure(aggregation, selected, keys, answers)
    ensures Measures(aggregation, SumOfAnswers(answers), SumOver(keys, selected), CountOver(keys, selected))
    decreases |keys|
  {
    if keys != [] {
      AnswersAddUp(aggregation, selected, keys[1..], answers[1..]);
      var list := selected[keys[0]];
      assert MeasuresList(aggregation, answers[0], list);
      OneAnswerAdded(aggregation, answers, Sum(list), |list|,
                     SumOver(keys[1..], selected), CountOver(keys[1..], selected));
    }
  }

  lemma OneAnswerAdded(aggregation: string, answers: seq<Answer>, sum: int, count: int, restSum: int, restCount: int)
    requires answers != [] && Measures(aggregation, SumOfPoints(answers[0].points), sum, count)
    requires Measures(aggregation, SumOfAnswers(answers[1..]), restSum, restCount)
    ensures Measures(aggregation, SumOfAnswers(answers), sum + restSum, count + restCount)
  {
    MeasuresAdd(aggregation, SumOfPoints(answers[0].points), sum, count,
                SumOfAnswers(answers[1..]), restSum, restCount);
  }

  lemma {:induction false} FilterAll(s: seq<Snapshot>, keep: Snapshot -> bool)
    requires forall x :: x in s ==> keep(x)
    ensures Filter(s, keep) == s
  {
    if s != [] {
      FilterAll(s[1..], keep);
    }
  }

  /** A query that matches everything counts what the store's total says it holds. */
  lemma EverythingIsCounted(data: Data, o: Options, keys: seq<string>, answers: seq<Answer>)
    requires Filed(data) && AreValid(Some(o)) && o.extensionName == "" && o.metricType == "" && o.labels == map[]
    requires forall key, s :: key in data && s in data[key] ==> o.start.value < s.timestamp < o.end.value
    requires o.aggregation == "count" && o.interval >= SECOND && o.limit == 0
    requires AreAnswers(Selected(data, o), o, keys, answers)
    ensures SumOfAnswers(answers) == Size(data)
  {
    EverythingIsSelected(data, o);
    QueryAddsUp(data, o, keys, answers);
  }

  lemma EverythingIsSelected(data: Data, o: Options)
    requires Filed(data) && AreValid(Some(o)) && o.extensionName == "" && o.metricType == "" && o.labels == map[]
    requires forall key, s :: key in data && s in data[key] ==> o.start.value < s.timestamp < o.end.value
    ensures Selected(data, o) == data
  {
    forall key | key in data ensures IsSelected(data, o, key) && Matching(data, o, key) == data[key] {
      FilterAll(data[key], Matches(o));
    }
  }

  // ----- GetLatest -----

  /** How often the store holds `s` under a key whose first part is `extensionName`. */
  function HeldFor(data: Data, extensionName: string, s: Snapshot): nat {
    if ParseKey(KeyOf(s)).0 == extensionName then multiset(Get(data, KeyOf(s)))[s] else 0
  }

  /** `all` lists what the keys outside `todo` hold for the extension. */
  ghost predicate Gathers(data: Data, extensionName: string, todo: set<string>, all: seq<Snapshot>) {
    forall s :: multiset(all)[s] == if KeyOf(s) in todo then 0 else HeldFor(data, extensionName, s)
  }

  lemma GatherOneMore(data: Data, extensionName: string, todo: set<string>, key: string, all: seq<Snapshot>,
                      more: seq<Snapshot>)
    requires Filed(data) && Gathers(data, extensionName, todo, all) && key in todo && key in data
    requires more == all + if ParseKey(key).0 == extensionName then data[key] else []
    ensures Gathers(data, extensionName, todo - {key}, more)
  {
    forall s ensures multiset(more)[s] == if KeyOf(s) in todo - {key} then 0 else HeldFor(data, extensionName, s) {
      assert multiset(all)[s] == if KeyOf(s) in todo then 0 else HeldFor(data, extensionName, s);
      if KeyOf(s) != key {
        assert s !in data[key];
        assert multiset(data[key])[s] == 0;
      }
    }
  }

  datatype LatestError = EmptyName

  /** MemoryStorage.GetLatest, over the keys in arbitrary order. */
  method GetLatest(data: Data, extensionName: string, limit: int)
    returns (r: Result<seq<Snapshot>, LatestError>, ghost all: seq<Snapshot>)
    requires Filed(data)
    ensures r.Failure? <==> extensionName == ""
    ensures r.Success? ==>
      && Gathers(data, extensionName, {}, all)
      && Sorted(NotEarlier, r.value)
      && AreLatest(all, if limit <= 0 then 10 else limit, r.value)
  {
    all := [];
    if extensionName == "" {
      return Failure(EmptyName), all;
    }
    var n := if limit <= 0 then 10 else limit;
    var gathered: seq<Snapshot> := [];
    var todo := data.Keys;
    while todo != {}
      invariant todo <= data.Keys
      invariant Gathers(data, extensionName, todo, gathered)
    {
      var key :| key in todo;
      var more := gathered + if ParseKey(key).0 == extensionName then data[key] else [];
      GatherOneMore(data, extensionName, todo, key, gathered, more);
      gathered := more;
      todo := todo - {key};
    }
    all := gathered;
    var latest := TakeLatest(gathered, n);
    return Success(latest), all;
  }

  /** What is gathered for a name is what was stored under an extension name with that first part. */
  lemma GathersByName(data: Data, extensionName: string, all: seq<Snapshot>, s: Snapshot)
    requires Gathers(data, extensionName, {}, all)
    ensures multiset(all)[s]
         == if FirstPart(s.extensionName) == extensionName then multiset(Get(data, KeyOf(s)))[s] else 0
    ensures ':' in s.extensionName ==> multiset(all)[s] == 0 || s.extensionName != extensionName
  {
    ParsedName(s.extensionName, s.metricType);
    FirstPartIff(s.extensionName);
  }
}
