/**
 The persisted telemetry snapshot: its JSON form, the encoder and the strict
 decoder that undoes it.
 */
module Telemetry {
  import opened Wrappers
  import opened Ordering

  datatype Json =
    | JNull
    | JBool(flag: bool)
    | JInt(int_: int)
    | JFloat(float_: real)
    | JNotFinite
    | JString(text: string)
    | JArray(items: seq<Json>)
    | JObject(fields: map<Key, Json>)

  const SCHEMA_VERSION := 3
  /** The object keys the payload uses; any other key, such as a label's name, is Named. */
  datatype Key =
    | SchemaVersion | SnapshotKey
    | SubmissionOldestPendingAge | SubmissionBacklogCount | IdempotencyRecordCount | LiteraturePendingAge
    | OverviewOldestAge | OverviewMissingActiveUserCount | OverviewAttentionRequiredCount
    | SubmissionBacklog | SagaCounts | OverviewJobCounts | OverviewCardStates | DurableCounters
    | Status | Value | MetricName | Labels
    | Named(name: string)

  datatype Snapshot = Snapshot(
    submissionOldestPendingAge: real,
    submissionBacklogCount: int,
    idempotencyRecordCount: int,
    literaturePendingAge: real,
    overviewOldestAge: real,
    overviewMissingActiveUserCount: int,
    overviewAttentionRequiredCount: int)

  /** A metric name with its labels in the table's order. */
  datatype CounterKey = CounterKey(name: string, labels: seq<(string, string)>)

  /** Per metric, its labels in order and the values each may take. */
  type LabelTable = map<string, seq<(string, set<string>)>>

  /** The bounded vocabularies: the statuses of each gauge and the labels of each durable counter. */
  datatype Vocabulary = Vocabulary(
    submissionBacklogStates: set<string>,
    sagaStatuses: set<string>,
    overviewJobStatuses: set<string>,
    overviewCardStatuses: set<string>,
    labels: LabelTable)

  datatype Collected = Collected(
    snapshot: Snapshot,
    submissionBacklog: map<string, int>,
    sagaCounts: map<string, int>,
    overviewJobCounts: map<string, int>,
    overviewCardStates: map<string, int>,
    durableCounters: map<CounterKey, real>)

  // ---- reading numbers and fields ----

  function Get(fields: map<Key, Json>, key: Key): Json {
    if key in fields then fields[key] else JNull
  }

  /** `_non_negative_int`: booleans do not count as integers. */
  function NonNegativeInt(j: Json): Option<int> {
    if j.JInt? && j.int_ >= 0 then Some(j.int_) else None
  }

  /** `_non_negative_float`: integers are accepted, booleans and non-finite values are not. */
  function NonNegativeFloat(j: Json): Option<real> {
    if j.JInt? && j.int_ >= 0 then Some(j.int_ as real)
    else if j.JFloat? && j.float_ >= 0.0 then Some(j.float_)
    else None
  }

  /** A version number of 3 or 3.0; anything else is unsupported. */
  predicate SupportedVersion(j: Json) {
    j == JInt(SCHEMA_VERSION) || j == JFloat(SCHEMA_VERSION as real)
  }

  // ---- what JSON stands for what ----

  /** The status a count record is about. */
  function StatusOf(j: Json): Option<string> {
    if j.JObject? && Get(j.fields, Status).JString? then Some(Get(j.fields, Status).text) else None
  }

  ghost predicate CountRecord(j: Json, values: map<string, int>) {
    && StatusOf(j).Some? && StatusOf(j).value in values
    && NonNegativeInt(Get(j.fields, Value)) == Some(values[StatusOf(j).value])
  }

  /** The records spell the map: one per status, none twice, none missing. */
  ghost predicate SpellsCounts(records: seq<Json>, values: map<string, int>) {
    && (forall i :: 0 <= i < |records| ==> CountRecord(records[i], values))
    && (forall i, j :: 0 <= i < j < |records| ==> StatusOf(records[i]) != StatusOf(records[j]))
    && (forall s :: s in values ==> exists i :: 0 <= i < |records| && StatusOf(records[i]) == Some(s))
  }

  function LabelNames(allowed: seq<(string, set<string>)>): set<string> {
    set i | 0 <= i < |allowed| :: allowed[i].0
  }

  /** `_canonical_counter_labels`: exactly the metric's labels, each with an allowed value, in table order. */
  function Canonical(table: LabelTable, name: string, labels: map<string, string>): Option<CounterKey> {
    if name !in table || labels.Keys != LabelNames(table[name]) then None
    else
      var allowed := table[name];
      if forall i :: 0 <= i < |allowed| ==> allowed[i].0 in labels && labels[allowed[i].0] in allowed[i].1 then
        Some(CounterKey(name, seq(|allowed|, i requires 0 <= i < |allowed| && allowed[i].0 in labels =>
                                               (allowed[i].0, labels[allowed[i].0]))))
      else None
  }

  /** The label check as it runs: one label of the table after the other. */
  method CanonicalLabels(table: LabelTable, name: string, labels: map<string, string>) returns (r: Option<CounterKey>)
    ensures r == Canonical(table, name, labels)
  {
    if name !in table || labels.Keys != LabelNames(table[name]) {
      return None;
    }
    var allowed := table[name];
    var items := [];
    for i := 0 to |allowed|
      invariant |items| == i
      invariant forall n :: 0 <= n < i ==>
        && allowed[n].0 in labels && labels[allowed[n].0] in allowed[n].1
        && items[n] == (allowed[n].0, labels[allowed[n].0])
    {
      assert allowed[i].0 in LabelNames(allowed);
      var value := labels[allowed[i].0];
      if value !in allowed[i].1 {
        return None;
      }
      items := items + [(allowed[i].0, value)];
    }
    assert Canonical(table, name, labels).value.labels == items;
    r := Some(CounterKey(name, items));
  }

  predicate AllStrings(fields: map<Key, Json>) {
    forall k :: k in fields ==> k.Named? && fields[k].JString?
  }

  function Strings(fields: map<Key, Json>): map<string, string>
    requires AllStrings(fields)
  {
    map k | k in fields :: k.name := fields[k].text
  }

  /** The key a counter record is filed under. */
  function RecordKey(table: LabelTable, j: Json): Option<CounterKey> {
    if j.JObject? && Get(j.fields, MetricName).JString? && Get(j.fields, Labels).JObject?
      && AllStrings(Get(j.fields, Labels).fields)
    then Canonical(table, Get(j.fields, MetricName).text, Strings(Get(j.fields, Labels).fields))
    else None
  }

  method ReadKey(table: LabelTable, j: Json) returns (r: Option<CounterKey>)
    ensures r == RecordKey(table, j)
  {
    hide Canonical;
    r := None;
    if j.JObject? && Get(j.fields, MetricName).JString? && Get(j.fields, Labels).JObject?
      && AllStrings(Get(j.fields, Labels).fields) {
      r := CanonicalLabels(table, Get(j.fields, MetricName).text, Strings(Get(j.fields, Labels).fields));
    }
  }

  ghost predicate CounterRecord(table: LabelTable, j: Json, counters: map<CounterKey, real>) {
    && RecordKey(table, j).Some? && RecordKey(table, j).value in counters
    && NonNegativeFloat(Get(j.fields, Value)) == Some(counters[RecordKey(table, j).value])
  }

  ghost predicate SpellsCounters(table: LabelTable, records: seq<Json>, counters: map<CounterKey, real>) {
    && (forall i :: 0 <= i < |records| ==> CounterRecord(table, records[i], counters))
    && (forall i, j :: 0 <= i < j < |records| ==> RecordKey(table, records[i]) != RecordKey(table, records[j]))
    && (forall k :: k in counters ==> exists i :: 0 <= i < |records| && RecordKey(table, records[i]) == Some(k))
  }

  ghost predicate SpellsSnapshot(j: Json, s: Snapshot) {
    && j.JObject?
    && NonNegativeFloat(Get(j.fields, SubmissionOldestPendingAge)) == Some(s.submissionOldestPendingAge)
    && NonNegativeInt(Get(j.fields, SubmissionBacklogCount)) == Some(s.submissionBacklogCount)
    && NonNegativeInt(Get(j.fields, IdempotencyRecordCount)) == Some(s.idempotencyRecordCount)
    && NonNegativeFloat(Get(j.fields, LiteraturePendingAge)) == Some(s.literaturePendingAge)
    && NonNegativeFloat(Get(j.fields, OverviewOldestAge)) == Some(s.overviewOldestAge)
    && NonNegativeInt(Get(j.fields, OverviewMissingActiveUserCount)) == Some(s.overviewMissingActiveUserCount)
    && NonNegativeInt(Get(j.fields, OverviewAttentionRequiredCount)) == Some(s.overviewAttentionRequiredCount)
  }

  ghost predicate SpellsArray(j: Json, values: map<string, int>, allowed: set<string>) {
    j.JArray? && values.Keys == allowed && SpellsCounts(j.items, values)
  }

  /** The payload stands for the collection, field by field. */
  ghost predicate Spells(vocab: Vocabulary, j: Json, c: Collected) {
    && j.JObject? && SupportedVersion(Get(j.fields, SchemaVersion))
    && SpellsSnapshot(Get(j.fields, SnapshotKey), c.snapshot)
    && SpellsArray(Get(j.fields, SubmissionBacklog), c.submissionBacklog, vocab.submissionBacklogStates)
    && SpellsArray(Get(j.fields, SagaCounts), c.sagaCounts, vocab.sagaStatuses)
    && SpellsArray(Get(j.fields, OverviewJobCounts), c.overviewJobCounts, vocab.overviewJobStatuses)
    && SpellsArray(Get(j.fields, OverviewCardStates), c.overviewCardStates, vocab.overviewCardStatuses)
    && Get(j.fields, DurableCounters).JArray?
    && SpellsCounters(vocab.labels, Get(j.fields, DurableCounters).items, c.durableCounters)
  }

  // ---- a payload stands for one collection only ----

  lemma CountsAreUnique(records: seq<Json>, a: map<string, int>, b: map<string, int>)
    requires SpellsCounts(records, a) && SpellsCounts(records, b)
    ensures a == b
  {
    hide StatusOf;
    forall s | s in a ensures s in b && b[s] == a[s] {
      var i :| 0 <= i < |records| && StatusOf(records[i]) == Some(s);
      assert CountRecord(records[i], a) && CountRecord(records[i], b);
    }
    forall s | s in b ensures s in a {
      var i :| 0 <= i < |records| && StatusOf(records[i]) == Some(s);
      assert CountRecord(records[i], a) && CountRecord(records[i], b);
    }
    assert a.Keys == b.Keys;
  }

  lemma CountersAreUnique(table: LabelTable, records: seq<Json>, a: map<CounterKey, real>, b: map<CounterKey, real>)
    requires SpellsCounters(table, records, a) && SpellsCounters(table, records, b)
    ensures a == b
  {
    hide RecordKey;
    forall k | k in a ensures k in b && b[k] == a[k] {
      var i :| 0 <= i < |records| && RecordKey(table, records[i]) == Some(k);
      assert CounterRecord(table, records[i], a) && CounterRecord(table, records[i], b);
    }
    forall k | k in b ensures k in a {
      var i :| 0 <= i < |records| && RecordKey(table, records[i]) == Some(k);
      assert CounterRecord(table, records[i], a) && CounterRecord(table, records[i], b);
    }
    assert a.Keys == b.Keys;
  }

  lemma SpellsOnlyOne(vocab: Vocabulary, j: Json, a: Collected, b: Collected)
    requires Spells(vocab, j, a) && Spells(vocab, j, b)
    ensures a == b
  {
    hide SpellsCounts, SpellsCounters;
    CountsAreUnique(Get(j.fields, SubmissionBacklog).items, a.submissionBacklog, b.submissionBacklog);
    CountsAreUnique(Get(j.fields, SagaCounts).items, a.sagaCounts, b.sagaCounts);
    CountsAreUnique(Get(j.fields, OverviewJobCounts).items, a.overviewJobCounts, b.overviewJobCounts);
    CountsAreUnique(Get(j.fields, OverviewCardStates).items, a.overviewCardStates, b.overviewCardStates);
    CountersAreUnique(vocab.labels, Get(j.fields, DurableCounters).items, a.durableCounters, b.durableCounters);
  }

  /** Only numbers are read as numbers: no boolean, string, null or non-finite value passes, and counts are whole. */
  lemma NumbersAreNumbers(vocab: Vocabulary, j: Json, c: Collected)
    requires Spells(vocab, j, c)
    ensures j.JObject? && Get(j.fields, SnapshotKey).JObject?
    ensures Get(j.fields, SchemaVersion) == JInt(3) || Get(j.fields, SchemaVersion) == JFloat(3.0)
    ensures var s := Get(j.fields, SnapshotKey).fields;
            && Get(s, SubmissionBacklogCount) == JInt(c.snapshot.submissionBacklogCount)
            && Get(s, IdempotencyRecordCount) == JInt(c.snapshot.idempotencyRecordCount)
            && Get(s, OverviewMissingActiveUserCount) == JInt(c.snapshot.overviewMissingActiveUserCount)
            && Get(s, OverviewAttentionRequiredCount) == JInt(c.snapshot.overviewAttentionRequiredCount)
            && IsNumber(Get(s, SubmissionOldestPendingAge), c.snapshot.submissionOldestPendingAge)
            && IsNumber(Get(s, LiteraturePendingAge), c.snapshot.literaturePendingAge)
            && IsNumber(Get(s, OverviewOldestAge), c.snapshot.overviewOldestAge)
    ensures WellFormedSnapshot(c.snapshot)
  {
    hide SpellsArray, SpellsCounters;
  }

  ghost predicate IsNumber(j: Json, x: real) {
    (j.JInt? && j.int_ as real == x) || j == JFloat(x)
  }

  // ---- decoding ----

  lemma SpellsNextCount(records: seq<Json>, values: map<string, int>, next: Json, status: string, n: int)
    requires SpellsCounts(records, values) && StatusOf(next) == Some(status) && status !in values
    requires NonNegativeInt(Get(next.fields, Value)) == Some(n)
    ensures SpellsCounts(records + [next], values[status := n])
  {
    hide StatusOf;
    var all, more := records + [next], values[status := n];
    forall i | 0 <= i < |all| ensures CountRecord(all[i], more) {
      assert i < |records| ==> CountRecord(records[i], values);
    }
    forall i, j | 0 <= i < j < |all| ensures StatusOf(all[i]) != StatusOf(all[j]) {
      assert CountRecord(records[i], values);
    }
    forall s | s in more ensures exists i :: 0 <= i < |all| && StatusOf(all[i]) == Some(s) {
      if s == status {
        assert StatusOf(all[|records|]) == Some(s);
      } else {
        var i :| 0 <= i < |records| && StatusOf(records[i]) == Some(s);
        assert StatusOf(all[i]) == Some(s);
      }
    }
  }

  /** A record that the map read so far already holds, or that is no record at all, ends the reading. */
  lemma UnspellableCount(records: seq<Json>, k: nat, values: map<string, int>, allowed: set<string>,
      whole: map<string, int>)
    requires k < |records| && SpellsCounts(records[..k], values) && SpellsCounts(records, whole)
    requires whole.Keys == allowed
    ensures StatusOf(records[k]).Some? && StatusOf(records[k]).value in allowed && StatusOf(records[k]).value !in values
    ensures NonNegativeInt(Get(records[k].fields, Value)).Some?
  {
    hide StatusOf;
    assert CountRecord(records[k], whole);
    var status := StatusOf(records[k]).value;
    assert forall i :: 0 <= i < k ==> StatusOf(records[..k][i]) != Some(status);
  }

  /** `_bounded_count_records`: the loop with its set of seen labels accepts exactly the spelled-out maps. */
  method BoundedCountRecords(j: Json, allowed: set<string>) returns (r: Option<map<string, int>>)
    ensures r.Some? ==> SpellsArray(j, r.value, allowed)
    ensures r.None? ==> forall values :: !SpellsArray(j, values, allowed)
  {
    hide SpellsCounts;
    if !j.JArray? {
      return None;
    }
    var records := j.items;
    var values: map<string, int> := map[];
    NoRecords(records);
    for k := 0 to |records|
      invariant SpellsCounts(records[..k], values) && values.Keys <= allowed
    {
      var status := StatusOf(records[k]);
      if status.None? || status.value !in allowed || status.value in values
         || NonNegativeInt(Get(records[k].fields, Value)).None? {
        forall whole | SpellsArray(j, whole, allowed) ensures false {
          UnspellableCount(records, k, values, allowed, whole);
        }
        return None;
      }
      var n := NonNegativeInt(Get(records[k].fields, Value)).value;
      SpellsNextCount(records[..k], values, records[k], status.value, n);
      assert records[..k] + [records[k]] == records[..k + 1];
      values := values[status.value := n];
    }
    assert records[..|records|] == records;
    if values.Keys != allowed {
      forall whole | SpellsArray(j, whole, allowed) ensures false {
        CountsAreUnique(records, values, whole);
      }
      return None;
    }
    r := Some(values);
  }

  lemma NoRecords(records: seq<Json>)
    ensures SpellsCounts(records[..0], map[])
  {
  }

  lemma NoCounterRecords(table: LabelTable, records: seq<Json>)
    ensures SpellsCounters(table, records[..0], map[])
  {
  }

  lemma SpellsNextCounter(table: LabelTable, records: seq<Json>, counters: map<CounterKey, real>, next: Json,
      key: CounterKey, x: real)
    requires SpellsCounters(table, records, counters) && RecordKey(table, next) == Some(key) && key !in counters
    requires NonNegativeFloat(Get(next.fields, Value)) == Some(x)
    ensures SpellsCounters(table, records + [next], counters[key := x])
  {
    hide RecordKey;
    var all, more := records + [next], counters[key := x];
    forall i | 0 <= i < |all| ensures CounterRecord(table, all[i], more) {
      assert i < |records| ==> CounterRecord(table, records[i], counters);
    }
    forall i, j | 0 <= i < j < |all| ensures RecordKey(table, all[i]) != RecordKey(table, all[j]) {
      assert CounterRecord(table, records[i], counters);
    }
    forall k | k in more ensures exists i :: 0 <= i < |all| && RecordKey(table, all[i]) == Some(k) {
      if k == key {
        assert RecordKey(table, all[|records|]) == Some(k);
      } else {
        var i :| 0 <= i < |records| && RecordKey(table, records[i]) == Some(k);
        assert RecordKey(table, all[i]) == Some(k);
      }
    }
  }

  lemma UnspellableCounter(table: LabelTable, records: seq<Json>, k: nat, counters: map<CounterKey, real>,
      whole: map<CounterKey, real>)
    requires k < |records| && SpellsCounters(table, records[..k], counters) && SpellsCounters(table, records, whole)
    ensures RecordKey(table, records[k]).Some? && RecordKey(table, records[k]).value !in counters
    ensures records[k].JObject? && NonNegativeFloat(Get(records[k].fields, Value)).Some?
  {
    assert records[k].JObject? by { assert CounterRecord(table, records[k], whole); }
    hide RecordKey;
    assert CounterRecord(table, records[k], whole);
    var key := RecordKey(table, records[k]).value;
    assert forall i :: 0 <= i < k ==> RecordKey(table, records[..k][i]) != Some(key);
  }

  method DecodeCounters(table: LabelTable, j: Json) returns (r: Option<map<CounterKey, real>>)
    ensures r.Some? ==> j.JArray? && SpellsCounters(table, j.items, r.value)
    ensures r.None? ==> !j.JArray? || forall counters :: !SpellsCounters(table, j.items, counters)
  {
    hide SpellsCounters;
    if !j.JArray? {
      return None;
    }
    var records := j.items;
    var counters: map<CounterKey, real> := map[];
    NoCounterRecords(table, records);
    for k := 0 to |records|
      invariant SpellsCounters(table, records[..k], counters)
    {
      var key := ReadKey(table, records[k]);
      if key.None? || key.value in counters || NonNegativeFloat(Get(records[k].fields, Value)).None? {
        forall whole | SpellsCounters(table, records, whole) ensures false {
          UnspellableCounter(table, records, k, counters, whole);
        }
        return None;
      }
      var x := NonNegativeFloat(Get(records[k].fields, Value)).value;
      SpellsNextCounter(table, records[..k], counters, records[k], key.value, x);
      assert records[..k] + [records[k]] == records[..k + 1];
      counters := counters[key.value := x];
    }
    assert records[..|records|] == records;
    r := Some(counters);
  }

  function DecodeSnapshot(j: Json): (r: Option<Snapshot>)
    ensures r.Some? ==> SpellsSnapshot(j, r.value)
    ensures r.None? ==> forall s :: !SpellsSnapshot(j, s)
  {
    if !j.JObject? then None
    else
      var a := NonNegativeFloat(Get(j.fields, SubmissionOldestPendingAge));
      var b := NonNegativeInt(Get(j.fields, SubmissionBacklogCount));
      var c := NonNegativeInt(Get(j.fields, IdempotencyRecordCount));
      var d := NonNegativeFloat(Get(j.fields, LiteraturePendingAge));
      var e := NonNegativeFloat(Get(j.fields, OverviewOldestAge));
      var f := NonNegativeInt(Get(j.fields, OverviewMissingActiveUserCount));
      var g := NonNegativeInt(Get(j.fields, OverviewAttentionRequiredCount));
      if a.Some? && b.Some? && c.Some? && d.Some? && e.Some? && f.Some? && g.Some? then
        Some(Snapshot(a.value, b.value, c.value, d.value, e.value, f.value, g.value))
      else None
  }

  /** The outcome of decoding: the collection the payload stands for, or none if it stands for none. */
  ghost predicate Decoded(vocab: Vocabulary, j: Json, r: Option<Collected>) {
    && (r.Some? ==> Spells(vocab, j, r.value))
    && (r.None? ==> forall c :: !Spells(vocab, j, c))
  }

  /** `_snapshot_from_payload`: accepts a payload exactly when it stands for a collection, and returns that one. */
  method Decode(vocab: Vocabulary, j: Json) returns (r: Option<Collected>)
    ensures Decoded(vocab, j, r)
  {
    hide SpellsArray, SpellsCounters, SpellsSnapshot;
    if !j.JObject? || !SupportedVersion(Get(j.fields, SchemaVersion)) {
      return None;
    }
    var snapshot := DecodeSnapshot(Get(j.fields, SnapshotKey));
    if snapshot.None? { return None; }
    var counters := DecodeCounters(vocab.labels, Get(j.fields, DurableCounters));
    if counters.None? { return None; }
    var backlog := BoundedCountRecords(Get(j.fields, SubmissionBacklog), vocab.submissionBacklogStates);
    if backlog.None? { return None; }
    var saga := BoundedCountRecords(Get(j.fields, SagaCounts), vocab.sagaStatuses);
    if saga.None? { return None; }
    var jobs := BoundedCountRecords(Get(j.fields, OverviewJobCounts), vocab.overviewJobStatuses);
    if jobs.None? { return None; }
    var cards := BoundedCountRecords(Get(j.fields, OverviewCardStates), vocab.overviewCardStatuses);
    if cards.None? { return None; }
    r := Some(Collected(snapshot.value, backlog.value, saga.value, jobs.value, cards.value, counters.value));
  }

  // ---- encoding ----

  function Dict(labels: seq<(string, string)>): map<string, string> {
    if labels == [] then map[]
    else Dict(labels[..|labels| - 1])[labels[|labels| - 1].0 := labels[|labels| - 1].1]
  }

  function LabelFields(labels: map<string, string>): (r: map<Key, Json>)
    ensures AllStrings(r) && Strings(r) == labels
  {
    var r := map n | n in labels :: Named(n) := JString(labels[n]);
    assert forall n :: n in labels ==> Named(n) in r;
    assert Strings(r).Keys == labels.Keys by {
      assert forall n :: n in labels ==> Named(n) in r && Named(n).name == n;
    }
    r
  }

  function CountJson(status: string, value: int): Json {
    JObject(map[Status := JString(status), Value := JInt(value)])
  }

  function CounterJson(key: CounterKey, value: real): Json {
    JObject(map[MetricName := JString(key.name), Labels := JObject(LabelFields(Dict(key.labels))),
      Value := JFloat(value)])
  }

  /** The order in which the counters are listed: that of the nested key tuples. */
  function Flat(labels: seq<(string, string)>): seq<string> {
    if labels == [] then [] else [labels[0].0, labels[0].1] + Flat(labels[1..])
  }

  predicate KeyLe(a: CounterKey, b: CounterKey) {
    TupleLe([a.name] + Flat(a.labels), [b.name] + Flat(b.labels))
  }

  lemma {:induction false} FlatIsInjective(a: seq<(string, string)>, b: seq<(string, string)>)
    requires Flat(a) == Flat(b)
    ensures a == b
  {
    if a != [] && b != [] {
      assert Flat(a)[0] == a[0].0 && Flat(a)[1] == a[0].1;
      assert Flat(b)[0] == b[0].0 && Flat(b)[1] == b[0].1;
      assert Flat(a)[2..] == Flat(a[1..]) && Flat(b)[2..] == Flat(b[1..]);
      FlatIsInjective(a[1..], b[1..]);
      assert a == [a[0]] + a[1..] && b == [b[0]] + b[1..];
    }
  }

  lemma {:induction false} FlatOrder(x: seq<(string, string)>, y: seq<(string, string)>, i: nat)
    requires PartAt(x, y, i)
    ensures TupleLe(Flat(x), Flat(y)) <==>
              if x[i].0 != y[i].0 then StringLe(x[i].0, y[i].0) else StringLe(x[i].1, y[i].1)
  {
    hide StringLe;
    var c, d := Flat(x[1..]), Flat(y[1..]);
    assert Flat(x) == [x[0].0] + ([x[0].1] + c) && Flat(y) == [y[0].0] + ([y[0].1] + d);
    assert Flat(x)[1..] == [x[0].1] + c && Flat(y)[1..] == [y[0].1] + d;
    assert ([x[0].1] + c)[1..] == c && ([y[0].1] + d)[1..] == d;
    if i > 0 {
      SameUpTo(x, y, i);
      assert x[1..][..i - 1] == x[..i][1..] && y[1..][..i - 1] == y[..i][1..];
      FlatOrder(x[1..], y[1..], i - 1);
      assert TupleLe(Flat(x), Flat(y)) <==> TupleLe([x[0].1] + c, [y[0].1] + d);
      assert TupleLe([x[0].1] + c, [y[0].1] + d) <==> TupleLe(c, d);
    } else if x[0].0 == y[0].0 {
      assert x[0] == (x[0].0, x[0].1) && y[0] == (y[0].0, y[0].1);
      assert TupleLe(Flat(x), Flat(y)) <==> TupleLe([x[0].1] + c, [y[0].1] + d);
    }
  }

  /** The counters' order: by name, then by the first label that differs, its name before its value. */
  lemma KeyLeExactly(a: CounterKey, b: CounterKey)
    ensures a.name != b.name ==> (KeyLe(a, b) <==> StringLe(a.name, b.name))
    ensures forall i: nat :: a.name == b.name && PartAt(a.labels, b.labels, i) ==>
              (KeyLe(a, b) <==>
                 if a.labels[i].0 != b.labels[i].0 then StringLe(a.labels[i].0, b.labels[i].0)
                 else StringLe(a.labels[i].1, b.labels[i].1))
  {
    hide StringLe;
    var f, g := Flat(a.labels), Flat(b.labels);
    assert ([a.name] + f)[1..] == f && ([b.name] + g)[1..] == g;
    forall i: nat | a.name == b.name && PartAt(a.labels, b.labels, i)
      ensures KeyLe(a, b) <==>
                if a.labels[i].0 != b.labels[i].0 then StringLe(a.labels[i].0, b.labels[i].0)
                else StringLe(a.labels[i].1, b.labels[i].1)
    {
      FlatOrder(a.labels, b.labels, i);
    }
  }

  lemma KeyLeIsTotalOrder()
    ensures TotalOrder(KeyLe)
  {
    hide LexLe;
    TupleLeIsTotalOrder();
    forall a, b | KeyLe(a, b) && KeyLe(b, a) ensures a == b {
      var f, g := [a.name] + Flat(a.labels), [b.name] + Flat(b.labels);
      assert f == g;
      assert f[0] == a.name && g[0] == b.name && f[1..] == Flat(a.labels) && g[1..] == Flat(b.labels);
      FlatIsInjective(a.labels, b.labels);
    }
    assert forall a, b, c :: KeyLe(a, b) && KeyLe(b, c) ==> KeyLe(a, c);
  }

  ghost predicate ListsInOrder<T(!new)>(le: (T, T) -> bool, list: seq<T>, elements: set<T>) {
    Sorted(le, list) && Distinct(list) && forall x :: x in list <==> x in elements
  }

  ghost function CountRecords(names: seq<string>, values: map<string, int>): seq<Json>
    requires forall s :: s in names ==> s in values
  {
    seq(|names|, i requires 0 <= i < |names| => CountJson(names[i], values[names[i]]))
  }

  ghost function CounterRecords(keys: seq<CounterKey>, counters: map<CounterKey, real>): seq<Json>
    requires forall k :: k in keys ==> k in counters
  {
    seq(|keys|, i requires 0 <= i < |keys| => CounterJson(keys[i], counters[keys[i]]))
  }

  /** One record per entry, in the order of the statuses. */
  ghost predicate EncodesCounts(j: Json, values: map<string, int>) {
    exists names :: ListsInOrder(StringLe, names, values.Keys) && j == JArray(CountRecords(names, values))
  }

  ghost predicate EncodesCounters(j: Json, counters: map<CounterKey, real>) {
    exists keys :: ListsInOrder(KeyLe, keys, counters.Keys) && j == JArray(CounterRecords(keys, counters))
  }

  function SnapshotJson(s: Snapshot): Json {
    JObject(map[
      SubmissionOldestPendingAge := JFloat(s.submissionOldestPendingAge),
      SubmissionBacklogCount := JInt(s.submissionBacklogCount),
      IdempotencyRecordCount := JInt(s.idempotencyRecordCount),
      LiteraturePendingAge := JFloat(s.literaturePendingAge),
      OverviewOldestAge := JFloat(s.overviewOldestAge),
      OverviewMissingActiveUserCount := JInt(s.overviewMissingActiveUserCount),
      OverviewAttentionRequiredCount := JInt(s.overviewAttentionRequiredCount)])
  }

  /** The payload `_snapshot_payload` writes for the collection. */
  ghost predicate Encodes(j: Json, c: Collected) {
    && j.JObject? && Get(j.fields, SchemaVersion) == JInt(SCHEMA_VERSION)
    && Get(j.fields, SnapshotKey) == SnapshotJson(c.snapshot)
    && EncodesCounts(Get(j.fields, SubmissionBacklog), c.submissionBacklog)
    && EncodesCounts(Get(j.fields, SagaCounts), c.sagaCounts)
    && EncodesCounts(Get(j.fields, OverviewJobCounts), c.overviewJobCounts)
    && EncodesCounts(Get(j.fields, OverviewCardStates), c.overviewCardStates)
    && EncodesCounters(Get(j.fields, DurableCounters), c.durableCounters)
  }

  method EncodeCounts(values: map<string, int>) returns (j: Json)
    ensures EncodesCounts(j, values)
  {
    var names := SortedNames(values.Keys);
    var records := [];
    for i := 0 to |names|
      invariant |records| == i
      invariant forall n :: 0 <= n < i ==> records[n] == CountJson(names[n], values[names[n]])
    {
      assert names[i] in values;
      records := records + [CountJson(names[i], values[names[i]])];
    }
    assert records == CountRecords(names, values);
    j := JArray(records);
  }

  method SortedKeys(keys: set<CounterKey>) returns (r: seq<CounterKey>)
    ensures ListsInOrder(KeyLe, r, keys)
  {
    KeyLeIsTotalOrder();
    r := SortedElements(keys, KeyLe);
  }

  method EncodeCounters(counters: map<CounterKey, real>) returns (j: Json)
    ensures EncodesCounters(j, counters)
  {
    hide KeyLe, CounterJson, Sorted, Distinct;
    var keys := SortedKeys(counters.Keys);
    var records := [];
    for i := 0 to |keys|
      invariant |records| == i
      invariant forall n :: 0 <= n < i ==> records[n] == CounterJson(keys[n], counters[keys[n]])
    {
      assert keys[i] in counters;
      records := records + [CounterJson(keys[i], counters[keys[i]])];
    }
    assert records == CounterRecords(keys, counters);
    j := JArray(records);
  }

  method Encode(c: Collected) returns (j: Json)
    ensures Encodes(j, c)
  {
    hide EncodesCounts, EncodesCounters, SnapshotJson;
    var backlog := EncodeCounts(c.submissionBacklog);
    var saga := EncodeCounts(c.sagaCounts);
    var jobs := EncodeCounts(c.overviewJobCounts);
    var cards := EncodeCounts(c.overviewCardStates);
    var counters := EncodeCounters(c.durableCounters);
    j := JObject(map[
      SchemaVersion := JInt(SCHEMA_VERSION),
      SnapshotKey := SnapshotJson(c.snapshot),
      SubmissionBacklog := backlog,
      SagaCounts := saga,
      OverviewJobCounts := jobs,
      OverviewCardStates := cards,
      DurableCounters := counters]);
  }

  // ---- decoding undoes encoding ----

  /** A label table, like a Python dictionary, names each label once. */
  ghost predicate NamesLabelsOnce(table: LabelTable) {
    forall name :: name in table ==>
      forall i, j :: 0 <= i < j < |table[name]| ==> table[name][i].0 != table[name][j].0
  }

  /** A known metric with exactly its labels, in the table's order, each with an allowed value. */
  ghost predicate ListedKey(table: LabelTable, k: CounterKey) {
    && k.name in table && |k.labels| == |table[k.name]|
    && forall i :: 0 <= i < |k.labels| ==> k.labels[i].0 == table[k.name][i].0 && k.labels[i].1 in table[k.name][i].1
  }

  ghost predicate WellFormedSnapshot(s: Snapshot) {
    && s.submissionOldestPendingAge >= 0.0 && s.submissionBacklogCount >= 0
    && s.idempotencyRecordCount >= 0 && s.literaturePendingAge >= 0.0 && s.overviewOldestAge >= 0.0
    && s.overviewMissingActiveUserCount >= 0 && s.overviewAttentionRequiredCount >= 0
  }

  ghost predicate WellFormedCounts(values: map<string, int>, allowed: set<string>) {
    values.Keys == allowed && forall s :: s in values ==> values[s] >= 0
  }

  ghost predicate WellFormed(vocab: Vocabulary, c: Collected) {
    && WellFormedSnapshot(c.snapshot)
    && WellFormedCounts(c.submissionBacklog, vocab.submissionBacklogStates)
    && WellFormedCounts(c.sagaCounts, vocab.sagaStatuses)
    && WellFormedCounts(c.overviewJobCounts, vocab.overviewJobStatuses)
    && WellFormedCounts(c.overviewCardStates, vocab.overviewCardStatuses)
    && WellFormedCounters(vocab.labels, c.durableCounters)
  }

  ghost predicate WellFormedCounters(table: LabelTable, counters: map<CounterKey, real>) {
    forall k :: k in counters ==> ListedKey(table, k) && counters[k] >= 0.0
  }

  lemma {:induction false} DictOfDistinct(labels: seq<(string, string)>)
    requires forall i, j :: 0 <= i < j < |labels| ==> labels[i].0 != labels[j].0
    ensures forall i :: 0 <= i < |labels| ==> labels[i].0 in Dict(labels) && Dict(labels)[labels[i].0] == labels[i].1
    ensures forall n :: n in Dict(labels) ==> exists i :: 0 <= i < |labels| && labels[i].0 == n
  {
    if labels != [] {
      var front := labels[..|labels| - 1];
      DictOfDistinct(front);
      assert forall i :: 0 <= i < |front| ==> labels[i] == front[i];
      forall n | n in Dict(labels) ensures exists i :: 0 <= i < |labels| && labels[i].0 == n {
        if n == labels[|labels| - 1].0 {
        } else {
          assert n in Dict(front);
          var i :| 0 <= i < |front| && front[i].0 == n;
          assert labels[i].0 == n;
        }
      }
    }
  }

  lemma ListedLabelsAreAll(table: LabelTable, k: CounterKey)
    requires NamesLabelsOnce(table) && ListedKey(table, k)
    ensures Dict(k.labels).Keys == LabelNames(table[k.name])
    ensures forall i :: 0 <= i < |k.labels| ==>
        k.labels[i].0 in Dict(k.labels) && Dict(k.labels)[k.labels[i].0] == k.labels[i].1
  {
    var allowed, labels := table[k.name], Dict(k.labels);
    DictOfDistinct(k.labels);
    forall n | n in LabelNames(allowed) ensures n in labels {
      var i :| 0 <= i < |allowed| && allowed[i].0 == n;
      assert k.labels[i].0 == n;
    }
    forall n | n in labels ensures n in LabelNames(allowed) {
      var i :| 0 <= i < |k.labels| && k.labels[i].0 == n;
      assert allowed[i].0 == n;
    }
  }

  /** The keys that survive being written as an object and read back are the listed ones. */
  lemma ListedKeysAreCanonical(table: LabelTable, k: CounterKey)
    requires NamesLabelsOnce(table)
    ensures Canonical(table, k.name, Dict(k.labels)) == Some(k) <==> ListedKey(table, k)
  {
    hide Dict;
    if ListedKey(table, k) {
      ListedLabelsAreAll(table, k);
      assert Canonical(table, k.name, Dict(k.labels)).Some?;
      assert Canonical(table, k.name, Dict(k.labels)).value.labels == k.labels;
    } else {
      assert Canonical(table, k.name, Dict(k.labels)).Some? ==>
          ListedKey(table, Canonical(table, k.name, Dict(k.labels)).value);
    }
  }

  lemma EncodedCounts(vocab: set<string>, j: Json, values: map<string, int>, other: map<string, int>)
    requires EncodesCounts(j, values)
    ensures SpellsArray(j, values, vocab) <==> WellFormedCounts(values, vocab)
    ensures SpellsArray(j, other, vocab) ==> other == values
  {
    hide SpellsCounts, WellFormedCounts, RecordsCounts;
    var names := CountsAreRecorded(j, values);
    EncodedCountsSpell(vocab, j, names, values);
    if SpellsArray(j, other, vocab) {
      EncodedCountsSpellOnly(j, names, values, other);
    }
  }

  lemma CountsAreRecorded(j: Json, values: map<string, int>) returns (names: seq<string>)
    requires EncodesCounts(j, values)
    ensures RecordsCounts(j, names, values)
  {
    hide Sorted, Distinct, StringLe;
    names :| ListsInOrder(StringLe, names, values.Keys) && j == JArray(CountRecords(names, values));
    forall i | 0 <= i < |names|
      ensures StatusOf(j.items[i]) == Some(names[i]) && Get(j.items[i].fields, Value) == JInt(values[names[i]])
    {
      assert j.items[i] == CountJson(names[i], values[names[i]]);
    }
  }

  ghost predicate RecordsCounts(j: Json, names: seq<string>, values: map<string, int>) {
    && j.JArray? && |j.items| == |names| && Distinct(names) && (forall s :: s in names <==> s in values)
    && forall i :: 0 <= i < |names| ==>
        StatusOf(j.items[i]) == Some(names[i]) && Get(j.items[i].fields, Value) == JInt(values[names[i]])
  }

  lemma EncodedCountsSpell(vocab: set<string>, j: Json, names: seq<string>, values: map<string, int>)
    requires RecordsCounts(j, names, values)
    ensures SpellsArray(j, values, vocab) <==> WellFormedCounts(values, vocab)
  {
    hide StatusOf;
    if SpellsArray(j, values, vocab) {
      forall s | s in values ensures values[s] >= 0 {
        var i :| 0 <= i < |names| && names[i] == s;
        assert CountRecord(j.items[i], values);
      }
    }
    if WellFormedCounts(values, vocab) {
      assert forall i :: 0 <= i < |names| ==> names[i] in values;
      forall s | s in values ensures exists i :: 0 <= i < |j.items| && StatusOf(j.items[i]) == Some(s) {
        var i :| 0 <= i < |names| && names[i] == s;
        assert StatusOf(j.items[i]) == Some(s);
      }
    }
  }

  lemma SpelledAt(records: seq<Json>, values: map<string, int>, i: nat)
    requires SpellsCounts(records, values) && i < |records|
    ensures CountRecord(records[i], values)
  {
  }

  lemma SpelledSomewhere(records: seq<Json>, values: map<string, int>, s: string) returns (i: nat)
    requires SpellsCounts(records, values) && s in values
    ensures i < |records| && StatusOf(records[i]) == Some(s)
  {
    hide StatusOf;
    i :| 0 <= i < |records| && StatusOf(records[i]) == Some(s);
  }

  lemma EncodedCountsSpellOnly(j: Json, names: seq<string>, values: map<string, int>, other: map<string, int>)
    requires RecordsCounts(j, names, values) && SpellsCounts(j.items, other)
    ensures other == values
  {
    hide StatusOf, SpellsCounts;
    forall s | s in values ensures s in other && other[s] == values[s] {
      var i :| 0 <= i < |names| && names[i] == s;
      SpelledAt(j.items, other, i);
    }
    forall s | s in other ensures s in values {
      var i := SpelledSomewhere(j.items, other, s);
      assert names[i] in values;
    }
    assert other.Keys == values.Keys;
  }

  /** What the encoder writes for the counters: each under the key its labels will be read back as. */
  ghost predicate RecordsCounters(table: LabelTable, j: Json, keys: seq<CounterKey>, counters: map<CounterKey, real>) {
    && j.JArray? && |j.items| == |keys| && Distinct(keys) && (forall k :: k in keys <==> k in counters)
    && forall i :: 0 <= i < |keys| ==>
         && RecordKey(table, j.items[i]) == Canonical(table, keys[i].name, Dict(keys[i].labels))
         && j.items[i].JObject? && Get(j.items[i].fields, Value) == JFloat(counters[keys[i]])
  }

  lemma WrittenKeyIsReadBack(table: LabelTable, key: CounterKey, value: real)
    ensures RecordKey(table, CounterJson(key, value)) == Canonical(table, key.name, Dict(key.labels))
    ensures CounterJson(key, value).JObject? && Get(CounterJson(key, value).fields, Value) == JFloat(value)
  {
    hide Canonical, Dict;
  }

  lemma CountersAreRecorded(table: LabelTable, j: Json, counters: map<CounterKey, real>) returns (keys: seq<CounterKey>)
    requires EncodesCounters(j, counters)
    ensures RecordsCounters(table, j, keys, counters)
  {
    hide KeyLe, Sorted, Distinct, Canonical, Dict, RecordKey, CounterJson;
    keys :| ListsInOrder(KeyLe, keys, counters.Keys) && j == JArray(CounterRecords(keys, counters));
    forall i | 0 <= i < |keys|
      ensures RecordKey(table, j.items[i]) == Canonical(table, keys[i].name, Dict(keys[i].labels))
      ensures j.items[i].JObject? && Get(j.items[i].fields, Value) == JFloat(counters[keys[i]])
    {
      WrittenKeyIsReadBack(table, keys[i], counters[keys[i]]);
    }
  }

  lemma CounterSpelledAt(table: LabelTable, records: seq<Json>, counters: map<CounterKey, real>, i: nat)
    requires SpellsCounters(table, records, counters) && i < |records|
    ensures CounterRecord(table, records[i], counters)
  {
  }

  lemma CounterSpelledSomewhere(table: LabelTable, records: seq<Json>, counters: map<CounterKey, real>, k: CounterKey)
    returns (i: nat)
    requires SpellsCounters(table, records, counters) && k in counters
    ensures i < |records| && RecordKey(table, records[i]) == Some(k)
  {
    hide RecordKey;
    i :| 0 <= i < |records| && RecordKey(table, records[i]) == Some(k);
  }

  lemma CanonicalIsListed(table: LabelTable, name: string, labels: map<string, string>)
    ensures Canonical(table, name, labels).Some? ==> ListedKey(table, Canonical(table, name, labels).value)
  {
  }

  lemma SpelledCountersAreWellFormed(table: LabelTable, j: Json, keys: seq<CounterKey>, counters: map<CounterKey, real>)
    requires RecordsCounters(table, j, keys, counters) && SpellsCounters(table, j.items, counters)
    ensures WellFormedCounters(table, counters)
  {
    hide RecordKey, Canonical, SpellsCounters, ListedKey, Dict, Distinct;
    forall k | k in counters ensures ListedKey(table, k) && counters[k] >= 0.0 {
      var i := CounterSpelledSomewhere(table, j.items, counters, k);
      CounterSpelledAt(table, j.items, counters, i);
      CanonicalIsListed(table, keys[i].name, Dict(keys[i].labels));
    }
  }

  lemma WellFormedCountersAreSpelled(table: LabelTable, j: Json, keys: seq<CounterKey>, counters: map<CounterKey, real>)
    requires RecordsCounters(table, j, keys, counters) && WellFormedCounters(table, counters) && NamesLabelsOnce(table)
    ensures SpellsCounters(table, j.items, counters)
  {
    hide RecordKey, Canonical, ListedKey, Dict;
    forall i | 0 <= i < |keys|
      ensures RecordKey(table, j.items[i]) == Some(keys[i]) && CounterRecord(table, j.items[i], counters)
    {
      assert keys[i] in counters;
      ListedKeysAreCanonical(table, keys[i]);
    }
    forall k | k in counters ensures exists i :: 0 <= i < |j.items| && RecordKey(table, j.items[i]) == Some(k) {
      var i :| 0 <= i < |keys| && keys[i] == k;
      assert RecordKey(table, j.items[i]) == Some(k);
    }
  }

  lemma EncodedCountersSpellOnly(table: LabelTable, j: Json, keys: seq<CounterKey>, counters: map<CounterKey, real>,
      other: map<CounterKey, real>)
    requires NamesLabelsOnce(table) && (forall k :: k in counters ==> ListedKey(table, k))
    requires RecordsCounters(table, j, keys, counters) && SpellsCounters(table, j.items, other)
    ensures other == counters
  {
    hide RecordKey, Canonical, SpellsCounters, ListedKey, Dict, Distinct;
    forall i | 0 <= i < |keys| ensures RecordKey(table, j.items[i]) == Some(keys[i]) {
      assert keys[i] in counters;
      ListedKeysAreCanonical(table, keys[i]);
    }
    forall k | k in counters ensures k in other && other[k] == counters[k] {
      var i :| 0 <= i < |keys| && keys[i] == k;
      CounterSpelledAt(table, j.items, other, i);
    }
    forall k | k in other ensures k in counters {
      var i := CounterSpelledSomewhere(table, j.items, other, k);
      assert keys[i] in counters;
    }
    assert other.Keys == counters.Keys;
  }

  lemma EncodedSnapshot(j: Json, s: Snapshot)
    requires j == SnapshotJson(s)
    ensures SpellsSnapshot(j, s) <==> WellFormedSnapshot(s)
    ensures forall other :: SpellsSnapshot(j, other) ==> other == s
  {
  }

  /** The payload written for a collection stands for it exactly when the collection is well formed. */
  lemma EncodedSpellsExactlyWellFormed(vocab: Vocabulary, j: Json, c: Collected)
    requires NamesLabelsOnce(vocab.labels) && Encodes(j, c)
    ensures Spells(vocab, j, c) <==> WellFormed(vocab, c)
  {
    hide EncodesCounts, EncodesCounters, SnapshotJson, SpellsArray, SpellsSnapshot, SpellsCounters,
         WellFormedCounts, WellFormedCounters, WellFormedSnapshot, RecordsCounters;
    EncodedSnapshot(Get(j.fields, SnapshotKey), c.snapshot);
    EncodedCounts(vocab.submissionBacklogStates, Get(j.fields, SubmissionBacklog), c.submissionBacklog, map[]);
    EncodedCounts(vocab.sagaStatuses, Get(j.fields, SagaCounts), c.sagaCounts, map[]);
    EncodedCounts(vocab.overviewJobStatuses, Get(j.fields, OverviewJobCounts), c.overviewJobCounts, map[]);
    EncodedCounts(vocab.overviewCardStatuses, Get(j.fields, OverviewCardStates), c.overviewCardStates, map[]);
    EncodedCounters(vocab.labels, Get(j.fields, DurableCounters), c.durableCounters);
  }

  lemma EncodedCounters(table: LabelTable, j: Json, counters: map<CounterKey, real>)
    requires NamesLabelsOnce(table) && EncodesCounters(j, counters)
    ensures j.JArray?
    ensures SpellsCounters(table, j.items, counters) <==> WellFormedCounters(table, counters)
  {
    hide RecordKey, Canonical, ListedKey, Dict, SpellsCounters, WellFormedCounters;
    var keys := CountersAreRecorded(table, j, counters);
    if SpellsCounters(table, j.items, counters) {
      SpelledCountersAreWellFormed(table, j, keys, counters);
    }
    if WellFormedCounters(table, counters) {
      WellFormedCountersAreSpelled(table, j, keys, counters);
    }
  }

  /** Whatever its numbers, a payload written for canonical counters stands for nothing but its collection. */
  lemma EncodedSpellsNothingElse(vocab: Vocabulary, j: Json, c: Collected, d: Collected)
    requires NamesLabelsOnce(vocab.labels) && Encodes(j, c) && Spells(vocab, j, d)
    requires forall k :: k in c.durableCounters ==> ListedKey(vocab.labels, k)
    ensures d == c
  {
    hide EncodesCounts, EncodesCounters, SnapshotJson, SpellsArray, SpellsSnapshot, SpellsCounters,
         WellFormedCounts, WellFormedCounters, WellFormedSnapshot, RecordsCounters, ListedKey;
    EncodedSnapshot(Get(j.fields, SnapshotKey), c.snapshot);
    EncodedCounts(vocab.submissionBacklogStates, Get(j.fields, SubmissionBacklog), c.submissionBacklog,
      d.submissionBacklog);
    EncodedCounts(vocab.sagaStatuses, Get(j.fields, SagaCounts), c.sagaCounts, d.sagaCounts);
    EncodedCounts(vocab.overviewJobStatuses, Get(j.fields, OverviewJobCounts), c.overviewJobCounts,
      d.overviewJobCounts);
    EncodedCounts(vocab.overviewCardStatuses, Get(j.fields, OverviewCardStates), c.overviewCardStates,
      d.overviewCardStates);
    var keys := CountersAreRecorded(vocab.labels, Get(j.fields, DurableCounters), c.durableCounters);
    EncodedCountersSpellOnly(vocab.labels, Get(j.fields, DurableCounters), keys, c.durableCounters, d.durableCounters);
  }

  /** Decoding what was encoded gives back the collection exactly when it is well formed. */
  lemma RoundTrip(vocab: Vocabulary, c: Collected, j: Json, r: Option<Collected>)
    requires NamesLabelsOnce(vocab.labels) && Encodes(j, c) && Decoded(vocab, j, r)
    ensures r == Some(c) <==> WellFormed(vocab, c)
  {
    hide Encodes, Spells, WellFormed;
    EncodedSpellsExactlyWellFormed(vocab, j, c);
    if r.Some? && Spells(vocab, j, c) {
      SpellsOnlyOne(vocab, j, r.value, c);
    }
  }
}
