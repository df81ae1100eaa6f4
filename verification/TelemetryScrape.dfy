/**
 The scrape: it publishes what it collected, or falls back to the last good
 collection kept in memory or in the store, and never turns a failure green.
 */
module TelemetryScrape {
  import opened Wrappers
  import opened Telemetry

  // ---- the durable counters ----

  /** A row of counter totals; `value` is None when it is not a finite number. */
  datatype CounterRow = CounterRow(name: string, labels: Json, value: Option<real>)

  function RowKey(table: LabelTable, row: CounterRow): Option<CounterKey> {
    if row.labels.JObject? && AllStrings(row.labels.fields) then Canonical(table, row.name, Strings(row.labels.fields))
    else None
  }

  predicate Usable(table: LabelTable, row: CounterRow) {
    RowKey(table, row).Some? && row.value.Some? && row.value.value >= 0.0
  }

  /** The last row filed under the key. */
  ghost predicate LastRow(table: LabelTable, rows: seq<CounterRow>, k: CounterKey, i: int) {
    && 0 <= i < |rows| && RowKey(table, rows[i]) == Some(k)
    && forall j :: i < j < |rows| ==> RowKey(table, rows[j]) != Some(k)
  }

  /** Each key filed is present with the value of its last row. */
  ghost predicate Totals(table: LabelTable, rows: seq<CounterRow>, counters: map<CounterKey, real>) {
    && (forall i :: 0 <= i < |rows| ==> Usable(table, rows[i]) && RowKey(table, rows[i]).value in counters)
    && (forall k :: k in counters ==>
        ListedKey(table, k) && exists i :: LastRow(table, rows, k, i) && rows[i].value == Some(counters[k]))
  }

  lemma TotalsWithRow(table: LabelTable, rows: seq<CounterRow>, counters: map<CounterKey, real>, row: CounterRow)
    requires Totals(table, rows, counters) && Usable(table, row) && ListedKey(table, RowKey(table, row).value)
    ensures Totals(table, rows + [row], counters[RowKey(table, row).value := row.value.value])
  {
    hide RowKey, ListedKey;
    var key := RowKey(table, row).value;
    var all, more := rows + [row], counters[key := row.value.value];
    forall k | k in more ensures exists i :: LastRow(table, all, k, i) && all[i].value == Some(more[k]) {
      if k == key {
        assert LastRow(table, all, k, |rows|);
      } else {
        var i :| LastRow(table, rows, k, i) && rows[i].value == Some(counters[k]);
        assert LastRow(table, all, k, i);
      }
    }
  }

  lemma TotalsOfNothing(table: LabelTable)
    ensures Totals(table, [], map[])
  {
  }

  method ReadRowKey(table: LabelTable, row: CounterRow) returns (r: Option<CounterKey>)
    ensures r == RowKey(table, row)
    ensures r.Some? ==> ListedKey(table, r.value)
  {
    r := None;
    if row.labels.JObject? && AllStrings(row.labels.fields) {
      hide Canonical;
      r := CanonicalLabels(table, row.name, Strings(row.labels.fields));
      CanonicalIsListed(table, row.name, Strings(row.labels.fields));
    }
  }

  method LoadDurableCounters(table: LabelTable, rows: seq<CounterRow>) returns (r: Option<map<CounterKey, real>>)
    ensures r.Some? ==> Totals(table, rows, r.value)
    ensures r.None? ==> exists i :: 0 <= i < |rows| && !Usable(table, rows[i])
  {
    hide Totals, RowKey, ListedKey;
    var counters: map<CounterKey, real> := map[];
    TotalsOfNothing(table);
    assert rows[..0] == [];
    for i := 0 to |rows|
      invariant Totals(table, rows[..i], counters)
    {
      var row := rows[i];
      var key := ReadRowKey(table, row);
      if key.None? || row.value.None? || row.value.value < 0.0 {
        return None;
      }
      TotalsWithRow(table, rows[..i], counters, row);
      assert rows[..i] + [row] == rows[..i + 1];
      counters := counters[key.value := row.value.value];
    }
    assert rows[..|rows|] == rows;
    r := Some(counters);
  }

  lemma TotalsAreListed(table: LabelTable, rows: seq<CounterRow>, counters: map<CounterKey, real>)
    requires Totals(table, rows, counters)
    ensures forall k :: k in counters ==> ListedKey(table, k)
  {
  }

  lemma TotalsAreUsable(table: LabelTable, rows: seq<CounterRow>, counters: map<CounterKey, real>)
    requires Totals(table, rows, counters)
    ensures forall i :: 0 <= i < |rows| ==> Usable(table, rows[i])
  {
  }

  // ---- scrapes ----

  /** What reading the sources gave: readiness first, then the gauges, with no counters yet. */
  datatype Outcome = NotReady(unavailable: bool) | Failed | Gauges(gauges: Collected)

  datatype Reading =
    | ControlMissing
    | ControlUnreadable
    | Observed(maintenance: bool, outcome: Outcome)

  datatype Failure = SourceNotReady | Unavailable

  /** The gauges a scrape publishes; `lastSuccess` is None when it is not a number. */
  datatype Published = Published(collected: Collected, scrapeSuccess: bool, lastSuccess: Option<real>, riskKnown: bool)

  datatype Row = Row(schemaVersion: int, collectedAt: real, payload: Json)

  datatype Scrape = Scrape(published: Published, writable: bool, at: real)

  function Zeros(statuses: set<string>): map<string, int> { map s | s in statuses :: 0 }

  function Empty(vocab: Vocabulary): Collected {
    Collected(Snapshot(0.0, 0, 0, 0.0, 0.0, 0, 0), Zeros(vocab.submissionBacklogStates), Zeros(vocab.sagaStatuses),
              Zeros(vocab.overviewJobStatuses), Zeros(vocab.overviewCardStatuses), map[])
  }

  function Unknown(vocab: Vocabulary): Published {
    Published(Empty(vocab), false, None, false)
  }

  /** What is published when nothing is known: a well-formed collection of zeros that claims nothing. */
  lemma UnknownClaimsNothing(vocab: Vocabulary)
    ensures var p := Unknown(vocab);
            && !p.scrapeSuccess && !p.riskKnown && p.lastSuccess == None && WellFormed(vocab, p.collected)
            && p.collected.durableCounters == map[] && p.collected.snapshot == Snapshot(0.0, 0, 0, 0.0, 0.0, 0, 0)
            && (forall s :: s in p.collected.submissionBacklog ==> p.collected.submissionBacklog[s] == 0)
            && (forall s :: s in p.collected.sagaCounts ==> p.collected.sagaCounts[s] == 0)
            && (forall s :: s in p.collected.overviewJobCounts ==> p.collected.overviewJobCounts[s] == 0)
            && (forall s :: s in p.collected.overviewCardStates ==> p.collected.overviewCardStates[s] == 0)
  {
  }

  /** A scrape is read-only when asked to be or when the store it managed to open says so. */
  predicate EffectivelyReadOnly(readOnly: bool, reading: Reading) {
    readOnly || (reading.Observed? && reading.maintenance)
  }

  /** A timestamp of zero is published as no timestamp. */
  function OrNaN(timestamp: Option<real>): Option<real> {
    if timestamp == Some(0.0) then None else timestamp
  }

  /** The latest successful scrape that was allowed to write. */
  ghost function Latest(history: seq<Scrape>): Option<Scrape> {
    if history == [] then None
    else
      var last := history[|history| - 1];
      if last.published.scrapeSuccess && last.writable then Some(last) else Latest(history[..|history| - 1])
  }

  /** The same collection but for the counters, which are always read afresh. */
  ghost predicate SameGauges(a: Collected, b: Collected) {
    a == b.(durableCounters := a.durableCounters)
  }

  /** A failed scrape that claims to know the risk shows the gauges of the latest successful writable scrape. */
  ghost predicate FaithfulNext(history: seq<Scrape>, next: Scrape) {
    !next.published.scrapeSuccess && next.published.riskKnown ==>
      && next.writable && Latest(history).Some?
      && SameGauges(next.published.collected, Latest(history).value.published.collected)
      && var at := Latest(history).value.at;
         next.published.lastSuccess == if at == 0.0 then None else Some(at)
  }

  ghost predicate Faithful(history: seq<Scrape>) {
    forall i :: 0 <= i < |history| ==> FaithfulNext(history[..i], history[i])
  }

  lemma LatestAfter(history: seq<Scrape>, scrape: Scrape)
    ensures Latest(history + [scrape]) ==
              if scrape.published.scrapeSuccess && scrape.writable then Some(scrape) else Latest(history)
  {
    assert (history + [scrape])[..|history|] == history;
  }

  lemma FaithfulAfter(history: seq<Scrape>, scrape: Scrape)
    requires Faithful(history) && FaithfulNext(history, scrape)
    ensures Faithful(history + [scrape])
  {
    hide Latest;
    var all := history + [scrape];
    forall i | 0 <= i < |all| ensures FaithfulNext(all[..i], all[i]) {
      assert all[..i] == history[..i];
    }
  }

  class Scraper {
    const vocab: Vocabulary
    var lastGood: Option<Collected>
    var lastSuccess: Option<real>
    var stored: Option<Row>
    /** Every scrape since the store was created, across restarts. */
    ghost var history: seq<Scrape>

    ghost predicate Valid()
      reads this
    {
      && NamesLabelsOnce(vocab.labels)
      && Faithful(history)
      && (lastGood.Some? <==> lastSuccess.Some?)
      && (lastGood.Some? ==>
            && Latest(history).Some? && Latest(history).value.published.collected == lastGood.value
            && Latest(history).value.at == lastSuccess.value)
      && (stored.Some? <==> Latest(history).Some?)
      && (stored.Some? ==> Holds(stored.value, Latest(history).value))
    }

    ghost predicate Holds(row: Row, scrape: Scrape)
    {
      && row.schemaVersion == SCHEMA_VERSION && row.collectedAt == scrape.at
      && Encodes(row.payload, scrape.published.collected)
      && forall k :: k in scrape.published.collected.durableCounters ==> ListedKey(vocab.labels, k)
    }

    /** The scrape succeeds: the gauges were read and, unless it is read-only, stored with their counters. */
    ghost predicate Succeeds(readOnly: bool, reading: Reading, counterRows: Option<seq<CounterRow>>, persists: bool)
    {
      && reading.Observed? && reading.outcome.Gauges?
      && (EffectivelyReadOnly(readOnly, reading) || (persists && RowsUsable(counterRows)))
    }

    ghost predicate RowsUsable(counterRows: Option<seq<CounterRow>>)
    {
      counterRows.Some? && forall i :: 0 <= i < |counterRows.value| ==> Usable(vocab.labels, counterRows.value[i])
    }

    /** A last good collection is in memory, or the store answers with one that decodes. */
    ghost predicate Known(readable: bool)
      requires Valid()
      reads this
    {
      lastGood.Some? || (readable && stored.Some? && WellFormed(vocab, Latest(history).value.published.collected))
    }

    constructor (vocab: Vocabulary)
      requires NamesLabelsOnce(vocab.labels)
      ensures Valid() && this.vocab == vocab && history == []
    {
      this.vocab := vocab;
      lastGood, lastSuccess, stored, history := None, None, None, [];
    }

    /** A new process starts with nothing in memory. */
    method Restart()
      requires Valid()
      modifies this
      ensures Valid() && history == old(history) && stored == old(stored)
      ensures lastGood == None && lastSuccess == None
    {
      hide Faithful, Latest, Encodes, ListedKey, NamesLabelsOnce;
      lastGood, lastSuccess := None, None;
    }

    /** `_load_persisted_snapshot`; `readable` says whether the store answers. */
    method LoadPersisted(readable: bool) returns (r: Option<(Collected, real)>)
      requires Valid()
      ensures r.Some? ==> Latest(history).Some?
      ensures r.Some? ==> r.value == (Latest(history).value.published.collected, Latest(history).value.at)
      ensures r.Some? <==> readable && stored.Some? && WellFormed(vocab, Latest(history).value.published.collected)
    {
      hide WellFormed, Encodes, Spells, Faithful, ListedKey;
      if !readable || stored.None? || stored.value.schemaVersion != SCHEMA_VERSION {
        return None;
      }
      var decoded := Decode(vocab, stored.value.payload);
      ghost var latest := Latest(history).value.published.collected;
      RoundTrip(vocab, latest, stored.value.payload, decoded);
      if decoded.None? {
        return None;
      }
      EncodedSpellsNothingElse(vocab, stored.value.payload, latest, decoded.value);
      r := Some((decoded.value, stored.value.collectedAt));
    }

    /**
     Read the sources, add the counters and store the result. `counterRows` is
     None when the counters cannot be read and `persists` says whether the
     store accepts the row.
     */
    method Collect(readOnly: bool, reading: Reading, counterRows: Option<seq<CounterRow>>, persists: bool, now: real)
      returns (r: Result<Collected, Failure>)
      requires Valid()
      modifies this`stored
      ensures r.Err? || EffectivelyReadOnly(readOnly, reading) ==> stored == old(stored)
      ensures r == Err(SourceNotReady) <==>
          reading.ControlMissing? || (reading.Observed? && reading.outcome == NotReady(false))
      ensures r.Ok? <==> Succeeds(readOnly, reading, counterRows, persists)
      ensures r.Ok? ==> SameGauges(r.value, reading.outcome.gauges)
      ensures r.Ok? && EffectivelyReadOnly(readOnly, reading) ==> r.value.durableCounters == map[]
      ensures r.Ok? && !EffectivelyReadOnly(readOnly, reading) ==>
        && Totals(vocab.labels, counterRows.value, r.value.durableCounters)
        && stored.Some? && Holds(stored.value, Scrape(Published(r.value, true, Some(now), true), true, now))
    {
      hide Totals, Usable, Encodes, ListedKey;
      if reading.ControlMissing? {
        return Err(SourceNotReady);
      }
      if reading.ControlUnreadable? {
        return Err(Unavailable);
      }
      var effective := readOnly || reading.maintenance;
      match reading.outcome {
        case NotReady(unavailable) =>
          return Err(if unavailable then Unavailable else SourceNotReady);
        case Failed =>
          return Err(Unavailable);
        case Gauges(gauges) =>
          if effective {
            return Ok(gauges.(durableCounters := map[]));
          }
          if counterRows.None? {
            return Err(Unavailable);
          }
          var counters := LoadDurableCounters(vocab.labels, counterRows.value);
          if counters.None? || !persists {
            return Err(Unavailable);
          }
          TotalsAreUsable(vocab.labels, counterRows.value, counters.value);
          TotalsAreListed(vocab.labels, counterRows.value, counters.value);
          var collected := gauges.(durableCounters := counters.value);
          var payload := Encode(collected);
          stored := Some(Row(SCHEMA_VERSION, now, payload));
          return Ok(collected);
      }
    }

    /** The last good collection, from memory or else from the store, with its counters read afresh. */
    method LastKnown(readable: bool, counterRows: Option<seq<CounterRow>>)
      returns (r: Option<(Collected, Option<real>)>)
      requires Valid()
      ensures r.Some? <==> Known(readable) && RowsUsable(counterRows)
      ensures r.Some? ==>
        && Latest(history).Some? && SameGauges(r.value.0, Latest(history).value.published.collected)
        && Totals(vocab.labels, counterRows.value, r.value.0.durableCounters)
        && r.value.1 == Some(Latest(history).value.at)
    {
      hide Totals, Usable, Encodes, ListedKey, WellFormed, Faithful;
      var collected, timestamp := lastGood, lastSuccess;
      if collected.None? {
        var persisted := LoadPersisted(readable);
        if persisted.Some? {
          collected, timestamp := Some(persisted.value.0), Some(persisted.value.1);
        }
      }
      if collected.None? || counterRows.None? {
        return None;
      }
      var counters := LoadDurableCounters(vocab.labels, counterRows.value);
      if counters.None? {
        return None;
      }
      TotalsAreUsable(vocab.labels, counterRows.value, counters.value);
      r := Some((collected.value.(durableCounters := counters.value), timestamp));
    }


    /** `refresh_domain_metrics`. The counters are read a second time (`reloadRows`) when it falls back. */
    method Refresh(readOnly: bool, reading: Reading, counterRows: Option<seq<CounterRow>>, persists: bool,
                   readable: bool, reloadRows: Option<seq<CounterRow>>, now: real)
      returns (p: Published)
      requires Valid()
      modifies this
      ensures Valid() && history == old(history) + [Scrape(p, !EffectivelyReadOnly(readOnly, reading), now)]
      ensures p.scrapeSuccess <==> Succeeds(readOnly, reading, counterRows, persists)
      ensures p.scrapeSuccess ==>
          p.riskKnown && p.lastSuccess == Some(now) && SameGauges(p.collected, reading.outcome.gauges)
      ensures !p.scrapeSuccess ==>
        (p.riskKnown <==>
          && !EffectivelyReadOnly(readOnly, reading)
          && !reading.ControlMissing? && !(reading.Observed? && reading.outcome == NotReady(false))
          && old(Known(readable)) && RowsUsable(reloadRows))
      ensures !p.riskKnown ==> p == Unknown(vocab)
      ensures EffectivelyReadOnly(readOnly, reading) || !p.scrapeSuccess ==>
        lastGood == old(lastGood) && lastSuccess == old(lastSuccess) && stored == old(stored)
      ensures p.scrapeSuccess && !EffectivelyReadOnly(readOnly, reading) ==>
          lastGood == Some(p.collected) && lastSuccess == Some(now)
    {
      hide Totals, Usable, Encodes, ListedKey, WellFormed, Faithful, Latest, Zeros, NamesLabelsOnce;
      var effective := readOnly || (reading.Observed? && reading.maintenance);
      ghost var before := history;
      var result := Collect(readOnly, reading, counterRows, persists, now);
      if result == Err(SourceNotReady) {
        p := Unknown(vocab);
      } else if result.Err? {
        var known := LastKnown(readable, reloadRows);
        p := if effective || known.None? then Unknown(vocab)
          else Published(known.value.0, false, OrNaN(known.value.1), true);
      } else {
        p := Published(result.value, true, Some(now), true);
        if !effective {
          lastGood, lastSuccess := Some(result.value), Some(now);
        }
      }
      ghost var scrape := Scrape(p, !effective, now);
      LatestAfter(before, scrape);
      FaithfulAfter(before, scrape);
      history := before + [scrape];
    }
  }
}
