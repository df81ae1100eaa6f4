/**
 Backfilling legacy task outputs into Turn Items: mapping each output, pairing
 tool results with tool calls, and inserting everything in one transaction.
 */
module Backfill {
  import opened Wrappers
  import opened Ordering

  datatype Json = JNull | JString(text: string) | JObject(fields: map<string, Json>) | JOther(text: string)

  type Payload = map<string, Json>

  /** One task_outputs row of a task. */
  datatype Row = Row(sourceSeq: int, kind: string, content: string, createdAt: string)

  datatype Mapped = Mapped(itemType: string, actor: string, payload: Payload)

  datatype PlannedItem = PlannedItem(
    sourceSeq: int, itemType: string, actor: string, payload: Payload, occurredAt: string, callSourceSeq: Option<int>)

  datatype PlanError = UnknownKind(kind: string) | UnmatchedResult(sourceSeq: int)

  /** `json.loads` and canonical JSON, which are not modelled further. */
  datatype Codec = Codec(parse: string -> Option<Json>, canonical: Json -> string)

  // ---- mapping one output ----

  /** `_parse_payload`: an event envelope is unwrapped, anything else keeps its raw text. */
  function ParsePayload(codec: Codec, raw: string): Payload {
    match codec.parse(raw)
    case Some(JObject(fields)) =>
      if "event_type" in fields && fields["event_type"].JString? && "payload" in fields && fields["payload"].JObject?
      then fields["payload"].fields
      else fields
    case _ => map["content" := JString(raw)]
  }

  function TextOf(codec: Codec, payload: Payload, raw: string): string {
    if "content" !in payload || payload["content"].JNull? then raw
    else if payload["content"].JString? then payload["content"].text
    else codec.canonical(payload["content"])
  }

  predicate IsStatusEnvelope(codec: Codec, raw: string) {
    match codec.parse(raw)
    case Some(JObject(fields)) => "event_type" in fields && fields["event_type"] == JString("status")
    case _ => false
  }

  function Only(payload: Payload, keys: set<string>): Payload {
    map k | k in payload && k in keys :: payload[k]
  }

  function Subtype(payload: Payload): string {
    if "subtype" in payload && payload["subtype"].JString? then payload["subtype"].text else ""
  }

  /** `_map_output`: an item, nothing for telemetry and suppressed notices, an error for an unknown kind. */
  function MapOutput(codec: Codec, kind: string, raw: string): Result<Option<Mapped>, PlanError> {
    if kind == "token" then Ok(None)
    else
      var payload := ParsePayload(codec, raw);
      var text := map["text" := JString(TextOf(codec, payload, raw))];
      if kind == "message" then
        if "role" in payload && payload["role"] == JString("user") then Ok(Some(Mapped("user_message", "user", text)))
        else Ok(Some(Mapped("agent_message", "agent", text)))
      else if kind == "thinking" then Ok(Some(Mapped("reasoning_summary", "agent", text)))
      else if kind == "tool_call" then Ok(Some(Mapped("tool_call", "tool", Only(payload, {"id", "name", "arguments"}))))
      else if kind == "tool_result"
        then Ok(Some(Mapped("tool_result", "tool", Only(payload, {"tool_use_id", "content"}))))
      else if kind == "lifecycle" then
        var subtype := Subtype(payload);
        if subtype == "status" || subtype == "thinking_tokens" then Ok(None)
        else if subtype == "" && IsStatusEnvelope(codec, raw) then Ok(None)
        else Ok(Some(Mapped("system_notice", "system",
          if subtype != "" then map["text" := JString(subtype)] else text)))
      else if kind == "stderr" then
        Ok(Some(Mapped("system_notice", "system", map["text" := JString("[stderr] " + TextOf(codec, payload, raw))])))
      else if kind == "error" then Ok(Some(Mapped("error", "system", text)))
      else Err(UnknownKind(kind))
  }

  /** Only a call becomes a tool_call item, only a result a tool_result item. */
  lemma MappedKinds(codec: Codec, kind: string, raw: string)
    ensures var m := MapOutput(codec, kind, raw);
            && (kind == "tool_call" <==> m.Ok? && m.value.Some? && m.value.value.itemType == "tool_call")
            && (kind == "tool_result" <==> m.Ok? && m.value.Some? && m.value.value.itemType == "tool_result")
  {
    hide ParsePayload, TextOf, IsStatusEnvelope, Only, Subtype;
  }

  // ---- what the transcript shows of a row, said directly ----

  const KNOWN_KINDS := {"message", "thinking", "tool_call", "tool_result", "lifecycle", "stderr", "error", "token"}

  /** An event envelope: a named event around an object. */
  ghost predicate Envelope(fields: Payload) {
    "event_type" in fields && fields["event_type"].JString? && "payload" in fields && fields["payload"].JObject?
  }

  /** g is what the row holds: the object inside its envelope, its own object, or its raw text. */
  ghost predicate Holds(codec: Codec, raw: string, g: Payload) {
    var parsed := codec.parse(raw);
    && (!(parsed.Some? && parsed.value.JObject?) ==> g == map["content" := JString(raw)])
    && (parsed.Some? && parsed.value.JObject? && Envelope(parsed.value.fields) ==>
          JObject(g) == parsed.value.fields["payload"])
    && (parsed.Some? && parsed.value.JObject? && !Envelope(parsed.value.fields) ==> JObject(g) == parsed.value)
  }

  /** The text shown: the content if it is a string, the raw text if there is none, else the content as JSON. */
  ghost predicate Reads(codec: Codec, raw: string, g: Payload, text: string) {
    if "content" !in g then text == raw
    else match g["content"]
         case JString(said) => text == said
         case JNull => text == raw
         case other => text == codec.canonical(other)
  }

  ghost predicate SpokenByUser(g: Payload) {
    "role" in g && g["role"] == JString("user")
  }

  /** The named subtype of a notice, empty if there is none. */
  ghost predicate Names(g: Payload, subtype: string) {
    if "subtype" in g && g["subtype"].JString? then g["subtype"] == JString(subtype) else subtype == ""
  }

  ghost predicate IsStatusEvent(codec: Codec, raw: string) {
    exists fields :: codec.parse(raw) == Some(JObject(fields)) && "event_type" in fields
      && fields["event_type"] == JString("status")
  }

  /** Telemetry, and the notices the transcript never showed. */
  ghost predicate Skips(codec: Codec, row: Row, g: Payload, subtype: string) {
    || row.kind == "token"
    || (row.kind == "lifecycle" &&
        (subtype == "status" || subtype == "thinking_tokens" || (subtype == "" && IsStatusEvent(codec, row.content))))
  }

  ghost predicate Says(m: Mapped, itemType: string, actor: string, text: string) {
    m.itemType == itemType && m.actor == actor && m.payload == map["text" := JString(text)]
  }

  ghost predicate Keeps(m: Mapped, itemType: string, g: Payload, keys: set<string>) {
    && m.itemType == itemType && m.actor == "tool"
    && (forall k :: k in m.payload <==> k in g && k in keys)
    && (forall k :: k in m.payload ==> m.payload[k] == g[k])
  }

  /** What each kind of row becomes. */
  ghost predicate Becomes(row: Row, g: Payload, text: string, subtype: string, m: Mapped) {
    && (row.kind == "message" ==>
          if SpokenByUser(g) then Says(m, "user_message", "user", text) else Says(m, "agent_message", "agent", text))
    && (row.kind == "thinking" ==> Says(m, "reasoning_summary", "agent", text))
    && (row.kind == "tool_call" ==> Keeps(m, "tool_call", g, {"id", "name", "arguments"}))
    && (row.kind == "tool_result" ==> Keeps(m, "tool_result", g, {"tool_use_id", "content"}))
    && (row.kind == "lifecycle" ==> Says(m, "system_notice", "system", if subtype != "" then subtype else text))
    && (row.kind == "stderr" ==> Says(m, "system_notice", "system", "[stderr] " + text))
    && (row.kind == "error" ==> Says(m, "error", "system", text))
  }

  lemma PayloadIsHeld(codec: Codec, raw: string)
    ensures Holds(codec, raw, ParsePayload(codec, raw))
  {
  }

  lemma TextIsRead(codec: Codec, raw: string, g: Payload)
    ensures Reads(codec, raw, g, TextOf(codec, g, raw))
  {
  }

  lemma StatusIsTold(codec: Codec, raw: string)
    ensures IsStatusEnvelope(codec, raw) <==> IsStatusEvent(codec, raw)
  {
  }

  lemma KeepsNamed(g: Payload, keys: set<string>, itemType: string)
    ensures Keeps(Mapped(itemType, "tool", Only(g, keys)), itemType, g, keys)
  {
  }

  lemma KnownExactly(codec: Codec, kind: string, raw: string)
    ensures MapOutput(codec, kind, raw).Ok? <==> kind in KNOWN_KINDS
  {
    hide ParsePayload, TextOf, IsStatusEnvelope, Only, Subtype;
  }

  lemma SkippedExactly(codec: Codec, row: Row)
    requires MapOutput(codec, row.kind, row.content).Ok?
    ensures var g := ParsePayload(codec, row.content);
            MapOutput(codec, row.kind, row.content).value.None? <==> Skips(codec, row, g, Subtype(g))
  {
    StatusIsTold(codec, row.content);
    hide ParsePayload, TextOf, IsStatusEnvelope, IsStatusEvent, Only, Subtype;
  }

  lemma BecomesAsShown(codec: Codec, row: Row)
    requires MapOutput(codec, row.kind, row.content).Ok? && MapOutput(codec, row.kind, row.content).value.Some?
    ensures var g := ParsePayload(codec, row.content);
            Becomes(row, g, TextOf(codec, g, row.content), Subtype(g),
              MapOutput(codec, row.kind, row.content).value.value)
  {
    var g := ParsePayload(codec, row.content);
    KeepsNamed(g, {"id", "name", "arguments"}, "tool_call");
    KeepsNamed(g, {"tool_use_id", "content"}, "tool_result");
    hide ParsePayload, TextOf, IsStatusEnvelope, Only, Keeps, Subtype;
  }

  /** Every known row becomes what its kind and its object say, or is skipped; no other row is accepted. */
  lemma MappedAsShown(codec: Codec, row: Row) returns (g: Payload, text: string, subtype: string)
    ensures Holds(codec, row.content, g) && Reads(codec, row.content, g, text) && Names(g, subtype)
    ensures var m := MapOutput(codec, row.kind, row.content);
            && (m.Ok? <==> row.kind in KNOWN_KINDS)
            && (m.Ok? ==> (m.value.None? <==> Skips(codec, row, g, subtype)))
            && (m.Ok? && m.value.Some? ==> Becomes(row, g, text, subtype, m.value.value))
  {
    g := ParsePayload(codec, row.content);
    text, subtype := TextOf(codec, g, row.content), Subtype(g);
    PayloadIsHeld(codec, row.content);
    TextIsRead(codec, row.content, g);
    hide MapOutput, ParsePayload, TextOf, Holds, Reads, Skips, Becomes;
    KnownExactly(codec, row.kind, row.content);
    if MapOutput(codec, row.kind, row.content).Ok? {
      SkippedExactly(codec, row);
      if MapOutput(codec, row.kind, row.content).value.Some? {
        BecomesAsShown(codec, row);
      }
    }
  }

  // ---- the pairing, said directly ----

  /** The source seqs of the calls, in order. */
  function CallSeqs(rows: seq<Row>): seq<int> {
    if rows == [] then []
    else
      var last := rows[|rows| - 1];
      CallSeqs(rows[..|rows| - 1]) + if last.kind == "tool_call" then [last.sourceSeq] else []
  }

  function ResultCount(rows: seq<Row>): nat {
    if rows == [] then 0
    else ResultCount(rows[..|rows| - 1]) + if rows[|rows| - 1].kind == "tool_result" then 1 else 0
  }

  predicate Known(codec: Codec, row: Row) {
    MapOutput(codec, row.kind, row.content).Ok?
  }

  /** Up to and including row i, there have been no more results than calls. */
  predicate Balanced(rows: seq<Row>, i: int)
    requires 0 <= i < |rows|
  {
    ResultCount(rows[..i + 1]) <= |CallSeqs(rows[..i + 1])|
  }

  /** Every row can be planned: known kinds, and never more results than calls so far. */
  ghost predicate Plannable(codec: Codec, rows: seq<Row>) {
    forall i :: 0 <= i < |rows| ==> Known(codec, rows[i]) && Balanced(rows, i)
  }

  /** The item for row i: the n-th result belongs to the n-th call. */
  ghost function ItemAt(codec: Codec, rows: seq<Row>, i: nat): (r: Option<PlannedItem>)
    requires i < |rows| && Known(codec, rows[i])
  {
    match MapOutput(codec, rows[i].kind, rows[i].content).value
    case None => None
    case Some(m) =>
      var n := ResultCount(rows[..i]);
      var calls := CallSeqs(rows[..i]);
      Some(PlannedItem(rows[i].sourceSeq, m.itemType, m.actor, m.payload, rows[i].createdAt,
                       if rows[i].kind == "tool_result" && n < |calls| then Some(calls[n]) else None))
  }

  ghost function PlanOf(codec: Codec, rows: seq<Row>, n: nat): seq<PlannedItem>
    requires n <= |rows| && forall i :: 0 <= i < n ==> Known(codec, rows[i])
  {
    if n == 0 then []
    else
      var item := ItemAt(codec, rows, n - 1);
      PlanOf(codec, rows, n - 1) + if item.Some? then [item.value] else []
  }

  lemma CallsAndResultsNext(rows: seq<Row>, i: nat)
    requires i < |rows|
    ensures CallSeqs(rows[..i + 1]) ==
              CallSeqs(rows[..i]) + if rows[i].kind == "tool_call" then [rows[i].sourceSeq] else []
    ensures ResultCount(rows[..i + 1]) == ResultCount(rows[..i]) + if rows[i].kind == "tool_result" then 1 else 0
  {
    assert rows[..i + 1][..i] == rows[..i];
  }

  /** The item tells of row i: what it shows, where it stood, and for the n-th result the n-th call. */
  ghost predicate Tells(codec: Codec, rows: seq<Row>, i: int, item: PlannedItem)
    requires 0 <= i < |rows|
  {
    exists g, text, subtype :: TellsOf(codec, rows, i, item, g, text, subtype)
  }

  ghost predicate TellsOf(
    codec: Codec, rows: seq<Row>, i: int, item: PlannedItem, g: Payload, text: string, subtype: string)
    requires 0 <= i < |rows|
  {
    var row := rows[i];
    && Holds(codec, row.content, g) && Reads(codec, row.content, g, text) && Names(g, subtype)
    && !Skips(codec, row, g, subtype) && Becomes(row, g, text, subtype, Mapped(item.itemType, item.actor, item.payload))
    && item.sourceSeq == row.sourceSeq && item.occurredAt == row.createdAt
    && (item.callSourceSeq.Some? <==> row.kind == "tool_result")
    && (row.kind == "tool_result" ==>
          && ResultCount(rows[..i]) < |CallSeqs(rows[..i])|
          && item.callSourceSeq == Some(CallSeqs(rows[..i])[ResultCount(rows[..i])]))
  }

  ghost predicate IsSkipped(codec: Codec, row: Row) {
    exists g, subtype :: Holds(codec, row.content, g) && Names(g, subtype) && Skips(codec, row, g, subtype)
  }

  /** The plan tells of the rows at `kept`, in order, and every other row is one that is skipped. */
  ghost predicate Transcript(codec: Codec, rows: seq<Row>, planned: seq<PlannedItem>, kept: seq<nat>) {
    && |kept| == |planned|
    && (forall k :: 0 <= k < |kept| ==> kept[k] < |rows| && Tells(codec, rows, kept[k], planned[k]))
    && (forall j, k :: 0 <= j < k < |kept| ==> kept[j] < kept[k])
    && (forall i: nat :: i < |rows| && i !in kept ==> IsSkipped(codec, rows[i]))
  }

  /** The type of an item tells the rows apart: who spoke, and what was a call, a result, a thought or an error. */
  lemma TypesTell(codec: Codec, rows: seq<Row>, i: int, item: PlannedItem)
    requires 0 <= i < |rows| && rows[i].kind in KNOWN_KINDS && Tells(codec, rows, i, item)
    ensures item.itemType == "user_message" <==>
              rows[i].kind == "message" && exists g :: Holds(codec, rows[i].content, g) && SpokenByUser(g)
    ensures item.itemType == "agent_message" <==>
              rows[i].kind == "message" && exists g :: Holds(codec, rows[i].content, g) && !SpokenByUser(g)
    ensures item.itemType == "tool_call" <==> rows[i].kind == "tool_call"
    ensures item.itemType == "tool_result" <==> rows[i].kind == "tool_result"
    ensures item.itemType == "reasoning_summary" <==> rows[i].kind == "thinking"
    ensures item.itemType == "error" <==> rows[i].kind == "error"
    ensures item.actor == "user" <==> item.itemType == "user_message"
  {
    var g, text, subtype :| TellsOf(codec, rows, i, item, g, text, subtype);
    forall other | Holds(codec, rows[i].content, other) ensures other == g {
      HoldsOne(codec, rows[i].content, g, other);
    }
    KindsAndTypes(rows[i], g, text, subtype, Mapped(item.itemType, item.actor, item.payload));
    hide Holds, Reads, Names, Skips, Becomes, SpokenByUser, KNOWN_KINDS;
  }

  lemma HoldsOne(codec: Codec, raw: string, g: Payload, other: Payload)
    requires Holds(codec, raw, g) && Holds(codec, raw, other)
    ensures other == g
  {
  }

  lemma KindsAndTypes(row: Row, g: Payload, text: string, subtype: string, m: Mapped)
    requires row.kind in KNOWN_KINDS && row.kind != "token" && Becomes(row, g, text, subtype, m)
    ensures m.itemType == "user_message" <==> row.kind == "message" && SpokenByUser(g)
    ensures m.itemType == "agent_message" <==> row.kind == "message" && !SpokenByUser(g)
    ensures m.itemType == "tool_call" <==> row.kind == "tool_call"
    ensures m.itemType == "tool_result" <==> row.kind == "tool_result"
    ensures m.itemType == "reasoning_summary" <==> row.kind == "thinking"
    ensures m.itemType == "error" <==> row.kind == "error"
    ensures m.actor == "user" <==> m.itemType == "user_message"
  {
    hide SpokenByUser;
  }

  lemma RowIsTold(codec: Codec, rows: seq<Row>, i: nat)
    requires i < |rows| && Known(codec, rows[i]) && Balanced(rows, i)
    ensures var item := ItemAt(codec, rows, i);
            if item.Some? then Tells(codec, rows, i, item.value) else IsSkipped(codec, rows[i])
  {
    var g, text, subtype := MappedAsShown(codec, rows[i]);
    CallsAndResultsNext(rows, i);
    hide MapOutput, Holds, Reads, Names, Skips, Becomes, CallSeqs, ResultCount;
    var item := ItemAt(codec, rows, i);
    if item.Some? {
      assert TellsOf(codec, rows, i, item.value, g, text, subtype);
    }
  }

  lemma {:induction false} PlanTells(codec: Codec, rows: seq<Row>, n: nat) returns (kept: seq<nat>)
    requires n <= |rows| && Plannable(codec, rows)
    ensures |kept| == |PlanOf(codec, rows, n)|
    ensures forall k :: 0 <= k < |kept| ==> kept[k] < n && Tells(codec, rows, kept[k], PlanOf(codec, rows, n)[k])
    ensures forall j, k :: 0 <= j < k < |kept| ==> kept[j] < kept[k]
    ensures forall i: nat :: i < n && i !in kept ==> IsSkipped(codec, rows[i])
  {
    hide Tells, IsSkipped, ItemAt, Balanced;
    if n == 0 {
      kept := [];
    } else {
      kept := PlanTells(codec, rows, n - 1);
      RowIsTold(codec, rows, n - 1);
      if ItemAt(codec, rows, n - 1).Some? {
        ghost var before := kept;
        kept := kept + [n - 1];
        assert forall i :: i in kept <==> i in before || i == n - 1;
      }
    }
  }

  /**
   `_plan_task`, the loop with its queue of unmatched calls: it succeeds exactly
   when the rows are plannable, pairs the n-th result with the n-th call, and
   accounts for every row as planned or skipped.
   */
  method PlanTask(codec: Codec, rows: seq<Row>) returns (r: Result<(seq<PlannedItem>, nat), PlanError>)
    ensures r.Ok? <==> forall i :: 0 <= i < |rows| ==> rows[i].kind in KNOWN_KINDS && Balanced(rows, i)
    ensures r.Ok? ==> exists kept :: Transcript(codec, rows, r.value.0, kept)
    ensures r.Ok? <==> Plannable(codec, rows)
    ensures r.Ok? ==> r.value.0 == PlanOf(codec, rows, |rows|) && |r.value.0| + r.value.1 == |rows|
  {
    hide MapOutput, CallSeqs, ResultCount, Transcript;
    PlannableByKind(codec, rows);
    var planned: seq<PlannedItem> := [];
    var pendingCallSeqs: seq<int> := [];
    var skipped := 0;
    NothingCounted(rows);
    for i := 0 to |rows|
      invariant forall k :: 0 <= k < i ==> Known(codec, rows[k]) && Balanced(rows, k)
      invariant ResultCount(rows[..i]) <= |CallSeqs(rows[..i])|
      invariant pendingCallSeqs == CallSeqs(rows[..i])[ResultCount(rows[..i])..]
      invariant planned == PlanOf(codec, rows, i) && |planned| + skipped == i
    {
      var row := rows[i];
      CallsAndResultsNext(rows, i);
      MappedKinds(codec, row.kind, row.content);
      var mapped := MapOutput(codec, row.kind, row.content);
      if mapped.Err? {
        assert !Known(codec, rows[i]);
        return Err(mapped.error);
      }
      if mapped.value.None? {
        skipped := skipped + 1;
        continue;
      }
      var m := mapped.value.value;
      var item := PlannedItem(row.sourceSeq, m.itemType, m.actor, m.payload, row.createdAt, None);
      if m.itemType == "tool_call" {
        pendingCallSeqs := pendingCallSeqs + [item.sourceSeq];
      } else if m.itemType == "tool_result" {
        if pendingCallSeqs == [] {
          assert !Balanced(rows, i);
          return Err(UnmatchedResult(item.sourceSeq));
        }
        item := item.(callSourceSeq := Some(pendingCallSeqs[0]));
        pendingCallSeqs := pendingCallSeqs[1..];
      }
      assert ItemAt(codec, rows, i) == Some(item);
      planned := planned + [item];
    }
    PlanIsTranscript(codec, rows);
    r := Ok((planned, skipped));
  }

  lemma PlannableByKind(codec: Codec, rows: seq<Row>)
    ensures Plannable(codec, rows) <==> forall i :: 0 <= i < |rows| ==> rows[i].kind in KNOWN_KINDS && Balanced(rows, i)
  {
    hide MapOutput, Balanced;
    forall i | 0 <= i < |rows| ensures Known(codec, rows[i]) <==> rows[i].kind in KNOWN_KINDS {
      var g, text, subtype := MappedAsShown(codec, rows[i]);
    }
  }

  lemma PlanIsTranscript(codec: Codec, rows: seq<Row>)
    requires Plannable(codec, rows)
    ensures exists kept :: Transcript(codec, rows, PlanOf(codec, rows, |rows|), kept)
  {
    hide Tells, IsSkipped, PlanOf, Known, Balanced;
    var kept := PlanTells(codec, rows, |rows|);
    assert Transcript(codec, rows, PlanOf(codec, rows, |rows|), kept);
  }

  lemma NothingCounted(rows: seq<Row>)
    ensures CallSeqs(rows[..0]) == [] && ResultCount(rows[..0]) == 0
  {
  }

  // ---- what a plan guarantees ----

  /** Source seqs are the rows' primary key within a task. */
  ghost predicate DistinctSeqs(rows: seq<Row>) {
    forall i, j :: 0 <= i < j < |rows| ==> rows[i].sourceSeq != rows[j].sourceSeq
  }

  ghost predicate LinksTo(planned: seq<PlannedItem>, i: int, j: int) {
    && 0 <= j < i < |planned|
    && planned[i].callSourceSeq == Some(planned[j].sourceSeq) && planned[j].itemType == "tool_call"
  }

  /** Every result names an earlier call of the same plan, nothing else names one, and seqs are unique. */
  ghost predicate WellLinked(planned: seq<PlannedItem>) {
    && (forall i :: 0 <= i < |planned| && planned[i].callSourceSeq.Some? ==> exists j :: LinksTo(planned, i, j))
    && (forall i :: 0 <= i < |planned| ==> (planned[i].callSourceSeq.Some? <==> planned[i].itemType == "tool_result"))
    && (forall i, j :: 0 <= i < j < |planned| ==> planned[i].sourceSeq != planned[j].sourceSeq)
  }

  lemma {:induction false} PlannedFromRows(codec: Codec, rows: seq<Row>, n: nat, k: nat)
    requires n <= |rows| && (forall i :: 0 <= i < n ==> Known(codec, rows[i])) && k < |PlanOf(codec, rows, n)|
    ensures exists i :: 0 <= i < n && rows[i].sourceSeq == PlanOf(codec, rows, n)[k].sourceSeq
  {
    hide MapOutput, CallSeqs, ResultCount;
    if n > 0 && k < |PlanOf(codec, rows, n - 1)| {
      PlannedFromRows(codec, rows, n - 1, k);
    }
  }

  /** Every call seen so far is in the plan so far. */
  lemma {:induction false} CallsArePlanned(codec: Codec, rows: seq<Row>, n: nat, c: nat)
    requires n <= |rows| && (forall i :: 0 <= i < n ==> Known(codec, rows[i])) && c < |CallSeqs(rows[..n])|
    ensures exists j :: 0 <= j < |PlanOf(codec, rows, n)| && PlanOf(codec, rows, n)[j].itemType == "tool_call"
                        && PlanOf(codec, rows, n)[j].sourceSeq == CallSeqs(rows[..n])[c]
  {
    hide MapOutput, CallSeqs, ResultCount;
    if n == 0 {
      NothingCounted(rows);
    } else {
      CallsAndResultsNext(rows, n - 1);
      MappedKinds(codec, rows[n - 1].kind, rows[n - 1].content);
      if c < |CallSeqs(rows[..n - 1])| {
        CallsArePlanned(codec, rows, n - 1, c);
        var j :| 0 <= j < |PlanOf(codec, rows, n - 1)| && PlanOf(codec, rows, n - 1)[j].itemType == "tool_call"
                 && PlanOf(codec, rows, n - 1)[j].sourceSeq == CallSeqs(rows[..n - 1])[c];
        assert PlanOf(codec, rows, n)[j] == PlanOf(codec, rows, n - 1)[j];
      } else {
        var j := |PlanOf(codec, rows, n - 1)|;
        assert PlanOf(codec, rows, n)[j].itemType == "tool_call";
      }
    }
  }

  lemma WellLinkedNext(planned: seq<PlannedItem>, item: PlannedItem)
    requires WellLinked(planned)
    requires item.callSourceSeq.Some? <==> item.itemType == "tool_result"
    requires item.callSourceSeq.Some? ==>
               exists j :: 0 <= j < |planned| && planned[j].itemType == "tool_call"
                 && planned[j].sourceSeq == item.callSourceSeq.value
    requires forall j :: 0 <= j < |planned| ==> planned[j].sourceSeq != item.sourceSeq
    ensures WellLinked(planned + [item])
  {
    var all := planned + [item];
    forall i | 0 <= i < |all| && all[i].callSourceSeq.Some? ensures exists j :: LinksTo(all, i, j) {
      if i < |planned| {
        var j :| LinksTo(planned, i, j);
        assert LinksTo(all, i, j);
      } else {
        var j :| 0 <= j < |planned| && planned[j].itemType == "tool_call"
          && planned[j].sourceSeq == item.callSourceSeq.value;
        assert LinksTo(all, i, j);
      }
    }
  }

  /** A successful plan over unique source seqs is well linked. */
  lemma {:induction false} PlanIsWellLinked(codec: Codec, rows: seq<Row>, n: nat)
    requires n <= |rows| && Plannable(codec, rows) && DistinctSeqs(rows)
    ensures WellLinked(PlanOf(codec, rows, n))
  {
    hide MapOutput, CallSeqs, ResultCount;
    if n > 0 {
      PlanIsWellLinked(codec, rows, n - 1);
      var before, item := PlanOf(codec, rows, n - 1), ItemAt(codec, rows, n - 1);
      if item.Some? {
        MappedKinds(codec, rows[n - 1].kind, rows[n - 1].content);
        CallsAndResultsNext(rows, n - 1);
        assert Balanced(rows, n - 1);
        var c := ResultCount(rows[..n - 1]);
        if rows[n - 1].kind == "tool_result" {
          CallsArePlanned(codec, rows, n - 1, c);
        }
        forall j | 0 <= j < |before| ensures before[j].sourceSeq != item.value.sourceSeq {
          PlannedFromRows(codec, rows, n - 1, j);
        }
        WellLinkedNext(before, item.value);
      } else {
        assert before + [] == before;
      }
    }
  }

  // ---- planning every task ----

  ghost predicate AllPlannable(codec: Codec, outputs: map<string, seq<Row>>) {
    forall t :: t in outputs ==> Plannable(codec, outputs[t])
  }

  /** What the plan holds for a task is the plan of its rows. */
  ghost predicate PlansTask(codec: Codec, rows: seq<Row>, planned: seq<PlannedItem>) {
    Plannable(codec, rows) && planned == PlanOf(codec, rows, |rows|)
  }

  /** How many entries the listed tasks have together. */
  ghost function Sizes<T>(lists: map<string, seq<T>>, tasks: seq<string>): nat {
    if tasks == [] then 0
    else
      var last := tasks[|tasks| - 1];
      Sizes(lists, tasks[..|tasks| - 1]) + if last in lists then |lists[last]| else 0
  }

  lemma {:induction false} SizesIgnoreOthers<T>(lists: map<string, seq<T>>, tasks: seq<string>, other: string,
      list: seq<T>)
    requires other !in tasks
    ensures Sizes(lists[other := list], tasks) == Sizes(lists, tasks)
  {
    if tasks != [] {
      assert tasks[|tasks| - 1] in tasks;
      SizesIgnoreOthers(lists, tasks[..|tasks| - 1], other, list);
    }
  }

  lemma SizesNext<T>(lists: map<string, seq<T>>, tasks: seq<string>, k: nat)
    requires k < |tasks| && tasks[k] in lists
    ensures Sizes(lists, tasks[..k + 1]) == Sizes(lists, tasks[..k]) + |lists[tasks[k]]|
  {
    assert tasks[..k + 1][..k] == tasks[..k];
  }

  lemma NoSizes<T>(lists: map<string, seq<T>>, tasks: seq<string>)
    ensures Sizes(lists, tasks[..0]) == 0
  {
  }

  /** The first k tasks are planned, and their rows are accounted for. */
  ghost predicate PlannedUpTo(codec: Codec, outputs: map<string, seq<Row>>, tasks: seq<string>, k: nat, plan: Plan,
      skipped: nat)
    requires k <= |tasks|
  {
    && Sizes(plan, tasks[..k]) + skipped == Sizes(outputs, tasks[..k])
    && (forall t :: t in plan <==> t in tasks[..k])
    && (forall t :: t in plan ==> t in outputs && PlansTask(codec, outputs[t], plan[t]))
  }

  lemma PlannedNext(
    codec: Codec, outputs: map<string, seq<Row>>, tasks: seq<string>, k: nat, plan: Plan, skipped: nat,
    planned: seq<PlannedItem>, more: nat)
    requires k < |tasks| && Distinct(tasks) && tasks[k] in outputs
    requires PlannedUpTo(codec, outputs, tasks, k, plan, skipped)
    requires PlansTask(codec, outputs[tasks[k]], planned) && |planned| + more == |outputs[tasks[k]]|
    ensures PlannedUpTo(codec, outputs, tasks, k + 1, plan[tasks[k] := planned], skipped + more)
  {
    hide PlansTask, Sizes;
    assert tasks[..k + 1] == tasks[..k] + [tasks[k]];
    SizesIgnoreOthers(plan, tasks[..k], tasks[k], planned);
    SizesNext(plan[tasks[k] := planned], tasks, k);
    SizesNext(outputs, tasks, k);
  }

  lemma PlansAreLinked(codec: Codec, outputs: map<string, seq<Row>>, plan: Plan)
    requires forall t :: t in plan ==> t in outputs && PlansTask(codec, outputs[t], plan[t]) && DistinctSeqs(outputs[t])
    ensures forall t :: t in plan ==> WellLinked(plan[t])
  {
    hide Plannable, PlanOf, WellLinked, DistinctSeqs;
    forall t | t in plan ensures WellLinked(plan[t]) {
      PlanIsWellLinked(codec, outputs[t], |outputs[t]|);
    }
  }

  /** `plan`: one plan per task of the source, or none at all; no row is lost between planned and skipped. */
  method PlanAll(codec: Codec, outputs: map<string, seq<Row>>)
    returns (r: Result<(Plan, nat), PlanError>, ghost tasks: seq<string>)
    ensures Distinct(tasks) && (forall t :: t in tasks <==> t in outputs)
    ensures r.Ok? <==> AllPlannable(codec, outputs)
    ensures r.Ok? ==>
              PlannedUpTo(codec, outputs, tasks, |tasks|, r.value.0, r.value.1) && r.value.0.Keys == outputs.Keys
    ensures r.Ok? && (forall t :: t in outputs ==> DistinctSeqs(outputs[t])) ==>
              forall t :: t in r.value.0 ==> WellLinked(r.value.0[t])
  {
    hide Plannable, PlanOf, WellLinked, DistinctSeqs, Sizes, PlannedUpTo;
    var names := SortedNames(outputs.Keys);
    tasks := names;
    var plan: Plan := map[];
    var skipped := 0;
    NothingPlanned(codec, outputs, names);
    for k := 0 to |names|
      invariant PlannedUpTo(codec, outputs, names, k, plan, skipped)
    {
      assert names[k] in names;
      var planned := PlanTask(codec, outputs[names[k]]);
      if planned.Err? {
        return Err(planned.error), names;
      }
      PlannedNext(codec, outputs, names, k, plan, skipped, planned.value.0, planned.value.1);
      plan := plan[names[k] := planned.value.0];
      skipped := skipped + planned.value.1;
    }
    EverythingPlanned(codec, outputs, names, plan, skipped);
    if forall t :: t in outputs ==> DistinctSeqs(outputs[t]) {
      PlansAreLinked(codec, outputs, plan);
    }
    r := Ok((plan, skipped));
  }

  lemma NothingPlanned(codec: Codec, outputs: map<string, seq<Row>>, tasks: seq<string>)
    ensures PlannedUpTo(codec, outputs, tasks, 0, map[], 0)
  {
    NoSizes(outputs, tasks);
  }

  lemma EverythingPlanned(codec: Codec, outputs: map<string, seq<Row>>, tasks: seq<string>, plan: Plan, skipped: nat)
    requires (forall t :: t in tasks <==> t in outputs) && PlannedUpTo(codec, outputs, tasks, |tasks|, plan, skipped)
    ensures plan.Keys == outputs.Keys && AllPlannable(codec, outputs)
    ensures forall t :: t in plan ==> t in outputs && PlansTask(codec, outputs[t], plan[t])
  {
    hide Plannable, PlanOf, Sizes;
    assert tasks[..|tasks|] == tasks;
  }

  // ---- applying a plan ----

  const LEGACY_TURN_ID_PREFIX := "legacy-inferred-turn:"

  datatype Turn = Turn(id: string, turnSeq: int)

  datatype TurnItem = TurnItem(
    id: nat, task: string, turn: string, itemSeq: nat, itemType: string, actor: string, payload: Payload,
    call: Option<nat>, occurredAt: string)

  type Plan = map<string, seq<PlannedItem>>

  datatype Report = Report(ready: bool, applied: bool)

  predicate LegacyTurn(task: string, turn: Turn) {
    turn.id == LEGACY_TURN_ID_PREFIX + task && turn.turnSeq == 1
  }

  predicate HasItems(items: seq<TurnItem>, task: string) {
    exists i :: 0 <= i < |items| && items[i].task == task
  }

  /** No blocker: legacy Turns for exactly the planned tasks, none with Items yet, no empty task. */
  predicate Ready(plan: Plan, turns: map<string, Turn>, items: seq<TurnItem>) {
    && turns != map[] && turns.Keys == plan.Keys
    && (forall t :: t in turns ==> LegacyTurn(t, turns[t]) && !HasItems(items, t))
    && (forall t :: t in plan ==> plan[t] != [])
  }

  /** The rows one task gains: numbered from 1, each call reference resolved to an earlier row of the task. */
  ghost predicate Renders(rows: seq<TurnItem>, task: string, turn: string, planned: seq<PlannedItem>, first: nat) {
    && |rows| == |planned|
    && forall i :: 0 <= i < |planned| ==> RendersAt(rows, task, turn, planned, first, i)
  }

  ghost predicate RendersAt(rows: seq<TurnItem>, task: string, turn: string, planned: seq<PlannedItem>, first: nat,
      i: int)
    requires 0 <= i < |planned| && i < |rows|
  {
    var p := planned[i];
    && rows[i] == TurnItem(first + i, task, turn, i + 1, p.itemType, p.actor, p.payload, rows[i].call, p.occurredAt)
    && (p.callSourceSeq.None? ==> rows[i].call == None)
    && (p.callSourceSeq.Some? ==> exists j :: LinksTo(planned, i, j) && rows[i].call == Some(rows[j].id))
  }

  function CountItems(items: seq<TurnItem>, task: string, turn: string): nat {
    if items == [] then 0
    else
      var last := items[|items| - 1];
      CountItems(items[..|items| - 1], task, turn) + if last.task == task && last.turn == turn then 1 else 0
  }

  lemma {:induction false} CountAppend(items: seq<TurnItem>, more: seq<TurnItem>, task: string, turn: string)
    ensures CountItems(items + more, task, turn) == CountItems(items, task, turn) + CountItems(more, task, turn)
  {
    if more == [] {
      assert items + more == items;
    } else {
      assert (items + more)[..|items + more| - 1] == items + more[..|more| - 1];
      CountAppend(items, more[..|more| - 1], task, turn);
    }
  }

  lemma {:induction false} CountOwn(rows: seq<TurnItem>, owner: string, task: string, turn: string)
    requires forall i :: 0 <= i < |rows| ==> rows[i].task == owner && (owner == task ==> rows[i].turn == turn)
    ensures CountItems(rows, task, turn) == if owner == task then |rows| else 0
  {
    if rows != [] {
      CountOwn(rows[..|rows| - 1], owner, task, turn);
    }
  }

  lemma {:induction false} NoItemsCountZero(items: seq<TurnItem>, task: string, turn: string)
    requires !HasItems(items, task)
    ensures CountItems(items, task, turn) == 0
  {
    if items != [] {
      assert items[|items| - 1].task != task;
      var init := items[..|items| - 1];
      forall i | 0 <= i < |init| ensures init[i].task != task {
        assert items[i].task != task;
      }
      NoItemsCountZero(init, task, turn);
    }
  }

  /** Where in the table each finished task's rows stand. */
  ghost predicate Placed(items: seq<TurnItem>, turns: map<string, Turn>, plan: Plan, task: string, at: nat, first: nat)
    requires task in plan && task in turns
  {
    && at + |plan[task]| <= |items|
    && Renders(items[at..at + |plan[task]|], task, turns[task].id, plan[task], first)
  }

  ghost predicate Filled(items: seq<TurnItem>, turns: map<string, Turn>, plan: Plan, task: string)
    requires task in plan && task in turns
  {
    && (exists at, first :: Placed(items, turns, plan, task, at, first))
    && CountItems(items, task, turns[task].id) == |plan[task]|
  }

  lemma RenderedOwner(rows: seq<TurnItem>, task: string, turn: string, planned: seq<PlannedItem>, first: nat)
    requires Renders(rows, task, turn, planned, first)
    ensures forall i :: 0 <= i < |rows| ==> rows[i].task == task && rows[i].turn == turn
  {
    forall i | 0 <= i < |rows| ensures rows[i].task == task && rows[i].turn == turn {
      assert RendersAt(rows, task, turn, planned, first, i);
    }
  }

  lemma FilledStays(items: seq<TurnItem>, more: seq<TurnItem>, owner: string, turns: map<string, Turn>, plan: Plan,
      task: string)
    requires task in plan && task in turns && Filled(items, turns, plan, task) && owner != task
    requires forall i :: 0 <= i < |more| ==> more[i].task == owner
    ensures Filled(items + more, turns, plan, task)
  {
    var at: nat, first: nat :| Placed(items, turns, plan, task, at, first);
    assert (items + more)[at..at + |plan[task]|] == items[at..at + |plan[task]|];
    assert Placed(items + more, turns, plan, task, at, first);
    CountAppend(items, more, task, turns[task].id);
    CountOwn(more, owner, task, turns[task].id);
  }

  lemma FilledNow(items: seq<TurnItem>, rows: seq<TurnItem>, turns: map<string, Turn>, plan: Plan, task: string,
      first: nat)
    requires task in plan && task in turns && CountItems(items, task, turns[task].id) == 0
    requires Renders(rows, task, turns[task].id, plan[task], first)
    ensures Filled(items + rows, turns, plan, task)
  {
    assert (items + rows)[|items|..|items| + |rows|] == rows;
    assert Placed(items + rows, turns, plan, task, |items|, first);
    RenderedOwner(rows, task, turns[task].id, plan[task], first);
    CountAppend(items, rows, task, turns[task].id);
    CountOwn(rows, task, task, turns[task].id);
  }

  /** `PRAGMA foreign_key_check`: every call reference leads to an item of the table. */
  predicate Resolves(items: seq<TurnItem>, i: int)
    requires 0 <= i < |items|
  {
    items[i].call.Some? ==> exists j :: 0 <= j < |items| && items[j].id == items[i].call.value
  }

  predicate Resolved(items: seq<TurnItem>) {
    forall i :: 0 <= i < |items| ==> Resolves(items, i)
  }

  lemma RenderedRowsResolve(
    items: seq<TurnItem>, rows: seq<TurnItem>, task: string, turn: string, planned: seq<PlannedItem>, first: nat)
    requires Resolved(items) && Renders(rows, task, turn, planned, first)
    ensures Resolved(items + rows)
  {
    var all := items + rows;
    forall i | 0 <= i < |all| ensures Resolves(all, i) {
      if i < |items| {
        assert Resolves(items, i);
        if items[i].call.Some? {
          var j :| 0 <= j < |items| && items[j].id == items[i].call.value;
          assert all[j] == items[j];
        }
      } else {
        var n := i - |items|;
        assert RendersAt(rows, task, turn, planned, first, n);
        if rows[n].call.Some? {
          var j :| LinksTo(planned, n, j) && rows[n].call == Some(rows[j].id);
          assert all[|items| + j] == rows[j];
        }
      }
    }
  }

  lemma ReadyExactly(plan: Plan, turns: map<string, Turn>, items: seq<TurnItem>)
    ensures Ready(plan, turns, items) <==>
        && turns.Keys != {} && turns.Keys == plan.Keys
        && (forall t :: t in turns ==> turns[t] == Turn(LEGACY_TURN_ID_PREFIX + t, 1))
        && (forall i :: 0 <= i < |items| ==> items[i].task !in turns)
        && (forall t :: t in plan ==> |plan[t]| > 0)
  {
    assert turns != map[] <==> turns.Keys != {};
    if Ready(plan, turns, items) {
      forall i | 0 <= i < |items| ensures items[i].task !in turns {
        assert HasItems(items, items[i].task);
      }
    }
  }

  class TargetDatabase {
    /** Nothing goes wrong from here on: no statement and no commit fails. */
    var calm: bool
    var turns: map<string, Turn>
    var items: seq<TurnItem>
    var nextId: nat

    constructor (turns: map<string, Turn>, items: seq<TurnItem>, nextId: nat, calm: bool)
      ensures this.turns == turns && this.items == items && this.nextId == nextId && this.calm == calm
    {
      this.turns, this.items, this.nextId, this.calm := turns, items, nextId, calm;
    }

    /** `preflight`: one blocker after the other is looked for. */
    method Preflight(plan: Plan) returns (ready: bool)
      ensures ready <==> Ready(plan, turns, items)
      ensures ready <==>
        && turns.Keys != {} && turns.Keys == plan.Keys
        && (forall t :: t in turns ==> turns[t] == Turn("legacy-inferred-turn:" + t, 1))
        && (forall i :: 0 <= i < |items| ==> items[i].task !in turns)
        && (forall t :: t in plan ==> |plan[t]| > 0)
    {
      ready := turns.Keys != {} && turns.Keys == plan.Keys;
      var rest := turns.Keys;
      var legacy := true;
      while rest != {}
        invariant rest <= turns.Keys
        invariant legacy <==> forall t :: t in turns && t !in rest ==> turns[t] == Turn("legacy-inferred-turn:" + t, 1)
        decreases rest
      {
        var t :| t in rest;
        if turns[t].id != LEGACY_TURN_ID_PREFIX + t || turns[t].turnSeq != 1 { legacy := false; }
        rest := rest - {t};
      }
      var clear := true;
      for i := 0 to |items|
        invariant clear <==> forall k :: 0 <= k < i ==> items[k].task !in turns
      {
        if items[i].task in turns { clear := false; }
      }
      rest := plan.Keys;
      var filled := true;
      while rest != {}
        invariant rest <= plan.Keys
        invariant filled <==> forall t :: t in plan && t !in rest ==> |plan[t]| > 0
        decreases rest
      {
        var t :| t in rest;
        if plan[t] == [] { filled := false; }
        rest := rest - {t};
      }
      ready := ready && legacy && clear && filled;
      ReadyExactly(plan, turns, items);
    }

    /** The inner loop of apply: one task's rows, resolving calls through the id dictionary. */
    method InsertTask(task: string, turn: string, planned: seq<PlannedItem>, ids: map<(string, int), nat>)
      returns (ids': map<(string, int), nat>)
      requires WellLinked(planned)
      modifies this`items, this`nextId
      ensures old(items) <= items && Renders(items[|old(items)|..], task, turn, planned, old(nextId))
    {
      ids' := ids;
      ghost var base, first := items, nextId;
      for i := 0 to |planned|
        invariant nextId == first + i && |items| == |base| + i && base <= items
        invariant forall j :: 0 <= j < i ==>
            (task, planned[j].sourceSeq) in ids' && ids'[(task, planned[j].sourceSeq)] == first + j
        invariant forall j :: 0 <= j < i ==> RendersAt(items[|base|..], task, turn, planned, first, j)
      {
        var item := planned[i];
        var id := nextId;
        nextId := nextId + 1;
        ids' := ids'[(task, item.sourceSeq) := id];
        var call: Option<nat> := None;
        ghost var linked := 0;
        if item.callSourceSeq.Some? {
          linked :| LinksTo(planned, i, linked);
          call := Some(ids'[(task, item.callSourceSeq.value)]);
          assert RendersAt(items[|base|..], task, turn, planned, first, linked);
        }
        ghost var was := items[|base|..];
        items := items + [TurnItem(id, task, turn, i + 1, item.itemType, item.actor, item.payload, call,
          item.occurredAt)];
        assert items[|base|..] == was + [items[|items| - 1]];
        RendersNext(was, items[|items| - 1], task, turn, planned, first, i, linked);
      }
    }

    /** The outer loop of apply over the sorted task ids; any statement may fail. */
    method InsertAll(plan: Plan, tasks: seq<string>) returns (ok: bool)
      requires Distinct(tasks) && turns.Keys == plan.Keys && (forall t :: t in tasks ==> t in plan)
      requires forall t :: t in plan ==> WellLinked(plan[t])
      requires Progress(items, turns, plan, tasks, 0)
      modifies this`items, this`nextId
      ensures old(items) <= items && (ok ==> Progress(items, turns, plan, tasks, |tasks|))
      ensures forall i :: |old(items)| <= i < |items| ==> items[i].task in plan
      ensures forall i :: |old(items)| <= i < |items| ==> items[i].turn == turns[items[i].task].id
      ensures calm ==> ok
      ensures Resolved(old(items)) ==> Resolved(items)
    {
      hide Progress, WellLinked, Renders, Resolved;
      var ids: map<(string, int), nat> := map[];
      for k := 0 to |tasks|
        invariant old(items) <= items && Progress(items, turns, plan, tasks, k)
        invariant forall i :: |old(items)| <= i < |items| ==> items[i].task in plan
        invariant forall i :: |old(items)| <= i < |items| ==> items[i].turn == turns[items[i].task].id
        invariant Resolved(old(items)) ==> Resolved(items)
      {
        ghost var before, first := items, nextId;
        var task := tasks[k];
        assert task in tasks;
        ok := *;
        if !ok && !calm { return; }
        ids := InsertTask(task, turns[task].id, plan[task], ids);
        ghost var rows := items[|before|..];
        assert items == before + rows;
        RenderedOwner(rows, task, turns[task].id, plan[task], first);
        AfterTask(before, rows, turns, plan, tasks, k, first);
        if Resolved(before) {
          RenderedRowsResolve(before, rows, task, turns[task].id, plan[task], first);
        }
      }
      ok := true;
    }

    /**
     `apply`: nothing unless ready; then every planned task is filled and verified,
     or nothing at all on a failure.
     */
    method Apply(plan: Plan) returns (r: Report)
      requires forall t :: t in plan ==> WellLinked(plan[t])
      modifies this`items, this`nextId
      ensures calm ==> (r.applied <==> Ready(plan, turns, old(items)))
      ensures !r.applied ==> items == old(items) && (r.ready <==> Ready(plan, turns, old(items)))
      ensures r.applied ==> Ready(plan, turns, old(items)) && old(items) <= items
      ensures r.applied ==> forall i :: |old(items)| <= i < |items| ==>
                items[i].task in plan && items[i].turn == "legacy-inferred-turn:" + items[i].task
      ensures r.applied ==> forall t :: t in plan ==> t in turns && Filled(items, turns, plan, t)
      ensures r.applied ==> (r.ready <==> Resolved(items)) && (Resolved(old(items)) ==> r.ready)
    {
      hide Resolved, Progress, Filled, WellLinked, CountItems;
      var ready := Preflight(plan);
      r := Report(ready, false);
      if !ready { return; }
      var saved := items;
      var tasks := SortedNames(plan.Keys);
      NothingInserted(plan, turns, items, tasks);
      var ok := InsertAll(plan, tasks);
      var commits: bool := *;
      if !ok || !(commits || calm) {
        items := saved;
        return;
      }
      EverythingFilled(items, turns, plan, tasks);
      var complete := Verify(plan);
      r := Report(complete, true);
    }

    /** `verify`: every planned task has exactly its planned number of Items, and all references lead somewhere. */
    method Verify(plan: Plan) returns (ready: bool)
      ensures ready <==> Resolved(items) && forall t :: t in plan ==> Complete(plan, t)
    {
      ready := true;
      var rest := plan.Keys;
      while rest != {}
        invariant rest <= plan.Keys
        invariant ready <==> forall t :: t in plan && t !in rest ==> Complete(plan, t)
        decreases rest
      {
        var t :| t in rest;
        if !Complete(plan, t) {
          ready := false;
        }
        rest := rest - {t};
      }
      if !Resolved(items) {
        ready := false;
      }
    }

    predicate Complete(plan: Plan, t: string)
      requires t in plan
      reads this
    {
      t in turns && CountItems(items, t, turns[t].id) == |plan[t]|
    }
  }

  lemma RendersNext(was: seq<TurnItem>, row: TurnItem, task: string, turn: string, planned: seq<PlannedItem>,
      first: nat, i: nat, linked: int)
    requires i < |planned| && |was| == i
    requires forall j :: 0 <= j < i ==> RendersAt(was, task, turn, planned, first, j)
    requires row == TurnItem(first + i, task, turn, i + 1, planned[i].itemType, planned[i].actor, planned[i].payload,
        row.call, planned[i].occurredAt)
    requires planned[i].callSourceSeq.None? ==> row.call == None
    requires planned[i].callSourceSeq.Some? ==> LinksTo(planned, i, linked) && row.call == Some(was[linked].id)
    ensures forall j :: 0 <= j <= i ==> RendersAt(was + [row], task, turn, planned, first, j)
  {
    var all := was + [row];
    forall j | 0 <= j <= i ensures RendersAt(all, task, turn, planned, first, j) {
      if j < i {
        assert RendersAt(was, task, turn, planned, first, j);
        if planned[j].callSourceSeq.Some? {
          var l :| LinksTo(planned, j, l) && was[j].call == Some(was[l].id);
          assert LinksTo(planned, j, l) && all[j].call == Some(all[l].id);
        }
      } else if planned[i].callSourceSeq.Some? {
        assert LinksTo(planned, i, linked) && all[i].call == Some(all[linked].id);
      }
    }
  }

  /** The first k tasks are filled, the others still have nothing. */
  ghost predicate Progress(items: seq<TurnItem>, turns: map<string, Turn>, plan: Plan, tasks: seq<string>, k: nat)
    requires k <= |tasks| && turns.Keys == plan.Keys && forall t :: t in tasks ==> t in plan
  {
    && (forall i :: 0 <= i < k ==> Filled(items, turns, plan, tasks[i]))
    && (forall t :: t in plan && t !in tasks[..k] ==> CountItems(items, t, turns[t].id) == 0)
  }

  lemma NothingInserted(plan: Plan, turns: map<string, Turn>, items: seq<TurnItem>, tasks: seq<string>)
    requires Ready(plan, turns, items) && forall t :: t in tasks ==> t in plan
    ensures Progress(items, turns, plan, tasks, 0)
  {
    forall t | t in plan ensures CountItems(items, t, turns[t].id) == 0 {
      NoItemsCountZero(items, t, turns[t].id);
    }
  }

  lemma AfterTask(before: seq<TurnItem>, rows: seq<TurnItem>, turns: map<string, Turn>, plan: Plan,
      tasks: seq<string>, k: nat, first: nat)
    requires k < |tasks| && Distinct(tasks) && turns.Keys == plan.Keys && forall t :: t in tasks ==> t in plan
    requires Progress(before, turns, plan, tasks, k)
    requires Renders(rows, tasks[k], turns[tasks[k]].id, plan[tasks[k]], first)
    ensures Progress(before + rows, turns, plan, tasks, k + 1)
  {
    hide Filled, CountItems, Renders;
    var task := tasks[k];
    assert task !in tasks[..k];
    RenderedOwner(rows, task, turns[task].id, plan[task], first);
    forall i | 0 <= i < k ensures Filled(before + rows, turns, plan, tasks[i]) {
      FilledStays(before, rows, task, turns, plan, tasks[i]);
    }
    FilledNow(before, rows, turns, plan, task, first);
    forall t | t in plan && t !in tasks[..k + 1] ensures CountItems(before + rows, t, turns[t].id) == 0 {
      assert tasks[..k + 1] == tasks[..k] + [task];
      CountAppend(before, rows, t, turns[t].id);
      CountOwn(rows, task, t, turns[t].id);
    }
  }

  lemma EverythingFilled(items: seq<TurnItem>, turns: map<string, Turn>, plan: Plan, tasks: seq<string>)
    requires (forall t :: t in plan <==> t in tasks) && turns.Keys == plan.Keys
    requires Progress(items, turns, plan, tasks, |tasks|)
    ensures forall t :: t in plan ==> Filled(items, turns, plan, t) && CountItems(items, t, turns[t].id) == |plan[t]|
  {
    forall t | t in plan ensures Filled(items, turns, plan, t) && CountItems(items, t, turns[t].id) == |plan[t]| {
      assert t in tasks;
    }
  }

  /** Once applied, the same backfill is refused: every task has Items now. */
  lemma SecondApplyIsRefused(plan: Plan, turns: map<string, Turn>, before: seq<TurnItem>, after: seq<TurnItem>)
    requires Ready(plan, turns, before) && forall t :: t in plan ==> t in turns && Filled(after, turns, plan, t)
    ensures !Ready(plan, turns, after)
  {
    assert plan.Keys != {};
    var t :| t in plan;
    if !HasItems(after, t) {
      NoItemsCountZero(after, t, turns[t].id);
    }
  }
}
