/**
 The Project Context tables, what each write request does to them, and the
 frozen fragment manifest of a published Version.
 */
module ContextTables {
  import opened Wrappers
  import opened Ordering
  import Assembly = ContextAssembly
  import Utf8

  type Id = nat

  datatype Draft = Draft(content: string, updatedBy: string, updatedAt: string)

  /** One row of project_context_fragments. */
  datatype FragmentRow = FragmentRow(
    id: string,
    project: string,
    sourceType: string,
    content: string,
    createdAt: string,
    sourceVersion: Option<string>,
    sourceFingerprint: Option<string>,
    sortOrder: int,
    byteBudget: Option<int>)

  /** One element of a stored manifest; Corrupt is anything that is not an object of the right types. */
  datatype Entry =
    | Corrupt
    | Entry(
        id: string,
        sourceType: string,
        sourceVersion: string,
        content: string,
        sortOrder: int,
        byteBudget: Option<int>,
        createdAt: string,
        sourceFingerprint: string)

  datatype Version = Version(
    project: string,
    content: string,
    fingerprint: string,
    manifest: seq<Entry>,
    verified: bool,
    createdBy: string,
    createdAt: string)

  datatype Status = Proposed | Accepted | Rejected
  datatype Candidate = Candidate(project: string, content: string, status: Status, decidedBy: Option<string>,
      reason: Option<string>)

  datatype Snapshot = Snapshot(version: Id, content: string, truncated: bool)
  datatype Task = Task(project: string, workspace: string, prompt: string, version: Option<Id>, snapshot: Option<Id>)
  datatype Submission = Submission(task: string, queued: bool, followsTaskPin: bool, snapshot: Option<Id>)
  datatype Preview = Preview(
    task: string, project: string, version: Id, createdBy: string, proposed: Snapshot, expiresAt: string,
    confirmed: Option<Id>)

  datatype Reply = Reply(requestHash: string, response: Response)
  datatype ReplyKey = ReplyKey(actor: string, scope: Scope, key: string)

  datatype Tables = Tables(
    drafts: map<string, Draft>,
    fragments: seq<FragmentRow>,
    versions: map<Id, Version>,
    active: set<Id>,
    candidates: map<Id, Candidate>,
    workspaces: map<string, string>,
    tasks: map<string, Task>,
    submissions: map<Id, Submission>,
    snapshots: map<Id, Snapshot>,
    previews: map<Id, Preview>,
    replies: map<ReplyKey, Reply>,
    nextId: Id)

  // ---- requests ----

  datatype Scope = DraftSave | ContextPublish | CandidateCreate | CandidateAccept | CandidateReject | FragmentCreate
    | PreviewCreate | ContextConfirm

  datatype Call =
    | SaveDraft(project: string, content: string)
    | Publish(project: string)
    | CreateCandidate(project: string, content: string, sourceTask: string)
    | AcceptCandidate(project: string, candidate: Id)
    | RejectCandidate(project: string, candidate: Id, reason: Option<string>)
    | CreateFragment(project: string, content: string, sourceType: string, sourceVersion: Option<string>,
      sortOrder: int, byteBudget: Option<int>)
    | PreviewUpdate(task: string, project: string)
    | ConfirmUpdate(task: string, project: string, preview: Id)

  function ScopeOf(call: Call): Scope {
    match call
    case SaveDraft(_, _) => DraftSave
    case Publish(_) => ContextPublish
    case CreateCandidate(_, _, _) => CandidateCreate
    case AcceptCandidate(_, _) => CandidateAccept
    case RejectCandidate(_, _, _) => CandidateReject
    case CreateFragment(_, _, _, _, _, _) => FragmentCreate
    case PreviewUpdate(_, _) => PreviewCreate
    case ConfirmUpdate(_, _, _) => ContextConfirm
  }

  datatype Response =
    | DraftSaved(project: string, draft: Draft)
    | VersionPublished(project: string, version: Id, content: string, fingerprint: string, manifest: seq<Entry>)
    | CandidateReply(candidate: Id, row: Candidate)
    | CandidateAccepted(candidate: Id, row: Candidate, merged: Option<Draft>)
    | FragmentCreated(fragment: FragmentRow)
    | Previewed(preview: Id, proposed: Snapshot)
    | Confirmed(task: string, version: Id, snapshot: Id)

  datatype DomainError =
    | UnderMaintenance | NotAuthenticated | Forbidden | NotFound | KeyRequired | KeyConflict
    | DraftRequired | AlreadyRejected | AlreadyAccepted | InvalidFragment | PreviewExpired | AlreadyConfirmed
    | Unreviewed | ManifestInvalid | FenceClosed | AlreadyInitialized

  /** Hashes, the assembler's settings and the row-id spelling. */
  datatype Env = Env(
    fingerprint: string -> string,
    versionFingerprint: (string, seq<Entry>) -> string,
    requestHash: Call -> string,
    expiry: string -> string,
    rowId: Id -> string,
    platform: string,
    byteBudget: nat)

  // ---- freezing and decoding fragments ----

  /** `ORDER BY sort_order, created_at, fragment_id`. */
  predicate RowLe(a: FragmentRow, b: FragmentRow) {
    if a.sortOrder != b.sortOrder then a.sortOrder < b.sortOrder
    else if a.createdAt != b.createdAt then StringLe(a.createdAt, b.createdAt)
    else StringLe(a.id, b.id)
  }

  function InsertRow(row: FragmentRow, rows: seq<FragmentRow>): seq<FragmentRow> {
    if rows == [] || RowLe(row, rows[0]) then [row] + rows
    else [rows[0]] + InsertRow(row, rows[1..])
  }

  /** The project's fragment rows in reading order. */
  function RowsOf(fragments: seq<FragmentRow>, project: string): seq<FragmentRow> {
    if fragments == [] then []
    else
      var before := RowsOf(fragments[..|fragments| - 1], project);
      var last := fragments[|fragments| - 1];
      if last.project == project then InsertRow(last, before) else before
  }

  function NonEmpty(s: Option<string>, fallback: string): string {
    if s.Some? && s.value != "" then s.value else fallback
  }

  function FrozenEntry(fingerprint: string -> string, row: FragmentRow): Entry {
    var digest := NonEmpty(row.sourceFingerprint, fingerprint(row.content));
    Entry(row.id, row.sourceType, NonEmpty(row.sourceVersion, digest), row.content, row.sortOrder, row.byteBudget,
      row.createdAt, digest)
  }

  /** `_freeze_project_fragments`. */
  function Freeze(fingerprint: string -> string, fragments: seq<FragmentRow>, project: string): (r: seq<Entry>)
    ensures |r| == |RowsOf(fragments, project)|
  {
    var rows := RowsOf(fragments, project);
    seq(|rows|, i requires 0 <= i < |rows| => FrozenEntry(fingerprint, rows[i]))
  }

  predicate Readable(fingerprint: string -> string, e: Entry) {
    && e.Entry?
    && e.content != "" && e.id != "" && e.sourceType != "" && e.sourceVersion != ""
    && e.sourceFingerprint != "" && e.createdAt != ""
    && e.sourceFingerprint == fingerprint(e.content)
  }

  function DecodedFragment(e: Entry): Assembly.Fragment
    requires e.Entry?
  {
    Assembly.Fragment(e.id, e.sourceType, e.content, e.byteBudget, Some(e.sourceFingerprint))
  }

  /** `_fragments_for_version`. */
  function Decode(fingerprint: string -> string, v: Version): Result<seq<Assembly.Fragment>, DomainError> {
    if !v.verified then Err(Unreviewed)
    else if exists i :: 0 <= i < |v.manifest| && !Readable(fingerprint, v.manifest[i]) then Err(ManifestInvalid)
    else Ok(seq(|v.manifest|, i requires 0 <= i < |v.manifest| && v.manifest[i].Entry? =>
                  DecodedFragment(v.manifest[i])))
  }

  // ---- assembling a Version for a Task ----

  function SourcesFor(env: Env, v: Version, fragments: seq<Assembly.Fragment>, workspace: string, prompt: string)
    : seq<Assembly.Source>
  {
    [ Assembly.Source("platform_constraints", "Platform Constraints", env.platform, []),
      Assembly.Source("project_brief", "Project Brief", v.content, fragments),
      Assembly.Source("workspace_context", "Workspace Context", workspace, []),
      Assembly.Source("task_request", "Task Request", prompt, []) ]
  }

  function WorkspaceText(db: Tables, workspace: string): string {
    if workspace in db.workspaces then db.workspaces[workspace] else ""
  }

  /** `_assemble_for_task` with an explicit Version: the snapshot it yields. */
  function AssembleFor(env: Env, id: Id, v: Version, workspace: string, prompt: string): Result<Snapshot, DomainError> {
    match Decode(env.fingerprint, v)
    case Err(e) => Err(e)
    case Ok(fragments) =>
      if exists i :: 0 <= i < |fragments| && !Assembly.Acceptable(fragments[i], env.fingerprint)
      then Err(InvalidFragment)
      else
        var sources := SourcesFor(env, v, fragments, workspace, prompt);
        var content := Assembly.Join(Assembly.Fill(Assembly.Chunks(sources), env.byteBudget));
        Ok(Snapshot(id, content, content != Assembly.Join(Assembly.WholeChunks(sources))))
  }

  lemma FourSources(env: Env, v: Version, fragments: seq<Assembly.Fragment>, workspace: string, prompt: string)
    ensures var sources := SourcesFor(env, v, fragments, workspace, prompt);
            && Assembly.SourceTypes(sources) == Assembly.REQUIRED_ORDER
            && (Assembly.AllAcceptable(sources, env.fingerprint) <==>
                  forall i :: 0 <= i < |fragments| ==> Assembly.Acceptable(fragments[i], env.fingerprint))
  {
    var sources := SourcesFor(env, v, fragments, workspace, prompt);
    assert Assembly.SourceTypes(sources) == Assembly.REQUIRED_ORDER;
    assert sources[1].fragments == fragments;
  }

  /** The fragments' texts, one after the other in manifest order. */
  ghost function FragmentTexts(manifest: seq<Entry>): string {
    if manifest == [] then ""
    else
      var last := manifest[|manifest| - 1];
      FragmentTexts(manifest[..|manifest| - 1]) +
        if last.Entry? then "### Context Fragment: " + last.sourceType + "\n" + last.content + "\n\n" else ""
  }

  /** A text under its heading. */
  ghost function Section(heading: string, text: string): string {
    "## " + heading + "\n" + text + "\n\n"
  }

  /** The whole text a Task is given, if no budget cuts it. */
  ghost function TaskText(env: Env, v: Version, workspace: string, prompt: string): string {
    Section("Platform Constraints", env.platform) + Section("Project Brief", v.content) + FragmentTexts(v.manifest)
    + Section("Workspace Context", workspace) + Section("Task Request", prompt)
  }

  /** Some fragment is longer than its own budget. */
  ghost predicate FragmentTooLong(manifest: seq<Entry>) {
    exists i :: 0 <= i < |manifest| && EntryTooLong(manifest[i])
  }

  ghost predicate EntryTooLong(e: Entry) {
    e.Entry? && e.byteBudget.Some? && Utf8.Bytes(e.content) > e.byteBudget.value
  }

  /** The fragments are the manifest's, entry by entry. */
  ghost predicate Decoded(manifest: seq<Entry>, fragments: seq<Assembly.Fragment>) {
    |fragments| == |manifest| && forall i :: 0 <= i < |manifest| ==>
      manifest[i].Entry? && fragments[i] == DecodedFragment(manifest[i])
  }

  lemma DecodeKeepsEntries(fingerprint: string -> string, v: Version)
    requires Decode(fingerprint, v).Ok?
    ensures Decoded(v.manifest, Decode(fingerprint, v).value)
  {
    assert forall i :: 0 <= i < |v.manifest| ==> Readable(fingerprint, v.manifest[i]);
  }

  lemma {:induction false} FragmentsJoin(manifest: seq<Entry>, fragments: seq<Assembly.Fragment>)
    requires Decoded(manifest, fragments)
    ensures Assembly.Join(Assembly.WholeFragments(fragments)) == FragmentTexts(manifest)
  {
    if manifest != [] {
      var n := |manifest| - 1;
      FragmentsJoin(manifest[..n], fragments[..n]);
      assert Assembly.WholeFragments(fragments)[..n] == Assembly.WholeFragments(fragments[..n]);
      assert Assembly.WholeFragments(fragments)[n] == Assembly.RenderedFragment(fragments[n], fragments[n].content);
    }
  }

  lemma JoinThree(a: seq<string>, s: string, b: seq<string>)
    ensures Assembly.Join(a + [s] + b) == Assembly.Join(a) + s + Assembly.Join(b)
  {
    hide Utf8.Encode;
    Assembly.JoinAppend(a + [s], b);
    Assembly.JoinSnoc(a, s);
  }

  lemma WholeSnoc(sources: seq<Assembly.Source>, last: Assembly.Source)
    ensures Assembly.Join(Assembly.WholeChunks(sources + [last])) ==
              Assembly.Join(Assembly.WholeChunks(sources)) + Section(last.heading, last.content) +
              Assembly.Join(Assembly.WholeFragments(last.fragments))
  {
    hide Assembly.WholeFragments, Assembly.Join;
    assert Assembly.RenderedSource(last) == Section(last.heading, last.content);
    assert (sources + [last])[..|sources|] == sources;
    JoinThree(Assembly.WholeChunks(sources), Assembly.RenderedSource(last), Assembly.WholeFragments(last.fragments));
  }

  /** A source without fragments adds its section and nothing else. */
  lemma PlainSnoc(sources: seq<Assembly.Source>, last: Assembly.Source)
    requires last.fragments == []
    ensures Assembly.Join(Assembly.WholeChunks(sources + [last])) ==
              Assembly.Join(Assembly.WholeChunks(sources)) + Section(last.heading, last.content)
  {
    WholeSnoc(sources, last);
    hide Section;
    assert Assembly.WholeFragments(last.fragments) == [];
    var whole := Assembly.Join(Assembly.WholeChunks(sources)) + Section(last.heading, last.content);
    assert whole + "" == whole;
  }

  /** The unbudgeted rendering of the four sources is that text. */
  lemma WholeIsTaskText(env: Env, v: Version, fragments: seq<Assembly.Fragment>, workspace: string, prompt: string)
    requires Decoded(v.manifest, fragments)
    ensures Assembly.Join(Assembly.WholeChunks(SourcesFor(env, v, fragments, workspace, prompt))) ==
              TaskText(env, v, workspace, prompt)
  {
    FragmentsJoin(v.manifest, fragments);
    var s := SourcesFor(env, v, fragments, workspace, prompt);
    assert s == [] + [s[0]] + [s[1]] + [s[2]] + [s[3]];
    hide Section, FragmentTexts, Assembly.Join, Assembly.WholeChunks, Assembly.WholeFragments;
    NoSources();
    PlainSnoc([], s[0]);
    WholeSnoc([] + [s[0]], s[1]);
    PlainSnoc([] + [s[0]] + [s[1]], s[2]);
    PlainSnoc([] + [s[0]] + [s[1]] + [s[2]], s[3]);
    assert "" + Section("Platform Constraints", env.platform) == Section("Platform Constraints", env.platform);
  }

  lemma NoSources()
    ensures Assembly.Join(Assembly.WholeChunks([])) == ""
  {
  }

  lemma CutExactlyWhenTooLong(content: string, budget: int)
    requires budget >= 0
    ensures Utf8.Utf8Prefix(content, budget) != content <==> Utf8.Bytes(content) > budget
  {
    Utf8.PrefixIsFitting(content, budget);
    if Utf8.Bytes(content) <= budget {
      Utf8.FittingWhole(content, budget);
    } else {
      Utf8.FittingFits(content, budget);
    }
  }

  lemma LocalCutsAreTooLong(env: Env, v: Version, fragments: seq<Assembly.Fragment>, workspace: string, prompt: string)
    requires Decoded(v.manifest, fragments)
    requires forall i :: 0 <= i < |fragments| ==> Assembly.Acceptable(fragments[i], env.fingerprint)
    ensures Assembly.LocalCut(SourcesFor(env, v, fragments, workspace, prompt)) <==> FragmentTooLong(v.manifest)
  {
    var sources := SourcesFor(env, v, fragments, workspace, prompt);
    forall j | 0 <= j < |fragments| ensures Assembly.LocalCutAt(fragments, j) <==> EntryTooLong(v.manifest[j]) {
      hide Utf8.Utf8Prefix, Utf8.Bytes;
      assert Assembly.Acceptable(fragments[j], env.fingerprint);
      if fragments[j].byteBudget.Some? {
        CutExactlyWhenTooLong(fragments[j].content, fragments[j].byteBudget.value);
      }
    }
    hide EntryTooLong, Utf8.Bytes;
    if FragmentTooLong(v.manifest) {
      var j :| 0 <= j < |v.manifest| && EntryTooLong(v.manifest[j]);
      assert Assembly.LocalCutAt(sources[1].fragments, j);
    }
  }

  /**
   What a Task is given: its whole text exactly when the text fits the budget and
   no fragment exceeds its own; otherwise something else, and it says so.
   */
  lemma AssembledText(env: Env, id: Id, v: Version, workspace: string, prompt: string)
    requires AssembleFor(env, id, v, workspace, prompt).Ok?
    ensures var s, text := AssembleFor(env, id, v, workspace, prompt).value, TaskText(env, v, workspace, prompt);
            && s.version == id && Utf8.Bytes(s.content) <= env.byteBudget
            && (s.truncated <==> s.content != text)
            && (s.truncated <==> FragmentTooLong(v.manifest) || Utf8.Bytes(text) > env.byteBudget)
  {
    hide Utf8.Bytes, TaskText, Assembly.Chunks, Assembly.WholeChunks, Assembly.Join, Assembly.Fill, Assembly.LocalCut,
         FragmentTooLong, SourcesFor, Assembly.AnyCut;
    DecodeKeepsEntries(env.fingerprint, v);
    var fragments := Decode(env.fingerprint, v).value;
    hide Decode, Decoded;
    var sources := SourcesFor(env, v, fragments, workspace, prompt);
    WholeIsTaskText(env, v, fragments, workspace, prompt);
    LocalCutsAreTooLong(env, v, fragments, workspace, prompt);
    Assembly.TruncatedExactlyWhenDifferent(sources, env.byteBudget);
    Assembly.SourcesRenderedLocally(sources);
    Assembly.CutExactlyWhenTooLong(Assembly.Chunks(sources), env.byteBudget);
    Assembly.FillFits(Assembly.Chunks(sources), env.byteBudget);
  }

  /** `_assemble_for_task` as it runs: decode the Version, then call the assembler. */
  method AssembleForTask(env: Env, id: Id, v: Version, workspace: string, prompt: string)
    returns (r: Result<Snapshot, DomainError>)
    ensures r == AssembleFor(env, id, v, workspace, prompt)
    ensures r.Ok? ==>
              var text := TaskText(env, v, workspace, prompt);
              && (r.value.truncated <==> r.value.content != text)
              && (r.value.truncated <==> FragmentTooLong(v.manifest) || Utf8.Bytes(text) > env.byteBudget)
  {
    hide Assembly.Join, Assembly.Fill, Assembly.Chunks, Assembly.WholeChunks, Assembly.AllAcceptable,
      Assembly.Acceptable, Decode, TaskText, FragmentTooLong, Utf8.Bytes;
    var decoded := Decode(env.fingerprint, v);
    if decoded.Err? {
      return Err(decoded.error);
    }
    FourSources(env, v, decoded.value, workspace, prompt);
    var assembly := Assembly.Assemble(SourcesFor(env, v, decoded.value, workspace, prompt), env.byteBudget,
      env.fingerprint);
    r := if assembly.Ok? then Ok(Snapshot(id, assembly.value.content, assembly.value.truncated))
      else Err(InvalidFragment);
    if r.Ok? {
      AssembledText(env, id, v, workspace, prompt);
    }
  }

  // ---- Draft text ----

  predicate Space(c: char) {
    var n := c as int;
    || 9 <= n <= 13 || 28 <= n <= 32 || n == 0x85 || n == 0xA0 || n == 0x1680
    || 0x2000 <= n <= 0x200A || n == 0x2028 || n == 0x2029 || n == 0x202F || n == 0x205F || n == 0x3000
  }

  function StripRight(s: string): string {
    if s != "" && Space(s[|s| - 1]) then StripRight(s[..|s| - 1]) else s
  }

  function StripLeft(s: string): string {
    if s != "" && Space(s[0]) then StripLeft(s[1..]) else s
  }

  /** `_append_candidate`. */
  function AppendCandidate(draft: string, candidate: string): string {
    if draft == "" then candidate
    else if candidate == "" then draft
    else StripRight(draft) + "\n\n" + StripLeft(candidate)
  }

  // ---- what each request does, once it may ----

  function DraftOf(db: Tables, project: string): Option<Draft> {
    if project in db.drafts then Some(db.drafts[project]) else None
  }

  type Outcome = Result<(Tables, Response), DomainError>

  function SaveDraftEffect(db: Tables, actor: string, now: string, project: string, content: string): Outcome {
    var draft := Draft(content, actor, now);
    Ok((db.(drafts := db.drafts[project := draft]), DraftSaved(project, draft)))
  }

  /** `_publish_verified_version_in_transaction`. */
  function PublishEffect(env: Env, db: Tables, actor: string, now: string, project: string): Outcome {
    if project !in db.drafts then Err(DraftRequired)
    else
      var content := db.drafts[project].content;
      var manifest := Freeze(env.fingerprint, db.fragments, project);
      var version := Version(project, content, env.versionFingerprint(content, manifest), manifest, true, actor, now);
      var others := set v | v in db.active && !(v in db.versions && db.versions[v].project == project);
      Ok((db.(versions := db.versions[db.nextId := version], active := others + {db.nextId}, nextId := db.nextId + 1),
          VersionPublished(project, db.nextId, content, version.fingerprint, manifest)))
  }

  function CreateCandidateEffect(db: Tables, project: string, content: string, sourceTask: string): Outcome {
    if !(sourceTask in db.tasks && db.tasks[sourceTask].project == project) then Err(NotFound)
    else
      var row := Candidate(project, content, Proposed, None, None);
      Ok((db.(candidates := db.candidates[db.nextId := row], nextId := db.nextId + 1), CandidateReply(db.nextId, row)))
  }

  function AcceptEffect(db: Tables, actor: string, now: string, project: string, id: Id): Outcome {
    if !(id in db.candidates && db.candidates[id].project == project) then Err(NotFound)
    else
      var row := db.candidates[id];
      match row.status
      case Rejected => Err(AlreadyRejected)
      case Accepted => Ok((db, CandidateAccepted(id, row, DraftOf(db, project))))
      case Proposed =>
        var current := if project in db.drafts then db.drafts[project].content else "";
        var draft := Draft(AppendCandidate(current, row.content), actor, now);
        var accepted := row.(status := Accepted, decidedBy := Some(actor));
        Ok((db.(drafts := db.drafts[project := draft], candidates := db.candidates[id := accepted]),
            CandidateAccepted(id, accepted, Some(draft))))
  }

  function RejectEffect(db: Tables, actor: string, project: string, id: Id, reason: Option<string>): Outcome {
    if !(id in db.candidates && db.candidates[id].project == project) then Err(NotFound)
    else
      var row := db.candidates[id];
      match row.status
      case Accepted => Err(AlreadyAccepted)
      case Rejected => Ok((db, CandidateReply(id, row)))
      case Proposed =>
        var rejected := row.(status := Rejected, decidedBy := Some(actor), reason := reason);
        Ok((db.(candidates := db.candidates[id := rejected]), CandidateReply(id, rejected)))
  }

  function CreateFragmentEffect(env: Env, db: Tables, now: string, call: Call): Outcome
    requires call.CreateFragment?
  {
    if call.sourceType == "" || (call.byteBudget.Some? && call.byteBudget.value < 0) then Err(InvalidFragment)
    else
      var digest := env.fingerprint(call.content);
      var row := FragmentRow(env.rowId(db.nextId), call.project, call.sourceType, call.content, now,
                             Some(NonEmpty(call.sourceVersion, digest)), Some(digest), call.sortOrder, call.byteBudget);
      Ok((db.(fragments := db.fragments + [row], nextId := db.nextId + 1), FragmentCreated(row)))
  }

  predicate ActiveFor(db: Tables, project: string, v: Id) {
    v in db.active && v in db.versions && db.versions[v].project == project
  }

  /** `_active_version_or_none`, searching the ids below n. */
  function ActiveVersion(db: Tables, project: string, n: Id): (r: Option<Id>)
    ensures r.Some? ==> ActiveFor(db, project, r.value)
    ensures r.None? ==> forall v: Id :: v < n ==> !ActiveFor(db, project, v)
  {
    if n == 0 then None
    else if ActiveFor(db, project, n - 1) then Some(n - 1)
    else ActiveVersion(db, project, n - 1)
  }

  function PreviewEffect(env: Env, db: Tables, actor: string, now: string, task: string, project: string): Outcome {
    if !(task in db.tasks && db.tasks[task].project == project) then Err(NotFound)
    else
      var active := ActiveVersion(db, project, db.nextId);
      if active.None? then Err(NotFound)
      else
        var v := active.value;
        var t := db.tasks[task];
        match AssembleFor(env, v, db.versions[v], WorkspaceText(db, t.workspace), t.prompt)
        case Err(e) => Err(e)
        case Ok(proposed) =>
          var row := Preview(task, project, v, actor, proposed, env.expiry(now), None);
          Ok((db.(previews := db.previews[db.nextId := row], nextId := db.nextId + 1), Previewed(db.nextId, proposed)))
  }

  /** `_confirm_task_context_update` after its checks for authority. */
  function ConfirmEffect(db: Tables, actor: string, now: string, task: string, project: string, id: Id): Outcome {
    if !(task in db.tasks && db.tasks[task].project == project) then Err(NotFound)
    else if !(id in db.previews && db.previews[id].task == task && db.previews[id].project == project
              && db.previews[id].createdBy == actor) then Err(NotFound)
    else
      var preview := db.previews[id];
      if preview.expiresAt != now && StringLe(preview.expiresAt, now) then Err(PreviewExpired)
      else if preview.confirmed.Some? then Err(AlreadyConfirmed)
      else
        var snapshot := db.nextId;
        Ok((db.(snapshots := db.snapshots[snapshot := preview.proposed],
                tasks := db.tasks[task := db.tasks[task].(version := Some(preview.version),
                  snapshot := Some(snapshot))],
                submissions := map s | s in db.submissions ::
                  if db.submissions[s].task == task && db.submissions[s].queued && db.submissions[s].followsTaskPin
                  then db.submissions[s].(snapshot := Some(snapshot)) else db.submissions[s],
                previews := db.previews[id := preview.(confirmed := Some(snapshot))],
                nextId := db.nextId + 1),
            Confirmed(task, preview.version, snapshot)))
  }

  // ---- what Task and Project creation do ----

  /** `_create_snapshot_for_task_context_version_in_transaction`: freeze one Version for a Task. */
  function FreezeEffect(env: Env, db: Tables, project: string, v: Id, workspace: string, prompt: string)
    : Result<(Tables, Id), DomainError>
  {
    if !(v in db.versions && db.versions[v].project == project) then Err(NotFound)
    else
      match AssembleFor(env, v, db.versions[v], WorkspaceText(db, workspace), prompt)
      case Err(e) => Err(e)
      case Ok(snapshot) =>
        Ok((db.(snapshots := db.snapshots[db.nextId := snapshot], nextId := db.nextId + 1), db.nextId))
  }

  /**
   `_create_active_snapshot_for_task_in_transaction`: freeze the active Version,
   or, when its fragments were never verified, a successor published for the purpose.
   */
  function PinEffect(env: Env, db: Tables, actor: string, now: string, project: string, workspace: string,
      prompt: string)
    : Result<(Tables, Id, Id), DomainError>
  {
    var active := ActiveVersion(db, project, db.nextId);
    if active.None? then Err(NotFound)
    else
      var published := if db.versions[active.value].verified then Ok((db, active.value))
        else AutoPublish(env, db, actor, now, project);
      if published.Err? then Err(published.error)
      else
        var frozen := FreezeEffect(env, published.value.0, project, published.value.1, workspace, prompt);
        if frozen.Err? then Err(frozen.error) else Ok((frozen.value.0, frozen.value.1, published.value.1))
  }

  function AutoPublish(env: Env, db: Tables, actor: string, now: string, project: string)
    : Result<(Tables, Id), DomainError>
  {
    match PublishEffect(env, db, actor, now, project)
    case Err(e) => Err(e)
    case Ok(done) => Ok((done.0, db.nextId))
  }

  /** `initialize_project_context`: an empty Draft and a first active Version. */
  function InitializeEffect(env: Env, db: Tables, owner: string, now: string, project: string)
    : Result<(Tables, Id), DomainError>
  {
    if project in db.drafts then Err(AlreadyInitialized)
    else
      var version := Version(project, "", env.versionFingerprint("", []), [], true, owner, now);
      Ok((db.(drafts := db.drafts[project := Draft("", owner, now)], versions := db.versions[db.nextId := version],
              active := db.active + {db.nextId}, nextId := db.nextId + 1), db.nextId))
  }

  function Effect(env: Env, db: Tables, actor: string, now: string, call: Call): Outcome {
    match call
    case SaveDraft(project, content) => SaveDraftEffect(db, actor, now, project, content)
    case Publish(project) => PublishEffect(env, db, actor, now, project)
    case CreateCandidate(project, content, sourceTask) => CreateCandidateEffect(db, project, content, sourceTask)
    case AcceptCandidate(project, candidate) => AcceptEffect(db, actor, now, project, candidate)
    case RejectCandidate(project, candidate, reason) => RejectEffect(db, actor, project, candidate, reason)
    case CreateFragment(_, _, _, _, _, _) => CreateFragmentEffect(env, db, now, call)
    case PreviewUpdate(task, project) => PreviewEffect(env, db, actor, now, task, project)
    case ConfirmUpdate(task, project, preview) => ConfirmEffect(db, actor, now, task, project, preview)
  }
}
