/**
 The Project Context service: gates, idempotency keys and the commit of one
 request, and what any sequence of requests keeps.
 */
module ContextLifecycle {
  import opened Wrappers
  import opened Ordering
  import opened ContextTables
  import Assembly = ContextAssembly

  // ---- one request ----

  /** Who asks, under which key, when, and what the surrounding checks decide. */
  datatype Caller = Caller(
    actor: string, key: Option<string>, now: string, maintenance: bool, authorized: bool, fenceOpen: bool)

  /** Publish and draft saves and confirmations look for a stored reply before asking for authority. */
  predicate ReplayNeedsAuthority(call: Call) {
    !call.SaveDraft? && !call.Publish? && !call.ConfirmUpdate?
  }

  predicate TakesKey(call: Call) { !call.PreviewUpdate? }

  /** Checks on the request itself that come before everything else. */
  predicate Admissible(db: Tables, call: Call) {
    match call
    case CreateCandidate(project, _, sourceTask) => sourceTask in db.tasks && db.tasks[sourceTask].project == project
    case CreateFragment(_, _, sourceType, _, _, byteBudget) =>
      sourceType != "" && (byteBudget.Some? ==> byteBudget.value >= 0)
    case _ => true
  }

  datatype Lookup = NoKey | EmptyKey | Fresh(id: ReplyKey) | Replay(response: Response) | Conflict

  /** `_idempotent_result`. */
  function Find(env: Env, db: Tables, who: Caller, call: Call): Lookup {
    if !TakesKey(call) || (who.key.None? && !call.ConfirmUpdate?) then NoKey
    else if who.key.None? || who.key.value == "" then EmptyKey
    else
      var id := ReplyKey(who.actor, ScopeOf(call), who.key.value);
      if id !in db.replies then Fresh(id)
      else if db.replies[id].requestHash != env.requestHash(call) then Conflict
      else Replay(db.replies[id].response)
  }

  predicate Admitted(db: Tables, who: Caller, call: Call) {
    !who.maintenance && who.actor != "" && Admissible(db, call)
  }

  /**
   What a request may do: nothing when it fails; nothing but answer again when
   its key is known; otherwise exactly its effect, stored under its key.
   */
  ghost predicate Served(
    env: Env, before: Tables, who: Caller, call: Call, after: Tables, r: Result<Response, DomainError>)
  {
    && (r.Err? ==> after == before)
    && (r.Ok? ==> Admitted(before, who, call))
    && match Find(env, before, who, call)
       case EmptyKey => r.Err?
       case Conflict => r.Err?
       case Replay(response) =>
         && after == before && (r.Ok? ==> r.value == response)
         && (r.Ok? <==> Admitted(before, who, call) && (ReplayNeedsAuthority(call) ==> who.authorized))
       case NoKey =>
         && (r.Ok? <==> May(env, before, who, call))
         && (r.Ok? ==> Effect(env, before, who.actor, who.now, call) == Ok((after, r.value)))
       case Fresh(id) =>
         && (r.Ok? <==> May(env, before, who, call))
         && (r.Ok? ==>
               var done := Effect(env, before, who.actor, who.now, call);
               && done.Ok? && r.value == done.value.1
               && after == done.value.0.(replies := before.replies[id := Reply(env.requestHash(call), r.value)]))
  }

  ghost predicate May(env: Env, db: Tables, who: Caller, call: Call) {
    && Admitted(db, who, call) && who.authorized && who.fenceOpen
    && Effect(env, db, who.actor, who.now, call).Ok?
  }

  class ContextService {
    const env: Env
    /** The committed tables. */
    var db: Tables

    constructor (env: Env, db: Tables)
      ensures this.env == env && this.db == db
    {
      this.env := env;
      this.db := db;
    }

    /** One public write request, from BEGIN IMMEDIATE to COMMIT or to the closed connection. */
    method Serve(who: Caller, call: Call) returns (r: Result<Response, DomainError>)
      modifies this
      ensures Served(env, old(db), who, call, db, r)
    {
      hide Effect, Admissible, ReplayNeedsAuthority, Find;
      if !Admissible(db, call) {
        return Err(if call.CreateCandidate? then NotFound else InvalidFragment);
      }
      if who.maintenance { return Err(UnderMaintenance); }
      if who.actor == "" { return Err(NotAuthenticated); }
      if ReplayNeedsAuthority(call) && !who.authorized { return Err(Forbidden); }
      var found := Find(env, db, who, call);
      match found {
        case EmptyKey => return Err(KeyRequired);
        case Conflict => return Err(if who.authorized then KeyConflict else Forbidden);
        case Replay(response) => return Ok(response);
        case _ =>
      }
      if !who.authorized { return Err(Forbidden); }
      var work := db;
      var done := Effect(env, work, who.actor, who.now, call);
      if done.Err? { return Err(done.error); }
      work := done.value.0;
      if found.Fresh? {
        EffectKeepsReplies(env, db, who.actor, who.now, call);
        work := work.(replies := work.replies[found.id := Reply(env.requestHash(call), done.value.1)]);
      }
      if !who.fenceOpen { return Err(FenceClosed); }
      db := work;
      r := Ok(done.value.1);
    }

    /** `_pin_active_context`: one Task is pinned to the active Version, or nothing happens. */
    method PinActiveContext(task: string, project: string, owner: string, now: string, maintenance: bool,
        fenceOpen: bool)
      returns (r: Result<Id, DomainError>)
      modifies this
      ensures r.Ok? <==>
                && !maintenance && fenceOpen && task in old(db).tasks && old(db).tasks[task].project == project
                && PinEffect(env, old(db), owner, now, project, old(db).tasks[task].workspace,
                    old(db).tasks[task].prompt).Ok?
      ensures r.Err? ==> db == old(db)
      ensures r.Ok? ==> task in old(db).tasks && task in db.tasks && db.tasks[task].snapshot == Some(r.value)
      ensures r.Ok? ==> forall t :: t in old(db).tasks && t != task ==> t in db.tasks && db.tasks[t] == old(db).tasks[t]
      ensures r.Ok? ==> var t := old(db).tasks[task];
                        BackgroundStep(env, PinActive(owner, now, project, t.workspace, t.prompt), old(db), db)
      ensures r.Ok? && Inv(old(db)) ==> exists v :: PinnedTo(env, old(db), task, v, r.value, db)
    {
      hide PinEffect, PinnedTo, Inv;
      if maintenance { return Err(UnderMaintenance); }
      if !(task in db.tasks && db.tasks[task].project == project) { return Err(NotFound); }
      var t := db.tasks[task];
      var done := PinEffect(env, db, owner, now, project, t.workspace, t.prompt);
      if done.Err? { return Err(done.error); }
      if !fenceOpen { return Err(FenceClosed); }
      var (work, snapshot, version) := done.value;
      PinLeavesTasks(env, db, owner, now, project, t.workspace, t.prompt);
      ghost var before := db;
      db := work.(tasks := work.tasks[task := t.(version := Some(version), snapshot := Some(snapshot))]);
      r := Ok(snapshot);
      if Inv(before) {
        PinPins(env, before, owner, now, task);
        assert PinnedTo(env, before, task, version, snapshot, db);
      }
    }
  }

  /** Task `task` came to name Version `v`, active and verified, and the new snapshot `s` assembled from it. */
  ghost predicate PinnedTo(env: Env, before: Tables, task: string, v: Id, s: Id, after: Tables) {
    task in before.tasks
    && (var t := before.tasks[task];
        && after.tasks == before.tasks[task := t.(version := Some(v), snapshot := Some(s))]
        && ActiveFor(after, t.project, v) && after.versions[v].verified
        && s !in before.snapshots && s in after.snapshots
        && (var text := if t.workspace in before.workspaces then before.workspaces[t.workspace] else "";
            AssembleFor(env, v, after.versions[v], text, t.prompt) == Ok(after.snapshots[s])))
  }

  lemma PinPins(env: Env, db: Tables, owner: string, now: string, task: string)
    requires Inv(db) && task in db.tasks
    requires var t := db.tasks[task]; PinEffect(env, db, owner, now, t.project, t.workspace, t.prompt).Ok?
    ensures var t := db.tasks[task];
            var (work, s, v) := PinEffect(env, db, owner, now, t.project, t.workspace, t.prompt).value;
            var pinned := t.(version := Some(v), snapshot := Some(s));
            PinnedTo(env, db, task, v, s, work.(tasks := work.tasks[task := pinned]))
  {
    hide PinEffect, Inv, AssembleFor;
    var t := db.tasks[task];
    PinLeavesTasks(env, db, owner, now, t.project, t.workspace, t.prompt);
    PinUsesVerified(env, db, owner, now, t.project, t.workspace, t.prompt);
  }

  /** Freezing a Version adds one snapshot, what the Version assembles to, and nothing else. */
  lemma FreezeAdds(env: Env, db: Tables, project: string, v: Id, workspace: string, prompt: string)
    requires FreezeEffect(env, db, project, v, workspace, prompt).Ok?
    ensures var (after, s) := FreezeEffect(env, db, project, v, workspace, prompt).value;
            && v in db.versions && s == db.nextId && s in after.snapshots
            && after == db.(snapshots := after.snapshots, nextId := db.nextId + 1)
            && AssembleFor(env, v, db.versions[v], WorkspaceText(db, workspace), prompt) == Ok(after.snapshots[s])
  {
    hide AssembleFor;
  }

  /** A publication adds one verified Version with the draft's text, the only active one of its project. */
  lemma PublishAdds(env: Env, db: Tables, actor: string, now: string, project: string)
    requires AutoPublish(env, db, actor, now, project).Ok?
    ensures var (after, v) := AutoPublish(env, db, actor, now, project).value;
            && v == db.nextId && project in db.drafts && ActiveFor(after, project, v)
            && after.versions[v].verified && after.versions[v].content == db.drafts[project].content
            && after.tasks == db.tasks && after.workspaces == db.workspaces && after.snapshots == db.snapshots
            && after.nextId == db.nextId + 1
  {
    hide Freeze;
  }

  lemma PinLeavesTasks(env: Env, db: Tables, actor: string, now: string, project: string, workspace: string,
      prompt: string)
    requires PinEffect(env, db, actor, now, project, workspace, prompt).Ok?
    ensures PinEffect(env, db, actor, now, project, workspace, prompt).value.0.tasks == db.tasks
  {
    hide FreezeEffect, AutoPublish, ActiveVersion;
    var v := ActiveVersion(db, project, db.nextId).value;
    if db.versions[v].verified {
      FreezeAdds(env, db, project, v, workspace, prompt);
    } else {
      PublishAdds(env, db, actor, now, project);
      var (published, w) := AutoPublish(env, db, actor, now, project).value;
      FreezeAdds(env, published, project, w, workspace, prompt);
    }
  }

  lemma EffectKeepsReplies(env: Env, db: Tables, actor: string, now: string, call: Call)
    ensures var done := Effect(env, db, actor, now, call); done.Ok? ==> done.value.0.replies == db.replies
  {
  }

  // ---- what every request keeps ----

  ghost predicate ActiveTogether(db: Tables, v: Id, w: Id) {
    && v in db.active && w in db.active && v in db.versions && w in db.versions
    && db.versions[v].project == db.versions[w].project
  }

  /** At most one Version of a project is active, and new rows get new ids. */
  ghost predicate Inv(db: Tables) {
    && (forall v :: v in db.active ==> v in db.versions)
    && (forall v, w :: ActiveTogether(db, v, w) ==> v == w)
    && (forall v :: v in db.versions ==> v < db.nextId)
    && (forall c :: c in db.candidates ==> c < db.nextId)
    && (forall s :: s in db.snapshots ==> s < db.nextId)
    && (forall p :: p in db.previews ==> p < db.nextId)
  }

  /**
   Versions, snapshots and stored replies never change, a decided candidate stays
   as it was decided, and a preview only ever gains its confirmation.
   */
  ghost predicate Kept(before: Tables, after: Tables) {
    && (forall v :: v in before.versions ==> v in after.versions && after.versions[v] == before.versions[v])
    && (forall s :: s in before.snapshots ==> s in after.snapshots && after.snapshots[s] == before.snapshots[s])
    && (forall k :: k in before.replies ==> k in after.replies && after.replies[k] == before.replies[k])
    && (forall c :: c in before.candidates ==>
          && c in after.candidates
          && after.candidates[c].project == before.candidates[c].project
          && after.candidates[c].content == before.candidates[c].content
          && (before.candidates[c].status != Proposed ==> after.candidates[c] == before.candidates[c]))
    && (forall p :: p in before.previews ==>
          && p in after.previews
          && after.previews[p].(confirmed := None) == before.previews[p].(confirmed := None)
          && (before.previews[p].confirmed.Some? ==> after.previews[p] == before.previews[p]))
  }

  /** Nothing about Versions changes. */
  lemma SameVersionsKeep(before: Tables, after: Tables)
    requires Inv(before) && after.versions == before.versions && after.active == before.active
    requires after.nextId >= before.nextId
    requires forall c :: c in after.candidates ==> c < after.nextId
    requires forall s :: s in after.snapshots ==> s < after.nextId
    requires forall p :: p in after.previews ==> p < after.nextId
    ensures Inv(after)
  {
    assert forall v, w :: ActiveTogether(after, v, w) ==> ActiveTogether(before, v, w);
  }

  lemma PublishKeeps(env: Env, db: Tables, actor: string, now: string, project: string)
    requires Inv(db) && PublishEffect(env, db, actor, now, project).Ok?
    ensures var after := PublishEffect(env, db, actor, now, project).value.0; Inv(after) && Kept(db, after)
  {
    hide Freeze;
    var after := PublishEffect(env, db, actor, now, project).value.0;
    assert db.nextId !in db.versions;
    forall v, w | ActiveTogether(after, v, w) ensures v == w {
      if v != db.nextId && w != db.nextId {
        assert ActiveTogether(db, v, w);
      }
    }
  }

  lemma PreviewKeeps(env: Env, db: Tables, actor: string, now: string, task: string, project: string)
    requires Inv(db) && PreviewEffect(env, db, actor, now, task, project).Ok?
    ensures var after := PreviewEffect(env, db, actor, now, task, project).value.0; Inv(after) && Kept(db, after)
  {
    hide AssembleFor, WorkspaceText, ActiveVersion;
    SameVersionsKeep(db, PreviewEffect(env, db, actor, now, task, project).value.0);
  }

  lemma CreateCandidateKeeps(db: Tables, project: string, content: string, sourceTask: string)
    requires Inv(db) && CreateCandidateEffect(db, project, content, sourceTask).Ok?
    ensures var after := CreateCandidateEffect(db, project, content, sourceTask).value.0; Inv(after) && Kept(db, after)
  {
    SameVersionsKeep(db, CreateCandidateEffect(db, project, content, sourceTask).value.0);
  }

  /** Deciding one proposed candidate. */
  lemma DecidingKeeps(before: Tables, after: Tables, id: Id)
    requires Inv(before) && id in before.candidates && before.candidates[id].status == Proposed
    requires id in after.candidates && after.candidates == before.candidates[id := after.candidates[id]]
    requires after.candidates[id].project == before.candidates[id].project
    requires after.candidates[id].content == before.candidates[id].content
    requires after.versions == before.versions && after.active == before.active && after.nextId == before.nextId
    requires after.snapshots == before.snapshots && after.replies == before.replies && after.previews == before.previews
    ensures Inv(after) && Kept(before, after)
  {
    assert after.candidates.Keys == before.candidates.Keys;
    SameVersionsKeep(before, after);
  }

  lemma AcceptKeeps(db: Tables, actor: string, now: string, project: string, id: Id)
    requires Inv(db) && AcceptEffect(db, actor, now, project, id).Ok?
    ensures var after := AcceptEffect(db, actor, now, project, id).value.0; Inv(after) && Kept(db, after)
  {
    hide AppendCandidate, Inv, Kept;
    if db.candidates[id].status == Proposed {
      DecidingKeeps(db, AcceptEffect(db, actor, now, project, id).value.0, id);
    } else {
      KeptReflexive(db);
    }
  }

  lemma RejectKeeps(db: Tables, actor: string, project: string, id: Id, reason: Option<string>)
    requires Inv(db) && RejectEffect(db, actor, project, id, reason).Ok?
    ensures var after := RejectEffect(db, actor, project, id, reason).value.0; Inv(after) && Kept(db, after)
  {
    hide Inv, Kept;
    if db.candidates[id].status == Proposed {
      DecidingKeeps(db, RejectEffect(db, actor, project, id, reason).value.0, id);
    } else {
      KeptReflexive(db);
    }
  }

  lemma ConfirmKeeps(db: Tables, actor: string, now: string, task: string, project: string, id: Id)
    requires Inv(db) && ConfirmEffect(db, actor, now, task, project, id).Ok?
    ensures var after := ConfirmEffect(db, actor, now, task, project, id).value.0; Inv(after) && Kept(db, after)
  {
    SameVersionsKeep(db, ConfirmEffect(db, actor, now, task, project, id).value.0);
  }

  lemma OtherKeeps(env: Env, db: Tables, actor: string, now: string, call: Call)
    requires call.SaveDraft? || call.CreateFragment?
    requires Inv(db) && Effect(env, db, actor, now, call).Ok?
    ensures var after := Effect(env, db, actor, now, call).value.0; Inv(after) && Kept(db, after)
  {
    SameVersionsKeep(db, Effect(env, db, actor, now, call).value.0);
  }

  lemma EffectKeeps(env: Env, db: Tables, actor: string, now: string, call: Call)
    requires Inv(db) && Effect(env, db, actor, now, call).Ok?
    ensures var after := Effect(env, db, actor, now, call).value.0; Inv(after) && Kept(db, after)
  {
    hide Inv, Kept, PublishEffect, PreviewEffect, ConfirmEffect, CreateFragmentEffect, SaveDraftEffect, AcceptEffect,
      RejectEffect, CreateCandidateEffect;
    match call
    case Publish(project) => PublishKeeps(env, db, actor, now, project);
    case PreviewUpdate(task, project) => PreviewKeeps(env, db, actor, now, task, project);
    case ConfirmUpdate(task, project, preview) => ConfirmKeeps(db, actor, now, task, project, preview);
    case CreateCandidate(project, content, sourceTask) => CreateCandidateKeeps(db, project, content, sourceTask);
    case AcceptCandidate(project, candidate) => AcceptKeeps(db, actor, now, project, candidate);
    case RejectCandidate(project, candidate, reason) => RejectKeeps(db, actor, project, candidate, reason);
    case SaveDraft(_, _) => OtherKeeps(env, db, actor, now, call);
    case CreateFragment(_, _, _, _, _, _) => OtherKeeps(env, db, actor, now, call);
  }

  lemma StoringKeeps(before: Tables, changed: Tables, id: ReplyKey, reply: Reply)
    requires Inv(changed) && Kept(before, changed) && changed.replies == before.replies && id !in before.replies
    ensures var after := changed.(replies := before.replies[id := reply]); Inv(after) && Kept(before, after)
  {
    var after := changed.(replies := before.replies[id := reply]);
    assert forall v, w :: ActiveTogether(after, v, w) ==> ActiveTogether(changed, v, w);
  }

  lemma ServedKeeps(env: Env, before: Tables, who: Caller, call: Call, after: Tables, r: Result<Response, DomainError>)
    requires Inv(before) && Served(env, before, who, call, after, r)
    ensures Inv(after) && Kept(before, after)
  {
    hide Effect, Admitted, Inv, Kept;
    KeptReflexive(before);
    var found := Find(env, before, who, call);
    if r.Ok? && !found.Replay? {
      EffectKeeps(env, before, who.actor, who.now, call);
      EffectKeepsReplies(env, before, who.actor, who.now, call);
      if found.Fresh? {
        var changed := Effect(env, before, who.actor, who.now, call).value.0;
        StoringKeeps(before, changed, found.id, Reply(env.requestHash(call), r.value));
      }
    }
  }

  // ---- what goes on between requests ----

  /**
   Work of the other services: Tasks, Workspaces and submissions come, change and
   go; a Task is pinned to the active or to a chosen Version; a Project is created.
   */
  datatype Background =
    | Elsewhere
    | PinActive(actor: string, now: string, project: string, workspace: string, prompt: string)
    | PinChosen(project: string, version: Id, workspace: string, prompt: string)
    | NewProject(project: string, owner: string, now: string)

  /** Only Tasks, Workspaces and submissions differ. */
  ghost predicate OnlyElsewhere(a: Tables, b: Tables) {
    b == a.(tasks := b.tasks, workspaces := b.workspaces, submissions := b.submissions)
  }

  ghost predicate NoVersionOf(db: Tables, project: string) {
    forall v :: v in db.versions ==> db.versions[v].project != project
  }

  ghost predicate BackgroundStep(env: Env, work: Background, a: Tables, b: Tables) {
    match work
    case Elsewhere => OnlyElsewhere(a, b)
    case PinActive(actor, now, project, workspace, prompt) =>
      var done := PinEffect(env, a, actor, now, project, workspace, prompt);
      done.Ok? && OnlyElsewhere(done.value.0, b)
    case PinChosen(project, version, workspace, prompt) =>
      var done := FreezeEffect(env, a, project, version, workspace, prompt);
      done.Ok? && OnlyElsewhere(done.value.0, b)
    case NewProject(project, owner, now) =>
      var done := InitializeEffect(env, a, owner, now, project);
      NoVersionOf(a, project) && done.Ok? && OnlyElsewhere(done.value.0, b)
  }

  lemma ElsewhereKeeps(a: Tables, b: Tables)
    requires Inv(a) && OnlyElsewhere(a, b)
    ensures Inv(b) && Kept(a, b)
  {
    SameVersionsKeep(a, b);
  }

  lemma FreezeKeeps(env: Env, db: Tables, project: string, v: Id, workspace: string, prompt: string)
    requires Inv(db) && FreezeEffect(env, db, project, v, workspace, prompt).Ok?
    ensures var after := FreezeEffect(env, db, project, v, workspace, prompt).value.0; Inv(after) && Kept(db, after)
  {
    hide AssembleFor;
    SameVersionsKeep(db, FreezeEffect(env, db, project, v, workspace, prompt).value.0);
  }

  lemma PinKeeps(env: Env, db: Tables, actor: string, now: string, project: string, workspace: string, prompt: string)
    requires Inv(db) && PinEffect(env, db, actor, now, project, workspace, prompt).Ok?
    ensures var after := PinEffect(env, db, actor, now, project, workspace, prompt).value.0;
            Inv(after) && Kept(db, after)
  {
    hide Inv, Kept, FreezeEffect, PublishEffect;
    var v := ActiveVersion(db, project, db.nextId).value;
    if db.versions[v].verified {
      FreezeKeeps(env, db, project, v, workspace, prompt);
    } else {
      PublishKeeps(env, db, actor, now, project);
      var published := PublishEffect(env, db, actor, now, project).value.0;
      FreezeKeeps(env, published, project, db.nextId, workspace, prompt);
      KeptTransitive(db, published, FreezeEffect(env, published, project, db.nextId, workspace, prompt).value.0);
    }
  }

  lemma InitializeKeeps(env: Env, db: Tables, owner: string, now: string, project: string)
    requires Inv(db) && NoVersionOf(db, project) && InitializeEffect(env, db, owner, now, project).Ok?
    ensures var after := InitializeEffect(env, db, owner, now, project).value.0; Inv(after) && Kept(db, after)
  {
    var after := InitializeEffect(env, db, owner, now, project).value.0;
    forall v, w | ActiveTogether(after, v, w) ensures v == w {
      if v != db.nextId && w != db.nextId {
        assert ActiveTogether(db, v, w);
      }
    }
  }

  lemma BackgroundKeeps(env: Env, work: Background, a: Tables, b: Tables)
    requires Inv(a) && BackgroundStep(env, work, a, b)
    ensures Inv(b) && Kept(a, b)
  {
    hide Inv, Kept, PinEffect, FreezeEffect, InitializeEffect, OnlyElsewhere;
    var middle := a;
    match work {
      case Elsewhere =>
        KeptReflexive(a);
      case PinActive(actor, now, project, workspace, prompt) =>
        PinKeeps(env, a, actor, now, project, workspace, prompt);
        middle := PinEffect(env, a, actor, now, project, workspace, prompt).value.0;
      case PinChosen(project, version, workspace, prompt) =>
        FreezeKeeps(env, a, project, version, workspace, prompt);
        middle := FreezeEffect(env, a, project, version, workspace, prompt).value.0;
      case NewProject(project, owner, now) =>
        InitializeKeeps(env, a, owner, now, project);
        middle := InitializeEffect(env, a, owner, now, project).value.0;
    }
    ElsewhereKeeps(middle, b);
    KeptTransitive(a, middle, b);
  }

  /** Any amount of background work leads from a to b. */
  ghost predicate Between(env: Env, a: Tables, b: Tables) {
    exists path, works :: LeadsTo(env, path, works, a, b)
  }

  ghost predicate LeadsTo(env: Env, path: seq<Tables>, works: seq<Background>, a: Tables, b: Tables) {
    && |path| == |works| + 1 && path[0] == a && path[|works|] == b
    && forall i :: 0 <= i < |works| ==> BackgroundStep(env, works[i], path[i], path[i + 1])
  }

  lemma {:induction false} PathKeeps(env: Env, path: seq<Tables>, works: seq<Background>, n: nat)
    requires |path| == |works| + 1 && n <= |works| && Inv(path[0])
    requires forall i :: 0 <= i < |works| ==> BackgroundStep(env, works[i], path[i], path[i + 1])
    ensures Inv(path[n]) && Kept(path[0], path[n])
  {
    hide Inv, Kept, BackgroundStep;
    if n == 0 {
      KeptReflexive(path[0]);
    } else {
      PathKeeps(env, path, works, n - 1);
      assert BackgroundStep(env, works[n - 1], path[n - 1], path[n - 1 + 1]);
      BackgroundKeeps(env, works[n - 1], path[n - 1], path[n]);
      KeptTransitive(path[0], path[n - 1], path[n]);
    }
  }

  lemma BetweenKeeps(env: Env, a: Tables, b: Tables)
    requires Inv(a) && Between(env, a, b)
    ensures Inv(b) && Kept(a, b)
  {
    hide Inv, Kept, BackgroundStep;
    var path, works :| LeadsTo(env, path, works, a, b);
    PathKeeps(env, path, works, |works|);
  }

  /**
   A Task is pinned to a verified Version that is the project's active one: the
   one that was active before, if it was verified, else one published from the
   draft; and the pinned snapshot is what that Version assembles to.
   */
  lemma PinUsesVerified(env: Env, db: Tables, actor: string, now: string, project: string, workspace: string,
      prompt: string)
    requires Inv(db) && PinEffect(env, db, actor, now, project, workspace, prompt).Ok?
    ensures var (after, s, v) := PinEffect(env, db, actor, now, project, workspace, prompt).value;
            && ActiveFor(after, project, v) && after.versions[v].verified && s !in db.snapshots && s in after.snapshots
            && (var text := if workspace in db.workspaces then db.workspaces[workspace] else "";
                AssembleFor(env, v, after.versions[v], text, prompt) == Ok(after.snapshots[s]))
            && (v in db.versions ==> after.versions == db.versions && after.active == db.active)
            && (v !in db.versions ==> project in db.drafts && after.versions[v].content == db.drafts[project].content
                                      && forall w :: ActiveFor(db, project, w) ==> !db.versions[w].verified)
  {
    hide FreezeEffect, AutoPublish, ActiveVersion, AssembleFor;
    var v := ActiveVersion(db, project, db.nextId).value;
    if db.versions[v].verified {
      FreezeAdds(env, db, project, v, workspace, prompt);
    } else {
      PublishAdds(env, db, actor, now, project);
      var (published, w) := AutoPublish(env, db, actor, now, project).value;
      FreezeAdds(env, published, project, w, workspace, prompt);
      assert forall u :: ActiveFor(db, project, u) ==> ActiveTogether(db, v, u);
    }
  }

  // ---- every sequence of requests ----

  datatype Exchange = Exchange(
    before: Tables, who: Caller, call: Call, after: Tables, result: Result<Response, DomainError>)

  ghost predicate IsRun(env: Env, run: seq<Exchange>) {
    && (run != [] ==> Inv(run[0].before))
    && (forall i :: 0 <= i < |run| ==> Step(env, run[i]))
    && (forall i :: 0 <= i < |run| - 1 ==> Between(env, run[i].after, run[i + 1].before))
  }

  ghost predicate Step(env: Env, e: Exchange) {
    Served(env, e.before, e.who, e.call, e.after, e.result)
  }

  lemma KeptTransitive(a: Tables, b: Tables, c: Tables)
    requires Kept(a, b) && Kept(b, c)
    ensures Kept(a, c)
  {
  }

  lemma {:induction false} RunKeepsInv(env: Env, run: seq<Exchange>, i: nat)
    requires IsRun(env, run) && i < |run|
    ensures Inv(run[i].before) && Inv(run[i].after) && Kept(run[i].before, run[i].after)
  {
    hide Inv, Kept, Served, Between;
    if i > 0 {
      RunKeepsInv(env, run, i - 1);
      assert Between(env, run[i - 1].after, run[i - 1 + 1].before);
      BetweenKeeps(env, run[i - 1].after, run[i].before);
    }
    assert Step(env, run[i]);
    ServedKeeps(env, run[i].before, run[i].who, run[i].call, run[i].after, run[i].result);
  }

  /**
   A published Version is never altered, a snapshot neither, and at most one
   Version of a project is active, in every state of every run.
   */
  lemma {:induction false} RunKeeps(env: Env, run: seq<Exchange>, i: nat, j: nat)
    requires IsRun(env, run) && i <= j < |run|
    ensures Kept(run[i].before, run[j].before) && Kept(run[i].after, run[j].after) && Kept(run[i].before, run[j].after)
    ensures i < j ==> Kept(run[i].after, run[j].before)
    ensures Inv(run[j].before) && Inv(run[j].after)
    decreases j
  {
    hide Inv, Kept, Served, Step, Between;
    RunKeepsInv(env, run, j);
    if i == j {
      KeptReflexive(run[j].before);
      KeptReflexive(run[j].after);
    } else {
      RunKeeps(env, run, i, j - 1);
      assert Between(env, run[j - 1].after, run[j - 1 + 1].before);
      BetweenKeeps(env, run[j - 1].after, run[j].before);
      KeptTransitive(run[i].after, run[j - 1].after, run[j].before);
      KeptTransitive(run[i].before, run[j - 1].after, run[j].before);
      KeptTransitive(run[i].after, run[j].before, run[j].after);
      KeptTransitive(run[i].before, run[j].before, run[j].after);
    }
  }

  lemma KeptReflexive(db: Tables)
    ensures Kept(db, db)
  {
  }

  // ---- exactly once per key ----

  /** The stored-reply key a request runs under, if it has one. */
  function KeyOf(who: Caller, call: Call): Option<ReplyKey> {
    if TakesKey(call) && who.key.Some? && who.key.value != ""
    then Some(ReplyKey(who.actor, ScopeOf(call), who.key.value))
    else None
  }

  lemma SuccessIsStored(env: Env, e: Exchange, id: ReplyKey)
    requires Step(env, e) && KeyOf(e.who, e.call) == Some(id) && e.result.Ok?
    ensures id in e.after.replies && e.after.replies[id] == Reply(env.requestHash(e.call), e.result.value)
  {
    hide Effect, Admitted, May;
  }

  lemma KnownKeyOnlyAnswers(env: Env, e: Exchange, id: ReplyKey)
    requires Step(env, e) && KeyOf(e.who, e.call) == Some(id) && id in e.before.replies
    ensures e.after == e.before
    ensures e.before.replies[id].requestHash != env.requestHash(e.call) ==> e.result.Err?
    ensures e.result.Ok? ==> e.result.value == e.before.replies[id].response
  {
    hide Effect, Admitted, May;
  }

  /**
   All successful requests under one actor, scope and key give the first answer,
   only the first changes anything, and a request with another hash is refused,
   whatever happened to drafts, fragments or candidates in between.
   */
  lemma ExactlyOncePerKey(env: Env, run: seq<Exchange>, i: nat, j: nat, id: ReplyKey)
    requires IsRun(env, run) && i < j < |run| && run[i].result.Ok?
    requires KeyOf(run[i].who, run[i].call) == Some(id) && KeyOf(run[j].who, run[j].call) == Some(id)
    ensures run[j].after == run[j].before
    ensures run[j].result.Ok? ==> run[j].result == run[i].result
    ensures env.requestHash(run[j].call) != env.requestHash(run[i].call) ==> run[j].result.Err?
  {
    hide Served, Inv, KeyOf;
    assert Step(env, run[i]) && Step(env, run[j]);
    SuccessIsStored(env, run[i], id);
    RunKeeps(env, run, i, j);
    KnownKeyOnlyAnswers(env, run[j], id);
  }

  // ---- Versions ----

  lemma OneActiveVersion(env: Env, run: seq<Exchange>, i: nat, project: string, v: Id, w: Id)
    requires IsRun(env, run) && i < |run|
    requires ActiveFor(run[i].after, project, v) && ActiveFor(run[i].after, project, w)
    ensures v == w
  {
    RunKeepsInv(env, run, i);
    assert ActiveTogether(run[i].after, v, w);
  }

  /** Assembling a Version gives the same snapshot however much is drafted or published later. */
  lemma AssemblyIsStable(env: Env, run: seq<Exchange>, i: nat, j: nat, v: Id, workspace: string, prompt: string)
    requires IsRun(env, run) && i <= j < |run| && v in run[i].after.versions
    ensures v in run[j].after.versions
    ensures AssembleFor(env, v, run[j].after.versions[v], workspace, prompt) ==
              AssembleFor(env, v, run[i].after.versions[v], workspace, prompt)
  {
    hide AssembleFor;
    RunKeeps(env, run, i, j);
  }

  /** The publish that does the work: the draft and the frozen fragments become the one active Version. */
  lemma PublishActivates(env: Env, e: Exchange)
    requires Step(env, e) && Inv(e.before) && e.call.Publish? && e.result.Ok?
    requires Find(env, e.before, e.who, e.call).Fresh? || Find(env, e.before, e.who, e.call).NoKey?
    ensures var project := e.call.project;
            && e.result.value.VersionPublished? && project in e.before.drafts
            && var v := e.result.value.version;
               && v !in e.before.versions && v in e.after.versions
               && (forall w :: ActiveFor(e.after, project, w) <==> w == v)
               && (forall other, w :: other != project ==>
                   (ActiveFor(e.after, other, w) <==> ActiveFor(e.before, other, w)))
               && e.after.versions[v].content == e.before.drafts[project].content == e.result.value.content
               && e.after.versions[v].manifest == Freeze(env.fingerprint, e.before.fragments, project)
               && e.after.versions[v].verified && e.after.versions[v].project == project
               && e.after.versions[v].createdBy == e.who.actor && e.after.versions[v].createdAt == e.who.now
               && e.after.versions[v].fingerprint == e.result.value.fingerprint ==
                    env.versionFingerprint(e.after.versions[v].content, e.after.versions[v].manifest)
               && e.after == e.before.(versions := e.before.versions[v := e.after.versions[v]],
                                       active := e.after.active,
                                       nextId := e.before.nextId + 1, replies := e.after.replies)
  {
    hide Freeze;
  }

  // ---- candidates and previews ----

  lemma ReplayChangesNothing(env: Env, e: Exchange)
    requires Step(env, e) && Find(env, e.before, e.who, e.call).Replay?
    ensures e.after == e.before
  {
    hide Find, Effect;
  }

  lemma AcceptanceSettles(env: Env, e: Exchange, project: string, id: Id)
    requires Step(env, e) && e.call == AcceptCandidate(project, id) && !Find(env, e.before, e.who, e.call).Replay?
    ensures e.result.Ok? ==> id in e.after.candidates && e.after.candidates[id].status == Accepted
    ensures id in e.before.candidates && e.before.candidates[id].status == Accepted ==>
        e.after.drafts == e.before.drafts
  {
    hide AppendCandidate, Find, PublishEffect, PreviewEffect, ConfirmEffect, CreateFragmentEffect, SaveDraftEffect,
         CreateCandidateEffect, RejectEffect;
  }

  lemma {:induction false} StripRightDropsSpaces(s: string)
    ensures StripRight(s) <= s && forall i :: |StripRight(s)| <= i < |s| ==> Space(s[i])
    ensures StripRight(s) != "" ==> !Space(StripRight(s)[|StripRight(s)| - 1])
  {
    hide Space;
    if s != "" && Space(s[|s| - 1]) {
      StripRightDropsSpaces(s[..|s| - 1]);
    }
  }

  lemma {:induction false} StripLeftDropsSpaces(s: string)
    ensures |StripLeft(s)| <= |s| && s[|s| - |StripLeft(s)|..] == StripLeft(s)
    ensures forall i :: 0 <= i < |s| - |StripLeft(s)| ==> Space(s[i])
    ensures StripLeft(s) != "" ==> !Space(StripLeft(s)[0])
  {
    hide Space;
    if s != "" && Space(s[0]) {
      var rest, kept := s[1..], StripLeft(s[1..]);
      StripLeftDropsSpaces(rest);
      assert s[|s| - |kept|..] == rest[|rest| - |kept|..];
      forall i | 0 <= i < |s| - |kept| ensures Space(s[i]) {
        assert i > 0 ==> s[i] == rest[i - 1];
      }
    }
  }

  /**
   One text first, the other last, an empty line between them if neither is
   empty; then all white space where they meet goes, and nothing else.
   */
  ghost predicate Merges(merged: string, first: string, second: string) {
    exists k, n :: MergesAt(merged, first, second, k, n)
  }

  ghost predicate MergesAt(merged: string, first: string, second: string, k: nat, n: nat) {
    && k <= |first| && n <= |second|
    && (forall i :: k <= i < |first| ==> Space(first[i])) && (forall i :: 0 <= i < |second| - n ==> Space(second[i]))
    && if first == "" || second == "" then k == |first| && n == |second| && merged == first + second
       else
         && merged == first[..k] + "\n\n" + second[|second| - n..]
         && (k > 0 ==> !Space(first[k - 1])) && (n > 0 ==> !Space(second[|second| - n]))
  }

  lemma JoinedMerges(first: string, second: string, kept: string, rest: string)
    requires kept <= first && forall i :: |kept| <= i < |first| ==> Space(first[i])
    requires |rest| <= |second| && second[|second| - |rest|..] == rest
    requires forall i :: 0 <= i < |second| - |rest| ==> Space(second[i])
    requires first != "" && second != ""
    requires (kept != "" ==> !Space(kept[|kept| - 1])) && (rest != "" ==> !Space(rest[0]))
    ensures Merges(kept + "\n\n" + rest, first, second)
  {
    hide Space;
    var k, n := |kept|, |rest|;
    assert first[..k] == kept;
    assert MergesAt(kept + "\n\n" + rest, first, second, k, n);
  }

  lemma AppendMerges(draft: string, candidate: string)
    ensures Merges(AppendCandidate(draft, candidate), draft, candidate)
  {
    hide Space, StripLeft, StripRight;
    if draft == "" {
      assert "" + candidate == candidate;
      assert MergesAt(candidate, draft, candidate, 0, |candidate|);
    } else if candidate == "" {
      assert draft + "" == draft;
      assert MergesAt(draft, draft, candidate, |draft|, 0);
    } else {
      hide Merges;
      StripRightDropsSpaces(draft);
      StripLeftDropsSpaces(candidate);
      JoinedMerges(draft, candidate, StripRight(draft), StripLeft(candidate));
    }
  }

  /** A preview proposes what the active Version assembles to for the task, and pins nothing yet. */
  lemma PreviewProposes(env: Env, e: Exchange)
    requires Step(env, e) && Inv(e.before) && e.call.PreviewUpdate? && e.result.Ok?
    ensures e.result.value.Previewed? && e.call.task in e.before.tasks
    ensures e.after.tasks == e.before.tasks && e.after.snapshots == e.before.snapshots
    ensures e.after.submissions == e.before.submissions
    ensures var p, t := e.result.value.preview, e.before.tasks[e.call.task];
            && p !in e.before.previews && p in e.after.previews && e.after.previews[p].confirmed == None
            && e.after.previews[p].proposed == e.result.value.proposed
            && e.after.previews[p].task == e.call.task && e.after.previews[p].project == e.call.project == t.project
            && e.after.previews[p].createdBy == e.who.actor && e.after.previews[p].expiresAt == env.expiry(e.who.now)
            && var v := e.after.previews[p].version;
               && ActiveFor(e.before, e.call.project, v)
               && var text := if t.workspace in e.before.workspaces then e.before.workspaces[t.workspace] else "";
                  AssembleFor(env, v, e.before.versions[v], text, t.prompt) == Ok(e.result.value.proposed)
  {
    hide AssembleFor, ActiveVersion, PublishEffect, ConfirmEffect, CreateFragmentEffect, SaveDraftEffect,
      CreateCandidateEffect,
         AcceptEffect, RejectEffect;
  }

  lemma NoLateRejection(env: Env, e: Exchange, id: Id)
    requires Step(env, e) && e.call.RejectCandidate? && e.call.candidate == id
    requires !Find(env, e.before, e.who, e.call).Replay?
    requires id in e.before.candidates && e.before.candidates[id].status == Accepted
    ensures e.result.Err?
  {
    hide Find, PublishEffect, PreviewEffect, ConfirmEffect, CreateFragmentEffect, SaveDraftEffect,
      CreateCandidateEffect,
         AcceptEffect;
  }


  /** A candidate's text enters the draft once, and a rejection comes too late after it. */
  lemma AcceptedOnce(env: Env, run: seq<Exchange>, i: nat, j: nat, project: string, id: Id)
    requires IsRun(env, run) && i < j < |run|
    requires run[i].call == AcceptCandidate(project, id) && run[i].result.Ok?
    requires !Find(env, run[i].before, run[i].who, run[i].call).Replay?
    ensures run[j].call == AcceptCandidate(project, id) ==> run[j].after.drafts == run[j].before.drafts
    ensures (run[j].call.RejectCandidate? && run[j].call.candidate == id
             && !Find(env, run[j].before, run[j].who, run[j].call).Replay?) ==> run[j].result.Err?
  {
    hide Served, Inv, Find;
    assert Step(env, run[i]) && Step(env, run[j]);
    AcceptanceSettles(env, run[i], project, id);
    RunKeeps(env, run, i, j);
    assert id in run[j].before.candidates && run[j].before.candidates[id].status == Accepted;
    if Find(env, run[j].before, run[j].who, run[j].call).Replay? {
      ReplayChangesNothing(env, run[j]);
    } else if run[j].call == AcceptCandidate(project, id) {
      AcceptanceSettles(env, run[j], project, id);
    } else if run[j].call.RejectCandidate? && run[j].call.candidate == id {
      NoLateRejection(env, run[j], id);
    }
  }

  lemma ConfirmationPins(env: Env, e: Exchange)
    requires Step(env, e) && e.call.ConfirmUpdate? && e.result.Ok? && !Find(env, e.before, e.who, e.call).Replay?
    ensures var c := e.call;
            && e.result.value.Confirmed? && c.preview in e.before.previews
            && e.before.previews[c.preview].confirmed.None?
            && c.task in e.after.tasks && e.after.tasks[c.task].snapshot == Some(e.result.value.snapshot)
            && e.result.value.snapshot in e.after.snapshots
            && e.after.snapshots[e.result.value.snapshot] == e.before.previews[c.preview].proposed
            && c.preview in e.after.previews && e.after.previews[c.preview].confirmed.Some?
  {
    hide Find, PublishEffect, PreviewEffect, CreateFragmentEffect, SaveDraftEffect, CreateCandidateEffect,
      AcceptEffect, RejectEffect;
  }

  lemma NoSecondConfirmation(env: Env, e: Exchange)
    requires Step(env, e) && e.call.ConfirmUpdate? && !Find(env, e.before, e.who, e.call).Replay?
    requires e.call.preview in e.before.previews && e.before.previews[e.call.preview].confirmed.Some?
    ensures e.result.Err?
  {
    hide Find;
    if e.result.Ok? {
      ConfirmationPins(env, e);
    }
  }

  /** A confirmation pins exactly what was previewed, and a preview is confirmed at most once. */
  lemma ConfirmedOnce(env: Env, run: seq<Exchange>, i: nat, j: nat)
    requires IsRun(env, run) && i < j < |run| && run[i].call.ConfirmUpdate? && run[i].result.Ok?
    requires !Find(env, run[i].before, run[i].who, run[i].call).Replay?
    ensures var c, r := run[i].call, run[i].result.value;
            && r.Confirmed? && c.preview in run[i].before.previews && c.task in run[i].after.tasks
            && run[i].after.tasks[c.task].snapshot == Some(r.snapshot)
            && r.snapshot in run[j].after.snapshots
            && run[j].after.snapshots[r.snapshot] == run[i].before.previews[c.preview].proposed
    ensures (run[j].call.ConfirmUpdate? && run[j].call.preview == run[i].call.preview
             && !Find(env, run[j].before, run[j].who, run[j].call).Replay?) ==> run[j].result.Err?
  {
    hide Served, Inv, Find;
    assert Step(env, run[i]) && Step(env, run[j]);
    ConfirmationPins(env, run[i]);
    RunKeeps(env, run, i, j);
    if run[j].call.ConfirmUpdate? && run[j].call.preview == run[i].call.preview
       && !Find(env, run[j].before, run[j].who, run[j].call).Replay? {
      NoSecondConfirmation(env, run[j]);
    }
  }

  // ---- freezing and decoding ----

  lemma {:induction false} InsertRowMembers(row: FragmentRow, rows: seq<FragmentRow>)
    ensures multiset(InsertRow(row, rows)) == multiset(rows) + multiset{row}
  {
    if rows != [] && !RowLe(row, rows[0]) {
      InsertRowMembers(row, rows[1..]);
      assert rows == [rows[0]] + rows[1..];
    }
  }

  function Select(fragments: seq<FragmentRow>, project: string): seq<FragmentRow> {
    if fragments == [] then []
    else
      var before, last := Select(fragments[..|fragments| - 1], project), fragments[|fragments| - 1];
      if last.project == project then before + [last] else before
  }

  /** `ORDER BY sort_order, created_at, fragment_id`: the first of the three that differs decides. */
  lemma RowLeExactly(a: FragmentRow, b: FragmentRow)
    ensures RowLe(a, b) <==>
              || a.sortOrder < b.sortOrder
              || (a.sortOrder == b.sortOrder && Before(a.createdAt, b.createdAt))
              || (a.sortOrder == b.sortOrder && a.createdAt == b.createdAt && (a.id == b.id || Before(a.id, b.id)))
  {
    hide StringLe;
    StringLeExactly(a.createdAt, b.createdAt);
    StringLeExactly(a.id, b.id);
  }

  lemma RowLeIsTotal(a: FragmentRow, b: FragmentRow)
    ensures RowLe(a, b) || RowLe(b, a)
  {
    StringLeIsTotalOrder();
  }

  lemma RowLeIsTransitive(a: FragmentRow, b: FragmentRow, c: FragmentRow)
    requires RowLe(a, b) && RowLe(b, c)
    ensures RowLe(a, c)
  {
    StringLeIsTotalOrder();
  }

  lemma {:induction false} InsertRowSorted(row: FragmentRow, rows: seq<FragmentRow>)
    requires Sorted(RowLe, rows)
    ensures Sorted(RowLe, InsertRow(row, rows))
  {
    hide RowLe;
    if rows == [] {
    } else if RowLe(row, rows[0]) {
      forall i | 0 < i < |rows| ensures RowLe(row, rows[i]) {
        RowLeIsTransitive(row, rows[0], rows[i]);
      }
    } else {
      RowLeIsTotal(row, rows[0]);
      InsertRowSorted(row, rows[1..]);
      InsertRowMembers(row, rows[1..]);
      var rest := InsertRow(row, rows[1..]);
      forall i | 0 <= i < |rest| ensures RowLe(rows[0], rest[i]) {
        assert rest[i] in multiset(rest);
        assert rest[i] == row || rest[i] in rows[1..];
      }
    }
  }

  /** The frozen order: exactly the project's rows, in reading order. */
  lemma {:induction false} RowsAreTheProjectsSorted(fragments: seq<FragmentRow>, project: string)
    ensures Sorted(RowLe, RowsOf(fragments, project))
    ensures multiset(RowsOf(fragments, project)) == multiset(Select(fragments, project))
  {
    hide RowLe;
    if fragments != [] {
      RowsAreTheProjectsSorted(fragments[..|fragments| - 1], project);
      var last := fragments[|fragments| - 1];
      InsertRowSorted(last, RowsOf(fragments[..|fragments| - 1], project));
      InsertRowMembers(last, RowsOf(fragments[..|fragments| - 1], project));
    }
  }

  /** What create_fragment always writes: everything but the content is non-empty, the fingerprint is the content's. */
  predicate WrittenByService(fingerprint: string -> string, row: FragmentRow) {
    && row.id != "" && row.sourceType != "" && row.createdAt != ""
    && row.sourceFingerprint == Some(fingerprint(row.content)) && fingerprint(row.content) != ""
    && row.sourceVersion.Some? && row.sourceVersion.value != ""
  }

  /** A row that survives freezing: nothing empty, and no stored fingerprint other than the content's own. */
  predicate Sound(fingerprint: string -> string, row: FragmentRow) {
    && row.content != "" && row.id != "" && row.sourceType != "" && row.createdAt != ""
    && fingerprint(row.content) != ""
    && NonEmpty(row.sourceFingerprint, fingerprint(row.content)) == fingerprint(row.content)
  }

  function LiveFragment(fingerprint: string -> string, row: FragmentRow): Assembly.Fragment {
    Assembly.Fragment(row.id, row.sourceType, row.content, row.byteBudget, Some(fingerprint(row.content)))
  }

  /**
   Decoding a frozen manifest gives back the project's fragments, in order,
   exactly when every one of them is sound.
   */
  lemma FrozenDecodesExactly(fingerprint: string -> string, fragments: seq<FragmentRow>, project: string, v: Version)
    requires v.verified && v.manifest == Freeze(fingerprint, fragments, project)
    ensures var rows := RowsOf(fragments, project);
            Decode(fingerprint, v).Ok? <==> forall i :: 0 <= i < |rows| ==> Sound(fingerprint, rows[i])
    ensures var rows := RowsOf(fragments, project);
            Decode(fingerprint, v).Ok? ==>
              && |Decode(fingerprint, v).value| == |rows|
              && forall i :: 0 <= i < |rows| ==> Decode(fingerprint, v).value[i] == LiveFragment(fingerprint, rows[i])
  {
    var rows := RowsOf(fragments, project);
    hide RowsOf;
    forall i | 0 <= i < |rows|
      ensures v.manifest[i] == FrozenEntry(fingerprint, rows[i])
      ensures Readable(fingerprint, v.manifest[i]) <==> Sound(fingerprint, rows[i])
    {
    }
    hide Sound;
    if Decode(fingerprint, v).Ok? {
      forall i | 0 <= i < |rows| ensures Sound(fingerprint, rows[i]) {
        assert Readable(fingerprint, v.manifest[i]);
      }
    }
  }

  /**
   For fragments created through the service that means: exactly when none of
   them is empty.  An empty one, which may be created, makes the Version
   unreadable for good.
   */
  lemma FrozenDecodesExactlyWhenNonEmpty(
    fingerprint: string -> string, fragments: seq<FragmentRow>, project: string, v: Version)
    requires v.verified && v.manifest == Freeze(fingerprint, fragments, project)
    requires forall row :: row in RowsOf(fragments, project) ==> WrittenByService(fingerprint, row)
    ensures Decode(fingerprint, v).Ok? <==> forall row :: row in RowsOf(fragments, project) ==> row.content != ""
  {
    var rows := RowsOf(fragments, project);
    FrozenDecodesExactly(fingerprint, fragments, project, v);
    hide RowsOf, Decode, Freeze;
    forall i | 0 <= i < |rows| ensures Sound(fingerprint, rows[i]) <==> rows[i].content != "" {
      assert rows[i] in rows;
    }
  }

  /** Freezing copies every row, in order, with its own fingerprint and version or the content's. */
  lemma FrozenEntriesKeepRows(fingerprint: string -> string, fragments: seq<FragmentRow>, project: string)
    ensures var entries, rows := Freeze(fingerprint, fragments, project), RowsOf(fragments, project);
            && |entries| == |rows|
            && forall i :: 0 <= i < |rows| ==>
                 var e, row := entries[i], rows[i];
                 && e.Entry? && e.id == row.id && e.sourceType == row.sourceType && e.content == row.content
                 && e.sortOrder == row.sortOrder && e.byteBudget == row.byteBudget && e.createdAt == row.createdAt
                 && (row.sourceFingerprint.Some? && row.sourceFingerprint.value != "" ==>
                       e.sourceFingerprint == row.sourceFingerprint.value)
                 && (row.sourceFingerprint == None ==> e.sourceFingerprint == fingerprint(row.content))
                 && (row.sourceVersion.Some? && row.sourceVersion.value != "" ==>
                     e.sourceVersion == row.sourceVersion.value)
                 && (row.sourceVersion == None ==> e.sourceVersion == e.sourceFingerprint)
  {
    hide RowsOf;
  }

  /** The smallest such case: one empty fragment, frozen into a verified Version. */
  lemma EmptyFragmentIsUnreadable()
    ensures var digest := (text: string) => "digest";
            var row := FragmentRow("fragment-1", "p", "note", "", "2026-01-01", Some("v"), Some("digest"), 0, None);
            var v := Version("p", "brief", "f", Freeze(digest, [row], "p"), true, "u", "2026-01-01");
            WrittenByService(digest, row) && Decode(digest, v) == Err(ManifestInvalid)
  {
    var digest := (text: string) => "digest";
    var row := FragmentRow("fragment-1", "p", "note", "", "2026-01-01", Some("v"), Some("digest"), 0, None);
    assert RowsOf([row][..0], "p") == [];
    assert RowsOf([row], "p") == [row];
    assert Freeze(digest, [row], "p")[0] == FrozenEntry(digest, row);
    assert !Readable(digest, Freeze(digest, [row], "p")[0]);
  }

  /** A fragment created through the service meets that description. */
  lemma CreatedFragmentIsWritten(env: Env, db: Tables, now: string, call: Call)
    requires call.CreateFragment? && CreateFragmentEffect(env, db, now, call).Ok?
    requires now != "" && env.rowId(db.nextId) != "" && env.fingerprint(call.content) != ""
    ensures var after := CreateFragmentEffect(env, db, now, call).value.0;
            && after.fragments == db.fragments + [after.fragments[|db.fragments|]]
            && WrittenByService(env.fingerprint, after.fragments[|db.fragments|])
            && after.fragments[|db.fragments|].content == call.content
            && var row := after.fragments[|db.fragments|];
               && row.project == call.project && row.sourceType == call.sourceType && row.createdAt == now
               && row.sortOrder == call.sortOrder && row.byteBudget == call.byteBudget
               && (call.sourceVersion.Some? && call.sourceVersion.value != "" ==>
                   row.sourceVersion == call.sourceVersion)
  {
  }
}
