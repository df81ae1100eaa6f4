/**
 What each Project Context request does to the tables, once it is served for
 the first time, and when it is refused.
 */
module ContextRequests {
  import opened Wrappers
  import opened Ordering
  import opened ContextTables
  import opened ContextLifecycle

  /** The request is not answered from a stored reply. */
  ghost predicate FirstServed(env: Env, e: Exchange) {
    Step(env, e) && !Find(env, e.before, e.who, e.call).Replay?
  }

  /**
   No gate stands in the request's way: the caller is known and may, and a key is
   new where one is given or needed.
   */
  ghost predicate Unhindered(e: Exchange) {
    && !e.who.maintenance && e.who.actor != "" && e.who.authorized && e.who.fenceOpen
    && match e.who.key
       case None => !e.call.ConfirmUpdate?
       case Some(key) =>
         e.call.PreviewUpdate? || (key != "" && ReplyKey(e.who.actor, ScopeOf(e.call), key) !in e.before.replies)
  }

  /** What the request says of itself makes sense. */
  ghost predicate Sensible(e: Exchange) {
    && (e.call.CreateCandidate? ==>
          e.call.sourceTask in e.before.tasks && e.before.tasks[e.call.sourceTask].project == e.call.project)
    && (e.call.CreateFragment? ==>
        e.call.sourceType != "" && (e.call.byteBudget == None || e.call.byteBudget.value >= 0))
  }

  lemma Committed(env: Env, e: Exchange)
    requires FirstServed(env, e) && e.result.Ok?
    ensures var done := Effect(env, e.before, e.who.actor, e.who.now, e.call);
            done.Ok? && e.result.value == done.value.1 && e.after == done.value.0.(replies := e.after.replies)
  {
    hide Effect, Admitted;
    EffectKeepsReplies(env, e.before, e.who.actor, e.who.now, e.call);
  }

  lemma SucceedsExactly(env: Env, e: Exchange)
    requires Step(env, e) && Unhindered(e)
    ensures FirstServed(env, e)
    ensures e.result.Ok? <==> Sensible(e) && Effect(env, e.before, e.who.actor, e.who.now, e.call).Ok?
  {
    hide Effect;
  }

  /**
   No request gets past the gates: none during maintenance or without a caller,
   none with an empty key, no confirmation without a key, and nothing new is
   done without authority, past a closed fence, or for a request without sense.
   */
  lemma GatesHold(env: Env, e: Exchange)
    requires Step(env, e) && e.result.Ok?
    ensures !e.who.maintenance && e.who.actor != "" && Sensible(e)
    ensures !e.call.PreviewUpdate? ==> e.who.key != Some("")
    ensures e.call.ConfirmUpdate? ==> e.who.key.Some?
    ensures FirstServed(env, e) ==> e.who.authorized && e.who.fenceOpen
  {
    hide Effect;
  }

  // ---- drafts and candidates ----

  /** Saving a draft stores exactly its text, by whom and when, and touches nothing else. */
  lemma DraftIsSaved(env: Env, e: Exchange)
    requires FirstServed(env, e) && e.call.SaveDraft? && e.result.Ok?
    ensures var p := e.call.project;
            && p in e.after.drafts && e.after.drafts[p].content == e.call.content
            && e.after.drafts[p].updatedBy == e.who.actor && e.after.drafts[p].updatedAt == e.who.now
            && e.result.value == DraftSaved(p, e.after.drafts[p])
            && e.after == e.before.(drafts := e.before.drafts[p := e.after.drafts[p]], replies := e.after.replies)
  {
    hide FirstServed;
    Committed(env, e);
  }

  /** A new candidate is proposed with the given text, under a new id, and touches nothing else. */
  lemma CandidateIsCreated(env: Env, e: Exchange)
    requires FirstServed(env, e) && e.call.CreateCandidate? && e.result.Ok? && Inv(e.before)
    ensures e.result.value.CandidateReply?
    ensures var id := e.result.value.candidate;
            && id !in e.before.candidates && id in e.after.candidates && e.result.value.row == e.after.candidates[id]
            && e.after.candidates[id].project == e.call.project && e.after.candidates[id].content == e.call.content
            && e.after.candidates[id].status == Proposed && e.after.candidates[id].decidedBy == None
            && e.after == e.before.(candidates := e.before.candidates[id := e.after.candidates[id]],
                                    nextId := e.before.nextId + 1, replies := e.after.replies)
  {
    hide FirstServed;
    Committed(env, e);
  }

  /** A rejection settles a proposed candidate, and repeats itself on a rejected one; it touches nothing else. */
  lemma RejectionSettles(env: Env, e: Exchange)
    requires FirstServed(env, e) && e.call.RejectCandidate? && e.result.Ok?
    ensures var id := e.call.candidate;
            && id in e.before.candidates && e.before.candidates[id].project == e.call.project
            && id in e.after.candidates && e.after.candidates[id].status == Rejected
            && e.result.value == CandidateReply(id, e.after.candidates[id])
            && e.after.candidates[id].content == e.before.candidates[id].content
            && (e.before.candidates[id].status == Proposed ==>
                  e.after.candidates[id].decidedBy == Some(e.who.actor)
                    && e.after.candidates[id].reason == e.call.reason)
            && (e.before.candidates[id].status != Proposed ==> e.after.candidates == e.before.candidates)
            && e.after == e.before.(candidates := e.before.candidates[id := e.after.candidates[id]],
                                    replies := e.after.replies)
  {
    hide FirstServed, SaveDraftEffect, PublishEffect, CreateCandidateEffect, AcceptEffect, CreateFragmentEffect,
         PreviewEffect, ConfirmEffect;
    Committed(env, e);
    RejectEffectSettles(e.before, e.who.actor, e.call.project, e.call.candidate, e.call.reason);
    hide RejectEffect;
  }

  lemma RejectEffectSettles(db: Tables, actor: string, project: string, id: Id, reason: Option<string>)
    requires RejectEffect(db, actor, project, id, reason).Ok?
    ensures var (after, reply) := RejectEffect(db, actor, project, id, reason).value;
            && id in db.candidates && db.candidates[id].project == project && id in after.candidates
            && after.candidates[id].status == Rejected && reply == CandidateReply(id, after.candidates[id])
            && after.candidates[id].content == db.candidates[id].content
            && (db.candidates[id].status == Proposed ==>
                  after.candidates[id].decidedBy == Some(actor) && after.candidates[id].reason == reason)
            && (db.candidates[id].status != Proposed ==> after.candidates == db.candidates)
            && after == db.(candidates := db.candidates[id := after.candidates[id]])
  {
    assert id in db.candidates ==> db.candidates[id := db.candidates[id]] == db.candidates;
  }

  /** Accepting a proposed candidate puts its text behind the draft's and touches nothing else. */
  lemma AcceptanceMerges(env: Env, e: Exchange, project: string, id: Id)
    requires FirstServed(env, e) && e.call == AcceptCandidate(project, id) && e.result.Ok?
    requires id in e.before.candidates && e.before.candidates[id].status == Proposed
    ensures project in e.after.drafts && id in e.after.candidates
    ensures Merges(e.after.drafts[project].content,
                   if project in e.before.drafts then e.before.drafts[project].content else "",
                   e.before.candidates[id].content)
    ensures e.after.drafts[project].updatedBy == e.who.actor && e.after.drafts[project].updatedAt == e.who.now
    ensures e.after.candidates[id] == e.before.candidates[id].(status := Accepted, decidedBy := Some(e.who.actor))
    ensures e.result.value == CandidateAccepted(id, e.after.candidates[id], Some(e.after.drafts[project]))
    ensures e.after == e.before.(drafts := e.before.drafts[project := e.after.drafts[project]],
                                 candidates := e.before.candidates[id := e.after.candidates[id]],
                                 replies := e.after.replies)
  {
    hide FirstServed, AppendCandidate, Merges;
    Committed(env, e);
    AppendMerges(if project in e.before.drafts then e.before.drafts[project].content else "",
                 e.before.candidates[id].content);
  }

  /** A permitted decision is refused exactly when there is no such candidate or it was decided the other way. */
  lemma DecisionsRefusedExactly(env: Env, e: Exchange)
    requires Step(env, e) && Unhindered(e) && (e.call.AcceptCandidate? || e.call.RejectCandidate?)
    ensures e.result.Err? <==>
              || e.call.candidate !in e.before.candidates
              || e.before.candidates[e.call.candidate].project != e.call.project
              || e.before.candidates[e.call.candidate].status ==
                   (if e.call.AcceptCandidate? then Rejected else Accepted)
  {
    hide Step, Unhindered, AppendCandidate;
    SucceedsExactly(env, e);
  }

  /** After a rejection the candidate stays as it was rejected, and accepting it fails. */
  lemma RejectedOnce(env: Env, run: seq<Exchange>, i: nat, j: nat)
    requires IsRun(env, run) && i < j < |run|
    requires FirstServed(env, run[i]) && run[i].call.RejectCandidate? && run[i].result.Ok?
    ensures var id := run[i].call.candidate;
            && id in run[i].after.candidates && id in run[j].after.candidates
            && run[j].after.candidates[id] == run[i].after.candidates[id]
            && run[j].after.candidates[id].status == Rejected
    ensures (FirstServed(env, run[j]) && run[j].call.AcceptCandidate?
             && run[j].call.candidate == run[i].call.candidate) ==> run[j].result.Err?
  {
    hide Served, Inv, Find, Between;
    assert Step(env, run[i]) && Step(env, run[j]);
    RejectionSettles(env, run[i]);
    RunKeeps(env, run, i, j);
    if FirstServed(env, run[j]) && run[j].call.AcceptCandidate? && run[j].call.candidate == run[i].call.candidate {
      NoLateAcceptance(env, run[j]);
    }
  }

  lemma NoLateAcceptance(env: Env, e: Exchange)
    requires FirstServed(env, e) && e.call.AcceptCandidate?
    requires e.call.candidate in e.before.candidates && e.before.candidates[e.call.candidate].status == Rejected
    ensures e.result.Err?
  {
    hide FirstServed, AppendCandidate;
    if e.result.Ok? {
      Committed(env, e);
    }
  }

  // ---- previews ----

  /** The preview is the caller's own for this task and project. */
  ghost predicate OwnPreview(e: Exchange)
    requires e.call.ConfirmUpdate?
  {
    && e.call.preview in e.before.previews
    && var p := e.before.previews[e.call.preview];
       p.task == e.call.task && p.project == e.call.project && p.createdBy == e.who.actor
  }

  /**
   A permitted confirmation is refused exactly without the task, or when the
   preview is another's, expired or used.
   */
  lemma ConfirmationRefusedExactly(env: Env, e: Exchange)
    requires Step(env, e) && Unhindered(e) && e.call.ConfirmUpdate?
    ensures e.result.Err? <==>
              || e.call.task !in e.before.tasks || e.before.tasks[e.call.task].project != e.call.project
              || !OwnPreview(e)
              || Before(e.before.previews[e.call.preview].expiresAt, e.who.now)
              || e.before.previews[e.call.preview].confirmed.Some?
  {
    hide Step, Unhindered, Before, StringLe;
    SucceedsExactly(env, e);
    if OwnPreview(e) {
      BeforeExactly(e.before.previews[e.call.preview].expiresAt, e.who.now);
    }
  }

  lemma BeforeExactly(a: string, b: string)
    ensures Before(a, b) <==> a != b && StringLe(a, b)
  {
    hide StringLe;
    StringLeExactly(a, b);
  }

  /**
   A confirmation pins the new snapshot to the task, moves the queued submissions
   that follow the task's pin, marks the preview, and touches nothing else.
   */
  lemma ConfirmationMoves(env: Env, e: Exchange)
    requires FirstServed(env, e) && e.call.ConfirmUpdate? && e.result.Ok? && Inv(e.before)
    ensures e.call.task in e.before.tasks && OwnPreview(e) && e.result.value.Confirmed?
    ensures var p, s, t := e.before.previews[e.call.preview], e.result.value.snapshot, e.call.task;
            && e.result.value == Confirmed(t, p.version, s)
            && s !in e.before.snapshots && e.after.snapshots == e.before.snapshots[s := p.proposed]
            && e.after.tasks == e.before.tasks[t := e.before.tasks[t].(version := Some(p.version), snapshot := Some(s))]
            && e.after.previews == e.before.previews[e.call.preview := p.(confirmed := Some(s))]
            && e.after == e.before.(snapshots := e.after.snapshots, tasks := e.after.tasks,
                                    previews := e.after.previews, submissions := e.after.submissions,
                                    nextId := e.before.nextId + 1, replies := e.after.replies)
    ensures e.after.submissions.Keys == e.before.submissions.Keys
    ensures forall n :: n in e.before.submissions ==>
              var was := e.before.submissions[n];
              e.after.submissions[n] ==
                if was.task == e.call.task && was.queued && was.followsTaskPin
                then was.(snapshot := Some(e.result.value.snapshot)) else was
  {
    hide FirstServed, StringLe;
    Committed(env, e);
  }

  // ---- when the other requests are refused ----

  /**
   A permitted draft save is never refused, a publication only without a draft, a
   creation only if it makes no sense.
   */
  lemma WritesRefusedExactly(env: Env, e: Exchange)
    requires Step(env, e) && Unhindered(e)
    ensures e.call.SaveDraft? ==> e.result.Ok?
    ensures e.call.Publish? ==> (e.result.Err? <==> e.call.project !in e.before.drafts)
    ensures e.call.CreateCandidate? || e.call.CreateFragment? ==> (e.result.Err? <==> !Sensible(e))
  {
    hide Step, Unhindered, Freeze;
    SucceedsExactly(env, e);
  }

  /**
   A permitted preview is refused exactly without the task or an active Version, or
   when that Version does not assemble.
   */
  lemma PreviewRefusedExactly(env: Env, e: Exchange)
    requires Step(env, e) && Unhindered(e) && Inv(e.before) && e.call.PreviewUpdate?
    ensures e.result.Err? <==>
              || e.call.task !in e.before.tasks || e.before.tasks[e.call.task].project != e.call.project
              || (forall v :: !ActiveFor(e.before, e.call.project, v))
              || exists v :: ActiveFor(e.before, e.call.project, v) && NotAssembled(env, e, v)
  {
    hide Step, Unhindered, AssembleFor;
    SucceedsExactly(env, e);
    var active := ActiveVersion(e.before, e.call.project, e.before.nextId);
    forall v, w | ActiveFor(e.before, e.call.project, v) && ActiveFor(e.before, e.call.project, w) ensures v == w {
      assert ActiveTogether(e.before, v, w);
    }
    hide ActiveVersion, Inv;
  }

  ghost predicate NotAssembled(env: Env, e: Exchange, v: Id)
    requires e.call.PreviewUpdate? && e.call.task in e.before.tasks && v in e.before.versions
  {
    var t := e.before.tasks[e.call.task];
    var text := if t.workspace in e.before.workspaces then e.before.workspaces[t.workspace] else "";
    AssembleFor(env, v, e.before.versions[v], text, t.prompt).Err?
  }

  /**
   Pinning a Task fails exactly without an active Version, or when the Version to
   pin does not assemble; that is the active one if it is verified, else its
   successor published from the draft, which must exist.
   */
  lemma PinRefusedExactly(env: Env, db: Tables, actor: string, now: string, project: string, workspace: string,
      prompt: string, v: Id)
    requires Inv(db) && ActiveFor(db, project, v)
    ensures var text := if workspace in db.workspaces then db.workspaces[workspace] else "";
            var refused := PinEffect(env, db, actor, now, project, workspace, prompt).Err?;
            && (db.versions[v].verified ==> (refused <==> AssembleFor(env, v, db.versions[v], text, prompt).Err?))
            && (!db.versions[v].verified ==>
                  (refused <==>
                     || project !in db.drafts
                     || AssembleFor(env, db.nextId, Successor(env, db, actor, now, project), text, prompt).Err?))
  {
    ActiveIsFound(db, project, v);
    if project in db.drafts {
      AutoPublishMakes(env, db, actor, now, project);
    }
    hide ActiveVersion, Inv, AssembleFor, Successor, PublishEffect;
  }

  /** The Version that publishing the draft makes. */
  ghost function Successor(env: Env, db: Tables, actor: string, now: string, project: string): Version
    requires project in db.drafts
  {
    var content, manifest := db.drafts[project].content, Freeze(env.fingerprint, db.fragments, project);
    Version(project, content, env.versionFingerprint(content, manifest), manifest, true, actor, now)
  }

  lemma AutoPublishMakes(env: Env, db: Tables, actor: string, now: string, project: string)
    requires project in db.drafts
    ensures AutoPublish(env, db, actor, now, project).Ok?
    ensures var (after, v) := AutoPublish(env, db, actor, now, project).value;
            && v == db.nextId && v in after.versions && after.workspaces == db.workspaces
            && after.versions[v] == Successor(env, db, actor, now, project) && after.versions[v].project == project
  {
    hide Freeze;
  }

  lemma PinNeedsActive(env: Env, db: Tables, actor: string, now: string, project: string, workspace: string,
      prompt: string)
    requires forall v :: !ActiveFor(db, project, v)
    ensures PinEffect(env, db, actor, now, project, workspace, prompt).Err?
  {
    hide FreezeEffect, AutoPublish;
  }

  // ---- keys ----

  /** Keys of different kinds of requests never meet. */
  lemma ScopesAreDistinct(a: Call, b: Call)
    ensures ScopeOf(a) == ScopeOf(b) ==>
              && (a.SaveDraft? <==> b.SaveDraft?) && (a.Publish? <==> b.Publish?)
              && (a.CreateCandidate? <==> b.CreateCandidate?) && (a.AcceptCandidate? <==> b.AcceptCandidate?)
              && (a.RejectCandidate? <==> b.RejectCandidate?) && (a.CreateFragment? <==> b.CreateFragment?)
              && (a.PreviewUpdate? <==> b.PreviewUpdate?) && (a.ConfirmUpdate? <==> b.ConfirmUpdate?)
  {
  }

  /**
   A stored reply to the same request is given again: to a draft save, a
   publication or a confirmation whatever the caller may still do, to the other
   requests only if they still may.
   */
  lemma ReplaysExactly(env: Env, e: Exchange, id: ReplyKey)
    requires Step(env, e) && KeyOf(e.who, e.call) == Some(id) && id in e.before.replies
    requires e.before.replies[id].requestHash == env.requestHash(e.call) && Admitted(e.before, e.who, e.call)
    ensures e.call.SaveDraft? || e.call.Publish? || e.call.ConfirmUpdate? ==>
        e.result == Ok(e.before.replies[id].response)
    ensures !(e.call.SaveDraft? || e.call.Publish? || e.call.ConfirmUpdate?) ==>
              (e.result == Ok(e.before.replies[id].response) <==> e.who.authorized)
                && (e.result.Ok? ==> e.who.authorized)
  {
    hide Effect, Admitted;
  }

  // ---- fragments and Projects ----

  /** A new fragment is stored behind the others as the request describes it, and nothing else is touched. */
  lemma FragmentIsCreated(env: Env, e: Exchange)
    requires FirstServed(env, e) && e.call.CreateFragment? && e.result.Ok?
    ensures e.result.value.FragmentCreated?
    ensures var row := e.result.value.fragment;
            && row.project == e.call.project && row.content == e.call.content && row.sourceType == e.call.sourceType
            && row.sortOrder == e.call.sortOrder && row.byteBudget == e.call.byteBudget && row.createdAt == e.who.now
            && row.sourceFingerprint == Some(env.fingerprint(e.call.content))
            && e.after == e.before.(fragments := e.before.fragments + [row], nextId := e.before.nextId + 1,
                                    replies := e.after.replies)
  {
    hide FirstServed;
    Committed(env, e);
  }

  /** A new Project can be worked on at once: its first Version is active and a Task can be pinned to it. */
  lemma NewProjectIsRunnable(env: Env, db: Tables, owner: string, now: string, project: string, workspace: string,
      prompt: string)
    requires Inv(db) && NoVersionOf(db, project) && project !in db.drafts
    ensures InitializeEffect(env, db, owner, now, project).Ok?
    ensures var (after, v) := InitializeEffect(env, db, owner, now, project).value;
            && project in after.drafts && after.drafts[project].content == ""
            && ActiveFor(after, project, v) && after.versions[v].content == "" && after.versions[v].manifest == []
            && PinEffect(env, after, owner, now, project, workspace, prompt).Ok?
            && PinEffect(env, after, owner, now, project, workspace, prompt).value.2 == v
  {
    var (after, v) := InitializeEffect(env, db, owner, now, project).value;
    InitializeKeeps(env, db, owner, now, project);
    assert ActiveFor(after, project, v);
    hide Inv, InitializeEffect;
    ActiveIsFound(after, project, v);
    EmptyManifestAssembles(env, v, after.versions[v], WorkspaceText(after, workspace), prompt);
    hide AssembleFor, ActiveVersion;
  }

  lemma ActiveIsFound(db: Tables, project: string, v: Id)
    requires Inv(db) && ActiveFor(db, project, v)
    ensures ActiveVersion(db, project, db.nextId) == Some(v)
  {
    var active := ActiveVersion(db, project, db.nextId);
    assert active.Some?;
    assert ActiveTogether(db, v, active.value);
  }

  lemma EmptyManifestAssembles(env: Env, id: Id, v: Version, workspace: string, prompt: string)
    requires v.verified && v.manifest == []
    ensures AssembleFor(env, id, v, workspace, prompt).Ok?
  {
  }
}
