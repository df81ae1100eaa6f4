/**
 Publishing the staged roots of one restore under a journal.

 The durable part is a volume: the journal file, and for every root whether its
 private candidate directory and its public target directory exist.  A control
 state says what the running process does next.  Every rename, removal and
 journal revision is one step; between any two steps the process may crash, and
 every operation may fail, before its effect or after it.
 */
module RestorePromotion {

  /** A directory: not there, whole as verified, or half deleted. */
  datatype Slot = Absent | Intact | Gutted

  datatype Status = Staged | Promoting | Promoted
  datatype Phase = PhasePrepared | PhasePromoting | PhaseCompleted
  datatype Journal = NoJournal | Journal(phase: Phase, status: seq<Status>)

  datatype Volume = Volume(journal: Journal, candidates: seq<Slot>, targets: seq<Slot>)

  /**
   Failures that strike after an operation took effect and before the code has
   taken note of it: an interrupt between a rename and the list append that
   records it, and a failed directory sync after the journal's final unlink.
   */
  datatype Config = Config(roots: nat, interruptAfterRename: bool, failAfterUnlink: bool)

  datatype Control =
    | Idle
    // restore_backup, forward
    | Create
    | Announce(i: nat)
    | Rename(i: nat)
    | Record(i: nat)
    | Finish
    | Unlink
    // restore_backup, exception handler
    | Unwind(k: nat, created: bool)
    | Discard(k: nat, created: bool)
    | Drop(created: bool)
    // _recover_pending_restore_promotion
    | RecoverUndo(moved: seq<nat>)
    | RecoverDiscard(k: nat)
    | RecoverDrop
    | RecoverComplete

  datatype State = State(vol: Volume, control: Control)

  // ---- operations on the volume ----

  function Repeat<T>(n: nat, x: T): seq<T> {
    seq(n, _ => x)
  }

  predicate Sized(c: Config, v: Volume) {
    && |v.candidates| == |v.targets| == c.roots
    && (v.journal.Journal? ==> |v.journal.status| == c.roots)
  }

  function Mark(v: Volume, i: nat, status: Status): Volume
    requires v.journal.Journal? && i < |v.journal.status|
  {
    v.(journal := Journal(PhasePromoting, v.journal.status[i := status]))
  }

  /** `os.replace(candidate, target)`. */
  function Publish(v: Volume, i: nat): Volume
    requires i < |v.candidates| && i < |v.targets|
  {
    v.(candidates := v.candidates[i := Absent], targets := v.targets[i := v.candidates[i]])
  }

  /** `os.replace(target, candidate)`. */
  function Withdraw(v: Volume, i: nat): Volume
    requires i < |v.candidates| && i < |v.targets|
  {
    v.(candidates := v.candidates[i := v.targets[i]], targets := v.targets[i := Absent])
  }

  /** `shutil.rmtree(candidate, ignore_errors=True)`: gone, half gone or untouched. */
  predicate RemovedTree(v: Volume, k: nat, w: Volume)
    requires k < |v.candidates|
  {
    || w == v
    || (v.candidates[k] != Absent &&
        (w == v.(candidates := v.candidates[k := Absent]) || w == v.(candidates := v.candidates[k := Gutted])))
  }

  // ---- what recovery reads off the volume ----

  datatype Verdict = Completed | RollBack(moved: seq<nat>) | Ambiguous

  predicate StagedPair(v: Volume, i: nat)
    requires i < |v.candidates| && i < |v.targets|
  {
    v.candidates[i] != Absent && v.targets[i] == Absent
  }

  predicate MovedPair(v: Volume, i: nat)
    requires i < |v.candidates| && i < |v.targets|
  {
    v.candidates[i] == Absent && v.targets[i] != Absent
  }

  predicate ReadablePair(v: Volume, i: nat)
    requires i < |v.candidates| && i < |v.targets|
  {
    StagedPair(v, i) || MovedPair(v, i)
  }

  function MovedUpTo(v: Volume, k: nat): (moved: seq<nat>)
    requires k <= |v.candidates| && k <= |v.targets|
    ensures forall i: nat :: i in moved <==> i < k && MovedPair(v, i)
  {
    if k == 0 then []
    else if MovedPair(v, k - 1) then MovedUpTo(v, k - 1) + [k - 1]
    else MovedUpTo(v, k - 1)
  }

  function Classify(c: Config, v: Volume): Verdict
    requires Sized(c, v)
  {
    if exists i: nat :: i < c.roots && !ReadablePair(v, i) then Ambiguous
    else
      var moved := MovedUpTo(v, c.roots);
      if |moved| == c.roots then Completed else RollBack(moved)
  }

  // ---- one step ----

  /** An operation with effect w: done, or failed before or after the effect. */
  predicate Attempt(s: State, w: Volume, next: Control, failed: Control, t: State) {
    t == State(w, next) || t == State(s.vol, failed) || t == State(w, failed)
  }

  predicate IdleStep(c: Config, s: State, t: State)
    requires Sized(c, s.vol)
  {
    if s.vol.journal.NoJournal? then
      // staging is refused while a target exists
      && s.vol.targets == Repeat(c.roots, Absent)
      && t == State(s.vol.(candidates := Repeat(c.roots, Intact)), Create)
    else
      match Classify(c, s.vol)
      case Ambiguous => t == s
      case Completed => t == s.(control := RecoverComplete)
      case RollBack(moved) => t == s.(control := RecoverUndo(moved))
  }

  predicate ForwardStep(c: Config, s: State, t: State)
    requires Sized(c, s.vol)
  {
    var v := s.vol;
    match s.control
    case Create =>
      if v.journal.Journal? then t == State(v, Unwind(0, false))
      else
        var w := v.(journal := Journal(PhasePrepared, Repeat(c.roots, Staged)));
        Attempt(s, w, if c.roots == 0 then Finish else Announce(0), Unwind(0, false), t)
    case Announce(i) =>
      i < c.roots && v.journal.Journal? && Attempt(s, Mark(v, i, Promoting), Rename(i), Unwind(i, true), t)
    case Rename(i) =>
      && i < c.roots
      && (|| t == State(Publish(v, i), Record(i))
          || t == State(v, Unwind(i, true))
          || (c.interruptAfterRename && t == State(Publish(v, i), Unwind(i, true))))
    case Record(i) =>
      && i < c.roots && v.journal.Journal?
      && Attempt(s, Mark(v, i, Promoted), if i + 1 < c.roots then Announce(i + 1) else Finish, Unwind(i + 1, true), t)
    case Finish =>
      v.journal.Journal? && Attempt(s, v.(journal := v.journal.(phase := PhaseCompleted)), Unlink,
        Unwind(c.roots, true), t)
    case Unlink =>
      || t == State(v.(journal := NoJournal), Idle)
      || t == State(v, Unwind(c.roots, true))
      || (c.failAfterUnlink && t == State(v.(journal := NoJournal), Unwind(c.roots, true)))
    case _ => false
  }

  predicate HandlerStep(c: Config, s: State, t: State)
    requires Sized(c, s.vol)
  {
    var v := s.vol;
    match s.control
    case Unwind(k, created) =>
      if k == 0 then t == State(v, Discard(0, created))
      else if k <= c.roots && MovedPair(v, k - 1) then
        Attempt(s, Withdraw(v, k - 1), Unwind(k - 1, created), Idle, t)
      else t == State(v, Unwind(k - 1, created))
    case Discard(k, created) =>
      if k < c.roots then RemovedTree(v, k, t.vol) && t.control == Discard(k + 1, created)
      else t == State(v, Drop(created))
    case Drop(created) =>
      created && t == State(v.(journal := NoJournal), Idle)
    case _ => false
  }

  predicate RecoveryStep(c: Config, s: State, t: State)
    requires Sized(c, s.vol)
  {
    var v := s.vol;
    match s.control
    case RecoverUndo(moved) =>
      if moved == [] then t == State(v, RecoverDiscard(0))
      else
        var last := moved[|moved| - 1];
        last < c.roots && Attempt(s, Withdraw(v, last), RecoverUndo(moved[..|moved| - 1]), Idle, t)
    case RecoverDiscard(k) =>
      if k < c.roots then RemovedTree(v, k, t.vol) && t.control == RecoverDiscard(k + 1)
      else t == State(v, RecoverDrop)
    case RecoverDrop => t == State(v.(journal := NoJournal), Idle)
    case RecoverComplete => t == State(v.(journal := NoJournal), Idle)
    case _ => false
  }

  predicate Next(c: Config, s: State, t: State) {
    && Sized(c, s.vol)
    && (|| t == s.(control := Idle)  // the process dies, or returns the failure to its caller
        || (s.control == Idle && IdleStep(c, s, t))
        || ForwardStep(c, s, t)
        || HandlerStep(c, s, t)
        || RecoveryStep(c, s, t))
  }

  predicate Init(c: Config, s: State) {
    s == State(Volume(NoJournal, Repeat(c.roots, Absent), Repeat(c.roots, Absent)), Idle)
  }

  ghost predicate IsRun(c: Config, run: seq<State>) {
    && run != [] && Init(c, run[0])
    && forall i :: 0 <= i < |run| - 1 ==> Next(c, run[i], run[i + 1])
  }

  ghost predicate Reachable(c: Config, s: State) {
    exists run :: IsRun(c, run) && run[|run| - 1] == s
  }

  lemma ReachableStep(c: Config, s: State, t: State)
    requires Reachable(c, s) && Next(c, s, t)
    ensures Reachable(c, t)
  {
    var run :| IsRun(c, run) && run[|run| - 1] == s;
    assert IsRun(c, run + [t]);
  }

  // ---- the promise ----

  predicate AllPublished(v: Volume) {
    forall i :: 0 <= i < |v.targets| ==> v.targets[i] != Absent
  }

  predicate NonePublished(v: Volume) {
    forall i :: 0 <= i < |v.targets| ==> v.targets[i] == Absent
  }

  /** Without a journal left behind, a restore is visible as a whole or not at all. */
  predicate Atomic(v: Volume) {
    v.journal.NoJournal? ==> AllPublished(v) || NonePublished(v)
  }

  // ---- the invariant ----

  /** The first k roots are published, the others still staged, every tree whole. */
  predicate Prefix(c: Config, v: Volume, k: nat) {
    && Sized(c, v) && k <= c.roots
    && (forall i :: 0 <= i < k ==> v.candidates[i] == Absent && v.targets[i] == Intact)
    && (forall i :: k <= i < c.roots ==> v.candidates[i] == Intact && v.targets[i] == Absent)
  }

  /** Write-ahead: a root is only ever published after the journal announced it. */
  predicate Announced(v: Volume) {
    v.journal.Journal? ==>
      forall i :: 0 <= i < |v.journal.status| && i < |v.targets| && v.targets[i] != Absent ==>
        v.journal.status[i] != Staged
  }

  predicate AllStaged(v: Volume) {
    forall i :: 0 <= i < |v.candidates| ==> v.candidates[i] != Absent
  }

  ghost predicate Settled(c: Config, v: Volume) {
    && Sized(c, v)
    && if v.journal.Journal? then NonePublished(v) || exists k :: Prefix(c, v, k)
       else NonePublished(v) || Prefix(c, v, c.roots)
  }

  ghost predicate Inv(c: Config, s: State) {
    var v := s.vol;
    && Sized(c, v) && Announced(v)
    && match s.control
       case Idle => Settled(c, v)
       case Create => v.journal.NoJournal? && Prefix(c, v, 0)
       case Announce(i) => v.journal.Journal? && i < c.roots && Prefix(c, v, i)
       case Rename(i) => v.journal.Journal? && i < c.roots && Prefix(c, v, i) && v.journal.status[i] == Promoting
       case Record(i) => v.journal.Journal? && i < c.roots && Prefix(c, v, i + 1)
       case Finish => v.journal.Journal? && Prefix(c, v, c.roots)
       case Unlink => v.journal.Journal? && Prefix(c, v, c.roots)
       case Unwind(k, created) => Prefix(c, v, k) && if created then v.journal.Journal? else k == 0
       case Discard(k, created) => NonePublished(v) && (created ==> v.journal.Journal?)
       case Drop(created) => NonePublished(v)
       case RecoverUndo(moved) =>
         && v.journal.Journal? && moved == Iota(|moved|)
         && if moved == [] then NonePublished(v) && AllStaged(v) else |moved| < c.roots && Prefix(c, v, |moved|)
       case RecoverDiscard(k) => NonePublished(v) && v.journal.Journal?
       case RecoverDrop => NonePublished(v)
       case RecoverComplete => v.journal.Journal? && Prefix(c, v, c.roots)
  }

  function Iota(n: nat): seq<nat> {
    seq(n, i => i)
  }

  /** No failure escapes the code's notice. */
  predicate Noticed(c: Config) {
    !c.interruptAfterRename && !c.failAfterUnlink
  }

  lemma {:induction false} MovedOfPrefix(c: Config, v: Volume, k: nat, n: nat)
    requires Prefix(c, v, k) && n <= c.roots
    ensures MovedUpTo(v, n) == Iota(if n < k then n else k)
  {
    if n > 0 {
      MovedOfPrefix(c, v, k, n - 1);
      assert Iota(n) == Iota(n - 1) + [n - 1];
    }
  }

  lemma {:induction false} MovedOfNone(v: Volume, n: nat)
    requires NonePublished(v) && n <= |v.candidates| && n <= |v.targets|
    ensures MovedUpTo(v, n) == []
  {
    if n > 0 {
      MovedOfNone(v, n - 1);
    }
  }

  /** Recovery's reading of a partly published volume: exact, never ambiguous. */
  lemma ClassifyPrefix(c: Config, v: Volume, k: nat)
    requires Prefix(c, v, k)
    ensures Classify(c, v) == if k == c.roots then Completed else RollBack(Iota(k))
  {
    MovedOfPrefix(c, v, k, c.roots);
    assert forall i: nat :: i < c.roots ==> ReadablePair(v, i);
  }

  lemma ClassifyNone(c: Config, v: Volume)
    requires Sized(c, v) && NonePublished(v) && c.roots > 0
    ensures Classify(c, v) == Ambiguous || (Classify(c, v) == RollBack([]) && AllStaged(v))
  {
    MovedOfNone(v, c.roots);
    if Classify(c, v) != Ambiguous {
      forall i | 0 <= i < |v.candidates| ensures v.candidates[i] != Absent {
        assert ReadablePair(v, i);
      }
    }
  }

  lemma IdleKeepsInv(c: Config, s: State, t: State)
    requires c.roots > 0 && Inv(c, s) && s.control == Idle && IdleStep(c, s, t)
    ensures Inv(c, t)
  {
    var v := s.vol;
    if v.journal.Journal? {
      if NonePublished(v) {
        ClassifyNone(c, v);
      } else {
        var k :| Prefix(c, v, k);
        ClassifyPrefix(c, v, k);
      }
    }
  }

  lemma MarkKeepsPrefix(c: Config, v: Volume, i: nat, status: Status, k: nat)
    requires Prefix(c, v, k) && v.journal.Journal? && i < c.roots && Announced(v) && status != Staged
    ensures Prefix(c, Mark(v, i, status), k) && Announced(Mark(v, i, status))
  {
  }

  lemma PublishExtendsPrefix(c: Config, v: Volume, i: nat)
    requires Prefix(c, v, i) && i < c.roots
    ensures Prefix(c, Publish(v, i), i + 1)
  {
  }

  lemma CreateKeepsInv(c: Config, s: State, t: State)
    requires c.roots > 0 && Inv(c, s) && s.control == Create && ForwardStep(c, s, t)
    ensures Inv(c, t)
  {
    assert Prefix(c, s.vol.(journal := Journal(PhasePrepared, Repeat(c.roots, Staged))), 0);
  }

  lemma AnnounceKeepsInv(c: Config, s: State, t: State)
    requires c.roots > 0 && Inv(c, s) && s.control.Announce? && ForwardStep(c, s, t)
    ensures Inv(c, t)
  {
    MarkKeepsPrefix(c, s.vol, s.control.i, Promoting, s.control.i);
  }

  lemma RenameKeepsInv(c: Config, s: State, t: State)
    requires c.roots > 0 && Noticed(c) && Inv(c, s) && s.control.Rename? && ForwardStep(c, s, t)
    ensures Inv(c, t)
  {
    PublishExtendsPrefix(c, s.vol, s.control.i);
  }

  lemma RecordKeepsInv(c: Config, s: State, t: State)
    requires c.roots > 0 && Inv(c, s) && s.control.Record? && ForwardStep(c, s, t)
    ensures Inv(c, t)
  {
    MarkKeepsPrefix(c, s.vol, s.control.i, Promoted, s.control.i + 1);
  }

  lemma FinishKeepsInv(c: Config, s: State, t: State)
    requires c.roots > 0 && Noticed(c) && Inv(c, s) && (s.control == Finish || s.control == Unlink)
    requires ForwardStep(c, s, t)
    ensures Inv(c, t)
  {
    assert Prefix(c, t.vol, c.roots);
  }

  lemma ForwardKeepsInv(c: Config, s: State, t: State)
    requires c.roots > 0 && Noticed(c) && Inv(c, s) && ForwardStep(c, s, t)
    ensures Inv(c, t)
  {
    match s.control
    case Create => CreateKeepsInv(c, s, t);
    case Announce(_) => AnnounceKeepsInv(c, s, t);
    case Rename(_) => RenameKeepsInv(c, s, t);
    case Record(_) => RecordKeepsInv(c, s, t);
    case Finish => FinishKeepsInv(c, s, t);
    case Unlink => FinishKeepsInv(c, s, t);
  }

  lemma HandlerKeepsInv(c: Config, s: State, t: State)
    requires c.roots > 0 && Inv(c, s) && HandlerStep(c, s, t)
    ensures Inv(c, t)
  {
    if s.control.Unwind? && s.control.k > 0 {
      assert Prefix(c, Withdraw(s.vol, s.control.k - 1), s.control.k - 1);
    }
  }

  lemma RecoveryKeepsInv(c: Config, s: State, t: State)
    requires c.roots > 0 && Inv(c, s) && RecoveryStep(c, s, t)
    ensures Inv(c, t)
  {
    if s.control.RecoverUndo? && s.control.moved != [] {
      var moved := s.control.moved;
      assert moved[..|moved| - 1] == Iota(|moved| - 1);
      assert Prefix(c, Withdraw(s.vol, |moved| - 1), |moved| - 1);
    }
  }

  lemma DyingKeepsInv(c: Config, s: State)
    requires c.roots > 0 && Inv(c, s)
    ensures Inv(c, s.(control := Idle))
  {
    match s.control
    case Record(i) => assert Prefix(c, s.vol, i + 1);
    case RecoverUndo(moved) => assert moved != [] ==> Prefix(c, s.vol, |moved|);
    case Unwind(k, created) => assert Prefix(c, s.vol, k);
    case _ =>
  }

  lemma NextKeepsInv(c: Config, s: State, t: State)
    requires c.roots > 0 && Noticed(c) && Inv(c, s) && Next(c, s, t)
    ensures Inv(c, t)
  {
    if t == s.(control := Idle) {
      DyingKeepsInv(c, s);
    } else if s.control == Idle && IdleStep(c, s, t) {
      IdleKeepsInv(c, s, t);
    } else if ForwardStep(c, s, t) {
      ForwardKeepsInv(c, s, t);
    } else if HandlerStep(c, s, t) {
      HandlerKeepsInv(c, s, t);
    } else {
      RecoveryKeepsInv(c, s, t);
    }
  }

  lemma {:induction false} RunKeepsInv(c: Config, run: seq<State>, n: nat)
    requires c.roots > 0 && Noticed(c) && IsRun(c, run) && n < |run|
    ensures Inv(c, run[n])
  {
    if n > 0 {
      RunKeepsInv(c, run, n - 1);
      assert Next(c, run[n - 1], run[n - 1 + 1]);
      NextKeepsInv(c, run[n - 1], run[n]);
    }
  }

  // ---- every run, when no failure escapes notice ----

  /**
   Crash atomicity of any run of restores, handlers and recoveries: whatever is
   published is whole and was announced first, and without a journal it is all
   roots or none.
   */
  lemma EveryStateIsAtomic(c: Config, run: seq<State>, n: nat)
    requires c.roots > 0 && Noticed(c) && IsRun(c, run) && n < |run|
    ensures Atomic(run[n].vol) && Announced(run[n].vol)
    ensures forall i :: 0 <= i < |run[n].vol.targets| ==> run[n].vol.targets[i] != Gutted
  {
    RunKeepsInv(c, run, n);
    if run[n].control == Idle && !NonePublished(run[n].vol) {
      assert exists k :: Prefix(c, run[n].vol, k);
    }
  }

  /** The process is renaming, forward or back, and no candidate has been deleted yet. */
  predicate BeforeDeletion(s: State) {
    match s.control
    case Announce(_) => true
    case Rename(_) => true
    case Record(_) => true
    case Finish => true
    case Unlink => true
    case Unwind(_, _) => true
    case RecoverUndo(_) => true
    case RecoverComplete => true
    case _ => false
  }

  /** A crash while renaming leaves a volume that recovery reads without doubt. */
  lemma CrashWhileRenamingIsRecoverable(c: Config, run: seq<State>, n: nat)
    requires c.roots > 0 && Noticed(c) && IsRun(c, run) && n < |run| && BeforeDeletion(run[n])
    ensures Sized(c, run[n].vol) && Classify(c, run[n].vol) != Ambiguous
    ensures Classify(c, run[n].vol) == Completed <==> AllPublished(run[n].vol)
  {
    RunKeepsInv(c, run, n);
    var s := run[n];
    if s.control == RecoverUndo([]) {
      ClassifyNone(c, s.vol);
      assert forall i: nat :: i < c.roots ==> ReadablePair(s.vol, i);
      assert s.vol.targets[0] == Absent;
    } else {
      var k := match s.control
        case Announce(i) => i
        case Rename(i) => i
        case Record(i) => i + 1
        case Unwind(k, _) => k
        case RecoverUndo(moved) => |moved|
        case _ => c.roots;
      ClassifyPrefix(c, s.vol, k);
      assert k < c.roots ==> s.vol.targets[k] == Absent;
    }
  }

  /** Recovery refuses only once candidates are being deleted, and then nothing is public. */
  lemma RefusalMeansNothingPublished(c: Config, run: seq<State>, n: nat)
    requires c.roots > 0 && Noticed(c) && IsRun(c, run) && n < |run| && run[n].control == Idle
    requires run[n].vol.journal.Journal? && Sized(c, run[n].vol) && Classify(c, run[n].vol) == Ambiguous
    ensures NonePublished(run[n].vol)
  {
    RunKeepsInv(c, run, n);
    var v := run[n].vol;
    if !NonePublished(v) {
      var k :| Prefix(c, v, k);
      ClassifyPrefix(c, v, k);
    }
  }

  // ---- a rollback is final ----

  predicate RollingBack(s: State) {
    && !AllPublished(s.vol)
    && (s.control.Idle? || s.control.Unwind? || s.control.Discard? || s.control.Drop?
        || s.control.RecoverUndo? || s.control.RecoverDiscard? || s.control.RecoverDrop?)
  }

  lemma {:induction false} MovedCount(v: Volume, n: nat)
    requires n <= |v.candidates| && n <= |v.targets|
    ensures |MovedUpTo(v, n)| <= n
    ensures |MovedUpTo(v, n)| == n ==> forall i :: 0 <= i < n ==> v.targets[i] != Absent
  {
    if n > 0 {
      MovedCount(v, n - 1);
    }
  }

  lemma RollingBackStep(c: Config, s: State, t: State)
    requires RollingBack(s) && Next(c, s, t) && t.control != Create
    ensures RollingBack(t)
  {
    MovedCount(s.vol, c.roots);
    if s.control.Unwind? && 0 < s.control.k <= c.roots {
      assert Withdraw(s.vol, s.control.k - 1).targets[s.control.k - 1] == Absent;
    }
    if s.control.RecoverUndo? && s.control.moved != [] {
      var last := s.control.moved[|s.control.moved| - 1];
      assert last < c.roots ==> Withdraw(s.vol, last).targets[last] == Absent;
    }
  }

  /**
   Once one root has been withdrawn, no later crash or recovery turns the same
   restore into a completed one; only a new staging can publish again.
   */
  lemma {:induction false} RollbackIsFinal(c: Config, run: seq<State>, i: nat, j: nat)
    requires IsRun(c, run) && i <= j < |run| && RollingBack(run[i])
    requires forall k :: i < k <= j ==> run[k].control != Create
    ensures RollingBack(run[j]) && run[j].control != RecoverComplete
    decreases j - i
  {
    if i < j {
      assert Next(c, run[i], run[i + 1]);
      RollingBackStep(c, run[i], run[i + 1]);
      RollbackIsFinal(c, run, i + 1, j);
    }
  }

  // ---- exactly when the promise holds ----

  lemma NextKeepsSize(c: Config, s: State, t: State)
    requires Next(c, s, t)
    ensures Sized(c, t.vol)
  {
  }

  lemma ReachableIsSized(c: Config, s: State)
    requires Reachable(c, s)
    ensures Sized(c, s.vol)
  {
    var run :| IsRun(c, run) && run[|run| - 1] == s;
    if |run| > 1 {
      assert Next(c, run[|run| - 2], run[|run| - 2 + 1]);
      NextKeepsSize(c, run[|run| - 2], s);
    }
  }

  /** The volume after k renames under journal j. */
  function Halfway(c: Config, j: Journal, k: nat): Volume
    requires k <= c.roots
  {
    Volume(j, Repeat(k, Absent) + Repeat(c.roots - k, Intact), Repeat(k, Intact) + Repeat(c.roots - k, Absent))
  }

  lemma HalfwayPublish(c: Config, j: Journal, k: nat)
    requires k < c.roots
    ensures Publish(Halfway(c, j, k), k) == Halfway(c, j, k + 1)
  {
    var v, w := Publish(Halfway(c, j, k), k), Halfway(c, j, k + 1);
    assert v.candidates == w.candidates && v.targets == w.targets;
  }

  lemma ReachCreate(c: Config)
    ensures Reachable(c, State(Halfway(c, NoJournal, 0), Create))
  {
    var s := State(Volume(NoJournal, Repeat(c.roots, Absent), Repeat(c.roots, Absent)), Idle);
    assert IsRun(c, [s]);
    var t := State(Halfway(c, NoJournal, 0), Create);
    assert t.vol.candidates == Repeat(c.roots, Intact) && t.vol.targets == Repeat(c.roots, Absent);
    ReachableStep(c, s, t);
  }

  /** Every stage of an undisturbed promotion can be reached. */
  lemma {:induction false} ReachAnnounce(c: Config, i: nat) returns (j: Journal)
    requires i < c.roots
    ensures j.Journal? && |j.status| == c.roots && Reachable(c, State(Halfway(c, j, i), Announce(i)))
    decreases i, 0
  {
    if i == 0 {
      ReachCreate(c);
      j := Journal(PhasePrepared, Repeat(c.roots, Staged));
      ReachableStep(c, State(Halfway(c, NoJournal, 0), Create), State(Halfway(c, j, 0), Announce(0)));
    } else {
      j := ReachRecord(c, i - 1);
      var done := Mark(Halfway(c, j, i), i - 1, Promoted);
      ReachableStep(c, State(Halfway(c, j, i), Record(i - 1)), State(done, Announce(i)));
      j := done.journal;
      assert done == Halfway(c, j, i);
    }
  }

  lemma ReachRename(c: Config, i: nat) returns (j: Journal)
    requires i < c.roots
    ensures j.Journal? && |j.status| == c.roots && Reachable(c, State(Halfway(c, j, i), Rename(i)))
    decreases i, 1
  {
    j := ReachAnnounce(c, i);
    var marked := Mark(Halfway(c, j, i), i, Promoting);
    ReachableStep(c, State(Halfway(c, j, i), Announce(i)), State(marked, Rename(i)));
    j := marked.journal;
    assert marked == Halfway(c, j, i);
  }

  lemma ReachRecord(c: Config, i: nat) returns (j: Journal)
    requires i < c.roots
    ensures j.Journal? && |j.status| == c.roots && Reachable(c, State(Halfway(c, j, i + 1), Record(i)))
    decreases i, 2
  {
    j := ReachRename(c, i);
    HalfwayPublish(c, j, i);
    ReachableStep(c, State(Halfway(c, j, i), Rename(i)), State(Halfway(c, j, i + 1), Record(i)));
  }

  lemma {:induction false} ReachDrop(c: Config, v: Volume, k: nat)
    requires Reachable(c, State(v, Discard(k, true))) && Sized(c, v) && k <= c.roots
    ensures Reachable(c, State(v, Drop(true)))
    decreases c.roots - k
  {
    if k < c.roots {
      ReachableStep(c, State(v, Discard(k, true)), State(v, Discard(k + 1, true)));
      ReachDrop(c, v, k + 1);
    } else {
      ReachableStep(c, State(v, Discard(k, true)), State(v, Drop(true)));
    }
  }

  /** An interrupt between a rename and its bookkeeping strands the renamed root. */
  lemma InterruptStrandsARoot(c: Config) returns (s: State)
    requires c.roots > 1 && c.interruptAfterRename
    ensures Reachable(c, s) && !Atomic(s.vol)
  {
    var j := ReachRename(c, 0);
    HalfwayPublish(c, j, 0);
    var v := Halfway(c, j, 1);
    ReachableStep(c, State(Halfway(c, j, 0), Rename(0)), State(v, Unwind(0, true)));
    ReachableStep(c, State(v, Unwind(0, true)), State(v, Discard(0, true)));
    ReachDrop(c, v, 0);
    s := State(v.(journal := NoJournal), Idle);
    ReachableStep(c, State(v, Drop(true)), s);
    assert s.vol.targets[0] == Intact && s.vol.targets[1] == Absent;
  }

  /** A failure after the final unlink makes the handler roll back without a journal. */
  lemma LateFailureRollsBackUnjournaled(c: Config) returns (s: State)
    requires c.roots > 1 && c.failAfterUnlink
    ensures Reachable(c, s) && !Atomic(s.vol)
  {
    var n := c.roots;
    var j := ReachRecord(c, n - 1);
    var v := Mark(Halfway(c, j, n), n - 1, Promoted);
    ReachableStep(c, State(Halfway(c, j, n), Record(n - 1)), State(v, Finish));
    var w := v.(journal := v.journal.(phase := PhaseCompleted));
    ReachableStep(c, State(v, Finish), State(w, Unlink));
    var x := w.(journal := NoJournal);
    ReachableStep(c, State(w, Unlink), State(x, Unwind(n, true)));
    s := State(Withdraw(x, n - 1), Unwind(n - 1, true));
    ReachableStep(c, State(x, Unwind(n, true)), s);
    assert s.vol.targets[0] == Intact && s.vol.targets[n - 1] == Absent;
  }

  /**
   The promise holds of every reachable state exactly when a single root is
   restored or no failure can strike unnoticed.
   */
  lemma AtomicExactlyWhenNoticed(c: Config)
    requires c.roots > 0
    ensures (forall s :: Reachable(c, s) ==> Atomic(s.vol)) <==> (c.roots == 1 || Noticed(c))
  {
    if c.roots == 1 {
      forall s | Reachable(c, s) ensures Atomic(s.vol) {
        ReachableIsSized(c, s);
      }
    } else if Noticed(c) {
      forall s | Reachable(c, s) ensures Atomic(s.vol) {
        var run :| IsRun(c, run) && run[|run| - 1] == s;
        EveryStateIsAtomic(c, run, |run| - 1);
      }
    } else if c.interruptAfterRename {
      var s := InterruptStrandsARoot(c);
    } else {
      var s := LateFailureRollsBackUnjournaled(c);
    }
  }

  // ---- the code ----

  /** How an operation ended: as intended, with an exception, or with the process. */
  datatype Fate = Done | Failed | Died

  datatype Recovery = NothingPending | RecoveredComplete | RecoveredRollback | Refused | Interrupted

  /**
   The restore code working on one volume.  `run` collects the state after every
   step; Valid says that it is a run of the machine above that ends here.
   */
  class Restore {
    const c: Config
    var vol: Volume
    /** Nothing goes wrong from here on: no operation fails and the process does not die. */
    var calm: bool
    ghost var control: Control
    ghost var run: seq<State>

    ghost predicate Valid()
      reads this
    {
      && c.roots > 0 && Sized(c, vol)
      && IsRun(c, run) && run[|run| - 1] == State(vol, control)
    }

    constructor (c: Config, calm: bool)
      requires c.roots > 0
      ensures Valid() && this.c == c && this.calm == calm && control == Idle
      ensures vol == Volume(NoJournal, Repeat(c.roots, Absent), Repeat(c.roots, Absent))
    {
      this.c := c;
      this.calm := calm;
      vol := Volume(NoJournal, Repeat(c.roots, Absent), Repeat(c.roots, Absent));
      control := Idle;
      run := [State(Volume(NoJournal, Repeat(c.roots, Absent), Repeat(c.roots, Absent)), Idle)];
    }

    method Become(v: Volume, ghost next: Control)
      requires Valid() && Next(c, State(vol, control), State(v, next))
      modifies `vol, `control, `run
      ensures Valid() && vol == v && control == next && old(run) <= run
    {
      NextKeepsSize(c, State(vol, control), State(v, next));
      vol, control := v, next;
      run := run + [State(v, next)];
    }

    /** One fallible operation with effect w. */
    method Perform(w: Volume, ghost next: Control, ghost failed: Control, mayFailAfter: bool) returns (fate: Fate)
      requires Valid() && Next(c, State(vol, control), State(w, next))
      requires Next(c, State(vol, control), State(vol, failed))
      requires mayFailAfter ==> Next(c, State(vol, control), State(w, failed))
      modifies `vol, `control, `run
      ensures Valid() && old(run) <= run
      ensures calm ==> fate == Done
      ensures fate == Done ==> vol == w && control == next
      ensures fate == Failed ==> control == failed && (vol == old(vol) || (mayFailAfter && vol == w))
      ensures fate == Died ==> control == Idle && vol == old(vol)
    {
      fate := *;
      if calm { fate := Done; }
      match fate
      case Done => Become(w, next);
      case Died => Become(vol, Idle);
      case Failed =>
        var after: bool := *;
        if mayFailAfter && after {
          Become(w, failed);
        } else {
          Become(vol, failed);
        }
    }

    method CreateJournal() returns (fate: Fate)
      requires Valid() && control == Create && Prefix(c, vol, 0)
      modifies `vol, `control, `run
      ensures Valid() && old(run) <= run
      ensures calm && old(vol).journal.NoJournal? ==> fate == Done
      ensures fate == Done ==> control == Announce(0) && vol.journal.Journal? && Prefix(c, vol, 0)
      ensures fate == Failed ==> control == Unwind(0, false)
      ensures fate == Died ==> control == Idle
    {
      if vol.journal.Journal? {
        Become(vol, Unwind(0, false));
        return Failed;
      }
      fate := Perform(vol.(journal := Journal(PhasePrepared, Repeat(c.roots, Staged))),
                      Announce(0), Unwind(0, false), true);
    }

    method AnnounceRoot(i: nat) returns (fate: Fate)
      requires Valid() && control == Announce(i) && i < c.roots && vol.journal.Journal? && Prefix(c, vol, i)
      modifies `vol, `control, `run
      ensures Valid() && old(run) <= run
      ensures calm ==> fate == Done
      ensures fate == Done ==> control == Rename(i) && vol == old(Mark(vol, i, Promoting))
      ensures fate == Failed ==> control == Unwind(i, true)
      ensures fate == Died ==> control == Idle
    {
      fate := Perform(Mark(vol, i, Promoting), Rename(i), Unwind(i, true), true);
    }

    method RenameRoot(i: nat) returns (fate: Fate)
      requires Valid() && control == Rename(i) && i < c.roots
      modifies `vol, `control, `run
      ensures Valid() && old(run) <= run
      ensures calm ==> fate == Done
      ensures fate == Done ==> control == Record(i) && vol == old(Publish(vol, i))
      ensures fate == Failed ==> control == Unwind(i, true)
      ensures fate == Died ==> control == Idle
    {
      fate := Perform(Publish(vol, i), Record(i), Unwind(i, true), c.interruptAfterRename);
    }

    method RecordRoot(i: nat) returns (fate: Fate)
      requires Valid() && control == Record(i) && i < c.roots && vol.journal.Journal?
      modifies `vol, `control, `run
      ensures Valid() && old(run) <= run
      ensures calm ==> fate == Done
      ensures fate == Done ==> control == (if i + 1 < c.roots then Announce(i + 1) else Finish)
      ensures fate == Done ==> vol == old(Mark(vol, i, Promoted))
      ensures fate == Failed ==> control == Unwind(i + 1, true)
      ensures fate == Died ==> control == Idle
    {
      fate := Perform(Mark(vol, i, Promoted), if i + 1 < c.roots then Announce(i + 1) else Finish,
                      Unwind(i + 1, true), true);
    }

    method FinishJournal() returns (fate: Fate)
      requires Valid() && control == Finish && vol.journal.Journal?
      modifies `vol, `control, `run
      ensures Valid() && old(run) <= run
      ensures calm ==> fate == Done
      ensures fate == Done ==> control == Idle && vol == old(vol).(journal := NoJournal)
      ensures fate == Failed ==> control == Unwind(c.roots, true)
      ensures fate == Died ==> control == Idle
    {
      fate := Perform(vol.(journal := vol.journal.(phase := PhaseCompleted)), Unlink, Unwind(c.roots, true), true);
      if fate != Done { return; }
      fate := Perform(vol.(journal := NoJournal), Idle, Unwind(c.roots, true), c.failAfterUnlink);
    }

    /** One turn of the promotion loop. */
    method PromoteRoot(i: nat, promoted: seq<nat>) returns (fate: Fate, promoted': seq<nat>)
      requires Valid() && control == Announce(i) && i < c.roots && vol.journal.Journal? && Prefix(c, vol, i)
      requires promoted == Iota(i)
      modifies `vol, `control, `run
      ensures Valid() && old(run) <= run
      ensures calm ==> fate == Done
      ensures fate == Done ==> control == (if i + 1 < c.roots then Announce(i + 1) else Finish)
      ensures fate == Done ==> vol.journal.Journal? && Prefix(c, vol, i + 1) && promoted' == Iota(i + 1)
      ensures fate == Failed ==> |promoted'| <= c.roots && promoted' == Iota(|promoted'|)
      ensures fate == Failed ==> control == Unwind(|promoted'|, true)
      ensures fate == Died ==> control == Idle
    {
      hide Next, IsRun;
      promoted' := promoted;
      fate := AnnounceRoot(i);
      if fate != Done { return; }
      fate := RenameRoot(i);
      if fate != Done { return; }
      promoted' := promoted + [i];
      assert promoted' == Iota(i + 1);
      fate := RecordRoot(i);
    }

    /** restore_backup from the first journal revision to the last. */
    method PromoteRoots() returns (fate: Fate, promoted: seq<nat>, created: bool)
      requires Valid() && control == Create && Prefix(c, vol, 0)
      modifies `vol, `control, `run
      ensures Valid() && old(run) <= run
      ensures calm && old(vol).journal.NoJournal? ==> fate == Done
      ensures fate == Done ==> control == Idle && vol.journal == NoJournal && Prefix(c, vol, c.roots)
      ensures fate == Failed ==> |promoted| <= c.roots && promoted == Iota(|promoted|)
      ensures fate == Failed ==> control == Unwind(|promoted|, created)
      ensures fate == Died ==> control == Idle
    {
      hide Next, IsRun;
      promoted, created := [], false;
      fate := CreateJournal();
      if fate != Done { return; }
      created := true;
      for i := 0 to c.roots
        invariant Valid() && vol.journal.Journal? && Prefix(c, vol, i) && created && old(run) <= run
        invariant control == if i < c.roots then Announce(i) else Finish
        invariant promoted == Iota(i)
      {
        fate, promoted := PromoteRoot(i, promoted);
        if fate != Done { return; }
      }
      fate := FinishJournal();
    }

    method WithdrawRoot(pair: nat, created: bool) returns (fate: Fate)
      requires Valid() && pair < c.roots && control == Unwind(pair + 1, created)
      modifies `vol, `control, `run
      ensures Valid() && old(run) <= run
      ensures calm ==> fate == Done
      ensures control == if fate == Done then Unwind(pair, created) else Idle
    {
      fate := Done;
      if MovedPair(vol, pair) {
        fate := Perform(Withdraw(vol, pair), Unwind(pair, created), Idle, true);
      } else {
        Become(vol, Unwind(pair, created));
      }
    }

    method DiscardCandidates(created: bool)
      requires Valid() && control == Discard(0, created)
      modifies `vol, `control, `run
      ensures Valid() && old(run) <= run && control == Drop(created) && vol.targets == old(vol.targets)
    {
      for i := 0 to c.roots
        invariant Valid() && old(run) <= run && control == Discard(i, created) && vol.targets == old(vol.targets)
      {
        var w := RemoveTree(vol, i, calm);
        Become(w, Discard(i + 1, created));
      }
      Become(vol, Drop(created));
    }

    /** The exception handler: withdraw, delete the candidates as far as possible, drop the journal. */
    method Handle(promoted: seq<nat>, created: bool) returns (fate: Fate)
      requires Valid() && |promoted| <= c.roots && promoted == Iota(|promoted|)
      requires control == Unwind(|promoted|, created)
      modifies `vol, `control, `run
      ensures Valid() && old(run) <= run && control == Idle
      ensures calm ==> fate == Done
      ensures fate == Done && created ==> vol.journal == NoJournal
      ensures Noticed(c) && fate == Done ==> NonePublished(vol)
    {
      hide Next, IsRun;
      var k := |promoted|;
      while k > 0
        invariant 0 <= k <= |promoted| && Valid() && old(run) <= run && control == Unwind(k, created)
      {
        fate := WithdrawRoot(promoted[k - 1], created);
        if fate != Done { return; }
        k := k - 1;
      }
      if Noticed(c) { NothingLeftToWithdraw(created); }
      fate := CleanUp(created);
    }

    /** With nothing left to withdraw: the candidates and the journal go. */
    method CleanUp(created: bool) returns (fate: Fate)
      requires Valid() && control == Unwind(0, created)
      modifies `vol, `control, `run
      ensures Valid() && old(run) <= run && control == Idle && vol.targets == old(vol.targets)
      ensures calm ==> fate == Done
      ensures fate == Done && created ==> vol.journal == NoJournal
    {
      Become(vol, Discard(0, created));
      DiscardCandidates(created);
      if created {
        fate := Perform(vol.(journal := NoJournal), Idle, Idle, true);
      } else {
        Become(vol, Idle);
        fate := Done;
      }
    }

    lemma NothingLeftToWithdraw(created: bool)
      requires Valid() && Noticed(c) && control == Unwind(0, created)
      ensures NonePublished(vol)
    {
      RunKeepsInv(c, run, |run| - 1);
    }

    /** Stage fresh candidates and publish them, as restore_backup does after recovery. */
    method RestoreBackup() returns (fate: Fate)
      requires Valid() && control == Idle
      requires vol.journal == NoJournal && vol.targets == Repeat(c.roots, Absent)
      modifies `vol, `control, `run
      ensures Valid() && control == Idle && old(run) <= run
      ensures calm ==> fate == Done
      ensures fate == Done ==> vol.journal == NoJournal && AllPublished(vol)
      ensures fate == Done ==> vol.candidates == Repeat(c.roots, Absent)
      ensures Noticed(c) ==> forall i :: 0 <= i < |run| ==> Atomic(run[i].vol)
      ensures Noticed(c) && vol.journal == NoJournal && !AllPublished(vol) ==> NonePublished(vol)
    {
      Become(vol.(candidates := Repeat(c.roots, Intact)), Create);
      var promoted, created;
      fate, promoted, created := PromoteRoots();
      if fate == Failed {
        fate := Handle(promoted, created);
        if fate == Done { fate := Failed; }
      }
      if Noticed(c) { RunIsAtomic(); }
    }

    lemma RunIsAtomic()
      requires Valid() && Noticed(c)
      ensures forall i :: 0 <= i < |run| ==> Atomic(run[i].vol)
    {
      forall i | 0 <= i < |run| ensures Atomic(run[i].vol) {
        EveryStateIsAtomic(c, run, i);
      }
    }

    /** The two lists recovery sorts the journaled pairs into, or a refusal. */
    method Scan() returns (moved: seq<nat>, ambiguous: bool)
      requires Valid()
      ensures Classify(c, vol) == if ambiguous then Ambiguous
                                  else if |moved| == c.roots then Completed else RollBack(moved)
      ensures !ambiguous ==> moved == MovedUpTo(vol, c.roots)
    {
      moved := [];
      for i := 0 to c.roots
        invariant moved == MovedUpTo(vol, i)
        invariant forall j: nat :: j < i ==> ReadablePair(vol, j)
      {
        if MovedPair(vol, i) {
          moved := moved + [i];
        } else if !StagedPair(vol, i) {
          assert !ReadablePair(vol, i);
          return [], true;
        }
      }
      ambiguous := false;
    }

    /** `_recover_pending_restore_promotion`, once its journal checks have passed. */
    method Recover() returns (r: Recovery)
      requires Valid() && control == Idle
      modifies `vol, `control, `run
      ensures Valid() && control == Idle && old(run) <= run
      ensures r == NothingPending <==> old(vol.journal) == NoJournal
      ensures r == NothingPending || r == Refused ==> vol == old(vol)
      ensures r == Refused <==> old(vol.journal).Journal? && SomePairUnclear(old(vol))
      ensures calm && old(vol.journal).Journal? && !SomePairUnclear(old(vol)) ==>
                r == if EveryPairMoved(old(vol)) then RecoveredComplete else RecoveredRollback
      ensures calm && r == RecoveredRollback ==> vol.candidates == Repeat(c.roots, Absent)
      ensures r == RecoveredComplete ==>
        Classify(c, old(vol)) == Completed && vol == old(vol).(journal := NoJournal) && AllPublished(vol)
      ensures r == RecoveredRollback ==>
          Classify(c, old(vol)).RollBack? && vol.journal == NoJournal && NonePublished(vol)
      ensures Noticed(c) ==> forall i :: 0 <= i < |run| ==> Atomic(run[i].vol)
    {
      if Noticed(c) { RunIsAtomic(); }
      if vol.journal.NoJournal? {
        return NothingPending;
      }
      var moved, ambiguous := Scan();
      PairsAsFound(c, vol);
      if ambiguous {
        return Refused;
      }
      MovedCount(vol, c.roots);
      if |moved| == c.roots {
        Become(vol, RecoverComplete);
        var fate := Perform(vol.(journal := NoJournal), Idle, Idle, true);
        r := if fate == Done then RecoveredComplete else Interrupted;
      } else {
        r := UndoMoved(moved);
      }
      if Noticed(c) { RunIsAtomic(); }
    }

    method UndoMoved(moved: seq<nat>) returns (r: Recovery)
      requires Valid() && control == Idle && vol.journal.Journal?
      requires Classify(c, vol) == RollBack(moved)
      modifies `vol, `control, `run
      ensures Valid() && control == Idle && old(run) <= run
      ensures r == RecoveredRollback || r == Interrupted
      ensures calm ==> r == RecoveredRollback && vol.candidates == Repeat(c.roots, Absent)
      ensures r == RecoveredRollback ==> vol.journal == NoJournal && NonePublished(vol)
    {
      OnlyMovedArePublished(c, vol, moved);
      Become(vol, RecoverUndo(moved));
      var k := |moved|;
      assert moved[..k] == moved;
      while k > 0
        invariant 0 <= k <= |moved| && Valid() && old(run) <= run && control == RecoverUndo(moved[..k])
        invariant PublishedAmong(vol, moved[..k])
      {
        assert moved[..k] == moved[..k - 1] + [moved[k - 1]];
        var fate := UndoRoot(moved[..k]);
        if fate != Done { return Interrupted; }
        k := k - 1;
      }
      Become(vol, RecoverDiscard(0));
      r := DropRecovered();
    }

    method UndoRoot(moved: seq<nat>) returns (fate: Fate)
      requires Valid() && control == RecoverUndo(moved) && moved != [] && moved[|moved| - 1] < c.roots
      modifies `vol, `control, `run
      ensures Valid() && old(run) <= run
      ensures calm ==> fate == Done
      ensures control == if fate == Done then RecoverUndo(moved[..|moved| - 1]) else Idle
      ensures fate == Done ==> vol == old(Withdraw(vol, moved[|moved| - 1]))
    {
      fate := Perform(Withdraw(vol, moved[|moved| - 1]), RecoverUndo(moved[..|moved| - 1]), Idle, true);
    }

    method DropRecovered() returns (r: Recovery)
      requires Valid() && control == RecoverDiscard(0)
      modifies `vol, `control, `run
      ensures Valid() && control == Idle && old(run) <= run && vol.targets == old(vol.targets)
      ensures r == RecoveredRollback || r == Interrupted
      ensures calm ==> r == RecoveredRollback && vol.candidates == Repeat(c.roots, Absent)
      ensures r == RecoveredRollback ==> vol.journal == NoJournal
    {
      for i := 0 to c.roots
        invariant Valid() && old(run) <= run && control == RecoverDiscard(i) && vol.targets == old(vol.targets)
        invariant calm ==> forall j :: 0 <= j < i ==> vol.candidates[j] == Absent
      {
        var w := RemoveTree(vol, i, calm);
        Become(w, RecoverDiscard(i + 1));
      }
      Become(vol, RecoverDrop);
      var fate := Perform(vol.(journal := NoJournal), Idle, Idle, true);
      r := if fate == Done then RecoveredRollback else Interrupted;
    }
  }

  /** Some root has both its directories, or neither. */
  predicate SomePairUnclear(v: Volume)
    requires |v.candidates| == |v.targets|
  {
    exists i :: 0 <= i < |v.targets| && ((v.candidates[i] == Absent) <==> (v.targets[i] == Absent))
  }

  predicate EveryPairMoved(v: Volume)
    requires |v.candidates| == |v.targets|
  {
    forall i :: 0 <= i < |v.targets| ==> v.candidates[i] == Absent && v.targets[i] != Absent
  }

  lemma AmbiguousExactly(c: Config, v: Volume)
    requires Sized(c, v)
    ensures Classify(c, v) == Ambiguous <==> SomePairUnclear(v)
  {
    if SomePairUnclear(v) {
      var i :| 0 <= i < |v.targets| && ((v.candidates[i] == Absent) <==> (v.targets[i] == Absent));
      assert !ReadablePair(v, i);
    } else {
      forall i: nat | i < c.roots ensures ReadablePair(v, i) {
        assert !((v.candidates[i] == Absent) <==> (v.targets[i] == Absent));
      }
    }
  }

  /** Recovery's verdict, told by which directories are there. */
  lemma PairsAsFound(c: Config, v: Volume)
    requires Sized(c, v)
    ensures Classify(c, v) == Ambiguous <==> SomePairUnclear(v)
    ensures !SomePairUnclear(v) ==> (|MovedUpTo(v, c.roots)| == c.roots <==> EveryPairMoved(v))
  {
    hide Classify;
    AmbiguousExactly(c, v);
    MovedCount(v, c.roots);
    if EveryPairMoved(v) {
      AllMovedCount(v, c.roots);
    }
    if |MovedUpTo(v, c.roots)| == c.roots && !SomePairUnclear(v) {
      forall i | 0 <= i < |v.targets| ensures v.candidates[i] == Absent {
        assert v.targets[i] != Absent;
      }
    }
  }

  lemma {:induction false} AllMovedCount(v: Volume, n: nat)
    requires n <= |v.candidates| == |v.targets| && EveryPairMoved(v)
    ensures |MovedUpTo(v, n)| == n
  {
    if n > 0 {
      AllMovedCount(v, n - 1);
    }
  }

  /** Only the listed roots may be public. */
  predicate PublishedAmong(v: Volume, moved: seq<nat>) {
    forall i :: 0 <= i < |v.targets| && v.targets[i] != Absent ==> i in moved
  }

  lemma OnlyMovedArePublished(c: Config, v: Volume, moved: seq<nat>)
    requires Sized(c, v) && Classify(c, v) == RollBack(moved)
    ensures PublishedAmong(v, moved) && forall i :: 0 <= i < |moved| ==> moved[i] < c.roots
  {
    forall i | 0 <= i < |v.targets| && v.targets[i] != Absent ensures i in moved {
      assert ReadablePair(v, i);
      assert i in MovedUpTo(v, c.roots);
    }
    forall i | 0 <= i < |moved| ensures moved[i] < c.roots {
      assert moved[i] in MovedUpTo(v, c.roots);
    }
  }

  method RemoveTree(v: Volume, k: nat, calm: bool) returns (w: Volume)
    requires k < |v.candidates|
    ensures RemovedTree(v, k, w)
    ensures calm ==> w == v.(candidates := v.candidates[k := Absent])
  {
    w := v;
    if v.candidates[k] != Absent {
      var removed: bool := *;
      if calm || removed {
        w := v.(candidates := v.candidates[k := Absent]);
      } else if * {
        w := v.(candidates := v.candidates[k := Gutted]);
      }
    }
  }
}
