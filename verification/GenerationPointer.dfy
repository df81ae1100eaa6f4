/**
 Selecting a restored generation through one symlink.

 The journal records the operation, the new and the previous generation and
 whether the intent is to promote or to roll back.  Every link, rename, removal
 and journal revision is one step; it may fail before or after its effect, and
 the process may die between any two steps.
 */
module GenerationPointer {
  import opened Wrappers

  type Generation = string

  /** One promotion: its operation id, the selected and the replaced generation. */
  datatype Operation = Operation(id: nat, gen: Generation, prev: Option<Generation>)

  datatype Intent = Promote | Rollback
  datatype Phase = Prepared | CandidateReady | Promoting | Promoted | RollingBack | RolledBack
  datatype Journal = Journal(op: Operation, intent: Intent, phase: Phase)

  /** What is on disk, and the supply of fresh operation ids. */
  datatype Disk = Disk(
    pointer: Option<Generation>,
    candidates: map<nat, Generation>,
    rollbackLinks: map<nat, Generation>,
    journal: Option<Journal>,
    nextId: nat)

  datatype Control =
    | Idle
    // promote_restored_generation
    | Begin(op: Operation)
    | Link(op: Operation)
    | Ready(op: Operation)
    | Announce(op: Operation)
    | Swap(op: Operation)
    | Confirm(op: Operation)
    | Remove(op: Operation)
    // its exception handler only
    | Intend(op: Operation)
    | Record(op: Operation)
    // handler and recovery
    | Decide(op: Operation, handler: bool)
    | LinkBack(op: Operation, handler: bool)
    | SwapBack(op: Operation, handler: bool)
    | Unset(op: Operation, handler: bool)
    | Clean(op: Operation, handler: bool)
    | Drop(op: Operation)

  datatype State = State(disk: Disk, control: Control)

  /** An operation with effect e: done, or failed before or after the effect. */
  predicate Attempt(s: State, e: Disk, next: Control, failed: Control, t: State) {
    t == State(e, next) || t == State(s.disk, failed) || t == State(e, failed)
  }

  // ---- effects ----

  function Journaled(d: Disk, op: Operation, intent: Intent, phase: Phase): Disk {
    d.(journal := Some(Journal(op, intent, phase)))
  }

  /** `os.replace(temporary_pointer, pointer)`. */
  function Swapped(d: Disk, op: Operation): Disk {
    d.(pointer := Some(op.gen), candidates := d.candidates - {op.id})
  }

  /** `os.replace(rollback_pointer, pointer)`. */
  function SwappedBack(d: Disk, op: Operation): Disk {
    d.(pointer := op.prev, rollbackLinks := d.rollbackLinks - {op.id})
  }

  // ---- one step ----

  predicate IdleStep(verified: set<Generation>, s: State, t: State) {
    var d := s.disk;
    match d.journal
    case None =>
      && t.disk == d.(nextId := d.nextId + 1)
      && t.control.Begin?
      && t.control.op == Operation(d.nextId, t.control.op.gen, d.pointer)
      && t.control.op.gen in verified && d.pointer != Some(t.control.op.gen)
    case Some(j) =>
      if j.intent == Rollback then t == State(d, Decide(j.op, false))
      else if d.pointer == Some(j.op.gen) || d.pointer == j.op.prev then t == State(d, Clean(j.op, false))
      else t == s
  }

  predicate PromoteStep(s: State, t: State) {
    var d := s.disk;
    match s.control
    case Begin(op) => Attempt(s, Journaled(d, op, Promote, Prepared), Link(op), Idle, t)
    case Link(op) => Attempt(s, d.(candidates := d.candidates[op.id := op.gen]), Ready(op), Intend(op), t)
    case Ready(op) => Attempt(s, Journaled(d, op, Promote, CandidateReady), Announce(op), Intend(op), t)
    case Announce(op) => Attempt(s, Journaled(d, op, Promote, Promoting), Swap(op), Intend(op), t)
    case Swap(op) => Attempt(s, Swapped(d, op), Confirm(op), Intend(op), t)
    case Confirm(op) => Attempt(s, Journaled(d, op, Promote, Promoted), Remove(op), Intend(op), t)
    case Remove(op) => Attempt(s, d.(journal := None), Idle, Intend(op), t)
    case _ => false
  }

  /** The decision both rollback procedures take from the pointer they find. */
  function Decision(d: Disk, op: Operation, handler: bool): Control {
    if d.pointer == Some(op.gen) then
      if op.prev.None? then Unset(op, handler)
      else if op.id in d.rollbackLinks then Idle
      else LinkBack(op, handler)
    else if d.pointer == op.prev then Clean(op, handler)
    else Idle
  }

  predicate RollbackStep(s: State, t: State) {
    var d := s.disk;
    match s.control
    case Intend(op) => Attempt(s, Journaled(d, op, Rollback, RollingBack), Decide(op, true), Idle, t)
    case Decide(op, h) => t == State(d, Decision(d, op, h))
    case LinkBack(op, h) =>
      && op.prev.Some?
      && Attempt(s, d.(rollbackLinks := d.rollbackLinks[op.id := op.prev.value]), SwapBack(op, h), Idle, t)
    case SwapBack(op, h) =>
      // the failing rename still removes its private link, unless that fails too
      || Attempt(s, SwappedBack(d, op), Clean(op, h), Idle, t)
      || t == State(d.(rollbackLinks := d.rollbackLinks - {op.id}), Idle)
    case Unset(op, h) => Attempt(s, d.(pointer := None), Clean(op, h), Idle, t)
    case _ => false
  }

  predicate CleanupStep(s: State, t: State) {
    var d := s.disk;
    match s.control
    case Clean(op, h) =>
      if op.id in d.candidates && d.candidates[op.id] != op.gen then t == State(d, Idle)
      else Attempt(s, d.(candidates := d.candidates - {op.id}), if h then Record(op) else Drop(op), Idle, t)
    case Record(op) => Attempt(s, Journaled(d, op, Rollback, RolledBack), Drop(op), Idle, t)
    case Drop(op) => Attempt(s, d.(journal := None), Idle, Idle, t)
    case _ => false
  }

  predicate Next(verified: set<Generation>, s: State, t: State) {
    || t == s.(control := Idle)
    || (s.control == Idle && IdleStep(verified, s, t))
    || PromoteStep(s, t)
    || RollbackStep(s, t)
    || CleanupStep(s, t)
  }

  predicate Init(verified: set<Generation>, s: State) {
    && s.control == Idle && s.disk.journal == None
    && s.disk.candidates == map[] && s.disk.rollbackLinks == map[]
    && (s.disk.pointer.Some? ==> s.disk.pointer.value in verified)
  }

  ghost predicate IsRun(verified: set<Generation>, run: seq<State>) {
    && run != [] && Init(verified, run[0])
    && forall i :: 0 <= i < |run| - 1 ==> Next(verified, run[i], run[i + 1])
  }

  // ---- the invariant ----

  predicate Chosen(d: Disk, op: Operation) {
    d.pointer == Some(op.gen) || d.pointer == op.prev
  }

  /** Only this operation's links are around, and they lead where they should. */
  predicate OwnLinks(d: Disk, op: Operation) {
    && (d.candidates == map[] || d.candidates == map[op.id := op.gen])
    && (d.rollbackLinks == map[] ||
        (op.prev.Some? && d.rollbackLinks == map[op.id := op.prev.value] && d.pointer == Some(op.gen)
         && d.journal.Some? && d.journal.value.intent == Rollback))
  }

  predicate Sane(verified: set<Generation>, d: Disk, op: Operation) {
    && op.gen in verified && op.prev != Some(op.gen) && op.id < d.nextId
    && (op.prev.Some? ==> op.prev.value in verified)
    && Chosen(d, op) && OwnLinks(d, op)
    && (d.journal.Some? ==> d.journal.value.op == op)
  }

  predicate Has(d: Disk, intent: Intent) {
    d.journal.Some? && d.journal.value.intent == intent
  }

  predicate Inv(verified: set<Generation>, s: State) {
    var d := s.disk;
    && (d.pointer.Some? ==> d.pointer.value in verified)
    && (s.control != Idle ==> Sane(verified, d, s.control.op))
    && match s.control
       case Idle =>
         if d.journal.Some? then Sane(verified, d, d.journal.value.op)
         else d.candidates == map[] && d.rollbackLinks == map[]
       case Begin(op) =>
         d.journal.None? && d.pointer == op.prev && d.candidates == map[] && d.rollbackLinks == map[]
       case Link(op) => Has(d, Promote) && d.pointer == op.prev && d.candidates == map[]
       case Ready(op) => Has(d, Promote) && d.pointer == op.prev && op.id in d.candidates
       case Announce(op) => Has(d, Promote) && d.pointer == op.prev && op.id in d.candidates
       case Swap(op) => Has(d, Promote) && d.pointer == op.prev && op.id in d.candidates
       case Confirm(op) => Has(d, Promote) && d.pointer == Some(op.gen) && d.candidates == map[]
       case Remove(op) => Has(d, Promote) && d.pointer == Some(op.gen) && d.candidates == map[]
       case Intend(op) =>
         && d.rollbackLinks == map[]
         && (Has(d, Promote) || (d.journal.None? && d.candidates == map[]))
       case Decide(op, h) => Has(d, Rollback)
       case LinkBack(op, h) =>
         Has(d, Rollback) && d.pointer == Some(op.gen) && op.prev.Some? && d.rollbackLinks == map[]
       case SwapBack(op, h) =>
         Has(d, Rollback) && d.pointer == Some(op.gen) && op.prev.Some? && op.id in d.rollbackLinks
       case Unset(op, h) => Has(d, Rollback) && d.pointer == Some(op.gen) && op.prev.None?
       case Clean(op, h) =>
         && d.journal.Some? && (h || Has(d, Rollback) ==> Has(d, Rollback) && d.pointer == op.prev)
         && d.rollbackLinks == map[]
       case Record(op) => Has(d, Rollback) && d.pointer == op.prev && d.candidates == map[] && d.rollbackLinks == map[]
       case Drop(op) =>
         && d.journal.Some? && d.candidates == map[] && d.rollbackLinks == map[]
         && (Has(d, Rollback) ==> d.pointer == op.prev)
  }

  lemma PreparingKeepsInv(verified: set<Generation>, s: State, t: State)
    requires Inv(verified, s) && PromoteStep(s, t)
    requires s.control.Begin? || s.control.Link? || s.control.Ready? || s.control.Announce?
    ensures Inv(verified, t)
  {
  }

  lemma PromoteKeepsInv(verified: set<Generation>, s: State, t: State)
    requires Inv(verified, s) && PromoteStep(s, t)
    ensures Inv(verified, t)
  {
    if s.control.Begin? || s.control.Link? || s.control.Ready? || s.control.Announce? {
      PreparingKeepsInv(verified, s, t);
    }
  }

  lemma RollbackKeepsInv(verified: set<Generation>, s: State, t: State)
    requires Inv(verified, s) && RollbackStep(s, t)
    ensures Inv(verified, t)
  {
  }

  lemma CleanupKeepsInv(verified: set<Generation>, s: State, t: State)
    requires Inv(verified, s) && CleanupStep(s, t)
    ensures Inv(verified, t)
  {
  }

  lemma NextKeepsInv(verified: set<Generation>, s: State, t: State)
    requires Inv(verified, s) && Next(verified, s, t)
    ensures Inv(verified, t)
  {
    if PromoteStep(s, t) {
      PromoteKeepsInv(verified, s, t);
    } else if RollbackStep(s, t) {
      RollbackKeepsInv(verified, s, t);
    } else if CleanupStep(s, t) {
      CleanupKeepsInv(verified, s, t);
    }
  }

  lemma {:induction false} RunKeepsInv(verified: set<Generation>, run: seq<State>, n: nat)
    requires IsRun(verified, run) && n < |run|
    ensures Inv(verified, run[n])
  {
    if n > 0 {
      RunKeepsInv(verified, run, n - 1);
      assert Next(verified, run[n - 1], run[n - 1 + 1]);
      NextKeepsInv(verified, run[n - 1], run[n]);
    }
  }

  // ---- every run ----

  /**
   In every state of every run the pointer leads to a verified generation, under
   a journal it is the journaled new or previous one, and without a journal no
   temporary link is left behind.
   */
  lemma PointerIsAlwaysValid(verified: set<Generation>, run: seq<State>, n: nat)
    requires IsRun(verified, run) && n < |run|
    ensures run[n].disk.pointer.Some? ==> run[n].disk.pointer.value in verified
    ensures run[n].disk.journal.Some? ==> Chosen(run[n].disk, run[n].disk.journal.value.op)
    ensures run[n].disk.journal.None? && run[n].control == Idle ==>
              run[n].disk.candidates == map[] && run[n].disk.rollbackLinks == map[]
  {
    RunKeepsInv(verified, run, n);
  }

  /** Every operation in flight replaces an existing selection. */
  predicate Replaces(s: State) {
    && s.disk.pointer.Some?
    && (s.control != Idle ==> s.control.op.prev.Some?)
    && (s.disk.journal.Some? ==> s.disk.journal.value.op.prev.Some?)
  }

  lemma ReplacesStep(verified: set<Generation>, s: State, t: State)
    requires Inv(verified, s) && Next(verified, s, t) && Replaces(s)
    ensures Replaces(t)
  {
  }

  /** An installation that has a selection never loses it. */
  lemma {:induction false} PointerNeverVanishes(verified: set<Generation>, run: seq<State>, n: nat)
    requires IsRun(verified, run) && n < |run| && run[0].disk.pointer.Some?
    ensures run[n].disk.pointer.Some? && Replaces(run[n])
  {
    if n > 0 {
      PointerNeverVanishes(verified, run, n - 1);
      RunKeepsInv(verified, run, n - 1);
      assert Next(verified, run[n - 1], run[n - 1 + 1]);
      ReplacesStep(verified, run[n - 1], run[n]);
    }
  }

  /** The pointer moves to a new generation in the promoting rename and nowhere else. */
  lemma OnlySwapMovesForward(verified: set<Generation>, s: State, t: State)
    requires Inv(verified, s) && Next(verified, s, t) && t.disk.pointer != s.disk.pointer
    ensures s.control.Swap? || s.control.SwapBack? || s.control.Unset?
    ensures if s.control.Swap? then s.disk.pointer == s.control.op.prev && t.disk.pointer == Some(s.control.op.gen)
            else s.disk.pointer == Some(s.control.op.gen) && t.disk.pointer == s.control.op.prev
  {
  }

  // ---- a journaled rollback is final ----

  /** The rollback of op is under way, or done with everything cleared. */
  predicate RollsBack(s: State, op: Operation) {
    || (Has(s.disk, Rollback) && s.disk.journal.value.op == op)
    || (s.control == Idle && s.disk.journal.None? && s.disk.pointer == op.prev
        && s.disk.candidates == map[] && s.disk.rollbackLinks == map[])
  }

  lemma RollsBackStep(verified: set<Generation>, s: State, t: State, op: Operation)
    requires Inv(verified, s) && Next(verified, s, t) && RollsBack(s, op) && !t.control.Begin?
    ensures RollsBack(t, op)
    ensures s.disk.pointer == op.prev ==> t.disk.pointer == op.prev
  {
  }

  /**
   After the rollback intent is on disk, any number of crashes and recoveries
   later the journal still says so or the previous generation is selected again
   and nothing is left over; and once back, the pointer never moves forward.
   */
  lemma {:induction false} RollbackIsFinal(verified: set<Generation>, run: seq<State>, i: nat, j: nat, op: Operation)
    requires IsRun(verified, run) && i <= j < |run| && RollsBack(run[i], op)
    requires forall k :: i < k <= j ==> !run[k].control.Begin?
    ensures RollsBack(run[j], op)
    ensures run[i].disk.pointer == op.prev ==> run[j].disk.pointer == op.prev
    decreases j - i
  {
    if i < j {
      RunKeepsInv(verified, run, i);
      assert Next(verified, run[i], run[i + 1]);
      RollsBackStep(verified, run[i], run[i + 1], op);
      RollbackIsFinal(verified, run, i + 1, j, op);
    }
  }

  // ---- the one refusal ----

  /** A journaled rollback can be taken up again unless a rollback link was left behind. */
  lemma RefusalExactlyWhenLinkLeft(verified: set<Generation>, run: seq<State>, n: nat)
    requires IsRun(verified, run) && n < |run| && run[n].control == Idle && Has(run[n].disk, Rollback)
    ensures Decision(run[n].disk, run[n].disk.journal.value.op, false) == Idle <==> run[n].disk.rollbackLinks != map[]
  {
    RunKeepsInv(verified, run, n);
  }

  /** And then it is refused for good: nothing on disk changes any more. */
  lemma {:induction false} LeftLinkIsPermanent(verified: set<Generation>, run: seq<State>, i: nat, j: nat)
    requires IsRun(verified, run) && i <= j < |run|
    requires run[i].control == Idle && run[i].disk.rollbackLinks != map[]
    ensures run[i].disk.journal.Some? && run[j].disk == run[i].disk
    ensures run[j].control == Idle || run[j].control == Decide(run[i].disk.journal.value.op, false)
    decreases j
  {
    RunKeepsInv(verified, run, i);
    if i < j {
      LeftLinkIsPermanent(verified, run, i, j - 1);
      assert Next(verified, run[j - 1], run[j - 1 + 1]);
    }
  }

  lemma ExtendRun(verified: set<Generation>, run: seq<State>, t: State) returns (longer: seq<State>)
    requires IsRun(verified, run) && Next(verified, run[|run| - 1], t)
    ensures IsRun(verified, longer) && longer[|longer| - 1] == t
  {
    longer := run + [t];
    forall i | 0 <= i < |longer| - 1 ensures Next(verified, longer[i], longer[i + 1]) {
      hide Next;
      if i < |run| - 1 {
        assert Next(verified, run[i], run[i + 1]);
      }
    }
  }

  /** Any replacement can get as far as the promoting rename. */
  lemma ReachSwap(verified: set<Generation>, op: Operation) returns (run: seq<State>)
    requires op.id == 0 && op.gen in verified && op.prev.Some? && op.prev.value in verified && op.prev.value != op.gen
    ensures IsRun(verified, run)
    ensures run[|run| - 1] ==
              State(Disk(op.prev, map[0 := op.gen], map[], Some(Journal(op, Promote, Promoting)), 1), Swap(op))
  {
    hide RollbackStep, CleanupStep;
    var d := Disk(op.prev, map[], map[], None, 1);
    run := ExtendRun(verified, [State(d.(nextId := 0), Idle)], State(d, Begin(op)));
    d := Journaled(d, op, Promote, Prepared);
    run := ExtendRun(verified, run, State(d, Link(op)));
    d := d.(candidates := map[0 := op.gen]);
    run := ExtendRun(verified, run, State(d, Ready(op)));
    d := Journaled(d, op, Promote, CandidateReady);
    run := ExtendRun(verified, run, State(d, Announce(op)));
    d := Journaled(d, op, Promote, Promoting);
    run := ExtendRun(verified, run, State(d, Swap(op)));
  }

  /**
   The failing case, possible with any two generations: the promoting rename
   takes effect and fails, the handler makes its rollback link, and the process
   dies before the link is renamed.
   */
  lemma CrashLeavesLink(verified: set<Generation>, gen: Generation, prev: Generation) returns (run: seq<State>)
    requires gen in verified && prev in verified && gen != prev
    ensures IsRun(verified, run)
    ensures var last := run[|run| - 1];
            last.control == Idle && Has(last.disk, Rollback) && last.disk.rollbackLinks != map[]
            && last.disk.pointer == Some(gen)
  {
    hide IdleStep, CleanupStep;
    var op := Operation(0, gen, Some(prev));
    run := ReachSwap(verified, op);
    var d := Swapped(run[|run| - 1].disk, op);
    run := ExtendRun(verified, run, State(d, Intend(op)));
    d := Journaled(d, op, Rollback, RollingBack);
    run := ExtendRun(verified, run, State(d, Decide(op, true)));
    run := ExtendRun(verified, run, State(d, LinkBack(op, true)));
    d := d.(rollbackLinks := map[0 := prev]);
    run := ExtendRun(verified, run, State(d, SwapBack(op, true)));
    run := ExtendRun(verified, run, State(d, Idle));
    assert 0 in d.rollbackLinks;
  }

  // ---- the code ----

  datatype Fate = Done | Failed | Died

  datatype Outcome = Selected | Withdrawn | Unresolved

  /** The promotion code working on one pointer; `run` collects every state. */
  class Selector {
    const verified: set<Generation>
    var disk: Disk
    /** Nothing goes wrong from here on: no operation fails and the process does not die. */
    var calm: bool
    ghost var control: Control
    ghost var run: seq<State>

    ghost predicate Valid()
      reads this
    {
      IsRun(verified, run) && run[|run| - 1] == State(disk, control)
    }

    lemma Known()
      requires Valid()
      ensures Inv(verified, State(disk, control))
    {
      RunKeepsInv(verified, run, |run| - 1);
    }

    constructor (verified: set<Generation>, pointer: Option<Generation>, calm: bool)
      requires pointer.Some? ==> pointer.value in verified
      ensures Valid() && control == Idle && this.verified == verified && this.calm == calm
      ensures disk == Disk(pointer, map[], map[], None, 0)
    {
      this.verified := verified;
      this.calm := calm;
      disk := Disk(pointer, map[], map[], None, 0);
      control := Idle;
      run := [State(Disk(pointer, map[], map[], None, 0), Idle)];
    }

    method Become(d: Disk, ghost next: Control)
      requires Valid() && Next(verified, State(disk, control), State(d, next))
      modifies `disk, `control, `run
      ensures Valid() && disk == d && control == next && old(run) <= run
    {
      disk, control := d, next;
      run := run + [State(d, next)];
    }

    method Perform(e: Disk, ghost next: Control, ghost failed: Control) returns (fate: Fate)
      requires Valid() && Next(verified, State(disk, control), State(e, next))
      requires Next(verified, State(disk, control), State(disk, failed))
      requires Next(verified, State(disk, control), State(e, failed))
      modifies `disk, `control, `run
      ensures Valid() && old(run) <= run
      ensures calm ==> fate == Done
      ensures fate == Done ==> disk == e && control == next
      ensures fate == Failed ==> control == failed && (disk == old(disk) || disk == e)
      ensures fate == Died ==> control == Idle && disk == old(disk)
    {
      fate := *;
      if calm { fate := Done; }
      match fate
      case Done => Become(e, next);
      case Died => Become(disk, Idle);
      case Failed =>
        var after: bool := *;
        Become(if after then e else disk, failed);
    }

    method CreateJournal(op: Operation) returns (fate: Fate)
      requires Valid() && control == Begin(op)
      modifies `disk, `control, `run
      ensures Valid() && old(run) <= run && disk.pointer == old(disk.pointer)
      ensures calm ==> fate == Done
      ensures control == if fate == Done then Link(op) else Idle
    {
      fate := Perform(Journaled(disk, op, Promote, Prepared), Link(op), Idle);
    }

    /** The try block of promote_restored_generation from the candidate link up to the rename. */
    method Prepare(op: Operation) returns (fate: Fate)
      requires Valid() && control == Link(op)
      modifies `disk, `control, `run
      ensures Valid() && old(run) <= run
      ensures calm ==> fate == Done
      ensures fate == Done ==> control == Swap(op)
      ensures fate == Failed ==> control == Intend(op)
      ensures fate == Died ==> control == Idle
    {
      hide Inv, IdleStep, RollbackStep, CleanupStep;
      fate := Perform(disk.(candidates := disk.candidates[op.id := op.gen]), Ready(op), Intend(op));
      if fate != Done { return; }
      fate := Perform(Journaled(disk, op, Promote, CandidateReady), Announce(op), Intend(op));
      if fate != Done { return; }
      fate := Perform(Journaled(disk, op, Promote, Promoting), Swap(op), Intend(op));
    }

    /** The try block from the rename on. */
    method SwapAndConfirm(op: Operation) returns (fate: Fate)
      requires Valid() && control == Swap(op)
      modifies `disk, `control, `run
      ensures Valid() && old(run) <= run
      ensures calm ==> fate == Done
      ensures fate == Done ==> control == Idle && disk.journal == None && disk.pointer == Some(op.gen)
      ensures fate == Failed ==> control == Intend(op)
      ensures fate == Died ==> control == Idle
    {
      hide Inv, IdleStep, RollbackStep, CleanupStep;
      fate := Perform(Swapped(disk, op), Confirm(op), Intend(op));
      if fate != Done { return; }
      fate := Perform(Journaled(disk, op, Promote, Promoted), Remove(op), Intend(op));
      if fate != Done { return; }
      fate := Perform(disk.(journal := None), Idle, Intend(op));
    }

    /** `_restore_active_generation_pointer`: point back through a private link. */
    method LinkAndSwapBack(op: Operation, handler: bool) returns (fate: Fate)
      requires Valid() && control == LinkBack(op, handler)
      modifies `disk, `control, `run
      ensures Valid() && old(run) <= run && disk.journal == old(disk.journal)
      ensures calm ==> fate == Done
      ensures control == if fate == Done then Clean(op, handler) else Idle
      ensures disk.pointer == old(disk.pointer) || disk.pointer == op.prev
      ensures fate == Done ==> disk.pointer == op.prev
    {
      Known();
      fate := Perform(disk.(rollbackLinks := disk.rollbackLinks[op.id := op.prev.value]), SwapBack(op, handler), Idle);
      if fate != Done { return; }
      var cleared: bool := *;
      if cleared && !calm {
        // the rename fails and the finally clause removes the link
        Become(disk.(rollbackLinks := disk.rollbackLinks - {op.id}), Idle);
        return Failed;
      }
      fate := Perform(SwappedBack(disk, op), Clean(op, handler), Idle);
    }

    /** The pointer part shared by the handler and recovery. */
    method UndoPointer(op: Operation, handler: bool) returns (fate: Fate)
      requires Valid() && control == Decide(op, handler)
      modifies `disk, `control, `run
      ensures Valid() && old(run) <= run && disk.journal == old(disk.journal)
      ensures calm && op.id !in old(disk.rollbackLinks) ==> fate == Done
      ensures control == if fate == Done then Clean(op, handler) else Idle
      ensures disk.pointer == old(disk.pointer) || disk.pointer == op.prev
      ensures fate == Done ==> disk.pointer == op.prev
      ensures old(op.id in disk.rollbackLinks) ==> fate == Failed && disk == old(disk)
    {
      Known();
      if disk.pointer == Some(op.gen) {
        if op.prev.None? {
          Become(disk, Unset(op, handler));
          fate := Perform(disk.(pointer := None), Clean(op, handler), Idle);
        } else if op.id in disk.rollbackLinks {
          Become(disk, Idle);
          fate := Failed;
        } else {
          Become(disk, LinkBack(op, handler));
          fate := LinkAndSwapBack(op, handler);
        }
      } else {
        Become(disk, Clean(op, handler));
        fate := Done;
      }
    }

    /** Remove the candidate link, note it if the handler is at work, drop the journal. */
    method CleanUp(op: Operation, handler: bool) returns (fate: Fate)
      requires Valid() && control == Clean(op, handler)
      modifies `disk, `control, `run
      ensures Valid() && control == Idle && old(run) <= run && disk.pointer == old(disk.pointer)
      ensures calm ==> fate == Done
      ensures fate == Done ==> disk.journal == None && disk.candidates == map[] && disk.rollbackLinks == map[]
    {
      Known();
      fate := Perform(disk.(candidates := disk.candidates - {op.id}), if handler then Record(op) else Drop(op), Idle);
      if fate != Done { return; }
      if handler {
        fate := Perform(Journaled(disk, op, Rollback, RolledBack), Drop(op), Idle);
        if fate != Done { return; }
      }
      fate := Perform(disk.(journal := None), Idle, Idle);
    }

    /** `_rollback_active_generation_promotion`. */
    method HandleFailure(op: Operation) returns (fate: Fate)
      requires Valid() && control == Intend(op)
      modifies `disk, `control, `run
      ensures Valid() && control == Idle && old(run) <= run
      ensures calm ==> fate == Done
      ensures fate == Done ==> disk.journal == None && disk.pointer == op.prev
    {
      Known();
      fate := Perform(Journaled(disk, op, Rollback, RollingBack), Decide(op, true), Idle);
      if fate != Done { return; }
      fate := UndoPointer(op, true);
      if fate != Done { return; }
      fate := CleanUp(op, true);
    }

    /**
     promote_restored_generation once recovery found nothing pending: the new
     generation is selected, or the old selection stands, or the process died or
     could not finish its rollback.
     */
    method Select(gen: Generation) returns (outcome: Outcome)
      requires Valid() && control == Idle && disk.journal == None && gen in verified
      modifies `disk, `control, `run
      ensures Valid() && control == Idle && old(run) <= run
      ensures calm ==> outcome == Selected
      ensures outcome == Selected ==> disk.pointer == Some(gen) && disk.journal == None
      ensures outcome == Withdrawn ==> disk.pointer == old(disk.pointer)
    {
      if disk.pointer == Some(gen) {
        return Selected;
      }
      var op := Operation(disk.nextId, gen, disk.pointer);
      Become(disk.(nextId := disk.nextId + 1), Begin(op));
      var fate := CreateJournal(op);
      if fate != Done {
        return if fate == Failed then Withdrawn else Unresolved;
      }
      fate := Prepare(op);
      if fate == Done {
        fate := SwapAndConfirm(op);
      }
      if fate == Failed {
        fate := HandleFailure(op);
        return if fate == Done then Withdrawn else Unresolved;
      }
      outcome := if fate == Done then Selected else Unresolved;
    }

    /**
     recover_active_generation_promotion, once its journal checks have passed.
     It never selects the new generation itself, and it refuses when a rollback
     link was left behind.
     */
    method Recover() returns (fate: Fate)
      requires Valid() && control == Idle
      modifies `disk, `control, `run
      ensures Valid() && control == Idle && old(run) <= run
      ensures calm && old(disk.rollbackLinks) == map[] ==> fate == Done
      ensures old(disk.journal) == None ==> fate == Done && disk == old(disk)
      ensures fate == Done ==> disk.journal == None && disk.candidates == map[] && disk.rollbackLinks == map[]
      ensures old(Has(disk, Promote)) ==> disk.pointer == old(disk.pointer)
      ensures old(Has(disk, Rollback)) ==>
          disk.pointer == old(disk.pointer) || disk.pointer == old(disk).journal.value.op.prev
      ensures old(Has(disk, Rollback)) && fate == Done ==> disk.pointer == old(disk).journal.value.op.prev
      ensures old(disk.rollbackLinks) != map[] ==> fate == Failed && disk == old(disk)
    {
      Known();
      if disk.journal.None? {
        return Done;
      }
      var op := disk.journal.value.op;
      if disk.journal.value.intent == Rollback {
        Become(disk, Decide(op, false));
        fate := UndoPointer(op, false);
        if fate != Done { return; }
      } else {
        Become(disk, Clean(op, false));
      }
      fate := CleanUp(op, false);
    }
  }
}
