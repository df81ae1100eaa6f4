/**
 The raw-copy fallback for SQLite snapshots: fingerprint the members, copy them,
 fingerprint them again, and use the copy only if nothing moved, while a writer
 keeps changing the files.
 */
module SnapshotCopy {
  import opened Wrappers

  /** The database file and the two sidecars that hold persistent state. */
  datatype Member = Main | Wal | RollbackJournal

  /** A file's identity stamp (inode, modification time, size) and its blocks. */
  datatype File = File(stamp: nat, blocks: seq<int>)

  type Directory = map<Member, File>

  /** The source directory at every instant. */
  type History = nat -> Directory

  /** The file was the same from one instant to the other. */
  ghost predicate Stable(h: History, m: Member, from: nat, to: nat) {
    m in h(from) && forall t :: from <= t <= to ==> m in h(t) && h(t)[m] == h(from)[m]
  }

  ghost predicate SameStamp(h: History, m: Member, from: nat, to: nat) {
    from <= to && m in h(from) && m in h(to) && h(from)[m].stamp == h(to)[m].stamp
  }

  /** The writer gives every write a stamp of its own, so equal stamps mean nothing happened in between. */
  ghost predicate FreshStamps(h: History) {
    forall m, s, u :: SameStamp(h, m, s, u) ==> Stable(h, m, s, u)
  }

  /** At instant t every copied member was there with exactly the copied blocks. */
  ghost predicate Coexisted(h: History, t: nat, copy: map<Member, seq<int>>) {
    forall m :: m in copy ==> m in h(t) && h(t)[m].blocks == copy[m]
  }

  /** At instant t the copy was the whole directory: every member there was, with its blocks. */
  ghost predicate Whole(h: History, t: nat, copy: map<Member, seq<int>>) {
    Coexisted(h, t, copy) && forall m :: m in h(t) ==> m in copy
  }

  type Prints = seq<(Member, nat)>

  /** Every step of the reader takes time. */
  method Later(now: nat) returns (t: nat)
    ensures t > now
  {
    t :| t > now;
  }

  /** m was there at some instant of [from, to]. */
  ghost predicate PresentOnce(h: History, m: Member, from: nat, to: nat) {
    exists t :: from <= t <= to && m in h(t)
  }

  /** m was absent at some instant of [from, to]. */
  ghost predicate AbsentOnce(h: History, m: Member, from: nat, to: nat) {
    exists t :: from <= t <= to && m !in h(t)
  }

  /** Nothing in the directory changes from one instant to the other. */
  ghost predicate Still(h: History, from: nat, to: nat) {
    forall t :: from <= t <= to ==> h(t) == h(from)
  }

  lemma StillInside(h: History, from: nat, a: nat, b: nat, to: nat)
    requires Still(h, from, to) && from <= a <= b <= to
    ensures Still(h, a, b) && h(a) == h(from)
  {
  }

  /** The members of ms that the directory has, in the order of ms. */
  ghost function Present(d: Directory, ms: seq<Member>): seq<Member> {
    if ms == [] then []
    else
      var last := ms[|ms| - 1];
      Present(d, ms[..|ms| - 1]) + if last in d then [last] else []
  }

  const ALL_MEMBERS := [Main, Wal, RollbackJournal]

  lemma {:induction false} PresentExactly(d: Directory, ms: seq<Member>)
    ensures forall m :: m in Present(d, ms) <==> m in ms && m in d
  {
    if ms != [] {
      PresentExactly(d, ms[..|ms| - 1]);
      assert ms == ms[..|ms| - 1] + [ms[|ms| - 1]];
    }
  }

  lemma AllAreMembers(m: Member)
    ensures m in ALL_MEMBERS
  {
    match m
    case Main => assert ALL_MEMBERS[0] == m;
    case Wal => assert ALL_MEMBERS[1] == m;
    case RollbackJournal => assert ALL_MEMBERS[2] == m;
  }

  /** `_sqlite_source_members`: each of the three files is looked for in turn. */
  method ListMembers(h: History, start: nat) returns (members: seq<Member>, now: nat)
    ensures now > start
    ensures forall m :: m in members ==> PresentOnce(h, m, start + 1, now)
    ensures forall m :: m !in members ==> AbsentOnce(h, m, start + 1, now)
    ensures Still(h, start, now) ==> members == Present(h(start), ALL_MEMBERS)
  {
    members := [];
    now := start;
    var all := ALL_MEMBERS;
    for i := 0 to |all|
      invariant now >= start && (i > 0 ==> now > start)
      invariant forall m :: m in members ==> m in all[..i] && PresentOnce(h, m, start + 1, now)
      invariant forall m :: m in all[..i] && m !in members ==> AbsentOnce(h, m, start + 1, now)
      invariant Still(h, start, now) ==> members == Present(h(start), all[..i])
    {
      assert all[..i + 1] == all[..i] + [all[i]] && all[..i + 1][..i] == all[..i];
      now := Later(now);
      if all[i] in h(now) {
        assert PresentOnce(h, all[i], start + 1, now);
        members := members + [all[i]];
      } else {
        assert AbsentOnce(h, all[i], start + 1, now);
      }
    }
    assert all[..|all|] == all;
    forall m | m !in members ensures AbsentOnce(h, m, start + 1, now) {
      AllAreMembers(m);
    }
  }

  /** Print i was taken of its member at some instant of [from, to]. */
  ghost predicate Seen(h: History, mark: (Member, nat), from: nat, to: nat) {
    exists t :: from <= t <= to && mark.0 in h(t) && h(t)[mark.0].stamp == mark.1
  }

  /** The prints of members that are all there. */
  ghost function PrintsOf(d: Directory, members: seq<Member>): Prints
    requires forall m :: m in members ==> m in d
  {
    seq(|members|, i requires 0 <= i < |members| => (members[i], d[members[i]].stamp))
  }

  /** A member of the list was absent once. */
  ghost predicate SomeVanished(h: History, members: seq<Member>, from: nat, to: nat) {
    exists m :: m in members && AbsentOnce(h, m, from, to)
  }

  /** `_sqlite_source_fingerprint`: one member after the other; a vanished one fails the attempt. */
  method Fingerprint(h: History, members: seq<Member>, start: nat) returns (r: Option<Prints>, now: nat)
    ensures now >= start
    ensures r.Some? ==> |r.value| == |members|
    ensures r.Some? ==> forall i :: 0 <= i < |members| ==> r.value[i].0 == members[i] && Seen(h, r.value[i], start, now)
    ensures r.None? ==> SomeVanished(h, members, start, now)
    ensures Still(h, start, now) && (forall m :: m in members ==> m in h(start)) ==>
              r == Some(PrintsOf(h(start), members))
  {
    var prints: Prints := [];
    now := start;
    for i := 0 to |members|
      invariant now >= start && |prints| == i
      invariant forall j :: 0 <= j < i ==> prints[j].0 == members[j] && Seen(h, prints[j], start, now)
      invariant Still(h, start, now) && (forall m :: m in members ==> m in h(start)) ==>
                  forall j :: 0 <= j < i ==> prints[j] == PrintsOf(h(start), members)[j]
    {
      ghost var was := now;
      now := Later(now);
      assert members[i] in members;
      if members[i] !in h(now) {
        assert AbsentOnce(h, members[i], start, now);
        return None, now;
      }
      forall j | 0 <= j < i ensures Seen(h, prints[j], start, now) {
        SeenLonger(h, prints[j], start, was, now);
      }
      prints := prints + [(members[i], h(now)[members[i]].stamp)];
      assert Seen(h, prints[i], start, now);
    }
    assert Still(h, start, now) && (forall m :: m in members ==> m in h(start)) ==>
        prints == PrintsOf(h(start), members);
    r := Some(prints);
  }

  lemma SeenLonger(h: History, mark: (Member, nat), from: nat, to: nat, later: nat)
    requires Seen(h, mark, from, to) && to <= later
    ensures Seen(h, mark, from, later)
  {
    var t :| from <= t <= to && mark.0 in h(t) && h(t)[mark.0].stamp == mark.1;
    assert from <= t <= later;
  }

  /** m had more than `limit` blocks at some instant of [from, to]. */
  ghost predicate TooLong(h: History, m: Member, from: nat, to: nat, limit: nat) {
    exists t :: from <= t <= to && m in h(t) && |h(t)[m].blocks| > limit
  }

  /**
   `shutil.copyfile`: block by block, each read at its own time, followed for at
   most `limit` blocks because a file may grow for ever.
   */
  method CopyFile(h: History, m: Member, start: nat, limit: nat) returns (r: Option<seq<int>>, now: nat)
    ensures now >= start
    ensures r.Some? ==> forall end :: end >= now && Stable(h, m, start, end) ==> r.value == h(start)[m].blocks
    ensures r.None? ==> forall end :: end >= now && Stable(h, m, start, end) ==> |h(start)[m].blocks| > limit
    ensures r.None? ==> AbsentOnce(h, m, start, now) || TooLong(h, m, start, now, limit)
  {
    var blocks: seq<int> := [];
    now := start;
    while true
      invariant now >= start && |blocks| <= limit
      invariant forall end :: end >= now && Stable(h, m, start, end) ==> blocks <= h(start)[m].blocks
      decreases limit - |blocks|
    {
      now := Later(now);
      if m !in h(now) {
        assert AbsentOnce(h, m, start, now);
        return None, now;
      }
      var file := h(now)[m];
      forall end | end >= now && Stable(h, m, start, end) ensures file == h(start)[m] {
        StableLater(h, m, start, now, end);
      }
      if |blocks| >= |file.blocks| {
        forall end | end >= now && Stable(h, m, start, end) ensures blocks == h(start)[m].blocks {
          assert blocks <= h(start)[m].blocks;
        }
        return Some(blocks), now;
      }
      if |blocks| == limit {
        assert TooLong(h, m, start, now, limit);
        return None, now;
      }
      blocks := blocks + [file.blocks[|blocks|]];
    }
  }

  lemma SamePrintsMeanStable(h: History, mark: (Member, nat), a: nat, b: nat, c: nat, d: nat)
    requires FreshStamps(h) && Seen(h, mark, a, b) && Seen(h, mark, c, d) && b <= c
    ensures Stable(h, mark.0, b, c)
  {
    var s :| a <= s <= b && mark.0 in h(s) && h(s)[mark.0].stamp == mark.1;
    var u :| c <= u <= d && mark.0 in h(u) && h(u)[mark.0].stamp == mark.1;
    assert SameStamp(h, mark.0, s, u);
    StableLater(h, mark.0, s, b, u);
  }

  lemma StableLater(h: History, m: Member, from: nat, mid: nat, to: nat)
    requires Stable(h, m, from, to) && from <= mid <= to
    ensures Stable(h, m, mid, to) && h(mid)[m] == h(from)[m]
  {
  }

  datatype Attempt = Unreadable | Moved | Copied(copy: map<Member, seq<int>>)

  /** Copies of members that turn out not to have moved since instant t are exact. */
  ghost predicate ExactIfStable(h: History, t: nat, now: nat, members: seq<Member>, copy: map<Member, seq<int>>) {
    && (forall m :: m in copy <==> m in members)
    && forall m, end :: m in copy && end >= now && Stable(h, m, t, end) ==> copy[m] == h(t)[m].blocks
  }

  /** A member of the list was absent once, or too long. */
  ghost predicate SomeUncopied(h: History, members: seq<Member>, from: nat, to: nat, limit: nat) {
    exists m :: m in members && (AbsentOnce(h, m, from, to) || TooLong(h, m, from, to, limit))
  }

  method CopyAll(h: History, members: seq<Member>, start: nat, limit: nat)
    returns (r: Option<map<Member, seq<int>>>, now: nat)
    ensures now >= start
    ensures r.Some? ==> ExactIfStable(h, start, now, members, r.value)
    ensures r.None? ==> SomeUncopied(h, members, start, now, limit)
  {
    var copy: map<Member, seq<int>> := map[];
    now := start;
    for i := 0 to |members|
      invariant now >= start && ExactIfStable(h, start, now, members[..i], copy)
    {
      var was := now;
      var blocks;
      blocks, now := CopyFile(h, members[i], was, limit);
      if blocks.None? {
        UncopiedLonger(h, members, i, start, was, now, limit);
        return None, now;
      }
      forall end | end >= now && Stable(h, members[i], start, end) ensures blocks.value == h(start)[members[i]].blocks {
        StableLater(h, members[i], start, was, end);
      }
      copy := copy[members[i] := blocks.value];
      assert members[..i + 1] == members[..i] + [members[i]];
    }
    assert members[..|members|] == members;
    r := Some(copy);
  }

  lemma UncopiedLonger(h: History, members: seq<Member>, i: nat, start: nat, was: nat, now: nat, limit: nat)
    requires i < |members| && start <= was <= now
    requires AbsentOnce(h, members[i], was, now) || TooLong(h, members[i], was, now, limit)
    ensures SomeUncopied(h, members, start, now, limit)
  {
    var m := members[i];
    assert m in members;
    if AbsentOnce(h, m, was, now) {
      var t :| was <= t <= now && m !in h(t);
      assert AbsentOnce(h, m, start, now);
    } else {
      var t :| was <= t <= now && m in h(t) && |h(t)[m].blocks| > limit;
      assert TooLong(h, m, start, now, limit);
    }
  }

  /**
   What a successful pass has seen: throughout [from, to] every copied member
   stood with exactly the copied blocks, and every other member was absent once
   before and once within.
   */
  ghost predicate Observed(h: History, start: nat, from: nat, to: nat, copy: map<Member, seq<int>>) {
    && start <= from <= to && Main in copy
    && (forall m :: m in copy ==> Stable(h, m, from, to) && h(from)[m].blocks == copy[m])
    && (forall m :: m !in copy ==> AbsentOnce(h, m, start, from) && AbsentOnce(h, m, from, to))
  }

  /** Why a pass can fail: no main file, a member that was there and was not, or a file that is too long. */
  ghost predicate Trouble(h: History, from: nat, to: nat, limit: nat) {
    || AbsentOnce(h, Main, from, to)
    || exists m :: (PresentOnce(h, m, from, to) && AbsentOnce(h, m, from, to)) || TooLong(h, m, from, to, limit)
  }

  lemma AbsentLonger(h: History, m: Member, a: nat, b: nat, from: nat, to: nat)
    requires AbsentOnce(h, m, a, b) && from <= a && b <= to
    ensures AbsentOnce(h, m, from, to)
  {
    var t :| a <= t <= b && m !in h(t);
  }

  lemma PresentLonger(h: History, m: Member, a: nat, b: nat, from: nat, to: nat)
    requires PresentOnce(h, m, a, b) && from <= a && b <= to
    ensures PresentOnce(h, m, from, to)
  {
    var t :| a <= t <= b && m in h(t);
  }

  lemma UncopiedIsTrouble(h: History, members: seq<Member>, l: nat, a: nat, b: nat, from: nat, to: nat, limit: nat)
    requires from <= a && b <= to && from < l <= to && SomeUncopied(h, members, a, b, limit)
    requires forall m :: m in members ==> PresentOnce(h, m, from + 1, l)
    ensures Trouble(h, from, to, limit)
  {
    hide AbsentOnce, PresentOnce;
    var m :| m in members && (AbsentOnce(h, m, a, b) || TooLong(h, m, a, b, limit));
    if AbsentOnce(h, m, a, b) {
      AbsentLonger(h, m, a, b, from, to);
      PresentLonger(h, m, from + 1, l, from, to);
    } else {
      var t :| a <= t <= b && m in h(t) && |h(t)[m].blocks| > limit;
      assert TooLong(h, m, from, to, limit);
    }
  }

  lemma VanishedIsUncopied(h: History, members: seq<Member>, a: nat, b: nat, limit: nat)
    requires SomeVanished(h, members, a, b)
    ensures SomeUncopied(h, members, a, b, limit)
  {
  }

  /** When nothing changes, both passes list and print the same. */
  lemma PassesAgree(h: History, start: nat, listed: nat, from: nat, copied: nat, to: nat, now: nat,
      members: seq<Member>, before: Option<Prints>, members': seq<Member>, after: Option<Prints>)
    requires start < listed <= from <= copied < to <= now && Still(h, start, now)
    requires Still(h, start, listed) ==> members == Present(h(start), ALL_MEMBERS)
    requires Still(h, copied, to) ==> members' == Present(h(copied), ALL_MEMBERS)
    requires Still(h, listed, from) && (forall m :: m in members ==> m in h(listed)) ==>
               before == Some(PrintsOf(h(listed), members))
    requires Still(h, to, now) && (forall m :: m in members' ==> m in h(to)) ==>
               after == Some(PrintsOf(h(to), members'))
    ensures members == members' == Present(h(start), ALL_MEMBERS) && before == after && before.Some?
  {
    StillInside(h, start, start, listed, now);
    StillInside(h, start, copied, to, now);
    StillInside(h, start, listed, from, now);
    StillInside(h, start, to, now, now);
    PresentExactly(h(start), ALL_MEMBERS);
    hide Still, Present;
  }

  ghost function BlocksOf(d: Directory): map<Member, seq<int>> {
    map m | m in d :: d[m].blocks
  }

  /** A copy of members that stood still is the directory. */
  lemma StillCopy(h: History, start: nat, from: nat, to: nat, now: nat, members: seq<Member>,
      copy: map<Member, seq<int>>)
    requires start <= from <= to <= now && Still(h, start, now) && members == Present(h(start), ALL_MEMBERS)
    requires (forall m :: m in copy <==> m in members) && Observed(h, start, from, to, copy)
    ensures copy == BlocksOf(h(start))
  {
    PresentExactly(h(start), ALL_MEMBERS);
    StillInside(h, start, from, to, now);
    forall m ensures m in copy <==> m in h(start) {
      AllAreMembers(m);
    }
    assert copy.Keys == BlocksOf(h(start)).Keys;
  }

  lemma MakesObserved(h: History, start: nat, listed: nat, from: nat, copied: nat, to: nat, now: nat,
      members: seq<Member>, prints: Prints, copy: map<Member, seq<int>>)
    requires FreshStamps(h) && start < listed <= from <= copied < to <= now && Main in members
    requires |prints| == |members| && forall i :: 0 <= i < |members| ==>
               prints[i].0 == members[i] && Seen(h, prints[i], listed, from) && Seen(h, prints[i], to, now)
    requires ExactIfStable(h, from, copied, members, copy)
    requires forall m :: m !in members ==> AbsentOnce(h, m, start + 1, listed) && AbsentOnce(h, m, copied + 1, to)
    ensures Observed(h, start, from, to, copy)
  {
    hide Seen, AbsentOnce, FreshStamps;
    forall m | m in copy ensures Stable(h, m, from, to) && h(from)[m].blocks == copy[m] {
      var i :| 0 <= i < |members| && members[i] == m;
      SamePrintsMeanStable(h, prints[i], listed, from, to, now);
    }
    forall m | m !in copy ensures AbsentOnce(h, m, start, from) && AbsentOnce(h, m, from, to) {
      AbsentLonger(h, m, start + 1, listed, start, from);
      AbsentLonger(h, m, copied + 1, to, from, to);
    }
  }

  /** One pass of the retry loop. */
  method TakeOnce(h: History, start: nat, limit: nat) returns (r: Attempt, now: nat, ghost from: nat, ghost to: nat)
    requires FreshStamps(h)
    ensures now > start
    ensures r.Copied? ==> to <= now && Observed(h, start, from, to, r.copy)
    ensures r.Copied? && Still(h, start, now) ==> r.copy == BlocksOf(h(start))
    ensures r.Unreadable? ==> Trouble(h, start, now, limit)
    ensures r.Moved? ==> !Still(h, start, now)
  {
    hide FreshStamps, AbsentOnce, PresentOnce, Still, Present, Seen, ExactIfStable, SomeVanished, SomeUncopied,
         Observed, PrintsOf, BlocksOf, TooLong;
    from, to := start, start;
    var members;
    members, now := ListMembers(h, start);
    ghost var listed := now;
    if Main !in members {
      AbsentLonger(h, Main, start + 1, now, start, now);
      return Unreadable, now, from, to;
    }
    var before;
    before, now := Fingerprint(h, members, now);
    if before.None? {
      VanishedIsUncopied(h, members, listed, now, limit);
      UncopiedIsTrouble(h, members, listed, listed, now, start, now, limit);
      return Unreadable, now, from, to;
    }
    from := now;
    var copy;
    copy, now := CopyAll(h, members, now, limit);
    if copy.None? {
      UncopiedIsTrouble(h, members, listed, from, now, start, now, limit);
      return Unreadable, now, from, to;
    }
    ghost var copied := now;
    var members';
    members', now := ListMembers(h, now);
    if Main !in members' {
      AbsentLonger(h, Main, copied + 1, now, start, now);
      return Unreadable, now, from, to;
    }
    to := now;
    var after;
    after, now := Fingerprint(h, members', now);
    if after.None? {
      VanishedIsUncopied(h, members', to, now, limit);
      SecondListing(h, members', start, copied, to);
      UncopiedIsTrouble(h, members', to, to, now, start, now, limit);
      return Unreadable, now, from, to;
    }
    if Still(h, start, now) {
      PassesAgree(h, start, listed, from, copied, to, now, members, before, members', after);
    }
    if before.value != after.value {
      return Moved, now, from, to;
    }
    assert members == members' by {
      assert forall i :: 0 <= i < |members| ==> members[i] == before.value[i].0 == members'[i];
    }
    MakesObserved(h, start, listed, from, copied, to, now, members, before.value, copy.value);
    CopyHasMembers(h, from, copied, members, copy.value);
    if Still(h, start, now) {
      StillCopy(h, start, from, to, now, members, copy.value);
    }
    r := Copied(copy.value);
  }

  lemma CopyHasMembers(h: History, t: nat, now: nat, members: seq<Member>, copy: map<Member, seq<int>>)
    requires ExactIfStable(h, t, now, members, copy)
    ensures forall m :: m in copy <==> m in members
  {
  }

  lemma SecondListing(h: History, members: seq<Member>, start: nat, copied: nat, to: nat)
    requires start <= copied && forall m :: m in members ==> PresentOnce(h, m, copied + 1, to)
    ensures forall m :: m in members ==> PresentOnce(h, m, start + 1, to)
  {
    hide PresentOnce;
    forall m | m in members ensures PresentOnce(h, m, start + 1, to) {
      PresentLonger(h, m, copied + 1, to, start + 1, to);
    }
  }

  lemma StillMeansNoTrouble(h: History, from: nat, to: nat, limit: nat)
    requires from <= to && Still(h, from, to) && Main in h(from)
    requires forall m :: m in h(from) ==> |h(from)[m].blocks| <= limit
    ensures !Trouble(h, from, to, limit)
  {
  }

  /** Where the next pass begins, after passes that ended at these instants. */
  ghost function Reached(start: nat, ends: seq<nat>): nat {
    if ends == [] then start else ends[|ends| - 1]
  }

  /** Passes that end at these instants, one after the other, each of which saw a change. */
  ghost predicate AllMoved(h: History, start: nat, ends: seq<nat>) {
    ends == [] ||
    var front, last := ends[..|ends| - 1], ends[|ends| - 1];
    AllMoved(h, start, front) && Reached(start, front) < last && !Still(h, Reached(start, front), last)
  }

  /** Why there is no copy: every pass up to the deadline saw a change, or the last of them met trouble. */
  ghost predicate GaveUp(h: History, start: nat, deadline: nat, limit: nat, ends: seq<nat>) {
    || (AllMoved(h, start, ends) && Reached(start, ends) >= deadline)
    || (ends != [] && AllMoved(h, start, ends[..|ends| - 1])
        && Trouble(h, Reached(start, ends[..|ends| - 1]), ends[|ends| - 1], limit))
  }

  /** The directory has its main file, nothing in it is too long, and it never changes again. */
  ghost predicate StandsStill(h: History, start: nat, limit: nat) {
    && Main in h(start) && (forall m :: m in h(start) ==> |h(start)[m].blocks| <= limit)
    && forall t :: t >= start ==> h(t) == h(start)
  }

  /**
   `_dump_sqlite_staged_with_retry`: a copy is used only if throughout a window
   of time all its members stood side by side with exactly these contents,
   although they were fingerprinted and read one after the other and block by
   block.  It is the whole directory at some instant of that window, except
   when it holds no sidecar and the two sidecars took turns all along.  A
   directory that stands still is copied whole at the first attempt.
   */
  method StagedSnapshot(h: History, start: nat, deadline: nat, limit: nat)
    returns (r: Option<map<Member, seq<int>>>, ghost from: nat, ghost to: nat)
    requires FreshStamps(h)
    ensures r.Some? ==> Main in r.value && exists t :: start <= t && Coexisted(h, t, r.value)
    ensures r.Some? && r.value.Keys != {Main} ==> exists t :: start <= t && Whole(h, t, r.value)
    ensures start < deadline && StandsStill(h, start, limit) ==> r == Some(map m | m in h(start) :: h(start)[m].blocks)
    ensures r.None? ==> exists ends :: GaveUp(h, start, deadline, limit, ends)
    ensures r.Some? ==> Observed(h, start, from, to, r.value)
    ensures r.Some? ==> forall t :: from <= t <= to ==> Coexisted(h, t, r.value)
    ensures r.Some? ==> (WholeWithin(h, from, to, r.value) <==> !(r.value.Keys == {Main} && TakeTurns(h, from, to)))
  {
    hide FreshStamps, Still, Trouble, Observed, WholeWithin, TakeTurns, Coexisted, Whole, StandsStill, AllMoved,
         GaveUp, Reached;
    from, to := start, start;
    var now := start;
    ghost var ends: seq<nat> := [];
    NoPassYet(h, start);
    while now < deadline
      invariant now >= start && AllMoved(h, start, ends) && now == Reached(start, ends)
      invariant StandsStill(h, start, limit) ==> now == start
      decreases deadline - now
    {
      var attempt;
      ghost var since := now;
      attempt, now, from, to := TakeOnce(h, now, limit);
      if StandsStill(h, start, limit) {
        FirstPassCopies(h, start, now, limit);
      }
      if attempt.Copied? {
        ObservedEarlier(h, start, since, from, to, attempt.copy);
        CopyFacts(h, start, from, to, attempt.copy);
        return Some(attempt.copy), from, to;
      }
      if attempt.Unreadable? {
        EndsInTrouble(h, start, deadline, limit, ends, now);
        return None, from, to;
      }
      MovedOn(h, start, ends, now);
      ends := ends + [now];
    }
    EndsAtDeadline(h, start, deadline, limit, ends);
    r := None;
  }

  lemma NoPassYet(h: History, start: nat)
    ensures AllMoved(h, start, []) && Reached(start, []) == start
  {
  }

  lemma MovedOn(h: History, start: nat, ends: seq<nat>, now: nat)
    requires AllMoved(h, start, ends) && Reached(start, ends) < now && !Still(h, Reached(start, ends), now)
    ensures AllMoved(h, start, ends + [now]) && Reached(start, ends + [now]) == now
  {
    assert (ends + [now])[..|ends|] == ends;
  }

  lemma EndsInTrouble(h: History, start: nat, deadline: nat, limit: nat, ends: seq<nat>, now: nat)
    requires AllMoved(h, start, ends) && Trouble(h, Reached(start, ends), now, limit)
    ensures exists ends' :: GaveUp(h, start, deadline, limit, ends')
  {
    assert (ends + [now])[..|ends|] == ends;
    assert GaveUp(h, start, deadline, limit, ends + [now]);
  }

  lemma EndsAtDeadline(h: History, start: nat, deadline: nat, limit: nat, ends: seq<nat>)
    requires AllMoved(h, start, ends) && Reached(start, ends) >= deadline
    ensures exists ends' :: GaveUp(h, start, deadline, limit, ends')
  {
    assert GaveUp(h, start, deadline, limit, ends);
  }

  lemma CopyFacts(h: History, start: nat, from: nat, to: nat, copy: map<Member, seq<int>>)
    requires Observed(h, start, from, to, copy)
    ensures start <= from && Main in copy && exists t :: start <= t && Coexisted(h, t, copy)
    ensures copy.Keys != {Main} ==> exists t :: start <= t && Whole(h, t, copy)
    ensures forall t :: from <= t <= to ==> Coexisted(h, t, copy)
    ensures WholeWithin(h, from, to, copy) <==> !(copy.Keys == {Main} && TakeTurns(h, from, to))
  {
    WholeExactly(h, start, from, to, copy);
    hide Coexisted, Whole, TakeTurns;
    assert Coexisted(h, from, copy);
  }

  lemma FirstPassCopies(h: History, start: nat, now: nat, limit: nat)
    requires start <= now && StandsStill(h, start, limit)
    ensures Still(h, start, now) && !Trouble(h, start, now, limit)
  {
    StillMeansNoTrouble(h, start, now, limit);
  }

  lemma ObservedEarlier(h: History, start: nat, since: nat, from: nat, to: nat, copy: map<Member, seq<int>>)
    requires start <= since && Observed(h, since, from, to, copy)
    ensures Observed(h, start, from, to, copy)
  {
    forall m | m !in copy ensures AbsentOnce(h, m, start, from) {
      var t :| since <= t <= from && m !in h(t);
    }
  }

  // ---- is the copy the whole directory? ----

  ghost predicate WholeWithin(h: History, from: nat, to: nat, copy: map<Member, seq<int>>) {
    exists t :: from <= t <= to && Whole(h, t, copy)
  }

  /** At every instant one sidecar or the other is there. */
  ghost predicate TakeTurns(h: History, from: nat, to: nat) {
    forall t :: from <= t <= to ==> Wal in h(t) || RollbackJournal in h(t)
  }

  lemma CopiedThroughout(h: History, start: nat, from: nat, to: nat, copy: map<Member, seq<int>>, t: nat)
    requires Observed(h, start, from, to, copy) && from <= t <= to
    ensures Coexisted(h, t, copy)
  {
  }

  /** With a sidecar in the copy at most one member is missing, and it was absent while the others stood. */
  lemma SidecarMakesItWhole(h: History, start: nat, from: nat, to: nat, copy: map<Member, seq<int>>)
    requires Observed(h, start, from, to, copy) && (Wal in copy || RollbackJournal in copy)
    ensures WholeWithin(h, from, to, copy)
  {
    var missing := if Wal in copy then RollbackJournal else Wal;
    var t := from;
    if missing !in copy {
      t :| from <= t <= to && missing !in h(t);
    }
    CopiedThroughout(h, start, from, to, copy, t);
    assert Whole(h, t, copy) by {
      forall m | m in h(t) ensures m in copy {
        match m
        case Main =>
        case Wal =>
        case RollbackJournal =>
      }
    }
  }

  lemma MainAloneIsWhole(h: History, start: nat, from: nat, to: nat, copy: map<Member, seq<int>>)
    requires Observed(h, start, from, to, copy) && Wal !in copy && RollbackJournal !in copy
    ensures WholeWithin(h, from, to, copy) <==> !TakeTurns(h, from, to)
  {
    if !TakeTurns(h, from, to) {
      var t :| from <= t <= to && Wal !in h(t) && RollbackJournal !in h(t);
      CopiedThroughout(h, start, from, to, copy, t);
      assert Whole(h, t, copy) by {
        forall m | m in h(t) ensures m in copy {
          match m
          case Main =>
          case Wal =>
          case RollbackJournal =>
        }
      }
    }
  }

  /** The copy is whole at some instant exactly unless it is the main file alone and the sidecars take turns. */
  lemma WholeExactly(h: History, start: nat, from: nat, to: nat, copy: map<Member, seq<int>>)
    requires Observed(h, start, from, to, copy)
    ensures WholeWithin(h, from, to, copy) <==> !(copy.Keys == {Main} && TakeTurns(h, from, to))
    ensures forall t :: from <= t <= to ==> Coexisted(h, t, copy)
  {
    hide WholeWithin, TakeTurns;
    if Wal in copy || RollbackJournal in copy {
      SidecarMakesItWhole(h, start, from, to, copy);
    } else {
      assert copy.Keys == {Main} by {
        forall m | m in copy ensures m == Main {
          match m
          case Main =>
          case Wal =>
          case RollbackJournal =>
        }
      }
      MainAloneIsWhole(h, start, from, to, copy);
    }
  }

  /** A database that only ever uses one kind of sidecar is always copied whole. */
  lemma OneSidecarKindIsCopiedWhole(h: History, start: nat, from: nat, to: nat, copy: map<Member, seq<int>>,
      unused: Member)
    requires Observed(h, start, from, to, copy) && unused != Main && forall t :: unused !in h(t)
    ensures WholeWithin(h, from, to, copy)
  {
    WholeExactly(h, start, from, to, copy);
    var other := if unused == Wal then RollbackJournal else Wal;
    if other !in copy {
      var t :| from <= t <= to && other !in h(t);
      assert unused !in h(t);
      assert !TakeTurns(h, from, to);
    }
  }

  /** The main file stands still while a log and a rollback journal take turns, each written anew. */
  function Alternating(t: nat): Directory {
    map[Main := File(1, [7]), if t % 2 == 0 then Wal else RollbackJournal := File(t, [t])]
  }

  /**
   The failing case: both listings look for each sidecar when it is not there,
   the prints agree, and at no instant at all was the main file alone.
   */
  lemma AlternatingSidecarsGoUnseen()
    ensures FreshStamps(Alternating) && Observed(Alternating, 0, 5, 10, map[Main := [7]])
    ensures Wal !in Alternating(3) && RollbackJournal !in Alternating(4)
    ensures Wal !in Alternating(9) && RollbackJournal !in Alternating(10)
    ensures forall t :: !Whole(Alternating, t, map[Main := [7]])
  {
    var h: History := Alternating;
    forall m, s, u | SameStamp(h, m, s, u) ensures Stable(h, m, s, u) {
      assert m != Main ==> s == u;
    }
    assert Wal !in h(3) && RollbackJournal !in h(4) && Wal !in h(9) && RollbackJournal !in h(10);
    forall t ensures !Whole(h, t, map[Main := [7]]) {
      assert Wal in h(t) || RollbackJournal in h(t);
    }
    forall m | m !in map[Main := [7]] ensures AbsentOnce(h, m, 0, 5) && AbsentOnce(h, m, 5, 10) {
      match m
      case Main =>
      case Wal =>
      case RollbackJournal =>
    }
  }
}
