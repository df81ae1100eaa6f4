/**
 The schema migration runner: a baseline plus numbered forward migrations, run
 inside a transaction of its own or a savepoint of the caller's.
 */
module SchemaMigration {
  import opened Wrappers
  import opened Ordering

  /** A migration's effect on the user tables; None when it raises. */
  datatype Migration<!C> = Migration(effect: C -> Option<C>, needsForeignKeysOff: Option<C -> bool>)

  datatype Registry<!C> = Registry(
    baselines: map<string, (nat, C -> Option<C>)>,
    migrations: map<string, map<nat, Migration<C>>>)

  /**
   One database file: the version rows (None before the table exists), the user
   tables, and the record of what has been applied to it.
   */
  datatype Database<!C> = Database(rows: Option<map<string, int>>, content: C, applied: seq<(string, nat)>)

  /** What the runner consults besides the connection. */
  datatype Env<!C> = Env(
    registry: Registry<C>,
    hasUserTables: C -> bool,
    violatesForeignKeys: C -> bool,
    maintenanceActive: bool)

  datatype MigrationError = UnknownDatabase | PreBaseline | UnsupportedVersion | Maintenance | ForeignKeys | Engine

  // ---- the registry ----

  function MigrationsOf<C>(reg: Registry<C>, name: string): map<nat, Migration<C>> {
    if name in reg.migrations then reg.migrations[name] else map[]
  }

  predicate Knows<C>(reg: Registry<C>, name: string) {
    name in reg.baselines || name in reg.migrations
  }

  /** Registration refuses a baseline that is not positive. */
  ghost predicate Registered<C>(reg: Registry<C>) {
    forall name :: name in reg.baselines ==> reg.baselines[name].0 > 0
  }

  function BaselineVersion<C>(reg: Registry<C>, name: string): nat {
    if name in reg.baselines then reg.baselines[name].0 else 0
  }

  /** v is the largest of the baseline and all migration versions. */
  ghost predicate IsSupported<C>(reg: Registry<C>, name: string, v: int) {
    && v >= BaselineVersion(reg, name)
    && (forall k :: k in MigrationsOf(reg, name) ==> k <= v)
    && (v == BaselineVersion(reg, name) || v in MigrationsOf(reg, name))
  }

  predicate IntLe(a: int, b: int) { a <= b }

  /** `supported_version`. */
  method SupportedVersion<C>(reg: Registry<C>, name: string) returns (v: nat)
    ensures IsSupported(reg, name, v)
  {
    v := BaselineVersion(reg, name);
    var rest := MigrationsOf(reg, name).Keys;
    while rest != {}
      invariant rest <= MigrationsOf(reg, name).Keys && v >= BaselineVersion(reg, name)
      invariant forall k :: k in MigrationsOf(reg, name) && k !in rest ==> k <= v
      invariant v == BaselineVersion(reg, name) || v in MigrationsOf(reg, name)
      decreases rest
    {
      var k :| k in rest;
      if k > v { v := k; }
      rest := rest - {k};
    }
  }

  /** The registered versions above v, ascending. */
  ghost predicate IsPending<C>(reg: Registry<C>, name: string, v: int, pending: seq<nat>) {
    && Ascending(pending)
    && forall k: nat :: k in pending <==> k in MigrationsOf(reg, name) && k > v
  }

  ghost predicate Ascending(s: seq<nat>) {
    forall i, j :: 0 <= i < j < |s| ==> s[i] < s[j]
  }

  /** `get_pending`. */
  method Pending<C>(reg: Registry<C>, name: string, v: int) returns (pending: seq<nat>)
    ensures IsPending(reg, name, v, pending)
  {
    var above: set<int> := set k: nat | k in MigrationsOf(reg, name).Keys && k > v;
    var sorted := SortedElements(above, IntLe);
    assert forall i :: 0 <= i < |sorted| ==> sorted[i] in above;
    pending := sorted;
  }

  // ---- the database ----

  /** `current_version`, also before the version table exists. */
  function VersionOf<C>(db: Database<C>, name: string): int {
    if db.rows.Some? && name in db.rows.value then db.rows.value[name] else 0
  }

  function EnsureTable<C>(db: Database<C>): Database<C> {
    if db.rows.Some? then db else db.(rows := Some(map[]))
  }

  function SetVersion<C>(db: Database<C>, name: string, v: int): Database<C> {
    var rows := if db.rows.Some? then db.rows.value else map[];
    db.(rows := Some(rows[name := v]))
  }

  /** Some pending migration asks for enforcement off, judged on the present tables. */
  predicate NeedsOff<C>(reg: Registry<C>, db: Database<C>, name: string) {
    exists k :: k in MigrationsOf(reg, name) && k > VersionOf(db, name)
      && MigrationsOf(reg, name)[k].needsForeignKeysOff.Some?
      && MigrationsOf(reg, name)[k].needsForeignKeysOff.value(db.content)
  }

  function Tagged(name: string, versions: seq<nat>): (r: seq<(string, nat)>)
    ensures |r| == |versions| && forall i :: 0 <= i < |r| ==> r[i] == (name, versions[i])
  {
    seq(|versions|, i requires 0 <= i < |versions| => (name, versions[i]))
  }

  /** The effects of the listed migrations in order, None as soon as one raises. */
  function Effects<C>(reg: Registry<C>, name: string, versions: seq<nat>, c: C): Option<C>
    requires forall k :: k in versions ==> k in MigrationsOf(reg, name)
  {
    if versions == [] then Some(c)
    else
      var before := Effects(reg, name, versions[..|versions| - 1], c);
      if before.None? then None
      else MigrationsOf(reg, name)[versions[|versions| - 1]].effect(before.value)
  }

  /**
   after is before with exactly the missing migrations applied, in order: the
   baseline on a database without version, then every registered version above.
   */
  ghost predicate Migrated<C(!new)>(reg: Registry<C>, name: string, before: Database<C>, after: Database<C>,
      count: nat) {
    exists steps, pending, start, from :: MigratedBy(reg, name, before, after, count, steps, pending, start, from)
  }

  ghost predicate MigratedBy<C>(
    reg: Registry<C>, name: string, before: Database<C>, after: Database<C>, count: nat,
    steps: seq<nat>, pending: seq<nat>, start: int, from: C)
  {
    && BaselineStep(reg, name, before, steps, start, from)
    && IsPending(reg, name, start, pending)
    && Effects(reg, name, pending, from) == Some(after.content)
    && after.applied == before.applied + Tagged(name, steps + pending)
    && count == |steps| + |pending|
    && IsSupported(reg, name, VersionOf(after, name))
    && VersionOf(before, name) <= VersionOf(after, name)
    && forall other :: other != name ==> VersionOf(after, other) == VersionOf(before, other)
  }

  /** Where forward migrations start, and what the baseline made of the tables. */
  ghost predicate BaselineStep<C>(reg: Registry<C>, name: string, before: Database<C>, steps: seq<nat>, start: int,
      from: C) {
    var v := VersionOf(before, name);
    if name in reg.baselines && v == 0 then
      && steps == [reg.baselines[name].0] && start == reg.baselines[name].0
      && reg.baselines[name].1(before.content) == Some(from)
    else
      steps == [] && start == v && from == before.content && v >= BaselineVersion(reg, name)
  }

  /** Tables older than the baseline: an earlier version, or tables without any version. */
  ghost predicate PreBaselineSchema<C>(env: Env<C>, db: Database<C>, name: string) {
    && name in env.registry.baselines
    && var v := VersionOf(db, name);
       if v == 0 then env.hasUserTables(db.content) else v < env.registry.baselines[name].0
  }

  /** Every migration and the baseline that are due take effect one after the other. */
  ghost predicate Migratable<C(!new)>(reg: Registry<C>, db: Database<C>, name: string) {
    exists after, count :: Migrated(reg, name, db, after, count)
  }

  /** What a call depends on besides the engine. */
  ghost predicate Runs<C(!new)>(env: Env<C>, db: Database<C>, name: string) {
    && Knows(env.registry, name) && !(env.maintenanceActive && Guarded(env.registry, db, name))
    && !PreBaselineSchema(env, db, name) && Migratable(env.registry, db, name)
  }

  /** The call leaves tables that pass the integrity check, where one is made. */
  ghost predicate StaysIntact<C(!new)>(env: Env<C>, db: Database<C>, name: string) {
    NeedsOff(env.registry, db, name) ==>
      forall after, count :: Migrated(env.registry, name, db, after, count) ==> !env.violatesForeignKeys(after.content)
  }

  lemma {:induction false} AscendingSame(a: seq<nat>, b: seq<nat>)
    requires Ascending(a) && Ascending(b) && forall k :: k in a <==> k in b
    ensures a == b
  {
    assert (a != [] ==> a[0] in a) && (b != [] ==> b[0] in b);
    if a != [] && b != [] {
      var x, y := a[|a| - 1], b[|b| - 1];
      assert x in b && y in a;
      assert x == y by {
        var i :| 0 <= i < |b| && b[i] == x;
        var j :| 0 <= j < |a| && a[j] == y;
      }
      var c, d := a[..|a| - 1], b[..|b| - 1];
      assert a == c + [x] && b == d + [x];
      assert x !in c && x !in d;
      forall k ensures k in c <==> k in d {
        assert k in a <==> k in c || k == x;
        assert k in b <==> k in d || k == x;
      }
      AscendingSame(c, d);
    }
  }

  /** A call can only come out one way. */
  lemma MigratedAlike<C(!new)>(
    reg: Registry<C>, name: string, before: Database<C>, after: Database<C>, count: nat,
    steps: seq<nat>, start: int, from: C, pending: seq<nat>)
    requires Migrated(reg, name, before, after, count)
    requires BaselineStep(reg, name, before, steps, start, from) && IsPending(reg, name, start, pending)
    ensures Effects(reg, name, pending, from) == Some(after.content)
    ensures IsSupported(reg, name, VersionOf(after, name)) && VersionOf(before, name) <= VersionOf(after, name)
  {
    hide Effects, VersionOf, IsSupported;
    var steps', pending', start', from' :| MigratedBy(reg, name, before, after, count, steps', pending', start', from');
    assert start' == start && from' == from;
    AscendingSame(pending, pending');
  }

  lemma MigratedContent<C(!new)>(reg: Registry<C>, name: string, before: Database<C>, a: Database<C>, m: nat,
      b: Database<C>, n: nat)
    requires Migrated(reg, name, before, a, m) && Migrated(reg, name, before, b, n)
    ensures a.content == b.content
  {
    hide Effects, VersionOf, IsSupported, Migrated, BaselineStep;
    var steps, pending, start, from := MigratedHow(reg, name, before, a, m);
    MigratedAlike(reg, name, before, a, m, steps, start, from, pending);
    MigratedAlike(reg, name, before, b, n, steps, start, from, pending);
  }

  lemma IntactExactly<C(!new)>(env: Env<C>, before: Database<C>, name: string, after: Database<C>, count: nat)
    requires Migrated(env.registry, name, before, after, count)
    ensures StaysIntact(env, before, name) <==>
              (NeedsOff(env.registry, before, name) ==> !env.violatesForeignKeys(after.content))
  {
    hide Migrated, NeedsOff;
    forall other, n | Migrated(env.registry, name, before, other, n) ensures other.content == after.content {
      MigratedContent(env.registry, name, before, after, count, other, n);
    }
  }

  lemma MigratedHow<C(!new)>(reg: Registry<C>, name: string, before: Database<C>, after: Database<C>, count: nat)
    returns (steps: seq<nat>, pending: seq<nat>, start: int, from: C)
    requires Migrated(reg, name, before, after, count)
    ensures BaselineStep(reg, name, before, steps, start, from) && IsPending(reg, name, start, pending)
  {
    hide Effects, VersionOf, IsSupported, BaselineStep, IsPending;
    steps, pending, start, from :| MigratedBy(reg, name, before, after, count, steps, pending, start, from);
  }

  lemma BaselineFails<C(!new)>(env: Env<C>, before: Database<C>, name: string, error: MigrationError)
    requires error == PreBaseline ==> PreBaselineSchema(env, before, name)
    requires error == UnsupportedVersion ==> name !in env.registry.baselines && VersionOf(before, name) < 0
    requires error == Engine ==>
               && name in env.registry.baselines && VersionOf(before, name) == 0
               && env.registry.baselines[name].1(before.content).None?
    requires error == PreBaseline || error == UnsupportedVersion || error == Engine
    ensures PreBaselineSchema(env, before, name) || !Migratable(env.registry, before, name)
  {
    hide VersionOf;
    if error != PreBaseline {
      forall after, count | Migrated(env.registry, name, before, after, count) ensures false {
        var steps, pending, start, from := MigratedHow(env.registry, name, before, after, count);
      }
    }
  }

  lemma MigratedVersion<C(!new)>(reg: Registry<C>, name: string, before: Database<C>, after: Database<C>, count: nat)
    requires Migrated(reg, name, before, after, count)
    ensures IsSupported(reg, name, VersionOf(after, name)) && VersionOf(before, name) <= VersionOf(after, name)
  {
    hide VersionOf, Effects;
    var steps, pending, start, from :| MigratedBy(reg, name, before, after, count, steps, pending, start, from);
  }

  lemma TooNew<C(!new)>(
    reg: Registry<C>, before: Database<C>, name: string, steps: seq<nat>, start: int, from: C, supported: int)
    requires BaselineStep(reg, name, before, steps, start, from) && IsSupported(reg, name, supported)
    requires start > supported
    ensures !Migratable(reg, before, name)
  {
    hide VersionOf, Effects;
    forall after, count | Migrated(reg, name, before, after, count) ensures false {
      MigratedVersion(reg, name, before, after, count);
    }
  }

  lemma ForwardFails<C(!new)>(
    reg: Registry<C>, before: Database<C>, name: string, steps: seq<nat>, start: int, from: C, pending: seq<nat>)
    requires BaselineStep(reg, name, before, steps, start, from) && IsPending(reg, name, start, pending)
    requires Effects(reg, name, pending, from).None?
    ensures !Migratable(reg, before, name)
  {
    hide Migrated, Effects, BaselineStep, VersionOf;
    forall after, count | Migrated(reg, name, before, after, count) ensures false {
      MigratedAlike(reg, name, before, after, count, steps, start, from, pending);
    }
  }

  lemma {:induction false} NoneStaysNone<C>(reg: Registry<C>, name: string, versions: seq<nat>, n: nat, c: C)
    requires n <= |versions| && forall k :: k in versions ==> k in MigrationsOf(reg, name)
    requires Effects(reg, name, versions[..n], c).None?
    ensures Effects(reg, name, versions, c).None?
  {
    if n == |versions| {
      assert versions[..n] == versions;
    } else {
      var front := versions[..|versions| - 1];
      assert front[..n] == versions[..n];
      NoneStaysNone(reg, name, front, n, c);
    }
  }

  lemma FailureStays<C>(reg: Registry<C>, name: string, pending: seq<nat>, i: nat, c: C, reached: C)
    requires i < |pending| && forall k :: k in pending ==> k in MigrationsOf(reg, name)
    requires Effects(reg, name, pending[..i], c) == Some(reached)
    requires MigrationsOf(reg, name)[pending[i]].effect(reached).None?
    ensures Effects(reg, name, pending, c).None?
  {
    assert pending[..i + 1][..i] == pending[..i];
    NoneStaysNone(reg, name, pending, i + 1, c);
  }

  // ---- over any history ----

  lemma MigratedExtends<C(!new)>(reg: Registry<C>, name: string, before: Database<C>, after: Database<C>, count: nat)
    returns (versions: seq<nat>)
    requires Registered(reg) && Migrated(reg, name, before, after, count)
    ensures Ascending(versions) && count == |versions|
    ensures after.applied == before.applied + Tagged(name, versions)
    ensures forall k :: k in versions ==> VersionOf(before, name) < k <= VersionOf(after, name)
    ensures VersionOf(before, name) <= VersionOf(after, name)
    ensures forall other :: other != name ==> VersionOf(after, other) == VersionOf(before, other)
  {
    var steps, pending, start, from :| MigratedBy(reg, name, before, after, count, steps, pending, start, from);
    versions := steps + pending;
    assert forall i :: 0 <= i < |pending| ==> pending[i] in pending;
  }

  /** The versions recorded under a name, in the order of the record. */
  ghost function Under(applied: seq<(string, nat)>, name: string): seq<nat> {
    if applied == [] then []
    else
      var last := applied[|applied| - 1];
      Under(applied[..|applied| - 1], name) + if last.0 == name then [last.1] else []
  }

  lemma {:induction false} UnderAppend(a: seq<(string, nat)>, b: seq<(string, nat)>, name: string)
    ensures Under(a + b, name) == Under(a, name) + Under(b, name)
  {
    if b == [] {
      assert a + b == a;
    } else {
      var front := b[..|b| - 1];
      UnderAppend(a, front, name);
      assert (a + b)[..|a + b| - 1] == a + front;
    }
  }

  lemma {:induction false} UnderTagged(name: string, versions: seq<nat>, other: string)
    ensures Under(Tagged(name, versions), other) == if other == name then versions else []
  {
    if versions != [] {
      var front := versions[..|versions| - 1];
      UnderTagged(name, front, other);
      assert Tagged(name, versions)[..|versions| - 1] == Tagged(name, front);
    }
  }

  /** The versions newly recorded under the name ascend and lie above the old version, up to the new one. */
  ghost predicate AppliedBetween(versions: seq<nat>, low: int, high: int) {
    Ascending(versions) && low <= high && forall k :: k in versions ==> low < k <= high
  }

  /** Nothing recorded is lost, and for every name each version was applied at most once and in order. */
  ghost predicate InOrder<C>(before: Database<C>, after: Database<C>) {
    && before.applied <= after.applied
    && forall name :: InOrderFor(before, after, name)
  }

  ghost predicate InOrderFor<C>(before: Database<C>, after: Database<C>, name: string)
    requires before.applied <= after.applied
  {
    AppliedBetween(Under(after.applied[|before.applied|..], name), VersionOf(before, name), VersionOf(after, name))
  }

  lemma AscendingConcat(a: seq<nat>, b: seq<nat>, middle: int)
    requires Ascending(a) && Ascending(b)
    requires (forall k :: k in a ==> k <= middle) && (forall k :: k in b ==> middle < k)
    ensures Ascending(a + b)
  {
    assert forall i :: 0 <= i < |a| ==> a[i] in a;
    assert forall i :: 0 <= i < |b| ==> b[i] in b;
  }

  lemma BetweenConcat(a: seq<nat>, b: seq<nat>, low: int, middle: int, high: int)
    requires AppliedBetween(a, low, middle) && AppliedBetween(b, middle, high)
    ensures AppliedBetween(a + b, low, high)
  {
    AscendingConcat(a, b, middle);
  }

  lemma InOrderTransitive<C>(a: Database<C>, b: Database<C>, c: Database<C>)
    requires InOrder(a, b) && InOrder(b, c)
    ensures InOrder(a, c)
  {
    hide Under, VersionOf, AppliedBetween;
    var first, second := b.applied[|a.applied|..], c.applied[|b.applied|..];
    assert c.applied[|a.applied|..] == first + second;
    forall name ensures InOrderFor(a, c, name) {
      assert InOrderFor(a, b, name) && InOrderFor(b, c, name);
      UnderAppend(first, second, name);
      BetweenConcat(Under(first, name), Under(second, name), VersionOf(a, name), VersionOf(b, name),
        VersionOf(c, name));
    }
  }

  /** Whatever else happens to the tables, the version rows and the record stay. */
  ghost predicate Quiet<C>(before: Database<C>, after: Database<C>) {
    after.applied == before.applied && forall name :: VersionOf(after, name) == VersionOf(before, name)
  }

  lemma QuietIsInOrder<C>(before: Database<C>, after: Database<C>)
    requires Quiet(before, after)
    ensures InOrder(before, after)
  {
    hide VersionOf;
    assert after.applied[|before.applied|..] == [];
    forall name ensures InOrderFor(before, after, name) {
    }
  }

  /** Recording ascending versions under one name, and none of the other names' versions moving. */
  lemma TaggedIsInOrder<C>(before: Database<C>, after: Database<C>, name: string, versions: seq<nat>)
    requires after.applied == before.applied + Tagged(name, versions)
    requires AppliedBetween(versions, VersionOf(before, name), VersionOf(after, name))
    requires forall other :: other != name ==> VersionOf(after, other) == VersionOf(before, other)
    ensures InOrder(before, after)
  {
    hide VersionOf, Under, Tagged;
    assert after.applied[|before.applied|..] == Tagged(name, versions);
    forall other ensures InOrderFor(before, after, other) {
      UnderTagged(name, versions, other);
    }
  }

  lemma MigratedIsInOrder<C(!new)>(reg: Registry<C>, name: string, before: Database<C>, after: Database<C>, count: nat)
    requires Registered(reg) && Migrated(reg, name, before, after, count)
    ensures InOrder(before, after)
  {
    hide Migrated, VersionOf, Tagged, InOrder;
    var versions := MigratedExtends(reg, name, before, after, count);
    TaggedIsInOrder(before, after, name, versions);
  }

  /** One thing that happens to a database file: some statements of the application, or a run for some name. */
  datatype Event<!C> = Statements | Run(reg: Registry<C>, name: string)

  ghost predicate Happens<C(!new)>(event: Event<C>, before: Database<C>, after: Database<C>) {
    match event
    case Statements => Quiet(before, after)
    case Run(reg, name) => Registered(reg) && Call(reg, name, before, after)
  }

  /** One call: the database stays as it was, or gains exactly what was missing. */
  ghost predicate Call<C(!new)>(reg: Registry<C>, name: string, before: Database<C>, after: Database<C>) {
    after == before || exists count :: Migrated(reg, name, before, after, count)
  }

  lemma HappensInOrder<C(!new)>(event: Event<C>, before: Database<C>, after: Database<C>)
    requires Happens(event, before, after)
    ensures InOrder(before, after)
  {
    hide Migrated, InOrder;
    if event.Statements? || after == before {
      QuietIsInOrder(before, after);
    } else {
      var count :| Migrated(event.reg, event.name, before, after, count);
      MigratedIsInOrder(event.reg, event.name, before, after, count);
    }
  }

  /**
   However often the runner is called, for any names, with failures and any
   statements of the application in between and with newer binaries'
   registries, for every name each version is applied at most once and in order.
   */
  lemma {:induction false} AppliedOnceInOrder<C(!new)>(history: seq<Database<C>>, events: seq<Event<C>>, i: nat, j: nat)
    requires |history| == |events| + 1 && i <= j <= |events|
    requires forall k :: 0 <= k < |events| ==> Happens(events[k], history[k], history[k + 1])
    ensures InOrder(history[i], history[j])
    decreases j
  {
    hide InOrder, Happens;
    if i == j {
      QuietIsInOrder(history[i], history[j]);
    } else {
      AppliedOnceInOrder(history, events, i, j - 1);
      assert Happens(events[j - 1], history[j - 1], history[j - 1 + 1]);
      HappensInOrder(events[j - 1], history[j - 1], history[j]);
      InOrderTransitive(history[i], history[j - 1], history[j]);
    }
  }

  lemma FirstIsMember(s: seq<nat>)
    ensures s == [] || s[0] in s
  {
  }

  /** After a successful call the next one finds nothing to do. */
  lemma SecondCallAppliesNothing<C(!new)>(
    reg: Registry<C>, name: string, a: Database<C>, b: Database<C>, n: nat, c: Database<C>, m: nat)
    requires Registered(reg) && Migrated(reg, name, a, b, n) && Migrated(reg, name, b, c, m)
    ensures m == 0 && c.content == b.content && c.applied == b.applied && VersionOf(c, name) == VersionOf(b, name)
  {
    var steps, pending, start, from :| MigratedBy(reg, name, b, c, m, steps, pending, start, from);
    FirstIsMember(pending);
  }

  /** What maintenance holds back: versions below the baseline, or without one below the supported version. */
  ghost predicate Guarded<C>(reg: Registry<C>, db: Database<C>, name: string) {
    if name in reg.baselines then VersionOf(db, name) < reg.baselines[name].0
    else exists v :: IsSupported(reg, name, v) && VersionOf(db, name) < v
  }

  lemma GuardedBelow<C>(reg: Registry<C>, db: Database<C>, name: string, supported: int)
    requires IsSupported(reg, name, supported)
    ensures Guarded(reg, db, name) <==>
              VersionOf(db, name) < if name in reg.baselines then reg.baselines[name].0 else supported
  {
    hide VersionOf;
    assert forall v :: IsSupported(reg, name, v) ==> v == supported;
  }

  /** A successful call applies nothing exactly when the version found is the supported one and no baseline was due. */
  lemma NothingAppliedExactly<C(!new)>(reg: Registry<C>, name: string, before: Database<C>, after: Database<C>,
      count: nat)
    requires Registered(reg) && Migrated(reg, name, before, after, count)
    ensures count == 0 <==>
              && IsSupported(reg, name, VersionOf(before, name))
              && !(name in reg.baselines && VersionOf(before, name) == 0)
  {
    hide VersionOf, Effects;
    var steps, pending, start, from :| MigratedBy(reg, name, before, after, count, steps, pending, start, from);
    FirstIsMember(pending);
    var supported := VersionOf(after, name);
    assert supported > start && supported in MigrationsOf(reg, name) ==> supported in pending;
  }

  /**
   Under maintenance a call that is let through still migrates exactly the baseline
   databases behind the supported version.
   */
  lemma MaintenanceLetsThrough<C(!new)>(reg: Registry<C>, name: string, before: Database<C>, after: Database<C>,
      count: nat)
    requires Registered(reg) && Migrated(reg, name, before, after, count) && !Guarded(reg, before, name)
    ensures count > 0 <==> name in reg.baselines && !IsSupported(reg, name, VersionOf(before, name))
  {
    hide VersionOf;
    NothingAppliedExactly(reg, name, before, after, count);
    var steps, pending, start, from :| MigratedBy(reg, name, before, after, count, steps, pending, start, from);
    GuardedBelow(reg, before, name, VersionOf(after, name));
  }

  /** The smallest such case: a database at its baseline with one migration pending. */
  lemma MigratedUnderMaintenance()
    ensures var same := (c: int) => Some(c);
            var reg := Registry(map["db" := (1, same)], map["db" := map[2 := Migration(c => Some(c + 1), None)]]);
            var before := Database(Some(map["db" := 1]), 0, []);
            var after := Database(Some(map["db" := 2]), 1, [("db", 2)]);
            Registered(reg) && Knows(reg, "db") && !Guarded(reg, before, "db") && Migrated(reg, "db", before, after, 1)
  {
    var same := (c: int) => Some(c);
    var reg := Registry(map["db" := (1, same)], map["db" := map[2 := Migration(c => Some(c + 1), None)]]);
    var before := Database(Some(map["db" := 1]), 0, []);
    var after := Database(Some(map["db" := 2]), 1, [("db", 2)]);
    assert [2][..1 - 1] == [];
    assert Tagged("db", [] + [2]) == [("db", 2)];
    assert Effects(reg, "db", [2], 0) == Some(1);
    assert MigratedBy(reg, "db", before, after, 1, [], [2], 1, 0);
  }

  // ---- the connection ----

  class Connection<C(0, !new)> {
    var committed: Database<C>
    var working: Database<C>
    var inTransaction: bool
    var savepoints: seq<(nat, Database<C>)>
    var foreignKeys: bool
    var nextSavepoint: nat
    /** Nothing goes wrong from here on: the engine refuses nothing, and only migrations themselves raise. */
    var calm: bool
    /** The database as it was when the connection was opened. */
    ghost const origin: Database<C>

    /**
     In every state the connection can get into, committed, uncommitted or saved,
     each version above the original one was applied at most once and in order.
     */
    ghost predicate Valid()
      reads this
    {
      && (!inTransaction ==> working == committed && savepoints == [])
      && (forall i :: 0 <= i < |savepoints| ==> savepoints[i].0 < nextSavepoint && InOrder(origin, savepoints[i].1))
      && InOrder(origin, committed) && InOrder(origin, working)
    }

    constructor (db: Database<C>, foreignKeys: bool, calm: bool)
      ensures Valid() && this.calm == calm && committed == working == db && !inTransaction
          && this.foreignKeys == foreignKeys
      ensures origin == db
    {
      origin := db;
      committed, working, inTransaction, savepoints := db, db, false, [];
      this.foreignKeys := foreignKeys;
      this.calm := calm;
      nextSavepoint := 0;
      new;
      QuietIsInOrder(db, db);
    }

    // ---- what the application does in between ----

    method Begin()
      requires Valid() && !inTransaction
      modifies this`inTransaction
      ensures Valid() && inTransaction
    {
      inTransaction := true;
    }

    method Commit()
      requires Valid() && inTransaction
      modifies `committed, `working, `inTransaction, `savepoints, `foreignKeys, `nextSavepoint
      ensures Valid() && !inTransaction && committed == old(working) && foreignKeys == old(foreignKeys)
    {
      committed, inTransaction, savepoints := working, false, [];
    }

    method Rollback()
      requires Valid() && inTransaction
      modifies `committed, `working, `inTransaction, `savepoints, `foreignKeys, `nextSavepoint
      ensures Valid() && !inTransaction && committed == old(committed) && foreignKeys == old(foreignKeys)
    {
      working, inTransaction, savepoints := committed, false, [];
    }

    /** `ROLLBACK TO` one of the caller's savepoints, which stays open. */
    method RollbackTo(i: nat)
      requires Valid() && i < |savepoints|
      modifies this`working, this`savepoints
      ensures Valid() && working == old(savepoints)[i].1 && savepoints == old(savepoints)[..i + 1]
    {
      hide InOrder;
      working, savepoints := savepoints[i].1, savepoints[..i + 1];
    }

    /** Any statements on the user tables; outside a transaction they are committed at once. */
    method Write(content: C)
      requires Valid()
      modifies this`working, this`committed
      ensures Valid() && working == old(working).(content := content)
      ensures committed == if inTransaction then old(committed) else working
    {
      hide InOrder;
      QuietIsInOrder(working, working.(content := content));
      InOrderTransitive(origin, working, working.(content := content));
      working := working.(content := content);
      if !inTransaction { committed := working; }
    }

    // ---- the migration work ----

    /** A migration or baseline function: its effect, or an exception that may leave the tables half changed. */
    method Execute(effect: C -> Option<C>) returns (ok: bool)
      modifies this`working
      ensures ok ==> effect(old(working).content).Some?
      ensures calm ==> (ok <==> effect(old(working).content).Some?)
      ensures ok ==> working == old(working).(content := effect(old(working).content).value)
      ensures working == old(working).(content := working.content)
    {
      var fails: bool := *;
      var result := effect(working.content);
      if (fails && !calm) || result.None? {
        var wreck: C := *;
        working := working.(content := wreck);
        return false;
      }
      working := working.(content := result.value);
      ok := true;
    }

    /** One migration followed by its version row. */
    method ApplyOne(env: Env<C>, name: string, v: nat) returns (ok: bool)
      requires v in MigrationsOf(env.registry, name) && working.rows.Some?
      modifies this`working
      ensures ok ==> MigrationsOf(env.registry, name)[v].effect(old(working).content) == Some(working.content)
      ensures ok ==> working.applied == old(working).applied + [(name, v)] && working.rows.Some?
      ensures ok ==> VersionOf(working, name) == v
      ensures ok ==> forall other :: other != name ==> VersionOf(working, other) == VersionOf(old(working), other)
      ensures !ok ==> working == old(working).(content := working.content)
      ensures calm && !ok ==> MigrationsOf(env.registry, name)[v].effect(old(working).content).None?
    {
      ok := Execute(MigrationsOf(env.registry, name)[v].effect);
      if ok {
        working := SetVersion(working, name, v).(applied := working.applied + [(name, v)]);
      }
    }

    /** The loop over pending migrations, each followed by its version row. */
    method Forward(env: Env<C>, name: string, pending: seq<nat>) returns (ok: bool)
      requires IsPending(env.registry, name, VersionOf(working, name), pending)
      requires working.rows.Some?
      modifies this`working
      ensures ok ==> Effects(env.registry, name, pending, old(working).content) == Some(working.content)
      ensures ok ==> working.applied == old(working).applied + Tagged(name, pending)
      ensures ok ==> VersionOf(working, name) ==
                       if pending == [] then VersionOf(old(working), name) else pending[|pending| - 1]
      ensures ok ==> forall other :: other != name ==> VersionOf(working, other) == VersionOf(old(working), other)
      ensures ok ==> working.rows.Some?
      ensures calm && !ok ==> Effects(env.registry, name, pending, old(working).content).None?
      ensures InOrder(old(working), working)
    {
      hide VersionOf, Tagged, InOrder;
      ghost var before := working;
      for i := 0 to |pending|
        invariant Effects(env.registry, name, pending[..i], old(working).content) == Some(working.content)
        invariant working.applied == old(working).applied + Tagged(name, pending[..i])
        invariant working.rows.Some?
        invariant VersionOf(working, name) == if i == 0 then VersionOf(old(working), name) else pending[i - 1]
        invariant forall other :: other != name ==> VersionOf(working, other) == VersionOf(old(working), other)
      {
        var v := pending[i];
        ghost var reached := working;
        ok := ApplyOne(env, name, v);
        if !ok {
          if calm { FailureStays(env.registry, name, pending, i, before.content, reached.content); }
          PrefixIsInOrder(env.registry, before, reached, name, pending, i);
          WreckIsInOrder(before, reached, working);
          return;
        }
        assert pending[..i + 1][..i] == pending[..i];
        assert Tagged(name, pending[..i + 1]) == Tagged(name, pending[..i]) + [(name, v)];
      }
      assert pending[..|pending|] == pending;
      PrefixIsInOrder(env.registry, before, working, name, pending, |pending|);
      ok := true;
    }

    /** The version check, with the fresh-install baseline on a database without version. */
    method Baseline(env: Env<C>, name: string) returns (r: Result<bool, MigrationError>, ghost steps: seq<nat>)
      requires Registered(env.registry)
      modifies this`working
      ensures r.Ok? ==> BaselineStep(env.registry, name, old(working), steps, VersionOf(working, name), working.content)
      ensures r.Ok? ==> working.rows.Some? && working.applied == old(working).applied + Tagged(name, steps)
      ensures r.Ok? ==> |steps| == if r.value then 1 else 0
      ensures r.Ok? ==> VersionOf(working, name) >= VersionOf(old(working), name)
      ensures r.Ok? ==> forall other :: other != name ==> VersionOf(working, other) == VersionOf(old(working), other)
      ensures r == Err(PreBaseline) <==> PreBaselineSchema(env, old(working), name)
      ensures r == Err(UnsupportedVersion) <==> name !in env.registry.baselines && VersionOf(old(working), name) < 0
      ensures r.Err? ==> r.error == PreBaseline || r.error == UnsupportedVersion || r.error == Engine
      ensures calm && r == Err(Engine) ==>
                && name in env.registry.baselines && VersionOf(old(working), name) == 0
                && env.registry.baselines[name].1(old(working).content).None?
      ensures InOrder(old(working), working)
    {
      hide InOrder;
      var reg := env.registry;
      steps := [];
      QuietIsInOrder(working, EnsureTable(working));
      ghost var tabled := EnsureTable(working);
      working := EnsureTable(working);
      var version := VersionOf(working, name);
      if name !in reg.baselines {
        return if version < 0 then Err(UnsupportedVersion) else Ok(false), steps;
      }
      var (baseline, effect) := reg.baselines[name];
      if version != 0 {
        return if version < baseline then Err(PreBaseline) else Ok(false), steps;
      }
      if env.hasUserTables(working.content) {
        return Err(PreBaseline), steps;
      }
      var ok := Execute(effect);
      WreckIsInOrder(old(working), tabled, working);
      if !ok { return Err(Engine), steps; }
      ghost var built := working;
      working := SetVersion(working, name, baseline).(applied := working.applied + [(name, baseline)]);
      assert Tagged(name, [baseline]) == [(name, baseline)];
      TaggedIsInOrder(built, working, name, [baseline]);
      InOrderTransitive(old(working), built, working);
      return Ok(true), [baseline];
    }

    method BaselineAndForward(env: Env<C>, name: string, supported: nat) returns (r: Result<nat, MigrationError>)
      requires Registered(env.registry) && IsSupported(env.registry, name, supported)
      modifies this`working
      ensures r.Ok? ==> Migrated(env.registry, name, old(working), working, r.value)
      ensures calm ==> (r.Ok? <==>
          !PreBaselineSchema(env, old(working), name) && Migratable(env.registry, old(working), name))
      ensures r != Err(Maintenance) && r != Err(UnknownDatabase) && InOrder(old(working), working)
    {
      hide VersionOf, Effects, IsPending, IsSupported, BaselineStep, Tagged, InOrder, PreBaselineSchema;
      ghost var before := working;
      var baseline, steps := Baseline(env, name);
      if baseline.Err? {
        if calm { BaselineFails(env, before, name, baseline.error); }
        return Err(baseline.error);
      }
      ghost var middle := working;
      var version := VersionOf(working, name);
      if version > supported {
        TooNew(env.registry, before, name, steps, version, middle.content, supported);
        return Err(UnsupportedVersion);
      }
      var pending := Pending(env.registry, name, version);
      PendingIsRegistered(env.registry, name, version, pending);
      var ok := Forward(env, name, pending);
      InOrderTransitive(before, middle, working);
      if !ok {
        if calm { ForwardFails(env.registry, before, name, steps, version, middle.content, pending); }
        return Err(Engine);
      }
      r := Ok(if baseline.value then |pending| + 1 else |pending|);
      BaselineThenForward(env.registry, name, before, middle, working, steps, pending, supported);
    }

    /** `_run_pending_uncommitted`. */
    method RunUncommitted(env: Env<C>, name: string) returns (r: Result<nat, MigrationError>)
      requires Registered(env.registry)
      modifies this`working
      ensures r.Ok? ==> Migrated(env.registry, name, old(working), working, r.value)
      ensures r == Err(UnknownDatabase) <==> !Knows(env.registry, name)
      ensures r == Err(Maintenance) <==>
                Knows(env.registry, name) && env.maintenanceActive && Guarded(env.registry, old(working), name)
      ensures calm ==> (r.Ok? <==> Runs(env, old(working), name))
      ensures env.maintenanceActive && r.Ok? ==>
                (r.value > 0 <==>
                   name in env.registry.baselines && !IsSupported(env.registry, name, VersionOf(old(working), name)))
      ensures InOrder(old(working), working)
    {
      hide Migrated, VersionOf, InOrder, Migratable, PreBaselineSchema;
      ghost var before := working;
      QuietIsInOrder(before, before);
      if !Knows(env.registry, name) {
        return Err(UnknownDatabase);
      }
      var supported := SupportedVersion(env.registry, name);
      var guarded := if name in env.registry.baselines then env.registry.baselines[name].0 else supported;
      GuardedBelow(env.registry, working, name, supported);
      if env.maintenanceActive && VersionOf(working, name) < guarded {
        return Err(Maintenance);
      }
      r := BaselineAndForward(env, name, supported);
      if r.Ok? && env.maintenanceActive {
        MaintenanceLetsThrough(env.registry, name, before, working, r.value);
      }
    }

    // ---- transactions ----

    /** `SAVEPOINT` under a name never used before. */
    method Savepoint() returns (ok: bool, save: nat)
      requires Valid() && inTransaction
      modifies this`savepoints, this`nextSavepoint
      ensures Valid() && save == old(nextSavepoint)
      ensures savepoints == if ok then old(savepoints) + [(save, working)] else old(savepoints)
      ensures calm ==> ok
    {
      hide InOrder;
      save := nextSavepoint;
      nextSavepoint := nextSavepoint + 1;
      ok := *;
      if calm { ok := true; }
      if ok { savepoints := savepoints + [(save, working)]; }
    }

    /**
     `_rollback_migration_savepoint`: a refused ROLLBACK TO leaves the work as it
     is, a refused RELEASE only leaves the rolled-back savepoint open.
     */
    method RollbackSavepoint(save: nat) returns (undone: bool)
      requires Valid() && inTransaction && savepoints != [] && savepoints[|savepoints| - 1].0 == save
      modifies this`working, this`savepoints
      ensures Valid() && working == if undone then old(savepoints)[|old(savepoints)| - 1].1 else old(working)
      ensures savepoints == old(savepoints) || savepoints == old(savepoints)[..|old(savepoints)| - 1]
      ensures calm ==> undone && savepoints == old(savepoints)[..|old(savepoints)| - 1]
    {
      hide InOrder;
      undone := *;
      if calm { undone := true; }
      if !undone { return; }
      working := savepoints[|savepoints| - 1].1;
      var released: bool := *;
      if released || calm { savepoints := savepoints[..|savepoints| - 1]; }
    }

    /** `PRAGMA foreign_keys` takes effect outside a transaction only. */
    method SetForeignKeys(on: bool)
      modifies this`foreignKeys
      ensures foreignKeys == if inTransaction then old(foreignKeys) else on
    {
      if !inTransaction { foreignKeys := on; }
    }

    /** The migration work and, where enforcement had to be off, the integrity check. */
    method RunChecked(env: Env<C>, name: string, needsOff: bool) returns (r: Result<nat, MigrationError>)
      requires Registered(env.registry)
      modifies this`working
      ensures r.Ok? ==> Migrated(env.registry, name, old(working), working, r.value)
      ensures r.Ok? && needsOff ==> !env.violatesForeignKeys(working.content)
      ensures calm && needsOff == NeedsOff(env.registry, old(working), name) ==>
                (r.Ok? <==> Runs(env, old(working), name) && StaysIntact(env, old(working), name))
      ensures InOrder(old(working), working)
    {
      hide Migrated, InOrder, Runs, NeedsOff;
      r := RunUncommitted(env, name);
      if r.Ok? && needsOff == NeedsOff(env.registry, old(working), name) {
        IntactExactly(env, old(working), name, working, r.value);
      }
      if r.Ok? && needsOff && env.violatesForeignKeys(working.content) {
        r := Err(ForeignKeys);
      }
    }

    /** run_pending inside the caller's transaction. */
    method RunNested(env: Env<C>, name: string, needsOff: bool) returns (r: Result<nat, MigrationError>, undone: bool)
      requires Valid() && Registered(env.registry) && inTransaction
      modifies this`working, this`savepoints, this`nextSavepoint
      ensures Valid()
      ensures r.Ok? ==> Migrated(env.registry, name, old(working), working, r.value) && savepoints == old(savepoints)
      ensures r.Ok? && needsOff ==> !env.violatesForeignKeys(working.content)
      ensures calm && needsOff == NeedsOff(env.registry, old(working), name) ==>
                (r.Ok? <==> Runs(env, old(working), name) && StaysIntact(env, old(working), name))
      ensures calm && r.Err? ==> undone && savepoints == old(savepoints)
      ensures r.Err? && undone ==> working == old(working)
      ensures r.Err? ==> savepoints == old(savepoints)
                         || (|savepoints| == |old(savepoints)| + 1 && old(savepoints) <= savepoints)
    {
      hide Migrated, InOrder, Runs, NeedsOff, StaysIntact;
      var ok, save := Savepoint();
      if !ok { return Err(Engine), true; }
      r := RunChecked(env, name, needsOff);
      InOrderTransitive(origin, old(working), working);
      if r.Ok? {
        var released: bool := *;
        if released || calm {
          savepoints := savepoints[..|savepoints| - 1];
          return r, false;
        }
        r := Err(Engine);
      }
      undone := RollbackSavepoint(save);
    }

    /** run_pending with a transaction of its own. */
    method RunOwn(env: Env<C>, name: string, needsOff: bool) returns (r: Result<nat, MigrationError>)
      requires Valid() && Registered(env.registry) && !inTransaction
      modifies `committed, `working, `inTransaction, `savepoints, `foreignKeys, `nextSavepoint
      ensures Valid() && !inTransaction && foreignKeys == old(foreignKeys)
      ensures if r.Ok? then Migrated(env.registry, name, old(committed), committed, r.value)
              else committed == old(committed)
      ensures r.Ok? && needsOff ==> !env.violatesForeignKeys(committed.content)
      ensures calm && needsOff == NeedsOff(env.registry, old(working), name) ==>
                (r.Ok? <==> Runs(env, old(working), name) && StaysIntact(env, old(working), name))
    {
      hide Migrated, InOrder, Runs, NeedsOff, StaysIntact;
      var toggled := needsOff && foreignKeys;
      if toggled { SetForeignKeys(false); }
      var begun: bool := *;
      if begun || calm {
        inTransaction := true;
        r := RunChecked(env, name, needsOff);
        InOrderTransitive(origin, old(working), working);
        var commits: bool := *;
        if r.Ok? && (commits || calm) {
          committed := working;
        } else {
          if r.Ok? { r := Err(Engine); }
          working := committed;
        }
        inTransaction := false;
      } else {
        r := Err(Engine);
      }
      if toggled { SetForeignKeys(true); }
    }

    /**
     `run_pending`: all or nothing.  In its own transaction a failure restores the
     database; in the caller's it undoes exactly the migration work unless the
     engine refuses the rollback itself.  The enforcement setting is the same on
     every exit, and work that needed enforcement off is only kept when the
     tables pass the integrity check.
     */
    method RunPending(env: Env<C>, name: string) returns (r: Result<nat, MigrationError>, undone: bool)
      requires Valid() && Registered(env.registry)
      modifies `committed, `working, `inTransaction, `savepoints, `foreignKeys, `nextSavepoint
      ensures Valid() && inTransaction == old(inTransaction) && foreignKeys == old(foreignKeys)
      ensures r.Ok? ==> Migrated(env.registry, name, old(working), working, r.value)
      ensures r.Ok? && NeedsOff(env.registry, old(working), name) ==> !env.violatesForeignKeys(working.content)
      ensures !inTransaction ==>
          Call(env.registry, name, old(committed), committed) && (r.Err? ==> committed == old(committed))
      ensures inTransaction ==> committed == old(committed)
      ensures inTransaction && (r.Ok? || undone) ==>
          old(savepoints) <= savepoints && |savepoints| <= |old(savepoints)| + 1
      ensures inTransaction && r.Err? && undone ==> working == old(working)
      ensures calm && inTransaction && r.Err? ==> undone && savepoints == old(savepoints)
      ensures calm ==>
                (r.Ok? <==>
                   && Runs(env, old(working), name) && StaysIntact(env, old(working), name)
                   && !(inTransaction && NeedsOff(env.registry, old(working), name) && foreignKeys))
      ensures inTransaction && NeedsOff(env.registry, old(working), name) && foreignKeys ==>
                r == Err(ForeignKeys) && undone && savepoints == old(savepoints)
    {
      hide Migrated, NeedsOff, InOrder, Runs, StaysIntact;
      var needsOff := PendingNeedsOff(env.registry, working, name);
      if inTransaction {
        if needsOff && foreignKeys {
          return Err(ForeignKeys), true;
        }
        r, undone := RunNested(env, name, needsOff);
      } else {
        undone := true;
        r := RunOwn(env, name, needsOff);
      }
    }
  }

  /** `pending_requires_foreign_keys_off`, evaluated over the versions above the current one. */
  method PendingNeedsOff<C>(reg: Registry<C>, db: Database<C>, name: string) returns (b: bool)
    ensures b == NeedsOff(reg, db, name)
  {
    var all := MigrationsOf(reg, name);
    var rest := all.Keys;
    b := false;
    while rest != {} && !b
      invariant rest <= all.Keys
      invariant b ==> NeedsOff(reg, db, name)
      invariant !b ==> forall k ::
        k in all && k !in rest && k > VersionOf(db, name) && all[k].needsForeignKeysOff.Some? ==>
                                     !all[k].needsForeignKeysOff.value(db.content)
      decreases rest
    {
      var k :| k in rest;
      if k > VersionOf(db, name) && all[k].needsForeignKeysOff.Some? && all[k].needsForeignKeysOff.value(db.content) {
        b := true;
      }
      rest := rest - {k};
    }
  }

  lemma PrefixIsInOrder<C>(reg: Registry<C>, before: Database<C>, after: Database<C>, name: string,
      pending: seq<nat>, i: nat)
    requires IsPending(reg, name, VersionOf(before, name), pending) && i <= |pending|
    requires after.applied == before.applied + Tagged(name, pending[..i])
    requires VersionOf(after, name) == if i == 0 then VersionOf(before, name) else pending[i - 1]
    requires forall other :: other != name ==> VersionOf(after, other) == VersionOf(before, other)
    ensures InOrder(before, after)
  {
    hide VersionOf, Tagged, InOrder;
    assert forall j :: 0 <= j < i ==> pending[j] in pending;
    TaggedIsInOrder(before, after, name, pending[..i]);
  }

  lemma WreckIsInOrder<C>(origin: Database<C>, before: Database<C>, after: Database<C>)
    requires InOrder(origin, before) && after == before.(content := after.content)
    ensures InOrder(origin, after)
  {
    hide InOrder;
    QuietIsInOrder(before, after);
    InOrderTransitive(origin, before, after);
  }

  lemma PendingIsRegistered<C>(reg: Registry<C>, name: string, v: int, pending: seq<nat>)
    requires IsPending(reg, name, v, pending)
    ensures forall k :: k in pending ==> k in MigrationsOf(reg, name)
  {
  }

  lemma StartIsAboveBaseline<C>(reg: Registry<C>, name: string, before: Database<C>, steps: seq<nat>, start: int,
      from: C)
    requires BaselineStep(reg, name, before, steps, start, from)
    ensures BaselineVersion(reg, name) <= start
  {
  }

  lemma TaggedAppend(name: string, a: seq<nat>, b: seq<nat>)
    ensures Tagged(name, a + b) == Tagged(name, a) + Tagged(name, b)
  {
  }

  lemma BaselineThenForward<C(!new)>(
    reg: Registry<C>, name: string, before: Database<C>, middle: Database<C>, after: Database<C>,
    steps: seq<nat>, pending: seq<nat>, supported: int)
    requires BaselineStep(reg, name, before, steps, VersionOf(middle, name), middle.content)
    requires middle.applied == before.applied + Tagged(name, steps)
    requires IsSupported(reg, name, supported) && VersionOf(middle, name) <= supported
    requires VersionOf(before, name) <= VersionOf(middle, name)
    requires IsPending(reg, name, VersionOf(middle, name), pending)
    requires Effects(reg, name, pending, middle.content) == Some(after.content)
    requires after.applied == middle.applied + Tagged(name, pending)
    requires VersionOf(after, name) == if pending == [] then VersionOf(middle, name) else pending[|pending| - 1]
    requires forall other :: other != name ==> VersionOf(middle, other) == VersionOf(before, other)
    requires forall other :: other != name ==> VersionOf(after, other) == VersionOf(middle, other)
    ensures Migrated(reg, name, before, after, |steps| + |pending|)
  {
    hide VersionOf, Effects, BaselineStep, IsPending, IsSupported, BaselineVersion, Tagged;
    var start := VersionOf(middle, name);
    StartIsAboveBaseline(reg, name, before, steps, start, middle.content);
    LastPendingIsSupported(reg, name, start, pending, supported);
    TaggedAppend(name, steps, pending);
    assert MigratedBy(reg, name, before, after, |steps| + |pending|, steps, pending, start, middle.content);
  }

  lemma LastPendingIsSupported<C>(reg: Registry<C>, name: string, v: int, pending: seq<nat>, supported: int)
    requires IsSupported(reg, name, supported) && IsPending(reg, name, v, pending)
    requires BaselineVersion(reg, name) <= v <= supported
    ensures supported == if pending == [] then v else pending[|pending| - 1]
  {
    if pending == [] {
      assert supported > v ==> supported in pending;
    } else {
      var last := pending[|pending| - 1];
      assert last in pending;
      assert supported in pending;
      var i :| 0 <= i < |pending| && pending[i] == supported;
    }
  }
}
