/**
 Where a backup archive keeps each source file, and where a restore puts each
 member back.  Paths are given as their parts.
 */
module ArchiveNames {
  import opened Wrappers

  type Path = seq<string>

  const TOPLEVEL_CONFIGS: set<string> := {"config.json", "search-settings.json", "admin_initial_password.txt"}
  const RUNTIME_CONFIGS: set<string> := {"projects.json", "task_edges.json", "workspaces.json"}
  const RESERVED_STATE_ROOTS: set<string> := {"runtime", "workspaces", "tenants"}
  const ARCHIVE_RESERVED_ROOTS: set<string> := {"databases", "config", "workspaces", "tenants"}

  /** A file below the state root, the workspace root or the tenant root. */
  datatype Source = InState(path: Path) | InWorkspaces(path: Path) | InTenants(path: Path)

  /** A file name that a `*.ext` pattern matches. */
  predicate Matches(name: string, ext: string) {
    |name| >= |ext| && name[|name| - |ext|..] == ext
  }

  /** `Path(name).suffix == ext`: something must stand before the extension. */
  predicate HasSuffix(name: string, ext: string) {
    |name| > |ext| && Matches(name, ext)
  }

  function Last(p: Path): string
    requires p != []
  {
    p[|p| - 1]
  }

  /** What a relative file path looks like. */
  predicate Relative(p: Path) {
    p != [] && ".." !in p
  }

  predicate Proper(s: Source) { Relative(s.path) }

  // ---- naming ----

  /** The member a source is archived under, None when a backup leaves it out. */
  function MemberName(s: Source): Option<Path>
    requires Proper(s)
  {
    match s
    case InWorkspaces(p) => Some(["workspaces"] + p)
    case InTenants(p) => Some(["tenants"] + p)
    case InState(p) =>
      if |p| == 1 then
        if p[0] in TOPLEVEL_CONFIGS || Matches(p[0], ".json") then Some(["config"] + p) else None
      else if p[0] == "runtime" then
        if Matches(Last(p), ".sqlite3") then Some(["databases"] + p[1..])
        else if Matches(Last(p), ".json") then
          if |p| == 2 && p[1] in RUNTIME_CONFIGS then Some(["config"] + p[1..]) else Some(["config"] + p)
        else None
      else if p[0] in RESERVED_STATE_ROOTS then None
      else Some(p)
  }

  // ---- restoring ----

  /** `_is_supported_member_path`. */
  predicate Supported(m: Path) {
    && Relative(m) && |m| >= 2
    && if m[0] == "databases" then HasSuffix(Last(m), ".sqlite3")
       else if m[0] == "config" then
         || (|m| == 2 && (m[1] in TOPLEVEL_CONFIGS || m[1] in RUNTIME_CONFIGS || HasSuffix(m[1], ".json")))
         || (m[1] == "runtime" && HasSuffix(Last(m), ".json"))
       else true
  }

  /** `_restored_member_path`, with both optional roots selected. */
  function Restored(m: Path): Option<Source> {
    if !Supported(m) then None
    else
      var suffix := m[1..];
      if m[0] == "databases" then Some(InState(["runtime"] + suffix))
      else if m[0] == "config" then
        if |suffix| == 1 && suffix[0] in RUNTIME_CONFIGS then Some(InState(["runtime"] + suffix))
        else Some(InState(suffix))
      else if m[0] == "workspaces" then Some(InWorkspaces(suffix))
      else if m[0] == "tenants" then Some(InTenants(suffix))
      else Some(InState(m))
  }

  // ---- what is archived ----

  /**
   A backup holds every workspace and tenant file, the top-level configs and JSON
   files, every runtime database and JSON file, and all of every other state
   directory; and nothing else.
   */
  lemma ArchivedExactly(s: Source)
    requires Proper(s)
    ensures var p := s.path;
            MemberName(s).Some? <==>
              || !s.InState?
              || (|p| == 1 && (Matches(p[0], ".json") || p[0] == "admin_initial_password.txt"))
              || (|p| >= 2 && p[0] == "runtime" && (Matches(Last(p), ".sqlite3") || Matches(Last(p), ".json")))
              || (|p| >= 2 && p[0] != "runtime" && p[0] != "workspaces" && p[0] != "tenants")
  {
    assert Matches("config.json", ".json") && Matches("search-settings.json", ".json");
    hide Matches;
  }

  /** The databases of a backup are the runtime files ending in .sqlite3, under their path below that directory. */
  lemma DatabasesExactly(s: Source)
    requires Proper(s) && MemberName(s).Some? && !Shadowing(s)
    ensures MemberName(s).value[0] == "databases" <==>
              s.InState? && |s.path| >= 2 && s.path[0] == "runtime" && Matches(Last(s.path), ".sqlite3")
    ensures MemberName(s).value[0] == "databases" ==> MemberName(s).value == ["databases"] + s.path[1..]
  {
    hide Matches;
  }

  // ---- the two undo each other ----

  /** A top-level JSON file that bears the name of one of the runtime configs. */
  predicate Misplaced(s: Source) {
    s.InState? && |s.path| == 1 && s.path[0] in RUNTIME_CONFIGS
  }

  /** A name that is nothing but the extension. */
  predicate Bare(s: Source) {
    && s.InState? && s.path != []
    && ((|s.path| == 1 || s.path[0] == "runtime") && (Last(s.path) == ".json" || Last(s.path) == ".sqlite3"))
  }

  /** A state directory with the name of an archive section; creating the archive fails on it. */
  predicate Shadowing(s: Source) {
    s.InState? && |s.path| >= 2 && (s.path[0] == "databases" || s.path[0] == "config")
  }

  lemma StateMemberRestores(s: Source)
    requires Proper(s) && s.InState? && MemberName(s).Some? && !Shadowing(s)
    ensures Restored(MemberName(s).value) == Some(s) <==> !Misplaced(s) && !Bare(s)
  {
    var p, m := s.path, MemberName(s).value;
    if |p| == 1 {
      assert m[1..] == p && Last(m) == p[0];
    } else if p[0] == "runtime" {
      assert p == ["runtime"] + p[1..] && Last(p) == Last(m);
      if m[0] == "config" && m != ["config"] + p[1..] {
        assert m[1..] == p;
      } else {
        assert m[1..] == p[1..];
      }
    }
  }

  /**
   Every archived source is restored to its own place exactly when it is not a
   top-level file with a runtime config's name and not a bare extension.
   */
  lemma RestoresToItselfExactly(s: Source)
    requires Proper(s) && MemberName(s).Some? && !Shadowing(s)
    ensures Restored(MemberName(s).value) == Some(s) <==> !Misplaced(s) && !Bare(s)
  {
    if s.InState? {
      StateMemberRestores(s);
    } else {
      var m := MemberName(s).value;
      assert m[1..] == s.path;
    }
  }

  /**
   The other way round: a restored member is what its place would be archived
   under again, unless it names the runtime directory directly or a runtime
   config by its long path.  A restore never leaves its roots.
   */
  lemma NamedAgainExactly(m: Path)
    requires Restored(m).Some?
    ensures var s := Restored(m).value;
            && Proper(s)
            && (MemberName(s) == Some(m) <==>
                  m[0] != "runtime" && !(|m| == 3 && m[0] == "config" && m[1] == "runtime" && m[2] in RUNTIME_CONFIGS))
  {
    var suffix, s := m[1..], Restored(m).value;
    assert m == [m[0]] + suffix && Last(m) == Last(suffix);
    assert forall x :: x in suffix ==> x in m;
    NameFromSection(m, s);
  }

  /** A misplaced file comes back in the runtime directory. */
  lemma MisplacedMoves(name: string)
    requires name in RUNTIME_CONFIGS
    ensures MemberName(InState([name])) == MemberName(InState(["runtime", name])) == Some(["config", name])
    ensures Restored(["config", name]) == Some(InState(["runtime", name]))
  {
    assert Matches(name, ".json") && name[|name| - 1] == 'n';
    assert ["runtime", name][1..] == [name] && ["config", name][1..] == [name];
    assert ["config"] + [name] == ["config", name] && ["runtime"] + [name] == ["runtime", name];
  }

  /** Two different sources share a member name in one situation only. */
  lemma CollisionsExactly(s: Source, t: Source)
    requires Proper(s) && Proper(t) && !Shadowing(s) && !Shadowing(t) && s != t
    requires MemberName(s).Some? && MemberName(s) == MemberName(t)
    ensures exists name :: name in RUNTIME_CONFIGS &&
              ((s == InState([name]) && t == InState(["runtime", name]))
                || (t == InState([name]) && s == InState(["runtime", name])))
  {
    NameShape(s);
    NameShape(t);
    if Misplaced(s) {
      MisplacedTwin(s, t);
    } else if Misplaced(t) {
      MisplacedTwin(t, s);
    } else {
      SameNameSameSource(s, t);
    }
  }

  lemma NameFromSection(m: Path, s: Source)
    requires Restored(m) == Some(s) && Proper(s) && m == [m[0]] + m[1..] && Last(m) == Last(m[1..])
    ensures MemberName(s) == Some(m) <==>
              m[0] != "runtime" && !(|m| == 3 && m[0] == "config" && m[1] == "runtime" && m[2] in RUNTIME_CONFIGS)
  {
    if m[0] == "databases" {
      assert Last(s.path) == Last(m) && s.path[1..] == m[1..];
    } else if m[0] == "config" {
      ConfigNamedAgain(m, s);
    }
  }

  lemma ConfigNamedAgain(m: Path, s: Source)
    requires Restored(m) == Some(s) && Proper(s) && m == [m[0]] + m[1..] && Last(m) == Last(m[1..]) && m[0] == "config"
    ensures MemberName(s) == Some(m) <==> !(|m| == 3 && m[1] == "runtime" && m[2] in RUNTIME_CONFIGS)
  {
    if |m| == 2 && m[1] in RUNTIME_CONFIGS {
      assert s.path == ["runtime", m[1]] && s.path[1..] == m[1..];
    } else {
      assert s.path == m[1..] && Last(s.path) == Last(m);
      JsonIsNoDatabase(Last(m));
      assert m == ["config"] + s.path;
    }
  }

  lemma JsonIsNoDatabase(name: string)
    ensures Matches(name, ".json") ==> !Matches(name, ".sqlite3")
  {
    if Matches(name, ".json") {
      assert name[|name| - 5..][4] == 'n';
    }
  }

  /** What can be read off a member name about the source it came from. */
  lemma NameShape(s: Source)
    requires Proper(s) && MemberName(s).Some? && !Shadowing(s)
    ensures var m := MemberName(s).value;
            && m != []
            && (m[0] == "workspaces" <==> s.InWorkspaces?) && (m[0] == "tenants" <==> s.InTenants?)
            && (!s.InState? ==> m[1..] == s.path)
            && (s.InState? ==> s.path == (if m[0] == "databases" then ["runtime"] + m[1..]
                                         else if m[0] != "config" then m
                                         else if |m| == 2 && m[1] in RUNTIME_CONFIGS && !Misplaced(s)
                                           then ["runtime"] + m[1..]
                                         else m[1..]))
  {
    if s.InState? && |s.path| >= 2 {
      assert s.path == [s.path[0]] + s.path[1..];
    }
  }

  lemma SameNameSameSource(s: Source, t: Source)
    requires Proper(s) && Proper(t) && !Shadowing(s) && !Shadowing(t) && !Misplaced(s) && !Misplaced(t)
    requires MemberName(s).Some? && MemberName(s) == MemberName(t)
    ensures s == t
  {
    NameShape(s);
    NameShape(t);
  }

  lemma MisplacedTwin(s: Source, t: Source)
    requires Proper(s) && Proper(t) && !Shadowing(t) && s != t && Misplaced(s)
    requires MemberName(s).Some? && MemberName(s) == MemberName(t)
    ensures s == InState(s.path) && s.path == [s.path[0]] && t == InState(["runtime", s.path[0]])
  {
    NameShape(t);
    var m := MemberName(s).value;
    assert m == ["config", s.path[0]];
    assert m[1..] == [s.path[0]] == s.path;
  }

  // ---- collecting the config sources ----

  datatype NamingError = Collision(member: Path)

  /**
   The dictionary `_config_sources` fills: it holds every source under its name,
   and is refused exactly when two different sources claim one name.
   */
  method CollectNames(sources: seq<Source>) returns (r: Result<map<Path, Source>, NamingError>)
    requires forall i :: 0 <= i < |sources| ==> Proper(sources[i]) && MemberName(sources[i]).Some?
    ensures r.Ok? <==> forall i, j ::
              0 <= i < |sources| && 0 <= j < |sources| && MemberName(sources[i]) == MemberName(sources[j]) ==>
                sources[i] == sources[j]
    ensures r.Ok? ==> forall i :: 0 <= i < |sources| ==>
              MemberName(sources[i]).value in r.value && r.value[MemberName(sources[i]).value] == sources[i]
    ensures r.Ok? ==> forall m :: m in r.value ==> exists i :: 0 <= i < |sources| && MemberName(sources[i]) == Some(m)
  {
    hide MemberName;
    var names: map<Path, Source> := map[];
    for k := 0 to |sources|
      invariant forall i :: 0 <= i < k ==>
          MemberName(sources[i]).value in names && names[MemberName(sources[i]).value] == sources[i]
      invariant forall m :: m in names ==> exists i :: 0 <= i < k && MemberName(sources[i]) == Some(m)
    {
      var member := MemberName(sources[k]).value;
      if member in names && names[member] != sources[k] {
        ghost var i :| 0 <= i < k && MemberName(sources[i]) == Some(member);
        assert names[MemberName(sources[i]).value] == sources[i];
        return Err(Collision(member));
      }
      names := names[member := sources[k]];
    }
    r := Ok(names);
  }
}
