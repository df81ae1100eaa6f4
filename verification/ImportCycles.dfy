/**
 The import-cycle finder: a depth-first search that reports, for every edge back
 into the active path, the cycle it closes in its least rotation.
 */
module ImportCycles {
  import opened Ordering

  type Graph = map<string, set<string>>

  /** Every import target is itself a module of the product. */
  ghost predicate Closed(g: Graph) {
    forall u, v :: u in g && v in g[u] ==> v in g
  }

  ghost predicate Edge(g: Graph, u: string, v: string) {
    u in g && v in g[u]
  }

  ghost predicate IsPath(g: Graph, p: seq<string>) {
    forall i :: 0 <= i < |p| - 1 ==> Edge(g, p[i], p[i + 1])
  }

  /** A closed walk, given without repeating its first module at the end. */
  ghost predicate IsCycle(g: Graph, c: seq<string>) {
    |c| > 0 && IsPath(g, c) && Edge(g, c[|c| - 1], c[0])
  }

  ghost predicate Acyclic(g: Graph) {
    forall c :: !IsCycle(g, c)
  }

  ghost predicate Reaches(g: Graph, u: string, v: string) {
    exists p :: PathFromTo(g, p, u, v)
  }

  ghost predicate PathFromTo(g: Graph, p: seq<string>, u: string, v: string) {
    |p| > 0 && p[0] == u && p[|p| - 1] == v && IsPath(g, p)
  }

  function Rotate(c: seq<string>, k: nat): (r: seq<string>)
    requires k <= |c|
  {
    c[k..] + c[..k]
  }

  ghost predicate IsRotation(c: seq<string>, d: seq<string>) {
    exists k :: 0 <= k <= |c| && d == Rotate(c, k)
  }

  ghost predicate LeastRotation(c: seq<string>) {
    forall k :: 0 <= k <= |c| ==> TupleLe(c, Rotate(c, k))
  }

  /** u -> v is one of the edges the closed walk c goes along. */
  ghost predicate UsesEdge(c: seq<string>, u: string, v: string) {
    exists i :: EdgeAt(c, i, u, v)
  }

  ghost predicate EdgeAt(c: seq<string>, i: int, u: string, v: string) {
    0 <= i < |c| && c[i] == u && v == if i + 1 < |c| then c[i + 1] else c[0]
  }

  ghost predicate Reported(cycles: set<seq<string>>, u: string, v: string) {
    exists c :: c in cycles && UsesEdge(c, u, v)
  }

  /** Some edge of the closed walk w lies on one of the given cycles. */
  ghost predicate Hit(cycles: set<seq<string>>, w: seq<string>) {
    exists u, v :: UsesEdge(w, u, v) && Reported(cycles, u, v)
  }

  ghost predicate GoodCycle(g: Graph, c: seq<string>) {
    IsCycle(g, c) && Distinct(c) && LeastRotation(c)
  }

  // ---- rotations ----

  lemma RotateBack(c: seq<string>, k: nat)
    requires k <= |c|
    ensures Rotate(Rotate(c, k), |c| - k) == c
  {
    assert Rotate(c, k)[|c| - k..] == c[..k];
    assert Rotate(c, k)[..|c| - k] == c[k..];
  }

  lemma RotateKeepsCycle(g: Graph, c: seq<string>, k: nat)
    requires IsCycle(g, c) && k <= |c|
    ensures IsCycle(g, Rotate(c, k))
  {
    var r := Rotate(c, k);
    forall i | 0 <= i < |r| - 1 ensures Edge(g, r[i], r[i + 1]) {
      if i + k + 1 < |c| {
        assert Edge(g, c[i + k], c[i + k + 1]);
      } else if i + k + 1 == |c| {
        assert r[i] == c[|c| - 1] && r[i + 1] == c[0];
      } else {
        assert Edge(g, c[i + k - |c|], c[i + k - |c| + 1]);
      }
    }
  }

  lemma RotateKeepsDistinct(c: seq<string>, k: nat)
    requires Distinct(c) && k <= |c|
    ensures Distinct(Rotate(c, k))
  {
  }

  lemma RotateKeepsEdges(c: seq<string>, k: nat, u: string, v: string)
    requires UsesEdge(c, u, v) && k <= |c|
    ensures UsesEdge(Rotate(c, k), u, v)
  {
    var r := Rotate(c, k);
    var i :| EdgeAt(c, i, u, v);
    var j := if i >= k then i - k else i + |c| - k;
    assert EdgeAt(r, j, u, v);
  }

  /** Two least rotations of the same closed walk are the same tuple. */
  lemma LeastRotationsAgree(c: seq<string>, d: seq<string>)
    requires LeastRotation(c) && LeastRotation(d) && IsRotation(c, d)
    ensures c == d
  {
    var k :| 0 <= k <= |c| && d == Rotate(c, k);
    RotateBack(c, k);
    assert TupleLe(c, Rotate(c, k));
    assert TupleLe(d, Rotate(d, |c| - k));
    TupleLeIsTotalOrder();
  }

  /** `min` over all rotations of a tuple. */
  method MinRotation(c: seq<string>) returns (r: seq<string>)
    requires c != []
    ensures IsRotation(c, r) && LeastRotation(r)
  {
    TupleLeIsTotalOrder();
    r := Rotate(c, 0);
    ghost var at: nat := 0;
    for k := 0 to |c|
      invariant at <= |c| && r == Rotate(c, at)
      invariant forall j :: 0 <= j < k ==> TupleLe(r, Rotate(c, j))
    {
      if !TupleLe(r, Rotate(c, k)) {
        r := Rotate(c, k);
        at := k;
      }
    }
    assert Rotate(c, |c|) == c == Rotate(c, 0);
    forall k | 0 <= k <= |r| ensures TupleLe(r, Rotate(r, k)) {
      var j := if at + k <= |c| then at + k else at + k - |c|;
      RotateTwice(c, at, k);
      assert Rotate(r, k) == Rotate(c, j);
    }
  }

  lemma RotateTwice(c: seq<string>, a: nat, b: nat)
    requires a <= |c| && b <= |c|
    ensures Rotate(Rotate(c, a), b) == Rotate(c, if a + b <= |c| then a + b else a + b - |c|)
  {
    var r := Rotate(c, a);
    if a + b <= |c| {
      assert r[b..] == c[a + b..] + c[..a] && r[..b] == c[a..a + b];
    } else {
      assert r[b..] == c[a + b - |c|..a] && r[..b] == c[a..] + c[..a + b - |c|];
    }
  }

  // ---- why a search that follows finish order misses no cyclic component ----

  /** Every edge out of a finished module leads to an earlier finished one or was reported. */
  ghost predicate Explained(g: Graph, finished: seq<string>, cycles: set<seq<string>>) {
    forall i, v :: 0 <= i < |finished| && finished[i] in g && v in g[finished[i]] ==>
      v in finished[..i] || Reported(cycles, finished[i], v)
  }

  ghost function Position(finished: seq<string>, x: string): (i: nat)
    requires x in finished
    ensures i < |finished| && finished[i] == x && x !in finished[..i]
  {
    if finished[0] == x then 0 else 1 + Position(finished[1..], x)
  }

  lemma {:induction false} PositionIsFirst(finished: seq<string>, x: string, j: nat)
    requires j < |finished| && finished[j] == x
    ensures Position(finished, x) <= j
  {
    if finished[0] != x {
      PositionIsFirst(finished[1..], x, j - 1);
    }
  }

  lemma UnreportedEdgeDescends(g: Graph, finished: seq<string>, cycles: set<seq<string>>, u: string, v: string)
    requires Explained(g, finished, cycles) && u in finished && Edge(g, u, v) && !Reported(cycles, u, v)
    ensures v in finished && Position(finished, v) < Position(finished, u)
  {
    var i := Position(finished, u);
    assert v in finished[..i];
    var j :| 0 <= j < i && finished[j] == v;
    PositionIsFirst(finished, v, j);
  }

  lemma {:induction false} UnhitWalkDescends(
    g: Graph, finished: seq<string>, cycles: set<seq<string>>, w: seq<string>, n: nat)
    requires Explained(g, finished, cycles) && IsPath(g, w) && n < |w| && w[0] in finished
    requires !Hit(cycles, w)
    ensures w[n] in finished && Position(finished, w[n]) + n <= Position(finished, w[0])
  {
    if n > 0 {
      UnhitWalkDescends(g, finished, cycles, w, n - 1);
      assert EdgeAt(w, n - 1, w[n - 1], w[n]);
      assert Edge(g, w[n - 1], w[n - 1 + 1]);
      UnreportedEdgeDescends(g, finished, cycles, w[n - 1], w[n]);
    }
  }

  lemma EveryCycleIsHit(g: Graph, finished: seq<string>, cycles: set<seq<string>>, w: seq<string>)
    requires Explained(g, finished, cycles) && IsCycle(g, w) && w[0] in finished
    ensures Hit(cycles, w)
  {
    if !Hit(cycles, w) {
      var last := |w| - 1;
      UnhitWalkDescends(g, finished, cycles, w, last);
      assert EdgeAt(w, last, w[last], w[0]);
      UnreportedEdgeDescends(g, finished, cycles, w[last], w[0]);
    }
  }

  lemma CycleReachesItself(g: Graph, c: seq<string>, x: string, y: string)
    requires IsCycle(g, c) && x in c && y in c
    ensures Reaches(g, x, y)
  {
    var k :| 0 <= k < |c| && c[k] == x;
    var r := Rotate(c, k);
    RotateKeepsCycle(g, c, k);
    assert y in r;
    var j :| 0 <= j < |r| && r[j] == y;
    assert PathFromTo(g, r[..j + 1], x, y);
  }

  lemma ReachesTransitive(g: Graph, x: string, y: string, z: string)
    requires Reaches(g, x, y) && Reaches(g, y, z)
    ensures Reaches(g, x, z)
  {
    var p :| PathFromTo(g, p, x, y);
    var q :| PathFromTo(g, q, y, z);
    var r := p + q[1..];
    forall i | 0 <= i < |r| - 1 ensures Edge(g, r[i], r[i + 1]) {
      if i < |p| - 1 {
        assert Edge(g, p[i], p[i + 1]);
      } else {
        assert r[i] == q[i - |p| + 1] && r[i + 1] == q[i - |p| + 2];
        assert Edge(g, q[i - |p| + 1], q[i - |p| + 1 + 1]);
      }
    }
    assert PathFromTo(g, r, x, z);
  }

  /** x and y import each other, directly or not. */
  ghost predicate SameComponent(g: Graph, x: string, y: string) {
    Reaches(g, x, y) && Reaches(g, y, x)
  }

  ghost predicate WithinComponent(g: Graph, c: seq<string>, y: string) {
    forall x :: x in c ==> SameComponent(g, x, y)
  }

  lemma CyclesSharingAnEdge(g: Graph, c: seq<string>, w: seq<string>, u: string, v: string)
    requires IsCycle(g, c) && IsCycle(g, w) && UsesEdge(c, u, v) && UsesEdge(w, u, v)
    ensures WithinComponent(g, c, w[0])
  {
    forall x | x in c ensures SameComponent(g, x, w[0]) {
      CycleReachesItself(g, w, w[0], u);
      CycleReachesItself(g, w, u, w[0]);
      CycleReachesItself(g, c, u, x);
      CycleReachesItself(g, c, x, u);
      ReachesTransitive(g, w[0], u, x);
      ReachesTransitive(g, x, u, w[0]);
    }
  }

  /** Closing the active path back to one of its own modules yields a simple cycle. */
  lemma SuffixIsCycle(g: Graph, active: seq<string>, start: nat)
    requires IsPath(g, active) && Distinct(active) && start < |active|
    requires Edge(g, active[|active| - 1], active[start])
    ensures var cycle := active[start..];
            IsCycle(g, cycle) && Distinct(cycle) && UsesEdge(cycle, active[|active| - 1], active[start])
  {
    var cycle := active[start..];
    forall i | 0 <= i < |cycle| - 1 ensures Edge(g, cycle[i], cycle[i + 1]) {
      assert Edge(g, active[start + i], active[start + i + 1]);
    }
    assert EdgeAt(cycle, |cycle| - 1, active[|active| - 1], active[start]);
  }

  lemma LeastRotationIsGood(g: Graph, cycle: seq<string>, least: seq<string>, u: string, v: string)
    requires IsCycle(g, cycle) && Distinct(cycle) && UsesEdge(cycle, u, v)
    requires IsRotation(cycle, least) && LeastRotation(least)
    ensures GoodCycle(g, least) && UsesEdge(least, u, v)
  {
    var k :| 0 <= k <= |cycle| && least == Rotate(cycle, k);
    RotateKeepsCycle(g, cycle, k);
    RotateKeepsDistinct(cycle, k);
    RotateKeepsEdges(cycle, k, u, v);
  }

  // ---- the search ----

  class CycleSearch {
    const edges: Graph
    var visited: set<string>
    var active: seq<string>
    var activeSet: set<string>
    var cycles: set<seq<string>>
    /** Modules in the order their visit returned. */
    ghost var finished: seq<string>

    ghost predicate Valid()
      reads this
    {
      && Closed(edges)
      && (forall x :: x in active <==> x in activeSet)
      && (forall x :: x in visited <==> x in activeSet || x in finished)
      && (forall x :: x in finished ==> x !in activeSet)
      && visited <= edges.Keys
      && Distinct(active) && IsPath(edges, active)
      && (forall c :: c in cycles ==> GoodCycle(edges, c))
      && Explained(edges, finished, cycles)
    }

    constructor (g: Graph)
      requires Closed(g)
      ensures Valid() && edges == g
      ensures visited == {} && active == [] && cycles == {} && finished == []
    {
      edges := g;
      visited, active, activeSet, cycles, finished := {}, [], {}, {}, [];
    }

    /** `active.index(target)`. */
    method ActiveIndex(target: string) returns (start: nat)
      requires target in active
      ensures start < |active| && active[start] == target && target !in active[..start]
    {
      start := 0;
      while active[start] != target
        invariant start < |active| && target !in active[..start]
        decreases |active| - start
      {
        assert target in active[start + 1..];
        start := start + 1;
      }
    }

    /** Record the cycle that the edge from the last active module to target closes. */
    method Report(target: string)
      requires Valid() && active != [] && target in active
      requires Edge(edges, active[|active| - 1], target)
      modifies this`cycles
      ensures Valid() && old(cycles) <= cycles
      ensures Reported(cycles, active[|active| - 1], target)
    {
      var start := ActiveIndex(target);
      var cycle := active[start..];
      ghost var last := active[|active| - 1];
      SuffixIsCycle(edges, active, start);
      var least := MinRotation(cycle);
      LeastRotationIsGood(edges, cycle, least, last, target);
      MoreCyclesExplainMore(edges, finished, cycles, cycles + {least});
      cycles := cycles + {least};
      assert least in cycles;
    }

    method Enter(module_: string)
      requires Valid() && module_ in edges && module_ !in visited
      requires active == [] || Edge(edges, active[|active| - 1], module_)
      modifies this
      ensures Valid() && cycles == old(cycles) && finished == old(finished)
      ensures visited == old(visited) + {module_}
      ensures active == old(active) + [module_] && activeSet == old(activeSet) + {module_}
    {
      visited := visited + {module_};
      active := active + [module_];
      activeSet := activeSet + {module_};
    }

    method Leave(module_: string, ghost targets: seq<string>)
      requires Valid() && active != [] && active[|active| - 1] == module_
      requires module_ in edges && (forall v :: v in edges[module_] ==> v in targets)
      requires Handled(module_, targets, finished, cycles)
      modifies this
      ensures Valid() && visited == old(visited) && cycles == old(cycles)
      ensures active == old(active)[..|old(active)| - 1] && activeSet == old(activeSet) - {module_}
      ensures finished == old(finished) + [module_]
    {
      FinishingExplains(edges, finished, cycles, module_, targets);
      active := active[..|active| - 1];
      activeSet := activeSet - {module_};
      finished := finished + [module_];
    }

    method Visit(module_: string)
      requires Valid() && module_ in edges && module_ !in visited
      requires active == [] || Edge(edges, active[|active| - 1], module_)
      modifies this
      ensures Valid() && module_ in finished
      ensures active == old(active) && activeSet == old(activeSet)
      ensures old(visited) <= visited && old(cycles) <= cycles
      ensures forall x :: x in old(finished) ==> x in finished
      decreases edges.Keys - visited
    {
      ghost var entrySet := activeSet;
      Enter(module_);
      ghost var path := active;
      var targets := SortedNames(edges[module_]);
      for t := 0 to |targets|
        invariant Valid() && active == path && activeSet == entrySet + {module_}
        invariant module_ in visited && old(visited) <= visited && old(cycles) <= cycles
        invariant forall x :: x in old(finished) ==> x in finished
        invariant Handled(module_, targets[..t], finished, cycles)
      {
        var target := targets[t];
        assert target in targets;
        ghost var seenFinished, seenCycles := finished, cycles;
        if target !in visited {
          Visit(target);
        } else if target in activeSet {
          Report(target);
        }
        HandleNext(module_, targets[..t], target, seenFinished, seenCycles, finished, cycles);
        assert targets[..t + 1] == targets[..t] + [target];
      }
      assert targets[..|targets|] == targets;
      Leave(module_, targets);
    }

    method SearchAll()
      requires Valid() && active == [] && visited == {} && finished == []
      modifies this
      ensures Valid() && forall x :: x in edges ==> x in finished
    {
      var modules := SortedNames(edges.Keys);
      for m := 0 to |modules|
        invariant Valid() && active == []
        invariant forall j :: 0 <= j < m ==> modules[j] in finished
      {
        assert modules[m] in modules;
        if modules[m] !in visited {
          Visit(modules[m]);
        }
      }
    }
  }

  lemma MoreCyclesReportMore(few: set<seq<string>>, more: set<seq<string>>, u: string, v: string)
    requires few <= more && Reported(few, u, v)
    ensures Reported(more, u, v)
  {
    var c :| c in few && UsesEdge(c, u, v);
    assert c in more;
  }

  ghost predicate Handled(m: string, targets: seq<string>, finished: seq<string>, cycles: set<seq<string>>) {
    forall v :: v in targets ==> v in finished || Reported(cycles, m, v)
  }

  lemma HandleNext(
    m: string, targets: seq<string>, next: string,
    finished: seq<string>, cycles: set<seq<string>>, finished': seq<string>, cycles': set<seq<string>>)
    requires Handled(m, targets, finished, cycles) && cycles <= cycles'
    requires forall x :: x in finished ==> x in finished'
    requires next in finished' || Reported(cycles', m, next)
    ensures Handled(m, targets + [next], finished', cycles')
  {
    forall v | v in targets + [next] ensures v in finished' || Reported(cycles', m, v) {
      if v != next && v !in finished {
        MoreCyclesReportMore(cycles, cycles', m, v);
      }
    }
  }

  lemma MoreCyclesExplainMore(g: Graph, finished: seq<string>, few: set<seq<string>>, more: set<seq<string>>)
    requires few <= more && Explained(g, finished, few)
    ensures Explained(g, finished, more)
  {
    forall i, v | 0 <= i < |finished| && finished[i] in g && v in g[finished[i]]
      ensures v in finished[..i] || Reported(more, finished[i], v)
    {
      if v !in finished[..i] {
        MoreCyclesReportMore(few, more, finished[i], v);
      }
    }
  }

  lemma FinishingExplains(g: Graph, finished: seq<string>, cycles: set<seq<string>>, m: string, targets: seq<string>)
    requires m in g && (forall v :: v in g[m] ==> v in targets)
    requires Explained(g, finished, cycles)
    requires Handled(m, targets, finished, cycles)
    ensures Explained(g, finished + [m], cycles)
  {
    var all := finished + [m];
    forall i, v | 0 <= i < |all| && all[i] in g && v in g[all[i]]
      ensures v in all[..i] || Reported(cycles, all[i], v)
    {
      assert all[..i] == finished[..i];
      if i == |finished| {
        assert finished[..i] == finished;
        assert v in targets;
      } else {
        assert all[i] == finished[i];
      }
    }
  }

  lemma SearchIsComplete(g: Graph, finished: seq<string>, cycles: set<seq<string>>)
    requires Explained(g, finished, cycles) && forall x :: x in g ==> x in finished
    ensures forall w :: IsCycle(g, w) ==> Hit(cycles, w)
  {
    forall w | IsCycle(g, w) ensures Hit(cycles, w) {
      assert |w| > 1 ==> Edge(g, w[0], w[0 + 1]);
      EveryCycleIsHit(g, finished, cycles, w);
    }
  }

  lemma NoTwoAreRotations(r: seq<seq<string>>)
    requires Distinct(r) && forall i :: 0 <= i < |r| ==> LeastRotation(r[i])
    ensures forall i, j :: 0 <= i < j < |r| ==> !IsRotation(r[i], r[j]) && !IsRotation(r[j], r[i])
  {
    forall i, j | 0 <= i < j < |r| ensures !IsRotation(r[i], r[j]) && !IsRotation(r[j], r[i]) {
      if IsRotation(r[i], r[j]) {
        LeastRotationsAgree(r[i], r[j]);
      }
      if IsRotation(r[j], r[i]) {
        LeastRotationsAgree(r[j], r[i]);
      }
    }
  }

  /** Only simple cycles in their least rotation are listed, none a rotation of another. */
  ghost predicate Sound(g: Graph, r: seq<seq<string>>) {
    && (forall i :: 0 <= i < |r| ==> GoodCycle(g, r[i]))
    && (forall i, j :: 0 <= i < j < |r| ==> !IsRotation(r[i], r[j]) && !IsRotation(r[j], r[i]))
  }

  /** Every closed walk of the graph goes along an edge of a listed cycle. */
  ghost predicate Complete(g: Graph, r: seq<seq<string>>) {
    forall w :: IsCycle(g, w) ==> Hit((set c | c in r), w)
  }

  lemma ListingIsSound(g: Graph, cycles: set<seq<string>>, r: seq<seq<string>>)
    requires forall c :: c in cycles ==> GoodCycle(g, c)
    requires Distinct(r) && forall c :: c in r <==> c in cycles
    ensures Sound(g, r)
  {
    forall i | 0 <= i < |r| ensures GoodCycle(g, r[i]) {
      assert r[i] in r;
    }
    NoTwoAreRotations(r);
  }

  lemma ListingIsComplete(g: Graph, finished: seq<string>, cycles: set<seq<string>>, r: seq<seq<string>>)
    requires Explained(g, finished, cycles) && forall x :: x in g ==> x in finished
    requires (set c | c in r) == cycles
    ensures Complete(g, r)
  {
    SearchIsComplete(g, finished, cycles);
  }

  lemma ListedExactlyWhenCyclic(g: Graph, r: seq<seq<string>>)
    requires Complete(g, r) && forall i :: 0 <= i < |r| ==> IsCycle(g, r[i])
    ensures r == [] <==> Acyclic(g)
  {
    if r == [] {
      forall w ensures !IsCycle(g, w) {
        assert IsCycle(g, w) ==> Hit((set c | c in r), w);
      }
    } else {
      assert IsCycle(g, r[0]);
    }
  }

  /**
   Completeness per component: a strongly connected component holding a closed
   walk w also holds one of the listed cycles, entirely.
   */
  lemma CyclicComponentIsReported(g: Graph, r: seq<seq<string>>, w: seq<string>)
    requires (forall i :: 0 <= i < |r| ==> IsCycle(g, r[i])) && Complete(g, r) && IsCycle(g, w)
    ensures exists i :: 0 <= i < |r| && WithinComponent(g, r[i], w[0])
  {
    hide IsCycle, UsesEdge, WithinComponent;
    var cycles := set c | c in r;
    assert Hit(cycles, w);
    var u, v :| UsesEdge(w, u, v) && Reported(cycles, u, v);
    var c :| c in cycles && UsesEdge(c, u, v);
    var i :| 0 <= i < |r| && r[i] == c;
    CyclesSharingAnEdge(g, r[i], w, u, v);
  }

  /**
   `_find_cycles`: a sound and complete listing in tuple order, empty exactly
   when the graph has no cycle.
   */
  method FindCycles(edges: Graph) returns (r: seq<seq<string>>)
    requires Closed(edges)
    ensures Sound(edges, r)
    ensures Complete(edges, r)
    ensures r == [] <==> Acyclic(edges)
    ensures Sorted(TupleLe, r)
  {
    var search := new CycleSearch(edges);
    search.SearchAll();
    var cycles := search.cycles;
    ghost var finished := search.finished;
    assert forall c :: c in cycles ==> GoodCycle(edges, c);
    r := SortedTuples(cycles);
    assert (set c | c in r) == cycles;
    ListingIsSound(edges, cycles, r);
    ListingIsComplete(edges, finished, cycles, r);
    ListedExactlyWhenCyclic(edges, r);
  }

  // ---- resolving an import to a product module ----

  /** `candidate.rpartition(".")[0]`: what stands before the last dot, or nothing. */
  function Parent(name: string): (r: string)
    ensures |r| < |name| || r == name == ""
    ensures r <= name && (r != "" ==> name[|r|] == '.')
    ensures forall i :: |r| < i < |name| ==> name[i] != '.'
  {
    if name == "" then ""
    else if name[|name| - 1] == '.' then name[..|name| - 1]
    else
      var p := Parent(name[..|name| - 1]);
      p
  }

  /** p is the target itself or a package path leading to it. */
  ghost predicate PackageOf(p: string, target: string) {
    p != "" && p <= target && (p == target || target[|p|] == '.')
  }

  /** `_known_module`: the longest package path of the target that is a product module. */
  method KnownModule(target: string, modules: set<string>) returns (r: string, found: bool)
    ensures found ==> r in modules && PackageOf(r, target)
    ensures found ==> forall p :: PackageOf(p, target) && p in modules ==> |p| <= |r|
    ensures !found ==> forall p :: PackageOf(p, target) ==> p !in modules
  {
    var candidate := target;
    while candidate != ""
      invariant candidate == "" || PackageOf(candidate, target)
      invariant forall p :: PackageOf(p, target) && p in modules ==> |p| <= |candidate|
      decreases |candidate|
    {
      if candidate in modules {
        return candidate, true;
      }
      var next := Parent(candidate);
      forall p | PackageOf(p, target) && p in modules ensures |p| <= |next| {
        assert |p| == |candidate| ==> p == candidate;
        assert forall i :: |next| < i < |candidate| ==> target[i] == candidate[i];
      }
      candidate := next;
    }
    return "", false;
  }
}
