/** Topological sort of a dependency map.

`std::map` and `std::set` are visited here in an arbitrary order, so everything
proved holds for the ascending order of the original as well. */
module DependencySort {
  import opened Sequences

  /** Names are strings that are only ever compared for equality. */
  type Name(==, !new)

  /** What each name depends on. */
  type DependencyMap = map<Name, set<Name>>

  // ---------------------------------------------------------------------------
  // Paths and cycles
  // ---------------------------------------------------------------------------

  ghost predicate Edge(g: DependencyMap, a: Name, b: Name) {
    a in g && b in g[a]
  }

  ghost predicate Path(g: DependencyMap, p: seq<Name>) {
    |p| >= 1 && forall i :: 0 <= i < |p| - 1 ==> Edge(g, p[i], p[i + 1])
  }

  ghost predicate Cycle(g: DependencyMap, c: seq<Name>) {
    Path(g, c) && |c| >= 2 && c[0] == c[|c| - 1]
  }

  ghost predicate Acyclic(g: DependencyMap) {
    !exists c :: Cycle(g, c)
  }

  ghost predicate OnCycle(g: DependencyMap, v: Name) {
    exists c :: Cycle(g, c) && c[0] == v
  }

  /** Some path leads from a cycle to `v`. */
  ghost predicate FromCycle(g: DependencyMap, v: Name) {
    exists p :: Path(g, p) && p[|p| - 1] == v && OnCycle(g, p[0])
  }

  /** Everything depended on is itself a key. */
  ghost predicate Closed(g: DependencyMap) {
    forall a, b :: Edge(g, a, b) ==> b in g
  }

  /** A name that occurs only on the right, and that no cycle leads to. */
  ghost predicate Dangling(g: DependencyMap, d: Name) {
    d !in g && (exists a :: Edge(g, a, d)) && !FromCycle(g, d)
  }

  ghost function Elements(s: seq<Name>): set<Name> {
    set x | x in s
  }

  /** The names in `s` that depend on `v`. */
  ghost function Dependents(g: DependencyMap, s: set<Name>, v: Name): set<Name> {
    set u | u in s && u in g && v in g[u]
  }

  lemma {:induction false} DistinctSize(s: seq<Name>)
    requires Distinct(s)
    ensures |Elements(s)| == |s|
  {
    if s != [] {
      var front, last := s[..|s| - 1], s[|s| - 1];
      DistinctSize(front);
      assert s == front + [last] && last !in Elements(front);
      assert Elements(s) == Elements(front) + {last};
    }
  }

  lemma SubsetSize<T>(a: set<T>, b: set<T>)
    requires a <= b
    ensures |a| <= |b|
    ensures |a| == |b| ==> a == b
  {
    assert b == a + (b - a);
  }

  /** Among more names than there are, one occurs twice. */
  lemma {:induction false} Pigeonhole(p: seq<Name>, s: set<Name>) returns (i: nat, j: nat)
    requires forall x :: x in p ==> x in s
    requires |p| > |s|
    ensures i < j < |p| && p[i] == p[j]
  {
    if Distinct(p) {
      DistinctSize(p);
      SubsetSize(Elements(p), s);
    }
    i, j :| 0 <= i < j < |p| && p[i] == p[j];
  }

  /** If everything in `rest` has a dependent in `rest`, one can walk back forever. */
  lemma {:induction false} WalkBack(g: DependencyMap, rest: set<Name>, v: Name, n: nat) returns (p: seq<Name>)
    requires v in rest && forall x :: x in rest ==> Dependents(g, rest, x) != {}
    ensures Path(g, p) && |p| == n + 1 && p[n] == v && forall x :: x in p ==> x in rest
    decreases n
  {
    if n == 0 {
      p := [v];
    } else {
      var u :| u in Dependents(g, rest, v);
      var q := WalkBack(g, rest, u, n - 1);
      p := q + [v];
    }
  }

  lemma StuckIsFromCycle(g: DependencyMap, rest: set<Name>, v: Name)
    requires v in rest && forall x :: x in rest ==> Dependents(g, rest, x) != {}
    ensures FromCycle(g, v)
  {
    var p := WalkBack(g, rest, v, |rest|);
    var i, j := Pigeonhole(p, rest);
    var c := p[i..j + 1];
    assert Cycle(g, c) && c[0] == p[i];
    var q := p[i..];
    assert Path(g, q) && q[|q| - 1] == v && OnCycle(g, q[0]);
  }

  lemma FromCycleStep(g: DependencyMap, u: Name, v: Name)
    requires FromCycle(g, u) && Edge(g, u, v)
    ensures FromCycle(g, v)
  {
    var p :| Path(g, p) && p[|p| - 1] == u && OnCycle(g, p[0]);
    var q := p + [v];
    assert Path(g, q) && q[|q| - 1] == v && OnCycle(g, q[0]);
  }

  // ---------------------------------------------------------------------------
  // What the queue loop builds up
  // ---------------------------------------------------------------------------

  /** Every listed name comes after all names that depend on it. */
  ghost predicate Layered(g: DependencyMap, result: seq<Name>) {
    forall k, u :: 0 <= k < |result| && Edge(g, u, result[k]) ==> u in result[..k]
  }

  lemma {:induction false} PathIntoLayered(g: DependencyMap, result: seq<Name>, p: seq<Name>, k: nat)
    requires Layered(g, result) && Path(g, p) && k < |result| && p[|p| - 1] == result[k]
    ensures p[0] in result[..k + 1]
    ensures |p| >= 2 ==> p[0] in result[..k]
    decreases |p|
  {
    if |p| >= 2 {
      assert Edge(g, p[|p| - 2], p[|p| - 1]);
      assert p[|p| - 2] in result[..k];
      var m :| 0 <= m < k && result[m] == p[|p| - 2];
      PathIntoLayered(g, result, p[..|p| - 1], m);
    }
  }

  lemma LayeredNotFromCycle(g: DependencyMap, result: seq<Name>, v: Name)
    requires Layered(g, result) && Distinct(result) && v in result
    ensures !FromCycle(g, v)
  {
    if FromCycle(g, v) {
      var p :| Path(g, p) && p[|p| - 1] == v && OnCycle(g, p[0]);
      var k :| 0 <= k < |result| && result[k] == v;
      PathIntoLayered(g, result, p, k);
      var m :| 0 <= m < |result| && result[m] == p[0];
      var c :| Cycle(g, c) && c[0] == p[0];
      PathIntoLayered(g, result, c, m);
      assert false;
    }
  }

  /** A missing entry of the counter map reads as zero. */
  function At(m: map<Name, int>, v: Name): int {
    if v in m then m[v] else 0
  }

  ghost predicate SumsUp(g: DependencyMap, s: set<Name>, indegrees: map<Name, int>) {
    forall v :: At(indegrees, v) == |Dependents(g, s, v)|
  }

  ghost function Rest(g: DependencyMap, result: seq<Name>): set<Name> {
    g.Keys - Elements(result)
  }

  ghost predicate ResultOk(g: DependencyMap, result: seq<Name>) {
    Distinct(result) && Elements(result) <= g.Keys && Layered(g, result)
  }

  /** The queue holds exactly the unlisted names that nothing unlisted depends on. */
  ghost predicate QueueOk(g: DependencyMap, known: set<Name>, queue: seq<Name>, result: seq<Name>) {
    && Distinct(queue)
    && forall v :: v in queue <==>
        v !in result && (v in g || v in known) && Dependents(g, Rest(g, result), v) == {}
  }

  /** State of the queue loop between two rounds. */
  ghost predicate LoopInv(g: DependencyMap, known: set<Name>, indegrees: map<Name, int>,
                          queue: seq<Name>, result: seq<Name>) {
    && indegrees.Keys == known
    && SumsUp(g, Rest(g, result), indegrees)
    && ResultOk(g, result)
    && QueueOk(g, known, queue, result)
  }

  /** Inner loop of the first loop nest: one more name depends on each of `edges`. */
  method AddDependent(edges: set<Name>, before: map<Name, int>) returns (indegrees: map<Name, int>)
    ensures forall v :: v in indegrees <==> v in before || v in edges
    ensures forall v :: At(indegrees, v) == At(before, v) + (if v in edges then 1 else 0)
  {
    indegrees := before;
    var todo := edges;
    while todo != {}
      invariant todo <= edges
      invariant forall v :: v in indegrees <==> v in before || (v in edges && v !in todo)
      invariant forall v :: At(indegrees, v) == At(before, v) + (if v in edges && v !in todo then 1 else 0)
      decreases |todo|
    {
      var j :| j in todo;
      indegrees := indegrees[j := At(indegrees, j) + 1];
      todo := todo - {j};
    }
  }

  lemma DependentsGrow(g: DependencyMap, seen: set<Name>, i: Name, v: Name)
    requires i in g && i !in seen
    ensures |Dependents(g, seen + {i}, v)| == |Dependents(g, seen, v)| + (if v in g[i] then 1 else 0)
  {
    if v in g[i] {
      assert Dependents(g, seen + {i}, v) == Dependents(g, seen, v) + {i};
    } else {
      assert Dependents(g, seen + {i}, v) == Dependents(g, seen, v);
    }
  }

  lemma HasDependents(g: DependencyMap, v: Name)
    ensures |Dependents(g, g.Keys, v)| != 0 <==> exists u :: Edge(g, u, v)
  {
    if u :| Edge(g, u, v) {
      assert u in Dependents(g, g.Keys, v);
    }
    if Dependents(g, g.Keys, v) != {} {
      var u :| u in Dependents(g, g.Keys, v);
      assert Edge(g, u, v);
    }
  }

  /** The first loop nest: how many names depend on each name. */
  method CountDependents(depends: DependencyMap) returns (indegrees: map<Name, int>)
    ensures SumsUp(depends, depends.Keys, indegrees)
    ensures forall v :: v in indegrees <==> exists u :: Edge(depends, u, v)
  {
    indegrees := map[];
    var todo := depends.Keys;
    ghost var seen: set<Name> := {};
    while todo != {}
      invariant seen + todo == depends.Keys && seen !! todo
      invariant SumsUp(depends, seen, indegrees)
      invariant forall v :: v in indegrees <==> |Dependents(depends, seen, v)| != 0
      decreases |todo|
    {
      var i :| i in todo;
      indegrees := AddDependent(depends[i], indegrees);
      forall v ensures |Dependents(depends, seen + {i}, v)|
                       == |Dependents(depends, seen, v)| + (if v in depends[i] then 1 else 0) {
        DependentsGrow(depends, seen, i, v);
      }
      todo := todo - {i};
      seen := seen + {i};
    }
    assert seen == depends.Keys;
    forall v ensures v in indegrees <==> exists u :: Edge(depends, u, v) {
      HasDependents(depends, v);
    }
  }

  /** The second loop: names nobody depends on start the queue. */
  method InitialQueue(depends: DependencyMap, indegrees: map<Name, int>) returns (queue: seq<Name>)
    ensures Distinct(queue)
    ensures forall v :: v in queue <==> v in depends && v !in indegrees
  {
    queue := [];
    var todo := depends.Keys;
    while todo != {}
      invariant todo <= depends.Keys
      invariant Distinct(queue)
      invariant forall v :: v in queue <==> v in depends.Keys - todo && v !in indegrees
      decreases |todo|
    {
      var i :| i in todo;
      if i !in indegrees {
        queue := queue + [i];
      }
      todo := todo - {i};
    }
  }

  /** The inner loop of the queue phase: one finished name releases its dependencies. */
  method Release(edges: set<Name>, indegrees0: map<Name, int>, queue0: seq<Name>)
    returns (indegrees: map<Name, int>, queue: seq<Name>)
    requires edges <= indegrees0.Keys && Distinct(queue0)
    requires forall v :: v in edges ==> v !in queue0
    ensures indegrees.Keys == indegrees0.Keys
    ensures forall v :: At(indegrees, v) == At(indegrees0, v) - (if v in edges then 1 else 0)
    ensures Distinct(queue)
    ensures forall v :: v in queue <==> v in queue0 || (v in edges && At(indegrees, v) == 0)
  {
    indegrees, queue := indegrees0, queue0;
    var todo := edges;
    while todo != {}
      invariant todo <= edges
      invariant indegrees.Keys == indegrees0.Keys
      invariant forall v :: At(indegrees, v) == At(indegrees0, v) - (if v in edges && v !in todo then 1 else 0)
      invariant Distinct(queue)
      invariant forall v :: v in queue <==> v in queue0 || (v in edges && v !in todo && At(indegrees, v) == 0)
      decreases |todo|
    {
      var j :| j in todo;
      indegrees := indegrees[j := indegrees[j] - 1];
      if indegrees[j] == 0 {
        queue := queue + [j];
      }
      todo := todo - {j};
    }
  }

  /** Moving the name `u` to the result lowers exactly its dependencies by one. */
  lemma DependentsDrop(g: DependencyMap, rest: set<Name>, u: Name, v: Name)
    requires u in rest && u in g
    ensures Dependents(g, rest - {u}, v) == Dependents(g, rest, v) - {u}
    ensures |Dependents(g, rest - {u}, v)| == |Dependents(g, rest, v)| - (if v in g[u] then 1 else 0)
  {
    assert Dependents(g, rest - {u}, v) == Dependents(g, rest, v) - {u};
    if v !in g[u] {
      assert Dependents(g, rest - {u}, v) == Dependents(g, rest, v);
    }
  }

  lemma ListedDependents(g: DependencyMap, result: seq<Name>, u: Name)
    requires Layered(g, result)
    ensures forall v :: v in result && Edge(g, u, v) ==> u in result
  {
    forall v | v in result && Edge(g, u, v) ensures u in result {
      var k :| 0 <= k < |result| && result[k] == v;
      assert u in result[..k];
    }
  }

  lemma ListedLayer(g: DependencyMap, known: set<Name>, queue: seq<Name>, result: seq<Name>)
    requires ResultOk(g, result) && QueueOk(g, known, queue, result) && queue != [] && queue[0] in g
    ensures ResultOk(g, result + [queue[0]])
  {
    var u := queue[0];
    var done := result + [u];
    assert u in queue;
    forall k, x | 0 <= k < |done| && Edge(g, x, done[k]) ensures x in done[..k] {
      if k < |result| {
        assert done[..k] == result[..k];
      } else {
        assert done[..k] == result;
        assert x !in Dependents(g, Rest(g, result), u);
      }
    }
  }

  lemma NextQueue(g: DependencyMap, known: set<Name>, queue: seq<Name>, result: seq<Name>,
                  indegrees': map<Name, int>, queue': seq<Name>)
    requires ResultOk(g, result) && QueueOk(g, known, queue, result) && queue != [] && queue[0] in g
    requires g[queue[0]] <= known && Distinct(queue')
    requires SumsUp(g, Rest(g, result) - {queue[0]}, indegrees')
    requires forall v :: v in queue' <==> v in queue[1..] || (v in g[queue[0]] && At(indegrees', v) == 0)
    ensures QueueOk(g, known, queue', result + [queue[0]])
  {
    var u, rest := queue[0], Rest(g, result);
    assert Rest(g, result + [u]) == rest - {u};
    ListedDependents(g, result, u);
    assert u in queue && u !in Dependents(g, rest, u);
    forall v ensures v in queue' <==>
                     v !in result + [u] && (v in g || v in known) && Dependents(g, rest - {u}, v) == {} {
      DependentsDrop(g, rest, u, v);
      assert v in queue[1..] <==> v in queue && v != u;
      assert v in g[u] ==> Edge(g, u, v) && u in Dependents(g, rest, v);
    }
  }

  lemma RoundKeeps(g: DependencyMap, known: set<Name>, indegrees: map<Name, int>, queue: seq<Name>, result: seq<Name>,
                   indegrees': map<Name, int>, queue': seq<Name>)
    requires LoopInv(g, known, indegrees, queue, result) && queue != [] && queue[0] in g
    requires indegrees'.Keys == indegrees.Keys && g[queue[0]] <= known
    requires forall v :: At(indegrees', v) == At(indegrees, v) - (if v in g[queue[0]] then 1 else 0)
    requires Distinct(queue')
    requires forall v :: v in queue' <==> v in queue[1..] || (v in g[queue[0]] && At(indegrees', v) == 0)
    ensures LoopInv(g, known, indegrees', queue', result + [queue[0]])
  {
    var u, rest := queue[0], Rest(g, result);
    assert u in queue;
    assert Rest(g, result + [u]) == rest - {u};
    forall v ensures At(indegrees', v) == |Dependents(g, rest - {u}, v)| {
      DependentsDrop(g, rest, u, v);
    }
    ListedLayer(g, known, queue, result);
    NextQueue(g, known, queue, result, indegrees', queue');
  }

  datatype SortOutcome =
    | AssertionFailed                       // the queue reached a name that is no key
    | Sorted(ok: bool, result: seq<Name>)

  /** The result is exactly the keys no cycle leads to, each before what it depends on. */
  ghost predicate CorrectlySorted(g: DependencyMap, result: seq<Name>) {
    && Distinct(result)
    && (forall i, j :: 0 <= i < |result| && 0 <= j < |result| && Edge(g, result[i], result[j]) ==> i < j)
    && (forall v :: v in result <==> v in g && !FromCycle(g, v))
  }

  lemma LayeredIsOrdered(g: DependencyMap, result: seq<Name>)
    requires Layered(g, result) && Distinct(result)
    ensures forall i, j :: 0 <= i < |result| && 0 <= j < |result| && Edge(g, result[i], result[j]) ==> i < j
  {
    forall i, j | 0 <= i < |result| && 0 <= j < |result| && Edge(g, result[i], result[j]) ensures i < j {
      assert result[i] in result[..j];
    }
  }

  /** When the queue runs dry, the names left over are those a cycle leads to. */
  lemma DryQueue(g: DependencyMap, known: set<Name>, indegrees: map<Name, int>, result: seq<Name>)
    requires LoopInv(g, known, indegrees, [], result)
    requires forall v :: v in known <==> exists u :: Edge(g, u, v)
    ensures CorrectlySorted(g, result)
    ensures !exists d :: Dangling(g, d)
  {
    var rest := Rest(g, result);
    LayeredIsOrdered(g, result);
    forall v | v in g ensures v in result <==> !FromCycle(g, v) {
      if v in result {
        LayeredNotFromCycle(g, result, v);
      } else {
        StuckIsFromCycle(g, rest, v);
      }
    }
    forall d | d !in g && exists a :: Edge(g, a, d) ensures FromCycle(g, d) {
      assert d !in Elements(result);
      var u :| u in Dependents(g, rest, d);
      FromCycleStep(g, u, d);
    }
  }

  lemma CycleIsOmitted(g: DependencyMap, result: seq<Name>, c: seq<Name>)
    requires CorrectlySorted(g, result) && Cycle(g, c)
    ensures c[0] in g.Keys - Elements(result)
  {
    assert Edge(g, c[0], c[1]);
    assert Path(g, [c[0]]) && OnCycle(g, [c[0]][0]);
    assert FromCycle(g, c[0]);
  }

  /** Sorting succeeds exactly when there is no cycle. */
  lemma CompleteIffAcyclic(g: DependencyMap, result: seq<Name>)
    requires CorrectlySorted(g, result)
    ensures |result| == |g| <==> Acyclic(g)
  {
    DistinctSize(result);
    assert Elements(result) <= g.Keys;
    SubsetSize(Elements(result), g.Keys);
    if |result| == |g| && !Acyclic(g) {
      var c :| Cycle(g, c);
      CycleIsOmitted(g, result, c);
      assert false;
    }
    if Acyclic(g) {
      forall v | v in g.Keys ensures v in Elements(result) {
        assert !FromCycle(g, v);
      }
      assert Elements(result) == g.Keys;
    }
  }

  lemma StartHolds(g: DependencyMap, indegrees: map<Name, int>, queue: seq<Name>)
    requires SumsUp(g, g.Keys, indegrees) && Distinct(queue)
    requires forall v :: v in indegrees <==> exists u :: Edge(g, u, v)
    requires forall v :: v in queue <==> v in g && v !in indegrees
    ensures LoopInv(g, indegrees.Keys, indegrees, queue, [])
  {
    assert Rest(g, []) == g.Keys;
    forall v ensures v in indegrees <==> Dependents(g, g.Keys, v) != {} {
      HasDependents(g, v);
    }
  }

  lemma FrontHasNoQueuedDependency(g: DependencyMap, known: set<Name>, indegrees: map<Name, int>,
                                   queue: seq<Name>, result: seq<Name>)
    requires LoopInv(g, known, indegrees, queue, result) && queue != [] && queue[0] in g
    requires forall v :: v in known <==> exists u :: Edge(g, u, v)
    ensures g[queue[0]] <= known && Distinct(queue[1..])
    ensures forall v :: v in g[queue[0]] ==> v !in queue
  {
    var name := queue[0];
    assert name in queue;
    forall v | v in g[name] ensures v in known && v !in queue {
      assert Edge(g, name, v);
      assert name in Dependents(g, Rest(g, result), v);
    }
  }

  lemma AllKeysListed(g: DependencyMap, result: seq<Name>)
    requires Distinct(result) && Elements(result) <= g.Keys && |result| == |g|
    ensures Elements(result) == g.Keys
  {
    DistinctSize(result);
    SubsetSize(Elements(result), g.Keys);
  }

  /** `TopologicalSort`, without assuming that the dependencies are keys. */
  method TopologicalSort(depends: DependencyMap) returns (out: SortOutcome)
    ensures out.AssertionFailed? <==> exists d :: Dangling(depends, d)
    ensures out.Sorted? ==> CorrectlySorted(depends, out.result)
    ensures out.Sorted? ==> (out.ok <==> Acyclic(depends))
    ensures out.Sorted? && out.ok ==> Closed(depends) && Elements(out.result) == depends.Keys
  {
    var indegrees := CountDependents(depends);
    ghost var known := indegrees.Keys;
    var zeroQueue := InitialQueue(depends, indegrees);
    var result: seq<Name> := [];
    StartHolds(depends, indegrees, zeroQueue);
    while zeroQueue != []
      invariant LoopInv(depends, known, indegrees, zeroQueue, result)
      decreases |depends| - |result|
    {
      var name := zeroQueue[0];
      if name !in depends {
        assert name in zeroQueue;
        NoDependentsLeft(depends, result, name);
        return AssertionFailed;
      }
      FrontHasNoQueuedDependency(depends, known, indegrees, zeroQueue, result);
      var indegrees', queue' := Release(depends[name], indegrees, zeroQueue[1..]);
      RoundKeeps(depends, known, indegrees, zeroQueue, result, indegrees', queue');
      RoomLeft(depends, result, name);
      indegrees, zeroQueue, result := indegrees', queue', result + [name];
    }
    DryQueue(depends, known, indegrees, result);
    CompleteIffAcyclic(depends, result);
    out := Sorted(|result| == |depends|, result);
    if out.ok {
      AcyclicWithoutDanglingIsClosed(depends);
      AllKeysListed(depends, result);
    }
  }

  /** A cycle that leads to a name that is no key leads to one of its dependents. */
  lemma FromCycleDependent(g: DependencyMap, d: Name) returns (u: Name)
    requires d !in g && FromCycle(g, d)
    ensures Edge(g, u, d) && FromCycle(g, u)
  {
    var p :| Path(g, p) && p[|p| - 1] == d && OnCycle(g, p[0]);
    var c :| Cycle(g, c) && c[0] == p[0];
    assert Edge(g, c[0], c[1]);
    u := p[|p| - 2];
    assert Edge(g, p[|p| - 2], p[|p| - 1]);
    var q := p[..|p| - 1];
    assert Path(g, q) && q[|q| - 1] == u && OnCycle(g, q[0]);
  }

  lemma NoDependentsLeft(g: DependencyMap, result: seq<Name>, d: Name)
    requires Layered(g, result) && Distinct(result) && d !in g
    requires (exists u :: Edge(g, u, d)) && Dependents(g, Rest(g, result), d) == {}
    ensures Dangling(g, d)
  {
    if FromCycle(g, d) {
      var u := FromCycleDependent(g, d);
      assert u !in Dependents(g, Rest(g, result), d);
      LayeredNotFromCycle(g, result, u);
      assert false;
    }
  }

  lemma RoomLeft(g: DependencyMap, result: seq<Name>, name: Name)
    requires Distinct(result) && Elements(result) <= g.Keys && name in g && name !in result
    ensures |result| < |g|
  {
    DistinctSize(result);
    SubsetSize(Elements(result) + {name}, g.Keys);
  }

  lemma AcyclicWithoutDanglingIsClosed(g: DependencyMap)
    requires Acyclic(g) && !exists d :: Dangling(g, d)
    ensures Closed(g)
  {
    forall a, b | Edge(g, a, b) ensures b in g {
      if b !in g {
        assert Dangling(g, b);
      }
    }
  }
}
