/** Registration and initialization of modules.

Logging, command line flags and the singleton are not modelled. `ended` stands for
a process that has stopped: a fatal log message, a failed check, or `exit(1)`. */
module ModuleManagement {
  import opened DependencySort
  import opened Sequences

  datatype Module = Module(hasDtor: bool, initialized: bool)

  /** The exit handlers were registered in the order in which the constructors ran;
      `at` tells which constructor call each of them belongs to. */
  ghost predicate InConstructionOrder(ran: seq<Name>, handlers: seq<Name>, at: seq<nat>) {
    && |at| == |handlers|
    && (forall i :: 0 <= i < |at| ==> at[i] < |ran| && ran[at[i]] == handlers[i])
    && (forall i, j :: 0 <= i < j < |at| ==> at[i] < at[j])
  }

  /** Every constructor that ran was preceded by those of its direct dependencies. */
  ghost predicate Ordered(g: DependencyMap, ran: seq<Name>) {
    forall k, b :: 0 <= k < |ran| && Edge(g, ran[k], b) ==> b in ran[..k]
  }

  // ---------------------------------------------------------------------------
  // Specification of the operations
  // ---------------------------------------------------------------------------

  /** The manager's fields, the constructors called so far, the destructors registered with
      `atexit`, and the constructor call each of these belongs to. */
  datatype Registry = Registry(
    modules: map<Name, Module>,
    depends: DependencyMap,
    ran: seq<Name>,
    handlers: seq<Name>,
    handlerAt: seq<nat>,
    ended: bool)

  const EMPTY: Registry := Registry(map[], map[], [], [], [], false)

  datatype Op =
    | RegisterCtor(name: Name)
    | RegisterDtor(name: Name)
    | Depend(name: Name, on: Name)
    | Initialize(ctorOk: Name -> bool) // which constructors would succeed

  function EdgesOf(g: DependencyMap, name: Name): set<Name> {
    if name in g then g[name] else {}
  }

  ghost function CtorRegistered(s: Registry, name: Name): Registry {
    if name in s.modules then s.(ended := true)
    else s.(modules := s.modules[name := Module(false, false)], depends := s.depends[name := EdgesOf(s.depends, name)])
  }

  ghost function DtorRegistered(s: Registry, name: Name): Registry {
    if name !in s.modules || s.modules[name].hasDtor then s.(ended := true)
    else s.(modules := s.modules[name := s.modules[name].(hasDtor := true)])
  }

  ghost function DependencyAdded(s: Registry, name: Name, on: Name): Registry {
    s.(depends := s.depends[name := EdgesOf(s.depends, name) + {on}])
  }

  ghost function Constructed(s: Registry, name: Name, succeeds: bool): Registry
    requires name in s.modules
  {
    var t := s.(ran := s.ran + [name]);
    if !succeeds then t.(ended := true) else
    var u := t.(modules := t.modules[name := t.modules[name].(initialized := true)]);
    if !s.modules[name].hasDtor then u
    else u.(handlers := u.handlers + [name], handlerAt := u.handlerAt + [|s.ran|])
  }

  /** One round of the loop of `InitializeAll`. */
  ghost function Visited(s: Registry, name: Name, succeeds: bool): Registry {
    if s.ended || name !in s.modules || s.modules[name].initialized then s else Constructed(s, name, succeeds)
  }

  /** The loop after `k` of the sorted names. */
  ghost function Initialized(s: Registry, names: seq<Name>, k: nat, ctorOk: Name -> bool): Registry
    requires k <= |names|
  {
    if k == 0 then s else Visited(Initialized(s, names, k - 1, ctorOk), names[k - 1], ctorOk(names[k - 1]))
  }

  /** All names, each after everything it depends on. */
  ghost predicate DependenciesFirst(g: DependencyMap, names: seq<Name>) {
    && Distinct(names) && Elements(names) == g.Keys
    && forall i, b :: 0 <= i < |names| && Edge(g, names[i], b) ==> b in names[..i]
  }

  ghost predicate Sortable(s: Registry) {
    Acyclic(s.depends) && Closed(s.depends) && s.depends.Keys <= s.modules.Keys
  }

  /** What one operation may do. The order in which `InitializeAll` takes the modules is any
      that has dependencies first. */
  ghost predicate Steps(s: Registry, op: Op, t: Registry) {
    !s.ended &&
    match op
    case RegisterCtor(name) => t == CtorRegistered(s, name)
    case RegisterDtor(name) => t == DtorRegistered(s, name)
    case Depend(name, on) => t == DependencyAdded(s, name, on)
    case Initialize(ctorOk) =>
      if !Sortable(s) then t == s.(ended := true)
      else exists names :: DependenciesFirst(s.depends, names) && t == Initialized(s, names, |names|, ctorOk)
  }

  /** Constructors run once, exit handlers are in construction order and belong to constructors
      that succeeded, and a module counts as initialized exactly if its constructor ran. */
  ghost predicate Consistent(s: Registry) {
    && Distinct(s.ran)
    && s.modules.Keys <= s.depends.Keys
    && InConstructionOrder(s.ran, s.handlers, s.handlerAt)
    && (forall m :: m in s.handlers ==> m in s.modules && s.modules[m].initialized)
    && (!s.ended ==> forall m :: m in s.ran <==> m in s.modules && s.modules[m].initialized)
  }

  lemma VisitedKeeps(s: Registry, name: Name, succeeds: bool)
    requires Consistent(s)
    ensures var t := Visited(s, name, succeeds);
            Consistent(t) && t.depends == s.depends && t.modules.Keys == s.modules.Keys && s.ran <= t.ran
  {
  }

  lemma {:induction false} InitializedKeeps(s: Registry, names: seq<Name>, k: nat, ctorOk: Name -> bool)
    requires Consistent(s) && k <= |names|
    ensures var t := Initialized(s, names, k, ctorOk);
            Consistent(t) && t.depends == s.depends && t.modules.Keys == s.modules.Keys && s.ran <= t.ran
  {
    if k > 0 {
      InitializedKeeps(s, names, k - 1, ctorOk);
      VisitedKeeps(Initialized(s, names, k - 1, ctorOk), names[k - 1], ctorOk(names[k - 1]));
    }
  }

  /** From `s` to `t` the modules of `seen` had their turn: they are initialized, or some
      constructor failed. */
  ghost predicate Seen(s: Registry, t: Registry, seen: set<Name>, ctorOk: Name -> bool) {
    && t.modules.Keys == s.modules.Keys
    && (forall m :: m in s.modules && m !in seen ==> t.modules[m].initialized == s.modules[m].initialized)
    && (!t.ended ==> forall m :: m in seen && m in s.modules ==>
          t.modules[m].initialized && (s.modules[m].initialized || ctorOk(m)))
    && (t.ended ==> exists m :: m in seen && m in s.modules && !s.modules[m].initialized && !ctorOk(m))
  }

  lemma SeenStep(s: Registry, t: Registry, seen: set<Name>, name: Name, ctorOk: Name -> bool)
    requires Seen(s, t, seen, ctorOk) && name !in seen
    ensures Seen(s, Visited(t, name, ctorOk(name)), seen + {name}, ctorOk)
  {
    if t.ended {
      var m :| m in seen && m in s.modules && !s.modules[m].initialized && !ctorOk(m);
      assert m in seen + {name};
    } else if name in t.modules && !t.modules[name].initialized && !ctorOk(name) {
      assert name in seen + {name};
    }
  }

  lemma PrefixElements(names: seq<Name>, k: nat)
    requires Distinct(names) && k < |names|
    ensures names[k] !in Elements(names[..k]) && Elements(names[..k + 1]) == Elements(names[..k]) + {names[k]}
  {
    assert names[..k + 1] == names[..k] + [names[k]];
  }

  lemma SeenNone(s: Registry, seen: set<Name>, ctorOk: Name -> bool)
    requires !s.ended && seen == {}
    ensures Seen(s, s, seen, ctorOk)
  {
  }

  lemma {:induction false} InitializedSees(s: Registry, names: seq<Name>, k: nat, ctorOk: Name -> bool)
    requires Distinct(names) && !s.ended && k <= |names|
    ensures Seen(s, Initialized(s, names, k, ctorOk), Elements(names[..k]), ctorOk)
  {
    if k == 0 {
      SeenNone(s, Elements(names[..0]), ctorOk);
    } else {
      var t, name := Initialized(s, names, k - 1, ctorOk), names[k - 1];
      InitializedSees(s, names, k - 1, ctorOk);
      PrefixElements(names, k - 1);
      SeenStep(s, t, Elements(names[..k - 1]), name, ctorOk);
    }
  }

  lemma VisitedOrdered(s: Registry, name: Name, succeeds: bool)
    requires Ordered(s.depends, s.ran) && (!s.ended ==> forall b :: Edge(s.depends, name, b) ==> b in s.ran)
    ensures Ordered(s.depends, Visited(s, name, succeeds).ran)
  {
    OrderedSnoc(s.depends, s.ran, name);
  }

  /** While the loop goes on, every registered module it has seen has been constructed. */
  lemma SeenRan(s: Registry, names: seq<Name>, k: nat, ctorOk: Name -> bool)
    requires Consistent(s) && !s.ended && Distinct(names) && k <= |names| && Elements(names) <= s.modules.Keys
    ensures var t := Initialized(s, names, k, ctorOk);
            !t.ended ==> forall m :: m in names[..k] ==> m in t.ran
  {
    InitializedKeeps(s, names, k, ctorOk);
    InitializedSees(s, names, k, ctorOk);
    forall m | m in names[..k] ensures m in Elements(names[..k]) && m in s.modules {
      assert m in Elements(names);
    }
  }

  lemma DependenciesRan(s: Registry, names: seq<Name>, k: nat, ctorOk: Name -> bool)
    requires Consistent(s) && !s.ended && k < |names| && Elements(names) <= s.modules.Keys
    requires DependenciesFirst(s.depends, names)
    ensures var t := Initialized(s, names, k, ctorOk);
            !t.ended ==> forall b :: Edge(s.depends, names[k], b) ==> b in t.ran
  {
    SeenRan(s, names, k, ctorOk);
  }

  /** Taking dependencies first keeps the order of construction. */
  lemma {:induction false} InitializedOrdered(s: Registry, names: seq<Name>, k: nat, ctorOk: Name -> bool)
    requires Consistent(s) && !s.ended && k <= |names| && Elements(names) <= s.modules.Keys
    requires DependenciesFirst(s.depends, names) && Ordered(s.depends, s.ran)
    ensures Ordered(s.depends, Initialized(s, names, k, ctorOk).ran)
  {
    if k > 0 {
      InitializedOrdered(s, names, k - 1, ctorOk);
      InitializedKeeps(s, names, k - 1, ctorOk);
      DependenciesRan(s, names, k - 1, ctorOk);
      VisitedOrdered(Initialized(s, names, k - 1, ctorOk), names[k - 1], ctorOk(names[k - 1]));
    }
  }

  // ---------------------------------------------------------------------------
  // The manager
  // ---------------------------------------------------------------------------

  class ModuleManager {
    var modules: map<Name, Module>
    var depends: DependencyMap
    var ran: seq<Name>          // constructors called so far, in order
    var exitHandlers: seq<Name> // destructors registered with atexit, in order
    var ended: bool
    ghost var handlerAt: seq<nat> // the constructor call each exit handler belongs to

    ghost function State(): Registry
      reads this
    {
      Registry(modules, depends, ran, exitHandlers, handlerAt, ended)
    }

    ghost predicate Valid()
      reads this
    {
      Consistent(State())
    }

    constructor ()
      ensures Valid() && State() == EMPTY
      ensures Ordered(depends, ran)
    {
      modules, depends, ran, exitHandlers, ended, handlerAt := map[], map[], [], [], false, [];
    }

    method RegisterModuleCtor(name: Name)
      requires Valid() && !ended
      modifies this
      ensures Valid() && Steps(old(State()), RegisterCtor(name), State())
      ensures ended <==> name in old(modules)
      ensures old(Ordered(depends, ran)) ==> Ordered(depends, ran)
    {
      if name in modules {
        ended := true;
        return;
      }
      modules := modules[name := Module(false, false)];
      if name !in depends {
        depends := depends[name := {}];
      }
      assert depends == old(depends)[name := EdgesOf(old(depends), name)];
      assert forall a, b :: Edge(depends, a, b) ==> Edge(old(depends), a, b);
    }

    method RegisterModuleDtor(name: Name)
      requires Valid() && !ended
      modifies this
      ensures Valid() && Steps(old(State()), RegisterDtor(name), State())
      ensures ended <==> name !in old(modules) || old(modules)[name].hasDtor
    {
      if name !in modules || modules[name].hasDtor {
        ended := true;
        return;
      }
      modules := modules[name := modules[name].(hasDtor := true)];
    }

    /** A dependency registered in time keeps the order; one registered for a module
        whose constructor has already run keeps it exactly if the new dependency ran before. */
    method RegisterDependency(thisModule: Name, depName: Name)
      requires Valid() && !ended
      modifies this`depends
      ensures Valid() && Steps(old(State()), Depend(thisModule, depName), State())
      ensures old(Ordered(depends, ran)) ==>
        (Ordered(depends, ran) <==> forall k :: 0 <= k < |ran| && ran[k] == thisModule ==> depName in ran[..k])
    {
      ghost var before := depends;
      depends := depends[thisModule := EdgesOf(depends, thisModule) + {depName}];
      assert forall a, b :: Edge(depends, a, b) <==> Edge(before, a, b) || (a == thisModule && b == depName);
      if old(Ordered(depends, ran)) && Ordered(depends, ran) {
        forall k | 0 <= k < |ran| && ran[k] == thisModule ensures depName in ran[..k] {
          assert Edge(depends, ran[k], depName);
        }
      }
    }

    /** `SortModules`: dependencies first. `ok` is false where the original stops the process. */
    method SortModules() returns (ok: bool, names: seq<Name>)
      requires Valid()
      ensures ok <==> Sortable(State())
      ensures ok ==> DependenciesFirst(depends, names)
    {
      var out := TopologicalSort(depends);
      if out.AssertionFailed? {
        DanglingIsNotClosed(depends);
        return false, [];
      }
      if !out.ok {
        return false, [];
      }
      names := Reversed(out.result);
      ReversedElements(out.result);
      assert forall a, b :: Edge(depends, a, b) ==> b in Elements(out.result);
      ReversedDependenciesFirst(depends, out.result);
      ok := AllRegistered(names);
    }

    /** The look-ups at the end of `SortModules`. */
    method AllRegistered(names: seq<Name>) returns (ok: bool)
      ensures ok <==> Elements(names) <= modules.Keys
    {
      for i := 0 to |names|
        invariant forall k :: 0 <= k < i ==> names[k] in modules
      {
        if names[i] !in modules {
          assert names[i] in Elements(names);
          return false;
        }
      }
      ok := true;
    }

    /** `InitializeAll`. `ctorOk` tells which constructors would succeed. */
    method InitializeAll(ctorOk: Name -> bool)
      requires Valid() && !ended
      modifies this
      ensures Valid() && Steps(old(State()), Initialize(ctorOk), State())
      ensures depends == old(depends) && modules.Keys == old(modules.Keys) && old(ran) <= ran
      ensures ended <==> !(old(Sortable(State()))
                           && forall m :: m in modules && !old(modules)[m].initialized ==> ctorOk(m))
      ensures !ended ==> forall m :: m in modules ==> modules[m].initialized
      ensures old(Ordered(depends, ran)) ==> Ordered(depends, ran)
    {
      var ok, names := SortModules();
      if !ok {
        ended := true;
        return;
      }
      ghost var s := State();
      InitializeSorted(names, ctorOk);
      InitializedKeeps(s, names, |names|, ctorOk);
      InitializedAll(s, names, ctorOk);
      if Ordered(s.depends, s.ran) {
        InitializedOrdered(s, names, |names|, ctorOk);
      }
    }

    /** The loop of `InitializeAll` over the sorted modules. */
    method InitializeSorted(names: seq<Name>, ctorOk: Name -> bool)
      requires Valid() && !ended && Elements(names) <= modules.Keys
      modifies this
      ensures Valid() && State() == Initialized(old(State()), names, |names|, ctorOk)
    {
      ghost var s := State();
      var i := 0;
      while i < |names|
        invariant 0 <= i <= |names| && Valid() && !ended && State() == Initialized(s, names, i, ctorOk)
      {
        var name := names[i];
        InitializedKeeps(s, names, i, ctorOk);
        assert name in Elements(names);
        if !modules[name].initialized {
          RunCtor(name, ctorOk(name));
          if ended {
            EndedStays(s, names, i + 1, |names|, ctorOk);
            return;
          }
        }
        i := i + 1;
      }
    }

    /** One constructor call and, if it succeeds, the registration of its destructor. */
    method RunCtor(name: Name, succeeds: bool)
      requires Valid() && !ended && name in modules && !modules[name].initialized
      modifies this
      ensures Valid() && State() == Constructed(old(State()), name, succeeds)
    {
      var entry := modules[name];
      ran := ran + [name];
      if !succeeds {
        ended := true;
        return;
      }
      if entry.hasDtor {
        exitHandlers := exitHandlers + [name];
        handlerAt := handlerAt + [|ran| - 1];
      }
      modules := modules[name := entry.(initialized := true)];
    }
  }

  lemma InitializedAll(s: Registry, names: seq<Name>, ctorOk: Name -> bool)
    requires !s.ended && s.modules.Keys <= s.depends.Keys && DependenciesFirst(s.depends, names)
    ensures var t := Initialized(s, names, |names|, ctorOk);
            && t.modules.Keys == s.modules.Keys
            && (t.ended <==> exists m :: m in s.modules && !s.modules[m].initialized && !ctorOk(m))
            && (!t.ended ==> forall m :: m in t.modules ==> t.modules[m].initialized)
  {
    InitializedSees(s, names, |names|, ctorOk);
    assert names[..|names|] == names;
  }

  lemma {:induction false} EndedStays(s: Registry, names: seq<Name>, i: nat, k: nat, ctorOk: Name -> bool)
    requires i <= k <= |names| && Initialized(s, names, i, ctorOk).ended
    ensures Initialized(s, names, k, ctorOk) == Initialized(s, names, i, ctorOk)
  {
    if i < k {
      EndedStays(s, names, i, k - 1, ctorOk);
    }
  }

  lemma OrderedSnoc(g: DependencyMap, ran: seq<Name>, name: Name)
    ensures Ordered(g, ran) && (forall b :: Edge(g, name, b) ==> b in ran) ==> Ordered(g, ran + [name])
  {
    var t := ran + [name];
    assert forall k :: 0 <= k < |ran| ==> t[..k] == ran[..k];
    assert t[..|ran|] == ran;
  }

  function Reversed(s: seq<Name>): (r: seq<Name>)
    ensures |r| == |s|
    ensures forall i :: 0 <= i < |s| ==> r[i] == s[|s| - 1 - i]
  {
    seq(|s|, i requires 0 <= i < |s| => s[|s| - 1 - i])
  }

  lemma DanglingIsNotClosed(g: DependencyMap)
    requires exists d :: Dangling(g, d)
    ensures !Closed(g)
  {
    var d :| Dangling(g, d);
    var a :| Edge(g, a, d);
  }

  lemma ReversedElements(s: seq<Name>)
    requires Distinct(s)
    ensures Distinct(Reversed(s)) && Elements(Reversed(s)) == Elements(s)
  {
    var r, n := Reversed(s), |s|;
    forall x ensures x in r <==> x in s {
      if x in s {
        var i :| 0 <= i < n && s[i] == x;
        assert r[n - 1 - i] == x;
      }
    }
  }

  lemma ReversedDependency(g: DependencyMap, result: seq<Name>, i: nat, j: nat)
    requires i < |result| && j < |result| && (Edge(g, Reversed(result)[i], result[j]) ==> |result| - 1 - i < j)
    ensures Edge(g, Reversed(result)[i], result[j]) ==> result[j] in Reversed(result)[..i]
  {
    var n := |result|;
    assert n - 1 - j < i ==> Reversed(result)[..i][n - 1 - j] == result[j];
  }

  lemma ReversedDependenciesFirst(g: DependencyMap, result: seq<Name>)
    requires forall i, j :: 0 <= i < |result| && 0 <= j < |result| && Edge(g, result[i], result[j]) ==> i < j
    requires forall a, b :: Edge(g, a, b) ==> b in result
    ensures forall i, b :: 0 <= i < |result| && Edge(g, Reversed(result)[i], b) ==> b in Reversed(result)[..i]
  {
    forall i, b | 0 <= i < |result| && Edge(g, Reversed(result)[i], b) ensures b in Reversed(result)[..i] {
      var j :| 0 <= j < |result| && result[j] == b;
      ReversedDependency(g, result, i, j);
    }
  }

  // ---------------------------------------------------------------------------
  // Transitive dependencies and destruction order
  // ---------------------------------------------------------------------------

  /** A constructor runs only after those of everything it transitively depends on. */
  lemma {:induction false} TransitiveDependenciesFirst(g: DependencyMap, ran: seq<Name>, p: seq<Name>, k: nat)
    requires Ordered(g, ran) && Path(g, p) && |p| >= 2 && k < |ran| && ran[k] == p[0]
    ensures p[|p| - 1] in ran[..k]
    decreases |p|
  {
    assert Edge(g, p[0], p[1]);
    assert p[1] in ran[..k];
    if |p| > 2 {
      var m :| 0 <= m < k && ran[m] == p[1];
      TransitiveDependenciesFirst(g, ran, p[1..], m);
    }
  }

  /** Exit handlers run last-in-first-out, so a dependent is destroyed before
      everything it transitively depends on. */
  lemma DependentsDestroyedFirst(g: DependencyMap, ran: seq<Name>, handlers: seq<Name>, at: seq<nat>,
                                 p: seq<Name>, i: nat, j: nat)
    requires Ordered(g, ran) && Distinct(ran) && InConstructionOrder(ran, handlers, at)
    requires Path(g, p) && |p| >= 2 && i < |handlers| && j < |handlers|
    requires Reversed(handlers)[i] == p[0] && Reversed(handlers)[j] == p[|p| - 1]
    ensures i < j
  {
    var n := |handlers|;
    var k := at[n - 1 - i];
    TransitiveDependenciesFirst(g, ran, p, k);
    var m :| 0 <= m < k && ran[m] == p[|p| - 1];
    assert m == at[n - 1 - j];
  }

  // ---------------------------------------------------------------------------
  // Every sequence of operations
  // ---------------------------------------------------------------------------

  ghost predicate IsRun(ops: seq<Op>, states: seq<Registry>) {
    && |states| == |ops| + 1 && states[0] == EMPTY
    && forall i {:trigger ops[i]} :: 0 <= i < |ops| ==> Steps(states[i], ops[i], states[i + 1])
  }

  /** A dependency is registered before the constructor of its module runs, or the constructor of
      what it depends on ran even earlier. */
  ghost predicate InTime(s: Registry, op: Op) {
    op.Depend? ==> forall k :: 0 <= k < |s.ran| && s.ran[k] == op.name ==> op.on in s.ran[..k]
  }

  /** All of the first `n` operations were. */
  ghost predicate AllInTime(ops: seq<Op>, states: seq<Registry>, n: nat)
    requires n <= |ops| <= |states|
  {
    forall i :: 0 <= i < n ==> InTime(states[i], ops[i])
  }

  lemma StepKeeps(s: Registry, op: Op, t: Registry)
    requires Consistent(s) && Steps(s, op, t)
    ensures Consistent(t) && s.ran <= t.ran
  {
    if op.Initialize? && Sortable(s) {
      var names :| DependenciesFirst(s.depends, names) && t == Initialized(s, names, |names|, op.ctorOk);
      InitializedKeeps(s, names, |names|, op.ctorOk);
    }
  }

  lemma RegistrationOrdered(s: Registry, op: Op, t: Registry)
    requires Ordered(s.depends, s.ran) && Steps(s, op, t) && InTime(s, op) && !op.Initialize?
    ensures Ordered(t.depends, t.ran)
  {
    forall k, b | 0 <= k < |t.ran| && Edge(t.depends, t.ran[k], b) ensures b in t.ran[..k] {
      assert Edge(s.depends, s.ran[k], b) || (op.Depend? && s.ran[k] == op.name && b == op.on);
    }
  }

  lemma LateBreaks(s: Registry, op: Op, t: Registry)
    requires Steps(s, op, t) && !InTime(s, op)
    ensures !Ordered(t.depends, t.ran)
  {
    var k :| 0 <= k < |s.ran| && s.ran[k] == op.name && op.on !in s.ran[..k];
    assert Edge(t.depends, t.ran[k], op.on);
  }

  lemma StepKeepsEdges(s: Registry, op: Op, t: Registry, a: Name, b: Name)
    requires Consistent(s) && Steps(s, op, t) && Edge(s.depends, a, b)
    ensures Edge(t.depends, a, b)
  {
    if op.Initialize? && Sortable(s) {
      var names :| DependenciesFirst(s.depends, names) && t == Initialized(s, names, |names|, op.ctorOk);
      InitializedKeeps(s, names, |names|, op.ctorOk);
    }
  }

  /** An order once broken stays broken. */
  lemma BrokenStays(s: Registry, op: Op, t: Registry)
    requires Consistent(s) && Steps(s, op, t) && !Ordered(s.depends, s.ran)
    ensures !Ordered(t.depends, t.ran)
  {
    var k, b :| 0 <= k < |s.ran| && Edge(s.depends, s.ran[k], b) && b !in s.ran[..k];
    StepKeeps(s, op, t);
    StepKeepsEdges(s, op, t, s.ran[k], b);
    assert t.ran[k] == s.ran[k] && t.ran[..k] == s.ran[..k];
  }

  lemma StepOrdered(s: Registry, op: Op, t: Registry)
    requires Consistent(s) && Ordered(s.depends, s.ran) && Steps(s, op, t) && InTime(s, op)
    ensures Ordered(t.depends, t.ran)
  {
    if !op.Initialize? {
      RegistrationOrdered(s, op, t);
    } else if Sortable(s) {
      var names :| DependenciesFirst(s.depends, names) && t == Initialized(s, names, |names|, op.ctorOk);
      InitializedKeeps(s, names, |names|, op.ctorOk);
      InitializedOrdered(s, names, |names|, op.ctorOk);
    }
  }

  /** One operation leaves the order right exactly if it was right and the operation was in time. */
  lemma OrderStep(s: Registry, op: Op, t: Registry)
    requires Consistent(s) && Steps(s, op, t)
    ensures Consistent(t)
    ensures Ordered(t.depends, t.ran) <==> Ordered(s.depends, s.ran) && InTime(s, op)
  {
    StepKeeps(s, op, t);
    if !Ordered(s.depends, s.ran) {
      BrokenStays(s, op, t);
    } else if InTime(s, op) {
      StepOrdered(s, op, t);
    } else {
      LateBreaks(s, op, t);
    }
  }

  lemma OneMoreInTime(ops: seq<Op>, states: seq<Registry>, n: nat)
    requires n < |ops| <= |states|
    ensures AllInTime(ops, states, n + 1) <==> AllInTime(ops, states, n) && InTime(states[n], ops[n])
  {
  }

  lemma RunStep(ops: seq<Op>, states: seq<Registry>, i: nat) returns (s: Registry, op: Op, t: Registry)
    requires IsRun(ops, states) && i < |ops|
    ensures Steps(s, op, t) && s == states[i] && op == ops[i] && t == states[i + 1]
  {
    s, op, t := states[i], ops[i], states[i + 1];
  }

  lemma {:induction false} RunConsistent(ops: seq<Op>, states: seq<Registry>, i: nat)
    requires IsRun(ops, states) && i < |states|
    ensures Consistent(states[i])
  {
    if i > 0 {
      RunConsistent(ops, states, i - 1);
      var s, op, t := RunStep(ops, states, i - 1);
      StepKeeps(s, op, t);
    }
  }

  lemma RunOrderStep(ops: seq<Op>, states: seq<Registry>, i: nat)
    requires IsRun(ops, states) && i < |ops|
    ensures Ordered(states[i + 1].depends, states[i + 1].ran) <==>
            Ordered(states[i].depends, states[i].ran) && InTime(states[i], ops[i])
  {
    RunConsistent(ops, states, i);
    var s, op, t := RunStep(ops, states, i);
    OrderStep(s, op, t);
  }

  lemma {:induction false} RunOrdered(ops: seq<Op>, states: seq<Registry>, i: nat)
    requires IsRun(ops, states) && i < |states|
    ensures Ordered(states[i].depends, states[i].ran) <==> AllInTime(ops, states, i)
  {
    if i > 0 {
      RunOrdered(ops, states, i - 1);
      RunOrderStep(ops, states, i - 1);
      OneMoreInTime(ops, states, i - 1);
    }
  }

  /** Over every sequence of registrations and initializations no constructor runs twice, and
      every constructor ran after those it depends on exactly if all dependencies so far were
      registered in time. */
  lemma EveryRun(ops: seq<Op>, states: seq<Registry>, i: nat)
    requires IsRun(ops, states) && i < |states|
    ensures Consistent(states[i])
    ensures Ordered(states[i].depends, states[i].ran) <==> AllInTime(ops, states, i)
  {
    RunConsistent(ops, states, i);
    RunOrdered(ops, states, i);
  }

  /** In every such run a constructor has been preceded by all its transitive dependencies, and
      the last-in-first-out exit handlers destroy a module before them. */
  lemma RunRespectsDependencies(ops: seq<Op>, states: seq<Registry>, i: nat, p: seq<Name>)
    requires IsRun(ops, states) && i < |states| && AllInTime(ops, states, i)
    requires Path(states[i].depends, p) && |p| >= 2
    ensures forall k :: 0 <= k < |states[i].ran| && states[i].ran[k] == p[0] ==> p[|p| - 1] in states[i].ran[..k]
    ensures var h := Reversed(states[i].handlers);
            forall a, b :: 0 <= a < |h| && 0 <= b < |h| && h[a] == p[0] && h[b] == p[|p| - 1] ==> a < b
  {
    EveryRun(ops, states, i);
    var s := states[i];
    forall k | 0 <= k < |s.ran| && s.ran[k] == p[0] ensures p[|p| - 1] in s.ran[..k] {
      TransitiveDependenciesFirst(s.depends, s.ran, p, k);
    }
    var h := Reversed(s.handlers);
    forall a, b | 0 <= a < |h| && 0 <= b < |h| && h[a] == p[0] && h[b] == p[|p| - 1] ensures a < b {
      DependentsDestroyedFirst(s.depends, s.ran, s.handlers, s.handlerAt, p, a, b);
    }
  }

  // ---------------------------------------------------------------------------
  // Which destructors are registered
  // ---------------------------------------------------------------------------

  ghost predicate HasDtor(s: Registry, m: Name) {
    m in s.modules && s.modules[m].hasDtor
  }

  /** From `s` to `t` exactly the modules constructed in between that have a destructor got an
      exit handler. */
  ghost predicate HandlersFollow(s: Registry, t: Registry) {
    && (forall m :: HasDtor(t, m) <==> HasDtor(s, m))
    && (!t.ended ==> forall m :: m in t.handlers <==> m in s.handlers || (m in t.ran && m !in s.ran && HasDtor(s, m)))
  }

  lemma VisitedHandlers(s: Registry, name: Name, succeeds: bool)
    requires Consistent(s)
    ensures HandlersFollow(s, Visited(s, name, succeeds))
  {
  }

  lemma HandlersCompose(s: Registry, t: Registry, u: Registry)
    requires HandlersFollow(s, t) && HandlersFollow(t, u) && s.ran <= t.ran <= u.ran && (t.ended ==> u.ended)
    ensures HandlersFollow(s, u)
  {
  }

  lemma {:induction false} InitializedHandlers(s: Registry, names: seq<Name>, k: nat, ctorOk: Name -> bool)
    requires Consistent(s) && k <= |names|
    ensures HandlersFollow(s, Initialized(s, names, k, ctorOk))
  {
    if k > 0 {
      var t := Initialized(s, names, k - 1, ctorOk);
      InitializedHandlers(s, names, k - 1, ctorOk);
      InitializedKeeps(s, names, k - 1, ctorOk);
      VisitedHandlers(t, names[k - 1], ctorOk(names[k - 1]));
      VisitedKeeps(t, names[k - 1], ctorOk(names[k - 1]));
      HandlersCompose(s, t, Visited(t, names[k - 1], ctorOk(names[k - 1])));
    }
  }

  /** What one operation does to destructors and exit handlers. */
  lemma StepHandlers(s: Registry, op: Op, t: Registry)
    requires Consistent(s) && Steps(s, op, t) && !t.ended
    ensures forall m :: HasDtor(t, m) <==> HasDtor(s, m) || op == RegisterDtor(m)
    ensures forall m :: m in t.handlers <==> m in s.handlers || (m in t.ran && m !in s.ran && HasDtor(s, m))
  {
    if op.Initialize? {
      var names :| DependenciesFirst(s.depends, names) && t == Initialized(s, names, |names|, op.ctorOk);
      InitializedHandlers(s, names, |names|, op.ctorOk);
    }
  }

  ghost predicate DtorRegisteredBy(ops: seq<Op>, i: nat, m: Name)
    requires i <= |ops|
  {
    exists j :: 0 <= j < i && ops[j] == RegisterDtor(m)
  }

  /** Operation `c` constructed `m`, and its destructor had been registered before. */
  ghost predicate ConstructedWithDtor(ops: seq<Op>, states: seq<Registry>, c: nat, m: Name)
    requires c < |ops| < |states|
  {
    m !in states[c].ran && m in states[c + 1].ran && DtorRegisteredBy(ops, c, m)
  }

  lemma NotEndedBefore(ops: seq<Op>, states: seq<Registry>, i: nat)
    requires IsRun(ops, states) && i < |ops|
    ensures !states[i].ended
  {
    assert Steps(states[i], ops[i], states[i + 1]);
  }

  lemma OneMoreDtor(ops: seq<Op>, i: nat, m: Name)
    requires i < |ops|
    ensures DtorRegisteredBy(ops, i + 1, m) <==> DtorRegisteredBy(ops, i, m) || ops[i] == RegisterDtor(m)
  {
  }

  lemma {:induction false} RunDtors(ops: seq<Op>, states: seq<Registry>, i: nat, m: Name)
    requires IsRun(ops, states) && i < |states| && !states[i].ended
    ensures HasDtor(states[i], m) <==> DtorRegisteredBy(ops, i, m)
  {
    if i > 0 {
      NotEndedBefore(ops, states, i - 1);
      RunDtors(ops, states, i - 1, m);
      RunConsistent(ops, states, i - 1);
      var s, op, t := RunStep(ops, states, i - 1);
      StepHandlers(s, op, t);
      OneMoreDtor(ops, i - 1, m);
    }
  }

  ghost predicate HandlerDue(ops: seq<Op>, states: seq<Registry>, i: nat, m: Name)
    requires i <= |ops| < |states|
  {
    exists c: nat :: c < i && ConstructedWithDtor(ops, states, c, m)
  }

  lemma OneMoreDue(ops: seq<Op>, states: seq<Registry>, i: nat, m: Name)
    requires i < |ops| < |states|
    ensures HandlerDue(ops, states, i + 1, m) <==> HandlerDue(ops, states, i, m) || ConstructedWithDtor(ops, states, i, m)
  {
  }

  lemma RunHandlerStep(ops: seq<Op>, states: seq<Registry>, i: nat, m: Name)
    requires IsRun(ops, states) && i < |ops| && !states[i + 1].ended
    ensures m in states[i + 1].handlers <==> m in states[i].handlers || ConstructedWithDtor(ops, states, i, m)
  {
    NotEndedBefore(ops, states, i);
    RunDtors(ops, states, i, m);
    RunConsistent(ops, states, i);
    var s, op, t := RunStep(ops, states, i);
    StepHandlers(s, op, t);
  }

  lemma {:induction false} RunHandlers(ops: seq<Op>, states: seq<Registry>, i: nat, m: Name)
    requires IsRun(ops, states) && i < |states| && !states[i].ended
    ensures m in states[i].handlers <==> HandlerDue(ops, states, i, m)
  {
    if i > 0 {
      NotEndedBefore(ops, states, i - 1);
      RunHandlers(ops, states, i - 1, m);
      RunHandlerStep(ops, states, i - 1, m);
      OneMoreDue(ops, states, i - 1, m);
    }
  }

  lemma HandlersOnce(s: Registry)
    requires Consistent(s)
    ensures Distinct(s.handlers)
  {
    forall i, j | 0 <= i < j < |s.handlers| ensures s.handlers[i] != s.handlers[j] {
      assert s.ran[s.handlerAt[i]] != s.ran[s.handlerAt[j]];
    }
  }

  /** In every state of every run that has not ended, the exit handlers are, once each, exactly
      the modules whose constructor ran after their destructor had been registered. */
  lemma HandlersExactlyWhen(ops: seq<Op>, states: seq<Registry>, i: nat)
    requires IsRun(ops, states) && i < |states| && !states[i].ended
    ensures Distinct(states[i].handlers)
    ensures forall m :: m in states[i].handlers <==> HandlerDue(ops, states, i, m)
  {
    RunConsistent(ops, states, i);
    HandlersOnce(states[i]);
    forall m ensures m in states[i].handlers <==> HandlerDue(ops, states, i, m) {
      RunHandlers(ops, states, i, m);
    }
  }

  lemma NoEdges(m: Name)
    ensures Acyclic(map[m := {}]) && Closed(map[m := {}]) && DependenciesFirst(map[m := {}], [m])
  {
    var g: DependencyMap := map[m := {}];
    assert forall a, b :: !Edge(g, a, b);
    forall c ensures !Cycle(g, c) {
      assert |c| >= 2 ==> !Edge(g, c[0], c[1]);
    }
  }

  ghost function LateOps(m: Name, d: Name): seq<Op> {
    [RegisterCtor(m), Initialize(_ => true), Depend(m, d)]
  }

  ghost function LateStates(m: Name, d: Name): seq<Registry> {
    var s := CtorRegistered(EMPTY, m);
    var t := Constructed(s, m, true);
    [EMPTY, s, t, DependencyAdded(t, m, d)]
  }

  lemma LateInitialized(m: Name, d: Name)
    ensures Steps(LateStates(m, d)[1], LateOps(m, d)[1], LateStates(m, d)[2])
  {
    var s := CtorRegistered(EMPTY, m);
    NoEdges(m);
    assert s.depends == map[m := {}] && s.modules == map[m := Module(false, false)];
    assert Initialized(s, [m], 0, _ => true) == s;
    assert Initialized(s, [m], 1, _ => true) == Constructed(s, m, true);
  }

  lemma LateIsRun(m: Name, d: Name)
    ensures IsRun(LateOps(m, d), LateStates(m, d))
  {
    LateInitialized(m, d);
    LateRegistered(m, d);
  }

  lemma LateRegistered(m: Name, d: Name)
    ensures Steps(LateStates(m, d)[0], LateOps(m, d)[0], LateStates(m, d)[1])
    ensures Steps(LateStates(m, d)[2], LateOps(m, d)[2], LateStates(m, d)[3])
  {
  }

  /** A dependency registered too late breaks the order: `m` is initialized and only then made to
      depend on `d`. */
  lemma LateDependencyBreaksOrder(m: Name, d: Name)
    ensures IsRun(LateOps(m, d), LateStates(m, d)) && !AllInTime(LateOps(m, d), LateStates(m, d), 3)
    ensures var last := LateStates(m, d)[3]; last.ran == [m] && !Ordered(last.depends, last.ran)
  {
    LateIsRun(m, d);
    var t := LateStates(m, d)[2];
    assert t.ran == [m] && t.ran[0] == m && d !in t.ran[..0];
    assert !InTime(t, LateOps(m, d)[2]);
    LateBreaks(t, LateOps(m, d)[2], LateStates(m, d)[3]);
  }
}
