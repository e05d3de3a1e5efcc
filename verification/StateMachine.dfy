/** A state machine over tasks: its route check and its runs.

A task's result is an arbitrary integer that arrives later, in a call of
`CurrentStateDone`. A creator may also give no task: then the state reports `SKIPED` at
once. How many creators in a row give none is a parameter; a row without end is a recursion
without end in the original. */
module TaskStateMachine {
  import opened Wrappers

  /** `kStateEnd`. */
  const END: int := 0
  const SUCCESS: int := 0
  const SKIPED: int := 2

  datatype Config = Config(states: set<int>, transitions: map<(int, int), int>, defaults: map<int, int>)

  /** Transitions start at a declared state and lead to a declared state or to the end. */
  ghost predicate WellFormed(c: Config) {
    && END !in c.states
    && (forall k :: k in c.transitions ==> k.0 in c.states && (c.transitions[k] == END || c.transitions[k] in c.states))
    && (forall s :: s in c.defaults ==> s in c.states && (c.defaults[s] == END || c.defaults[s] in c.states))
  }

  function NextState(c: Config, state: int, result: int): Option<int> {
    if (state, result) in c.transitions then Some(c.transitions[(state, result)])
    else if state in c.defaults then Some(c.defaults[state])
    else None
  }

  // ---------------------------------------------------------------------------
  // The success route
  // ---------------------------------------------------------------------------

  /** Where the success route stands after `n` steps; it stops at the end or where no
      transition leads on. */
  ghost function Route(c: Config, start: int, n: nat): Option<int> {
    if n == 0 then Some(start) else
    var before := Route(c, start, n - 1);
    if before.None? || before.value == END then None else NextState(c, before.value, SUCCESS)
  }

  ghost predicate ReachesEnd(c: Config, start: int) {
    exists n: nat :: Route(c, start, n) == Some(END)
  }

  lemma {:induction false} RouteStops(c: Config, start: int, m: nat, n: nat)
    requires m < n && (Route(c, start, m) == Some(END) || Route(c, start, m) == None)
    ensures Route(c, start, n) == None
  {
    if m + 1 < n {
      RouteStops(c, start, m, n - 1);
    }
  }

  lemma {:induction false} RouteRepeats(c: Config, start: int, i: nat, j: nat, k: nat)
    requires Route(c, start, i) == Route(c, start, j)
    ensures Route(c, start, i + k) == Route(c, start, j + k)
  {
    if k > 0 {
      RouteRepeats(c, start, i, j, k - 1);
    }
  }

  /** A route that comes back to a state never ends. */
  lemma LoopNeverEnds(c: Config, start: int, i: nat, j: nat)
    requires i < j && Route(c, start, i).Some? && Route(c, start, i) == Route(c, start, j)
    ensures !ReachesEnd(c, start)
  {
    forall n: nat ensures Route(c, start, n) != Some(END) {
      if Route(c, start, n) == Some(END) {
        if n < j {
          RouteStops(c, start, n, j);
        } else {
          RouteRepeats(c, start, i, j, n - i);
          RouteStops(c, start, n, j + (n - i));
        }
        assert false;
      }
    }
  }

  /** On a route that ends no state occurs twice. */
  lemma EndingRouteIsSimple(c: Config, start: int, n: nat, i: nat, j: nat)
    requires Route(c, start, n) == Some(END) && i < j <= n
    ensures Route(c, start, i).Some? && Route(c, start, j).Some? && Route(c, start, i) != Route(c, start, j)
  {
    if Route(c, start, i).None? {
      RouteStops(c, start, i, n);
    }
    if Route(c, start, j).None? && j < n {
      RouteStops(c, start, j, n);
    }
    if Route(c, start, i) == Route(c, start, j) {
      LoopNeverEnds(c, start, i, j);
    }
  }

  lemma {:induction false} RouteInStates(c: Config, start: int, n: nat)
    requires WellFormed(c) && n > 0 && Route(c, start, n).Some?
    ensures Route(c, start, n).value == END || Route(c, start, n).value in c.states
  {
  }

  // ---------------------------------------------------------------------------
  // Runs
  // ---------------------------------------------------------------------------

  /** The part of the object that changes after `Start`. */
  datatype Progress = Progress(
    current: int,
    history: seq<(int, int)>, // ran_states_and_results_
    pending: bool,            // a task is under way
    finals: nat)              // how often final_done_ ran

  /** `RunCurrentState`. */
  ghost function Entered(c: Config, p: Progress): Progress {
    if p.current == END then p.(history := p.history + [(END, 0)], pending := false, finals := p.finals + 1)
    else if p.current !in c.states then p.(pending := false, finals := p.finals + 1)
    else p.(pending := true)
  }

  /** `CurrentStateDone` with the result its task reports. */
  ghost function Finished(c: Config, p: Progress, result: int): Progress {
    var q := p.(history := p.history + [(p.current, result)], pending := false);
    match NextState(c, p.current, result)
    case Some(s) => Entered(c, q.(current := s))
    case None => q.(finals := q.finals + 1)
  }

  /** States whose creators give no task, up to `skips` of them, one after the other. */
  ghost function Skipped(c: Config, p: Progress, skips: nat): Progress
    decreases skips
  {
    if skips == 0 || !p.pending then p else Skipped(c, Finished(c, p, SKIPED), skips - 1)
  }

  ghost function Started(c: Config, start: int): Progress {
    Entered(c, Progress(start, [], false, 0))
  }

  /** The machine after the results that have arrived so far; one that arrives when no
      task is under way has no effect. */
  ghost function After(c: Config, start: int, results: seq<int>): Progress {
    if results == [] then Started(c, start) else
    var p := After(c, start, results[..|results| - 1]);
    if p.pending then Finished(c, p, results[|results| - 1]) else p
  }

  class StateMachine {
    var config: Config
    var started: bool
    var progress: Progress
    var aborted: bool // a CHECK failed

    ghost predicate Valid()
      reads this
    {
      WellFormed(config) && (!started ==> progress == Progress(END, [], false, 0))
    }

    constructor ()
      ensures Valid() && !started && !aborted && config == Config({}, map[], map[])
      ensures forall s, r :: NextState(config, s, r) == None
    {
      config, started, aborted := Config({}, map[], map[]), false, false;
      progress := Progress(END, [], false, 0);
    }

    method AddState(state: int)
      requires Valid() && !aborted
      modifies this
      ensures Valid() && progress == old(progress) && started == old(started)
      ensures aborted <==> started || state == END
      ensures config == if aborted then old(config) else old(config).(states := old(config).states + {state})
    {
      if started || state == END {
        aborted := true;
        return;
      }
      config := config.(states := config.states + {state});
    }

    predicate IsValidTransitionState(currentState: int, nextState: int)
      reads this
    {
      !started && currentState in config.states && (nextState == END || nextState in config.states)
    }

    /** A transition that exists already is kept as it is. */
    method AddTransition(currentState: int, taskResult: int, nextState: int)
      requires Valid() && !aborted
      modifies this
      ensures Valid() && progress == old(progress) && started == old(started)
      ensures aborted <==> !old(IsValidTransitionState(currentState, nextState))
      ensures config.states == old(config).states && config.defaults == old(config).defaults
      ensures !aborted ==> config.transitions == map[(currentState, taskResult) := nextState] + old(config).transitions
      ensures !aborted && (currentState, taskResult) !in old(config).transitions ==>
        NextState(config, currentState, taskResult) == Some(nextState)
      ensures forall s, r :: (s, r) != (currentState, taskResult) || (s, r) in old(config).transitions ==>
        NextState(config, s, r) == NextState(old(config), s, r)
    {
      if !IsValidTransitionState(currentState, nextState) {
        aborted := true;
        return;
      }
      if (currentState, taskResult) !in config.transitions {
        config := config.(transitions := config.transitions[(currentState, taskResult) := nextState]);
      }
    }

    method AddDefaultTransition(currentState: int, nextState: int)
      requires Valid() && !aborted
      modifies this
      ensures Valid() && progress == old(progress) && started == old(started)
      ensures aborted <==> !old(IsValidTransitionState(currentState, nextState))
      ensures config.states == old(config).states && config.transitions == old(config).transitions
      ensures !aborted ==> config.defaults == map[currentState := nextState] + old(config).defaults
      ensures !aborted && currentState !in old(config).defaults ==>
        forall r :: (currentState, r) !in config.transitions ==> NextState(config, currentState, r) == Some(nextState)
      ensures forall s, r :: s != currentState || s in old(config).defaults || (s, r) in config.transitions ==>
        NextState(config, s, r) == NextState(old(config), s, r)
    {
      if !IsValidTransitionState(currentState, nextState) {
        aborted := true;
        return;
      }
      if currentState !in config.defaults {
        config := config.(defaults := config.defaults[currentState := nextState]);
      }
    }

    /** `SuccessCanReachEnd` with the check switched on. */
    method SuccessCanReachEnd(start: int) returns (ok: bool)
      requires Valid()
      ensures ok <==> ReachesEnd(config, start)
    {
      var ran: set<int> := {};
      var state := start;
      ghost var k: nat := 0;
      ghost var room := config.states + {start};
      while state != END
        invariant Route(config, start, k) == Some(state)
        invariant state in room || state == END
        invariant ran <= room && state !in ran
        invariant forall s :: s in ran <==> Visited(config, start, k, s)
        decreases |room - ran|
      {
        ran := ran + {state};
        VisitedStep(config, start, k);
        var next := NextState(config, state, SUCCESS);
        if next.None? {
          RouteDead(config, start, k);
          return false;
        }
        if next.value in ran {
          VisitedAgain(config, start, k + 1);
          return false;
        }
        state := next.value;
        k := k + 1;
      }
      assert Route(config, start, k) == Some(END);
      return true;
    }

    /** `Start`. `checkRoute` is the command line flag. */
    method Start(start: int, checkRoute: bool, skips: nat)
      requires Valid() && !aborted
      modifies this
      ensures Valid() && config == old(config) && started
      ensures aborted <==> old(started) || start !in config.states || (checkRoute && !ReachesEnd(config, start))
      ensures !aborted ==> progress == Skipped(config, Started(config, start), skips)
    {
      if started {
        aborted := true;
        return;
      }
      started := true;
      if start !in config.states {
        aborted := true;
        return;
      }
      if checkRoute {
        var ok := SuccessCanReachEnd(start);
        if !ok {
          aborted := true;
          return;
        }
      }
      progress := progress.(current := start);
      RunCurrentState(skips);
    }

    method RunCurrentState(skips: nat)
      requires Valid() && started
      modifies this`progress
      ensures Valid() && progress == Skipped(config, Entered(config, old(progress)), skips)
      decreases skips, 0
    {
      if progress.current == END {
        progress := progress.(history := progress.history + [(END, 0)], pending := false, finals := progress.finals + 1);
        return;
      }
      if progress.current !in config.states {
        progress := progress.(pending := false, finals := progress.finals + 1);
        return;
      }
      progress := progress.(pending := true);
      if skips > 0 {
        CurrentStateDone(SKIPED, skips - 1);
      }
    }

    /** `skips` creators in a row give no task after this one is done. */
    method CurrentStateDone(result: int, skips: nat)
      requires Valid() && started && progress.pending
      modifies this`progress
      ensures Valid() && progress == Skipped(config, Finished(config, old(progress), result), skips)
      decreases skips, 1
    {
      progress := progress.(history := progress.history + [(progress.current, result)], pending := false);
      var next := NextState(config, progress.current, result);
      if next.Some? {
        progress := progress.(current := next.value);
        RunCurrentState(skips);
      } else {
        progress := progress.(finals := progress.finals + 1);
      }
    }
  }

  /** The route stood at `s` before step `k`. */
  ghost predicate Visited(c: Config, start: int, k: nat, s: int) {
    exists i: nat :: i < k && Route(c, start, i) == Some(s)
  }

  lemma VisitedStep(c: Config, start: int, k: nat)
    ensures forall s :: Visited(c, start, k + 1, s) <==> Visited(c, start, k, s) || Route(c, start, k) == Some(s)
  {
    forall s ensures Visited(c, start, k + 1, s) <==> Visited(c, start, k, s) || Route(c, start, k) == Some(s) {
      if Visited(c, start, k, s) {
        var i: nat :| i < k && Route(c, start, i) == Some(s);
        assert i < k + 1;
      }
    }
  }

  lemma VisitedAgain(c: Config, start: int, k: nat)
    requires Route(c, start, k).Some? && Visited(c, start, k, Route(c, start, k).value)
    ensures !ReachesEnd(c, start)
  {
    var i: nat :| i < k && Route(c, start, i) == Some(Route(c, start, k).value);
    LoopNeverEnds(c, start, i, k);
  }

  lemma RouteDead(c: Config, start: int, k: nat)
    requires Route(c, start, k).Some? && Route(c, start, k).value != END
    requires NextState(c, Route(c, start, k).value, SUCCESS).None?
    ensures !ReachesEnd(c, start)
  {
    forall n: nat ensures Route(c, start, n) != Some(END) {
      if n > k + 1 {
        RouteStops(c, start, k + 1, n);
      } else if n < k {
        if Route(c, start, n) == Some(END) {
          RouteStops(c, start, n, k);
        }
      }
    }
  }

  // ---------------------------------------------------------------------------
  // Every run, whatever its tasks report
  // ---------------------------------------------------------------------------

  /** Each entry of the history leads to the next by `NextState`; the end is listed last, if at all. */
  ghost predicate IsPath(c: Config, start: int, h: seq<(int, int)>) {
    && (h != [] ==> h[0].0 == start)
    && (forall i :: 0 <= i < |h| ==> (h[i].0 in c.states || (h[i] == (END, 0) && i == |h| - 1)))
    && (forall i :: 0 < i < |h| ==> NextState(c, h[i - 1].0, h[i - 1].1) == Some(h[i].0))
  }

  /** What holds after every number of results. */
  ghost predicate RunOk(c: Config, start: int, p: Progress) {
    && IsPath(c, start, p.history)
    && p.finals == (if p.pending then 0 else 1)
    && (p.current == END || p.current in c.states)
    && (p.pending ==>
          && p.current in c.states
          && (forall i :: 0 <= i < |p.history| ==> p.history[i].0 in c.states)
          && (if p.history == [] then p.current == start else
              var last := p.history[|p.history| - 1]; NextState(c, last.0, last.1) == Some(p.current)))
    && (!p.pending ==>
          && p.history != []
          && var last := p.history[|p.history| - 1];
             last.0 == END || NextState(c, last.0, last.1).None?)
  }

  lemma FinishedKeeps(c: Config, start: int, p: Progress, result: int)
    requires WellFormed(c) && RunOk(c, start, p) && p.pending
    ensures RunOk(c, start, Finished(c, p, result))
  {
    var h := p.history + [(p.current, result)];
    assert h[|h| - 1] == (p.current, result);
    assert IsPath(c, start, h);
  }

  /** In every run the history is a path of `NextState`, the final callback runs exactly
      once as soon as no task is under way and never before, the state is always a declared
      one or the end, and a run that has stopped either listed the end or had nowhere to go. */
  lemma {:induction false} EveryRun(c: Config, start: int, results: seq<int>)
    requires WellFormed(c) && start in c.states
    ensures RunOk(c, start, After(c, start, results))
  {
    if results != [] {
      EveryRun(c, start, results[..|results| - 1]);
      var p := After(c, start, results[..|results| - 1]);
      if p.pending {
        FinishedKeeps(c, start, p, results[|results| - 1]);
      }
    }
  }

  /** A state without a task is like one whose task reports `SKIPED`, so every run with such
      states is one of the runs above. */
  lemma {:induction false} SkipsAreResults(c: Config, start: int, results: seq<int>, skips: nat)
    ensures Skipped(c, After(c, start, results), skips) == After(c, start, results + seq(skips, _ => SKIPED))
    decreases skips
  {
    var p := After(c, start, results);
    if skips == 0 {
      assert results + [] == results;
    } else {
      var more := results + [SKIPED];
      assert more[..|more| - 1] == results;
      SkipsAreResults(c, start, more, skips - 1);
      assert more + seq(skips - 1, _ => SKIPED) == results + seq(skips, _ => SKIPED);
      if !p.pending {
        assert After(c, start, more) == p;
      }
    }
  }

  ghost function Successes(k: nat): (s: seq<int>)
    ensures |s| == k
  {
    seq(k, _ => SUCCESS)
  }

  /** The run has followed the success route for `k` of its `n` steps. */
  ghost predicate OnRoute(c: Config, start: int, n: nat, k: nat, p: Progress) {
    && |p.history| == (if k == n then n + 1 else k)
    && (forall i :: 0 <= i < |p.history| ==> Some(p.history[i].0) == Route(c, start, i))
    && p.pending == (k < n) && Some(p.current) == Route(c, start, k)
  }

  lemma RouteGoesOn(c: Config, start: int, n: nat, k: nat)
    requires WellFormed(c) && start in c.states && Route(c, start, n) == Some(END) && k <= n
    ensures Route(c, start, k).Some?
    ensures k < n ==> Route(c, start, k).value in c.states && Route(c, start, k).value != END
    ensures k < n ==> NextState(c, Route(c, start, k).value, SUCCESS) == Route(c, start, k + 1)
  {
    if k < n {
      EndingRouteIsSimple(c, start, n, k, n);
      if k > 0 {
        RouteInStates(c, start, k);
      }
      EndingRouteIsSimple(c, start, n, k, k + 1);
    }
  }

  lemma RouteStep(c: Config, start: int, n: nat, k: nat, p: Progress)
    requires WellFormed(c) && start in c.states && Route(c, start, n) == Some(END) && k < n
    requires OnRoute(c, start, n, k, p)
    ensures OnRoute(c, start, n, k + 1, Finished(c, p, SUCCESS))
  {
    RouteGoesOn(c, start, n, k);
    RouteGoesOn(c, start, n, k + 1);
  }

  /** While all results are successes the history follows the success route. */
  lemma {:induction false} SuccessFollowsRoute(c: Config, start: int, n: nat, k: nat)
    requires WellFormed(c) && start in c.states && Route(c, start, n) == Some(END) && k <= n
    ensures OnRoute(c, start, n, k, After(c, start, Successes(k)))
  {
    if k == 0 {
      RouteGoesOn(c, start, n, 0);
    } else {
      assert Successes(k)[..k - 1] == Successes(k - 1);
      SuccessFollowsRoute(c, start, n, k - 1);
      RouteStep(c, start, n, k - 1, After(c, start, Successes(k - 1)));
    }
  }

  /** After `n` successes the run has stopped at the end, without repeating a state. */
  ghost predicate EndsSimply(c: Config, start: int, n: nat) {
    var p := After(c, start, Successes(n));
    && !p.pending && p.finals == 1 && p.current == END
    && |p.history| == n + 1 && p.history[n] == (END, 0)
    && forall i, j :: 0 <= i < j <= n ==> p.history[i].0 != p.history[j].0
  }

  /** With the route check passed, a run in which every task succeeds stops at the end
      after finitely many results, and no state occurs twice in its history. */
  lemma AllSuccessEnds(c: Config, start: int)
    requires WellFormed(c) && start in c.states && ReachesEnd(c, start)
    ensures exists n: nat :: n > 0 && EndsSimply(c, start, n)
  {
    var n: nat :| Route(c, start, n) == Some(END);
    SuccessFollowsRoute(c, start, n, n);
    EveryRun(c, start, Successes(n));
    var p := After(c, start, Successes(n));
    forall i, j | 0 <= i < j <= n ensures p.history[i].0 != p.history[j].0 {
      EndingRouteIsSimple(c, start, n, i, j);
    }
    assert EndsSimply(c, start, n);
  }

  // ---------------------------------------------------------------------------
  // What is recorded
  // ---------------------------------------------------------------------------

  /** How many results the run took: all entries of the history but the end. */
  ghost function Taken(p: Progress): nat {
    if p.history != [] && p.history[|p.history| - 1].0 == END then |p.history| - 1 else |p.history|
  }

  ghost predicate Records(p: Progress, results: seq<int>) {
    && Taken(p) <= |results| && (p.pending ==> Taken(p) == |results|)
    && forall i :: 0 <= i < Taken(p) ==> p.history[i].1 == results[i]
  }

  lemma RecordStep(c: Config, p: Progress, results: seq<int>, r: int)
    requires END !in c.states && p.pending && p.current in c.states && Records(p, results)
    requires forall i :: 0 <= i < |p.history| ==> p.history[i].0 in c.states
    ensures Records(Finished(c, p, r), results + [r])
  {
  }

  /** The history holds the results in the order they arrived, and the run takes every result
      until it stops. */
  lemma {:induction false} ResultsRecorded(c: Config, start: int, results: seq<int>)
    requires WellFormed(c) && start in c.states
    ensures Records(After(c, start, results), results)
  {
    if results != [] {
      var front := results[..|results| - 1];
      var p := After(c, start, front);
      ResultsRecorded(c, start, front);
      EveryRun(c, start, front);
      if p.pending {
        RecordStep(c, p, front, results[|results| - 1]);
        assert front + [results[|results| - 1]] == results;
      }
    }
  }

  /** A named transition is taken whatever the default says, and the default for all other results. */
  lemma NamedBeatsDefault(c: Config, s: int, r: int)
    ensures (s, r) in c.transitions ==> NextState(c, s, r) == Some(c.transitions[(s, r)])
    ensures (s, r) !in c.transitions && s in c.defaults ==> NextState(c, s, r) == Some(c.defaults[s])
    ensures NextState(c, s, r) == None <==> (s, r) !in c.transitions && s !in c.defaults
  {
  }

  /** With 1 leading to the end on the result 0 and back to itself on any other, the run ends on 0,
      and a state without a task counts as the result 2. */
  lemma SmallMachine()
    ensures var c := Config({1}, map[(1, 0) := 0], map[1 := 1]);
            && After(c, 1, [1, 0]).history == [(1, 1), (1, 0), (0, 0)]
            && Skipped(c, After(c, 1, []), 1).history == [(1, 2)]
            && Route(c, 1, 1) == Some(0)
  {
    var c := Config({1}, map[(1, 0) := 0], map[1 := 1]);
    assert [1, 0][..1] == [1] && [1][..0] == [];
    assert After(c, 1, [1]).history == [(1, 1)];
    assert Route(c, 1, 0) == Some(1);
    assert Skipped(c, Finished(c, After(c, 1, []), SKIPED), 0).history == [(1, 2)];
  }
}
