/** The callbacks of `ZkLeaderSelection`: which of them run, how often and in what
order, for any sequence of `Proposals` calls and watcher events.

Every handler is one atomic step. A failed `CHECK` ends the process. */
module ElectionCallbacks {
  import opened Wrappers

  const ZOK: int := 0

  /** A proposal is numbered when its callbacks are stored. */
  type Proposal = nat

  datatype Call =
    | DoneRan(proposal: Proposal, rc: int)
    | ExpiredRan(proposal: Proposal)

  /** How one execution of `CheckLeader` (or of the node creation before it) ends. */
  datatype Outcome =
    | Won                // smallest node, own watch set: `CallDoneRun(ZOK)`
    | Failed(rc: int)    // any error: `CallDoneRun(rc)`
    | Parked             // watching another node: no callback yet

  predicate Possible(o: Outcome) {
    o.Failed? ==> o.rc != ZOK
  }

  datatype Event =
    | Propose(connected: bool, hasExpiry: bool, outcome: Outcome)
    | SessionExpired          // global watcher, expired session state
    | NodeDeleted(outcome: Outcome) // node watcher: runs `CheckLeader` again
    | LeaderNodeDeleted       // watcher on the own node

  predicate PossibleEvent(e: Event) {
    match e
    case Propose(_, _, o) => Possible(o)
    case NodeDeleted(o) => Possible(o)
    case _ => true
  }

  /** The object's fields, the callbacks that have run so far, and whether a CHECK failed. */
  datatype Fields = Fields(
    open: bool,                 // zh_ is not NULL
    done: Option<Proposal>,     // done_
    expiry: Option<Proposal>,   // on_expired_session_event_
    issued: nat,                // proposals accepted so far
    calls: seq<Call>,
    aborted: bool)

  const INITIAL: Fields := Fields(false, None, None, 0, [], false)

  // ---------------------------------------------------------------------------
  // Specification of the handlers
  // ---------------------------------------------------------------------------

  function DoneRun(f: Fields, rc: int): Fields {
    if f.done.None? then f.(aborted := true)
    else if rc == ZOK then f.(done := None, calls := f.calls + [DoneRan(f.done.value, rc)])
    else f.(open := false, done := None, expiry := None, calls := f.calls + [DoneRan(f.done.value, rc)])
  }

  function ExpiredRun(f: Fields): Fields {
    if f.done.Some? || f.expiry.None? then f.(aborted := true)
    else f.(open := false, expiry := None, calls := f.calls + [ExpiredRan(f.expiry.value)])
  }

  function Conclude(f: Fields, o: Outcome): Fields {
    match o
    case Won => DoneRun(f, ZOK)
    case Failed(rc) => DoneRun(f, rc)
    case Parked => f
  }

  function Handle(f: Fields, e: Event): Fields {
    if f.aborted then f else
    match e
    case Propose(connected, hasExpiry, o) =>
      if f.open then f
      else if !connected then f.(done := None, expiry := None)
      else
        Conclude(f.(open := true, done := Some(f.issued),
                    expiry := if hasExpiry then Some(f.issued) else None, issued := f.issued + 1), o)
    case SessionExpired => if f.done.Some? then DoneRun(f, -1) else ExpiredRun(f)
    case NodeDeleted(o) => Conclude(f, o)
    case LeaderNodeDeleted => ExpiredRun(f)
  }

  function HandleAll(f: Fields, es: seq<Event>): Fields {
    if es == [] then f else Handle(HandleAll(f, es[..|es| - 1]), es[|es| - 1])
  }

  /** What proposal `p` was told, if it has been told anything. */
  function ResultOf(calls: seq<Call>, p: Proposal): Option<int> {
    if calls == [] then None
    else if calls[0].DoneRan? && calls[0].proposal == p then Some(calls[0].rc)
    else ResultOf(calls[1..], p)
  }

  // ---------------------------------------------------------------------------
  // The object
  // ---------------------------------------------------------------------------

  class ZkLeaderSelection {
    var open: bool
    var done: Option<Proposal>
    var expiry: Option<Proposal>
    var issued: nat
    var calls: seq<Call>
    var aborted: bool

    function State(): Fields
      reads this
    {
      Fields(open, done, expiry, issued, calls, aborted)
    }

    constructor ()
      ensures State() == INITIAL
    {
      open, done, expiry, issued, calls, aborted := false, None, None, 0, [], false;
    }

    method Reset()
      modifies this`open, this`done, this`expiry
      ensures State() == old(State()).(open := false, done := None, expiry := None)
    {
      done := None;
      expiry := None;
      if open {
        open := false;
      }
    }

    method CallDoneRun(rc: int)
      modifies this
      ensures State() == DoneRun(old(State()), rc)
    {
      if done == None {
        aborted := true;
        return;
      }
      var callback := done;
      done := None;
      if rc != ZOK {
        expiry := None;
        Reset();
      }
      calls := calls + [DoneRan(callback.value, rc)];
    }

    method CallExpiredSessionRun()
      modifies this
      ensures State() == ExpiredRun(old(State()))
    {
      if done != None || expiry == None {
        aborted := true;
        return;
      }
      var callback := expiry;
      expiry := None;
      Reset();
      calls := calls + [ExpiredRan(callback.value)];
    }

    /** The tail of `CheckLeader` and `CallProposals`, once the server has answered. */
    method FinishCheck(o: Outcome)
      modifies this
      ensures State() == Conclude(old(State()), o)
    {
      match o
      case Won => CallDoneRun(ZOK);
      case Failed(rc) => CallDoneRun(rc);
      case Parked =>
    }

    /** `connecting` is how connecting and authenticating ends. `waits` says that the caller
        gave no callback: then the call returns what its own callback is told, and None stands
        for a call that is still waiting for that. */
    method Proposals(connecting: int, hasExpiry: bool, waits: bool, o: Outcome) returns (rc: Option<int>)
      requires !aborted
      modifies this
      ensures State() == Handle(old(State()), Propose(connecting == ZOK, hasExpiry, o))
      ensures issued > old(issued) <==> !old(open) && connecting == ZOK
      ensures issued == old(issued) ==> rc == Some(if old(open) then -1 else connecting)
      ensures issued > old(issued) && !waits ==> rc == Some(ZOK)
      ensures issued > old(issued) && waits ==> rc == ResultOf(calls, old(issued))
    {
      if open {
        return Some(-1);
      }
      open := connecting == ZOK;
      if !open {
        Reset();
        return Some(connecting);
      }
      var proposal := issued;
      done := Some(proposal);
      expiry := if hasExpiry then Some(proposal) else None;
      issued := issued + 1;
      FinishCheck(o);
      rc := if waits then ResultOf(calls, proposal) else Some(ZOK);
    }

    method GlobalWatcherExpired()
      requires !aborted
      modifies this
      ensures State() == Handle(old(State()), SessionExpired)
    {
      if done != None {
        CallDoneRun(-1);
      } else {
        CallExpiredSessionRun();
      }
    }

    method NodeWatcher(o: Outcome)
      requires !aborted
      modifies this
      ensures State() == Handle(old(State()), NodeDeleted(o))
    {
      FinishCheck(o);
    }

    method MyselfWatcher()
      requires !aborted
      modifies this
      ensures State() == Handle(old(State()), LeaderNodeDeleted)
    {
      CallExpiredSessionRun();
    }
  }

  // ---------------------------------------------------------------------------
  // Every sequence of events
  // ---------------------------------------------------------------------------

  /** Proposal `p` has been told a result. */
  ghost predicate Told(calls: seq<Call>, p: Proposal) {
    exists i :: 0 <= i < |calls| && calls[i].DoneRan? && calls[i].proposal == p
  }

  ghost predicate ToldZok(calls: seq<Call>, p: Proposal) {
    DoneRan(p, ZOK) in calls
  }

  /** `done` runs at most once, and the expiry callback at most once and only after ZOK. */
  ghost predicate Orderly(calls: seq<Call>) {
    && (forall i, j :: 0 <= i < j < |calls| && calls[i].DoneRan? && calls[j].DoneRan?
                       ==> calls[i].proposal != calls[j].proposal)
    && (forall i, j :: 0 <= i < j < |calls| && calls[i].ExpiredRan? && calls[j].ExpiredRan?
                       ==> calls[i].proposal != calls[j].proposal)
    && (forall i :: 0 <= i < |calls| && calls[i].ExpiredRan? ==> ToldZok(calls[..i], calls[i].proposal))
  }

  ghost predicate Inv(f: Fields) {
    && Orderly(f.calls)
    && (forall c :: c in f.calls ==> c.proposal < f.issued)
    && (!f.open ==> f.done.None? && f.expiry.None?)
    && (f.done.Some? ==> f.done.value < f.issued && !Told(f.calls, f.done.value))
    && (f.expiry.Some? ==> f.expiry.value < f.issued && ExpiredRan(f.expiry.value) !in f.calls)
    && (f.expiry.Some? && f.done.Some? ==> f.expiry.value == f.done.value)
    && (f.expiry.Some? && f.done.None? ==> ToldZok(f.calls, f.expiry.value))
  }

  /** A callback that has its turn may run next. */
  lemma OrderlySnoc(calls: seq<Call>, c: Call)
    requires Orderly(calls)
    requires c.DoneRan? ==> !Told(calls, c.proposal)
    requires c.ExpiredRan? ==> c !in calls && ToldZok(calls, c.proposal)
    ensures Orderly(calls + [c])
  {
    var all := calls + [c];
    forall i | 0 <= i < |all| && all[i].ExpiredRan? ensures ToldZok(all[..i], all[i].proposal) {
      assert all[..i] == calls[..i];
      assert calls[..|calls|] == calls;
    }
  }

  lemma ToldSnoc(calls: seq<Call>, c: Call, p: Proposal)
    ensures Told(calls + [c], p) <==> Told(calls, p) || (c.DoneRan? && c.proposal == p)
  {
    if Told(calls, p) {
      var i :| 0 <= i < |calls| && calls[i].DoneRan? && calls[i].proposal == p;
      assert (calls + [c])[i] == calls[i];
    }
    assert (calls + [c])[|calls|] == c;
  }

  lemma DoneRunKeeps(f: Fields, rc: int)
    requires Inv(f)
    ensures Inv(DoneRun(f, rc))
  {
    if f.done.Some? {
      OrderlySnoc(f.calls, DoneRan(f.done.value, rc));
    }
  }

  lemma ExpiredRunKeeps(f: Fields)
    requires Inv(f)
    ensures Inv(ExpiredRun(f))
  {
    if f.done.None? && f.expiry.Some? {
      OrderlySnoc(f.calls, ExpiredRan(f.expiry.value));
    }
  }

  lemma HandleKeeps(f: Fields, e: Event)
    requires Inv(f) && PossibleEvent(e)
    ensures Inv(Handle(f, e))
  {
    if !f.aborted {
      match e
      case Propose(connected, hasExpiry, o) =>
        if !f.open && connected {
          var g := f.(open := true, done := Some(f.issued),
                      expiry := if hasExpiry then Some(f.issued) else None, issued := f.issued + 1);
          assert Inv(g);
          DoneRunKeeps(g, if o.Failed? then o.rc else ZOK);
        }
      case SessionExpired =>
        DoneRunKeeps(f, -1);
        ExpiredRunKeeps(f);
      case NodeDeleted(o) => DoneRunKeeps(f, if o.Failed? then o.rc else ZOK);
      case LeaderNodeDeleted => ExpiredRunKeeps(f);
    }
  }

  lemma {:induction false} RunKeeps(es: seq<Event>)
    requires forall e :: e in es ==> PossibleEvent(e)
    ensures Inv(HandleAll(INITIAL, es))
  {
    if es != [] {
      RunKeeps(es[..|es| - 1]);
      HandleKeeps(HandleAll(INITIAL, es[..|es| - 1]), es[|es| - 1]);
    }
  }

  /** Over every sequence of calls and events: no proposal's `done` runs twice, no
      expiry callback runs twice, and none runs before its own `done` ran with ZOK. */
  lemma CallbacksOrderly(es: seq<Event>)
    requires forall e :: e in es ==> PossibleEvent(e)
    ensures Orderly(HandleAll(INITIAL, es).calls)
  {
    RunKeeps(es);
  }

  /** Between two elections nothing is pending: whenever the handle is closed, every
      accepted proposal has been told its result. */
  ghost predicate AllTold(f: Fields) {
    forall p: Proposal :: p < f.issued && f.done != Some(p) ==> Told(f.calls, p)
  }

  lemma HandleTells(f: Fields, e: Event)
    requires Inv(f) && AllTold(f)
    ensures AllTold(Handle(f, e))
  {
    var g := Handle(f, e);
    forall p: Proposal | p < g.issued && g.done != Some(p) ensures Told(g.calls, p) {
      if g.calls != f.calls {
        ToldSnoc(f.calls, g.calls[|f.calls|], p);
        assert g.calls == f.calls + [g.calls[|f.calls|]];
      }
    }
  }

  lemma {:induction false} RunTells(es: seq<Event>)
    requires forall e :: e in es ==> PossibleEvent(e)
    ensures AllTold(HandleAll(INITIAL, es))
  {
    if es != [] {
      RunKeeps(es[..|es| - 1]);
      RunTells(es[..|es| - 1]);
      HandleTells(HandleAll(INITIAL, es[..|es| - 1]), es[|es| - 1]);
    }
  }

  /** Once the handle is closed again, `done` has run exactly once for every accepted
      proposal: none is lost when an election fails or a session expires. */
  lemma ClosedMeansAllTold(es: seq<Event>, p: Proposal)
    requires forall e :: e in es ==> PossibleEvent(e)
    requires var f := HandleAll(INITIAL, es); !f.open && p < f.issued
    ensures Told(HandleAll(INITIAL, es).calls, p)
  {
    RunKeeps(es);
    RunTells(es);
  }

  // ---------------------------------------------------------------------------
  // What a waiting call returns
  // ---------------------------------------------------------------------------

  /** The first result is one that was told. */
  lemma {:induction false} FirstResult(calls: seq<Call>, p: Proposal)
    ensures ResultOf(calls, p).Some? ==> DoneRan(p, ResultOf(calls, p).value) in calls
    ensures Told(calls, p) ==> ResultOf(calls, p).Some?
  {
    if calls != [] {
      FirstResult(calls[1..], p);
    }
  }

  lemma {:induction false} ResultStays(calls: seq<Call>, more: seq<Call>, p: Proposal)
    requires ResultOf(calls, p).Some?
    ensures ResultOf(calls + more, p) == ResultOf(calls, p)
  {
    assert (calls + more)[0] == calls[0] && (calls + more)[1..] == calls[1..] + more;
    if !(calls[0].DoneRan? && calls[0].proposal == p) {
      ResultStays(calls[1..], more, p);
    }
  }

  lemma CallsGrow(f: Fields, e: Event)
    ensures f.calls <= Handle(f, e).calls
  {
  }

  /** A waiting call gets exactly what its proposal is told, no later event changes that, and
      once the handle is closed it has it. */
  lemma WaiterGetsItsResult(es: seq<Event>, e: Event, p: Proposal)
    requires forall x :: x in es ==> PossibleEvent(x)
    requires p < HandleAll(INITIAL, es).issued
    ensures var f := HandleAll(INITIAL, es);
            && (forall rc :: ResultOf(f.calls, p) == Some(rc) <==> DoneRan(p, rc) in f.calls)
            && (ResultOf(f.calls, p).Some? ==> ResultOf(Handle(f, e).calls, p) == ResultOf(f.calls, p))
            && (!f.open ==> ResultOf(f.calls, p).Some?)
  {
    var f := HandleAll(INITIAL, es);
    RunKeeps(es);
    FirstResult(f.calls, p);
    ToldByOne(f.calls, p);
    if !f.open {
      ClosedMeansAllTold(es, p);
    }
    CallsGrow(f, e);
    if ResultOf(f.calls, p).Some? {
      ResultStays(f.calls, Handle(f, e).calls[|f.calls|..], p);
      assert f.calls + Handle(f, e).calls[|f.calls|..] == Handle(f, e).calls;
    }
  }

  /** Orderly calls tell a proposal one thing only. */
  lemma ToldByOne(calls: seq<Call>, p: Proposal)
    requires Orderly(calls)
    ensures forall a, b :: DoneRan(p, a) in calls && DoneRan(p, b) in calls ==> a == b
    ensures forall a :: DoneRan(p, a) in calls ==> Told(calls, p)
  {
  }

  // ---------------------------------------------------------------------------
  // Why a proposal is told what
  // ---------------------------------------------------------------------------

  /** From `f` to `g` the check of proposal `p` ended as `o`: a win is told as 0 and keeps the
      handle open, an error is told as it is and closes it, and a parked check tells nothing. */
  ghost predicate Concludes(f: Fields, g: Fields, p: Proposal, o: Outcome) {
    && !g.aborted
    && match o
       case Won => g.calls == f.calls + [DoneRan(p, 0)] && g.open && g.done.None?
       case Failed(rc) => g.calls == f.calls + [DoneRan(p, rc)] && !g.open && g.done.None? && g.expiry.None?
       case Parked => g.calls == f.calls && g.open && g.done == Some(p)
  }

  /** Everything one event does to callbacks, handle and proposals. */
  lemma WhatAnEventTells(f: Fields, e: Event)
    requires Inv(f) && !f.aborted && PossibleEvent(e)
    ensures var g := Handle(f, e);
            match e
            case Propose(connected, hasExpiry, o) =>
              if f.open || !connected then g == f else
              && g.issued == f.issued + 1 && Concludes(f, g, f.issued, o)
              && (g.open ==> g.expiry == if hasExpiry then Some(f.issued) else None)
            case NodeDeleted(o) =>
              && g.issued == f.issued
              && if f.done.None? then g.calls == f.calls && (g.aborted <==> !o.Parked?) else
                 f.open && Concludes(f, g, f.done.value, o) && (g.open ==> g.expiry == f.expiry)
            case SessionExpired =>
              && g.issued == f.issued
              && if f.done.Some? then Concludes(f, g, f.done.value, Failed(-1)) else Loses(f, g)
            case LeaderNodeDeleted =>
              && g.issued == f.issued
              && if f.done.Some? then g.aborted && g.calls == f.calls else Loses(f, g)
  {
  }

  /** Leadership is lost: the expiry callback runs and the handle closes; without one, a CHECK fails. */
  ghost predicate Loses(f: Fields, g: Fields) {
    if f.expiry.None? then g.aborted && g.calls == f.calls
    else !g.aborted && g.calls == f.calls + [ExpiredRan(f.expiry.value)] && !g.open && g.expiry.None?
  }

  /** Event `e` is a reason to tell a proposal `rc`. */
  ghost predicate Reason(e: Event, rc: int) {
    match e
    case Propose(connected, _, o) => connected && ((o.Won? && rc == 0) || (o.Failed? && rc == o.rc))
    case NodeDeleted(o) => (o.Won? && rc == 0) || (o.Failed? && rc == o.rc)
    case SessionExpired => rc == -1
    case LeaderNodeDeleted => false
  }

  /** At `i` proposal `p` was the pending one, or became it, and was told `rc` for a reason. */
  ghost predicate ToldAt(es: seq<Event>, i: nat, p: Proposal, rc: int)
    requires i < |es|
  {
    var f := HandleAll(INITIAL, es[..i]);
    !f.aborted && Reason(es[i], rc) && if es[i].Propose? then !f.open && f.issued == p else f.done == Some(p)
  }

  lemma {:induction false} ToldForAReason(es: seq<Event>, p: Proposal, rc: int) returns (i: nat)
    requires forall e :: e in es ==> PossibleEvent(e)
    requires DoneRan(p, rc) in HandleAll(INITIAL, es).calls
    ensures i < |es| && ToldAt(es, i, p, rc)
  {
    var front := es[..|es| - 1];
    var f := HandleAll(INITIAL, front);
    if DoneRan(p, rc) in f.calls {
      i := ToldForAReason(front, p, rc);
      assert es[..i] == front[..i] && es[i] == front[i];
    } else {
      RunKeeps(front);
      WhatAnEventTells(f, es[|es| - 1]);
      i := |es| - 1;
    }
  }

  lemma {:induction false} ReasonIsTold(es: seq<Event>, i: nat, p: Proposal, rc: int)
    requires forall e :: e in es ==> PossibleEvent(e)
    requires i < |es| && ToldAt(es, i, p, rc)
    ensures DoneRan(p, rc) in HandleAll(INITIAL, es).calls
  {
    var front := es[..|es| - 1];
    var f := HandleAll(INITIAL, front);
    if i == |es| - 1 {
      RunKeeps(front);
      WhatAnEventTells(f, es[i]);
    } else {
      assert es[..i] == front[..i] && es[i] == front[i];
      ReasonIsTold(front, i, p, rc);
      CallsGrow(f, es[|es| - 1]);
    }
  }

  /** A proposal is told 0 exactly if a check was won while it was pending, and anything else
      exactly if one failed with that very code or its session expired. */
  lemma ToldExactlyWhy(es: seq<Event>, p: Proposal, rc: int)
    requires forall e :: e in es ==> PossibleEvent(e)
    ensures DoneRan(p, rc) in HandleAll(INITIAL, es).calls <==> exists i: nat :: i < |es| && ToldAt(es, i, p, rc)
  {
    if DoneRan(p, rc) in HandleAll(INITIAL, es).calls {
      var i := ToldForAReason(es, p, rc);
    }
    if i: nat :| i < |es| && ToldAt(es, i, p, rc) {
      ReasonIsTold(es, i, p, rc);
    }
  }

  /** The newest proposal has neither been told an error nor lost its leadership. */
  ghost predicate Alive(f: Fields) {
    && f.issued > 0 && ExpiredRan(f.issued - 1) !in f.calls
    && forall c :: c in f.calls && c.DoneRan? && c.proposal == f.issued - 1 ==> c.rc == 0
  }

  /** What is stored belongs to the newest proposal, and the handle is open exactly while that
      one is alive. */
  ghost predicate OpenIsAlive(f: Fields) {
    && (f.open <==> Alive(f))
    && (f.done.Some? ==> f.done.value == f.issued - 1)
    && (f.expiry.Some? ==> f.expiry.value == f.issued - 1)
  }

  lemma NewIsUntold(f: Fields)
    requires Inv(f)
    ensures forall c :: c in f.calls ==> c.proposal != f.issued
  {
  }

  lemma ProposalAlive(f: Fields, e: Event)
    requires Inv(f) && OpenIsAlive(f) && !f.aborted && PossibleEvent(e) && e.Propose?
    ensures OpenIsAlive(Handle(f, e))
  {
    NewIsUntold(f);
    WhatAnEventTells(f, e);
  }

  lemma OtherAlive(f: Fields, e: Event)
    requires Inv(f) && OpenIsAlive(f) && !f.aborted && PossibleEvent(e) && !e.Propose?
    ensures OpenIsAlive(Handle(f, e))
  {
    WhatAnEventTells(f, e);
    if f.done.Some? {
      assert forall c :: c in f.calls && c.DoneRan? ==> c.proposal != f.done.value;
    }
  }

  /** Over every sequence of events: the handle is open exactly while the newest proposal has been
      told no error and has not lost its leadership. */
  lemma {:induction false} OpenExactlyWhen(es: seq<Event>)
    requires forall e :: e in es ==> PossibleEvent(e)
    ensures OpenIsAlive(HandleAll(INITIAL, es))
  {
    if es != [] {
      var front, e := es[..|es| - 1], es[|es| - 1];
      var f := HandleAll(INITIAL, front);
      RunKeeps(front);
      OpenExactlyWhen(front);
      if !f.aborted {
        if e.Propose? {
          ProposalAlive(f, e);
        } else {
          OtherAlive(f, e);
        }
      }
    }
  }
}
