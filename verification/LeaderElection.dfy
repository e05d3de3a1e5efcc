/** The election protocol: any number of candidates run `CheckLeader` against one
ZooKeeper directory, interleaved at every server call.

`CheckLeader` makes two calls, one that lists the children and one that tests a
node and leaves a watch on it. Other candidates, deletions, session losses and
event deliveries may fall between them, so each call is a step of its own. */
module LeaderElection {
  import opened SequenceNames

  /** One candidate is one accepted call of `Proposals`. */
  type Id = nat

  /** Where a candidate stands in `CheckLeader`. */
  datatype Phase =
    | Listing                    // about to ask for the children
    | ProbingSelf                // found itself smallest, about to watch its own node
    | ProbingOther(target: string) // about to watch the greatest smaller child
    | Waiting(watched: string)   // parked until the watched node is deleted
    | Leading                    // told ZOK
    | Ended                      // told an error, or its session was lost

  /** The directory and all candidates. `node` and `elected` are never forgotten. */
  datatype State = State(
    dir: set<string>,            // names of the live children
    next: nat,                   // the directory's sequence counter
    node: map<Id, nat>,          // sequence number a candidate was given
    phase: map<Id, Phase>,
    elected: set<Id>,            // candidates whose `done` ran with ZOK
    watches: set<(Id, string)>,  // one-shot deletion watches on the server
    events: set<(Id, string)>)   // deletion events on their way to a candidate

  datatype Step =
    | Create(id: Id)
    | CreateFails(id: Id)
    | List(id: Id, decision: Decision)
    | Probe(id: Id)
    | CallFails(id: Id)          // a server call of `CheckLeader` returns an error
    | Deliver(id: Id, name: string)
    | SessionLost(id: Id)
    | Delete(name: string)       // a node goes away, whatever the reason
    | CreateForeign(name: string)// someone else adds a child

  ghost const INITIAL: State := State({}, 0, map[], map[], {}, {}, {})

  /** Someone else's child may have any name the server would not generate. */
  ghost predicate Foreign(prefix: string, name: string) {
    forall k: nat :: k <= MAX_SEQUENCE ==> name != NameOf(prefix, k)
  }

  /** `name` disappears: its watches are used up and become events. */
  ghost function Deleted(s: State, name: string): State {
    s.(dir := s.dir - {name},
       watches := (set w | w in s.watches && w.1 != name),
       events := s.events + (set w | w in s.watches && w.1 == name))
  }

  ghost function SetPhase(s: State, id: Id, p: Phase): State {
    s.(phase := s.phase[id := p])
  }

  /** Handling the deletion event of `name`: a parked candidate checks again,
      a leader learns that it is none any more, anything else is closed. */
  function Woken(p: Phase): Phase {
    match p
    case Leading => Ended
    case Ended => Ended
    case _ => Listing
  }

  /** The node the second call of `CheckLeader` tests. */
  ghost function ProbedName(prefix: string, s: State, id: Id): string
    requires id in s.phase && id in s.node && (s.phase[id].ProbingSelf? || s.phase[id].ProbingOther?)
  {
    if s.phase[id].ProbingSelf? then NameOf(prefix, s.node[id]) else s.phase[id].target
  }

  ghost predicate Enabled(prefix: string, s: State, step: Step) {
    match step
    case Create(id) => id !in s.phase && s.next <= MAX_SEQUENCE
    case CreateFails(id) => id !in s.phase
    case List(id, d) =>
      id in s.phase && s.phase[id] == Listing && id in s.node &&
      IsDecision(prefix, NameOf(prefix, s.node[id]), s.dir, d)
    case Probe(id) => id in s.phase && id in s.node && (s.phase[id].ProbingSelf? || s.phase[id].ProbingOther?)
    case CallFails(id) => id in s.phase && !s.phase[id].Leading? && !s.phase[id].Waiting? && !s.phase[id].Ended?
    case Deliver(id, name) => (id, name) in s.events && id in s.phase
    case SessionLost(id) => id in s.phase
    case Delete(name) => name in s.dir
    case CreateForeign(name) => name !in s.dir && Foreign(prefix, name)
  }

  ghost function Apply(prefix: string, s: State, step: Step): State
    requires Enabled(prefix, s, step)
  {
    match step
    case Create(id) =>
      s.(dir := s.dir + {NameOf(prefix, s.next)}, next := s.next + 1,
         node := s.node[id := s.next], phase := s.phase[id := Listing])
    case CreateFails(id) => SetPhase(s, id, Ended)
    case List(id, d) =>
      SetPhase(s, id, match d case NotFound => Ended case Lead => ProbingSelf case Watch(w) => ProbingOther(w))
    case Probe(id) =>
      var name := ProbedName(prefix, s, id);
      if s.phase[id].ProbingSelf? then
        if name in s.dir
        then SetPhase(s, id, Leading).(elected := s.elected + {id}, watches := s.watches + {(id, name)})
        else SetPhase(s, id, Ended)
      else
        if name in s.dir
        then SetPhase(s, id, Waiting(name)).(watches := s.watches + {(id, name)})
        else SetPhase(s, id, Listing)
    case CallFails(id) => SetPhase(s, id, Ended)
    case Deliver(id, name) => SetPhase(s, id, Woken(s.phase[id])).(events := s.events - {(id, name)})
    case SessionLost(id) => SetPhase(s, id, Ended)
    case Delete(name) => Deleted(s, name)
    case CreateForeign(name) => s.(dir := s.dir + {name})
  }

  ghost predicate Next(prefix: string, s: State, t: State) {
    exists step :: Enabled(prefix, s, step) && t == Apply(prefix, s, step)
  }

  /** A run from the empty directory. */
  ghost predicate Run(prefix: string, run: seq<State>) {
    && |run| > 0
    && run[0] == INITIAL
    && forall i :: 0 <= i < |run| - 1 ==> Next(prefix, run[i], run[i + 1])
  }

  // ---------------------------------------------------------------------------
  // What every step keeps
  // ---------------------------------------------------------------------------

  /** The candidate's own child, while it is alive. */
  ghost predicate NodeAlive(prefix: string, s: State, id: Id) {
    id in s.node && NameOf(prefix, s.node[id]) in s.dir
  }

  /** Sequence numbers come from the counter and belong to one candidate each. */
  ghost predicate Numbered(prefix: string, s: State) {
    && s.next <= MAX_SEQUENCE + 1
    && (forall id :: id in s.node ==> s.node[id] < s.next && id in s.phase)
    && (forall a, b :: a in s.node && b in s.node && s.node[a] == s.node[b] ==> a == b)
    && (forall k: nat :: k <= MAX_SEQUENCE && NameOf(prefix, k) in s.dir ==> k < s.next)
    && (forall id :: id in s.phase && !s.phase[id].Ended? ==> id in s.node)
    && s.elected <= s.node.Keys
  }

  /** No live sequence node is smaller than `n`. */
  ghost predicate NoneBelow(prefix: string, dir: set<string>, n: nat) {
    forall k: nat :: k < n && k <= MAX_SEQUENCE ==> NameOf(prefix, k) !in dir
  }

  /** `w` is a competitor below `n`, and no live sequence node lies strictly between. */
  ghost predicate Nearest(prefix: string, dir: set<string>, n: nat, w: string) {
    && Eligible(prefix, NameOf(prefix, n), w)
    && LexLess(w, NameOf(prefix, n))
    && forall k: nat :: k < n && k <= MAX_SEQUENCE && NameOf(prefix, k) in dir ==> !LexLess(w, NameOf(prefix, k))
  }

  /** The one registration a candidate can hold: still armed on a live node, or fired. */
  ghost predicate ArmedOrFired(s: State, id: Id, name: string) {
    (name in s.dir && (id, name) in s.watches) || (id, name) in s.events
  }

  ghost predicate PhaseOk(prefix: string, s: State, id: Id)
    requires id in s.phase
  {
    match s.phase[id]
    case Listing => true
    case ProbingSelf => id in s.node && NoneBelow(prefix, s.dir, s.node[id])
    case ProbingOther(w) => id in s.node && Nearest(prefix, s.dir, s.node[id], w)
    case Waiting(w) => id in s.node && Nearest(prefix, s.dir, s.node[id], w) && ArmedOrFired(s, id, w)
    case Leading => id in s.elected && id in s.node && ArmedOrFired(s, id, NameOf(prefix, s.node[id]))
    case Ended => true
  }

  /** A registration names what its holder is parked on, or its holder is closed. */
  ghost predicate Registered(prefix: string, s: State, id: Id, name: string) {
    id in s.phase &&
    match s.phase[id]
    case Waiting(w) => w == name
    case Leading => id in s.node && name == NameOf(prefix, s.node[id])
    case Ended => true
    case _ => false
  }

  ghost predicate Registrations(prefix: string, s: State) {
    && s.watches !! s.events
    && forall w :: w in s.watches || w in s.events ==> Registered(prefix, s, w.0, w.1)
  }

  ghost predicate ElectedOk(prefix: string, s: State) {
    forall id :: id in s.elected && id in s.node ==> NoneBelow(prefix, s.dir, s.node[id])
  }

  ghost predicate Inv(prefix: string, s: State) {
    && Numbered(prefix, s)
    && (forall id :: id in s.phase ==> PhaseOk(prefix, s, id))
    && Registrations(prefix, s)
    && ElectedOk(prefix, s)
  }

  /** A fresh sequence node is above every older one, so it disturbs no claim. */
  lemma CreateDisturbsNothing(prefix: string, s: State, n: nat)
    requires Numbered(prefix, s) && s.next <= MAX_SEQUENCE && n < s.next
    ensures var dir := s.dir + {NameOf(prefix, s.next)};
      && (NoneBelow(prefix, s.dir, n) ==> NoneBelow(prefix, dir, n))
      && (forall w | Nearest(prefix, s.dir, n, w) :: Nearest(prefix, dir, n, w))
  {
    forall k: nat | k < n ensures NameOf(prefix, k) != NameOf(prefix, s.next) {
      NameOrder(prefix, k, s.next);
    }
  }

  lemma CreateKeeps(prefix: string, s: State, id: Id)
    requires Inv(prefix, s) && Enabled(prefix, s, Create(id))
    ensures Inv(prefix, Apply(prefix, s, Create(id)))
  {
    var t := Apply(prefix, s, Create(id));
    forall k: nat | k <= MAX_SEQUENCE && NameOf(prefix, k) in t.dir ensures k < t.next {
      NameOrder(prefix, k, s.next);
    }
    forall x | x in t.phase ensures PhaseOk(prefix, t, x) {
      if x != id && x in s.node {
        assert PhaseOk(prefix, s, x);
        CreateDisturbsNothing(prefix, s, s.node[x]);
      }
    }
    forall x | x in t.elected && x in t.node ensures NoneBelow(prefix, t.dir, t.node[x]) {
      assert x in s.phase && x != id;
      CreateDisturbsNothing(prefix, s, s.node[x]);
    }
  }

  /** A decision on a listing says the same about sequence numbers. */
  lemma DecisionOnNumbers(prefix: string, s: State, n: nat, d: Decision)
    requires n <= MAX_SEQUENCE && IsDecision(prefix, NameOf(prefix, n), s.dir, d)
    ensures d.Lead? ==> NoneBelow(prefix, s.dir, n)
    ensures d.Watch? ==> Nearest(prefix, s.dir, n, d.name)
    ensures d.NotFound? <==> NameOf(prefix, n) !in s.dir
  {
    SequenceNamesEligible(prefix, n, n);
    forall k: nat | k < n ensures LexLess(NameOf(prefix, k), NameOf(prefix, n))
                                  && Eligible(prefix, NameOf(prefix, n), NameOf(prefix, k)) {
      NameOrder(prefix, k, n);
      SequenceNamesEligible(prefix, n, k);
    }
  }

  lemma ListKeeps(prefix: string, s: State, id: Id, d: Decision)
    requires Inv(prefix, s) && Enabled(prefix, s, List(id, d))
    ensures Inv(prefix, Apply(prefix, s, List(id, d)))
  {
    var t := Apply(prefix, s, List(id, d));
    DecisionOnNumbers(prefix, s, s.node[id], d);
    forall x | x in t.phase ensures PhaseOk(prefix, t, x) {
      assert PhaseOk(prefix, s, x);
    }
  }

  /** A probe that finds its node arms a watch on it and parks the candidate. */
  lemma ParkKeeps(prefix: string, s: State, id: Id, name: string, t: State)
    requires Inv(prefix, s) && Enabled(prefix, s, Probe(id))
    requires name == ProbedName(prefix, s, id) && name in s.dir && t == Apply(prefix, s, Probe(id))
    ensures Inv(prefix, t)
  {
    assert PhaseOk(prefix, s, id);
    forall x | x in t.phase ensures PhaseOk(prefix, t, x) {
      assert PhaseOk(prefix, s, x);
    }
    assert (id, name) !in s.events by {
      assert !Registered(prefix, s, id, name);
    }
    forall w | w in t.watches || w in t.events ensures Registered(prefix, t, w.0, w.1) {
      if w != (id, name) {
        assert Registered(prefix, s, w.0, w.1);
      }
    }
  }

  /** A probe that misses its node ends the candidate or sends it back to listing. */
  lemma MissKeeps(prefix: string, s: State, id: Id, p: Phase)
    requires Inv(prefix, s) && Enabled(prefix, s, Probe(id)) && (p == Ended || p == Listing)
    ensures Inv(prefix, SetPhase(s, id, p))
  {
    var t := SetPhase(s, id, p);
    forall x | x in t.phase ensures PhaseOk(prefix, t, x) {
      assert PhaseOk(prefix, s, x);
    }
    forall w | w in t.watches || w in t.events ensures Registered(prefix, t, w.0, w.1) {
      assert Registered(prefix, s, w.0, w.1);
    }
  }

  lemma ProbeKeeps(prefix: string, s: State, id: Id)
    requires Inv(prefix, s) && Enabled(prefix, s, Probe(id))
    ensures Inv(prefix, Apply(prefix, s, Probe(id)))
  {
    var name := ProbedName(prefix, s, id);
    if name in s.dir {
      ParkKeeps(prefix, s, id, name, Apply(prefix, s, Probe(id)));
    } else {
      MissKeeps(prefix, s, id, if s.phase[id].ProbingSelf? then Ended else Listing);
    }
  }

  lemma DeleteKeeps(prefix: string, s: State, name: string)
    requires Inv(prefix, s) && Enabled(prefix, s, Delete(name))
    ensures Inv(prefix, Apply(prefix, s, Delete(name)))
  {
    var t := Apply(prefix, s, Delete(name));
    forall x | x in t.phase ensures PhaseOk(prefix, t, x) {
      assert PhaseOk(prefix, s, x);
    }
    forall x | x in t.elected && x in t.node ensures NoneBelow(prefix, t.dir, t.node[x]) {
      assert NoneBelow(prefix, s.dir, s.node[x]);
    }
  }

  lemma CreateForeignKeeps(prefix: string, s: State, name: string)
    requires Inv(prefix, s) && Enabled(prefix, s, CreateForeign(name))
    ensures Inv(prefix, Apply(prefix, s, CreateForeign(name)))
  {
    var t := Apply(prefix, s, CreateForeign(name));
    forall x | x in t.phase ensures PhaseOk(prefix, t, x) {
      assert PhaseOk(prefix, s, x);
    }
    forall x | x in t.elected && x in t.node ensures NoneBelow(prefix, t.dir, t.node[x]) {
      assert NoneBelow(prefix, s.dir, s.node[x]);
    }
  }

  /** Steps that only end a candidate, or send it back to listing. */
  lemma LocalStepKeeps(prefix: string, s: State, step: Step)
    requires Inv(prefix, s) && Enabled(prefix, s, step)
    requires step.CreateFails? || step.CallFails? || step.SessionLost? || step.Deliver?
    ensures Inv(prefix, Apply(prefix, s, step))
  {
    var t := Apply(prefix, s, step);
    forall x | x in t.phase ensures PhaseOk(prefix, t, x) {
      if x != step.id {
        assert PhaseOk(prefix, s, x);
      }
    }
    forall w | w in t.watches || w in t.events ensures Registered(prefix, t, w.0, w.1) {
      assert Registered(prefix, s, w.0, w.1);
      if step.Deliver? && w.0 == step.id {
        assert Registered(prefix, s, step.id, step.name);
      }
    }
  }

  lemma NextKeeps(prefix: string, s: State, t: State)
    requires Inv(prefix, s) && Next(prefix, s, t)
    ensures Inv(prefix, t)
  {
    var step :| Enabled(prefix, s, step) && t == Apply(prefix, s, step);
    match step
    case Create(id) => CreateKeeps(prefix, s, id);
    case List(id, d) => ListKeeps(prefix, s, id, d);
    case Probe(id) => ProbeKeeps(prefix, s, id);
    case Delete(name) => DeleteKeeps(prefix, s, name);
    case CreateForeign(name) => CreateForeignKeeps(prefix, s, name);
    case _ => LocalStepKeeps(prefix, s, step);
  }

  lemma {:induction false} RunKeeps(prefix: string, run: seq<State>, i: nat)
    requires Run(prefix, run) && i < |run|
    ensures Inv(prefix, run[i])
  {
    if i > 0 {
      RunKeeps(prefix, run, i - 1);
      NextKeeps(prefix, run[i - 1], run[i]);
    }
  }

  // ---------------------------------------------------------------------------
  // Safety and wake-up over every run
  // ---------------------------------------------------------------------------

  /** At most one candidate that was ever told ZOK still has its node. */
  lemma AtMostOneLiveLeader(prefix: string, run: seq<State>, i: nat, a: Id, b: Id)
    requires Run(prefix, run) && i < |run|
    requires a in run[i].elected && NodeAlive(prefix, run[i], a)
    requires b in run[i].elected && NodeAlive(prefix, run[i], b)
    ensures a == b
  {
    RunKeeps(prefix, run, i);
    var s := run[i];
    assert NoneBelow(prefix, s.dir, s.node[a]) && NoneBelow(prefix, s.dir, s.node[b]);
  }

  /** No lost wake-up: whoever is parked watches a live smaller competitor, or the
      event that wakes it is already on its way. A leader is parked on its own node. */
  lemma NoLostWakeUp(prefix: string, run: seq<State>, i: nat, id: Id)
    requires Run(prefix, run) && i < |run| && id in run[i].phase
    requires run[i].phase[id].Waiting? || run[i].phase[id].Leading?
    ensures id in run[i].node
    ensures var s := run[i]; var own := NameOf(prefix, s.node[id]);
            var w := if s.phase[id].Waiting? then s.phase[id].watched else own;
            && ((w in s.dir && (id, w) in s.watches) != ((id, w) in s.events))
            && (s.phase[id].Waiting? ==> LexLess(w, own) && Eligible(prefix, own, w))
  {
    RunKeeps(prefix, run, i);
    assert PhaseOk(prefix, run[i], id);
  }

  /** No herd: two parked candidates with live nodes never watch the same node. */
  lemma NoHerd(prefix: string, run: seq<State>, i: nat, a: Id, b: Id)
    requires Run(prefix, run) && i < |run| && a in run[i].phase && b in run[i].phase
    requires run[i].phase[a].Waiting? && NodeAlive(prefix, run[i], a)
    requires run[i].phase[b].Waiting? && NodeAlive(prefix, run[i], b)
    requires run[i].phase[a].watched == run[i].phase[b].watched
    ensures a == b
  {
    RunKeeps(prefix, run, i);
    var s := run[i];
    assert PhaseOk(prefix, s, a) && PhaseOk(prefix, s, b);
    NameOrder(prefix, s.node[a], s.node[b]);
  }

  /** The candidate's node is alive and the smallest of all live competitors. */
  ghost predicate Smallest(prefix: string, s: State, id: Id) {
    && NodeAlive(prefix, s, id)
    && forall c :: c in s.dir && Eligible(prefix, NameOf(prefix, s.node[id]), c)
                   ==> !LexLess(c, NameOf(prefix, s.node[id]))
  }

  /** Once all events have drained, the smallest live candidate is never
      left waiting: it leads, has failed, or has a call under way. */
  lemma DrainedSmallestLeads(prefix: string, run: seq<State>, i: nat, id: Id)
    requires Run(prefix, run) && i < |run| && id in run[i].phase
    requires run[i].events == {} && Smallest(prefix, run[i], id)
    ensures !run[i].phase[id].Waiting?
  {
    RunKeeps(prefix, run, i);
    assert PhaseOk(prefix, run[i], id);
  }

  /** Steps of its own that a candidate still has to take before it leads. */
  function Distance(p: Phase): nat {
    match p
    case Waiting(_) => 3
    case ProbingOther(_) => 3
    case Listing => 2
    case ProbingSelf => 1
    case _ => 0
  }

  /** A call of the candidate's own that does not fail. */
  predicate OwnStep(step: Step, id: Id) {
    (step.List? || step.Probe? || step.Deliver?) && step.id == id
  }

  ghost predicate Unsettled(s: State, id: Id) {
    id in s.phase && !s.phase[id].Leading? && !s.phase[id].Ended?
  }

  lemma OwnStepAdvances(prefix: string, s: State, id: Id, step: Step)
    requires Inv(prefix, s) && Unsettled(s, id) && Smallest(prefix, s, id)
    requires OwnStep(step, id) && Enabled(prefix, s, step)
    ensures var t := Apply(prefix, s, step);
            Smallest(prefix, t, id) && !t.phase[id].Ended? && Distance(t.phase[id]) < Distance(s.phase[id])
  {
    assert PhaseOk(prefix, s, id);
    if step.Deliver? {
      assert Registered(prefix, s, id, step.name);
    } else if step.List? {
      var own := NameOf(prefix, s.node[id]);
      SequenceNamesEligible(prefix, s.node[id], s.node[id]);
      DecisionUnique(prefix, own, s.dir, step.decision, Lead);
    }
  }

  lemma OwnStepExists(prefix: string, s: State, id: Id) returns (step: Step)
    requires Inv(prefix, s) && Unsettled(s, id) && Smallest(prefix, s, id)
    ensures OwnStep(step, id) && Enabled(prefix, s, step)
  {
    assert PhaseOk(prefix, s, id);
    if s.phase[id].Waiting? {
      step := Deliver(id, s.phase[id].watched);
    } else if s.phase[id].Listing? {
      SequenceNamesEligible(prefix, s.node[id], s.node[id]);
      step := List(id, Lead);
    } else {
      step := Probe(id);
    }
  }

  /** Progress: the smallest live candidate can always move, and every call of its
      own that does not fail brings it strictly closer to leading. */
  lemma SmallestAdvances(prefix: string, run: seq<State>, i: nat, id: Id)
    requires Run(prefix, run) && i < |run|
    requires Unsettled(run[i], id) && Smallest(prefix, run[i], id)
    ensures exists step :: OwnStep(step, id) && Enabled(prefix, run[i], step)
    ensures forall step :: OwnStep(step, id) && Enabled(prefix, run[i], step) ==>
              var t := Apply(prefix, run[i], step);
              Smallest(prefix, t, id) && !t.phase[id].Ended? && Distance(t.phase[id]) < Distance(run[i].phase[id])
  {
    RunKeeps(prefix, run, i);
    var own := OwnStepExists(prefix, run[i], id);
    forall step | OwnStep(step, id) && Enabled(prefix, run[i], step)
      ensures var t := Apply(prefix, run[i], step);
              Smallest(prefix, t, id) && !t.phase[id].Ended? && Distance(t.phase[id]) < Distance(run[i].phase[id])
    {
      OwnStepAdvances(prefix, run[i], id, step);
    }
  }

  // ---------------------------------------------------------------------------
  // Who is told what
  // ---------------------------------------------------------------------------

  ghost predicate HasEnded(s: State, id: Id) {
    id in s.phase && s.phase[id].Ended?
  }

  /** What ends a candidate: a failed call, a lost session, its own node gone from a listing or
      from its probe, or, for a leader, the news that its node is gone. */
  ghost predicate Ends(prefix: string, s: State, step: Step, id: Id) {
    match step
    case CreateFails(x) => x == id
    case CallFails(x) => x == id
    case SessionLost(x) => x == id
    case List(x, _) => x == id && !NodeAlive(prefix, s, id)
    case Probe(x) => x == id && id in s.phase && s.phase[id].ProbingSelf? && !NodeAlive(prefix, s, id)
    case Deliver(x, _) => x == id && id in s.phase && s.phase[id].Leading?
    case _ => false
  }

  /** A candidate ends exactly by one of these. */
  lemma EndsExactlyWhen(prefix: string, s: State, step: Step, id: Id)
    requires Inv(prefix, s) && Enabled(prefix, s, step) && !HasEnded(s, id)
    ensures HasEnded(Apply(prefix, s, step), id) <==> Ends(prefix, s, step, id)
  {
    if step.List? && step.id == id {
      DecisionOnNumbers(prefix, s, s.node[id], step.decision);
    }
  }

  /** A candidate is told ZOK exactly when it watches its own live node as the smallest one. */
  lemma ElectedExactlyWhen(prefix: string, s: State, step: Step, id: Id)
    requires Inv(prefix, s) && Enabled(prefix, s, step) && id !in s.elected
    ensures id in Apply(prefix, s, step).elected <==>
            step == Probe(id) && s.phase[id].ProbingSelf? && NodeAlive(prefix, s, id)
  {
  }

  /** Nothing is taken back: ended candidates stay ended, and elected ones stay elected. */
  lemma StepForgetsNothing(prefix: string, s: State, step: Step)
    requires Inv(prefix, s) && Enabled(prefix, s, step)
    ensures var t := Apply(prefix, s, step);
            s.elected <= t.elected && forall id :: HasEnded(s, id) ==> HasEnded(t, id)
  {
  }

  lemma {:induction false} RunForgetsNothing(prefix: string, run: seq<State>, i: nat, j: nat, id: Id)
    requires Run(prefix, run) && i <= j < |run|
    ensures HasEnded(run[i], id) ==> HasEnded(run[j], id)
    ensures id in run[i].elected ==> id in run[j].elected
    decreases j - i
  {
    if i < j {
      RunKeeps(prefix, run, i);
      assert Next(prefix, run[i], run[i + 1]);
      var step :| Enabled(prefix, run[i], step) && run[i + 1] == Apply(prefix, run[i], step);
      StepForgetsNothing(prefix, run[i], step);
      RunForgetsNothing(prefix, run, i + 1, j, id);
    }
  }

  /** Whoever ends without having been elected is never told ZOK. */
  lemma {:induction false} EndedNeverLeads(prefix: string, run: seq<State>, i: nat, j: nat, id: Id)
    requires Run(prefix, run) && i <= j < |run| && HasEnded(run[i], id) && id !in run[i].elected
    ensures id !in run[j].elected
    decreases j - i
  {
    if i < j {
      RunKeeps(prefix, run, i);
      assert Next(prefix, run[i], run[i + 1]);
      var step :| Enabled(prefix, run[i], step) && run[i + 1] == Apply(prefix, run[i], step);
      StepForgetsNothing(prefix, run[i], step);
      ElectedExactlyWhen(prefix, run[i], step, id);
      EndedNeverLeads(prefix, run, i + 1, j, id);
    }
  }

  /** Trouble can come at any time: a call about to be made may fail, a session may be lost, a
      node may go away, and others may add children. */
  lemma TroubleAlwaysPossible(prefix: string, s: State, id: Id, name: string)
    ensures id in s.phase ==> Enabled(prefix, s, SessionLost(id))
    ensures id in s.phase && (s.phase[id].Listing? || s.phase[id].ProbingSelf? || s.phase[id].ProbingOther?) ==>
            Enabled(prefix, s, CallFails(id))
    ensures if name in s.dir then Enabled(prefix, s, Delete(name)) && name !in Apply(prefix, s, Delete(name)).dir
            else Foreign(prefix, name) ==> Enabled(prefix, s, CreateForeign(name)) && name in Apply(prefix, s, CreateForeign(name)).dir
  {
  }
}
