/**
  The life of session objects on one event loop: the acceptor allocates and registers, the
  loop thread processes event batches, wake-ups and timeouts, and deletes in a deferred pass.
  Addresses are reused as an allocator would.
*/
module SessionLifetime {
  import opened Basics

  type Ptr = nat

  /** Where the loop thread is in SessionsEventLoop::loop. */
  datatype Phase =
    | Waiting
    | Batch(todo: seq<Ptr>, wokeup: bool)      // events still to process
    | Timers(todo: seq<Ptr>, woken: set<Ptr>)  // the snapshot still to visit; any addresses to wake up
    | Deleting(todo: seq<Ptr>)                 // deferred objects still to delete

  /** deleteLater(p) in progress: erased from m_sessions, or about to enter m_deleteLaterObjects. */
  datatype Drop = ToDecrement(p: Ptr) | ToMark(p: Ptr)

  /** The acceptor: a session is constructed, then inserted and added to epoll, then counted. */
  datatype Acceptor = Idle | Constructed(p: Ptr) | Inserted

  datatype State = State(
    alive: set<Ptr>,        // objects allocated and not deleted
    sessions: set<Ptr>,     // m_sessions
    polled: set<Ptr>,       // registered with epoll
    deleteLater: set<Ptr>,  // m_deleteLaterObjects
    active: int,            // m_activeSessions before truncation to 32 bits
    phase: Phase,
    drop: Option<Drop>,
    acceptor: Acceptor)

  datatype Step =
    | Wait(events: seq<Ptr>, wokeup: bool)
    | DropHead                  // the session being visited calls deleteLater(this)
    | Unlist                    // epoll removal and decrement
    | Mark                      // insertion into m_deleteLaterObjects
    | NextEvent
    | Snapshot(order: seq<Ptr>, values: set<Ptr>)
    | WakeHead                  // the session being visited is among those to wake up
    | NextTimer
    | BeginDelete(order: seq<Ptr>)
    | DeleteOne
    | EndDelete
    | Allocate(p: Ptr)
    | Discard                   // the constructor threw after the base was built
    | Register
    | Count

  function Elements(s: seq<Ptr>): set<Ptr> {
    set p | p in s
  }

  ghost predicate Enumerates(order: seq<Ptr>, objects: set<Ptr>) {
    Elements(order) == objects && forall i, j :: 0 <= i < j < |order| ==> order[i] != order[j]
  }

  predicate Visiting(s: State) {
    (s.phase.Batch? || s.phase.Timers?) && s.phase.todo != [] && s.drop.None?
  }

  ghost predicate Enabled(s: State, step: Step) {
    match step
    case Wait(events, _) => s.phase.Waiting? && Elements(events) <= s.polled
    case DropHead => Visiting(s)
    case Unlist => s.drop.Some? && s.drop.value.ToDecrement?
    case Mark => s.drop.Some? && s.drop.value.ToMark?
    case NextEvent => Visiting(s) && s.phase.Batch?
    case Snapshot(order, values) =>
      s.phase.Batch? && s.phase.todo == [] && s.drop.None? && Enumerates(order, s.sessions) && (values != {} ==> s.phase.wokeup)
    case WakeHead => Visiting(s) && s.phase.Timers? && s.phase.todo[0] in s.phase.woken
    case NextTimer => Visiting(s) && s.phase.Timers?
    case BeginDelete(order) =>
      s.phase.Timers? && s.phase.todo == [] && s.drop.None? && Enumerates(order, s.deleteLater)
    case DeleteOne => s.phase.Deleting? && s.phase.todo != []
    case EndDelete => s.phase.Deleting? && s.phase.todo == []
    case Allocate(p) => s.acceptor.Idle? && p !in s.alive
    case Discard => s.acceptor.Constructed?
    case Register => s.acceptor.Constructed?
    case Count => s.acceptor.Inserted?
  }

  /** The objects a step dereferences. */
  function Derefs(s: State, step: Step): set<Ptr> {
    match step
    case DropHead => if Visiting(s) then {s.phase.todo[0]} else {}
    case NextEvent => if Visiting(s) then {s.phase.todo[0]} else {}
    case WakeHead => if Visiting(s) then {s.phase.todo[0]} else {}
    case NextTimer => if Visiting(s) then {s.phase.todo[0]} else {}
    case Unlist => if s.drop.Some? then {s.drop.value.p} else {}
    case DeleteOne => if s.phase.Deleting? && s.phase.todo != [] then {s.phase.todo[0]} else {}
    case Discard => if s.acceptor.Constructed? then {s.acceptor.p} else {}
    case Register => if s.acceptor.Constructed? then {s.acceptor.p} else {}
    case _ => {}
  }

  function Next(s: State, step: Step): State
    requires Enabled(s, step)
  {
    match step
    case Wait(events, wokeup) => s.(phase := Batch(events, wokeup))
    case DropHead =>
      var p := s.phase.todo[0];
      if p in s.sessions then s.(sessions := s.sessions - {p}, drop := Some(ToDecrement(p)))
      else s.(drop := Some(ToMark(p)))
    case Unlist =>
      var p := s.drop.value.p;
      s.(polled := s.polled - {p}, active := s.active - 1, drop := Some(ToMark(p)))
    case Mark => s.(deleteLater := s.deleteLater + {s.drop.value.p}, drop := None)
    case NextEvent => s.(phase := Batch(s.phase.todo[1..], s.phase.wokeup))
    case Snapshot(order, values) => s.(phase := Timers(order, values))
    case WakeHead => s.(phase := Timers(s.phase.todo, s.phase.woken - {s.phase.todo[0]}))
    case NextTimer => s.(phase := Timers(s.phase.todo[1..], s.phase.woken))
    case BeginDelete(order) => s.(phase := Deleting(order))
    case DeleteOne => s.(alive := s.alive - {s.phase.todo[0]}, phase := Deleting(s.phase.todo[1..]))
    case EndDelete => s.(deleteLater := {}, phase := Waiting)
    case Allocate(p) => s.(alive := s.alive + {p}, acceptor := Constructed(p))
    case Discard => s.(alive := s.alive - {s.acceptor.p}, acceptor := Idle)
    case Register =>
      s.(sessions := s.sessions + {s.acceptor.p}, polled := s.polled + {s.acceptor.p}, acceptor := Inserted)
    case Count => s.(active := s.active + 1, acceptor := Idle)
  }

  // ------------------------------------------------- the invariant

  /** Objects waiting for their deletion. */
  ghost function Doomed(s: State): set<Ptr> {
    if s.phase.Deleting? then Elements(s.phase.todo) else s.deleteLater
  }

  ghost function Dropping(s: State): set<Ptr> {
    if s.drop.Some? then {s.drop.value.p} else {}
  }

  ghost function Constructing(s: State): set<Ptr> {
    if s.acceptor.Constructed? then {s.acceptor.p} else {}
  }

  /** Every live object is registered, doomed, on its way from one to the other, or being constructed. */
  ghost predicate Accounted(s: State) {
    && s.alive == s.sessions + Doomed(s) + Dropping(s) + Constructing(s)
    && s.sessions !! Doomed(s) + Dropping(s) + Constructing(s)
    && Constructing(s) !! Doomed(s) + Dropping(s)
  }

  /** Whoever is visited is among the objects no other thread can free. */
  ghost predicate VisitsOk(s: State) {
    && (s.phase.Batch? || s.phase.Timers? ==> Elements(s.phase.todo) <= s.sessions + Doomed(s) + Dropping(s))
    && (s.phase.Deleting? ==> forall i, j :: 0 <= i < j < |s.phase.todo| ==> s.phase.todo[i] != s.phase.todo[j])
    && (s.drop.Some? ==> s.phase.Batch? || s.phase.Timers?)
    && (s.polled == s.sessions + (if s.drop.Some? && s.drop.value.ToDecrement? then Dropping(s) else {}))
  }

  function InFlight(s: State): int {
    (if s.drop.Some? && s.drop.value.ToDecrement? then 1 else 0) - (if s.acceptor.Inserted? then 1 else 0)
  }

  /** The counter is the registered count corrected by the steps in flight. */
  ghost predicate Counted(s: State) {
    s.active == |s.sessions| + InFlight(s)
  }

  ghost predicate Inv(s: State) {
    Accounted(s) && VisitsOk(s) && Counted(s)
  }

  ghost predicate Safe(s: State, step: Step) {
    && Derefs(s, step) <= s.alive
    && (step.DeleteOne? && Enabled(s, step) ==> s.phase.todo[0] !in s.sessions)
  }

  /** No step touches an object that has been deleted, and none deletes a registered one. */
  lemma StepIsSafe(s: State, step: Step)
    requires Inv(s) && Enabled(s, step)
    ensures Safe(s, step)
  {
    if Visiting(s) {
      assert s.phase.todo[0] in Elements(s.phase.todo);
    }
    if step.DeleteOne? {
      assert s.phase.todo[0] in Elements(s.phase.todo);
    }
  }

  lemma ElementsOfTail(s: seq<Ptr>)
    requires s != []
    ensures Elements(s) == Elements(s[1..]) + {s[0]}
    ensures (forall i, j :: 0 <= i < j < |s| ==> s[i] != s[j]) ==> s[0] !in Elements(s[1..])
  {
    assert s == [s[0]] + s[1..];
  }

  predicate VisitStep(step: Step) {
    step.DropHead? || step.Unlist? || step.Mark? || step.NextEvent? || step.WakeHead? || step.NextTimer?
  }

  predicate TurnStep(step: Step) {
    step.Wait? || step.Snapshot? || step.BeginDelete? || step.DeleteOne? || step.EndDelete?
  }

  predicate AcceptorStep(step: Step) {
    step.Allocate? || step.Discard? || step.Register? || step.Count?
  }

  lemma VisitKeepsAccounted(s: State, step: Step)
    requires Accounted(s) && VisitsOk(s) && Enabled(s, step) && VisitStep(step)
    ensures Accounted(Next(s, step))
  {
    if Visiting(s) {
      ElementsOfTail(s.phase.todo);
    }
  }

  lemma TurnKeepsAccounted(s: State, step: Step)
    requires Accounted(s) && VisitsOk(s) && Enabled(s, step) && TurnStep(step)
    ensures Accounted(Next(s, step))
  {
    if step.DeleteOne? {
      ElementsOfTail(s.phase.todo);
    }
  }

  lemma AcceptorKeepsAccounted(s: State, step: Step)
    requires Accounted(s) && VisitsOk(s) && Enabled(s, step) && AcceptorStep(step)
    ensures Accounted(Next(s, step))
  {
  }

  lemma VisitKeepsVisits(s: State, step: Step)
    requires Accounted(s) && VisitsOk(s) && Enabled(s, step) && VisitStep(step)
    ensures VisitsOk(Next(s, step))
  {
    if Visiting(s) {
      ElementsOfTail(s.phase.todo);
    }
  }

  lemma AcceptorKeepsVisits(s: State, step: Step)
    requires Accounted(s) && VisitsOk(s) && Enabled(s, step) && AcceptorStep(step)
    ensures VisitsOk(Next(s, step))
  {
  }

  lemma StepKeepsCounted(s: State, step: Step)
    requires Counted(s) && Enabled(s, step)
    requires s.acceptor.Constructed? ==> s.acceptor.p !in s.sessions
    ensures Counted(Next(s, step))
  {
  }

  lemma StepKeepsInv(s: State, step: Step)
    requires Inv(s) && Enabled(s, step)
    ensures Inv(Next(s, step))
  {
    if VisitStep(step) {
      VisitKeepsAccounted(s, step);
      VisitKeepsVisits(s, step);
    } else if TurnStep(step) {
      TurnKeepsAccounted(s, step);
    } else {
      AcceptorKeepsAccounted(s, step);
      AcceptorKeepsVisits(s, step);
    }
    StepKeepsCounted(s, step);
  }

  // ------------------------------------------------- runs

  function Initial(): State {
    State({}, {}, {}, {}, 0, Waiting, None, Idle)
  }

  ghost predicate Leads(s: State, step: Step, t: State) {
    Enabled(s, step) && t == Next(s, step)
  }

  ghost predicate IsRun(states: seq<State>, steps: seq<Step>) {
    && |states| == |steps| + 1 && states[0] == Initial()
    && forall i :: 0 <= i < |steps| ==> Leads(states[i], steps[i], states[i + 1])
  }

  lemma LeadsToInv(s: State, step: Step, t: State)
    requires Inv(s) && Leads(s, step, t)
    ensures Inv(t)
  {
    StepKeepsInv(s, step);
  }

  lemma {:induction false} RunKeepsInv(states: seq<State>, steps: seq<Step>, n: nat)
    requires IsRun(states, steps) && n < |states|
    ensures Inv(states[n])
  {
    if n > 0 {
      var m := n - 1;
      RunKeepsInv(states, steps, m);
      LeadsToInv(states[m], steps[m], states[m + 1]);
    }
  }

  /**
    In every interleaving: no step dereferences a deleted session, no session is deleted
    twice or while registered, every live object is accounted for, and the counter is exact
    once the steps in flight are added.
  */
  lemma RunIsSafe(states: seq<State>, steps: seq<Step>, n: nat)
    requires IsRun(states, steps) && n < |states|
    ensures Inv(states[n])
    ensures n < |steps| ==> Safe(states[n], steps[n])
  {
    RunKeepsInv(states, steps, n);
    if n < |steps| {
      assert Leads(states[n], steps[n], states[n + 1]);
      StepIsSafe(states[n], steps[n]);
    }
  }

  /**
    m_sessions and m_deleteLaterObjects are disjoint outside the delete pass; inside it they
    can share only addresses whose old object has already been deleted.
  */
  lemma DisjointUnlessReused(states: seq<State>, steps: seq<Step>, n: nat)
    requires IsRun(states, steps) && n < |states|
    ensures var s := states[n];
            && (!s.phase.Deleting? ==> s.sessions !! s.deleteLater)
            && (s.phase.Deleting? ==> s.sessions !! Elements(s.phase.todo))
  {
    RunIsSafe(states, steps, n);
  }

  /** A session with the address of an object deleted earlier in the same pass is registered. */
  predicate Reuses(s: State, step: Step) {
    step.Register? && s.phase.Deleting? && s.acceptor.Constructed? && s.acceptor.p in s.deleteLater
  }

  lemma {:induction false} DisjointUpTo(states: seq<State>, steps: seq<Step>, n: nat)
    requires IsRun(states, steps) && n < |states|
    requires forall i :: 0 <= i < n ==> !Reuses(states[i], steps[i])
    ensures states[n].sessions !! states[n].deleteLater
  {
    if n > 0 {
      var m := n - 1;
      DisjointUpTo(states, steps, m);
      RunKeepsInv(states, steps, m);
      assert Leads(states[m], steps[m], states[m + 1]);
    }
  }

  /** Exactly the runs that reuse no address during a delete pass keep the two sets disjoint throughout. */
  lemma DisjointIff(states: seq<State>, steps: seq<Step>)
    requires IsRun(states, steps)
    ensures (forall n :: 0 <= n < |states| ==> states[n].sessions !! states[n].deleteLater) <==>
            (forall i :: 0 <= i < |steps| ==> !Reuses(states[i], steps[i]))
  {
    if forall i :: 0 <= i < |steps| ==> !Reuses(states[i], steps[i]) {
      forall n | 0 <= n < |states|
        ensures states[n].sessions !! states[n].deleteLater
      {
        DisjointUpTo(states, steps, n);
      }
    } else {
      var i :| 0 <= i < |steps| && Reuses(states[i], steps[i]);
      assert Leads(states[i], steps[i], states[i + 1]);
      assert states[i].acceptor.p in states[i + 1].sessions && states[i].acceptor.p in states[i + 1].deleteLater;
    }
  }

  lemma RunGoesOn(states: seq<State>, steps: seq<Step>, step: Step, t: State)
    requires IsRun(states, steps) && Leads(states[|steps|], step, t)
    ensures IsRun(states + [t], steps + [step])
  {
    forall i | 0 <= i < |steps + [step]|
      ensures Leads((states + [t])[i], (steps + [step])[i], (states + [t])[i + 1])
    {
      if i < |steps| {
        assert Leads(states[i], steps[i], states[i + 1]);
      }
    }
  }

  lemma Singletons(p: Ptr)
    ensures {} + {p} == {p} && {p} - {p} == {} && [p][1..] == []
    ensures Elements([p]) == {p} && Elements([]) == {}
  {
  }

  /** One session with the address p is accepted, has an event, and drops itself. */
  lemma ReachDeletion(p: Ptr) returns (states: seq<State>, steps: seq<Step>)
    ensures IsRun(states, steps)
    ensures states[|steps|] == State({p}, {}, {}, {p}, 0, Deleting([p]), None, Idle)
  {
    var one := {p};
    var lives := State(one, one, one, {}, 1, Waiting, None, Idle);
    var visited := lives.(phase := Batch([p], false));
    var dropped := State(one, {}, {}, one, 0, Batch([p], false), None, Idle);
    Singletons(p);
    states, steps := [Initial()], [];
    var path := [
      (Allocate(p), State(one, {}, {}, {}, 0, Waiting, None, Constructed(p))),
      (Register, State(one, one, one, {}, 0, Waiting, None, Inserted)),
      (Count, lives),
      (Wait([p], false), visited),
      (DropHead, visited.(sessions := {}, drop := Some(ToDecrement(p)))),
      (Unlist, State(one, {}, {}, {}, 0, Batch([p], false), Some(ToMark(p)), Idle)),
      (Mark, dropped),
      (NextEvent, dropped.(phase := Batch([], false))),
      (Snapshot([], {}), dropped.(phase := Timers([], {}))),
      (BeginDelete([p]), dropped.(phase := Deleting([p])))];
    for i := 0 to |path|
      invariant IsRun(states, steps) && states[|steps|] == if i == 0 then Initial() else path[i - 1].1
    {
      RunGoesOn(states, steps, path[i].0, path[i].1);
      states, steps := states + [path[i].1], steps + [path[i].0];
    }
  }

  /** And then they do share it: the allocator hands the freed address to the next session. */
  lemma ReusedAddressIsInBoth(p: Ptr) returns (states: seq<State>, steps: seq<Step>)
    ensures IsRun(states, steps)
    ensures p in states[|steps|].sessions && p in states[|steps|].deleteLater
  {
    Singletons(p);
    states, steps := ReachDeletion(p);
    var freed := State({}, {}, {}, {p}, 0, Deleting([]), None, Idle);
    var reused := freed.(alive := {p}, acceptor := Constructed(p));
    var both := State({p}, {p}, {p}, {p}, 0, Deleting([]), None, Inserted);
    RunGoesOn(states, steps, DeleteOne, freed);
    states, steps := states + [freed], steps + [DeleteOne];
    RunGoesOn(states, steps, Allocate(p), reused);
    states, steps := states + [reused], steps + [Allocate(p)];
    RunGoesOn(states, steps, Register, both);
    states, steps := states + [both], steps + [Register];
  }

  /** The 32-bit counter: what the atomic increments and decrements leave of the exact one. */
  function Counter32(active: int): nat {
    active % 0x1_0000_0000
  }

  lemma Counter32Moves(active: int, d: int)
    ensures Counter32(Counter32(active) + d) == Counter32(active + d)
  {
    var q := active / 0x1_0000_0000;
    assert Counter32(active) + d == active + d - 0x1_0000_0000 * q;
  }

  /** So in a quiet moment the 32-bit counter is the number of registered sessions. */
  lemma QuietCounterIsExact(states: seq<State>, steps: seq<Step>, n: nat)
    requires IsRun(states, steps) && n < |states|
    requires states[n].drop.None? && !states[n].acceptor.Inserted? && |states[n].sessions| < 0x1_0000_0000
    ensures Counter32(states[n].active) == |states[n].sessions|
  {
    RunIsSafe(states, steps, n);
  }
}
