/**
  The per-address connection count: the acceptor admits and counts, the session destructor
  releases, in every interleaving of their critical sections.
*/
module Connections {
  import opened Basics

  type Addr = string
  type Id = nat

  const UINT32: nat := 0x1_0000_0000

  // ------------------------------------------------- the critical sections

  type Counts = map<Addr, nat>

  function CountOf(counts: Counts, a: Addr): nat {
    if a in counts then counts[a] else 0
  }

  class Server {
    const maxConnectionsPerIp: nat
    var connectionsPerIp: Counts

    constructor (max: nat)
      ensures maxConnectionsPerIp == max && connectionsPerIp == map[]
    {
      maxConnectionsPerIp := max;
      connectionsPerIp := map[];
    }

    /** The lookup through operator[], which inserts a zero for an unknown address. */
    method Lookup(a: Addr) returns (n: nat)
      modifies this
      ensures n == CountOf(old(connectionsPerIp), a)
      ensures connectionsPerIp == old(connectionsPerIp)[a := n]
    {
      if a !in connectionsPerIp {
        connectionsPerIp := connectionsPerIp[a := 0];
      }
      n := connectionsPerIp[a];
      assert connectionsPerIp == old(connectionsPerIp)[a := n];
    }

    /** The acceptor's critical section: the order of the new session, or None when it is turned away. */
    method Admit(a: Addr) returns (order: Option<nat>)
      modifies this
      ensures order == Admission(old(connectionsPerIp), maxConnectionsPerIp, a)
      ensures connectionsPerIp == Admitted(old(connectionsPerIp), maxConnectionsPerIp, a)
    {
      var n := Lookup(a);
      if n > maxConnectionsPerIp {
        return None;
      }
      order := Some(n);
      connectionsPerIp := connectionsPerIp[a := (n + 1) % UINT32];
    }

    /** The destructor's critical section. */
    method Release(a: Addr)
      requires a in connectionsPerIp
      modifies this
      ensures connectionsPerIp == Released(old(connectionsPerIp), a)
    {
      var n := (connectionsPerIp[a] + UINT32 - 1) % UINT32;
      connectionsPerIp := connectionsPerIp[a := n];
      if n == 0 {
        connectionsPerIp := connectionsPerIp - {a};
      }
      assert connectionsPerIp == Released(old(connectionsPerIp), a);
    }
  }

  function Admission(counts: Counts, max: nat, a: Addr): Option<nat> {
    if CountOf(counts, a) > max then None else Some(CountOf(counts, a))
  }

  function Admitted(counts: Counts, max: nat, a: Addr): Counts {
    counts[a := if CountOf(counts, a) > max then CountOf(counts, a) else (CountOf(counts, a) + 1) % UINT32]
  }

  function Released(counts: Counts, a: Addr): Counts
    requires a in counts
  {
    var n := (counts[a] + UINT32 - 1) % UINT32;
    if n == 0 then counts - {a} else counts[a := n]
  }

  // ------------------------------------------------- the step system

  /** A constructed session; `dying` once its destructor has left m_activeSessions. */
  datatype Session = Session(addr: Addr, order: nat, dying: bool)

  /** `accepting` is the connection admitted but not yet a session. */
  datatype State = State(counts: Counts, accepting: Option<(Addr, nat)>, sessions: map<Id, Session>)

  /**
    Arrive: the acceptor's critical section for a new connection. Construct: the base
    constructor ran. Forget, Forgotten: the two critical sections of the base destructor,
    whether it runs because the rest of the construction threw or because a loop deletes.
  */
  datatype Step = Arrive(addr: Addr) | Construct(id: Id) | Forget(id: Id) | Forgotten(id: Id)

  predicate Enabled(s: State, step: Step) {
    match step
    case Arrive(_) => s.accepting.None?
    case Construct(id) => s.accepting.Some? && id !in s.sessions
    case Forget(id) => id in s.sessions && !s.sessions[id].dying
    case Forgotten(id) => id in s.sessions && s.sessions[id].dying
  }

  /** The assertion in serverSessionDeleted, where the step has one. */
  predicate AssertHolds(s: State, step: Step)
    requires Enabled(s, step)
  {
    step.Forgotten? ==> s.sessions[step.id].addr in s.counts
  }

  function Next(s: State, step: Step, max: nat): State
    requires Enabled(s, step) && AssertHolds(s, step)
  {
    match step
    case Arrive(a) =>
      var admission := Admission(s.counts, max, a);
      State(Admitted(s.counts, max, a),
            if admission.None? then None else Some((a, admission.value)),
            s.sessions)
    case Construct(id) =>
      State(s.counts, None, s.sessions[id := Session(s.accepting.value.0, s.accepting.value.1, false)])
    case Forget(id) => s.(sessions := s.sessions[id := s.sessions[id].(dying := true)])
    case Forgotten(id) => s.(counts := Released(s.counts, s.sessions[id].addr), sessions := s.sessions - {id})
  }

  ghost function SessionsOf(sessions: map<Id, Session>, a: Addr): set<Id> {
    set id | id in sessions && sessions[id].addr == a
  }

  /** Sessions of the address, plus the accept in progress for it. */
  ghost function Held(s: State, a: Addr): nat {
    |SessionsOf(s.sessions, a)| + (if s.accepting.Some? && s.accepting.value.0 == a then 1 else 0)
  }

  /** Every count is exact, none is zero, none exceeds max + 1, and every order is at most max. */
  ghost predicate Inv(s: State, max: nat) {
    && (forall a: Addr :: CountOf(s.counts, a) == Held(s, a) <= max + 1)
    && (forall a :: a in s.counts ==> s.counts[a] > 0)
    && (s.accepting.Some? ==> s.accepting.value.1 <= max)
    && (forall id :: id in s.sessions ==> s.sessions[id].order <= max)
  }

  lemma SessionsOfAdded(sessions: map<Id, Session>, id: Id, x: Session)
    requires id !in sessions
    ensures forall a: Addr :: |SessionsOf(sessions[id := x], a)| == |SessionsOf(sessions, a)| + (if x.addr == a then 1 else 0)
  {
    forall a: Addr
      ensures SessionsOf(sessions[id := x], a) == SessionsOf(sessions, a) + (if x.addr == a then {id} else {})
    {
    }
  }

  lemma SessionsOfRemoved(sessions: map<Id, Session>, id: Id)
    requires id in sessions
    ensures forall a: Addr :: |SessionsOf(sessions, a)| == |SessionsOf(sessions - {id}, a)| + (if sessions[id].addr == a then 1 else 0)
  {
    SessionsOfAdded(sessions - {id}, id, sessions[id]);
    assert (sessions - {id})[id := sessions[id]] == sessions;
  }

  lemma SessionsOfMarked(sessions: map<Id, Session>, id: Id)
    requires id in sessions
    ensures forall a: Addr :: SessionsOf(sessions[id := sessions[id].(dying := true)], a) == SessionsOf(sessions, a)
  {
  }

  /** The destructor finds the entry it asserts to be there. */
  lemma AssertNeverFails(s: State, step: Step, max: nat)
    requires Inv(s, max) && Enabled(s, step)
    ensures AssertHolds(s, step)
  {
    if step.Forgotten? {
      var a := s.sessions[step.id].addr;
      assert step.id in SessionsOf(s.sessions, a);
      assert CountOf(s.counts, a) > 0;
    }
  }

  lemma ForgottenKeepsInv(s: State, id: Id, max: nat)
    requires max + 1 < UINT32 && Inv(s, max) && Enabled(s, Forgotten(id)) && AssertHolds(s, Forgotten(id))
    ensures Inv(Next(s, Forgotten(id), max), max)
  {
    var a, t := s.sessions[id].addr, Next(s, Forgotten(id), max);
    SessionsOfRemoved(s.sessions, id);
    assert CountOf(s.counts, a) == Held(s, a);
    forall b: Addr
      ensures CountOf(t.counts, b) == Held(t, b) <= max + 1
    {
      assert CountOf(s.counts, b) == Held(s, b);
    }
  }

  lemma StepKeepsInv(s: State, step: Step, max: nat)
    requires max + 1 < UINT32 && Inv(s, max) && Enabled(s, step) && AssertHolds(s, step)
    ensures Inv(Next(s, step, max), max)
  {
    match step
    case Arrive(a) =>
    case Construct(id) =>
      SessionsOfAdded(s.sessions, id, Session(s.accepting.value.0, s.accepting.value.1, false));
    case Forget(id) => SessionsOfMarked(s.sessions, id);
    case Forgotten(id) => ForgottenKeepsInv(s, id, max);
  }

  /** A run of the whole server; steps that are not enabled do not happen. */
  ghost predicate IsRun(states: seq<State>, steps: seq<Step>, max: nat) {
    && |states| == |steps| + 1
    && states[0] == State(map[], None, map[])
    && forall i :: 0 <= i < |steps| ==>
         Enabled(states[i], steps[i]) && (AssertHolds(states[i], steps[i]) ==> states[i + 1] == Next(states[i], steps[i], max))
  }

  /** In every run, in every state: exact counts, no zero entry, the bounds, and no failing assertion. */
  lemma {:induction false} RunIsSafe(states: seq<State>, steps: seq<Step>, max: nat, n: nat)
    requires max + 1 < UINT32 && IsRun(states, steps, max) && n < |states|
    ensures Inv(states[n], max)
    ensures n < |steps| ==> AssertHolds(states[n], steps[n])
  {
    if n == 0 {
      assert forall a: Addr :: SessionsOf(map[], a) == {};
    } else {
      RunIsSafe(states, steps, max, n - 1);
      StepKeepsInv(states[n - 1], steps[n - 1], max);
    }
    if n < |steps| {
      AssertNeverFails(states[n], steps[n], max);
    }
  }

  /** A connection is turned away exactly when its address already holds more than the maximum. */
  lemma TurnedAwayIff(states: seq<State>, steps: seq<Step>, max: nat, n: nat)
    requires max + 1 < UINT32 && IsRun(states, steps, max) && n < |steps| && steps[n].Arrive?
    ensures states[n + 1].accepting.None? <==> Held(states[n], steps[n].addr) == max + 1
    ensures states[n + 1].accepting.None? ==> states[n + 1] == states[n]
    ensures states[n + 1].accepting.Some? ==> states[n + 1].accepting.value == (steps[n].addr, Held(states[n], steps[n].addr))
  {
    RunIsSafe(states, steps, max, n);
    var a := steps[n].addr;
    assert CountOf(states[n].counts, a) == Held(states[n], a);
    if states[n + 1].accepting.None? {
      assert CountOf(states[n].counts, a) == Held(states[n], a);
      assert states[n].counts[a := states[n].counts[a]] == states[n].counts;
    }
  }

  /** The order was given to a connection of the address: how many it held when that one arrived. */
  ghost predicate Given(states: seq<State>, steps: seq<Step>, n: nat, a: Addr, order: nat)
    requires |states| == |steps| + 1 && n < |states|
  {
    exists m :: 0 <= m < n && steps[m] == Arrive(a) && order == Held(states[m], a)
  }

  /** The order of every session is the number of connections its address held just before it arrived. */
  lemma {:induction false} OrdersAreGiven(states: seq<State>, steps: seq<Step>, max: nat, n: nat)
    requires max + 1 < UINT32 && IsRun(states, steps, max) && n < |states|
    ensures var s := states[n];
            && (s.accepting.Some? ==> Given(states, steps, n, s.accepting.value.0, s.accepting.value.1))
            && (forall id :: id in s.sessions ==> Given(states, steps, n, s.sessions[id].addr, s.sessions[id].order))
  {
    if n > 0 {
      var m := n - 1;
      OrdersAreGiven(states, steps, max, m);
      RunIsSafe(states, steps, max, m);
      var s, t := states[m], states[n];
      if steps[m].Arrive? {
        TurnedAwayIff(states, steps, max, m);
      }
      forall id | id in t.sessions
        ensures Given(states, steps, n, t.sessions[id].addr, t.sessions[id].order)
      {
        if id in s.sessions && !(steps[m].Construct? && steps[m].id == id) {
          GivenLater(states, steps, m, s.sessions[id].addr, s.sessions[id].order);
        } else {
          GivenLater(states, steps, m, s.accepting.value.0, s.accepting.value.1);
        }
      }
      if t.accepting.Some? && !steps[m].Arrive? {
        GivenLater(states, steps, m, s.accepting.value.0, s.accepting.value.1);
      }
    }
  }

  lemma GivenLater(states: seq<State>, steps: seq<Step>, n: nat, a: Addr, order: nat)
    requires |states| == |steps| + 1 && n + 1 < |states| && Given(states, steps, n, a, order)
    ensures Given(states, steps, n + 1, a, order)
  {
  }

  /** A 32-bit limit as large as it gets turns nobody away: n connections of one address, all admitted. */
  lemma {:induction false} ManyArrive(a: Addr, n: nat) returns (states: seq<State>, steps: seq<Step>)
    ensures IsRun(states, steps, UINT32 - 1)
    ensures var s := states[|steps|];
            && s.accepting.None? && Held(s, a) == n && CountOf(s.counts, a) == n % UINT32
            && forall id :: id in s.sessions ==> id < n
  {
    if n == 0 {
      states, steps := [State(map[], None, map[])], [];
      assert SessionsOf(map[], a) == {};
    } else {
      states, steps := ManyArrive(a, n - 1);
      var s := states[|steps|];
      var t := Next(s, Arrive(a), UINT32 - 1);
      var u := Next(t, Construct(n - 1), UINT32 - 1);
      SessionsOfAdded(s.sessions, n - 1, Session(a, t.accepting.value.1, false));
      states, steps := states + [t, u], steps + [Arrive(a), Construct(n - 1)];
    }
  }

  /** Then the count wraps: a run in which an address holds 2^32 connections and is counted zero times. */
  lemma CountWraps(a: Addr) returns (states: seq<State>, steps: seq<Step>)
    ensures IsRun(states, steps, UINT32 - 1)
    ensures Held(states[|steps|], a) == UINT32 && CountOf(states[|steps|].counts, a) == 0
  {
    states, steps := ManyArrive(a, UINT32);
  }

  ghost predicate AlwaysExact(states: seq<State>) {
    forall n: nat, a: Addr :: n < |states| ==> CountOf(states[n].counts, a) == Held(states[n], a)
  }

  /** So the counts are exact in every run if and only if the limit is not the largest 32-bit number. */
  lemma ExactIff(max: nat)
    requires max < UINT32
    ensures (forall states: seq<State>, steps: seq<Step> {:trigger IsRun(states, steps, max)} ::
               IsRun(states, steps, max) ==> AlwaysExact(states)) <==> max != UINT32 - 1
  {
    if max == UINT32 - 1 {
      var states, steps := CountWraps("");
      assert IsRun(states, steps, max);
      assert CountOf(states[|steps|].counts, "") != Held(states[|steps|], "");
    } else {
      forall states: seq<State>, steps: seq<Step>, n: nat, a: Addr | IsRun(states, steps, max) && n < |states|
        ensures CountOf(states[n].counts, a) == Held(states[n], a)
      {
        RunIsSafe(states, steps, max, n);
      }
    }
  }
}
