/**
  The session coroutine as a machine: TLS accept, headers, handler, error page, shutdown. It
  stops at yields and goes on when the loop resumes it with an error code, 0 for none.
*/
module SessionCoroutine {

  datatype Pc =
    | NotStarted
    | AcceptTry | AcceptYield        // SslSocketSession's constructor
    | HeadersTry | HeadersYield      // readHeaders
    | Create                         // create_session
    | NoHandlerTry | NoHandlerYield  // write of the 503 response
    | Handler                        // the handler runs between two stream calls
    | ReadTry | ReadYield            // the handler is in read
    | WriteTry | WriteYield          // the handler is in write
    | PlainYield                     // the handler called yield
    | LoopTest                       // the condition of the do-while
    | PageTry | PageYield            // write of the error page in a catch block
    | ShutTry | ShutYield            // SslSocketSession::shutdown
    | Finished

  /** What a run leaves behind for the claims about error pages. */
  datatype Event =
    | HeaderBytes        // readHeaders received bytes
    | ReadEntered        // read was entered with an unfinished request
    | Sent(n: nat)       // a writeSome of the handler or the 503 response was accepted, n bytes
    | PageStarted
    | PageSent(n: nat)

  /**
    `code` is what the last resume carried (m_yield.get()), `errored` tells that the handler
    has seen an exception, and `more` bounds the stream calls it makes after that; a handler
    that lets errors propagate has more == 0.
  */
  datatype State = State(
    pc: Pc, tls: bool, code: int, canWrite: bool, tries: nat, errored: bool, more: nat, log: seq<Event>)

  datatype Step =
    | Resume(code: int)
    | AcceptDone | AcceptWants | AcceptFails
    | Arrived(complete: bool) | Nothing | ReadFails
    | Routed | Unrouted
    | CallRead(finished: bool) | CallWrite(empty: bool) | CallYield | Return | Throw
    | Accepted(n: nat, last: bool) | Blocked | WriteFails
    | Again | Leave
    | ShutDone | ShutPending

  predicate Suspended(s: State) {
    || s.pc == NotStarted || s.pc == AcceptYield || s.pc == HeadersYield || s.pc == NoHandlerYield
    || s.pc == ReadYield || s.pc == WriteYield || s.pc == PlainYield || s.pc == PageYield || s.pc == ShutYield
  }

  predicate Writing(pc: Pc) {
    pc == NoHandlerTry || pc == WriteTry || pc == PageTry
  }

  predicate Enabled(s: State, step: Step) {
    match step
    case Resume(_) => Suspended(s)
    case AcceptDone => s.pc == AcceptTry
    case AcceptWants => s.pc == AcceptTry
    case AcceptFails => s.pc == AcceptTry
    case Arrived(_) => s.pc == HeadersTry || s.pc == ReadTry
    case Nothing => s.pc == HeadersTry || s.pc == ReadTry
    case ReadFails => s.pc == HeadersTry || s.pc == ReadTry
    case Routed => s.pc == Create
    case Unrouted => s.pc == Create
    case CallRead(_) => s.pc == Handler && (s.errored ==> s.more > 0)
    case CallWrite(_) => s.pc == Handler && (s.errored ==> s.more > 0)
    case CallYield => s.pc == Handler && (s.errored ==> s.more > 0)
    case Return => s.pc == Handler
    case Throw => s.pc == Handler || s.pc == Create  // a handler, or the plugin choosing one
    case Accepted(n, last) => Writing(s.pc) && (s.tls || last ==> n > 0)
    case Blocked => Writing(s.pc)
    case WriteFails => Writing(s.pc)
    case Again => s.pc == LoopTest && s.code == 0
    case Leave => s.pc == LoopTest
    case ShutDone => s.pc == ShutTry
    case ShutPending => s.pc == ShutTry && s.tls && s.tries > 0
  }

  /** An exception reaches the catch blocks of BasicHttpSession::ioLoop. */
  function Caught(s: State): State {
    if s.canWrite then s.(pc := PageTry, log := s.log + [PageStarted]) else Closing(s)
  }

  function Closing(s: State): State {
    s.(pc := ShutTry, tries := 5)
  }

  /** An exception reaches the handler, which may make `more` further calls. */
  function ToHandler(s: State): State {
    s.(pc := Handler, errored := true)
  }

  /** The handler makes a stream call. */
  function Spend(s: State): State {
    if s.errored && s.more > 0 then s.(more := s.more - 1) else s
  }

  /** What the resumption does at a yield. */
  function Resumed(s: State, code: int): State
    requires Suspended(s)
  {
    var t := s.(code := code);
    match s.pc
    case NotStarted => t.(pc := if s.tls then AcceptTry else HeadersTry)
    case AcceptYield => t.(pc := if code != 0 then Finished else AcceptTry)
    case HeadersYield => if code != 0 then Caught(t) else t.(pc := HeadersTry)
    case NoHandlerYield => if code != 0 then Caught(t) else t.(pc := NoHandlerTry)
    case ReadYield => if code != 0 then ToHandler(t) else t.(pc := ReadTry)
    case WriteYield => if code != 0 then ToHandler(t) else t.(pc := WriteTry)
    case PlainYield => if code != 0 then ToHandler(t) else t.(pc := Handler)
    case PageYield => t.(pc := if code != 0 then Finished else PageTry)
    case _ => t.(pc := if code != 0 then Finished else ShutTry)
  }

  /** A writeSome took n bytes; `last` ends the write. */
  function Wrote(s: State, n: nat, last: bool): State
    requires Writing(s.pc)
  {
    var t := s.(canWrite := false, log := s.log + [if s.pc == PageTry then PageSent(n) else Sent(n)]);
    if !last then t
    else if s.pc == WriteTry then t.(pc := Handler)
    else Closing(t)
  }

  function Next(s: State, step: Step): State
    requires Enabled(s, step)
  {
    match step
    case Resume(code) => Resumed(s, code)
    case AcceptDone => s.(pc := HeadersTry)
    case AcceptWants => s.(pc := AcceptYield)
    case AcceptFails => s.(pc := Finished)
    case Arrived(complete) =>
      if s.pc == HeadersTry
      then s.(pc := if complete then Create else HeadersTry, canWrite := true, log := s.log + [HeaderBytes])
      else s.(pc := if complete then Handler else ReadTry)
    case Nothing => s.(pc := if s.pc == HeadersTry then HeadersYield else ReadYield)
    case ReadFails => if s.pc == HeadersTry then Caught(s) else ToHandler(s)
    case Routed => s.(pc := Handler, errored := false)
    case Unrouted => s.(pc := NoHandlerTry)
    case CallRead(finished) =>
      if finished then Spend(s) else Spend(s).(pc := ReadTry, canWrite := true, log := s.log + [ReadEntered])
    case CallWrite(empty) => if empty then Spend(s) else Spend(s).(pc := WriteTry)
    case CallYield => Spend(s).(pc := PlainYield)
    case Return => s.(pc := LoopTest)
    case Throw => Caught(s)
    case Accepted(n, last) => Wrote(s, n, last)
    case Blocked =>
      s.(pc := if s.pc == NoHandlerTry then NoHandlerYield else if s.pc == WriteTry then WriteYield else PageYield)
    case WriteFails =>
      if s.pc == NoHandlerTry then Caught(s) else if s.pc == WriteTry then ToHandler(s) else s.(pc := Finished)
    case Again => s.(pc := HeadersTry)
    case Leave => Closing(s)
    case ShutDone => s.(pc := Finished)
    case ShutPending => s.(pc := ShutYield, tries := s.tries - 1)
  }

  // ------------------------------------------------- at most two resumptions after an error

  /** The handler is suspended in a call of the stream. */
  predicate HandlerYield(pc: Pc) {
    pc == ReadYield || pc == WriteYield || pc == PlainYield
  }

  /** What can still wait once an exception has left the handler: the error page, or else the TLS shutdown. */
  function AfterCatch(s: State): nat {
    if s.canWrite || s.tls then 1 else 0
  }

  /** And once one has reached the handler: each further call, and a read among them allows the page again. */
  function AfterError(s: State): nat {
    if s.more > 0 then s.more + 1 else AfterCatch(s)
  }

  /** How many more resumptions there can be at most when all of them carry an error. */
  function Rank(s: State): nat {
    match s.pc
    case Finished => 0
    case AcceptYield => 1
    case PageTry => 1
    case PageYield => 1
    case ShutTry => if s.tls && s.tries > 0 then 1 else 0
    case ShutYield => 1
    case LoopTest => if s.tls then 1 else 0
    case NotStarted => 3 + s.more
    case HeadersYield => 1 + AfterCatch(s)
    case NoHandlerTry => 1 + AfterCatch(s)
    case NoHandlerYield => 1 + AfterCatch(s)
    case ReadYield => 1 + AfterError(s)
    case WriteYield => 1 + AfterError(s)
    case PlainYield => 1 + AfterError(s)
    case Handler => if s.errored then AfterError(s) else 2 + s.more
    case ReadTry => if s.errored then 1 + AfterError(s) else 2 + s.more
    case WriteTry => if s.errored then 1 + AfterError(s) else 2 + s.more
    case _ => 2 + s.more
  }

  /** A resumption with an error lowers the rank. */
  lemma ResumeLowersRank(s: State, code: int)
    requires Suspended(s) && code != 0
    ensures Rank(Resumed(s, code)) < Rank(s)
    ensures Resumed(s, code).code == code && Resumed(s, code).more == s.more
  {
  }

  /** Any other step keeps it or lowers it, while the last resume carried an error. */
  lemma StepKeepsRank(s: State, step: Step)
    requires Enabled(s, step) && !step.Resume? && s.code != 0
    ensures Next(s, step).code == s.code && Rank(Next(s, step)) <= Rank(s)
  {
    match step
    case Accepted(n, last) => WriteKeepsRank(s, n, last);
    case Throw => CatchKeepsRank(s);
    case ReadFails => ReadKeepsRank(s, step);
    case Arrived(_) => ReadKeepsRank(s, step);
    case Nothing => ReadKeepsRank(s, step);
    case CallRead(_) => CallKeepsRank(s, step);
    case CallWrite(_) => CallKeepsRank(s, step);
    case CallYield => CallKeepsRank(s, step);
    case _ =>
  }

  lemma WriteKeepsRank(s: State, n: nat, last: bool)
    requires Writing(s.pc)
    ensures Wrote(s, n, last).code == s.code && Rank(Wrote(s, n, last)) <= Rank(s)
  {
  }

  lemma CatchKeepsRank(s: State)
    ensures Caught(s).code == s.code && Rank(Caught(s)) == AfterCatch(s)
  {
  }

  lemma ReadKeepsRank(s: State, step: Step)
    requires Enabled(s, step) && (step.Arrived? || step.Nothing? || step.ReadFails?)
    ensures Next(s, step).code == s.code && Rank(Next(s, step)) <= Rank(s)
  {
  }

  lemma CallKeepsRank(s: State, step: Step)
    requires Enabled(s, step) && (step.CallRead? || step.CallWrite? || step.CallYield?)
    ensures Next(s, step).code == s.code && Rank(Next(s, step)) <= Rank(s)
  {
  }

  lemma RankFalls(s: State, step: Step)
    requires Enabled(s, step)
    requires if step.Resume? then step.code != 0 else s.code != 0
    ensures Next(s, step).code != 0
    ensures Rank(Next(s, step)) <= Rank(s) - (if step.Resume? then 1 else 0)
  {
    if step.Resume? {
      ResumeLowersRank(s, step.code);
    } else {
      StepKeepsRank(s, step);
    }
  }

  ghost predicate IsPath(states: seq<State>, steps: seq<Step>) {
    && |states| == |steps| + 1
    && forall i {:trigger Leads(states[i], steps[i], states[i + 1])} ::
         0 <= i < |steps| ==> Leads(states[i], steps[i], states[i + 1])
  }

  ghost predicate Leads(s: State, step: Step, t: State) {
    Enabled(s, step) && t == Next(s, step)
  }

  function Resumptions(steps: seq<Step>): nat {
    if steps == [] then 0
    else Resumptions(steps[..|steps| - 1]) + (if steps[|steps| - 1].Resume? then 1 else 0)
  }

  /** Every resumption carries an error, as in quitIoLoop. */
  ghost predicate OnlyErrors(steps: seq<Step>) {
    forall i :: 0 <= i < |steps| && steps[i].Resume? ==> steps[i].code != 0
  }

  lemma {:induction false} ResumptionsBounded(states: seq<State>, steps: seq<Step>, n: nat)
    requires IsPath(states, steps) && Suspended(states[0]) && OnlyErrors(steps) && n <= |steps|
    ensures Rank(states[n]) + Resumptions(steps[..n]) <= Rank(states[0])
    ensures n > 0 ==> states[n].code != 0
  {
    if n > 0 {
      var m := n - 1;
      ResumptionsBounded(states, steps, m);
      assert Leads(states[m], steps[m], states[m + 1]);
      assert steps[..n][..m] == steps[..m];
      RankFalls(states[m], steps[m]);
    }
  }

  /**
    From any suspended state, a run in which every resumption carries an error contains at
    most Rank of them, and after that many it can only run on to its end: the loop of
    quitIoLoop stops. That is two for a started coroutine outside its handler and for a
    handler that lets errors propagate; each further stream call the handler makes while it
    unwinds costs at most one more, and so does a coroutine that was never started.
  */
  lemma AtMostTwoResumptions(states: seq<State>, steps: seq<Step>)
    requires IsPath(states, steps) && Suspended(states[0]) && OnlyErrors(steps)
    ensures var s := states[0];
            && Resumptions(steps) <= Rank(s)
            && (Resumptions(steps) == Rank(s) ==> !Suspended(states[|steps|]))
            && Rank(s) <= (if HandlerYield(s.pc) then 2 + s.more else if s.pc == NotStarted then 3 + s.more else 2)
  {
    ResumptionsBounded(states, steps, |steps|);
    assert steps[..|steps|] == steps;
  }

  /** Two are needed: the error page is blocked after the first. */
  lemma TwoAreNeeded(s: State) returns (states: seq<State>, steps: seq<Step>)
    requires s.pc == HeadersYield && s.canWrite && s.more == 0
    ensures IsPath(states, steps) && states[0] == s && OnlyErrors(steps)
    ensures Resumptions(steps) == 2 && states[|steps|].pc == Finished
  {
    steps := [Resume(1), Blocked, Resume(1)];
    var s1 := Next(s, Resume(1));
    var s2 := Next(s1, Blocked);
    states := [s, s1, s2, Next(s2, Resume(1))];
    assert steps[..2] == [Resume(1), Blocked] && [Resume(1), Blocked][..1] == [Resume(1)] && [Resume(1)][..0] == [];
  }

  lemma PathAppend(a: seq<State>, p: seq<Step>, b: seq<State>, q: seq<Step>)
    requires IsPath(a, p) && IsPath(b, q) && a[|p|] == b[0]
    ensures IsPath(a + b[1..], p + q) && (a + b[1..])[|p + q|] == b[|q|] && (a + b[1..])[0] == a[0]
  {
    var c, r := a + b[1..], p + q;
    forall i | 0 <= i < |r|
      ensures Leads(c[i], r[i], c[i + 1])
    {
      if i < |p| {
        assert Leads(a[i], p[i], a[i + 1]);
      } else {
        var j := i - |p|;
        assert Leads(b[j], q[j], b[j + 1]);
      }
    }
  }

  lemma {:induction false} ResumptionsAppend(p: seq<Step>, q: seq<Step>)
    ensures Resumptions(p + q) == Resumptions(p) + Resumptions(q)
  {
    if q == [] {
      assert p + q == p;
    } else {
      var n := |q| - 1;
      ResumptionsAppend(p, q[..n]);
      assert (p + q)[..|p| + n] == p + q[..n];
    }
  }

  lemma TwoPathsJoin(a: seq<State>, p: seq<Step>, b: seq<State>, q: seq<Step>)
    requires IsPath(a, p) && IsPath(b, q) && a[|p|] == b[0] && OnlyErrors(p) && OnlyErrors(q)
    ensures IsPath(a + b[1..], p + q) && (a + b[1..])[|p + q|] == b[|q|] && (a + b[1..])[0] == a[0]
    ensures OnlyErrors(p + q) && Resumptions(p + q) == Resumptions(p) + Resumptions(q)
  {
    PathAppend(a, p, b, q);
    ResumptionsAppend(p, q);
  }

  // ------------------------------------------------- the bound is reached from every suspended state

  /** A path from s to the end with n resumptions, all with errors. */
  ghost predicate EndsAfter(s: State, states: seq<State>, steps: seq<Step>, n: nat) {
    && IsPath(states, steps) && states[0] == s && OnlyErrors(steps)
    && Resumptions(steps) == n && states[|steps|].pc == Finished
  }

  lemma OneStep(s: State, step: Step) returns (states: seq<State>, steps: seq<Step>)
    requires Enabled(s, step) && (step.Resume? ==> step.code != 0)
    ensures IsPath(states, steps) && OnlyErrors(steps) && states[0] == s && states[|steps|] == Next(s, step)
    ensures Resumptions(steps) == if step.Resume? then 1 else 0
  {
    states, steps := [s, Next(s, step)], [step];
    assert steps[..0] == [];
  }

  /** One more step in front. */
  lemma StepFirst(s: State, step: Step, b: seq<State>, q: seq<Step>, n: nat)
      returns (states: seq<State>, steps: seq<Step>)
    requires Enabled(s, step) && (step.Resume? ==> step.code != 0) && EndsAfter(Next(s, step), b, q, n)
    ensures EndsAfter(s, states, steps, n + if step.Resume? then 1 else 0)
  {
    var a, p := OneStep(s, step);
    TwoPathsJoin(a, p, b, q);
    states, steps := a + b[1..], p + q;
  }

  lemma AtTheEnd(s: State) returns (states: seq<State>, steps: seq<Step>)
    requires s.pc == Finished
    ensures EndsAfter(s, states, steps, 0)
  {
    states, steps := [s], [];
  }

  lemma EndReached(s: State) returns (states: seq<State>, steps: seq<Step>)
    requires s.pc == AcceptYield || s.pc == PageYield || s.pc == ShutYield
    ensures EndsAfter(s, states, steps, 1)
  {
    states, steps := AtTheEnd(Next(s, Resume(1)));
    states, steps := StepFirst(s, Resume(1), states, steps, 0);
  }

  lemma CatchReached(s: State) returns (states: seq<State>, steps: seq<Step>)
    ensures EndsAfter(Caught(s), states, steps, AfterCatch(s))
  {
    var t := Caught(s);
    if s.canWrite || s.tls {
      var stop := if s.canWrite then Blocked else ShutPending;
      states, steps := EndReached(Next(t, stop));
      states, steps := StepFirst(t, stop, states, steps, 1);
    } else {
      states, steps := AtTheEnd(Next(t, ShutDone));
      states, steps := StepFirst(t, ShutDone, states, steps, 0);
    }
  }

  /** The handler lets the error propagate. */
  lemma ThrowReached(s: State) returns (states: seq<State>, steps: seq<Step>)
    requires s.pc == Handler
    ensures EndsAfter(s, states, steps, AfterCatch(s))
  {
    states, steps := CatchReached(s);
    states, steps := StepFirst(s, Throw, states, steps, AfterCatch(s));
  }

  /** The handler waits in one more read. */
  lemma ReadFirst(s: State, b: seq<State>, q: seq<Step>, n: nat) returns (states: seq<State>, steps: seq<Step>)
    requires s.pc == Handler && (s.errored ==> s.more > 0)
    requires EndsAfter(Spend(s).(pc := ReadYield, canWrite := true, log := s.log + [ReadEntered]), b, q, n)
    ensures EndsAfter(s, states, steps, n)
  {
    var t := Next(s, CallRead(false));
    states, steps := StepFirst(t, Nothing, b, q, n);
    states, steps := StepFirst(s, CallRead(false), states, steps, n);
  }

  lemma {:induction false} HandlerReached(s: State) returns (states: seq<State>, steps: seq<Step>)
    requires HandlerYield(s.pc)
    ensures EndsAfter(s, states, steps, 1 + AfterError(s))
    decreases s.more
  {
    var t := ToHandler(s.(code := 1));
    assert Next(s, Resume(1)) == t;
    if s.more == 0 {
      states, steps := ThrowReached(t);
    } else {
      states, steps := HandlerReached(
        t.(pc := ReadYield, canWrite := true, more := s.more - 1, log := s.log + [ReadEntered]));
      states, steps := ReadFirst(t, states, steps, s.more + 1);
    }
    states, steps := StepFirst(s, Resume(1), states, steps, AfterError(s));
  }

  /**
    The hypothesis on the handler is needed: a stream whose destructor writes, as the chunked
    stream's does, makes one more call while the exception unwinds, and a third resumption
    can be necessary, also when the response header is already out and only the TLS shutdown
    is left to wait for.
  */
  lemma UnwindingWriteCostsAThird(s: State) returns (states: seq<State>, steps: seq<Step>)
    requires s.pc == WriteYield && (s.canWrite || s.tls) && s.more > 0
    ensures IsPath(states, steps) && states[0] == s && OnlyErrors(steps)
    ensures Resumptions(steps) == 3 && states[|steps|].pc == Finished
  {
    var t := ToHandler(s.(code := 1));
    var u := Next(t, CallWrite(false));
    var v := u.(pc := WriteYield);
    states, steps := ThrowReached(t.(more := s.more - 1));
    states, steps := StepFirst(v, Resume(1), states, steps, 1);
    states, steps := StepFirst(u, Blocked, states, steps, 2);
    states, steps := StepFirst(t, CallWrite(false), states, steps, 2);
    states, steps := StepFirst(s, Resume(1), states, steps, 2);
  }

  /** A request is complete at once, and its handler waits in a read. */
  lemma StartReached(s: State) returns (states: seq<State>, steps: seq<Step>)
    requires s.pc == HeadersTry
    ensures EndsAfter(s, states, steps, 2 + s.more)
  {
    var t := Next(s, Arrived(true));
    var u := Next(t, Routed);
    states, steps := HandlerReached(u.(pc := ReadYield, canWrite := true, log := u.log + [ReadEntered]));
    states, steps := ReadFirst(u, states, steps, 2 + s.more);
    states, steps := StepFirst(t, Routed, states, steps, 2 + s.more);
    states, steps := StepFirst(s, Arrived(true), states, steps, 2 + s.more);
  }

  /** The bound of AtMostTwoResumptions is reached from every suspended state. */
  lemma BoundIsReached(s: State) returns (states: seq<State>, steps: seq<Step>)
    requires Suspended(s)
    ensures IsPath(states, steps) && states[0] == s && OnlyErrors(steps)
    ensures Resumptions(steps) == Rank(s) && states[|steps|].pc == Finished
  {
    if HandlerYield(s.pc) {
      states, steps := HandlerReached(s);
    } else if s.pc == HeadersYield || s.pc == NoHandlerYield {
      states, steps := CatchReached(s.(code := 1));
      states, steps := StepFirst(s, Resume(1), states, steps, AfterCatch(s));
    } else if s.pc == NotStarted {
      var t := Next(s, Resume(1));
      states, steps := StartReached(t.(pc := HeadersTry));
      if s.tls {
        states, steps := StepFirst(t, AcceptDone, states, steps, 2 + s.more);
      }
      states, steps := StepFirst(s, Resume(1), states, steps, 2 + s.more);
    } else {
      states, steps := EndReached(s);
    }
  }

  /** Every path from s on which all resumptions carry an error has at most n of them. */
  ghost predicate Suffice(s: State, n: nat) {
    forall states: seq<State>, steps: seq<Step> {:trigger IsPath(states, steps)} ::
      IsPath(states, steps) && states[0] == s && OnlyErrors(steps) ==> Resumptions(steps) <= n
  }

  lemma SufficeIff(s: State, n: nat)
    requires Suspended(s)
    ensures Suffice(s, n) <==> Rank(s) <= n
  {
    var states, steps := BoundIsReached(s);
    assert IsPath(states, steps);
    forall a: seq<State>, p: seq<Step> | IsPath(a, p) && a[0] == s && OnlyErrors(p)
      ensures Resumptions(p) <= Rank(s)
    {
      AtMostTwoResumptions(a, p);
    }
  }

  /**
    Two resumptions suffice if and only if the coroutine has been started and, when it waits
    in its handler, that handler makes no further stream call after an error.
  */
  lemma TwoSufficeIff(s: State)
    requires Suspended(s)
    ensures Suffice(s, 2) <==> s.pc != NotStarted && (HandlerYield(s.pc) ==> s.more == 0)
  {
    SufficeIff(s, 2);
  }

  /**
    ServerSession's coroutine handle: `choices` are the answers of the kernel, the TLS library
    and the handler, taken one after the other; those that do not apply are passed over.
  */
  class Coroutine {
    var state: State
    var choices: seq<Step>

    /**
      Calling the handle: runs to the next yield, to the end, or out of choices. The run is a
      path that begins with the resumption and goes on with choices taken in order.
    */
    method Resume(code: int) returns (ghost states: seq<State>, ghost steps: seq<Step>)
      requires Suspended(state)
      modifies this
      ensures Suspended(state) || state.pc == Finished || choices == []
      ensures code != 0 ==> Rank(state) < Rank(old(state)) && state.code != 0
      ensures IsPath(states, steps) && states[0] == old(state) && states[|steps|] == state
      ensures OneResumption(steps, code)
      ensures |choices| <= |old(choices)| && choices == old(choices)[|old(choices)| - |choices|..]
    {
      if code != 0 {
        ResumeLowersRank(state, code);
      }
      states, steps := [state, Resumed(state, code)], [Step.Resume(code)];
      state := Resumed(state, code);
      while !Suspended(state) && state.pc != Finished && choices != []
        invariant code != 0 ==> Rank(state) < Rank(old(state)) && state.code != 0
        invariant IsPath(states, steps) && states[0] == old(state) && states[|steps|] == state
        invariant OneResumption(steps, code)
        invariant |choices| <= |old(choices)| && choices == old(choices)[|old(choices)| - |choices|..]
        decreases |choices|
      {
        var step := choices[0];
        choices := choices[1..];
        if Enabled(state, step) && !step.Resume? {
          if code != 0 {
            StepKeepsRank(state, step);
          }
          state := Next(state, step);
          states, steps := states + [state], steps + [step];
        }
      }
    }

    /** quitIoLoop: resumes with the error until the coroutine is over. */
    method QuitIoLoop(code: int) returns (resumed: nat, ghost states: seq<State>, ghost steps: seq<Step>)
      requires code != 0
      modifies this
      ensures !Suspended(state)
      ensures resumed <= Rank(old(state)) <= 3 + old(state.more)
      ensures old(state.pc) != NotStarted ==> resumed <= 2 + old(state.more)
      ensures old(state.pc) != NotStarted && old(Suspended(state)) && !HandlerYield(old(state.pc)) ==> resumed <= 2
      ensures IsPath(states, steps) && states[0] == old(state) && states[|steps|] == state
      ensures AllResume(steps, code) && Resumptions(steps) == resumed
    {
      resumed := 0;
      states, steps := [state], [];
      while Suspended(state)
        invariant resumed + Rank(state) <= Rank(old(state))
        invariant IsPath(states, steps) && states[0] == old(state) && states[|steps|] == state
        invariant AllResume(steps, code) && Resumptions(steps) == resumed
        decreases Rank(state)
      {
        ghost var more, taken;
        more, taken := Resume(code);
        OneIsCounted(taken, code);
        PathAppend(states, steps, more, taken);
        ResumptionsAppend(steps, taken);
        states, steps := states + more[1..], steps + taken;
        resumed := resumed + 1;
      }
    }
  }

  /** The first step is the resumption with the code, and no other step is one. */
  ghost predicate OneResumption(steps: seq<Step>, code: int) {
    steps != [] && steps[0] == Resume(code) && forall i :: 0 < i < |steps| ==> !steps[i].Resume?
  }

  /** Every resumption carries the code. */
  ghost predicate AllResume(steps: seq<Step>, code: int) {
    forall i :: 0 <= i < |steps| && steps[i].Resume? ==> steps[i].code == code
  }

  lemma {:induction false} OneIsCounted(steps: seq<Step>, code: int)
    requires OneResumption(steps, code)
    ensures Resumptions(steps) == 1 && AllResume(steps, code)
  {
    var n := |steps| - 1;
    if n > 0 {
      OneIsCounted(steps[..n], code);
    } else {
      assert steps[..0] == [];
    }
  }

  // ------------------------------------------------- error pages

  /** Since the last header bytes or entry into an unfinished read, no write was accepted. */
  predicate Quiet(log: seq<Event>) {
    if log == [] then false
    else
      var last := log[|log| - 1];
      if last == HeaderBytes || last == ReadEntered then true
      else if last.Sent? then false
      else Quiet(log[..|log| - 1])
  }

  /** Header bytes or an entry into an unfinished read at r, and no accepted write since. */
  ghost predicate QuietSince(log: seq<Event>, r: nat) {
    && r < |log| && (log[r] == HeaderBytes || log[r] == ReadEntered)
    && forall j :: r < j < |log| ==> !log[j].Sent?
  }

  lemma QuietSinceGrows(log: seq<Event>, r: nat)
    requires log != [] && r < |log| - 1
    ensures QuietSince(log, r) <==> QuietSince(log[..|log| - 1], r) && !log[|log| - 1].Sent?
  {
    var init := log[..|log| - 1];
    assert forall j :: 0 <= j < |init| ==> init[j] == log[j];
  }

  lemma {:induction false} QuietMeans(log: seq<Event>)
    ensures Quiet(log) <==> exists r: nat :: QuietSince(log, r)
  {
    if log != [] {
      var n := |log| - 1;
      QuietMeans(log[..n]);
      if Quiet(log) {
        if log[n] == HeaderBytes || log[n] == ReadEntered {
          assert QuietSince(log, n);
        } else {
          var r: nat :| QuietSince(log[..n], r);
          QuietSinceGrows(log, r);
        }
      }
      if r: nat :| QuietSince(log, r) {
        if r < n {
          QuietSinceGrows(log, r);
        }
      }
    }
  }

  /** After a page has been started only pieces of it are sent, and no second one is started. */
  ghost predicate PageIsLast(log: seq<Event>) {
    forall i, j :: 0 <= i < j < |log| && log[i] == PageStarted ==> log[j].PageSent?
  }

  /** A page is started only in a quiet moment. */
  ghost predicate PagesAllowed(log: seq<Event>) {
    forall i :: 0 <= i < |log| && log[i] == PageStarted ==> Quiet(log[..i])
  }

  predicate Ending(pc: Pc) {
    pc == PageTry || pc == PageYield || pc == ShutTry || pc == ShutYield || pc == Finished
  }

  ghost predicate Disciplined(s: State) {
    && PageIsLast(s.log) && PagesAllowed(s.log)
    && (!Ending(s.pc) ==> (s.canWrite <==> Quiet(s.log)) && PageStarted !in s.log)
  }

  /** Appending an event that is not a page start, before any page or as part of one. */
  lemma LogGrows(log: seq<Event>, e: Event)
    requires PageIsLast(log) && PagesAllowed(log)
    requires e == PageStarted ==> Quiet(log)
    requires PageStarted in log ==> e.PageSent?
    ensures PageIsLast(log + [e]) && PagesAllowed(log + [e])
    ensures Quiet(log + [e]) <==> e == HeaderBytes || e == ReadEntered || (!e.Sent? && Quiet(log))
    ensures e != PageStarted && PageStarted !in log ==> PageStarted !in log + [e]
  {
    var all := log + [e];
    assert all[..|log|] == log;
    forall i | 0 <= i < |all| && all[i] == PageStarted
      ensures Quiet(all[..i])
    {
      if i < |log| {
        assert all[..i] == log[..i];
      }
    }
  }

  /** What a step does, seen from the log: nothing, or one event at a place that fits it. */
  predicate Effect(s: State, t: State) {
    || (t.log == s.log && t.canWrite == s.canWrite && (Ending(s.pc) ==> Ending(t.pc)))
    || (t.log == s.log + [HeaderBytes] && t.canWrite && !Ending(s.pc))
    || (t.log == s.log + [ReadEntered] && t.canWrite && !Ending(s.pc))
    || (|t.log| == |s.log| + 1 && t.log[|s.log|].Sent? && t.log == s.log + [t.log[|s.log|]]
        && !t.canWrite && !Ending(s.pc))
    || (t.log == s.log + [PageStarted] && s.canWrite && !Ending(s.pc) && Ending(t.pc))
    || (|t.log| == |s.log| + 1 && t.log[|s.log|].PageSent? && t.log == s.log + [t.log[|s.log|]]
        && Ending(s.pc) && Ending(t.pc))
  }

  lemma ResumeHasEffect(s: State, code: int)
    requires Suspended(s)
    ensures Effect(s, Resumed(s, code))
  {
  }

  lemma WriteHasEffect(s: State, n: nat, last: bool)
    requires Writing(s.pc)
    ensures Effect(s, Wrote(s, n, last))
  {
    var e := if s.pc == PageTry then PageSent(n) else Sent(n);
    assert Wrote(s, n, last).log == s.log + [e];
  }

  lemma StepHasEffect(s: State, step: Step)
    requires Enabled(s, step)
    ensures Effect(s, Next(s, step))
  {
    match step
    case Resume(code) => ResumeHasEffect(s, code);
    case Accepted(n, last) => WriteHasEffect(s, n, last);
    case _ =>
  }

  lemma EffectKeepsDiscipline(s: State, t: State)
    requires Disciplined(s) && Effect(s, t)
    ensures Disciplined(t)
  {
    if t.log != s.log {
      var e := t.log[|s.log|];
      assert t.log == s.log + [e];
      LogGrows(s.log, e);
    }
  }

  /** A coroutine that has not run yet. */
  predicate Fresh(s: State) {
    s.pc == NotStarted && !s.canWrite && s.log == []
  }

  lemma {:induction false} RunIsDisciplined(states: seq<State>, steps: seq<Step>, n: nat)
    requires IsPath(states, steps) && Fresh(states[0]) && n <= |steps|
    ensures Disciplined(states[n])
  {
    if n > 0 {
      var m := n - 1;
      RunIsDisciplined(states, steps, m);
      assert Leads(states[m], steps[m], states[m + 1]);
      StepHasEffect(states[m], steps[m]);
      EffectKeepsDiscipline(states[m], states[n]);
    }
  }

  /**
    In every run of a session: an error page is started at most once, nothing but its own
    bytes is sent after that, and it is started only if no write was accepted since the last
    header bytes or the last entry into an unfinished read.
  */
  lemma ErrorPageDiscipline(states: seq<State>, steps: seq<Step>, i: nat)
    requires IsPath(states, steps) && Fresh(states[0])
    requires var log := states[|steps|].log; i < |log| && log[i] == PageStarted
    ensures var log := states[|steps|].log;
            && (forall j :: 0 <= j < |log| && log[j] == PageStarted ==> j == i)
            && (forall j :: i < j < |log| ==> log[j].PageSent?)
            && exists r :: 0 <= r < i && (log[r] == HeaderBytes || log[r] == ReadEntered)
                           && forall j :: r < j < i ==> !log[j].Sent?
  {
    RunIsDisciplined(states, steps, |steps|);
    var log := states[|steps|].log;
    QuietMeans(log[..i]);
    var before := log[..i];
    var r: nat :| QuietSince(before, r);
    assert log[r] == before[r];
    assert forall j :: r < j < i ==> log[j] == before[j];
  }

  /**
    An exception reaches the catch blocks of ioLoop: out of readHeaders, out of create_session,
    out of the write of the 503 response, or out of the handler.
  */
  predicate Catches(s: State, step: Step) {
    match step
    case Throw => true
    case ReadFails => s.pc == HeadersTry
    case WriteFails => s.pc == NoHandlerTry
    case Resume(code) => code != 0 && (s.pc == HeadersYield || s.pc == NoHandlerYield)
    case _ => false
  }

  /** In every run: a step starts a page exactly when it brings an exception to ioLoop in a quiet moment. */
  lemma PageIffQuiet(states: seq<State>, steps: seq<Step>, n: nat)
    requires IsPath(states, steps) && Fresh(states[0]) && n < |steps|
    ensures states[n + 1].log == states[n].log + [PageStarted] <==>
            Catches(states[n], steps[n]) && Quiet(states[n].log)
    ensures Catches(states[n], steps[n]) ==>
              states[n + 1].pc == if Quiet(states[n].log) then PageTry else ShutTry
  {
    RunIsDisciplined(states, steps, n);
    assert Leads(states[n], steps[n], states[n + 1]);
    StepStartsPage(states[n], steps[n]);
  }

  lemma StepStartsPage(s: State, step: Step)
    requires Enabled(s, step)
    ensures Next(s, step).log == s.log + [PageStarted] <==> Catches(s, step) && s.canWrite
    ensures Catches(s, step) ==> !Ending(s.pc) && Next(s, step).pc == if s.canWrite then PageTry else ShutTry
  {
    match step
    case Resume(code) => ResumeStartsPage(s, code);
    case Arrived(_) => LastDiffers(s.log, HeaderBytes);
    case CallRead(_) => LastDiffers(s.log, ReadEntered);
    case Accepted(n, last) =>
      LastDiffers(s.log, Sent(n));
      LastDiffers(s.log, PageSent(n));
    case _ =>
  }

  lemma LastDiffers(log: seq<Event>, e: Event)
    requires e != PageStarted
    ensures log + [e] != log + [PageStarted] && log != log + [PageStarted]
  {
    assert (log + [e])[|log|] == e;
    assert (log + [PageStarted])[|log|] == PageStarted;
  }

  lemma ResumeStartsPage(s: State, code: int)
    requires Suspended(s)
    ensures Resumed(s, code).log == s.log + [PageStarted] <==> Catches(s, Resume(code)) && s.canWrite
    ensures Catches(s, Resume(code)) ==> Resumed(s, code).pc == if s.canWrite then PageTry else ShutTry
  {
  }
}
