/**
  Which phase of a session follows which: laws of every run of the coroutine, said by the
  labels of its steps. The handshake comes first, a handler runs only for a complete request
  that was routed to it, the session ends only through the shutdown or a failure that leaves
  ioLoop, and a resumption without an error repeats the call that was waiting.
*/
module CoroutinePhases {
  import opened SessionCoroutine

  ghost predicate IsRun(states: seq<State>, steps: seq<Step>) {
    IsPath(states, steps) && Fresh(states[0])
  }

  // ------------------------------------------------- phases, and what one step can do

  /** The session has been constructed and is not over. */
  predicate Constructed(pc: Pc) {
    pc != NotStarted && pc != AcceptTry && pc != AcceptYield && pc != Finished
  }

  predicate InHandler(pc: Pc) {
    pc == Handler || pc == ReadTry || pc == WriteTry || HandlerYield(pc) || pc == LoopTest
  }

  predicate Refusing(pc: Pc) {
    pc == NoHandlerTry || pc == NoHandlerYield
  }

  predicate Paging(pc: Pc) {
    pc == PageTry || pc == PageYield
  }

  predicate Shutting(pc: Pc) {
    pc == ShutTry || pc == ShutYield
  }

  predicate AcceptStep(step: Step) {
    step.AcceptDone? || step.AcceptWants? || step.AcceptFails?
  }

  /** The steps that begin the shutdown. */
  predicate BeginsShutdown(s: State, step: Step) {
    || step.Leave?
    || (step.Accepted? && step.last && (s.pc == NoHandlerTry || s.pc == PageTry))
    || (Catches(s, step) && !s.canWrite)
  }

  /** The steps that end the coroutine: of the shutdown, or a failure of the handshake or of the error page. */
  predicate EndsSession(s: State, step: Step) {
    match step
    case ShutDone => true
    case AcceptFails => true
    case WriteFails => s.pc == PageTry
    case Resume(code) => code != 0 && (s.pc == AcceptYield || s.pc == PageYield || s.pc == ShutYield)
    case _ => false
  }

  /** The steps that wait. */
  predicate WaitStep(step: Step) {
    step.AcceptWants? || step.Nothing? || step.Blocked? || step.CallYield? || step.ShutPending?
  }

  /** Where a call waits. */
  function YieldOf(pc: Pc): Pc {
    match pc
    case AcceptTry => AcceptYield
    case HeadersTry => HeadersYield
    case NoHandlerTry => NoHandlerYield
    case ReadTry => ReadYield
    case WriteTry => WriteYield
    case Handler => PlainYield
    case PageTry => PageYield
    case ShutTry => ShutYield
    case _ => NotStarted
  }

  /** What brings an error to a handler: its call fails, or is resumed with an error. */
  predicate HandlerError(s: State, step: Step) {
    match step
    case ReadFails => s.pc == ReadTry
    case WriteFails => s.pc == WriteTry
    case Resume(code) => code != 0 && HandlerYield(s.pc)
    case _ => false
  }

  /** The way into the handshake and into requests. */
  predicate Enters(s: State, step: Step, t: State) {
    && t.tls == s.tls && s.pc != Finished && t.pc != NotStarted
    && (s.pc == NotStarted ==> step.Resume? && t.pc == if s.tls then AcceptTry else HeadersTry)
    && (AcceptStep(step) ==> s.pc == AcceptTry)
    && (t.pc == AcceptTry || t.pc == AcceptYield ==> s.pc == NotStarted || s.pc == AcceptTry || s.pc == AcceptYield)
    && (Constructed(t.pc) ==> Constructed(s.pc) || s.pc == NotStarted || step == AcceptDone)
  }

  /** The way to the choice of a handler. */
  predicate Asks(s: State, step: Step, t: State) {
    && (t.pc == Create ==> s.pc == HeadersTry && step == Arrived(true))
    && (Refusing(t.pc) ==> Refusing(s.pc) || (s.pc == Create && step == Unrouted))
  }

  /** The way through a handler. */
  predicate Serves(s: State, step: Step, t: State) {
    && (InHandler(t.pc) ==> if InHandler(s.pc) then !step.Routed? else s.pc == Create && step == Routed)
    && (t.pc == LoopTest ==> s.pc == Handler && step == Return)
    && (step.Again? ==> s.pc == LoopTest && s.code == 0 && t.pc == HeadersTry)
    && (step.Leave? ==> s.pc == LoopTest && t.pc == ShutTry)
    && (t.errored <==> HandlerError(s, step) || (s.errored && !step.Routed?))
    && (HandlerError(s, step) ==> t.pc == Handler)
  }

  /** The way out. */
  predicate Leaves(s: State, step: Step, t: State) {
    && s.pc != Finished && (t.pc == Finished <==> EndsSession(s, step))
    && (Paging(t.pc) ==> Paging(s.pc) || (Catches(s, step) && s.canWrite))
  }

  /** The shutdown. */
  predicate Shuts(s: State, step: Step, t: State) {
    && s.pc != Finished
    && (!Shutting(s.pc) ==> (Shutting(t.pc) <==> BeginsShutdown(s, step)) && (Shutting(t.pc) ==> t.tries == 5))
    && (Shutting(s.pc) ==> Shutting(t.pc) || t.pc == Finished)
    && (step.ShutPending? ==> Shutting(s.pc) && Shutting(t.pc) && s.tls && t.tries == s.tries - 1)
    && (!step.ShutPending? && Shutting(s.pc) && Shutting(t.pc) ==> t.tries == s.tries)
  }

  /** Waiting and going on. */
  predicate Waits(s: State, step: Step, t: State) {
    && (Suspended(t) <==> WaitStep(step))
    && (WaitStep(step) ==> t.pc == YieldOf(s.pc) && t.pc != NotStarted)
    && (step.Resume? ==> Suspended(s) && t == Resumed(s, step.code))
  }

  lemma WriteFacts(s: State, n: nat, last: bool)
    requires Writing(s.pc)
    ensures var step, t := Accepted(n, last), Wrote(s, n, last);
            Enters(s, step, t) && Shuts(s, step, t) && Serves(s, step, t) && Waits(s, step, t)
  {
  }

  lemma ResumeEnters(s: State, code: int)
    requires Suspended(s)
    ensures Enters(s, Resume(code), Resumed(s, code))
  {
  }

  lemma StepEnters(s: State, step: Step)
    requires Enabled(s, step)
    ensures Enters(s, step, Next(s, step))
  {
    match step
    case Resume(code) => ResumeEnters(s, code);
    case Accepted(n, last) => WriteFacts(s, n, last);
    case _ =>
  }

  lemma ResumeShuts(s: State, code: int)
    requires Suspended(s)
    ensures Shuts(s, Resume(code), Resumed(s, code))
  {
  }

  lemma StepShuts(s: State, step: Step)
    requires Enabled(s, step)
    ensures Shuts(s, step, Next(s, step))
  {
    match step
    case Resume(code) => ResumeShuts(s, code);
    case Accepted(n, last) => WriteFacts(s, n, last);
    case _ =>
  }

  lemma ResumeServes(s: State, code: int)
    requires Suspended(s)
    ensures Serves(s, Resume(code), Resumed(s, code))
  {
  }

  lemma StepServes(s: State, step: Step)
    requires Enabled(s, step)
    ensures Serves(s, step, Next(s, step))
  {
    match step
    case Resume(code) => ResumeServes(s, code);
    case Accepted(n, last) => WriteFacts(s, n, last);
    case _ =>
  }

  lemma ResumeWaits(s: State, code: int)
    requires Suspended(s)
    ensures Waits(s, Resume(code), Resumed(s, code))
  {
  }

  lemma StepWaits(s: State, step: Step)
    requires Enabled(s, step)
    ensures Waits(s, step, Next(s, step))
  {
    match step
    case Resume(code) => ResumeWaits(s, code);
    case Accepted(n, last) => WriteFacts(s, n, last);
    case _ =>
  }

  /** Where requests and stream calls begin: the headers go on until they are complete, then a handler is looked for. */
  lemma CallsBegin(s: State, step: Step)
    requires Enabled(s, step)
    ensures step.Arrived? && s.pc == HeadersTry ==> Next(s, step).pc == if step.complete then Create else HeadersTry
    ensures step.AcceptDone? ==> Next(s, step).pc == HeadersTry
    ensures step.Routed? ==> Next(s, step).pc == Handler
    ensures step.Unrouted? ==> Next(s, step).pc == NoHandlerTry
    ensures step.CallRead? ==> Next(s, step).pc == if step.finished then Handler else ReadTry
    ensures step.CallWrite? ==> Next(s, step).pc == if step.empty then Handler else WriteTry
    ensures step.CallYield? ==> Next(s, step).pc == PlainYield
    ensures step.Return? ==> Next(s, step).pc == LoopTest
  {
  }

  /** A stream call ends in the handler that made it: when it is complete, or with the error. */
  lemma CallsReturn(s: State, step: Step)
    requires Enabled(s, step) && (s.pc == ReadTry || s.pc == WriteTry)
    ensures Next(s, step).pc == Handler <==>
            step == Arrived(true) || (step.Accepted? && step.last) || HandlerError(s, step)
    ensures Next(s, step).pc == s.pc <==> step == Arrived(false) || (step.Accepted? && !step.last)
  {
  }

  lemma EntersAt(states: seq<State>, steps: seq<Step>, m: nat)
    requires IsPath(states, steps) && m < |steps|
    ensures Enters(states[m], steps[m], states[m + 1])
  {
    assert Leads(states[m], steps[m], states[m + 1]);
    StepEnters(states[m], steps[m]);
  }

  lemma AsksAt(states: seq<State>, steps: seq<Step>, m: nat)
    requires IsPath(states, steps) && m < |steps|
    ensures Asks(states[m], steps[m], states[m + 1])
  {
    assert Leads(states[m], steps[m], states[m + 1]);
  }

  lemma ShutsAt(states: seq<State>, steps: seq<Step>, m: nat)
    requires IsPath(states, steps) && m < |steps|
    ensures Shuts(states[m], steps[m], states[m + 1])
  {
    assert Leads(states[m], steps[m], states[m + 1]);
    StepShuts(states[m], steps[m]);
  }

  lemma ServesAt(states: seq<State>, steps: seq<Step>, m: nat)
    requires IsPath(states, steps) && m < |steps|
    ensures Serves(states[m], steps[m], states[m + 1])
  {
    assert Leads(states[m], steps[m], states[m + 1]);
    StepServes(states[m], steps[m]);
  }

  lemma LeavesAt(states: seq<State>, steps: seq<Step>, m: nat)
    requires IsPath(states, steps) && m < |steps|
    ensures Leaves(states[m], steps[m], states[m + 1])
  {
    assert Leads(states[m], steps[m], states[m + 1]);
  }

  lemma WaitsAt(states: seq<State>, steps: seq<Step>, m: nat)
    requires IsPath(states, steps) && m < |steps|
    ensures Waits(states[m], steps[m], states[m + 1])
  {
    assert Leads(states[m], steps[m], states[m + 1]);
    StepWaits(states[m], steps[m]);
  }

  // ------------------------------------------------- the log

  /** What a step leaves in the log. */
  function EventOf(s: State, step: Step): seq<Event> {
    match step
    case Arrived(_) => if s.pc == HeadersTry then [HeaderBytes] else []
    case CallRead(finished) => if finished then [] else [ReadEntered]
    case Accepted(n, _) => [if s.pc == PageTry then PageSent(n) else Sent(n)]
    case _ => if Catches(s, step) && s.canWrite then [PageStarted] else []
  }

  lemma LogsAt(states: seq<State>, steps: seq<Step>, m: nat)
    requires IsPath(states, steps) && m < |steps|
    ensures states[m + 1].log == states[m].log + EventOf(states[m], steps[m])
  {
    assert Leads(states[m], steps[m], states[m + 1]);
  }

  function History(states: seq<State>, steps: seq<Step>, n: nat): seq<Event>
    requires |states| == |steps| + 1 && n <= |steps|
    decreases n
  {
    if n == 0 then [] else History(states, steps, n - 1) + EventOf(states[n - 1], steps[n - 1])
  }

  /** The log of the page laws is the history of the run. */
  lemma {:induction false} LogIsHistory(states: seq<State>, steps: seq<Step>, n: nat)
    requires IsRun(states, steps) && n <= |steps|
    ensures states[n].log == History(states, steps, n)
  {
    if n > 0 {
      LogIsHistory(states, steps, n - 1);
      LogsAt(states, steps, n - 1);
    }
  }

  // ------------------------------------------------- the handshake

  lemma {:induction false} TlsStays(states: seq<State>, steps: seq<Step>, n: nat)
    requires IsPath(states, steps) && n <= |steps|
    ensures states[n].tls == states[0].tls
    ensures n > 0 ==> states[n].pc != NotStarted
  {
    if n > 0 {
      TlsStays(states, steps, n - 1);
      EntersAt(states, steps, n - 1);
    }
  }

  ghost predicate HandshakeDone(steps: seq<Step>, n: nat)
    requires n <= |steps|
  {
    exists i :: 0 <= i < n && steps[i] == AcceptDone
  }

  /** A TLS session reads, handles, answers or shuts down nothing before its handshake is done. */
  lemma {:induction false} HandshakeFirst(states: seq<State>, steps: seq<Step>, n: nat)
    requires IsRun(states, steps) && states[0].tls && n <= |steps| && Constructed(states[n].pc)
    ensures HandshakeDone(steps, n)
  {
    var m := n - 1;
    TlsStays(states, steps, m);
    EntersAt(states, steps, m);
    if Constructed(states[m].pc) {
      HandshakeFirst(states, steps, m);
      var i :| 0 <= i < m && steps[i] == AcceptDone;
      assert i < n;
    } else {
      assert steps[m] == AcceptDone;
    }
  }

  /** A plain session has none. */
  lemma {:induction false} PlainHasNoHandshake(states: seq<State>, steps: seq<Step>, n: nat)
    requires IsRun(states, steps) && !states[0].tls && n <= |steps|
    ensures states[n].pc != AcceptTry && states[n].pc != AcceptYield
    ensures n < |steps| ==> !AcceptStep(steps[n])
  {
    if n > 0 {
      PlainHasNoHandshake(states, steps, n - 1);
      TlsStays(states, steps, n - 1);
      EntersAt(states, steps, n - 1);
    }
    if n < |steps| {
      EntersAt(states, steps, n);
    }
  }

  // ------------------------------------------------- requests

  /** create_session is reached only by a read that completed the headers. */
  lemma CreateNeedsHeaders(states: seq<State>, steps: seq<Step>, n: nat)
    requires IsRun(states, steps) && n <= |steps| && states[n].pc == Create
    ensures n > 0 && states[n - 1].pc == HeadersTry && steps[n - 1] == Arrived(true)
  {
    AsksAt(states, steps, n - 1);
  }

  /** A request was completed at a and chosen a handler for, or refused one, right after; since then nothing left that place. */
  ghost predicate ServedSince(states: seq<State>, steps: seq<Step>, a: nat, n: nat, choice: Step)
    requires |states| == |steps| + 1 && n <= |steps|
  {
    && a + 2 <= n && states[a].pc == HeadersTry && steps[a] == Arrived(true) && steps[a + 1] == choice
    && forall j :: a + 2 <= j <= n ==> if choice.Routed? then InHandler(states[j].pc) else Refusing(states[j].pc)
  }

  lemma BeginsServed(states: seq<State>, steps: seq<Step>, a: nat, choice: Step)
    requires |states| == |steps| + 1 && a + 1 < |steps|
    requires states[a].pc == HeadersTry && steps[a] == Arrived(true) && steps[a + 1] == choice
    requires if choice.Routed? then InHandler(states[a + 2].pc) else Refusing(states[a + 2].pc)
    ensures ServedSince(states, steps, a, a + 2, choice)
  {
  }

  lemma StillServed(states: seq<State>, steps: seq<Step>, a: nat, m: nat, choice: Step)
    requires |states| == |steps| + 1 && m < |steps| && ServedSince(states, steps, a, m, choice)
    requires if choice.Routed? then InHandler(states[m + 1].pc) else Refusing(states[m + 1].pc)
    ensures ServedSince(states, steps, a, m + 1, choice)
  {
  }

  /** A handler runs only for a request whose headers were completed and that was routed to it, and for that one only. */
  lemma {:induction false} HandlerNeedsRequest(states: seq<State>, steps: seq<Step>, n: nat) returns (a: nat)
    requires IsRun(states, steps) && n <= |steps| && InHandler(states[n].pc)
    ensures ServedSince(states, steps, a, n, Routed)
  {
    var m := n - 1;
    ServesAt(states, steps, m);
    if InHandler(states[m].pc) {
      a := HandlerNeedsRequest(states, steps, m);
      StillServed(states, steps, a, m, Routed);
    } else {
      CreateNeedsHeaders(states, steps, m);
      a := m - 1;
      BeginsServed(states, steps, a, Routed);
    }
  }

  /** And the 503 response is written only for one that found no handler. */
  lemma {:induction false} RefusalNeedsRequest(states: seq<State>, steps: seq<Step>, n: nat) returns (a: nat)
    requires IsRun(states, steps) && n <= |steps| && Refusing(states[n].pc)
    ensures ServedSince(states, steps, a, n, Unrouted)
  {
    var m := n - 1;
    AsksAt(states, steps, m);
    if Refusing(states[m].pc) {
      a := RefusalNeedsRequest(states, steps, m);
      StillServed(states, steps, a, m, Unrouted);
    } else {
      CreateNeedsHeaders(states, steps, m);
      a := m - 1;
      BeginsServed(states, steps, a, Unrouted);
    }
  }

  /** The condition of the loop is looked at only behind a handler that returned; then come the next headers, or the shutdown. */
  lemma LoopFollowsReturn(states: seq<State>, steps: seq<Step>, n: nat)
    requires IsRun(states, steps) && n < |steps| && (steps[n].Again? || steps[n].Leave?)
    ensures n > 0 && states[n - 1].pc == Handler && steps[n - 1] == Return
    ensures steps[n].Again? ==> states[n].code == 0 && states[n + 1].pc == HeadersTry
    ensures steps[n].Leave? ==> states[n + 1].pc == ShutTry
  {
    ServesAt(states, steps, n);
    ServesAt(states, steps, n - 1);
  }

  /** Some step from i on, before n, brought an error to the handler. */
  ghost predicate ErrorBetween(states: seq<State>, steps: seq<Step>, i: nat, n: nat)
    requires |states| == |steps| + 1 && n <= |steps|
  {
    n > i && (HandlerError(states[n - 1], steps[n - 1]) || ErrorBetween(states, steps, i, n - 1))
  }

  lemma {:induction false} ErrorBetweenIs(states: seq<State>, steps: seq<Step>, i: nat, n: nat)
    requires |states| == |steps| + 1 && n <= |steps|
    ensures ErrorBetween(states, steps, i, n) <==> exists j :: i <= j < n && HandlerError(states[j], steps[j])
  {
    if n > i {
      ErrorBetweenIs(states, steps, i, n - 1);
    }
  }

  /** A handler has seen an error exactly when one was brought to it since its request was routed. */
  lemma {:induction false} ErroredIff(states: seq<State>, steps: seq<Step>, n: nat) returns (a: nat)
    requires IsRun(states, steps) && n <= |steps| && InHandler(states[n].pc)
    ensures ServedSince(states, steps, a, n, Routed)
    ensures states[n].errored <==> ErrorBetween(states, steps, a + 2, n)
  {
    var m := n - 1;
    ServesAt(states, steps, m);
    if InHandler(states[m].pc) {
      a := ErroredIff(states, steps, m);
      StillServed(states, steps, a, m, Routed);
    } else {
      CreateNeedsHeaders(states, steps, m);
      a := m - 1;
      BeginsServed(states, steps, a, Routed);
    }
  }

  // ------------------------------------------------- the end

  /** A shutdown under way has been begun. */
  lemma {:induction false} ShutdownIsBegun(states: seq<State>, steps: seq<Step>, n: nat) returns (i: nat)
    requires IsRun(states, steps) && n <= |steps| && Shutting(states[n].pc)
    ensures i < n && BeginsShutdown(states[i], steps[i]) && forall j :: i < j <= n ==> Shutting(states[j].pc)
  {
    var m := n - 1;
    ShutsAt(states, steps, m);
    if Shutting(states[m].pc) {
      i := ShutdownIsBegun(states, steps, m);
    } else {
      i := m;
    }
  }

  lemma {:induction false} PageIsStarted(states: seq<State>, steps: seq<Step>, n: nat)
    requires IsRun(states, steps) && n <= |steps| && Paging(states[n].pc)
    ensures PageStarted in states[n].log
  {
    var m := n - 1;
    LeavesAt(states, steps, m);
    LogsAt(states, steps, m);
    if Paging(states[m].pc) {
      PageIsStarted(states, steps, m);
    }
  }

  /**
    A session that is over ended with its last step: in the shutdown, which was begun before,
    or by a failure of the handshake, or by one of the error page, which was started before.
  */
  lemma FinishedHow(states: seq<State>, steps: seq<Step>)
    requires IsRun(states, steps) && states[|steps|].pc == Finished
    ensures var n := |steps| - 1;
            && n >= 0 && EndsSession(states[n], steps[n])
            && (|| steps[n].AcceptFails? || states[n].pc == AcceptYield
                || (Paging(states[n].pc) && PageStarted in states[n].log)
                || exists i :: 0 <= i < n && BeginsShutdown(states[i], steps[i]))
  {
    var n := |steps| - 1;
    LeavesAt(states, steps, n);
    if Paging(states[n].pc) {
      PageIsStarted(states, steps, n);
    } else if steps[n].ShutDone? || states[n].pc == ShutYield {
      OnlyShutting(states, steps, n);
      var i := ShutdownIsBegun(states, steps, n);
    }
  }

  lemma OnlyShutting(states: seq<State>, steps: seq<Step>, n: nat)
    requires IsPath(states, steps) && n < |steps| && (steps[n].ShutDone? || states[n].pc == ShutYield)
    ensures Shutting(states[n].pc)
  {
    assert Leads(states[n], steps[n], states[n + 1]);
  }

  function ShutdownWaits(steps: seq<Step>): nat {
    if steps == [] then 0
    else ShutdownWaits(steps[..|steps| - 1]) + (if steps[|steps| - 1].ShutPending? then 1 else 0)
  }

  /** The shutdown waits five times at most, and only on TLS. */
  lemma {:induction false} AtMostFiveWaits(states: seq<State>, steps: seq<Step>, n: nat)
    requires IsRun(states, steps) && n <= |steps|
    ensures ShutdownWaits(steps[..n]) <= 5 && (ShutdownWaits(steps[..n]) > 0 ==> states[0].tls)
    ensures Shutting(states[n].pc) ==> ShutdownWaits(steps[..n]) + states[n].tries == 5
    ensures !Shutting(states[n].pc) && states[n].pc != Finished ==> ShutdownWaits(steps[..n]) == 0
  {
    if n > 0 {
      var m := n - 1;
      AtMostFiveWaits(states, steps, m);
      TlsStays(states, steps, m);
      ShutsAt(states, steps, m);
      assert steps[..n][..m] == steps[..m];
    }
  }

  // ------------------------------------------------- resumptions

  /** The first resumption starts the session, whatever it carries. */
  lemma FirstResumption(states: seq<State>, steps: seq<Step>)
    requires IsRun(states, steps) && steps != []
    ensures steps[0].Resume? && states[1].pc == if states[0].tls then AcceptTry else HeadersTry
  {
    EntersAt(states, steps, 0);
  }

  /** Every later one without an error goes back to the call that was waiting, and changes nothing else. */
  lemma ResumptionRepeats(states: seq<State>, steps: seq<Step>, n: nat)
    requires IsRun(states, steps) && 0 < n < |steps| && steps[n] == Resume(0)
    ensures states[n + 1] == states[n].(code := 0, pc := states[n - 1].pc)
  {
    WaitsAt(states, steps, n);
    WaitsAt(states, steps, n - 1);
  }

  /** One with an error reaches the handler that is waiting, the catch blocks, or the end. */
  lemma ErrorResumption(states: seq<State>, steps: seq<Step>, n: nat)
    requires IsRun(states, steps) && 0 < n < |steps| && steps[n].Resume? && steps[n].code != 0
    ensures HandlerYield(states[n].pc) ==> states[n + 1].pc == Handler && states[n + 1].errored
    ensures !HandlerYield(states[n].pc) ==> Catches(states[n], steps[n]) || states[n + 1].pc == Finished
  {
    WaitsAt(states, steps, n);
    TlsStays(states, steps, n);
  }
}
