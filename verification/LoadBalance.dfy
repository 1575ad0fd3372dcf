/**
  The least-loaded scan of the acceptor over k event loops whose sessions come and go while
  it scans: no loop ever holds more than its fair share of the peak.
*/
module LoadBalance {
  import opened Basics

  /**
    What the acceptor is doing. Scanning: `i` is the loop it compares next, `seen` the half of
    the comparison that has been read, in either order, and `start` recalls the loads when the
    scan began. Inserted: the session is in m_sessions, the counter is not incremented yet.
  */
  datatype Phase =
    | Idle
    | Scanning(best: nat, i: nat, seen: Seen, start: seq<int>)
    | Inserted(best: nat)

  datatype Seen = Neither | BestSeen(load: int) | OtherSeen(load: int)

  /**
    Per loop: `held` is the size of m_sessions, `leaving` the sessions erased from it whose
    decrement is still to come, `counter` is m_activeSessions. `peak` recalls the largest
    number of connections so far.
  */
  datatype State = State(phase: Phase, held: seq<nat>, leaving: seq<nat>, counter: seq<int>, peak: nat)

  datatype Step =
    | Accept
    | ReadBest
    | ReadLoop
    | Abandon            // the construction of the session threw
    | Insert
    | Increment
    | Erase(loop: nat)
    | Decrement(loop: nat)

  function Sum(s: seq<int>): int {
    if s == [] then 0 else s[0] + Sum(s[1..])
  }

  /** Connections accepted and not yet fully unregistered. */
  function Connections(s: State): int {
    Sum(s.held) + Sum(s.leaving) + (if s.phase.Scanning? then 1 else 0)
  }

  predicate Shape(s: State, k: nat) {
    && k > 0 && |s.held| == |s.leaving| == |s.counter| == k
    && (s.phase.Scanning? ==>
          s.phase.best < s.phase.i <= k && |s.phase.start| == k && (!s.phase.seen.Neither? ==> s.phase.i < k))
    && (s.phase.Inserted? ==> s.phase.best < k)
  }

  predicate Enabled(s: State, step: Step, k: nat)
    requires Shape(s, k)
  {
    match step
    case Accept => s.phase.Idle?
    case ReadBest => s.phase.Scanning? && s.phase.i < k && !s.phase.seen.BestSeen?
    case ReadLoop => s.phase.Scanning? && s.phase.i < k && !s.phase.seen.OtherSeen?
    case Abandon => s.phase.Scanning? && s.phase.i == k
    case Insert => s.phase.Scanning? && s.phase.i == k
    case Increment => s.phase.Inserted?
    case Erase(j) => j < k && s.held[j] > 0
    case Decrement(j) => j < k && s.leaving[j] > 0
  }

  /** Both halves of the comparison have been read. */
  function Compared(p: Phase, best: int, other: int): Phase
    requires p.Scanning?
  {
    Scanning(if best > other then p.i else p.best, p.i + 1, Neither, p.start)
  }

  function Act(s: State, step: Step, k: nat): State
    requires Shape(s, k) && Enabled(s, step, k)
  {
    match step
    case Accept => s.(phase := Scanning(0, 1, Neither, s.counter))
    case ReadBest =>
      var load := s.counter[s.phase.best];
      s.(phase := if s.phase.seen.Neither? then s.phase.(seen := BestSeen(load)) else Compared(s.phase, load, s.phase.seen.load))
    case ReadLoop =>
      var load := s.counter[s.phase.i];
      s.(phase := if s.phase.seen.Neither? then s.phase.(seen := OtherSeen(load)) else Compared(s.phase, s.phase.seen.load, load))
    case Abandon => s.(phase := Idle)
    case Insert => s.(phase := Inserted(s.phase.best), held := s.held[s.phase.best := s.held[s.phase.best] + 1])
    case Increment => s.(phase := Idle, counter := s.counter[s.phase.best := s.counter[s.phase.best] + 1])
    case Erase(j) => s.(held := s.held[j := s.held[j] - 1], leaving := s.leaving[j := s.leaving[j] + 1])
    case Decrement(j) => s.(leaving := s.leaving[j := s.leaving[j] - 1], counter := s.counter[j := s.counter[j] - 1])
  }

  function Next(s: State, step: Step, k: nat): State
    requires Shape(s, k) && Enabled(s, step, k)
  {
    var t := Act(s, step, k);
    t.(peak := Max(s.peak, Connections(t)))
  }

  /** 1 for the loop whose counter the acceptor is about to increment. */
  function Owed(phase: Phase, j: nat): nat {
    if phase.Inserted? && phase.best == j then 1 else 0
  }

  /** Every counter is the registered count, corrected by the steps in flight. */
  ghost predicate Exact(s: State, k: nat)
    requires Shape(s, k)
  {
    forall j :: 0 <= j < k ==> s.counter[j] == s.held[j] + s.leaving[j] - Owed(s.phase, j)
  }

  /** Loads only fall during a scan, and the best loop so far is below all loops compared. */
  ghost predicate ScanOk(s: State, k: nat)
    requires Shape(s, k)
  {
    s.phase.Scanning? ==>
      var p := s.phase;
      && (forall j :: 0 <= j < k ==> s.counter[j] <= p.start[j])
      && (forall j :: 0 <= j < p.i ==> s.counter[p.best] <= p.start[j])
      && (p.seen.BestSeen? ==> s.counter[p.best] <= p.seen.load && forall j :: 0 <= j < p.i ==> p.seen.load <= p.start[j])
      && (p.seen.OtherSeen? ==> s.counter[p.i] <= p.seen.load <= p.start[p.i])
      && Sum(p.start) + 1 <= s.peak
  }

  /** The bound as a product: h sessions on one of k loops need a peak above k * (h - 1). */
  ghost predicate Fair(s: State, k: nat)
    requires Shape(s, k)
  {
    && Connections(s) <= s.peak
    && forall j :: 0 <= j < k && s.held[j] > 0 ==> k * (s.held[j] - 1) < s.peak
  }

  ghost predicate Inv(s: State, k: nat) {
    Shape(s, k) && Exact(s, k) && ScanOk(s, k) && Fair(s, k)
  }

  // ------------------------------------------------- sums

  lemma {:induction false} SumUpdate(s: seq<int>, j: nat, v: int)
    requires j < |s|
    ensures Sum(s[j := v]) == Sum(s) - s[j] + v
  {
    if j > 0 {
      SumUpdate(s[1..], j - 1, v);
      assert s[j := v][1..] == s[1..][j - 1 := v];
    } else {
      assert s[j := v][1..] == s[1..];
    }
  }

  lemma {:induction false} SumAbove(s: seq<int>, c: int)
    requires forall j :: 0 <= j < |s| ==> c <= s[j]
    ensures |s| * c <= Sum(s)
  {
    if s != [] {
      SumAbove(s[1..], c);
      assert |s| * c == (|s| - 1) * c + c;
    }
  }

  lemma {:induction false} SumPointwise(a: seq<int>, b: seq<int>, c: seq<int>)
    requires |a| == |b| == |c| && forall j :: 0 <= j < |a| ==> a[j] == b[j] + c[j]
    ensures Sum(a) == Sum(b) + Sum(c)
  {
    if a != [] {
      SumPointwise(a[1..], b[1..], c[1..]);
    }
  }

  // ------------------------------------------------- every step keeps the invariant

  lemma ReadsKeepScan(s: State, step: Step, k: nat)
    requires Inv(s, k) && Enabled(s, step, k) && (step.ReadBest? || step.ReadLoop?)
    ensures Shape(Next(s, step, k), k) && ScanOk(Next(s, step, k), k)
  {
  }

  lemma ScanKept(s: State, step: Step, k: nat)
    requires Inv(s, k) && Enabled(s, step, k)
    ensures Shape(Next(s, step, k), k) && ScanOk(Next(s, step, k), k)
  {
    if step.ReadBest? || step.ReadLoop? {
      ReadsKeepScan(s, step, k);
    } else if step.Accept? {
      SumPointwise(s.counter, s.held, s.leaving);
    }
  }

  /** The loop chosen is at most at the average of the loads at scan start. */
  lemma ChosenIsBelowAverage(s: State, k: nat)
    requires Inv(s, k) && Enabled(s, Insert, k)
    ensures k * s.held[s.phase.best] < s.peak
  {
    var c := s.counter[s.phase.best];
    SumAbove(s.phase.start, c);
    assert s.held[s.phase.best] <= c;
    MulMonotone(k, s.held[s.phase.best], c);
  }

  lemma MulMonotone(k: nat, a: int, b: int)
    requires a <= b
    ensures k * a <= k * b
  {
  }

  lemma FairKept(s: State, step: Step, k: nat)
    requires Inv(s, k) && Enabled(s, step, k)
    ensures Shape(Next(s, step, k), k) && Fair(Next(s, step, k), k)
  {
    var t := Next(s, step, k);
    if step.Insert? {
      ChosenIsBelowAverage(s, k);
    }
    forall j | 0 <= j < k && t.held[j] > 0
      ensures k * (t.held[j] - 1) < t.peak
    {
      if step.Erase? && step.loop == j {
        MulMonotone(k, t.held[j] - 1, s.held[j] - 1);
      }
    }
  }

  lemma StepKeepsInv(s: State, step: Step, k: nat)
    requires Inv(s, k) && Enabled(s, step, k)
    ensures Inv(Next(s, step, k), k)
  {
    ScanKept(s, step, k);
    FairKept(s, step, k);
  }

  /** Whenever the scan can read a counter, its 32-bit value is the true number of sessions. */
  lemma ScanReadsTrueCounts(s: State, k: nat, j: nat)
    requires Inv(s, k) && s.phase.Scanning? && j < k && s.peak < 0x1_0000_0000
    ensures s.counter[j] % 0x1_0000_0000 == s.counter[j] == s.held[j] + s.leaving[j]
  {
    SumOfNats(s.held, j);
    SumOfNats(s.leaving, j);
  }

  lemma {:induction false} SumOfNats(s: seq<nat>, j: nat)
    requires j < |s|
    ensures s[j] <= Sum(s)
  {
    SumAbove(s, 0);
    if j > 0 {
      SumOfNats(s[1..], j - 1);
    } else {
      SumAbove(s[1..], 0);
    }
  }

  // ------------------------------------------------- runs

  function Zeros(k: nat): seq<nat> {
    seq(k, i => 0)
  }

  function Initial(k: nat): State {
    State(Idle, Zeros(k), Zeros(k), Zeros(k), 0)
  }

  lemma {:induction false} SumZeros(k: nat)
    ensures Sum(Zeros(k)) == 0
  {
    if k > 0 {
      SumZeros(k - 1);
      assert Zeros(k)[1..] == Zeros(k - 1);
    }
  }

  ghost predicate Leads(s: State, step: Step, t: State, k: nat) {
    Shape(s, k) && Enabled(s, step, k) && t == Next(s, step, k)
  }

  ghost predicate IsPath(states: seq<State>, steps: seq<Step>, k: nat) {
    && |states| == |steps| + 1
    && forall i :: 0 <= i < |steps| ==> Leads(states[i], steps[i], states[i + 1], k)
  }

  ghost predicate IsRun(states: seq<State>, steps: seq<Step>, k: nat) {
    k > 0 && IsPath(states, steps, k) && states[0] == Initial(k)
  }

  lemma {:induction false} RunKeepsInv(states: seq<State>, steps: seq<Step>, k: nat, n: nat)
    requires IsRun(states, steps, k) && n < |states|
    ensures Inv(states[n], k)
  {
    if n == 0 {
      SumZeros(k);
    } else {
      RunKeepsInv(states, steps, k, n - 1);
      assert Leads(states[n - 1], steps[n - 1], states[n - 1 + 1], k);
      StepKeepsInv(states[n - 1], steps[n - 1], k);
    }
  }

  function CeilDiv(p: nat, k: nat): nat
    requires k > 0
  {
    (p + k - 1) / k
  }

  lemma CeilFromProduct(h: nat, p: nat, k: nat)
    requires k > 0 && k * (h - 1) < p
    ensures h <= CeilDiv(p, k)
  {
    var q, r := (p + k - 1) / k, (p + k - 1) % k;
    assert p + k - 1 == k * q + r;
    if h > q {
      MulMonotone(k, q, h - 1);
      assert false;
    }
  }

  lemma {:induction false} PeakIsReached(states: seq<State>, steps: seq<Step>, k: nat, n: nat) returns (m: nat)
    requires IsRun(states, steps, k) && n < |states|
    ensures m <= n && states[n].peak == Connections(states[m])
  {
    if n == 0 {
      m := 0;
      SumZeros(k);
    } else if states[n].peak == Connections(states[n]) {
      m := n;
    } else {
      assert Leads(states[n - 1], steps[n - 1], states[n - 1 + 1], k);
      m := PeakIsReached(states, steps, k, n - 1);
    }
  }

  /**
    In every run over k loops, at every moment, no loop holds more than the k-th part,
    rounded up, of the number of connections at some moment so far.
  */
  lemma NoLoopAboveItsShare(states: seq<State>, steps: seq<Step>, k: nat, n: nat, j: nat) returns (m: nat)
    requires IsRun(states, steps, k) && n < |states| && j < k
    ensures Shape(states[n], k) && m <= n && Connections(states[m]) >= 0
    ensures states[n].held[j] <= CeilDiv(Connections(states[m]), k)
  {
    RunKeepsInv(states, steps, k, n);
    m := PeakIsReached(states, steps, k, n);
    var h := states[n].held[j];
    if h > 0 {
      CeilFromProduct(h, states[n].peak, k);
    }
  }

  // ------------------------------------------------- the connection being accepted counts

  lemma SumTwo(a: int, b: int)
    ensures Sum([a, b]) == a + b
  {
    assert Sum([b]) == b + Sum([b][1..]);
    assert [a, b][1..] == [b];
  }

  /** Two loops with one session each. */
  function Balanced(): State {
    State(Idle, [1, 1], [0, 0], [1, 1], 2)
  }

  /** Never more than n registered sessions. */
  ghost predicate AtMost(states: seq<State>, n: int) {
    forall i :: 0 <= i < |states| ==> Sum(states[i].held) <= n
  }

  predicate NoneLeaving(s: State) {
    forall j :: 0 <= j < |s.leaving| ==> s.leaving[j] == 0
  }

  /** An accept finds every erased session counted down. */
  predicate AcceptsClean(s: State, step: Step) {
    step.Accept? ==> NoneLeaving(s)
  }

  /** No session is erased between an accept and its insertion. */
  predicate ErasesClean(s: State, step: Step) {
    step.Erase? ==> !s.phase.Scanning?
  }

  ghost predicate EachAccept(states: seq<State>, steps: seq<Step>) {
    |states| == |steps| + 1 && forall i :: 0 <= i < |steps| ==> AcceptsClean(states[i], steps[i])
  }

  ghost predicate EachErase(states: seq<State>, steps: seq<Step>) {
    |states| == |steps| + 1 && forall i :: 0 <= i < |steps| ==> ErasesClean(states[i], steps[i])
  }

  lemma PathAppend(a: seq<State>, p: seq<Step>, b: seq<State>, q: seq<Step>, k: nat)
    requires IsPath(a, p, k) && IsPath(b, q, k) && a[|p|] == b[0]
    ensures IsPath(a + b[1..], p + q, k) && (a + b[1..])[|p + q|] == b[|q|]
  {
    var c, r := a + b[1..], p + q;
    forall i | 0 <= i < |r|
      ensures Leads(c[i], r[i], c[i + 1], k)
    {
      if i < |p| {
        assert Leads(a[i], p[i], a[i + 1], k);
      } else {
        assert Leads(b[i - |p|], q[i - |p|], b[i - |p| + 1], k);
      }
    }
  }

  /** What the two runs below keep on the way: at most two registered, and clean accepts or erasures. */
  ghost predicate Within(states: seq<State>, steps: seq<Step>) {
    IsRun(states, steps, 2) && AtMost(states, 2) && EachErase(states, steps)
  }

  /** One step of two loops, with the sums written out. */
  lemma ExtendTwo(states: seq<State>, steps: seq<Step>, s: State, step: Step, t: State)
    requires Within(states, steps) && states[|steps|] == s && Shape(s, 2) && Enabled(s, step, 2)
    requires Act(s, step, 2).(peak := t.peak) == t && |t.held| == |t.leaving| == 2
    requires var n := t.held[0] + t.held[1];
             n <= 2 && t.peak == Max(s.peak, n + t.leaving[0] + t.leaving[1] + (if t.phase.Scanning? then 1 else 0))
    requires ErasesClean(s, step)
    ensures Within(states + [t], steps + [step])
    ensures EachAccept(states, steps) && AcceptsClean(s, step) ==> EachAccept(states + [t], steps + [step])
  {
    assert t.held == [t.held[0], t.held[1]] && t.leaving == [t.leaving[0], t.leaving[1]];
    SumTwo(t.held[0], t.held[1]);
    SumTwo(t.leaving[0], t.leaving[1]);
  }

  /** An accept and its scan with nothing in between. */
  lemma QuietScan(states0: seq<State>, steps0: seq<Step>, s: State, best: nat)
      returns (states: seq<State>, steps: seq<Step>)
    requires Within(states0, steps0) && EachAccept(states0, steps0) && states0[|steps0|] == s
    requires Shape(s, 2) && s.phase.Idle? && s.leaving == [0, 0] && s.held[0] + s.held[1] == s.peak < 2
    requires best == if s.counter[0] > s.counter[1] then 1 else 0
    ensures Within(states, steps) && EachAccept(states, steps)
    ensures states[|steps|] == s.(phase := Scanning(best, 2, Neither, s.counter), peak := s.peak + 1)
  {
    var s1 := s.(phase := Scanning(0, 1, Neither, s.counter), peak := s.peak + 1);
    var s2 := s1.(phase := Scanning(0, 1, BestSeen(s.counter[0]), s.counter));
    var s3 := s1.(phase := Scanning(best, 2, Neither, s.counter));
    ExtendTwo(states0, steps0, s, Accept, s1);
    states, steps := states0 + [s1], steps0 + [Accept];
    ExtendTwo(states, steps, s1, ReadBest, s2);
    states, steps := states + [s2], steps + [ReadBest];
    ExtendTwo(states, steps, s2, ReadLoop, s3);
    states, steps := states + [s3], steps + [ReadLoop];
  }

  /** The insertion and the increment after it. */
  lemma QuietInsert(states0: seq<State>, steps0: seq<Step>, s: State, t: State)
      returns (states: seq<State>, steps: seq<Step>)
    requires Within(states0, steps0) && EachAccept(states0, steps0) && states0[|steps0|] == s
    requires Shape(s, 2) && s.phase.Scanning? && s.phase.i == 2
    requires s.leaving == [0, 0] && s.held[0] + s.held[1] + 1 == s.peak <= 2
    requires var b := s.phase.best;
             t == State(Idle, s.held[b := s.held[b] + 1], [0, 0], s.counter[b := s.counter[b] + 1], s.peak)
    ensures Within(states, steps) && EachAccept(states, steps) && states[|steps|] == t
  {
    var s1 := s.(phase := Inserted(s.phase.best), held := t.held);
    ExtendTwo(states0, steps0, s, Insert, s1);
    states, steps := states0 + [s1], steps0 + [Insert];
    ExtendTwo(states, steps, s1, Increment, t);
    states, steps := states + [t], steps + [Increment];
  }

  /** The first connection goes to the first loop. */
  lemma ReachOne() returns (states: seq<State>, steps: seq<Step>)
    ensures Within(states, steps) && states[|steps|] == State(Idle, [1, 0], [0, 0], [1, 0], 1)
    ensures EachAccept(states, steps)
  {
    var s := State(Idle, [0, 0], [0, 0], [0, 0], 0);
    assert Initial(2) == s && Sum([0, 0]) == 0 by {
      SumTwo(0, 0);
    }
    states, steps := QuietScan([s], [], s, 0);
    states, steps := QuietInsert(states, steps, states[|steps|], State(Idle, [1, 0], [0, 0], [1, 0], 1));
  }

  /** And the second to the second. */
  lemma ReachBalanced() returns (states: seq<State>, steps: seq<Step>)
    ensures Within(states, steps) && states[|steps|] == Balanced() && EachAccept(states, steps)
  {
    states, steps := ReachOne();
    states, steps := QuietScan(states, steps, states[|steps|], 1);
    states, steps := QuietInsert(states, steps, states[|steps|], Balanced());
  }

  /** The new connection's scan reads both loads before anybody leaves. */
  function Scanned(): State {
    State(Scanning(0, 2, Neither, [1, 1]), [1, 1], [0, 0], [1, 1], 3)
  }

  lemma ScanBoth() returns (states: seq<State>, steps: seq<Step>)
    ensures IsPath(states, steps, 2) && states[0] == Balanced() && states[|steps|] == Scanned()
    ensures AtMost(states, 2) && EachAccept(states, steps)
  {
    steps := [Accept, ReadBest, ReadLoop];
    var s1 := Scanned().(phase := Scanning(0, 1, Neither, [1, 1]));
    var s2 := Scanned().(phase := Scanning(0, 1, BestSeen(1), [1, 1]));
    states := [Balanced(), s1, s2, Scanned()];
    SumTwo(1, 1);
    SumTwo(0, 0);
    assert Leads(Balanced(), Accept, s1, 2);
    assert Leads(s1, ReadBest, s2, 2);
    assert Leads(s2, ReadLoop, Scanned(), 2);
  }

  /** Then the session of the second loop leaves, and the new one is inserted into the first. */
  lemma LeaveThenInsert() returns (states: seq<State>, steps: seq<Step>)
    ensures IsPath(states, steps, 2) && states[0] == Scanned() && states[|steps|].held == [2, 0]
    ensures AtMost(states, 2) && EachAccept(states, steps)
  {
    steps := [Erase(1), Decrement(1), Insert];
    var s1 := Scanned().(held := [1, 0], leaving := [0, 1]);
    var s2 := s1.(leaving := [0, 0], counter := [1, 0]);
    var s3 := s2.(phase := Inserted(0), held := [2, 0]);
    states := [Scanned(), s1, s2, s3];
    SumTwo(1, 1);
    SumTwo(1, 0);
    SumTwo(0, 1);
    SumTwo(0, 0);
    SumTwo(2, 0);
    assert Leads(Scanned(), Erase(1), s1, 2);
    assert Leads(s1, Decrement(1), s2, 2);
    assert Leads(s2, Insert, s3, 2);
  }

  /**
    The peak of the registered sessions alone does not bound the share. With one session on
    each of two loops, the second leaves after the scan has read its load, and the new one
    lands on the first: two registered sessions at most, ever, and both on one loop. Every
    accept found no session leaving.
  */
  lemma RegisteredPeakIsNotEnough() returns (states: seq<State>, steps: seq<Step>)
    ensures IsRun(states, steps, 2) && AtMost(states, 2) && EachAccept(states, steps)
    ensures states[|steps|].held == [2, 0] && CeilDiv(2, 2) < 2
  {
    var a, p := ReachBalanced();
    var b, q := ScanBoth();
    var c, r := LeaveThenInsert();
    PathAppend(a, p, b, q, 2);
    PathAppend(a + b[1..], p + q, c, r, 2);
    states, steps := (a + b[1..]) + c[1..], (p + q) + r;
  }

  /** The session of the second loop has been erased and is still counted when a scan begins. */
  function Stale(): State {
    State(Scanning(0, 1, Neither, [1, 1]), [1, 0], [0, 1], [1, 1], 3)
  }

  lemma ReachStale() returns (states: seq<State>, steps: seq<Step>)
    ensures Within(states, steps) && states[|steps|] == Stale()
  {
    states, steps := ReachBalanced();
    var left := State(Idle, [1, 0], [0, 1], [1, 1], 2);
    ExtendTwo(states, steps, Balanced(), Erase(1), left);
    states, steps := states + [left], steps + [Erase(1)];
    ExtendTwo(states, steps, left, Accept, Stale());
    states, steps := states + [Stale()], steps + [Accept];
  }

  /** The other half of the hypothesis is needed too: here no session is erased during a scan. */
  lemma StaleCountIsNotEnough() returns (states: seq<State>, steps: seq<Step>)
    ensures IsRun(states, steps, 2) && AtMost(states, 2) && EachErase(states, steps)
    ensures states[|steps|].held == [2, 0] && CeilDiv(2, 2) < 2
  {
    states, steps := ReachStale();
    var s1 := Stale().(phase := Scanning(0, 1, BestSeen(1), [1, 1]));
    var s2 := Stale().(phase := Scanning(0, 2, Neither, [1, 1]));
    var s3 := Stale().(phase := Inserted(0), held := [2, 0]);
    ExtendTwo(states, steps, Stale(), ReadBest, s1);
    states, steps := states + [s1], steps + [ReadBest];
    ExtendTwo(states, steps, s1, ReadLoop, s2);
    states, steps := states + [s2], steps + [ReadLoop];
    ExtendTwo(states, steps, s2, Insert, s3);
    states, steps := states + [s3], steps + [Insert];
  }

  // ------------------------------------------------- when the registered peak is enough

  /** In a calm run the loads stand still while they are scanned. */
  ghost predicate Still(s: State, k: nat) {
    Shape(s, k) && (s.phase.Scanning? ==> NoneLeaving(s) && forall j :: 0 <= j < k ==> s.held[j] == s.phase.start[j])
  }

  lemma {:induction false} CalmRunIsStill(states: seq<State>, steps: seq<Step>, k: nat, n: nat)
    requires IsRun(states, steps, k) && EachAccept(states, steps) && EachErase(states, steps) && n < |states|
    ensures Still(states[n], k)
  {
    if n > 0 {
      var m := n - 1;
      CalmRunIsStill(states, steps, k, m);
      RunKeepsInv(states, steps, k, m);
      assert Leads(states[m], steps[m], states[m + 1], k);
    }
  }

  /** The loop a still scan chooses is at most at the average of what is registered now. */
  lemma StillChoice(s: State, k: nat)
    requires Inv(s, k) && Still(s, k) && Enabled(s, Insert, k)
    ensures k * s.held[s.phase.best] < Sum(Next(s, Insert, k).held)
  {
    SumAbove(s.phase.start, s.counter[s.phase.best]);
    assert s.phase.start == s.held;
    SumUpdate(s.held, s.phase.best, s.held[s.phase.best] + 1);
  }

  /** A load within its share of some number stays so, or is within its share of what is registered now. */
  lemma StepKeepsShare(s: State, step: Step, k: nat, j: nat, registered: int)
    requires Inv(s, k) && Still(s, k) && Enabled(s, step, k) && j < k
    requires s.held[j] > 0 ==> k * (s.held[j] - 1) < registered
    ensures |Next(s, step, k).held| == k
    ensures var h := Next(s, step, k).held[j];
            h > 0 ==> k * (h - 1) < if h > s.held[j] then Sum(Next(s, step, k).held) else registered
  {
    if step.Insert? && s.phase.best == j {
      StillChoice(s, k);
    } else {
      MulMonotone(k, Next(s, step, k).held[j] as int - 1, s.held[j] as int - 1);
    }
  }

  lemma {:induction false} CalmShare(states: seq<State>, steps: seq<Step>, k: nat, n: nat, j: nat) returns (m: nat)
    requires IsRun(states, steps, k) && EachAccept(states, steps) && EachErase(states, steps) && n < |states| && j < k
    ensures Shape(states[n], k) && m <= n
    ensures states[n].held[j] > 0 ==> k * (states[n].held[j] - 1) < Sum(states[m].held)
    decreases n
  {
    RunKeepsInv(states, steps, k, n);
    if n == 0 {
      m := 0;
    } else {
      var i := n - 1;
      m := CalmShare(states, steps, k, i, j);
      CalmRunIsStill(states, steps, k, i);
      RunKeepsInv(states, steps, k, i);
      assert Leads(states[i], steps[i], states[i + 1], k);
      StepKeepsShare(states[i], steps[i], k, j, Sum(states[m].held));
      m := if states[n].held[j] > states[i].held[j] then n else m;
    }
  }

  /**
    In a run in which every accept finds no session leaving, and no session is erased while
    a scan is under way, no loop ever holds more than the k-th part, rounded up, of the number
    of registered sessions at some moment so far.
  */
  lemma RegisteredPeakIsEnoughWhenCalm(states: seq<State>, steps: seq<Step>, k: nat, n: nat, j: nat) returns (m: nat)
    requires IsRun(states, steps, k) && EachAccept(states, steps) && EachErase(states, steps) && n < |states| && j < k
    ensures Shape(states[n], k) && m <= n && Sum(states[m].held) >= 0
    ensures states[n].held[j] <= CeilDiv(Sum(states[m].held), k)
  {
    m := CalmShare(states, steps, k, n, j);
    RunKeepsInv(states, steps, k, m);
    SumAbove(states[m].held, 0);
    if states[n].held[j] > 0 {
      CeilFromProduct(states[n].held[j], Sum(states[m].held), k);
    }
  }

  ghost predicate WithinShare(states: seq<State>, k: nat, n: nat, j: nat)
    requires n < |states|
  {
    Shape(states[n], k) && j < k && exists m :: 0 <= m <= n && ShareOf(states[m], states[n].held[j], k)
  }

  /** A load of h is at most the k-th part, rounded up, of what is registered. */
  predicate ShareOf(s: State, h: nat, k: nat)
    requires k > 0
  {
    Sum(s.held) >= 0 && h <= CeilDiv(Sum(s.held), k)
  }

  ghost predicate RegisteredFair(states: seq<State>, k: nat) {
    forall n: nat, j: nat :: n < |states| && j < k ==> WithinShare(states, k, n, j)
  }

  /** Runs that meet the chosen half, both halves, or none of the hypothesis. */
  ghost predicate Calm(states: seq<State>, steps: seq<Step>, accepts: bool, erasures: bool) {
    (accepts ==> EachAccept(states, steps)) && (erasures ==> EachErase(states, steps))
  }

  lemma NotFair(states: seq<State>, n: nat)
    requires n < |states| && AtMost(states, 2) && states[n].held == [2, 0]
    ensures !RegisteredFair(states, 2)
  {
    assert !WithinShare(states, 2, n, 0);
  }

  /** Of the two hypotheses, both are needed and both together are enough. */
  lemma RegisteredFairIff(accepts: bool, erasures: bool)
    ensures (forall states: seq<State>, steps: seq<Step> {:trigger IsRun(states, steps, 2)} ::
               IsRun(states, steps, 2) && Calm(states, steps, accepts, erasures) ==> RegisteredFair(states, 2))
            <==> accepts && erasures
  {
    if !erasures {
      var states, steps := RegisteredPeakIsNotEnough();
      NotFair(states, |steps|);
      assert IsRun(states, steps, 2) && Calm(states, steps, accepts, erasures);
    } else if !accepts {
      var states, steps := StaleCountIsNotEnough();
      NotFair(states, |steps|);
      assert IsRun(states, steps, 2) && Calm(states, steps, accepts, erasures);
    } else {
      forall states: seq<State>, steps: seq<Step>, n: nat, j: nat |
        IsRun(states, steps, 2) && Calm(states, steps, true, true) && n < |states| && j < 2
        ensures WithinShare(states, 2, n, j)
      {
        var m := RegisteredPeakIsEnoughWhenCalm(states, steps, 2, n, j);
        assert ShareOf(states[m], states[n].held[j], 2);
      }
    }
  }
}
