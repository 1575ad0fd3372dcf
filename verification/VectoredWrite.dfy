/**
  The writing half of BasicHttpSession as functions of a schedule: how much of a buffer list
  reaches the socket when the kernel (or OpenSSL) takes arbitrary short pieces, and exactly
  when the vectored write returns before everything has been sent.
*/
module VectoredWrite {
  import opened Basics
  import opened ByteStrings

  const INT_MAX: nat := 0x7FFF_FFFF

  /** The two session types. */
  datatype Kind = Plain | Tls

  /**
    One writeSome call as the environment decides it. Took: at most `limit` of the offered
    bytes are taken (0 is EAGAIN or WANT_WRITE); if none is, the coroutine yields and is
    resumed with `resume`, 0 meaning no error. `socketSize` is the socket write size that a
    TLS session asks for at the start of every call. Broken: the call fails with an error code.
  */
  datatype Io = Took(limit: nat, resume: int, socketSize: nat) | Broken(code: ErrorCode)

  type ErrorCode = c: int | c != 0 witness 1

  /** How a write ends. Suspended: the schedule ran out while the coroutine was yielded. */
  datatype Status = Done | Threw(code: int) | Suspended

  /** `written` bytes of the flattened buffers went out, `rest` of the schedule is unused. */
  datatype Run = Run(written: nat, status: Status, rest: seq<Io>)

  // ---------------------------------------------------------------- one writeSome

  /** How many bytes, counted from the front, one vectored writeSome hands to the kernel. */
  function Offered(kind: Kind, buffers: seq<Bytes>, socketSize: nat): nat {
    match kind
    case Plain => |Flatten(buffers)|
    case Tls =>
      if (|buffers| > 0 && |buffers[0]| >= socketSize) || |buffers| == 1
      then Min(|buffers[0]|, INT_MAX)
      else Min(Min(|Flatten(buffers)|, socketSize), INT_MAX)
  }

  lemma {:induction false} FlattenContains(buffers: seq<Bytes>)
    ensures |buffers| > 0 ==> buffers[0] <= Flatten(buffers)
    ensures |buffers| == 1 ==> Flatten(buffers) == buffers[0]
  {
    if |buffers| == 1 {
      assert buffers[1..] == [];
    }
  }

  /** Both session types offer a prefix, and a non-empty one whenever there is anything to send. */
  lemma OfferedIsPrefix(kind: Kind, buffers: seq<Bytes>, socketSize: nat)
    ensures Offered(kind, buffers, socketSize) <= |Flatten(buffers)|
    ensures Flatten(buffers) != [] && socketSize > 0 ==> Offered(kind, buffers, socketSize) > 0
  {
    FlattenContains(buffers);
  }

  // ---------------------------------------------------------------- the inner loop

  datatype Remainder = Remainder(buffers: seq<Bytes>, left: nat)

  /**
    The bookkeeping loop after a writeSome of w bytes: fully sent buffers are skipped; the
    first other one is cut, and `left` is what that cut consumed. When every buffer was
    sent the list is left as it was and `left` is zero.
  */
  function Consume(buffers: seq<Bytes>, w: nat): (r: Remainder)
    requires w <= |Flatten(buffers)|
  {
    if buffers == [] then Remainder([], 0)
    else if |buffers[0]| <= w then Consume(buffers[1..], w - |buffers[0]|)
    else Remainder([buffers[0][w..]] + buffers[1..], w)
  }

  /** p is the end of some whole number of buffers. */
  ghost predicate OnBoundary(buffers: seq<Bytes>, p: nat) {
    exists k :: 0 <= k <= |buffers| && p == |Flatten(buffers[..k])|
  }

  lemma {:induction false} FlattenPrefix(buffers: seq<Bytes>, k: nat)
    requires k <= |buffers|
    ensures Flatten(buffers[..k]) <= Flatten(buffers)
  {
    FlattenAppend(buffers[..k], buffers[k..]);
    assert buffers[..k] + buffers[k..] == buffers;
  }

  lemma BoundaryUnderCons(buffers: seq<Bytes>, p: nat)
    requires buffers != []
    ensures OnBoundary(buffers, p) <==>
            p == 0 || (p >= |buffers[0]| && OnBoundary(buffers[1..], p - |buffers[0]|))
  {
    var tail := buffers[1..];
    if p == 0 {
      assert buffers[..0] == [];
    }
    if OnBoundary(buffers, p) && p != 0 {
      var k :| 0 <= k <= |buffers| && p == |Flatten(buffers[..k])|;
      assert k > 0;
      assert buffers[..k][1..] == tail[..k - 1];
    }
    if p >= |buffers[0]| && OnBoundary(tail, p - |buffers[0]|) {
      var k :| 0 <= k <= |tail| && p - |buffers[0]| == |Flatten(tail[..k])|;
      assert buffers[..k + 1][1..] == tail[..k];
    }
  }

  /** Nothing is lost by the loop, and `left` is zero exactly on a buffer boundary. */
  lemma {:induction false} ConsumeSpec(buffers: seq<Bytes>, w: nat)
    requires w <= |Flatten(buffers)|
    ensures Flatten(Consume(buffers, w).buffers) == Flatten(buffers)[w..]
    ensures Consume(buffers, w).left == 0 <==> OnBoundary(buffers, w)
  {
    if buffers == [] {
      assert buffers[..0] == [];
    } else {
      BoundaryUnderCons(buffers, w);
      if |buffers[0]| <= w {
        ConsumeSpec(buffers[1..], w - |buffers[0]|);
        assert Flatten(buffers)[w..] == Flatten(buffers[1..])[w - |buffers[0]|..];
        if w == 0 {
          BoundaryAtZero(buffers[1..]);
        }
      } else {
        var cut := [buffers[0][w..]] + buffers[1..];
        assert cut[1..] == buffers[1..];
        assert Flatten(buffers)[w..] == buffers[0][w..] + Flatten(buffers[1..]);
      }
    }
  }

  lemma BoundaryAtZero(buffers: seq<Bytes>)
    ensures OnBoundary(buffers, 0)
  {
    assert buffers[..0] == [];
  }

  /** Past w, the remainder has the boundaries of the original list. */
  lemma {:induction false} ConsumeKeepsBoundaries(buffers: seq<Bytes>, w: nat, p: nat)
    requires w <= |Flatten(buffers)| && p > 0
    ensures OnBoundary(Consume(buffers, w).buffers, p) <==> OnBoundary(buffers, w + p)
  {
    if buffers == [] {
      assert forall k :: 0 <= k <= |buffers| ==> buffers[..k] == [];
    } else {
      BoundaryUnderCons(buffers, w + p);
      if |buffers[0]| <= w {
        ConsumeKeepsBoundaries(buffers[1..], w - |buffers[0]|, p);
      } else {
        var cut := [buffers[0][w..]] + buffers[1..];
        assert cut[1..] == buffers[1..];
        BoundaryUnderCons(cut, p);
      }
    }
  }

  // ---------------------------------------------------------------- the whole write

  /** Bytes taken by the next writeSome. */
  function Taken(kind: Kind, buffers: seq<Bytes>, io: Io): nat {
    if io.Took? then Min(io.limit, Offered(kind, buffers, io.socketSize)) else 0
  }

  function AddWritten(w: nat, r: Run): Run {
    Run(w + r.written, r.status, r.rest)
  }

  /** What one turn of the outer loop does: throw, yield and retry, return, or send w bytes and go on. */
  datatype Move = Fail(code: int) | Wait | Finish(w: nat) | Advance(w: nat, buffers: seq<Bytes>)

  function NextMove(kind: Kind, buffers: seq<Bytes>, io: Io): Move {
    if io.Broken? then Fail(io.code) else
    var w := Taken(kind, buffers, io);
    if w == 0 then
      if io.resume != 0 then Fail(io.resume) else Wait
    else
      OfferedIsPrefix(kind, buffers, io.socketSize);
      var next := Consume(buffers, w);
      if next.left == 0 then Finish(w) else Advance(w, next.buffers)
  }

  ghost predicate SameBoundariesAfter(buffers: seq<Bytes>, w: nat, next: seq<Bytes>) {
    forall p: nat {:trigger OnBoundary(next, p)} :: p > 0 ==> (OnBoundary(next, p) <==> OnBoundary(buffers, w + p))
  }

  lemma MoveSpec(kind: Kind, buffers: seq<Bytes>, io: Io)
    ensures var m := NextMove(kind, buffers, io);
            && (m.Finish? ==> 0 < m.w <= |Flatten(buffers)| && OnBoundary(buffers, m.w))
            && (m.Advance? ==>
                  && 0 < m.w <= |Flatten(buffers)|
                  && !OnBoundary(buffers, m.w)
                  && Flatten(m.buffers) == Flatten(buffers)[m.w..]
                  && SameBoundariesAfter(buffers, m.w, m.buffers))
  {
    var w := Taken(kind, buffers, io);
    if w > 0 {
      OfferedIsPrefix(kind, buffers, io.socketSize);
      ConsumeSpec(buffers, w);
      forall p: nat | p > 0
        ensures OnBoundary(Consume(buffers, w).buffers, p) <==> OnBoundary(buffers, w + p)
      {
        ConsumeKeepsBoundaries(buffers, w, p);
      }
    }
  }

  /** write(std::vector<ConstBuffer>) under a schedule. */
  function WriteVector(kind: Kind, buffers: seq<Bytes>, script: seq<Io>): Run
    decreases |script|
  {
    if script == [] then Run(0, Suspended, []) else
    match NextMove(kind, buffers, script[0])
    case Fail(code) => Run(0, Threw(code), script[1..])
    case Wait => WriteVector(kind, buffers, script[1..])
    case Finish(w) => Run(w, Done, script[1..])
    case Advance(w, next) => AddWritten(w, WriteVector(kind, next, script[1..]))
  }

  /** write(ConstBuffer) under a schedule. */
  function WriteOne(kind: Kind, buffer: Bytes, script: seq<Io>): Run
    decreases |script|
  {
    if buffer == [] then Run(0, Done, script)
    else if script == [] then Run(0, Suspended, [])
    else if script[0].Broken? then Run(0, Threw(script[0].code), script[1..])
    else
      var w := TakenOne(kind, buffer, script[0]);
      if w == 0 then
        if script[0].resume != 0 then Run(0, Threw(script[0].resume), script[1..])
        else WriteOne(kind, buffer, script[1..])
      else AddWritten(w, WriteOne(kind, buffer[w..], script[1..]))
  }

  function TakenOne(kind: Kind, buffer: Bytes, io: Io): nat {
    if io.Broken? then 0
    else if kind.Plain? then Min(io.limit, |buffer|)
    else Min(io.limit, Min(|buffer|, INT_MAX))
  }

  /** A single-buffer write returns normally exactly when every byte of the buffer was sent. */
  lemma {:induction false} WriteOneExact(kind: Kind, buffer: Bytes, script: seq<Io>)
    ensures var r := WriteOne(kind, buffer, script);
            r.written <= |buffer| && (r.status.Done? <==> r.written == |buffer|)
    decreases |script|
  {
    if buffer != [] && script != [] && script[0].Took? {
      var w := TakenOne(kind, buffer, script[0]);
      WriteOneExact(kind, buffer[w..], script[1..]);
    }
  }

  function SentOne(kind: Kind, buffer: Bytes, script: seq<Io>): Bytes {
    WriteOneExact(kind, buffer, script);
    buffer[..WriteOne(kind, buffer, script).written]
  }

  /**
    The resting points of the send cursor: the position after each non-empty writeSome, up
    to the one that resolves the write.
  */
  function RestingPoints(kind: Kind, buffers: seq<Bytes>, script: seq<Io>): seq<nat>
    decreases |script|
  {
    if script == [] then [] else
    match NextMove(kind, buffers, script[0])
    case Fail(_) => []
    case Wait => RestingPoints(kind, buffers, script[1..])
    case Finish(w) => [w]
    case Advance(w, next) => [w] + Shifted(w, RestingPoints(kind, next, script[1..]))
  }

  function Shifted(w: nat, ps: seq<nat>): (r: seq<nat>)
    ensures |r| == |ps| && forall i :: 0 <= i < |r| ==> r[i] == w + ps[i]
  {
    seq(|ps|, i requires 0 <= i < |ps| => w + ps[i])
  }

  ghost predicate EndsAt(ps: seq<nat>, written: nat) {
    && written == (if ps == [] then 0 else ps[|ps| - 1])
    && forall i :: 0 <= i < |ps| ==> 0 < ps[i] <= written
  }

  lemma {:induction false} DoneRests(kind: Kind, buffers: seq<Bytes>, script: seq<Io>)
    requires WriteVector(kind, buffers, script).status.Done?
    ensures RestingPoints(kind, buffers, script) != []
    decreases |script|
  {
    if NextMove(kind, buffers, script[0]).Wait? {
      DoneRests(kind, buffers, script[1..]);
    }
  }

  lemma ShiftedEndsAt(w: nat, ps: seq<nat>, written: nat)
    requires w > 0 && EndsAt(ps, written)
    ensures EndsAt([w] + Shifted(w, ps), w + written)
  {
  }

  lemma {:induction false} WrittenIsPrefix(kind: Kind, buffers: seq<Bytes>, script: seq<Io>)
    ensures WriteVector(kind, buffers, script).written <= |Flatten(buffers)|
    decreases |script|
  {
    if script != [] {
      MoveSpec(kind, buffers, script[0]);
      match NextMove(kind, buffers, script[0])
      case Fail(_) =>
      case Finish(w) =>
      case Wait => WrittenIsPrefix(kind, buffers, script[1..]);
      case Advance(w, next) => WrittenIsPrefix(kind, next, script[1..]);
    }
  }

  /** What was sent ends at the last resting point. */
  lemma {:induction false} WrittenIsLastRestingPoint(kind: Kind, buffers: seq<Bytes>, script: seq<Io>)
    ensures EndsAt(RestingPoints(kind, buffers, script), WriteVector(kind, buffers, script).written)
    decreases |script|
  {
    if script != [] {
      MoveSpec(kind, buffers, script[0]);
      match NextMove(kind, buffers, script[0])
      case Fail(_) =>
      case Finish(w) =>
      case Wait => WrittenIsLastRestingPoint(kind, buffers, script[1..]);
      case Advance(w, next) =>
        WrittenIsLastRestingPoint(kind, next, script[1..]);
        ShiftedEndsAt(w, RestingPoints(kind, next, script[1..]), WriteVector(kind, next, script[1..]).written);
    }
  }

  function SentVector(kind: Kind, buffers: seq<Bytes>, script: seq<Io>): Bytes {
    WrittenIsPrefix(kind, buffers, script);
    Flatten(buffers)[..WriteVector(kind, buffers, script).written]
  }

  /** The last point of a write that returned, and no other point, ends a whole number of buffers. */
  ghost predicate BoundaryOnlyWhereDone(buffers: seq<Bytes>, ps: seq<nat>, done: bool) {
    forall i :: 0 <= i < |ps| ==> (OnBoundary(buffers, ps[i]) <==> done && i == |ps| - 1)
  }

  /**
    The exact exit condition: the write returns normally at the first resting point that is
    the end of a whole number of buffers, and at no other point.
  */
  lemma {:induction false} ReturnsAtFirstBoundary(kind: Kind, buffers: seq<Bytes>, script: seq<Io>)
    ensures BoundaryOnlyWhereDone(buffers, RestingPoints(kind, buffers, script),
                                  WriteVector(kind, buffers, script).status.Done?)
    decreases |script|
  {
    if script != [] {
      MoveSpec(kind, buffers, script[0]);
      match NextMove(kind, buffers, script[0])
      case Fail(_) =>
      case Finish(w) =>
      case Wait =>
        ReturnsAtFirstBoundary(kind, buffers, script[1..]);
      case Advance(w, next) =>
        ReturnsAtFirstBoundary(kind, next, script[1..]);
        WrittenIsLastRestingPoint(kind, next, script[1..]);
        var done := WriteVector(kind, next, script[1..]).status.Done?;
        if done {
          DoneRests(kind, next, script[1..]);
        }
    }
  }

  /** A boundary with bytes on both sides. */
  ghost predicate InnerBoundary(buffers: seq<Bytes>, p: nat) {
    0 < p < |Flatten(buffers)| && OnBoundary(buffers, p)
  }

  /**
    A vectored write that returns normally has sent a whole number of buffers; it has sent
    all of them unless the cursor came to rest on an inner boundary.
  */
  lemma WriteVectorExact(kind: Kind, buffers: seq<Bytes>, script: seq<Io>)
    requires WriteVector(kind, buffers, script).status.Done?
    ensures var r := WriteVector(kind, buffers, script);
            var ps := RestingPoints(kind, buffers, script);
            && OnBoundary(buffers, r.written)
            && (r.written == |Flatten(buffers)| <==>
                forall i :: 0 <= i < |ps| ==> !InnerBoundary(buffers, ps[i]))
  {
    WrittenIsPrefix(kind, buffers, script);
    WrittenIsLastRestingPoint(kind, buffers, script);
    DoneRests(kind, buffers, script);
    ReturnsAtFirstBoundary(kind, buffers, script);
    var ps := RestingPoints(kind, buffers, script);
    assert OnBoundary(buffers, ps[|ps| - 1]);
  }

  /** A plain socket with room for everything takes it in one call. */
  lemma RoomForAllCompletes(buffers: seq<Bytes>, script: seq<Io>)
    requires Flatten(buffers) != [] && script != [] && script[0].Took? && script[0].limit >= |Flatten(buffers)|
    ensures WriteVector(Plain, buffers, script) == Run(|Flatten(buffers)|, Done, script[1..])
  {
    var n := |Flatten(buffers)|;
    assert buffers[..|buffers|] == buffers;
    ConsumeSpec(buffers, n);
    assert OnBoundary(buffers, n);
    assert NextMove(Plain, buffers, script[0]) == Finish(n);
  }

  // ------------------------------------------------- when no schedule can cut the write short

  /** At most one buffer of the list is non-empty. */
  ghost predicate SingleSegment(buffers: seq<Bytes>) {
    forall i, j :: 0 <= i < j < |buffers| ==> buffers[i] == [] || buffers[j] == []
  }

  lemma {:induction false} AllEmptyFlattens(buffers: seq<Bytes>)
    ensures Flatten(buffers) == [] <==> forall i :: 0 <= i < |buffers| ==> buffers[i] == []
  {
    if buffers != [] {
      AllEmptyFlattens(buffers[1..]);
      assert forall i :: 0 < i < |buffers| ==> buffers[i] == buffers[1..][i - 1];
    }
  }

  /** What stands before and after the first k buffers. */
  lemma CutAt(buffers: seq<Bytes>, k: nat)
    requires k <= |buffers|
    ensures |Flatten(buffers)| == |Flatten(buffers[..k])| + |Flatten(buffers[k..])|
    ensures Flatten(buffers[..k]) != [] <==> exists i :: 0 <= i < k && buffers[i] != []
    ensures Flatten(buffers[k..]) != [] <==> exists j :: k <= j < |buffers| && buffers[j] != []
  {
    FlattenAppend(buffers[..k], buffers[k..]);
    TakeDrop(buffers, k);
    AllEmptyFlattens(buffers[..k]);
    AllEmptyFlattens(buffers[k..]);
    assert forall i :: 0 <= i < k ==> buffers[..k][i] == buffers[i];
    assert forall j :: k <= j < |buffers| ==> buffers[k..][j - k] == buffers[j];
  }

  lemma InnerBoundarySeparates(buffers: seq<Bytes>, p: nat)
    requires InnerBoundary(buffers, p)
    ensures !SingleSegment(buffers)
  {
    var k :| 0 <= k <= |buffers| && p == |Flatten(buffers[..k])|;
    CutAt(buffers, k);
    var i :| 0 <= i < k && buffers[i] != [];
    var j :| k <= j < |buffers| && buffers[j] != [];
  }

  lemma TwoSegmentsHaveBoundary(buffers: seq<Bytes>) returns (p: nat)
    requires !SingleSegment(buffers)
    ensures InnerBoundary(buffers, p)
  {
    var i, j :| 0 <= i < j < |buffers| && buffers[i] != [] && buffers[j] != [];
    CutAt(buffers, j);
    p := |Flatten(buffers[..j])|;
  }

  function Drip(n: nat): seq<Io> {
    seq(n, i => Took(1, 0, 1))
  }

  /** Under the schedule that takes one byte at a time the cursor walks to the first boundary. */
  lemma {:induction false} DripStopsAtFirstBoundary(kind: Kind, buffers: seq<Bytes>, p: nat)
    requires 0 < p <= |Flatten(buffers)| && OnBoundary(buffers, p)
    requires forall q: nat :: 0 < q < p ==> !OnBoundary(buffers, q)
    ensures WriteVector(kind, buffers, Drip(p)) == Run(p, Done, [])
    decreases p
  {
    OfferedIsPrefix(kind, buffers, 1);
    var next := Consume(buffers, 1);
    ConsumeSpec(buffers, 1);
    assert Drip(p)[0] == Took(1, 0, 1) && Drip(p)[1..] == Drip(p - 1);
    if p > 1 {
      ConsumeKeepsBoundaries(buffers, 1, p - 1);
      forall q: nat | 0 < q < p - 1
        ensures !OnBoundary(next.buffers, q)
      {
        ConsumeKeepsBoundaries(buffers, 1, q);
      }
      DripStopsAtFirstBoundary(kind, next.buffers, p - 1);
    }
  }

  lemma {:induction false} LeastInnerBoundary(buffers: seq<Bytes>, p: nat) returns (q: nat)
    requires InnerBoundary(buffers, p)
    ensures InnerBoundary(buffers, q) && forall j: nat :: 0 < j < q ==> !OnBoundary(buffers, j)
    decreases p
  {
    if j: nat :| 0 < j < p && OnBoundary(buffers, j) {
      q := LeastInnerBoundary(buffers, j);
    } else {
      q := p;
    }
  }

  /**
    What a caller can check: every schedule under which the write returns normally sends
    everything if and only if at most one buffer is non-empty.
  */
  lemma ReliableIffSingleSegment(kind: Kind, buffers: seq<Bytes>)
    ensures (forall script: seq<Io> {:trigger WriteVector(kind, buffers, script)} ::
               WriteVector(kind, buffers, script).status.Done? ==>
                 WriteVector(kind, buffers, script).written == |Flatten(buffers)|)
            <==> SingleSegment(buffers)
  {
    if SingleSegment(buffers) {
      forall script: seq<Io> | WriteVector(kind, buffers, script).status.Done?
        ensures WriteVector(kind, buffers, script).written == |Flatten(buffers)|
      {
        WriteVectorExact(kind, buffers, script);
        forall p: nat | InnerBoundary(buffers, p)
          ensures false
        {
          InnerBoundarySeparates(buffers, p);
        }
      }
    } else {
      var p := TwoSegmentsHaveBoundary(buffers);
      var q := LeastInnerBoundary(buffers, p);
      DripStopsAtFirstBoundary(kind, buffers, q);
      assert WriteVector(kind, buffers, Drip(q)).written == q;
    }
  }

  // ------------------------------------------------- how a write ends, call by call

  /** A call takes nothing when the kernel allows nothing or when there is nothing to offer it. */
  lemma TakesNothingIff(kind: Kind, buffers: seq<Bytes>, io: Io)
    requires io.Took?
    ensures Taken(kind, buffers, io) == 0 <==>
            || io.limit == 0 || Flatten(buffers) == []
            || (kind.Tls? && io.socketSize == 0 && |buffers| > 0 && buffers[0] == [])
  {
    FlattenContains(buffers);
  }

  /** What is left to send after one call that neither fails nor ends the write. */
  function AfterCall(kind: Kind, buffers: seq<Bytes>, io: Io): seq<Bytes> {
    var w := Taken(kind, buffers, io);
    if w == 0 then buffers
    else
      OfferedIsPrefix(kind, buffers, io.socketSize);
      Consume(buffers, w).buffers
  }

  /** The list before call i. */
  function BeforeCall(kind: Kind, buffers: seq<Bytes>, script: seq<Io>, i: nat): seq<Bytes>
    requires i <= |script|
    decreases i
  {
    if i == 0 then buffers else AfterCall(kind, BeforeCall(kind, buffers, script, i - 1), script[i - 1])
  }

  /** The call fails: the system call does, or nothing is taken and the yield is resumed with an error. */
  predicate CallFails(kind: Kind, buffers: seq<Bytes>, io: Io) {
    io.Broken? || (io.resume != 0 && Taken(kind, buffers, io) == 0)
  }

  /** The error a failing call brings. */
  function CodeOf(io: Io): int {
    match io
    case Broken(code) => code
    case Took(_, resume, _) => resume
  }

  /** The call takes something and ends exactly behind a buffer. */
  ghost predicate CallRests(kind: Kind, buffers: seq<Bytes>, io: Io) {
    Taken(kind, buffers, io) > 0 && OnBoundary(buffers, Taken(kind, buffers, io))
  }

  ghost predicate CallPasses(kind: Kind, buffers: seq<Bytes>, io: Io) {
    !CallRests(kind, buffers, io) && !CallFails(kind, buffers, io)
  }

  /** None of the first n calls fails or rests on a boundary. */
  ghost predicate AllPass(kind: Kind, buffers: seq<Bytes>, script: seq<Io>, n: nat)
    requires n <= |script|
  {
    n > 0 ==>
      AllPass(kind, buffers, script, n - 1) && CallPasses(kind, BeforeCall(kind, buffers, script, n - 1), script[n - 1])
  }

  lemma {:induction false} BeforeCallShifts(kind: Kind, buffers: seq<Bytes>, script: seq<Io>, i: nat)
    requires 0 < i <= |script|
    ensures BeforeCall(kind, buffers, script, i) == BeforeCall(kind, AfterCall(kind, buffers, script[0]), script[1..], i - 1)
  {
    if i > 1 {
      BeforeCallShifts(kind, buffers, script, i - 1);
    } else {
      assert BeforeCall(kind, buffers, script, 0) == buffers;
    }
  }

  lemma {:induction false} AllPassShifts(kind: Kind, buffers: seq<Bytes>, script: seq<Io>, n: nat)
    requires 0 < n <= |script| && AllPass(kind, buffers, script, n)
    ensures CallPasses(kind, buffers, script[0])
    ensures AllPass(kind, AfterCall(kind, buffers, script[0]), script[1..], n - 1)
  {
    if n > 1 {
      AllPassShifts(kind, buffers, script, n - 1);
      BeforeCallShifts(kind, buffers, script, n - 1);
    } else {
      assert BeforeCall(kind, buffers, script, 0) == buffers;
    }
  }

  /** One turn of the loop, from the fields of the call alone. */
  lemma MoveIs(kind: Kind, buffers: seq<Bytes>, io: Io)
    ensures NextMove(kind, buffers, io).Fail? <==> CallFails(kind, buffers, io)
    ensures CallFails(kind, buffers, io) ==> NextMove(kind, buffers, io) == Fail(CodeOf(io))
    ensures NextMove(kind, buffers, io).Finish? <==> CallRests(kind, buffers, io)
    ensures CallPasses(kind, buffers, io) ==>
              match NextMove(kind, buffers, io)
              case Wait => AfterCall(kind, buffers, io) == buffers
              case Advance(_, next) => AfterCall(kind, buffers, io) == next
              case _ => false
  {
    MoveSpec(kind, buffers, io);
  }

  lemma PassingCall(kind: Kind, buffers: seq<Bytes>, script: seq<Io>)
    requires script != [] && CallPasses(kind, buffers, script[0])
    ensures var r, next := WriteVector(kind, buffers, script),
                           WriteVector(kind, AfterCall(kind, buffers, script[0]), script[1..]);
            r.status == next.status && r.rest == next.rest
  {
    MoveIs(kind, buffers, script[0]);
  }

  /**
    How a vectored write ends: its first call that fails or rests on a boundary decides,
    with the error code of that call, and what stands behind it in the schedule is left; if
    there is none, the schedule is used up and the coroutine is still suspended.
  */
  lemma {:induction false} WriteVectorEnds(kind: Kind, buffers: seq<Bytes>, script: seq<Io>, n: nat)
    requires n <= |script| && AllPass(kind, buffers, script, n)
    ensures var r := WriteVector(kind, buffers, script);
            if n == |script| then r.status.Suspended? && r.rest == []
            else
              var here := BeforeCall(kind, buffers, script, n);
              && (CallFails(kind, here, script[n]) ==> r.status == Threw(CodeOf(script[n])) && r.rest == script[n + 1..])
              && (CallRests(kind, here, script[n]) ==> r.status.Done? && r.rest == script[n + 1..])
    decreases n
  {
    if n > 0 {
      var next := AfterCall(kind, buffers, script[0]);
      AllPassShifts(kind, buffers, script, n);
      WriteVectorEnds(kind, next, script[1..], n - 1);
      BeforeCallShifts(kind, buffers, script, n);
      PassingCall(kind, buffers, script);
    } else if script != [] {
      MoveIs(kind, buffers, script[0]);
    }
  }

  /** The first call that decides, or the end of the schedule. */
  lemma {:induction false} FirstEnd(kind: Kind, buffers: seq<Bytes>, script: seq<Io>, m: nat) returns (n: nat)
    requires m <= |script| && AllPass(kind, buffers, script, m)
    ensures n <= |script| && AllPass(kind, buffers, script, n)
    ensures n < |script| ==> !CallPasses(kind, BeforeCall(kind, buffers, script, n), script[n])
    decreases |script| - m
  {
    if m < |script| && CallPasses(kind, BeforeCall(kind, buffers, script, m), script[m]) {
      n := FirstEnd(kind, buffers, script, m + 1);
    } else {
      n := m;
    }
  }

  /** A vectored write throws c exactly when some call fails with c and none before it failed or rested. */
  lemma WriteVectorThrowsIff(kind: Kind, buffers: seq<Bytes>, script: seq<Io>, c: int)
    ensures WriteVector(kind, buffers, script).status == Threw(c) <==>
            exists n :: 0 <= n < |script| && AllPass(kind, buffers, script, n)
                        && CallFails(kind, BeforeCall(kind, buffers, script, n), script[n]) && c == CodeOf(script[n])
  {
    var n := FirstEnd(kind, buffers, script, 0);
    WriteVectorEnds(kind, buffers, script, n);
    forall m | 0 <= m < |script| && AllPass(kind, buffers, script, m)
               && CallFails(kind, BeforeCall(kind, buffers, script, m), script[m]) && c == CodeOf(script[m])
      ensures WriteVector(kind, buffers, script).status == Threw(c)
    {
      WriteVectorEnds(kind, buffers, script, m);
    }
  }

  /** And is still suspended exactly when no call of the schedule fails or rests. */
  lemma WriteVectorSuspendedIff(kind: Kind, buffers: seq<Bytes>, script: seq<Io>)
    ensures WriteVector(kind, buffers, script).status.Suspended? <==> AllPass(kind, buffers, script, |script|)
  {
    var n := FirstEnd(kind, buffers, script, 0);
    WriteVectorEnds(kind, buffers, script, n);
    if AllPass(kind, buffers, script, |script|) {
      WriteVectorEnds(kind, buffers, script, |script|);
    }
  }

  // ------------------------------------------------- the same for a single buffer

  /** What is left of the buffer before call i. */
  function OneBefore(kind: Kind, buffer: Bytes, script: seq<Io>, i: nat): Bytes
    requires i <= |script|
    decreases i
  {
    if i == 0 then buffer
    else
      var b := OneBefore(kind, buffer, script, i - 1);
      b[TakenOne(kind, b, script[i - 1])..]
  }

  /** The call fails: the system call does, or it takes nothing and the yield is resumed with an error. */
  predicate OneFails(io: Io) {
    io.Broken? || (io.limit == 0 && io.resume != 0)
  }

  ghost predicate OnePasses(kind: Kind, buffer: Bytes, script: seq<Io>, n: nat)
    requires n <= |script|
  {
    n > 0 ==>
      OnePasses(kind, buffer, script, n - 1) && OneBefore(kind, buffer, script, n - 1) != [] && !OneFails(script[n - 1])
  }

  lemma {:induction false} OneBeforeShifts(kind: Kind, buffer: Bytes, script: seq<Io>, i: nat)
    requires 0 < i <= |script|
    ensures OneBefore(kind, buffer, script, i) ==
            OneBefore(kind, buffer[TakenOne(kind, buffer, script[0])..], script[1..], i - 1)
  {
    if i > 1 {
      OneBeforeShifts(kind, buffer, script, i - 1);
    } else {
      assert OneBefore(kind, buffer, script, 0) == buffer;
    }
  }

  lemma {:induction false} OnePassesShifts(kind: Kind, buffer: Bytes, script: seq<Io>, n: nat)
    requires 0 < n <= |script| && OnePasses(kind, buffer, script, n)
    ensures buffer != [] && !OneFails(script[0])
    ensures OnePasses(kind, buffer[TakenOne(kind, buffer, script[0])..], script[1..], n - 1)
  {
    if n > 1 {
      OnePassesShifts(kind, buffer, script, n - 1);
      OneBeforeShifts(kind, buffer, script, n - 1);
    } else {
      assert OneBefore(kind, buffer, script, 0) == buffer;
    }
  }

  /** How a single-buffer write ends: at the first call that fails, or before the first that has nothing to send. */
  lemma {:induction false} WriteOneEnds(kind: Kind, buffer: Bytes, script: seq<Io>, n: nat)
    requires n <= |script| && OnePasses(kind, buffer, script, n)
    ensures var r, left := WriteOne(kind, buffer, script), OneBefore(kind, buffer, script, n);
            && (left == [] ==> r.status.Done? && r.rest == script[n..])
            && (left != [] && n == |script| ==> r.status.Suspended? && r.rest == [])
            && (left != [] && n < |script| ==>
                  OneFails(script[n]) ==> r.status == Threw(CodeOf(script[n])) && r.rest == script[n + 1..])
    decreases n
  {
    if n > 0 {
      OnePassesShifts(kind, buffer, script, n);
      WriteOneEnds(kind, buffer[TakenOne(kind, buffer, script[0])..], script[1..], n - 1);
      OneBeforeShifts(kind, buffer, script, n);
    }
  }

  lemma {:induction false} FirstOneEnd(kind: Kind, buffer: Bytes, script: seq<Io>, m: nat) returns (n: nat)
    requires m <= |script| && OnePasses(kind, buffer, script, m)
    ensures n <= |script| && OnePasses(kind, buffer, script, n)
    ensures n < |script| && OneBefore(kind, buffer, script, n) != [] ==> OneFails(script[n])
    decreases |script| - m
  {
    if m < |script| && OneBefore(kind, buffer, script, m) != [] && !OneFails(script[m]) {
      n := FirstOneEnd(kind, buffer, script, m + 1);
    } else {
      n := m;
    }
  }

  /** A single-buffer write throws c exactly when a call fails with c while something is left and none failed before. */
  lemma WriteOneThrowsIff(kind: Kind, buffer: Bytes, script: seq<Io>, c: int)
    ensures WriteOne(kind, buffer, script).status == Threw(c) <==>
            exists n :: 0 <= n < |script| && OnePasses(kind, buffer, script, n)
                        && OneBefore(kind, buffer, script, n) != [] && OneFails(script[n]) && c == CodeOf(script[n])
  {
    var n := FirstOneEnd(kind, buffer, script, 0);
    WriteOneEnds(kind, buffer, script, n);
    forall m | 0 <= m < |script| && OnePasses(kind, buffer, script, m)
               && OneBefore(kind, buffer, script, m) != [] && OneFails(script[m]) && c == CodeOf(script[m])
      ensures WriteOne(kind, buffer, script).status == Threw(c)
    {
      WriteOneEnds(kind, buffer, script, m);
    }
  }

  /** A vectored write of one buffer is the single-buffer write, on both session types. */
  lemma {:induction false} OneBufferIsWriteOne(kind: Kind, buffer: Bytes, script: seq<Io>)
    requires buffer != []
    ensures WriteVector(kind, [buffer], script) == WriteOne(kind, buffer, script)
    decreases |script|
  {
    if script != [] && script[0].Took? {
      var w := TakenOne(kind, buffer, script[0]);
      OneBufferTaken(kind, buffer, script[0]);
      if 0 < w < |buffer| {
        OneBufferIsWriteOne(kind, buffer[w..], script[1..]);
      } else if w == 0 {
        OneBufferIsWriteOne(kind, buffer, script[1..]);
      }
    }
  }

  lemma OneBufferTaken(kind: Kind, buffer: Bytes, io: Io)
    requires buffer != [] && io.Took?
    ensures var w := TakenOne(kind, buffer, io);
            && Taken(kind, [buffer], io) == w <= |buffer| && (kind.Tls? ==> w <= INT_MAX)
            && (w > 0 ==> NextMove(kind, [buffer], io) == if w == |buffer| then Finish(w) else Advance(w, [buffer[w..]]))
  {
    FlattenContains([buffer]);
    assert [buffer][1..] == [];
    var w := TakenOne(kind, buffer, io);
    if 0 < w < |buffer| {
      assert Consume([buffer], w) == Remainder([buffer[w..]] + [], w);
      assert [buffer[w..]] + [] == [buffer[w..]];
    } else if w > 0 {
      assert Consume([buffer], w) == Consume([buffer][1..], 0);
    }
  }
}
