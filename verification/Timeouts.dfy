/** The timeout half of one event loop iteration, and what it means over many iterations. */
module Timeouts {
  import opened Basics

  // Time points are nanoseconds of the clock; 0 is TimePoint{}, no deadline.
  const MS: nat := 1_000_000

  predicate Expired(d: nat, now: nat) {
    d != 0 && d <= now
  }

  predicate Pending(d: nat, now: nat) {
    d > now
  }

  /** What one pending deadline asks for, in milliseconds. */
  function Wanted(d: nat, now: nat): int {
    Max(1000, (d - now) / 1_000_000 + 50)
  }

  /**
    Visits a snapshot: `deadlines` is what each session answers when it is asked, after it
    was woken up if it had to be. `fired` are the sessions timed out, in order.
  */
  method Visit(now: nat, deadlines: seq<nat>) returns (fired: seq<nat>, timeout: int)
    ensures forall i :: 0 <= i < |deadlines| ==> (i in fired <==> 0 < deadlines[i] <= now)
    ensures forall j :: 0 <= j < |fired| ==> fired[j] < |deadlines|
    ensures forall j, k :: 0 <= j < k < |fired| ==> fired[j] < fired[k]
    ensures timeout == -1 <==> forall i :: 0 <= i < |deadlines| ==> deadlines[i] <= now
    ensures forall i :: 0 <= i < |deadlines| && deadlines[i] > now ==>
              timeout <= Max(1000, (deadlines[i] - now) / 1_000_000 + 50)
    ensures timeout != -1 ==> exists i :: 0 <= i < |deadlines| && deadlines[i] > now
                                          && timeout == Max(1000, (deadlines[i] - now) / 1_000_000 + 50)
    ensures IsWait(now, deadlines, timeout)
  {
    timeout := -1;
    fired := [];
    for i := 0 to |deadlines|
      invariant forall j :: 0 <= j < |fired| ==> fired[j] < i
      invariant forall j, k :: 0 <= j < k < |fired| ==> fired[j] < fired[k]
      invariant forall j :: 0 <= j < i ==> (j in fired <==> Expired(deadlines[j], now))
      invariant IsWait(now, deadlines[..i], timeout)
    {
      var d := deadlines[i];
      WaitGrows(now, deadlines, i, timeout);
      if d == 0 {
        continue;
      }
      if d <= now {
        fired := fired + [i];
      } else {
        var next := Wanted(d, now);
        timeout := if timeout != -1 then Min(timeout, next) else next;
      }
    }
    assert deadlines[..|deadlines|] == deadlines;
    WaitIs(now, deadlines, timeout);
  }

  lemma WaitIs(now: nat, deadlines: seq<nat>, timeout: int)
    requires IsWait(now, deadlines, timeout)
    ensures timeout == -1 <==> forall i :: 0 <= i < |deadlines| ==> deadlines[i] <= now
    ensures forall i :: 0 <= i < |deadlines| && deadlines[i] > now ==>
              timeout <= Max(1000, (deadlines[i] - now) / 1_000_000 + 50)
    ensures timeout != -1 ==> exists i :: 0 <= i < |deadlines| && deadlines[i] > now
                                          && timeout == Max(1000, (deadlines[i] - now) / 1_000_000 + 50)
  {
    forall i | 0 <= i < |deadlines| && deadlines[i] > now
      ensures timeout <= Wanted(deadlines[i], now) && timeout != -1
    {
      assert deadlines[i] in deadlines && Pending(deadlines[i], now);
    }
    if d :| d in deadlines && Pending(d, now) {
      var e :| e in deadlines && Pending(e, now) && timeout == Wanted(e, now);
      var i :| 0 <= i < |deadlines| && deadlines[i] == e;
    }
  }

  /** The deadlines of the sessions that have one. */
  function Armed(deadlines: seq<nat>): seq<nat> {
    if deadlines == [] then []
    else
      var n := |deadlines| - 1;
      Armed(deadlines[..n]) + (if deadlines[n] == 0 then [] else [deadlines[n]])
  }

  /** How many of the first i sessions have a deadline: where session i stands among those. */
  function Rank(deadlines: seq<nat>, i: nat): nat
    requires i <= |deadlines|
  {
    |Armed(deadlines[..i])|
  }

  lemma {:induction false} ArmedAt(deadlines: seq<nat>, i: nat)
    requires i < |deadlines| && deadlines[i] != 0
    ensures Rank(deadlines, i) < |Armed(deadlines)| && Armed(deadlines)[Rank(deadlines, i)] == deadlines[i]
  {
    var n := |deadlines| - 1;
    if i < n {
      assert deadlines[..n][..i] == deadlines[..i];
      ArmedAt(deadlines[..n], i);
    } else {
      assert deadlines[..i] == deadlines[..n];
    }
  }

  lemma {:induction false} ArmedHas(deadlines: seq<nat>, d: nat)
    ensures d in Armed(deadlines) <==> d in deadlines && d != 0
  {
    if deadlines != [] {
      var n := |deadlines| - 1;
      ArmedHas(deadlines[..n], d);
      assert deadlines == deadlines[..n] + [deadlines[n]];
    }
  }

  /** A session without a deadline plays no role: the wait is the same without it, and it is never timed out. */
  lemma ZerosPlayNoRole(now: nat, deadlines: seq<nat>, timeout: int, i: nat)
    requires i < |deadlines|
    ensures IsWait(now, deadlines, timeout) <==> IsWait(now, Armed(deadlines), timeout)
    ensures Expired(deadlines[i], now) <==>
            deadlines[i] != 0 && Rank(deadlines, i) < |Armed(deadlines)| && Expired(Armed(deadlines)[Rank(deadlines, i)], now)
  {
    forall d: nat
      ensures d in Armed(deadlines) <==> d in deadlines && d != 0
    {
      ArmedHas(deadlines, d);
    }
    assert forall d: nat :: d in Armed(deadlines) && Pending(d, now) <==> d in deadlines && Pending(d, now);
    if deadlines[i] != 0 {
      ArmedAt(deadlines, i);
    }
  }

  /** The wait is -1 exactly when nothing is pending, and otherwise the least that is wanted. */
  ghost predicate IsWait(now: nat, deadlines: seq<nat>, timeout: int) {
    if exists d :: d in deadlines && Pending(d, now)
    then
      && (exists d :: d in deadlines && Pending(d, now) && timeout == Wanted(d, now))
      && (forall d :: d in deadlines && Pending(d, now) ==> timeout <= Wanted(d, now))
    else timeout == -1
  }

  lemma WaitGrows(now: nat, deadlines: seq<nat>, i: nat, timeout: int)
    requires i < |deadlines| && IsWait(now, deadlines[..i], timeout)
    ensures !Pending(deadlines[i], now) ==> IsWait(now, deadlines[..i + 1], timeout)
    ensures Pending(deadlines[i], now) ==>
              IsWait(now, deadlines[..i + 1],
                     if timeout != -1 then Min(timeout, Wanted(deadlines[i], now)) else Wanted(deadlines[i], now))
  {
    var all := deadlines[..i + 1];
    assert all == deadlines[..i] + [deadlines[i]];
    assert forall d :: d in all <==> d in deadlines[..i] || d == deadlines[i];
  }

  /** The wait is bounded below by a second, and wakes in time for every pending deadline. */
  lemma WaitBounds(now: nat, deadlines: seq<nat>, timeout: int, d: nat)
    requires IsWait(now, deadlines, timeout) && d in deadlines && Pending(d, now)
    ensures timeout >= 1000
    ensures now + timeout * MS <= Max(now + 1000 * MS, d + 50 * MS)
  {
    var e :| e in deadlines && Pending(e, now) && timeout == Wanted(e, now);
    assert timeout <= Wanted(d, now);
    var q := (d - now) / 1_000_000;
    assert q * 1_000_000 <= d - now;
  }

  // ------------------------------------------------- what epoll_wait is given

  /** The wait narrowed to epoll_wait's int parameter; epoll_wait takes a negative one as no limit. */
  function EpollArgument(timeout: int): int {
    var low := timeout % 0x1_0000_0000;
    if low < 0x8000_0000 then low else low - 0x1_0000_0000
  }

  predicate Blocks(timeout: int) {
    EpollArgument(timeout) < 0
  }

  /** Narrowing never lengthens a wait, and keeps one that fits. */
  lemma NarrowedWait(timeout: nat)
    ensures EpollArgument(timeout) <= timeout
    ensures EpollArgument(timeout) == timeout <==> timeout < 0x8000_0000
    ensures 0x8000_0000 <= timeout < 0x1_0000_0000 ==> Blocks(timeout)
  {
  }

  // How far ahead a deadline may be: 2^31 milliseconds, less the fifty that are added.
  const REACH: nat := (0x8000_0000 - 50) * MS

  /** One pending deadline within reach is enough for the wait to arrive as computed. */
  lemma NearDeadlineKeepsWait(now: nat, deadlines: seq<nat>, timeout: int, d: nat)
    requires IsWait(now, deadlines, timeout) && d in deadlines && Pending(d, now) && d - now < REACH
    ensures EpollArgument(timeout) == timeout && !Blocks(timeout)
  {
    WaitBounds(now, deadlines, timeout, d);
    assert timeout <= Wanted(d, now);
    assert (d - now) / 1_000_000 < 0x8000_0000 - 50;
    NarrowedWait(timeout);
  }

  // ------------------------------------------------- many iterations

  /** One turn of the loop: when it looked at the clock, and what the snapshot answered. */
  datatype Turn = Turn(now: nat, deadlines: seq<nat>, timeout: int)

  /**
    Each turn begins when the wait of the one before ends, at most `slack` later; after a
    wait without limit it begins at any time.
  */
  ghost predicate Timeline(turns: seq<Turn>, slack: nat) {
    && (forall i {:trigger turns[i]} :: 0 <= i < |turns| ==> IsWait(turns[i].now, turns[i].deadlines, turns[i].timeout))
    && (forall i {:trigger turns[i + 1]} :: 0 <= i < |turns| - 1 && !Blocks(turns[i].timeout) ==>
          turns[i + 1].now <= turns[i].now + EpollArgument(turns[i].timeout) * MS + slack)
  }

  /** While d is pending, the next turn starts at most one second and the slack after d. */
  lemma NeverSleepsPast(turns: seq<Turn>, slack: nat, d: nat, m: nat)
    requires Timeline(turns, slack) && m < |turns| - 1 && !Blocks(turns[m].timeout)
    requires d in turns[m].deadlines && Pending(d, turns[m].now)
    ensures turns[m].timeout != -1 && turns[m + 1].now <= d + 1000 * MS + slack
  {
    var t := turns[m];
    WaitBounds(t.now, t.deadlines, t.timeout, d);
    NarrowedWait(t.timeout);
    assert turns[m + 1].now <= t.now + EpollArgument(t.timeout) * MS + slack;
  }

  /** The earliest pending deadline decides the wait. */
  lemma EarliestDecides(now: nat, deadlines: seq<nat>, timeout: int, e: nat)
    requires IsWait(now, deadlines, timeout) && IsEarliest(now, deadlines, e)
    ensures timeout == Wanted(e, now)
  {
    var d :| d in deadlines && Pending(d, now) && timeout == Wanted(d, now);
    assert (e - now) / 1_000_000 <= (d - now) / 1_000_000;
  }

  ghost predicate IsEarliest(now: nat, deadlines: seq<nat>, e: nat) {
    e in deadlines && Pending(e, now) && forall d :: d in deadlines && Pending(d, now) ==> e <= d
  }

  /**
    And exactly then: a turn with a pending deadline is followed in time, whatever happens, if
    and only if what its earliest pending deadline wants, in milliseconds and modulo 2^32, is
    below 2^31.
  */
  lemma FollowedInTimeIff(t: Turn, slack: nat, d: nat, e: nat)
    requires IsWait(t.now, t.deadlines, t.timeout) && d in t.deadlines && Pending(d, t.now)
    requires IsEarliest(t.now, t.deadlines, e)
    ensures (forall next: Turn {:trigger Timeline([t, next], slack)} ::
               Timeline([t, next], slack) ==> next.now <= d + 1000 * MS + slack) <==>
            Wanted(e, t.now) % 0x1_0000_0000 < 0x8000_0000
  {
    EarliestDecides(t.now, t.deadlines, t.timeout, e);
    if Blocks(t.timeout) {
      var late := Turn(d + 1000 * MS + slack + 1, [], -1);
      assert Timeline([t, late], slack);
    } else {
      forall next: Turn | Timeline([t, next], slack)
        ensures next.now <= d + 1000 * MS + slack
      {
        NeverSleepsPast([t, next], slack, d, 0);
      }
    }
  }

  /** Farther out a wait can also be cut short: to nothing, so that the loop spins, or to -1. */
  lemma FarDeadlineWraps(now: nat, timeout: int)
    ensures IsWait(now, [now + (0x1_0000_0000 - 50) * MS], timeout) ==> EpollArgument(timeout) == 0
    ensures IsWait(now, [now + (0x1_0000_0000 - 51) * MS], timeout) ==> EpollArgument(timeout) == -1
  {
    var d, e := now + (0x1_0000_0000 - 50) * MS, now + (0x1_0000_0000 - 51) * MS;
    if IsWait(now, [d], timeout) {
      EarliestDecides(now, [d], timeout, d);
    }
    if IsWait(now, [e], timeout) {
      EarliestDecides(now, [e], timeout, e);
    }
  }

  /** The deadline ioLoop sets for a request with a body, in seconds of keep-alive and half megabytes. */
  function BodyDeadline(began: nat, keepAlive: nat, contentLength: nat): nat {
    began + (keepAlive + contentLength / (512 * 1024)) * 1000 * MS
  }

  /**
    It can happen: an announced body of some 1.13 terabytes puts the deadline out of reach,
    and if it is the only one pending the loop waits without limit.
  */
  lemma LargeBodyBlocks(began: nat, elapsed: nat, keepAlive: nat, contentLength: nat, timeout: int)
    requires 2_147_484 <= keepAlive + contentLength / (512 * 1024) < 4_294_967 && elapsed <= 400 * MS
    requires IsWait(began + elapsed, [BodyDeadline(began, keepAlive, contentLength)], timeout)
    ensures Blocks(timeout)
  {
    var d, now := BodyDeadline(began, keepAlive, contentLength), began + elapsed;
    assert Pending(d, now) && d in [d];
    var q := (d - now) / 1_000_000;
    assert 0x8000_0000 - 50 <= q < 0x1_0000_0000 - 50;
    NarrowedWait(timeout);
  }

  /**
    A session that answers the deadline d in every turn, first while d is still ahead, is
    timed out by the first turn that begins at or after d, and that turn begins at most one
    second and the slack after d, as long as no wait on the way was narrowed to a negative one.
  */
  lemma {:induction false} NoticedWithinASecond(turns: seq<Turn>, slack: nat, d: nat, n: nat) returns (m: nat)
    requires Timeline(turns, slack) && n < |turns| && d <= turns[n].now
    requires forall i :: 0 <= i <= n ==> d in turns[i].deadlines
    requires forall i :: 0 <= i < n && Pending(d, turns[i].now) ==> !Blocks(turns[i].timeout)
    requires Pending(d, turns[0].now)
    ensures m <= n && Expired(d, turns[m].now) && forall i :: 0 <= i < m ==> Pending(d, turns[i].now)
    ensures turns[m].now <= d + 1000 * MS + slack
    decreases n
  {
    if k :| 0 <= k < n && !Pending(d, turns[k].now) {
      m := NoticedWithinASecond(turns, slack, d, k);
    } else {
      m := n;
      var last := n - 1;
      NeverSleepsPast(turns, slack, d, last);
    }
  }

  /** So a deadline that is always within reach is noticed in time. */
  lemma NearDeadlineIsNoticed(turns: seq<Turn>, slack: nat, d: nat, n: nat) returns (m: nat)
    requires Timeline(turns, slack) && n < |turns| && d <= turns[n].now
    requires forall i :: 0 <= i <= n ==> d in turns[i].deadlines && d < turns[i].now + REACH
    requires Pending(d, turns[0].now)
    ensures m <= n && Expired(d, turns[m].now) && turns[m].now <= d + 1000 * MS + slack
  {
    forall i | 0 <= i < n && Pending(d, turns[i].now)
      ensures !Blocks(turns[i].timeout)
    {
      NearDeadlineKeepsWait(turns[i].now, turns[i].deadlines, turns[i].timeout, d);
    }
    m := NoticedWithinASecond(turns, slack, d, n);
  }
}
