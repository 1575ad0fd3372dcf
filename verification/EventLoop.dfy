/**
  SessionsEventLoop's bookkeeping methods as the source runs them, each shown to be a
  sequence of steps of the interleaved model.
*/
module EventLoop {
  import opened SessionLifetime

  class SessionsEventLoop {
    var sessions: set<Ptr>
    var polled: set<Ptr>
    var deleteLaterObjects: set<Ptr>
    var activeSessions: nat
    ghost var alive: set<Ptr>

    /** The fields are those of the abstract state. */
    ghost predicate Represents(s: State)
      reads this
    {
      && sessions == s.sessions && polled == s.polled && deleteLaterObjects == s.deleteLater
      && activeSessions == Counter32(s.active) && alive == s.alive
    }

    constructor ()
      ensures Represents(Initial())
    {
      sessions, polled, deleteLaterObjects, activeSessions, alive := {}, {}, {}, 0, {};
    }

    /** registerSession of a constructed session. */
    method RegisterSession(session: Ptr, ghost s: State) returns (ghost t: State)
      requires Represents(s) && s.acceptor == Constructed(session)
      modifies this
      ensures t == Next(Next(s, Register), Count) && Represents(t)
      ensures sessions == old(sessions) + {session} && polled == old(polled) + {session}
      ensures deleteLaterObjects == old(deleteLaterObjects) && alive == old(alive)
      ensures activeSessions == (old(activeSessions) + 1) % 0x1_0000_0000
    {
      t := Next(s, Register);
      sessions := sessions + {session};
      polled := polled + {session};
      Counter32Moves(t.active, 1);
      t := Next(t, Count);
      activeSessions := (activeSessions + 1) % 0x1_0000_0000;
    }

    /** unregisterSession: does nothing for a session that is not registered any more. */
    method UnregisterSession(session: Ptr) returns (erased: bool)
      modifies this`sessions, this`polled, this`activeSessions
      ensures erased <==> session in old(sessions)
      ensures sessions == old(sessions) - {session}
      ensures polled == if erased then old(polled) - {session} else old(polled)
      ensures activeSessions == if erased then Counter32(old(activeSessions) - 1) else old(activeSessions)
    {
      if session !in sessions {
        return false;
      }
      sessions := sessions - {session};
      polled := polled - {session};
      activeSessions := (activeSessions - 1) % 0x1_0000_0000;
      erased := true;
    }

    /** deleteLater, called by the session the loop is visiting. */
    method DeleteLater(session: Ptr, ghost s: State) returns (ghost t: State)
      requires Represents(s) && Visiting(s) && s.phase.todo[0] == session
      modifies this
      ensures t == Dropped(s) && Represents(t) && t.drop.None? && t.phase == s.phase
      ensures sessions == old(sessions) - {session} && deleteLaterObjects == old(deleteLaterObjects) + {session}
      ensures session in old(sessions) ==> polled == old(polled) - {session}
      ensures session !in old(sessions) ==> polled == old(polled) && activeSessions == old(activeSessions)
      ensures alive == old(alive)
    {
      Counter32Moves(s.active, -1);
      var erased := UnregisterSession(session);
      deleteLaterObjects := deleteLaterObjects + {session};
      t := Dropped(s);
    }

    /** The last part of an iteration: deletes every deferred object, then forgets them. */
    method DeletePass(order: seq<Ptr>, ghost s: State) returns (ghost t: State)
      requires Represents(s) && PassBegins(s, order)
      modifies this
      ensures t == PassEnd(s, order) && Represents(t)
      ensures deleteLaterObjects == {} && alive == old(alive) - old(deleteLaterObjects)
    {
      t := PassState(s, order, 0);
      for i := 0 to |order|
        invariant t == PassState(s, order, i) && Represents(t)
      {
        PassStep(s, order, i);
        t := PassState(s, order, i + 1);
        alive := alive - {order[i]};
      }
      assert order[..|order|] == order;
      t := PassEnd(s, order);
      deleteLaterObjects := {};
    }
  }

  ghost predicate PassBegins(s: State, order: seq<Ptr>) {
    s.phase.Timers? && s.phase.todo == [] && s.drop.None? && Enumerates(order, s.deleteLater)
  }

  /** The delete pass after i objects. */
  ghost function PassState(s: State, order: seq<Ptr>, i: nat): State
    requires i <= |order|
  {
    s.(phase := Deleting(order[i..]), alive := s.alive - Elements(order[..i]))
  }

  lemma PassStep(s: State, order: seq<Ptr>, i: nat)
    requires i < |order|
    ensures Enabled(PassState(s, order, i), DeleteOne)
    ensures Next(PassState(s, order, i), DeleteOne) == PassState(s, order, i + 1)
    ensures PassState(s, order, i + 1).alive == PassState(s, order, i).alive - {order[i]}
  {
    assert order[i..][0] == order[i] && order[i..][1..] == order[i + 1..];
    assert order[..i + 1] == order[..i] + [order[i]];
    assert Elements(order[..i + 1]) == Elements(order[..i]) + {order[i]};
  }

  ghost function PassEnd(s: State, order: seq<Ptr>): State {
    PassState(s, order, |order|).(deleteLater := {}, phase := Waiting)
  }

  /** The pass is the begin step, one delete step per object, and the end step of the model. */
  lemma PassIsSteps(s: State, order: seq<Ptr>)
    requires PassBegins(s, order)
    ensures Enabled(s, BeginDelete(order)) && Next(s, BeginDelete(order)) == PassState(s, order, 0)
    ensures Enabled(PassState(s, order, |order|), EndDelete)
    ensures Next(PassState(s, order, |order|), EndDelete) == PassEnd(s, order)
  {
    assert order[0..] == order && order[|order|..] == [] && s.alive - Elements(order[..0]) == s.alive;
  }

  /** A whole deleteLater of the visited session. */
  ghost function Dropped(s: State): State
    requires Visiting(s)
  {
    var s1 := Next(s, DropHead);
    Next(if s1.drop.value.ToDecrement? then Next(s1, Unlist) else s1, Mark)
  }
}
