/** The order in which one batch of epoll events is processed when workload balancing is on. */
module BatchOrder {
  import opened Basics

  /** The 64-bit union of an epoll_event, by halves: a session pointer, or the event descriptor. */
  datatype Word = Word(high: nat, low: nat)

  datatype Event = Event(data: Word, events: nat)

  /** The test `event.data.fd != m_eventFd` looks at the low half of the union only. */
  predicate IsWakeup(e: Event, eventFd: nat) {
    e.data.low == eventFd
  }

  /** The session events of a batch, in the order epoll delivered them. */
  function SessionEvents(batch: seq<Event>, eventFd: nat): seq<Event> {
    if batch == [] then []
    else
      var last := batch[|batch| - 1];
      SessionEvents(batch[..|batch| - 1], eventFd) + (if IsWakeup(last, eventFd) then [] else [last])
  }

  ghost predicate HasWakeup(batch: seq<Event>, eventFd: nat) {
    exists e :: e in batch && IsWakeup(e, eventFd)
  }

  lemma BatchSnoc(batch: seq<Event>, i: nat, eventFd: nat)
    requires i < |batch|
    ensures IsWakeup(batch[i], eventFd) ==>
              SessionEvents(batch[..i + 1], eventFd) == SessionEvents(batch[..i], eventFd)
    ensures !IsWakeup(batch[i], eventFd) ==>
              SessionEvents(batch[..i + 1], eventFd) == SessionEvents(batch[..i], eventFd) + [batch[i]]
    ensures HasWakeup(batch[..i + 1], eventFd) <==> HasWakeup(batch[..i], eventFd) || IsWakeup(batch[i], eventFd)
  {
    assert batch[..i + 1] == batch[..i] + [batch[i]];
    assert batch[..i + 1][..i] == batch[..i];
  }

  /** The batch is filtered, event by event, in the order epoll delivered it. */
  lemma {:induction false} SessionEventsInOrder(a: seq<Event>, b: seq<Event>, eventFd: nat)
    ensures SessionEvents(a + b, eventFd) == SessionEvents(a, eventFd) + SessionEvents(b, eventFd)
    decreases |b|
  {
    if b == [] {
      assert a + b == a;
    } else {
      var init, last := b[..|b| - 1], b[|b| - 1];
      assert b == init + [last];
      Associates(a, init, [last]);
      SessionEventsInOrder(a, init, eventFd);
      Associates(SessionEvents(a, eventFd), SessionEvents(init, eventFd), if last.data.low == eventFd then [] else [last]);
    }
  }

  /** order() of the session an event is for. */
  type Orders = map<Word, nat>

  function OrderOf(e: Event, orders: Orders): nat {
    if e.data in orders then orders[e.data] else 0
  }

  ghost predicate Sorted(s: seq<Event>, orders: Orders) {
    forall i, j :: 0 <= i < j < |s| ==> OrderOf(s[i], orders) <= OrderOf(s[j], orders)
  }

  /** The events of one order, in sequence. */
  function OfOrder(s: seq<Event>, orders: Orders, o: nat): seq<Event> {
    if s == [] then []
    else (if OrderOf(s[0], orders) == o then [s[0]] else []) + OfOrder(s[1..], orders, o)
  }

  /** A stable rearrangement: sorted, and the events of each order are the same, in the same sequence. */
  ghost predicate StablySorts(result: seq<Event>, input: seq<Event>, orders: Orders) {
    && Sorted(result, orders)
    && multiset(result) == multiset(input)
    && SameClasses(result, input, orders)
  }

  ghost predicate SameClasses(a: seq<Event>, b: seq<Event>, orders: Orders) {
    forall o: nat {:trigger OfOrder(a, orders, o)} :: OfOrder(a, orders, o) == OfOrder(b, orders, o)
  }

  lemma {:induction false} OfOrderAppend(a: seq<Event>, b: seq<Event>, orders: Orders, o: nat)
    ensures OfOrder(a + b, orders, o) == OfOrder(a, orders, o) + OfOrder(b, orders, o)
  {
    if a == [] {
      assert a + b == b;
    } else {
      assert (a + b)[1..] == a[1..] + b;
      OfOrderAppend(a[1..], b, orders, o);
    }
  }

  lemma {:induction false} OfOrderNone(s: seq<Event>, orders: Orders, o: nat)
    requires forall i :: 0 <= i < |s| ==> OrderOf(s[i], orders) != o
    ensures OfOrder(s, orders, o) == []
  {
    if s != [] {
      OfOrderNone(s[1..], orders, o);
    }
  }

  /** std::upper_bound: the first position whose order is greater. */
  method UpperBound(s: seq<Event>, ev: Event, orders: Orders) returns (at: nat)
    requires Sorted(s, orders)
    ensures at <= |s|
    ensures forall i :: 0 <= i < at ==> OrderOf(s[i], orders) <= OrderOf(ev, orders)
    ensures forall i :: at <= i < |s| ==> OrderOf(ev, orders) < OrderOf(s[i], orders)
  {
    at := 0;
    var len := |s|;
    while len > 0
      invariant 0 <= len && at + len <= |s|
      invariant forall i :: 0 <= i < at ==> OrderOf(s[i], orders) <= OrderOf(ev, orders)
      invariant forall i :: at + len <= i < |s| ==> OrderOf(ev, orders) < OrderOf(s[i], orders)
    {
      var half := len / 2;
      var middle := at + half;
      if OrderOf(ev, orders) < OrderOf(s[middle], orders) {
        len := half;
      } else {
        at := middle + 1;
        len := len - half - 1;
      }
    }
  }

  lemma InsertKeepsClass(low: seq<Event>, high: seq<Event>, ev: Event, orders: Orders, o: nat)
    requires forall i :: 0 <= i < |high| ==> OrderOf(ev, orders) < OrderOf(high[i], orders)
    ensures OfOrder(low + [ev] + high, orders, o) == OfOrder(low + high + [ev], orders, o)
  {
    OfOrderAppend(low + [ev], high, orders, o);
    OfOrderAppend(low, [ev], orders, o);
    OfOrderAppend(low + high, [ev], orders, o);
    OfOrderAppend(low, high, orders, o);
    if OrderOf(ev, orders) == o {
      OfOrderNone(high, orders, o);
    } else {
      OfOrderNone([ev], orders, o);
    }
  }

  /** Inserting at the upper bound extends a stable sort by one event. */
  lemma InsertIsStable(s: seq<Event>, input: seq<Event>, ev: Event, at: nat, orders: Orders)
    requires StablySorts(s, input, orders) && at <= |s|
    requires forall i :: 0 <= i < at ==> OrderOf(s[i], orders) <= OrderOf(ev, orders)
    requires forall i :: at <= i < |s| ==> OrderOf(ev, orders) < OrderOf(s[i], orders)
    ensures StablySorts(s[..at] + [ev] + s[at..], input + [ev], orders)
  {
    var low, high := s[..at], s[at..];
    var r := low + [ev] + high;
    assert s == low + high;
    forall o: nat
      ensures OfOrder(r, orders, o) == OfOrder(input + [ev], orders, o)
    {
      InsertKeepsClass(low, high, ev, orders, o);
      OfOrderAppend(s, [ev], orders, o);
      OfOrderAppend(input, [ev], orders, o);
    }
    assert multiset(r) == multiset(s) + multiset{ev};
    InsertIsSorted(s, ev, at, orders);
  }

  lemma InsertIsSorted(s: seq<Event>, ev: Event, at: nat, orders: Orders)
    requires Sorted(s, orders) && at <= |s|
    requires forall i :: 0 <= i < at ==> OrderOf(s[i], orders) <= OrderOf(ev, orders)
    requires forall i :: at <= i < |s| ==> OrderOf(ev, orders) < OrderOf(s[i], orders)
    ensures Sorted(s[..at] + [ev] + s[at..], orders)
  {
  }

  method InsertOrdered(s: seq<Event>, ev: Event, orders: Orders, ghost input: seq<Event>) returns (r: seq<Event>)
    requires StablySorts(s, input, orders)
    ensures StablySorts(r, input + [ev], orders)
  {
    var at := UpperBound(s, ev, orders);
    InsertIsStable(s, input, ev, at, orders);
    r := s[..at] + [ev] + s[at..];
  }

  /** The first loop of the balanced branch: what it leaves is processed front to back. */
  method Arrange(batch: seq<Event>, eventFd: nat, orders: Orders) returns (sessionEvents: seq<Event>, wokeup: bool)
    ensures StablySorts(sessionEvents, SessionEvents(batch, eventFd), orders)
    ensures forall i, j :: 0 <= i < j < |sessionEvents| && sessionEvents[i].data in orders && sessionEvents[j].data in orders ==>
              orders[sessionEvents[i].data] <= orders[sessionEvents[j].data]
    ensures forall e :: multiset(sessionEvents)[e] == if e.data.low == eventFd then 0 else multiset(batch)[e]
    ensures wokeup <==> exists i :: 0 <= i < |batch| && batch[i].data.low == eventFd
  {
    sessionEvents, wokeup := [], false;
    for i := 0 to |batch|
      invariant StablySorts(sessionEvents, SessionEvents(batch[..i], eventFd), orders)
      invariant wokeup <==> HasWakeup(batch[..i], eventFd)
    {
      BatchSnoc(batch, i, eventFd);
      var ev := batch[i];
      if !IsWakeup(ev, eventFd) {
        sessionEvents := InsertOrdered(sessionEvents, ev, orders, SessionEvents(batch[..i], eventFd));
      } else {
        wokeup := true;
      }
    }
    assert batch[..|batch|] == batch;
    WakeupAt(batch, eventFd);
    forall e
      ensures multiset(sessionEvents)[e] == if e.data.low == eventFd then 0 else multiset(batch)[e]
    {
      SessionEventsCount(batch, eventFd, e);
    }
  }

  lemma WakeupAt(batch: seq<Event>, eventFd: nat)
    ensures HasWakeup(batch, eventFd) <==> exists i :: 0 <= i < |batch| && batch[i].data.low == eventFd
  {
    if i :| 0 <= i < |batch| && batch[i].data.low == eventFd {
      assert batch[i] in batch && IsWakeup(batch[i], eventFd);
    }
  }

  /** Exactly the events whose low half is not the event descriptor are session events, as often as they occur. */
  lemma {:induction false} SessionEventsCount(batch: seq<Event>, eventFd: nat, e: Event)
    ensures multiset(SessionEvents(batch, eventFd))[e] == if e.data.low == eventFd then 0 else multiset(batch)[e]
  {
    if batch != [] {
      var n := |batch| - 1;
      var earlier, last := SessionEvents(batch[..n], eventFd), batch[n];
      SessionEventsCount(batch[..n], eventFd, e);
      assert batch == batch[..n] + [last];
      if IsWakeup(last, eventFd) {
        assert SessionEvents(batch, eventFd) == earlier + [] == earlier;
      }
    }
  }

  /** Stability pins the result down completely: there is only one stable sort of a batch. */
  lemma {:induction false} StableSortIsUnique(a: seq<Event>, b: seq<Event>, input: seq<Event>, orders: Orders)
    requires StablySorts(a, input, orders) && StablySorts(b, input, orders)
    ensures a == b
  {
    SameClassesSameSequence(a, b, orders);
  }

  lemma {:induction false} SameClassesSameSequence(a: seq<Event>, b: seq<Event>, orders: Orders)
    requires Sorted(a, orders) && Sorted(b, orders)
    requires SameClasses(a, b, orders)
    ensures a == b
  {
    if a == [] {
      EmptyClassesEmpty(b, orders);
    } else {
      assert SameClasses(b, a, orders);
      FirstIsLeast(a, b, orders);
      FirstIsLeast(b, a, orders);
      var o := OrderOf(a[0], orders);
      assert OfOrder(a, orders, o)[0] == a[0] && OfOrder(b, orders, o)[0] == b[0];
      assert a == [a[0]] + a[1..] && b == [a[0]] + b[1..];
      forall p: nat
        ensures OfOrder(a[1..], orders, p) == OfOrder(b[1..], orders, p)
      {
        OfOrderAppend([a[0]], a[1..], orders, p);
        OfOrderAppend([a[0]], b[1..], orders, p);
        var x := OfOrder([a[0]], orders, p);
        assert OfOrder(a, orders, p)[|x|..] == OfOrder(a[1..], orders, p);
        assert OfOrder(b, orders, p)[|x|..] == OfOrder(b[1..], orders, p);
      }
      SameClassesSameSequence(a[1..], b[1..], orders);
    }
  }

  lemma EmptyClassesEmpty(b: seq<Event>, orders: Orders)
    requires SameClasses([], b, orders)
    ensures b == []
  {
    if b != [] {
      assert OfOrder([], orders, OrderOf(b[0], orders)) == [];
      assert false;
    }
  }

  /** b is not empty and starts at an order no greater than a's first. */
  lemma FirstIsLeast(a: seq<Event>, b: seq<Event>, orders: Orders)
    requires a != [] && Sorted(b, orders)
    requires SameClasses(a, b, orders)
    ensures b != [] && OrderOf(b[0], orders) <= OrderOf(a[0], orders)
  {
    var o := OrderOf(a[0], orders);
    assert OfOrder(b, orders, o) == OfOrder(a, orders, o) != [];
    if b == [] || OrderOf(b[0], orders) > o {
      OfOrderNone(b, orders, o);
      assert false;
    }
  }
}
