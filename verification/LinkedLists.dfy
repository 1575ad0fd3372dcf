/** std::list as the cache uses it: doubly linked heap nodes that keep their identity when moved. */
module LinkedLists {

  class Node<K, V> {
    const key: K
    var value: V
    var prev: Node?<K, V>
    var next: Node?<K, V>

    constructor (key: K, value: V)
      ensures this.key == key && this.value == value
    {
      this.key, this.value, prev, next := key, value, null, null;
    }
  }

  ghost function Without<T>(s: seq<T>, k: nat): seq<T>
    requires k < |s|
  {
    s[..k] + s[k + 1..]
  }

  ghost predicate Distinct<T>(s: seq<T>) {
    forall i, j :: 0 <= i < j < |s| ==> s[i] != s[j]
  }

  lemma DistinctWithout<T>(s: seq<T>, k: nat)
    requires Distinct(s) && k < |s|
    ensures Distinct(Without(s, k))
  {
  }

  ghost function At<K, V>(s: seq<Node<K, V>>, i: int): Node?<K, V> {
    if 0 <= i < |s| then s[i] else null
  }

  class List<K, V> {
    var head: Node?<K, V>
    var tail: Node?<K, V>
    var count: nat
    ghost var nodes: seq<Node<K, V>>
    ghost var entries: seq<(K, V)>
    ghost var repr: set<Node<K, V>>

    ghost predicate Valid()
      reads this, repr
    {
      && (forall i :: 0 <= i < |nodes| ==> nodes[i] in repr)
      && count == |nodes| && Distinct(nodes) && Forward(nodes) && Backward(nodes) && Holds(nodes, entries)
    }

    ghost predicate Holds(s: seq<Node<K, V>>, es: seq<(K, V)>)
      reads s
    {
      |es| == |s| && forall i {:trigger s[i].value} {:trigger es[i]} :: 0 <= i < |s| ==> (s[i].key, s[i].value) == es[i]
    }

    lemma HoldsWithout(s: seq<Node<K, V>>, es: seq<(K, V)>, k: nat)
      requires Holds(s, es) && k < |s|
      ensures Holds(Without(s, k), Without(es, k))
    {
      forall i | 0 <= i < |s| - 1
        ensures (Without(s, k)[i].key, Without(s, k)[i].value) == Without(es, k)[i]
      {
        var source := if i < k then i else i + 1;
        assert es[source] == (s[source].key, s[source].value);
      }
    }

    /** Following `next` from the head visits s. */
    ghost predicate Forward(s: seq<Node<K, V>>)
      reads this, s
    {
      && head == At(s, 0)
      && (forall i {:trigger s[i].next} :: 0 <= i < |s| ==> s[i].next == At(s, i + 1))
    }

    /** Following `prev` from the tail visits s backwards. */
    ghost predicate Backward(s: seq<Node<K, V>>)
      reads this, s
    {
      && tail == At(s, |s| - 1)
      && (forall i {:trigger s[i].prev} :: 0 <= i < |s| ==> s[i].prev == At(s, i - 1))
    }

    constructor ()
      ensures Valid() && nodes == [] && entries == [] && repr == {}
    {
      head, tail, count, nodes, entries, repr := null, null, 0, [], [], {};
    }

    method Clear()
      modifies this
      ensures Valid() && nodes == [] && entries == [] && repr == old(repr)
    {
      head, tail, count, nodes, entries := null, null, 0, [], [];
    }

    method PushFront(x: Node<K, V>)
      requires Valid() && x !in nodes
      modifies this, repr, x
      ensures Valid() && nodes == [x] + old(nodes) && repr == old(repr) + {x}
      ensures entries == [(x.key, old(x.value))] + old(entries)
    {
      x.prev, x.next := null, head;
      if head == null {
        tail := x;
      } else {
        head.prev := x;
      }
      head := x;
      count := count + 1;
      nodes, entries, repr := [x] + nodes, [(x.key, x.value)] + entries, repr + {x};
      assert forall i :: 1 <= i < |nodes| ==> nodes[i] == old(nodes)[i - 1];
    }

    /** erase(iterator): returns the node after the erased one. */
    method Erase(x: Node<K, V>, ghost k: nat) returns (after: Node?<K, V>)
      requires Valid() && k < |nodes| && nodes[k] == x
      modifies this, repr
      ensures Valid() && nodes == Without(old(nodes), k) && repr == old(repr)
      ensures entries == Without(old(entries), k)
      ensures after == At(nodes, k) && x.value == old(x.value)
    {
      after := x.next;
      BypassForward(x, k);
      BypassBackward(x, k);
      count := count - 1;
      HoldsWithout(nodes, entries, k);
      DistinctWithout(nodes, k);
      nodes, entries := Without(nodes, k), Without(entries, k);
    }

    method BypassForward(x: Node<K, V>, ghost k: nat)
      requires Valid() && k < |nodes| && nodes[k] == x
      modifies this`head, repr`next
      ensures Forward(Without(nodes, k)) && Backward(nodes) && Holds(nodes, entries) && x.next == old(x.next)
    {
      if x.prev == null {
        head := x.next;
      } else {
        x.prev.next := x.next;
      }
      ghost var s := Without(nodes, k);
      assert forall i :: 0 <= i < k ==> s[i] == nodes[i];
      assert forall i :: k <= i < |s| ==> s[i] == nodes[i + 1];
    }

    method BypassBackward(x: Node<K, V>, ghost k: nat)
      requires k < |nodes| && nodes[k] == x && Distinct(nodes)
      requires forall i :: 0 <= i < |nodes| ==> nodes[i] in repr
      requires Backward(nodes) && x.next == At(nodes, k + 1)
      modifies this`tail, repr`prev
      ensures Backward(Without(nodes, k))
    {
      if x.next == null {
        tail := x.prev;
      } else {
        x.next.prev := x.prev;
      }
      ghost var s := Without(nodes, k);
      assert forall i :: 0 <= i < k ==> s[i] == nodes[i];
      assert forall i :: k <= i < |s| ==> s[i] == nodes[i + 1];
    }

    /** splice(begin(), *this, it): the same node moves to the front. */
    method MoveToFront(x: Node<K, V>, ghost k: nat)
      requires Valid() && k < |nodes| && nodes[k] == x
      modifies this, repr
      ensures Valid() && nodes == [x] + Without(old(nodes), k) && repr == old(repr)
      ensures entries == [old(entries)[k]] + Without(old(entries), k)
    {
      assert entries[k] == (x.key, x.value);
      var after := Erase(x, k);
      PushFront(x);
      assert repr == old(repr);
    }
  }
}
