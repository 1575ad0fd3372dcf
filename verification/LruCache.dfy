/** LruCache: a linked list of entries and a hash of list positions, refining the recency list of LruSpec. */
module LruCache {
  import opened LinkedLists
  import Spec = LruSpec

  /** Taken one node after the other, the hash holds each list node under its key, and nothing else. */
  ghost predicate Indexes<K, V>(h: map<K, Node<K, V>>, nodes: seq<Node<K, V>>) {
    if nodes == [] then h == map[]
    else nodes[0].key in h && h[nodes[0].key] == nodes[0] && Indexes(h - {nodes[0].key}, nodes[1..])
  }

  /** The same said at once. */
  ghost predicate Agrees<K, V>(h: map<K, Node<K, V>>, nodes: seq<Node<K, V>>) {
    && (forall i {:trigger nodes[i]} :: 0 <= i < |nodes| ==> nodes[i].key in h && h[nodes[i].key] == nodes[i])
    && (forall k {:trigger k in h} :: k in h ==> h[k] in nodes && h[k].key == k)
  }

  /** Includes the assertion in size(): list and hash have the same number of entries. */
  lemma {:induction false} IndexesAgrees<K, V>(h: map<K, Node<K, V>>, nodes: seq<Node<K, V>>)
    requires Indexes(h, nodes)
    ensures Agrees(h, nodes) && Distinct(nodes) && |h| == |nodes|
  {
    if nodes != [] {
      var x, tail := nodes[0], nodes[1..];
      IndexesAgrees(h - {x.key}, tail);
      AgreesExtends(h, nodes);
      DistinctInFront(x, tail);
      assert [x] + tail == nodes;
      assert (h - {x.key}).Keys == h.Keys - {x.key};
    }
  }

  lemma {:induction false} AgreesIndexes<K, V>(h: map<K, Node<K, V>>, nodes: seq<Node<K, V>>)
    requires Agrees(h, nodes) && Distinct(nodes)
    ensures Indexes(h, nodes)
  {
    if nodes != [] {
      AgreesWithout(h, nodes, 0);
      assert Without(nodes, 0) == nodes[1..];
      AgreesIndexes(h - {nodes[0].key}, nodes[1..]);
      assert nodes[0].key in h;
    } else {
      assert forall k :: k !in h;
    }
  }

  lemma DistinctInFront<T>(x: T, tail: seq<T>)
    requires Distinct(tail) && x !in tail
    ensures Distinct([x] + tail)
  {
  }

  lemma AgreesExtends<K, V>(h: map<K, Node<K, V>>, nodes: seq<Node<K, V>>)
    requires nodes != [] && nodes[0].key in h && h[nodes[0].key] == nodes[0]
    requires Agrees(h - {nodes[0].key}, nodes[1..])
    ensures Agrees(h, nodes) && nodes[0] !in nodes[1..]
  {
    var h', tail := h - {nodes[0].key}, nodes[1..];
    forall i | 0 <= i < |nodes|
      ensures nodes[i].key in h && h[nodes[i].key] == nodes[i]
    {
      if i > 0 {
        assert nodes[i] == tail[i - 1];
      }
    }
    forall k | k in h
      ensures h[k] in nodes && h[k].key == k
    {
      if k != nodes[0].key {
        assert k in h';
      }
    }
  }

  lemma AgreesWithout<K, V>(h: map<K, Node<K, V>>, nodes: seq<Node<K, V>>, k: nat)
    requires Agrees(h, nodes) && Distinct(nodes) && k < |nodes|
    ensures Agrees(h - {nodes[k].key}, Without(nodes, k))
  {
    var h', rest := h - {nodes[k].key}, Without(nodes, k);
    forall i | 0 <= i < |rest|
      ensures rest[i].key in h' && h'[rest[i].key] == rest[i]
    {
      assert rest[i] == nodes[if i < k then i else i + 1];
    }
    forall key | key in h'
      ensures h'[key] in rest
    {
      var i :| 0 <= i < |nodes| && nodes[i] == h[key];
      assert rest[if i < k then i else i - 1] == nodes[i];
    }
  }

  lemma IndexesWithout<K, V>(h: map<K, Node<K, V>>, nodes: seq<Node<K, V>>, k: nat)
    requires Indexes(h, nodes) && k < |nodes|
    ensures Indexes(h - {nodes[k].key}, Without(nodes, k))
  {
    IndexesAgrees(h, nodes);
    AgreesWithout(h, nodes, k);
    DistinctWithout(nodes, k);
    AgreesIndexes(h - {nodes[k].key}, Without(nodes, k));
  }

  lemma IndexesInFront<K, V>(h: map<K, Node<K, V>>, nodes: seq<Node<K, V>>, x: Node<K, V>)
    requires Indexes(h, nodes) && x.key !in h
    ensures Indexes(h[x.key := x], [x] + nodes)
  {
    assert h[x.key := x] - {x.key} == h;
    assert ([x] + nodes)[1..] == nodes;
  }

  lemma IndexesMoved<K, V>(h: map<K, Node<K, V>>, nodes: seq<Node<K, V>>, k: nat)
    requires Indexes(h, nodes) && k < |nodes|
    ensures Indexes(h, [nodes[k]] + Without(nodes, k))
  {
    IndexesAgrees(h, nodes);
    IndexesWithout(h, nodes, k);
    assert ([nodes[k]] + Without(nodes, k))[1..] == Without(nodes, k);
    assert nodes[k].key in h;
  }

  class Cache<K(==), V> {
    const items: List<K, V>
    var hash: map<K, Node<K, V>>
    var cacheSize: nat

    ghost predicate Consistent()
      reads this, items, items.repr
    {
      items.Valid() && Indexes(hash, items.nodes)
    }

    ghost predicate Valid()
      reads this, items, items.repr
    {
      Consistent() && |items.nodes| <= cacheSize
    }

    /** The cached pairs, most recently touched first. */
    ghost function Contents(): Spec.Entries<K, V>
      reads items
    {
      items.entries
    }

    constructor (cacheSize: nat)
      ensures Valid() && Contents() == [] && this.cacheSize == cacheSize && fresh(items) && items.repr == {}
    {
      items := new List<K, V>();
      hash := map[];
      this.cacheSize := cacheSize;
    }

    lemma KeysDistinct()
      requires Consistent()
      ensures Spec.DistinctKeys(Contents())
    {
      IndexesAgrees(hash, items.nodes);
      forall i, j | 0 <= i < j < |items.nodes|
        ensures Contents()[i].0 != Contents()[j].0
      {
        assert Contents()[i].0 == items.nodes[i].key && Contents()[j].0 == items.nodes[j].key;
        assert hash[items.nodes[i].key] == items.nodes[i] && hash[items.nodes[j].key] == items.nodes[j];
      }
    }

    /** The hash finds k exactly where the recency list has it. */
    lemma HashFinds(k: K)
      requires Consistent()
      ensures k in hash <==> Spec.Find(Contents(), k) < |items.nodes|
      ensures k in hash ==> items.nodes[Spec.Find(Contents(), k)] == hash[k]
    {
      KeysDistinct();
      IndexesAgrees(hash, items.nodes);
      if k in hash {
        var i :| 0 <= i < |items.nodes| && items.nodes[i] == hash[k];
        assert Contents()[i].0 == items.nodes[i].key;
        Spec.FindIs(Contents(), k, i);
      }
    }

    method Size() returns (n: nat)
      requires Consistent()
      ensures n == |Contents()|
    {
      IndexesAgrees(hash, items.nodes);
      assert items.count == |hash|;
      n := |hash|;
    }

    /** Erases the node at position k from both structures. */
    method DropKey(it: Node<K, V>, ghost k: nat) returns (after: Node?<K, V>)
      requires Consistent() && k < |items.nodes| && items.nodes[k] == it
      modifies this`hash, items, items.repr
      ensures Consistent() && items.repr == old(items.repr)
      ensures items.nodes == Without(old(items.nodes), k)
      ensures Contents() == Without(old(Contents()), k)
      ensures after == At(items.nodes, k)
    {
      IndexesWithout(hash, items.nodes, k);
      hash := hash - {it.key};
      after := items.Erase(it, k);
    }

    /** Drops the least recently touched entry. */
    method PopBack()
      requires Consistent() && |hash| > 0
      modifies this`hash, items, items.repr
      ensures Consistent() && items.repr == old(items.repr) && |hash| == |items.nodes| == |old(hash)| - 1
      ensures |hash| <= |old(Contents())| && Contents() == old(Contents())[..|hash|]
    {
      IndexesAgrees(hash, items.nodes);
      ghost var last := |items.nodes| - 1;
      var it := items.tail;
      var _ := DropKey(it, last);
      IndexesAgrees(hash, items.nodes);
    }

    /** Drops least recently touched entries until the size fits. */
    method CleanCache()
      requires Consistent()
      modifies this`hash, items, items.repr
      ensures Valid() && items.repr == old(items.repr)
      ensures Contents() == Spec.Truncated(old(Contents()), cacheSize)
    {
      ghost var es := Contents();
      IndexesAgrees(hash, items.nodes);
      while |hash| > cacheSize
        invariant Consistent() && |hash| == |items.nodes|
        invariant items.repr == old(items.repr)
        invariant (Contents() == es) || (cacheSize <= |hash| <= |es| && Contents() == es[..|hash|])
        decreases |hash|
      {
        PopBack();
      }
    }

    /** The first half of put: an older entry of the key leaves the list but not yet the hash. */
    method Detach(k: K) returns (ghost h: map<K, Node<K, V>>)
      requires Consistent()
      modifies items, items.repr
      ensures items.Valid() && items.repr == old(items.repr)
      ensures h == hash - {k} && Indexes(h, items.nodes)
      ensures Contents() == Spec.Removed(old(Contents()), k)
    {
      HashFinds(k);
      h := hash - {k};
      if k in hash {
        ghost var at := Spec.Find(Contents(), k);
        IndexesWithout(hash, items.nodes, at);
        var _ := items.Erase(hash[k], at);
      } else {
        assert h == hash;
      }
    }

    /** The second half of put: a new node in front, which the hash entry now points at. */
    method Attach(k: K, v: V, ghost h: map<K, Node<K, V>>)
      requires items.Valid() && h == hash - {k} && Indexes(h, items.nodes)
      modifies this`hash, items, items.repr
      ensures Consistent() && fresh(items.repr - old(items.repr))
      ensures Contents() == [(k, v)] + old(Contents())
    {
      var node := new Node(k, v);
      IndexesInFront(h, items.nodes, node);
      assert hash[k := node] == h[k := node];
      items.PushFront(node);
      hash := hash[k := node];
    }

    method Put(k: K, v: V)
      requires Valid()
      modifies this`hash, items, items.repr
      ensures Valid() && fresh(items.repr - old(items.repr))
      ensures Contents() == Spec.Put(old(Contents()), k, v, cacheSize)
    {
      ghost var h := Detach(k);
      Attach(k, v, h);
      CleanCache();
    }

    /** The entry of the key, moved to the front; null is the source's range_error. */
    method Reference(k: K) returns (it: Node?<K, V>)
      requires Valid()
      modifies items, items.repr
      ensures Valid() && items.repr == old(items.repr)
      ensures Contents() == Spec.Touched(old(Contents()), k)
      ensures it == null <==> !Spec.Has(old(Contents()), k)
      ensures it != null ==> it == items.nodes[0] && (k, it.value) == Contents()[0]
    {
      HashFinds(k);
      Spec.FindAbsent(Contents(), k);
      if k !in hash {
        return null;
      }
      it := hash[k];
      ghost var at := Spec.Find(Contents(), k);
      IndexesMoved(hash, items.nodes, at);
      items.MoveToFront(it, at);
      assert Contents()[0] == (items.nodes[0].key, items.nodes[0].value);
    }

    /** The value of the key, moved to the front, or the default value. */
    method Value(k: K, default: V) returns (v: V)
      requires Valid()
      modifies items, items.repr
      ensures Valid() && items.repr == old(items.repr)
      ensures Contents() == Spec.Touched(old(Contents()), k)
      ensures v == Spec.ValueOf(old(Contents()), k, default)
    {
      var it := Reference(k);
      Spec.FindAbsent(old(Contents()), k);
      v := if it == null then default else it.value;
    }

    method Exists(k: K) returns (found: bool)
      requires Valid()
      ensures found <==> Spec.Has(Contents(), k)
    {
      HashFinds(k);
      Spec.FindAbsent(Contents(), k);
      found := k in hash;
    }

    method Resize(size: nat)
      requires Valid()
      modifies this, items, items.repr
      ensures Valid() && cacheSize == size && items.repr == old(items.repr)
      ensures Contents() == Spec.Truncated(old(Contents()), size)
    {
      cacheSize := size;
      CleanCache();
    }

    method Clear()
      requires Valid()
      modifies this`hash, items
      ensures Valid() && Contents() == [] && items.repr == old(items.repr)
    {
      items.Clear();
      hash := map[];
    }

    /** erase(Iterator): returns the position after the erased one. */
    method Erase(it: Node<K, V>, ghost at: nat) returns (after: Node?<K, V>)
      requires Valid() && at < |items.nodes| && items.nodes[at] == it
      modifies this`hash, items, items.repr
      ensures Valid() && items.repr == old(items.repr)
      ensures items.nodes == Without(old(items.nodes), at) && after == At(items.nodes, at)
      ensures Contents() == Without(old(Contents()), at) == Spec.Removed(old(Contents()), it.key)
    {
      KeysDistinct();
      assert Contents()[at].0 == items.nodes[at].key;
      Spec.FindIs(Contents(), it.key, at);
      after := DropKey(it, at);
    }
  }

  /** Any sequence of operations, performed on a new cache, leaves what the recency list prescribes. */
  method Perform<K(==), V>(capacity: nat, ops: seq<Spec.Op<K, V>>) returns (c: Cache<K, V>)
    ensures c.Valid()
    ensures Spec.State(c.Contents(), c.cacheSize) == Spec.Run(capacity, ops)
    ensures Spec.ByRecency(ops, c.Contents())
  {
    c := new Cache<K, V>(capacity);
    for i := 0 to |ops|
      invariant c.Valid() && fresh(c) && fresh(c.items) && fresh(c.items.repr)
      invariant Spec.State(c.Contents(), c.cacheSize) == Spec.Run(capacity, ops[..i])
    {
      assert ops[..i + 1][..i] == ops[..i];
      PerformOne(c, ops[i]);
    }
    assert ops[..|ops|] == ops;
    Spec.RunIsByRecency(capacity, ops);
  }

  method PerformOne<K(==), V>(c: Cache<K, V>, op: Spec.Op<K, V>)
    requires c.Valid()
    modifies c, c.items, c.items.repr
    ensures c.Valid() && fresh(c.items.repr - old(c.items.repr))
    ensures Spec.State(c.Contents(), c.cacheSize) == Spec.Apply(old(Spec.State(c.Contents(), c.cacheSize)), op)
  {
    match op
    case PutOp(k, v) => c.Put(k, v);
    case Lookup(k) => var _ := c.Reference(k);
    case Resize(size) => c.Resize(size);
    case Clear => c.Clear();
    case Erase(k) =>
      c.HashFinds(k);
      IndexesAgrees(c.hash, c.items.nodes);
      if k in c.hash {
        ghost var at := Spec.Find(c.Contents(), k);
        var _ := c.Erase(c.hash[k], at);
      }
  }
}
