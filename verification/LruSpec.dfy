/** The recency list an LRU cache stands for: distinct keys, most recently touched first. */
module LruSpec {
  import opened Basics

  type Entries<K, V> = seq<(K, V)>

  ghost predicate DistinctKeys<K, V>(es: Entries<K, V>) {
    forall i, j :: 0 <= i < j < |es| ==> es[i].0 != es[j].0
  }

  ghost predicate Has<K, V>(es: Entries<K, V>, k: K) {
    exists i :: 0 <= i < |es| && es[i].0 == k
  }

  /** The position of k, or |es|. */
  function Find<K(==), V>(es: Entries<K, V>, k: K): (i: nat)
    ensures i <= |es|
    ensures i < |es| ==> es[i].0 == k
    ensures forall j :: 0 <= j < i ==> es[j].0 != k
  {
    if es == [] then 0
    else if es[0].0 == k then 0
    else
      var i := Find(es[1..], k);
      assert forall j :: 0 < j <= i ==> es[j].0 == es[1..][j - 1].0;
      1 + i
  }

  function Removed<K(==), V>(es: Entries<K, V>, k: K): Entries<K, V> {
    var i := Find(es, k);
    if i < |es| then es[..i] + es[i + 1..] else es
  }

  function Truncated<T>(es: seq<T>, capacity: nat): seq<T> {
    if |es| <= capacity then es else es[..capacity]
  }

  function Touched<K(==), V>(es: Entries<K, V>, k: K): Entries<K, V> {
    var i := Find(es, k);
    if i < |es| then [es[i]] + Removed(es, k) else es
  }

  function Put<K(==), V>(es: Entries<K, V>, k: K, v: V, capacity: nat): Entries<K, V> {
    Truncated([(k, v)] + Removed(es, k), capacity)
  }

  function ValueOf<K(==), V>(es: Entries<K, V>, k: K, default: V): V {
    var i := Find(es, k);
    if i < |es| then es[i].1 else default
  }

  lemma FindIs<K, V>(es: Entries<K, V>, k: K, i: nat)
    requires DistinctKeys(es) && i < |es| && es[i].0 == k
    ensures Find(es, k) == i
  {
  }

  lemma FindAbsent<K, V>(es: Entries<K, V>, k: K)
    ensures Find(es, k) == |es| <==> !Has(es, k)
  {
    if Find(es, k) < |es| {
      assert es[Find(es, k)].0 == k;
    }
  }

  /** Operations of the cache; a lookup is value or reference. */
  datatype Op<K, V> = PutOp(k: K, v: V) | Lookup(k: K) | Erase(k: K) | Resize(size: nat) | Clear

  datatype State<K, V> = State(entries: Entries<K, V>, capacity: nat)

  function Apply<K(==), V>(s: State<K, V>, op: Op<K, V>): State<K, V> {
    match op
    case PutOp(k, v) => s.(entries := Put(s.entries, k, v, s.capacity))
    case Lookup(k) => s.(entries := Touched(s.entries, k))
    case Erase(k) => s.(entries := Removed(s.entries, k))
    case Resize(size) => State(Truncated(s.entries, size), size)
    case Clear => s.(entries := [])
  }

  function Run<K(==), V>(capacity: nat, ops: seq<Op<K, V>>): State<K, V> {
    if ops == [] then State([], capacity)
    else Apply(Run(capacity, ops[..|ops| - 1]), ops[|ops| - 1])
  }

  // ------------------------------------------------- recency, said without the list

  predicate Mentions<K(==), V>(op: Op<K, V>, k: K) {
    (op.PutOp? || op.Lookup?) && op.k == k
  }

  /** One plus the index of the last operation that puts or looks up k; zero if none does. */
  function LastMention<K(==), V>(ops: seq<Op<K, V>>, k: K): nat {
    if ops == [] then 0
    else if Mentions(ops[|ops| - 1], k) then |ops|
    else LastMention(ops[..|ops| - 1], k)
  }

  lemma {:induction false} LastMentionBound<K, V>(ops: seq<Op<K, V>>, k: K)
    ensures LastMention(ops, k) <= |ops|
  {
    if ops != [] {
      LastMentionBound(ops[..|ops| - 1], k);
    }
  }

  lemma UnmentionedKeeps<K, V>(ops: seq<Op<K, V>>, op: Op<K, V>, k: K)
    requires !Mentions(op, k)
    ensures LastMention(ops + [op], k) == LastMention(ops, k) <= |ops|
  {
    LastMentionBound(ops, k);
    assert (ops + [op])[..|ops|] == ops;
  }

  /** Strictly ordered by last mention, latest first. */
  ghost predicate ByRecency<K, V>(ops: seq<Op<K, V>>, es: Entries<K, V>) {
    && (forall i, j :: 0 <= i < j < |es| ==> LastMention(ops, es[i].0) > LastMention(ops, es[j].0))
    && (forall i :: 0 <= i < |es| ==> LastMention(ops, es[i].0) > 0)
  }

  lemma RemovedSpec<K, V>(es: Entries<K, V>, k: K)
    requires DistinctKeys(es)
    ensures DistinctKeys(Removed(es, k)) && !Has(Removed(es, k), k)
    ensures |Removed(es, k)| == (if Has(es, k) then |es| - 1 else |es|)
    ensures forall i :: 0 <= i < |Removed(es, k)| ==>
              Removed(es, k)[i] == (if i < Find(es, k) then es[i] else es[i + 1])
  {
    FindAbsent(es, k);
    var at, r := Find(es, k), Removed(es, k);
    if at < |es| {
      forall i | 0 <= i < |r|
        ensures r[i] == es[if i < at then i else i + 1] && r[i].0 != k
      {
        assert es[at].0 == k;
      }
      forall i, j | 0 <= i < j < |r|
        ensures r[i].0 != r[j].0
      {
        var x, y := if i < at then i else i + 1, if j < at then j else j + 1;
        assert r[i] == es[x] && r[j] == es[y] && x < y;
      }
    }
  }

  lemma RecencyWithout<K, V>(ops: seq<Op<K, V>>, es: Entries<K, V>, k: K)
    requires ByRecency(ops, es)
    ensures ByRecency(ops, Removed(es, k))
  {
    var at := Find(es, k);
    var r := Removed(es, k);
    if at < |es| {
      assert forall i :: 0 <= i < at ==> r[i] == es[i];
      assert forall i :: at <= i < |r| ==> r[i] == es[i + 1];
    }
  }

  /** An operation that mentions none of the keys leaves the order as it is. */
  lemma RecencyUnmentioned<K, V>(ops: seq<Op<K, V>>, op: Op<K, V>, es: Entries<K, V>)
    requires ByRecency(ops, es)
    requires forall i :: 0 <= i < |es| ==> !Mentions(op, es[i].0)
    ensures ByRecency(ops + [op], es)
  {
    forall i | 0 <= i < |es|
      ensures LastMention(ops + [op], es[i].0) == LastMention(ops, es[i].0)
    {
      UnmentionedKeeps(ops, op, es[i].0);
    }
  }

  /** After a mention of k, k may stand in front of any ordered list that lacks it. */
  lemma RecencyInFront<K, V>(ops: seq<Op<K, V>>, op: Op<K, V>, k: K, v: V, es: Entries<K, V>)
    requires Mentions(op, k) && ByRecency(ops, es)
    requires forall i :: 0 <= i < |es| ==> es[i].0 != k
    ensures ByRecency(ops + [op], [(k, v)] + es)
  {
    RecencyUnmentioned(ops, op, es);
    forall i | 0 <= i < |es|
      ensures LastMention(ops + [op], es[i].0) <= |ops|
    {
      UnmentionedKeeps(ops, op, es[i].0);
    }
    assert LastMention(ops + [op], k) == |ops| + 1;
    var r := [(k, v)] + es;
    assert forall i :: 0 < i < |r| ==> r[i] == es[i - 1];
  }

  lemma RecencyAfterMention<K, V>(ops: seq<Op<K, V>>, op: Op<K, V>, k: K, v: V, es: Entries<K, V>)
    requires Mentions(op, k) && ByRecency(ops, es) && DistinctKeys(es)
    ensures ByRecency(ops + [op], [(k, v)] + Removed(es, k))
    ensures DistinctKeys([(k, v)] + Removed(es, k))
  {
    RemovedSpec(es, k);
    RecencyWithout(ops, es, k);
    RecencyInFront(ops, op, k, v, Removed(es, k));
  }

  /** What every run keeps. */
  ghost predicate Sound<K, V>(ops: seq<Op<K, V>>, s: State<K, V>) {
    DistinctKeys(s.entries) && |s.entries| <= s.capacity && ByRecency(ops, s.entries)
  }

  lemma LookupKeepsSound<K, V>(ops: seq<Op<K, V>>, s: State<K, V>, k: K)
    requires Sound(ops, s)
    ensures Sound(ops + [Lookup(k)], Apply(s, Lookup(k)))
  {
    var es := s.entries;
    FindAbsent(es, k);
    if Has(es, k) {
      RemovedSpec(es, k);
      RecencyAfterMention(ops, Lookup(k), k, es[Find(es, k)].1, es);
    } else {
      RecencyUnmentioned(ops, Lookup(k), es);
    }
  }

  lemma PutKeepsSound<K, V>(ops: seq<Op<K, V>>, s: State<K, V>, k: K, v: V)
    requires Sound(ops, s)
    ensures Sound(ops + [PutOp(k, v)], Apply(s, PutOp(k, v)))
  {
    RemovedSpec(s.entries, k);
    RecencyAfterMention(ops, PutOp(k, v), k, v, s.entries);
  }

  lemma StepKeepsSound<K, V>(ops: seq<Op<K, V>>, s: State<K, V>, op: Op<K, V>)
    requires Sound(ops, s)
    ensures Sound(ops + [op], Apply(s, op))
  {
    var es := s.entries;
    match op
    case PutOp(k, v) => PutKeepsSound(ops, s, k, v);
    case Lookup(k) => LookupKeepsSound(ops, s, k);
    case Erase(k) => RemovedSpec(es, k); RecencyWithout(ops, es, k); RecencyUnmentioned(ops, op, Removed(es, k));
    case Resize(size) => RecencyUnmentioned(ops, op, Truncated(es, size));
    case Clear =>
  }

  /**
    In every run the cache holds distinct keys, never more than its capacity, in strictly
    decreasing order of last mention: what truncation cuts off is exactly the least
    recently touched keys.
  */
  lemma {:induction false} RunIsByRecency<K, V>(capacity: nat, ops: seq<Op<K, V>>)
    ensures var s := Run(capacity, ops);
            DistinctKeys(s.entries) && |s.entries| <= s.capacity && ByRecency(ops, s.entries)
  {
    if ops != [] {
      var before, op := ops[..|ops| - 1], ops[|ops| - 1];
      assert before + [op] == ops;
      RunIsByRecency(capacity, before);
      StepKeepsSound(before, Run(capacity, before), op);
    }
  }

  /** Whatever a put evicts was mentioned before everything it keeps. */
  lemma EvictsLeastRecent<K, V>(capacity: nat, ops: seq<Op<K, V>>, k: K, v: V, gone: K, kept: K)
    requires var s := Run(capacity, ops);
             && gone != k && Has(s.entries, gone) && !Has(Put(s.entries, k, v, s.capacity), gone)
             && Has(Put(s.entries, k, v, s.capacity), kept)
    ensures LastMention(ops + [PutOp(k, v)], gone) < LastMention(ops + [PutOp(k, v)], kept)
  {
    var s := Run(capacity, ops);
    RunIsByRecency(capacity, ops);
    RecencyAfterMention(ops, PutOp(k, v), k, v, s.entries);
    RemovedKeeps(s.entries, k, gone);
    var full := [(k, v)] + Removed(s.entries, k);
    var g :| 0 <= g < |Removed(s.entries, k)| && Removed(s.entries, k)[g].0 == gone;
    assert full[g + 1].0 == gone;
    CutOffIsLess(ops + [PutOp(k, v)], full, s.capacity, gone, kept);
  }

  /** What truncation cuts off a list ordered by recency was mentioned before what it keeps. */
  lemma CutOffIsLess<K, V>(ops: seq<Op<K, V>>, es: Entries<K, V>, capacity: nat, gone: K, kept: K)
    requires ByRecency(ops, es) && Has(es, gone)
    requires !Has(Truncated(es, capacity), gone) && Has(Truncated(es, capacity), kept)
    ensures LastMention(ops, gone) < LastMention(ops, kept)
  {
    var g :| 0 <= g < |es| && es[g].0 == gone;
    var r := Truncated(es, capacity);
    var i :| 0 <= i < |r| && r[i].0 == kept;
    assert r[i] == es[i];
    assert forall j :: 0 <= j < |r| ==> r[j] == es[j] && r[j].0 != gone;
  }

  lemma RemovedKeeps<K, V>(es: Entries<K, V>, k: K, other: K)
    requires DistinctKeys(es) && other != k
    ensures Has(Removed(es, k), other) <==> Has(es, other)
  {
    RemovedSpec(es, k);
    var r := Removed(es, k);
    if Has(es, other) {
      var i :| 0 <= i < |es| && es[i].0 == other;
      FindAbsent(es, k);
      assert r[if i < Find(es, k) then i else i - 1] == es[i];
    }
  }

  // ------------------------------------------------- values

  /** What is left after a removal: the other keys, with their values. */
  lemma AfterRemove<K, V>(es: Entries<K, V>, k: K, other: K, default: V)
    requires DistinctKeys(es)
    ensures DistinctKeys(Removed(es, k)) && !Has(Removed(es, k), k)
    ensures other != k ==> (Has(Removed(es, k), other) <==> Has(es, other))
    ensures other != k ==> ValueOf(Removed(es, k), other, default) == ValueOf(es, other, default)
  {
    RemovedSpec(es, k);
    var r, at := Removed(es, k), Find(es, k);
    if other != k && Find(es, other) < |es| {
      var i := Find(es, other);
      var j := if i < at then i else i - 1;
      assert at == |es| || i != at;
      assert at < |es| ==> r[j] == es[i];
      FindIs(r, other, if at == |es| then i else j);
    }
    FindAbsent(es, other);
    FindAbsent(r, other);
  }

  /** A lookup changes no value and loses no key. */
  lemma AfterTouch<K, V>(es: Entries<K, V>, k: K, other: K, default: V)
    requires DistinctKeys(es)
    ensures Has(Touched(es, k), other) <==> Has(es, other)
    ensures ValueOf(Touched(es, k), other, default) == ValueOf(es, other, default)
    ensures |Touched(es, k)| == |es|
  {
    AfterRemove(es, k, other, default);
    FindAbsent(es, k);
    if Find(es, k) < |es| {
      InFront(es[Find(es, k)], Removed(es, k), other, default);
    }
  }

  lemma InFront<K, V>(e: (K, V), es: Entries<K, V>, other: K, default: V)
    requires DistinctKeys(es) && !Has(es, e.0)
    ensures DistinctKeys([e] + es)
    ensures Has([e] + es, other) <==> other == e.0 || Has(es, other)
    ensures ValueOf([e] + es, other, default) == if other == e.0 then e.1 else ValueOf(es, other, default)
  {
    var all := [e] + es;
    assert all[0] == e && all[1..] == es;
    if Has(es, other) {
      var i :| 0 <= i < |es| && es[i].0 == other;
      assert all[i + 1].0 == other;
    }
  }

  lemma TruncatedValues<K, V>(es: Entries<K, V>, capacity: nat, other: K, default: V)
    requires DistinctKeys(es)
    ensures |Truncated(es, capacity)| == Min(capacity, |es|) && Truncated(es, capacity) <= es
    ensures Has(Truncated(es, capacity), other) ==>
              Has(es, other) && ValueOf(Truncated(es, capacity), other, default) == ValueOf(es, other, default)
    ensures Has(es, other) && !Has(Truncated(es, capacity), other) ==> |Truncated(es, capacity)| == capacity
  {
    var t := Truncated(es, capacity);
    if Has(t, other) {
      var i :| 0 <= i < |t| && t[i].0 == other;
      assert es[i] == t[i];
      FindIs(es, other, i);
      FindIs(t, other, i);
    }
  }

  /**
    What a put does to every key: with any room at all the key has the new value and stands
    in front, every other key that survives keeps its value, and one is lost only when the
    cache is then full.
  */
  lemma LookupAfterPut<K, V>(es: Entries<K, V>, k: K, v: V, capacity: nat, other: K, default: V)
    requires DistinctKeys(es)
    ensures var after := Put(es, k, v, capacity);
            && (capacity > 0 ==> after != [] && after[0] == (k, v) && ValueOf(after, k, default) == v)
            && |after| == Min(capacity, |es| + if Has(es, k) then 0 else 1)
            && (other != k && Has(after, other) ==>
                  Has(es, other) && ValueOf(after, other, default) == ValueOf(es, other, default))
            && (other != k && Has(es, other) && !Has(after, other) ==> |after| == capacity)
  {
    AfterRemove(es, k, other, default);
    FindAbsent(es, k);
    var all := [(k, v)] + Removed(es, k);
    InFront((k, v), Removed(es, k), other, default);
    InFront((k, v), Removed(es, k), k, default);
    TruncatedValues(all, capacity, other, default);
    TruncatedValues(all, capacity, k, default);
    assert capacity > 0 ==> Truncated(all, capacity)[0].0 == k;
  }

  /** The value of the last put of k that no erasure of k and no clearing has followed. */
  function LastPut<K(==), V>(ops: seq<Op<K, V>>, k: K): Option<V> {
    if ops == [] then None
    else
      var last := ops[|ops| - 1];
      if last.PutOp? && last.k == k then Some(last.v)
      else if last.Clear? || (last.Erase? && last.k == k) then None
      else LastPut(ops[..|ops| - 1], k)
  }

  /** Every entry after an operation is the pair just put, or was there before under a key neither put nor erased. */
  lemma EntriesComeFrom<K, V>(s: State<K, V>, op: Op<K, V>, i: nat)
    requires DistinctKeys(s.entries) && i < |Apply(s, op).entries|
    ensures var e := Apply(s, op).entries[i];
            if op.PutOp? && e.0 == op.k then e == (op.k, op.v)
            else e in s.entries && !op.Clear? && (op.Erase? ==> e.0 != op.k)
  {
    var es := s.entries;
    match op
    case PutOp(k, v) =>
      RemovedSpec(es, k);
      var all := [(k, v)] + Removed(es, k);
      assert Put(es, k, v, s.capacity)[i] == all[i];
    case Lookup(k) => RemovedSpec(es, k);
    case Erase(k) => RemovedSpec(es, k);
    case Resize(_) =>
    case Clear =>
  }

  /** In every run each entry holds the value of the last put of its key. */
  lemma {:induction false} RunHoldsLastPut<K, V>(capacity: nat, ops: seq<Op<K, V>>, i: nat)
    requires i < |Run(capacity, ops).entries|
    ensures var e := Run(capacity, ops).entries[i]; LastPut(ops, e.0) == Some(e.1)
    decreases |ops|
  {
    if ops != [] {
      var before, op := ops[..|ops| - 1], ops[|ops| - 1];
      var s := Run(capacity, before);
      RunIsByRecency(capacity, before);
      EntriesComeFrom(s, op, i);
      var e := Run(capacity, ops).entries[i];
      if e in s.entries {
        var j :| 0 <= j < |s.entries| && s.entries[j] == e;
        RunHoldsLastPut(capacity, before, j);
      }
    }
  }

  /** So a lookup after any run answers the last put, or the default when the key is not cached. */
  lemma RunFindsLastPut<K, V>(capacity: nat, ops: seq<Op<K, V>>, k: K, default: V)
    ensures var es := Run(capacity, ops).entries;
            if Has(es, k) then LastPut(ops, k) == Some(ValueOf(es, k, default)) else ValueOf(es, k, default) == default
  {
    var es := Run(capacity, ops).entries;
    FindAbsent(es, k);
    if Has(es, k) {
      RunHoldsLastPut(capacity, ops, Find(es, k));
    }
  }
}
