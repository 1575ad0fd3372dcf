/**
  The inclusion property of the read-through cache: on the same requests a smaller cache
  always holds the front part of what a larger one holds.
*/
module CacheInclusion {
  import opened FileCache
  import Spec = LruSpec

  function KeysOf(files: Files): (ks: seq<Path>)
    ensures |ks| == |files| && forall i :: 0 <= i < |ks| ==> ks[i] == files[i].0
  {
    seq(|files|, i requires 0 <= i < |files| => files[i].0)
  }

  function Drop(ks: seq<Path>, k: Path): seq<Path> {
    if ks == [] then [] else if ks[0] == k then ks[1..] else [ks[0]] + Drop(ks[1..], k)
  }

  function Filter(ks: seq<Path>, inUse: set<Path>): seq<Path> {
    if ks == [] then [] else (if ks[0] in inUse then [ks[0]] else []) + Filter(ks[1..], inUse)
  }

  /** A request as the keys see it. */
  function Front(ks: seq<Path>, k: Path, capacity: nat): seq<Path> {
    Spec.Truncated([k] + Drop(ks, k), capacity)
  }

  lemma KeysOfCons(e: (Path, FilePtr), files: Files)
    ensures KeysOf([e] + files) == [e.0] + KeysOf(files)
  {
  }

  lemma {:induction false} KeysOfRemoved(files: Files, k: Path)
    ensures KeysOf(Spec.Removed(files, k)) == Drop(KeysOf(files), k)
  {
    if files != [] {
      var e, tail := files[0], files[1..];
      assert files == [e] + tail;
      KeysOfRemoved(tail, k);
      KeysOfCons(e, tail);
      KeysOfCons(e, Spec.Removed(tail, k));
    }
  }

  lemma {:induction false} KeysOfKept(files: Files, inUse: set<Path>)
    ensures KeysOf(Kept(files, inUse)) == Filter(KeysOf(files), inUse)
  {
    if files != [] {
      KeysOfKept(files[1..], inUse);
      assert KeysOf(files)[1..] == KeysOf(files[1..]);
    }
  }

  lemma {:induction false} DropPrefix(a: seq<Path>, b: seq<Path>, k: Path)
    requires a <= b
    ensures if k in a then Drop(a, k) <= Drop(b, k) else Drop(a, k) == a && a <= Drop(b, k)
  {
    if a != [] && a[0] != k {
      DropPrefix(a[1..], b[1..], k);
    }
  }

  lemma {:induction false} FilterPrefix(a: seq<Path>, b: seq<Path>, inUse: set<Path>)
    requires a <= b
    ensures Filter(a, inUse) <= Filter(b, inUse)
  {
    if a != [] {
      FilterPrefix(a[1..], b[1..], inUse);
    }
  }

  lemma {:induction false} FrontPrefix(a: seq<Path>, b: seq<Path>, k: Path, small: nat, large: nat)
    requires a <= b && small <= large
    ensures Front(a, k, small) <= Front(b, k, large)
  {
    DropPrefix(a, b, k);
    assert [k] + Drop(a, k) <= [k] + Drop(b, k);
  }

  /** What every step keeps: distinct keys, and no more than the capacity. */
  ghost predicate Sound(files: Files, capacity: nat) {
    Spec.DistinctKeys(files) && |files| <= capacity
  }

  lemma DistinctCons(e: (Path, FilePtr), files: Files)
    requires Spec.DistinctKeys(files) && !Spec.Has(files, e.0)
    ensures Spec.DistinctKeys([e] + files)
  {
    forall i | 0 <= i < |files|
      ensures files[i].0 != e.0
    {
    }
  }

  lemma TouchedPresent(files: Files, p: Path)
    requires Spec.DistinctKeys(files) && Spec.Has(files, p)
    ensures Spec.DistinctKeys(Spec.Touched(files, p)) && |Spec.Touched(files, p)| == |files|
    ensures Spec.Removed(Spec.Touched(files, p), p) == Spec.Removed(files, p)
    ensures KeysOf(Spec.Touched(files, p)) == [p] + Drop(KeysOf(files), p)
  {
    Spec.FindAbsent(files, p);
    Spec.RemovedSpec(files, p);
    KeysOfRemoved(files, p);
    var e, rest := files[Spec.Find(files, p)], Spec.Removed(files, p);
    assert Spec.Touched(files, p) == [e] + rest;
    DistinctCons(e, rest);
    KeysOfCons(e, rest);
  }

  lemma PutKeys(files: Files, capacity: nat, p: Path, v: FilePtr)
    requires Spec.DistinctKeys(files)
    ensures Sound(Spec.Put(files, p, v, capacity), capacity)
    ensures KeysOf(Spec.Put(files, p, v, capacity)) == Spec.Truncated([p] + KeysOf(Spec.Removed(files, p)), capacity)
  {
    Spec.RemovedSpec(files, p);
    DistinctCons((p, v), Spec.Removed(files, p));
    KeysOfCons((p, v), Spec.Removed(files, p));
  }

  /** A request whose file can be read moves or puts its key in front, whatever was cached. */
  lemma RequestKeys(files: Files, capacity: nat, p: Path, disk: Disk)
    requires Sound(files, capacity) && disk.Present?
    ensures Sound(Requested(files, capacity, p, disk), capacity)
    ensures KeysOf(Requested(files, capacity, p, disk)) == Front(KeysOf(files), p, capacity)
  {
    Spec.FindAbsent(files, p);
    KeysOfRemoved(files, p);
    if Spec.Has(files, p) {
      TouchedPresent(files, p);
    }
    PutKeys(Spec.Touched(files, p), capacity, p, File(disk.stamp, disk.data));
  }

  lemma {:induction false} KeptSound(files: Files, inUse: set<Path>, capacity: nat)
    requires Sound(files, capacity)
    ensures Sound(Kept(files, inUse), capacity)
    ensures forall i :: 0 <= i < |Kept(files, inUse)| ==> Kept(files, inUse)[i] in files
    ensures |Kept(files, inUse)| <= |files|
  {
    if files != [] {
      KeptSound(files[1..], inUse, capacity);
      var rest := Kept(files[1..], inUse);
      forall i | 0 <= i < |rest|
        ensures rest[i].0 != files[0].0
      {
        var j :| 0 <= j < |files[1..]| && files[1..][j] == rest[i];
        assert files[j + 1] == rest[i];
      }
    }
  }

  // ------------------------------------------------- whole traces

  datatype Event = Request(p: Path, disk: Disk) | SweepEvent(inUse: set<Path>)

  function After(files: Files, capacity: nat, e: Event): Files {
    match e
    case Request(p, disk) => Requested(files, capacity, p, disk)
    case SweepEvent(inUse) => Kept(files, inUse)
  }

  function RunTrace(capacity: nat, trace: seq<Event>): Files {
    if trace == [] then [] else After(RunTrace(capacity, trace[..|trace| - 1]), capacity, trace[|trace| - 1])
  }

  ghost predicate NoFailures(trace: seq<Event>) {
    forall i :: 0 <= i < |trace| && trace[i].Request? ==> trace[i].disk.Present?
  }

  /** On every trace without failing lookups the smaller cache is the front of the larger one. */
  lemma {:induction false} Inclusion(small: nat, large: nat, trace: seq<Event>)
    requires small <= large && NoFailures(trace)
    ensures Sound(RunTrace(small, trace), small) && Sound(RunTrace(large, trace), large)
    ensures KeysOf(RunTrace(small, trace)) <= KeysOf(RunTrace(large, trace))
  {
    if trace != [] {
      var before, e := trace[..|trace| - 1], trace[|trace| - 1];
      Inclusion(small, large, before);
      var a, b := RunTrace(small, before), RunTrace(large, before);
      match e
      case Request(p, disk) =>
        assert trace[|trace| - 1].disk.Present?;
        RequestKeys(a, small, p, disk);
        RequestKeys(b, large, p, disk);
        FrontPrefix(KeysOf(a), KeysOf(b), p, small, large);
      case SweepEvent(inUse) =>
        KeptSound(a, inUse, small);
        KeptSound(b, inUse, large);
        KeysOfKept(a, inUse);
        KeysOfKept(b, inUse);
        FilterPrefix(KeysOf(a), KeysOf(b), inUse);
    }
  }

  /**
    A failing lookup keeps the inclusion exactly when both caches see the same thing: it
    breaks it when only the larger cache holds the file and the smaller one is not empty.
  */
  lemma FailureKeepsInclusionIff(a: Files, b: Files, small: nat, large: nat, p: Path, disk: Disk)
    requires Sound(a, small) && Sound(b, large) && KeysOf(a) <= KeysOf(b) && !disk.Present?
    ensures KeysOf(Requested(a, small, p, disk)) <= KeysOf(Requested(b, large, p, disk)) <==>
            p in KeysOf(a) || p !in KeysOf(b) || a == []
  {
    TouchedKeys(a, p);
    TouchedKeys(b, p);
    TouchKeepsPrefixIff(KeysOf(a), KeysOf(b), p);
  }

  /** A lookup as the keys see it. */
  function Touch(ks: seq<Path>, k: Path): seq<Path> {
    if k in ks then [k] + Drop(ks, k) else ks
  }

  lemma TouchedKeys(files: Files, p: Path)
    requires Spec.DistinctKeys(files)
    ensures KeysOf(Spec.Touched(files, p)) == Touch(KeysOf(files), p)
  {
    if Spec.Has(files, p) {
      TouchedPresent(files, p);
    }
  }

  lemma TouchKeepsPrefixIff(a: seq<Path>, b: seq<Path>, k: Path)
    requires a <= b
    ensures Touch(a, k) <= Touch(b, k) <==> k in a || k !in b || a == []
  {
    DropPrefix(a, b, k);
    if k in a {
      assert [k] + Drop(a, k) <= [k] + Drop(b, k);
    } else if k in b && a != [] {
      assert a[0] != k;
    }
  }

  lemma RunOneMore(capacity: nat, trace: seq<Event>, p: Path, disk: Disk)
    requires NoFailures(trace) && disk.Present?
    ensures KeysOf(RunTrace(capacity, trace + [Request(p, disk)])) == Front(KeysOf(RunTrace(capacity, trace)), p, capacity)
  {
    var e := Request(p, disk);
    assert (trace + [e])[..|trace|] == trace && (trace + [e])[|trace|] == e;
    Inclusion(capacity, capacity, trace);
    RequestKeys(RunTrace(capacity, trace), capacity, p, disk);
  }

  lemma RunTwo(capacity: nat, p: Path, q: Path, disk: Disk)
    requires p != q && disk.Present? && capacity > 0
    ensures KeysOf(RunTrace(capacity, [Request(p, disk), Request(q, disk)])) == Spec.Truncated([q, p], capacity)
  {
    var one := [Request(p, disk)];
    assert [] + [Request(p, disk)] == one && one + [Request(q, disk)] == [Request(p, disk), Request(q, disk)];
    RunOneMore(capacity, [], p, disk);
    assert KeysOf(RunTrace(capacity, [])) == [] && Drop([], p) == [] && [p] + [] == [p];
    assert KeysOf(RunTrace(capacity, one)) == [p];
    RunOneMore(capacity, one, q, disk);
    assert Drop([p], q) == [p] + Drop([p][1..], q) == [p];
  }

  /** So the hypothesis cannot be dropped: three requests, the last for a file that has vanished. */
  lemma InclusionNeedsNoFailures(p: Path, q: Path, disk: Disk)
    requires p != q && disk.Present?
    ensures var trace := [Request(p, disk), Request(q, disk), Request(p, Missing)];
            !(KeysOf(RunTrace(1, trace)) <= KeysOf(RunTrace(2, trace)))
  {
    var two := [Request(p, disk), Request(q, disk)];
    var trace := [Request(p, disk), Request(q, disk), Request(p, Missing)];
    assert trace[..2] == two;
    RunTwo(1, p, q, disk);
    RunTwo(2, p, q, disk);
    assert [q, p][1] == p;
    Inclusion(1, 2, two);
    FailureKeepsInclusionIff(RunTrace(1, two), RunTrace(2, two), 1, 2, p, Missing);
  }

  // ------------------------------------------------- where cached files come from

  lemma RequestedFrom(files: Files, capacity: nat, p: Path, disk: Disk, e: (Path, FilePtr))
    requires Spec.DistinctKeys(files) && e in Requested(files, capacity, p, disk)
    ensures e in files || (disk.Present? && e == (p, File(disk.stamp, disk.data)))
  {
    var touched := Spec.Touched(files, p);
    if disk.Present? && !Fresh(Looked(files, p), disk.stamp) {
      var file := File(disk.stamp, disk.data);
      var put := Spec.Put(touched, p, file, capacity);
      var i :| 0 <= i < |put| && put[i] == e;
      TouchedDistinct(files, p);
      Spec.EntriesComeFrom(Spec.State(touched, capacity), Spec.PutOp(p, file), i);
    }
  }

  lemma AfterDistinct(files: Files, capacity: nat, e: Event)
    requires Spec.DistinctKeys(files)
    ensures Spec.DistinctKeys(After(files, capacity, e))
  {
    match e
    case Request(p, disk) =>
      TouchedDistinct(files, p);
      Spec.RemovedSpec(Spec.Touched(files, p), p);
    case SweepEvent(inUse) => KeptDistinct(files, inUse);
  }

  lemma {:induction false} KeptDistinct(files: Files, inUse: set<Path>)
    requires Spec.DistinctKeys(files)
    ensures Spec.DistinctKeys(Kept(files, inUse))
  {
    if files != [] {
      KeptDistinct(files[1..], inUse);
      forall i | 0 <= i < |Kept(files[1..], inUse)|
        ensures Kept(files[1..], inUse)[i].0 != files[0].0
      {
        KeptIs(files[1..], inUse, Kept(files[1..], inUse)[i]);
      }
    }
  }

  /** On every trace: a cached file is what the disk held, under that path and write time, at some request so far. */
  lemma {:induction false} CachedWasRead(capacity: nat, trace: seq<Event>, p: Path, file: FilePtr)
    ensures Spec.DistinctKeys(RunTrace(capacity, trace))
    ensures (p, file) in RunTrace(capacity, trace) ==>
              file.File? && exists i :: 0 <= i < |trace| && trace[i] == Request(p, Present(file.stamp, file.data))
  {
    if trace != [] {
      var n := |trace| - 1;
      var before, e := trace[..n], trace[n];
      CachedWasRead(capacity, before, p, file);
      var files := RunTrace(capacity, before);
      AfterDistinct(files, capacity, e);
      if (p, file) in RunTrace(capacity, trace) {
        match e
        case Request(q, disk) =>
          RequestedFrom(files, capacity, q, disk, (p, file));
          assert (p, file) !in files ==> file.File? && trace[n] == Request(p, Present(file.stamp, file.data));
        case SweepEvent(inUse) => KeptIs(files, inUse, (p, file));
        if (p, file) in files {
          var i :| 0 <= i < |before| && before[i] == Request(p, Present(file.stamp, file.data));
          assert trace[i] == before[i];
        }
      }
    }
  }
}
