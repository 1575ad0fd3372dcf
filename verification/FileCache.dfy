/**
  The static content plugin's use of the cache: read-through lookups that compare the last
  write time, and the periodic sweep of files nobody is using.
*/
module FileCache {
  import opened Basics
  import opened LinkedLists
  import opened LruCache
  import Spec = LruSpec

  type Path = string

  /** A mapped file remembers the write time it was mapped at; Null is the empty shared_ptr. */
  datatype FilePtr = Null | File(stamp: int, data: string)

  /** What the file system answers: the lookup or the mapping may fail. */
  datatype Disk = Missing | Unmappable(stamp: int) | Present(stamp: int, data: string)

  type Files = Spec.Entries<Path, FilePtr>

  predicate Fresh(file: FilePtr, stamp: int) {
    file.File? && file.stamp == stamp
  }

  function Looked(files: Files, p: Path): FilePtr {
    Spec.ValueOf(files, p, Null)
  }

  /** The cache after one request. */
  function Requested(files: Files, capacity: nat, p: Path, disk: Disk): Files {
    var touched := Spec.Touched(files, p);
    if disk.Present? && !Fresh(Looked(files, p), disk.stamp)
    then Spec.Put(touched, p, File(disk.stamp, disk.data), capacity)
    else touched
  }

  /** What is answered: a fresh file from the cache, one just loaded, or an exception. */
  function Served(files: Files, p: Path, disk: Disk): FilePtr {
    if disk.Missing? then Null
    else if Fresh(Looked(files, p), disk.stamp) then Looked(files, p)
    else if disk.Present? then File(disk.stamp, disk.data)
    else Null
  }

  /** The body of static_content_session up to the response; Null is a thrown exception. */
  method Serve(cache: Cache<Path, FilePtr>, p: Path, disk: Disk) returns (file: FilePtr)
    requires cache.Valid()
    modifies cache, cache.items, cache.items.repr
    ensures cache.Valid() && cache.cacheSize == old(cache.cacheSize) && fresh(cache.items.repr - old(cache.items.repr))
    ensures cache.Contents() == Requested(old(cache.Contents()), cache.cacheSize, p, disk)
    ensures file == Served(old(cache.Contents()), p, disk)
  {
    file := cache.Value(p, Null);
    if disk.Missing? {
      return Null;
    }
    if file.Null? || file.stamp != disk.stamp {
      file := Load(cache, p, disk);
    }
  }

  /** Maps the file and caches it, unless the mapping fails. */
  method Load(cache: Cache<Path, FilePtr>, p: Path, disk: Disk) returns (file: FilePtr)
    requires cache.Valid() && !disk.Missing?
    modifies cache`hash, cache.items, cache.items.repr
    ensures cache.Valid() && fresh(cache.items.repr - old(cache.items.repr))
    ensures file == if disk.Present? then File(disk.stamp, disk.data) else Null
    ensures cache.Contents() == if disk.Present? then Spec.Put(old(cache.Contents()), p, file, cache.cacheSize)
                                else old(cache.Contents())
  {
    if disk.Unmappable? {
      return Null;
    }
    file := File(disk.stamp, disk.data);
    cache.Put(p, file);
  }

  function Kept(files: Files, inUse: set<Path>): Files {
    if files == [] then []
    else KeptOne(files[0], inUse) + Kept(files[1..], inUse)
  }

  function KeptOne(e: (Path, FilePtr), inUse: set<Path>): Files {
    if e.0 in inUse then [e] else []
  }

  lemma {:induction false} KeptSnoc(files: Files, inUse: set<Path>, e: (Path, FilePtr))
    ensures Kept(files + [e], inUse) == Kept(files, inUse) + (if e.0 in inUse then [e] else [])
  {
    if files == [] {
      assert files + [e] == [e] && [e][1..] == [];
      assert KeptOne(e, inUse) + [] == [] + KeptOne(e, inUse);
    } else {
      assert (files + [e])[1..] == files[1..] + [e];
      KeptSnoc(files[1..], inUse, e);
      Associates(KeptOne(files[0], inUse), Kept(files[1..], inUse), KeptOne(e, inUse));
    }
  }

  /** How far the sweep is: the part seen has been filtered, the rest is untouched. */
  ghost predicate Swept(all: Files, inUse: set<Path>, seen: nat, at: nat, now: Files) {
    seen <= |all| && now == Kept(all[..seen], inUse) + all[seen..] && at == |Kept(all[..seen], inUse)|
  }

  lemma SweptOneMore(all: Files, inUse: set<Path>, seen: nat, at: nat, now: Files)
    requires Swept(all, inUse, seen, at, now) && at < |now|
    ensures seen < |all| && now[at] == all[seen]
    ensures now[at].0 in inUse ==> Swept(all, inUse, seen + 1, at + 1, now)
    ensures now[at].0 !in inUse ==> Swept(all, inUse, seen + 1, at, Without(now, at))
  {
    var done := Kept(all[..seen], inUse);
    assert all[..seen + 1] == all[..seen] + [all[seen]];
    KeptSnoc(all[..seen], inUse, all[seen]);
    assert all[seen..] == [all[seen]] + all[seen + 1..];
    assert now == done + [all[seen]] + all[seen + 1..];
  }

  /** One turn of the sweep: what is kept stays, what is erased makes room for its successor. */
  method SweepOne(cache: Cache<Path, FilePtr>, it: Node<Path, FilePtr>, inUse: set<Path>,
                  ghost all: Files, ghost seen: nat, ghost at: nat)
    returns (next: Node?<Path, FilePtr>, ghost at': nat)
    requires cache.Valid() && at < |cache.items.nodes| && cache.items.nodes[at] == it
    requires Swept(all, inUse, seen, at, cache.Contents())
    modifies cache`hash, cache.items, cache.items.repr
    ensures cache.Valid() && cache.items.repr == old(cache.items.repr)
    ensures next == At(cache.items.nodes, at')
    ensures seen < |all| && Swept(all, inUse, seen + 1, at', cache.Contents())
  {
    assert cache.Contents()[at] == (cache.items.nodes[at].key, cache.items.nodes[at].value);
    SweptOneMore(all, inUse, seen, at, cache.Contents());
    if it.key !in inUse {
      next := cache.Erase(it, at);
      at' := at;
    } else {
      next := it.next;
      at' := at + 1;
    }
  }

  /** The sweep: erases while iterating, and leaves exactly the files in use, in order. */
  method Sweep(cache: Cache<Path, FilePtr>, inUse: set<Path>)
    requires cache.Valid()
    modifies cache, cache.items, cache.items.repr
    ensures cache.Valid() && cache.cacheSize == old(cache.cacheSize) && cache.items.repr == old(cache.items.repr)
    ensures cache.Contents() == Kept(old(cache.Contents()), inUse)
  {
    ghost var all := cache.Contents();
    ghost var at, seen := 0, 0;
    var it := cache.items.head;
    while it != null
      invariant cache.Valid() && cache.items.repr == old(cache.items.repr)
      invariant cache.cacheSize == old(cache.cacheSize)
      invariant it == At(cache.items.nodes, at)
      invariant Swept(all, inUse, seen, at, cache.Contents())
      decreases |all| - seen
    {
      it, at := SweepOne(cache, it, inUse, all, seen, at);
      seen := seen + 1;
    }
    SweptAll(all, inUse, seen, at, cache.Contents());
  }

  lemma SweptAll(all: Files, inUse: set<Path>, seen: nat, at: nat, now: Files)
    requires Swept(all, inUse, seen, at, now) && at >= |now|
    ensures now == Kept(all, inUse)
  {
    assert all[..seen] == all;
  }

  // ------------------------------------------------- what is served

  /**
    A readable file is answered with its current write time: the cached mapping if it was
    mapped at that time, else one just loaded. There is no answer exactly when the lookup
    fails, or the mapping does and no cached one has that time.
  */
  lemma ServedIs(files: Files, p: Path, disk: Disk)
    ensures var file, cached := Served(files, p, disk), Looked(files, p);
            && (file.Null? <==> disk.Missing? || (disk.Unmappable? && !(cached.File? && cached.stamp == disk.stamp)))
            && (file.File? ==> file.stamp == disk.stamp)
            && (file.File? ==> file == cached || (disk.Present? && file.data == disk.data))
            && (cached.File? && !disk.Missing? && cached.stamp == disk.stamp ==> file == cached)
  {
  }

  /** What was answered is cached, and answered again as long as the write time stays the same. */
  lemma ServedAgain(files: Files, capacity: nat, p: Path, disk: Disk, later: Disk)
    requires Spec.DistinctKeys(files) && capacity > 0
    requires Served(files, p, disk).File? && !later.Missing? && later.stamp == disk.stamp
    ensures Looked(Requested(files, capacity, p, disk), p) == Served(files, p, disk)
    ensures Served(Requested(files, capacity, p, disk), p, later) == Served(files, p, disk)
  {
    var touched := Spec.Touched(files, p);
    Spec.AfterTouch(files, p, p, Null);
    if disk.Present? && !Fresh(Looked(files, p), disk.stamp) {
      TouchedDistinct(files, p);
      Spec.LookupAfterPut(touched, p, File(disk.stamp, disk.data), capacity, p, Null);
    }
  }

  lemma TouchedDistinct(files: Files, p: Path)
    requires Spec.DistinctKeys(files)
    ensures Spec.DistinctKeys(Spec.Touched(files, p))
  {
    Spec.RemovedSpec(files, p);
  }

  /** The sweep keeps exactly the entries in use. */
  lemma {:induction false} KeptIs(files: Files, inUse: set<Path>, e: (Path, FilePtr))
    ensures e in Kept(files, inUse) <==> e in files && e.0 in inUse
  {
    if files != [] {
      KeptIs(files[1..], inUse, e);
      assert files == [files[0]] + files[1..];
    }
  }
}
