/**
  ChunkedStream and OStreamBuffer over a session: buffering and framing on top of the
  short-write loops, down to the bytes on the wire.
*/
module OutputStreams {
  import opened Basics
  import opened ByteStrings
  import opened ChunkedCoding
  import opened VectoredWrite
  import opened HttpSession

  function ChunkHeader(size: nat): Bytes {
    Hex(size) + CRLF
  }

  /** The buffer list of one chunk. */
  function Framed(buffers: seq<Bytes>): seq<Bytes> {
    [ChunkHeader(|Flatten(buffers)|)] + buffers + [CRLF]
  }

  class ChunkedStream {
    const next: Session
    ghost const plan: seq<Io>       // the schedule when the stream was created
    ghost const whole: bool         // no earlier write had fallen short
    ghost var start: Bytes          // the wire when the stream was created
    ghost var payloads: seq<Bytes>  // one entry per chunk

    /**
      As long as every write sent all it was given, the wire holds exactly the chunks; and
      every write did so if the socket had room for each chunk in turn.
    */
    ghost predicate Valid()
      reads this, next
    {
      && (forall i :: 0 <= i < |payloads| ==> payloads[i] != [])
      && (!next.lossy ==> next.wire == start + Chunks(payloads))
      && (whole && next.kind.Plain? && RoomForEach(plan, payloads) ==>
            !next.lossy && next.script == plan[|payloads|..])
    }

    constructor (session: Session)
      ensures next == session && Valid() && start == session.wire && payloads == []
      ensures plan == session.script && (whole <==> !session.lossy)
    {
      next := session;
      start := session.wire;
      plan, whole := session.script, !session.lossy;
      payloads := [];
    }

    /** write(ConstBuffer). */
    method Write(buffer: Bytes) returns (status: Status)
      requires Valid()
      modifies this, next, next.sharedWriteBuffer
      ensures Valid() && start == old(start)
      ensures payloads == if buffer == [] then old(payloads) else old(payloads) + [buffer]
      ensures !next.lossy ==> status.Done? && !old(next.lossy)
      ensures var sent := SentVector(next.kind, Framed([buffer]), old(next.script));
              next.lossy <==> old(next.lossy) || (buffer != [] && (!status.Done? || sent != Chunk(buffer)))
      ensures buffer == [] ==> next.wire == old(next.wire)
      ensures status == if buffer == [] then Done else WriteVector(next.kind, Framed([buffer]), old(next.script)).status
    {
      if buffer == [] {
        return Done;
      }
      var buffers := [ChunkHeader(|buffer|), buffer, CRLF];
      FlattenSnoc([], buffer);
      assert [] + [buffer] == [buffer] && buffers == Framed([buffer]);
      FlattenThree(ChunkHeader(|buffer|), buffer, CRLF);
      assert Flatten(buffers) == Chunk(buffer);
      WireGrows(start, payloads, buffer);
      RoomForOneMore(plan, payloads, buffer, buffers);
      status := next.WriteBuffers(buffers);
      payloads := payloads + [buffer];
    }

    /** write(std::vector<ConstBuffer>): one chunk for the whole list. */
    method WriteAll(buffers: seq<Bytes>) returns (status: Status)
      requires Valid()
      modifies this, next, next.sharedWriteBuffer
      ensures Valid() && start == old(start)
      ensures payloads == if Flatten(buffers) == [] then old(payloads) else old(payloads) + [Flatten(buffers)]
      ensures !next.lossy ==> status.Done? && !old(next.lossy)
      ensures var sent, all := SentVector(next.kind, Framed(buffers), old(next.script)), Flatten(buffers);
              next.lossy <==> old(next.lossy) || (all != [] && (!status.Done? || sent != Chunk(all)))
      ensures Flatten(buffers) == [] ==> next.wire == old(next.wire)
      ensures status == if Flatten(buffers) == [] then Done
                        else WriteVector(next.kind, Framed(buffers), old(next.script)).status
    {
      var list, size := Gather(buffers);
      if size == 0 {
        return Done;
      }
      list := list + [CRLF];
      list := list[0 := ChunkHeader(size)];
      assert list == [ChunkHeader(size)] + buffers + [CRLF];
      FlattenFramed(ChunkHeader(size), buffers, CRLF);
      assert Flatten(list) == Chunk(Flatten(buffers));
      WireGrows(start, payloads, Flatten(buffers));
      RoomForOneMore(plan, payloads, Flatten(buffers), list);
      status := next.WriteBuffers(list);
      payloads := payloads + [Flatten(buffers)];
    }

    /** The destructor: sends the terminator and swallows errors. */
    method Close()
      requires Valid()
      modifies this, next
      ensures payloads == old(payloads) && start == old(start)
      ensures !next.lossy ==> !old(next.lossy) && next.wire == start + Chunks(payloads) + END_OF_CHUNKED_STREAM
      ensures next.lossy <==> old(next.lossy) ||
                              SentOne(next.kind, END_OF_CHUNKED_STREAM, old(next.script)) != END_OF_CHUNKED_STREAM
    {
      var status := next.WriteBuffer(END_OF_CHUNKED_STREAM);
      WriteOneExact(next.kind, END_OF_CHUNKED_STREAM, old(next.script));
    }
  }

  /** Copies the list behind a place for the header and adds up the sizes. */
  method Gather(buffers: seq<Bytes>) returns (list: seq<Bytes>, size: nat)
    ensures list == [[]] + buffers && size == |Flatten(buffers)|
  {
    list, size := [[]], 0;
    for i := 0 to |buffers|
      invariant list == [[]] + buffers[..i]
      invariant size == |Flatten(buffers[..i])|
    {
      FlattenSplit(buffers, i);
      TakeSnoc(buffers, i);
      Associates([[]], buffers[..i], [buffers[i]]);
      size := size + |buffers[i]|;
      list := list + [buffers[i]];
    }
    assert buffers[..|buffers|] == buffers;
  }

  /** The i-th call of the schedule can take the i-th chunk at once. */
  ghost predicate RoomForEach(script: seq<Io>, payloads: seq<Bytes>) {
    && |payloads| <= |script|
    && forall i :: 0 <= i < |payloads| ==> RoomFor(script[i], |Chunk(payloads[i])|)
  }

  predicate RoomFor(io: Io, n: nat) {
    io.Took? && io.limit >= n
  }

  lemma RoomForOneMore(plan: seq<Io>, payloads: seq<Bytes>, p: Bytes, buffers: seq<Bytes>)
    requires Flatten(buffers) == Chunk(p)
    ensures RoomForEach(plan, payloads + [p]) ==>
              && RoomForEach(plan, payloads)
              && WriteVector(Plain, buffers, plan[|payloads|..]) == Run(|Chunk(p)|, Done, plan[|payloads| + 1..])
  {
    if RoomForEach(plan, payloads + [p]) {
      var k := |payloads|;
      assert forall i :: 0 <= i < k ==> (payloads + [p])[i] == payloads[i];
      assert (payloads + [p])[k] == p && plan[k..][0] == plan[k] && plan[k..][1..] == plan[k + 1..];
      RoomForAllCompletes(buffers, plan[k..]);
    }
  }

  lemma WireGrows(start: Bytes, payloads: seq<Bytes>, p: Bytes)
    ensures (start + Chunks(payloads)) + Chunk(p) == start + Chunks(payloads + [p])
  {
    ChunksSnoc(payloads, p);
    Associates(start, Chunks(payloads), Chunk(p));
  }

  lemma FlattenFramed(head: Bytes, buffers: seq<Bytes>, tail: Bytes)
    ensures Flatten([head] + buffers + [tail]) == head + Flatten(buffers) + tail
  {
    var list := [head] + buffers + [tail];
    assert list[1..] == buffers + [tail];
    FlattenSnoc(buffers, tail);
  }

  lemma FlattenThree(a: Bytes, b: Bytes, c: Bytes)
    ensures Flatten([a, b, c]) == a + b + c
  {
    assert [a, b, c] == [a] + [b] + [c];
    FlattenFramed(a, [b], c);
    FlattenSnoc([], b);
    assert [] + [b] == [b];
  }

  lemma FlattenTwo(a: Bytes, b: Bytes)
    ensures Flatten([a, b]) == a + b
  {
    assert [a, b] == [a] + [b];
    assert [] + [a] == [a];
    FlattenSnoc([a], b);
    FlattenSnoc([], a);
  }

  // ------------------------------------------------- the buffer

  type Room = n: nat | n >= 1 witness 1

  /**
    The sizes the buffer depends on. `rooms` are the capacities that std::string::reserve
    will leave, one per call; when they are used up the capacity stays as it is.
  */
  datatype Sizes = Sizes(capacity: Room, buffered: nat, rooms: seq<Room>)

  /** After the buffer has been emptied and reserved anew. */
  function Reserved(k: Sizes): Sizes {
    if k.rooms == [] then k.(buffered := 0) else Sizes(k.rooms[0], 0, k.rooms[1..])
  }

  /** The sizes after one turn of the block put that buffers, with `left` bytes to go. */
  function Absorbed(left: nat, k: Sizes): Sizes
    requires k.buffered <= k.capacity
  {
    var room := if k.buffered >= k.capacity then Reserved(k) else k;
    room.(buffered := room.buffered + Min(left, room.capacity - room.buffered))
  }

  /** How many bytes that turn takes. */
  function AbsorbedLength(left: nat, k: Sizes): nat
    requires k.buffered <= k.capacity
  {
    var room := if k.buffered >= k.capacity then Reserved(k) else k;
    Min(left, room.capacity - room.buffered)
  }

  /** The count a block put of n bytes returns, with `left` of them still to go. */
  function PutCount(n: nat, left: nat, k: Sizes): nat
    requires k.buffered <= k.capacity
    decreases left
  {
    if left == 0 then n
    else if left > k.capacity then left
    else PutCount(n, left - AbsorbedLength(left, k), Absorbed(left, k))
  }

  /** Where a block put stands at the beginning of a turn: bytes to go, and the sizes. */
  datatype Standing = Standing(left: nat, k: Sizes)

  /** One turn that buffers leads from a to b. */
  predicate BuffersOn(a: Standing, b: Standing) {
    && a.k.buffered <= a.k.capacity && 0 < a.left <= a.k.capacity
    && b == Standing(a.left - AbsorbedLength(a.left, a.k), Absorbed(a.left, a.k))
  }

  ghost predicate IsTrace(trace: seq<Standing>, first: Standing, last: Standing) {
    && trace != [] && trace[0] == first && trace[|trace| - 1] == last
    && forall i :: 0 <= i < |trace| - 1 ==> BuffersOn(trace[i], trace[i + 1])
  }

  /** The turns that buffer do not change the count the put will return. */
  lemma {:induction false} TraceCount(trace: seq<Standing>, first: Standing, last: Standing, n: nat)
    requires IsTrace(trace, first, last) && first.k.buffered <= first.k.capacity
    ensures last.k.buffered <= last.k.capacity && PutCount(n, first.left, first.k) == PutCount(n, last.left, last.k)
    decreases |trace|
  {
    if |trace| > 1 {
      assert BuffersOn(trace[0], trace[1]);
      var rest := trace[1..];
      forall i | 0 <= i < |rest| - 1
        ensures BuffersOn(rest[i], rest[i + 1])
      {
        assert rest[i] == trace[i + 1] && rest[i + 1] == trace[i + 1 + 1];
      }
      TraceCount(rest, trace[1], last, n);
    }
  }

  /** A sync frames what is buffered, if anything, and ends as that write does. */
  ghost predicate SyncWrites(kind: Kind, buffer: Bytes, payloads: seq<Bytes>, script: seq<Io>,
                             after: seq<Bytes>, status: Status) {
    if buffer == [] then after == payloads && status.Done?
    else after == payloads + [buffer] && status == WriteVector(kind, Framed([buffer]), script).status
  }

  function Total(rooms: seq<Room>): nat {
    if rooms == [] then 0 else rooms[0] + Total(rooms[1..])
  }

  /** With a full buffer and `left` bytes to go: after i + 1 syncs more is left than the last of them made room for. */
  predicate OutgrowsRoom(left: int, rooms: seq<Room>, i: nat)
    requires i < |rooms|
  {
    left > Total(rooms[..i]) + 2 * rooms[i]
  }

  ghost predicate Outgrows(left: int, rooms: seq<Room>) {
    exists i :: 0 <= i < |rooms| && OutgrowsRoom(left, rooms, i)
  }

  /** The first sync uses up one room. */
  lemma OutgrowsNext(left: nat, rooms: seq<Room>)
    requires rooms != []
    ensures left <= rooms[0] ==> !Outgrows(left, rooms)
    ensures left > 2 * rooms[0] ==> Outgrows(left, rooms)
    ensures rooms[0] < left <= 2 * rooms[0] ==> (Outgrows(left, rooms) <==> Outgrows(left - rooms[0], rooms[1..]))
  {
    var later := rooms[1..];
    assert OutgrowsRoom(left, rooms, 0) <==> left > 2 * rooms[0] by {
      assert rooms[..0] == [];
    }
    forall i | 0 < i < |rooms|
      ensures OutgrowsRoom(left, rooms, i) <==> OutgrowsRoom(left - rooms[0], later, i - 1)
    {
      assert rooms[..i][1..] == later[..i - 1];
    }
    if Outgrows(left - rooms[0], later) {
      var j :| 0 <= j < |later| && OutgrowsRoom(left - rooms[0], later, j);
      assert OutgrowsRoom(left, rooms, j + 1);
    }
  }

  lemma {:induction false} FullPutShortIff(n: nat, left: nat, k: Sizes)
    requires k.buffered == k.capacity && 0 < left <= Min(n, k.capacity)
    ensures PutCount(n, left, k) == n || PutCount(n, left, k) < left
    ensures PutCount(n, left, k) < left <==> Outgrows(left, k.rooms)
    decreases left
  {
    if k.rooms != [] {
      var room := k.rooms[0];
      OutgrowsNext(left, k.rooms);
      if room < left <= 2 * room {
        FullPutShortIff(n, left - room, Absorbed(left, k));
      }
    }
  }

  /**
    Exactly when a block put reports fewer bytes than it accepted: the block is within the
    capacity, so that it is not handed over at once, and what is left of it when the buffer
    is full outgrows some later room, as the caller can see from the sizes.
  */
  lemma PutShortIff(n: nat, k: Sizes)
    requires k.buffered <= k.capacity
    ensures PutCount(n, n, k) <= n
    ensures PutCount(n, n, k) < n <==>
            n <= k.capacity && Outgrows(n - (k.capacity - k.buffered), k.rooms)
  {
    var left := n - (k.capacity - k.buffered);
    if 0 < left && n <= k.capacity {
      FullPutShortIff(n, left, if k.buffered == k.capacity then k else k.(buffered := k.capacity));
    }
  }

  /** A count can be short only when reserve leaves less than there was: rooms that do not shrink never make it so. */
  lemma GrowingRoomsReportAll(n: nat, k: Sizes)
    requires k.buffered <= k.capacity && forall i :: 0 <= i < |k.rooms| ==> k.rooms[i] >= k.capacity
    ensures PutCount(n, n, k) == n
  {
    PutShortIff(n, k);
  }

  /** A full buffer of 1000, a block of 800: with room for 200 after the sync it reports 600, with 500 all. */
  lemma PutCanBeShort()
    ensures PutCount(800, 800, Sizes(1000, 1000, [200])) == 600
    ensures PutCount(800, 800, Sizes(1000, 1000, [500, 500])) == 800
  {
    assert Absorbed(800, Sizes(1000, 1000, [200])) == Sizes(200, 200, []);
    assert Absorbed(800, Sizes(1000, 1000, [500, 500])) == Sizes(500, 500, [500]);
    assert Absorbed(300, Sizes(500, 500, [500])) == Sizes(500, 300, []);
  }

  class OStreamBuffer {
    const stream: ChunkedStream
    var buffer: Bytes
    var capacity: Room
    var rooms: seq<Room>
    ghost var put: Bytes     // everything put so far
    ghost var broken: bool   // some write of the stream did not return normally

    ghost predicate Valid()
      reads this, stream, stream.next
    {
      && stream.Valid()
      && |buffer| <= capacity
      && (broken ==> stream.next.lossy)
      && (!broken ==> Flatten(stream.payloads) + buffer == put)
    }

    ghost function Now(): Sizes
      reads this
    {
      Sizes(capacity, |buffer|, rooms)
    }

    constructor (stream: ChunkedStream, capacity: Room, rooms: seq<Room>)
      requires stream.Valid() && stream.payloads == []
      ensures Valid() && this.stream == stream && put == [] && !broken
      ensures Now() == Sizes(capacity, 0, rooms)
    {
      this.stream := stream;
      buffer := [];
      this.capacity, this.rooms := capacity, rooms;
      put, broken := [], false;
    }

    method ReserveBuffer()
      requires buffer == []
      modifies this`capacity, this`rooms
      ensures Now() == Reserved(old(Now()))
    {
      if rooms != [] {
        capacity, rooms := rooms[0], rooms[1..];
      }
    }

    method Sync() returns (status: Status)
      requires Valid()
      modifies this, stream, stream.next, stream.next.sharedWriteBuffer
      ensures Valid() && put == old(put) && stream.start == old(stream.start)
      ensures status.Done? ==> buffer == [] && broken == old(broken)
      ensures status.Done? ==> Now() == if old(buffer) == [] then old(Now()) else Reserved(old(Now()))
      ensures !stream.next.lossy ==> status.Done? && !old(stream.next.lossy)
      ensures !old(broken) ==> |Flatten(stream.payloads)| <= |put|
      ensures !status.Done? ==> buffer == old(buffer) && buffer != []
      ensures SyncWrites(stream.next.kind, old(buffer), old(stream.payloads), old(stream.next.script), stream.payloads, status)
      ensures old(buffer) == [] ==> stream.next.wire == old(stream.next.wire)
    {
      if buffer != [] {
        FlattenSnoc(stream.payloads, buffer);
        status := stream.Write(buffer);
        if !status.Done? {
          broken := true;
          return;
        }
        buffer := [];
        ReserveBuffer();
      }
      status := Done;
    }

    /**
      The destructor: syncs once more. The buffer is cleared only behind a write that returned,
      so after a failed put or flush the same bytes are framed again. A destructor is noexcept:
      an exception out of this write ends the process.
    */
    method Destroy() returns (status: Status)
      requires Valid()
      modifies this, stream, stream.next, stream.next.sharedWriteBuffer
      ensures Valid() && put == old(put) && stream.start == old(stream.start)
      ensures SyncWrites(stream.next.kind, old(buffer), old(stream.payloads), old(stream.next.script), stream.payloads, status)
      ensures old(buffer) == [] ==> stream.next.wire == old(stream.next.wire)
      ensures status.Done? ==> buffer == [] && broken == old(broken)
      ensures !stream.next.lossy ==> status.Done? && !old(stream.next.lossy)
      ensures !old(broken) ==> |Flatten(stream.payloads)| <= |put|
    {
      status := Sync();
    }

    /** A single-character put. */
    method Overflow(c: Byte) returns (status: Status)
      requires Valid()
      modifies this, stream, stream.next, stream.next.sharedWriteBuffer
      ensures Valid() && stream.start == old(stream.start)
      ensures status.Done? ==> put == old(put) + [c] && broken == old(broken)
      ensures !stream.next.lossy ==> status.Done? && !old(stream.next.lossy)
      ensures !old(broken) ==> |Flatten(stream.payloads)| <= |old(put)| + 1
      ensures status.Done? && |old(buffer)| < old(capacity) ==>
                buffer == old(buffer) + [c] && stream.payloads == old(stream.payloads) && stream.next.wire == old(stream.next.wire)
      ensures status.Done? && |old(buffer)| >= old(capacity) ==>
                buffer == [c] && stream.payloads == old(stream.payloads) + [old(buffer)]
      ensures !status.Done? ==> buffer == old(buffer) && buffer != []
    {
      if |buffer| >= capacity {
        status := Sync();
        if !status.Done? {
          return;
        }
      }
      Associates(Flatten(stream.payloads), buffer, [c]);
      buffer := buffer + [c];
      put := put + [c];
      status := Done;
    }

    /**
      A block put. Every byte is accepted, but the count returned is that of the bytes handed
      over last when the loop ends on the direct path: PutShortIff says when it is too small.
    */
    method XsPutN(s: Bytes) returns (status: Status, count: nat)
      requires Valid()
      modifies this, stream, stream.next, stream.next.sharedWriteBuffer
      ensures Valid() && stream.start == old(stream.start)
      ensures status.Done? ==> put == old(put) + s && broken == old(broken)
      ensures status.Done? ==> count == PutCount(|s|, |s|, old(Now()))
      ensures !status.Done? ==> (buffer == [] <==> old(buffer) == [] && |s| > old(capacity))
      ensures !stream.next.lossy ==> status.Done? && !old(stream.next.lossy)
      ensures !old(broken) ==> |Flatten(stream.payloads)| <= |old(put)| + |s|
    {
      var at;
      ghost var trace;
      status, at, trace := AbsorbAll(s);
      count := |s|;
      if status.Done? {
        TraceCount(trace, Standing(|s|, old(Now())), Standing(|s| - at, Now()), |s|);
      }
      if status.Done? && at < |s| {
        PutSoFar(old(put), s, at, |s| - at);
        status := Direct(s[at..]);
        count := |s| - at;
      }
    }

    /** The loop of the block put up to the direct path: `at` bytes are buffered one way or the other. */
    method AbsorbAll(s: Bytes) returns (status: Status, at: nat, ghost trace: seq<Standing>)
      requires Valid()
      modifies this, stream, stream.next, stream.next.sharedWriteBuffer
      ensures Valid() && stream.start == old(stream.start) && at <= |s|
      ensures put == old(put) + s[..at]
      ensures status.Done? ==> broken == old(broken) && (at < |s| ==> |s| - at > capacity)
      ensures status.Done? ==> IsTrace(trace, Standing(|s|, old(Now())), Standing(|s| - at, Now()))
      ensures status.Done? && at == 0 ==> buffer == old(buffer) && capacity == old(capacity)
      ensures !status.Done? || at > 0 ==> buffer != [] && |s| <= old(capacity)
      ensures !stream.next.lossy ==> status.Done? && !old(stream.next.lossy)
      ensures !old(broken) ==> |Flatten(stream.payloads)| <= |put|
    {
      at := 0;
      ghost var first := Standing(|s|, Now());
      ghost var last := first;
      trace := [first];
      while at < |s| && |s| - at <= capacity
        invariant 0 <= at <= |s| && Valid() && stream.start == old(stream.start)
        invariant put == old(put) + s[..at] && broken == old(broken)
        invariant last == Standing(|s| - at, Now()) && IsTrace(trace, first, last)
        invariant !stream.next.lossy ==> !old(stream.next.lossy)
        invariant at == 0 ==> buffer == old(buffer) && capacity == old(capacity)
        invariant at > 0 ==> buffer != [] && |s| <= old(capacity)
      {
        var len;
        status, len := Absorb(s[at..]);
        if !status.Done? {
          return;
        }
        PutSoFar(old(put), s, at, len);
        at := at + len;
        last := Standing(|s| - at, Now());
        trace := trace + [last];
      }
      status := Done;
    }

    /** One turn of the block put's loop: makes room if there is none, then takes what fits. */
    method Absorb(s: Bytes) returns (status: Status, len: nat)
      requires Valid() && s != []
      modifies this, stream, stream.next, stream.next.sharedWriteBuffer
      ensures Valid() && stream.start == old(stream.start)
      ensures status.Done? ==> 0 < len <= |s| && put == old(put) + s[..len] && broken == old(broken)
      ensures status.Done? ==> len == AbsorbedLength(|s|, old(Now())) && Now() == Absorbed(|s|, old(Now()))
      ensures !stream.next.lossy ==> status.Done? && !old(stream.next.lossy)
      ensures !old(broken) ==> |Flatten(stream.payloads)| <= |old(put)|
      ensures buffer != [] && (!status.Done? ==> buffer == old(buffer) && put == old(put))
      ensures status.Done? && |old(buffer)| < old(capacity) ==>
                buffer == old(buffer) + s[..len] && stream.payloads == old(stream.payloads)
      ensures status.Done? && |old(buffer)| >= old(capacity) ==>
                buffer == s[..len] && stream.payloads == old(stream.payloads) + [old(buffer)]
    {
      len := 0;
      if |buffer| >= capacity {
        status := Sync();
        if !status.Done? {
          return;
        }
      }
      len := Min(|s|, capacity - |buffer|);
      Associates(Flatten(stream.payloads), buffer, s[..len]);
      buffer := buffer + s[..len];
      put := put + s[..len];
      status := Done;
    }

    /** The direct path of a block put: what is buffered and the block become one chunk. */
    method Direct(s: Bytes) returns (status: Status)
      requires Valid() && s != []
      modifies this, stream, stream.next, stream.next.sharedWriteBuffer
      ensures Valid() && stream.start == old(stream.start)
      ensures status.Done? ==> put == old(put) + s && buffer == [] && broken == old(broken)
      ensures status.Done? ==> Now() == Reserved(old(Now()))
      ensures stream.payloads == old(stream.payloads) + [old(buffer) + s]
      ensures !status.Done? ==> buffer == old(buffer)
      ensures !stream.next.lossy ==> status.Done? && !old(stream.next.lossy)
      ensures !old(broken) ==> |Flatten(stream.payloads)| <= |old(put)| + |s|
    {
      ghost var framed := stream.payloads;
      FlattenTwo(buffer, s);
      FlattenSnoc(framed, buffer + s);
      FlattenSnoc(framed, s);
      assert Flatten(framed) + (buffer + s) == (Flatten(framed) + buffer) + s;
      assert buffer == [] ==> Flatten(framed) + buffer == Flatten(framed) && buffer + s == s;
      if buffer != [] {
        status := stream.WriteAll([buffer, s]);
      } else {
        status := stream.Write(s);
      }
      if !status.Done? {
        broken := true;
        return;
      }
      buffer := [];
      put := put + s;
      assert Flatten(stream.payloads) + buffer == Flatten(stream.payloads);
      ReserveBuffer();
    }
  }

  lemma PutSoFar(put: Bytes, s: Bytes, at: nat, len: nat)
    requires at + len <= |s|
    ensures (put + s[..at]) + s[at..][..len] == put + s[..at + len]
    ensures at + len == |s| ==> (put + s[..at]) + s[at..] == put + s
  {
  }

  datatype Op = PutChar(c: Byte) | PutBlock(s: Bytes) | Flush

  function PutBytes(ops: seq<Op>): Bytes {
    if ops == [] then [] else
    PutBytes(ops[..|ops| - 1]) + OpBytes(ops[|ops| - 1])
  }

  function OpBytes(op: Op): Bytes {
    match op
    case PutChar(c) => [c]
    case PutBlock(s) => s
    case Flush => []
  }

  /**
    A handler that opens a chunked body, streams into it and lets both objects go out of
    scope. Through all the layers, if no session write fell short, what went out decodes to
    exactly the bytes put, in order, and leaves whatever the connection carries next. On a
    plain socket with ample room none does. When a put throws, the destructors still run;
    `terminated` is an exception out of the buffer's, after which nothing more is sent.
  */
  method StreamBody(session: Session, ops: seq<Op>, capacity: Room, rooms: seq<Room>)
    returns (status: Status, terminated: bool)
    modifies session, session.sharedWriteBuffer
    ensures old(session.wire) <= session.wire || session.lossy
    ensures !session.lossy ==> status.Done? && !terminated
    ensures terminated ==> status.Threw?
    ensures !session.lossy ==> DecodesTo(session.wire[|old(session.wire)|..], PutBytes(ops))
    ensures session.kind.Plain? && !old(session.lossy) && Ample(old(session.script), |PutBytes(ops)|) ==> !session.lossy
  {
    var chunked := new ChunkedStream(session);
    var out := new OStreamBuffer(chunked, capacity, rooms);
    terminated := false;
    status := PerformAll(out, ops);
    if status.Suspended? {
      return;
    }
    var last := LeaveScope(out);
    terminated := last.Threw?;
    if status.Done? {
      status := last;
    }
    if !session.lossy {
      BodyDecodes(chunked.start, chunked.payloads, session.wire);
    }
  }

  /** The stream was whole and has ample room for t bytes. */
  ghost predicate AmpleRoom(stream: ChunkedStream, t: nat) {
    stream.whole && stream.next.kind.Plain? && Ample(stream.plan, t)
  }

  /** The operations, up to the first that throws. */
  method PerformAll(out: OStreamBuffer, ops: seq<Op>) returns (status: Status)
    requires out.Valid() && out.put == [] && !out.broken
    requires out.stream.whole ==> !out.stream.next.lossy
    modifies out, out.stream, out.stream.next, out.stream.next.sharedWriteBuffer
    ensures out.Valid() && out.stream.start == old(out.stream.start)
    ensures status.Done? ==> out.put == PutBytes(ops) && !out.broken
    ensures !out.stream.next.lossy ==> status.Done? && !old(out.stream.next.lossy)
    ensures AmpleRoom(out.stream, |PutBytes(ops)|) ==> !out.stream.next.lossy
  {
    ghost var stream := out.stream;
    for i := 0 to |ops|
      invariant out.Valid() && stream.start == old(out.stream.start)
      invariant out.put == PutBytes(ops[..i]) && !out.broken
      invariant !stream.next.lossy ==> !old(out.stream.next.lossy)
      invariant AmpleRoom(stream, |PutBytes(ops)|) ==> !stream.next.lossy
    {
      assert ops[..i + 1][..i] == ops[..i];
      PutBytesGrow(ops, i + 1);
      status := Perform(out, ops[i]);
      if AmpleRoom(stream, |PutBytes(ops)|) {
        AmpleIsRoomForEach(stream.plan, stream.payloads, |PutBytes(ops)|);
      }
      if !status.Done? {
        return;
      }
    }
    assert ops[..|ops|] == ops;
    status := Done;
  }

  /**
    Both destructors, at the end of the scope or while an exception leaves it: the buffer's,
    which writes exactly when something is still buffered, so a second time after a put that
    failed, and then the chunked stream's, unless that write ended the process.
  */
  method LeaveScope(out: OStreamBuffer) returns (status: Status)
    requires out.Valid()
    modifies out, out.stream, out.stream.next, out.stream.next.sharedWriteBuffer
    ensures out.stream.start == old(out.stream.start)
    ensures SyncWrites(out.stream.next.kind, old(out.buffer), old(out.stream.payloads), old(out.stream.next.script),
                       out.stream.payloads, status)
    ensures forall i :: 0 <= i < |out.stream.payloads| ==> out.stream.payloads[i] != []
    ensures !out.stream.next.lossy ==>
              && status.Done? && !old(out.stream.next.lossy) && Flatten(out.stream.payloads) == old(out.put)
              && out.stream.next.wire == out.stream.start + Chunks(out.stream.payloads) + END_OF_CHUNKED_STREAM
    ensures !old(out.broken) && AmpleRoom(out.stream, |old(out.put)|) ==> !out.stream.next.lossy
  {
    ghost var stream := out.stream;
    ghost var calm := !out.broken && AmpleRoom(stream, |out.put|);
    status := out.Destroy();
    if calm {
      AmpleIsRoomForEach(stream.plan, stream.payloads, |out.put|);
      RoomForOne(END_OF_CHUNKED_STREAM, stream.next.script);
    }
    if status.Done? {
      assert Flatten(stream.payloads) + [] == Flatten(stream.payloads);
      out.stream.Close();
    }
  }

  method Perform(out: OStreamBuffer, op: Op) returns (status: Status)
    requires out.Valid()
    modifies out, out.stream, out.stream.next, out.stream.next.sharedWriteBuffer
    ensures out.Valid() && out.stream.start == old(out.stream.start)
    ensures status.Done? ==> out.put == old(out.put) + OpBytes(op) && out.broken == old(out.broken)
    ensures !old(out.broken) ==> |Flatten(out.stream.payloads)| <= |old(out.put)| + |OpBytes(op)|
    ensures !status.Done? ==> (out.buffer == [] <==> op.PutBlock? && old(out.buffer) == [] && |op.s| > old(out.capacity))
    ensures !out.stream.next.lossy ==> status.Done? && !old(out.stream.next.lossy)
    ensures op.Flush? && status.Done? ==> out.buffer == [] && (!out.broken ==> Flatten(out.stream.payloads) == out.put)
  {
    match op
    case PutChar(c) => status := out.Overflow(c);
    case PutBlock(s) => var count; status, count := out.XsPutN(s);
    case Flush =>
      status := out.Sync();
      assert out.buffer == [] ==> Flatten(out.stream.payloads) + out.buffer == Flatten(out.stream.payloads);
  }

  /**
    A schedule good enough for a body of t bytes: it has a call for every chunk there can be
    and for the terminator, and each of them can take the largest of these.
  */
  ghost predicate Ample(script: seq<Io>, t: nat) {
    |script| > t && forall i :: 0 <= i <= t ==> RoomFor(script[i], 2 * t + 5)
  }

  lemma {:induction false} HexIsShort(n: nat)
    requires n > 0
    ensures |Hex(n)| <= n
  {
    if n >= 16 {
      HexIsShort(n / 16);
    }
  }

  lemma {:induction false} PayloadsWithin(payloads: seq<Bytes>)
    requires forall i :: 0 <= i < |payloads| ==> payloads[i] != []
    ensures |payloads| <= |Flatten(payloads)|
    ensures forall i :: 0 <= i < |payloads| ==> |payloads[i]| <= |Flatten(payloads)|
  {
    if payloads != [] {
      PayloadsWithin(payloads[1..]);
      assert forall i :: 0 < i < |payloads| ==> payloads[i] == payloads[1..][i - 1];
    }
  }

  lemma AmpleIsRoomForEach(script: seq<Io>, payloads: seq<Bytes>, t: nat)
    requires Ample(script, t) && |Flatten(payloads)| <= t
    requires forall i :: 0 <= i < |payloads| ==> payloads[i] != []
    ensures RoomForEach(script, payloads) && |payloads| <= t && RoomFor(script[|payloads|], 5)
  {
    PayloadsWithin(payloads);
    forall i | 0 <= i < |payloads|
      ensures RoomFor(script[i], |Chunk(payloads[i])|)
    {
      HexIsShort(|payloads[i]|);
    }
  }

  lemma RoomForOne(buffer: Bytes, script: seq<Io>)
    requires buffer != [] && script != [] && RoomFor(script[0], |buffer|)
    ensures SentOne(Plain, buffer, script) == buffer
  {
    assert buffer[|buffer|..] == [];
    assert WriteOne(Plain, buffer, script).written == |buffer|;
    assert buffer[..|buffer|] == buffer;
  }

  lemma {:induction false} PutBytesGrow(ops: seq<Op>, i: nat)
    requires i <= |ops|
    ensures |PutBytes(ops[..i])| <= |PutBytes(ops)|
    decreases |ops|
  {
    if i < |ops| {
      PutBytesGrow(ops[..|ops| - 1], i);
      assert ops[..|ops| - 1][..i] == ops[..i];
    } else {
      assert ops[..i] == ops;
    }
  }

  /** A self-delimiting image of the payload. */
  ghost predicate DecodesTo(body: Bytes, payload: Bytes) {
    forall rest: Bytes {:trigger Decode(body + rest)} :: Decode(body + rest) == Decoded(payload, rest)
  }

  lemma BodyDecodes(start: Bytes, payloads: seq<Bytes>, wire: Bytes)
    requires forall i :: 0 <= i < |payloads| ==> payloads[i] != []
    requires wire == start + Chunks(payloads) + END_OF_CHUNKED_STREAM
    ensures start <= wire && DecodesTo(wire[|start|..], Flatten(payloads))
  {
    assert wire[|start|..] == Chunks(payloads) + END_OF_CHUNKED_STREAM;
    ChunksDecode(payloads, wire[|start|..]);
  }

  lemma ChunksDecode(payloads: seq<Bytes>, body: Bytes)
    requires forall i :: 0 <= i < |payloads| ==> payloads[i] != []
    requires body == Chunks(payloads) + END_OF_CHUNKED_STREAM
    ensures DecodesTo(body, Flatten(payloads))
  {
    forall rest: Bytes
      ensures Decode(body + rest) == Decoded(Flatten(payloads), rest)
    {
      DecodeChunks(payloads, rest);
    }
  }

  // ------------------------------------------------- the hypothesis cannot be dropped

  /** Every chunk has some schedule under which its write returns normally with bytes missing. */
  lemma SomeScheduleTruncatesAChunk(kind: Kind, payload: Bytes)
    requires payload != []
    ensures exists script: seq<Io> :: var r := WriteVector(kind, [ChunkHeader(|payload|), payload, CRLF], script);
              r.status.Done? && r.written < |Chunk(payload)|
  {
    var buffers := [ChunkHeader(|payload|), payload, CRLF];
    ReliableIffSingleSegment(kind, buffers);
    FlattenThree(ChunkHeader(|payload|), payload, CRLF);
    assert buffers[0] != [] && buffers[1] != [];
    var script: seq<Io> :| WriteVector(kind, buffers, script).status.Done?
                           && WriteVector(kind, buffers, script).written != |Flatten(buffers)|;
    WrittenIsPrefix(kind, buffers, script);
  }

  /** The kernel takes exactly the header of a chunk: the write returns normally without payload and trailer. */
  lemma HeaderOnlyIsSent(payload: Bytes, script: seq<Io>)
    requires payload != [] && script != []
    requires script[0].Took? && script[0].limit == |ChunkHeader(|payload|)|
    ensures WriteVector(Plain, [ChunkHeader(|payload|), payload, CRLF], script)
            == Run(|ChunkHeader(|payload|)|, Done, script[1..])
  {
    var header := ChunkHeader(|payload|);
    var buffers := [header, payload, CRLF];
    FlattenThree(header, payload, CRLF);
    FlattenSnoc([], header);
    assert buffers[..1] == [] + [header];
    ConsumeSpec(buffers, |header|);
    assert OnBoundary(buffers, |header|);
    assert NextMove(Plain, buffers, script[0]) == Finish(|header|);
  }

  /**
    After that the terminator follows, and whatever chunks were sent before and whatever
    size was announced, the peer finds a malformed body.
  */
  lemma {:induction false} TruncatedBodyIsMalformed(payloads: seq<Bytes>, n: nat)
    requires n > 0
    requires forall i :: 0 <= i < |payloads| ==> payloads[i] != []
    ensures Decode(Chunks(payloads) + ChunkHeader(n) + END_OF_CHUNKED_STREAM) == Malformed
  {
    var end := END_OF_CHUNKED_STREAM;
    if payloads == [] {
      assert Chunks(payloads) + ChunkHeader(n) + end == Hex(n) + (CRLF + end);
      HeaderThenEndIsMalformed(n);
    } else {
      var later := Chunks(payloads[1..]) + ChunkHeader(n) + end;
      assert Chunks(payloads) + ChunkHeader(n) + end == Chunk(payloads[0]) + later;
      DecodeChunk(payloads[0], later);
      TruncatedBodyIsMalformed(payloads[1..], n);
    }
  }

  lemma HeaderThenEndIsMalformed(n: nat)
    requires n > 0
    ensures Decode(Hex(n) + (CRLF + END_OF_CHUNKED_STREAM)) == Malformed
  {
    var end := END_OF_CHUNKED_STREAM;
    ParseHexOfHex(n, CRLF + end);
    assert (CRLF + end)[2..] == end;
    if n == 1 || n == 3 {
      assert end[n..][2..] == if n == 1 then [CR, LF] else [];
      assert Decode(end[n..][2..]) == Malformed;
    }
  }
}
