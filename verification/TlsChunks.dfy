/**
  One chunk over TLS when the calls are steady: every call finds the same socket `size` and
  takes all it is offered, up to `most` bytes. When exactly does the whole chunk go out?
*/
module TlsChunks {
  import opened Basics
  import opened ByteStrings
  import opened ChunkedCoding
  import opened VectoredWrite
  import opened OutputStreams

  /** `most` is INT_MAX when SSL_write takes everything, 16384 when it reports each record on its own. */
  ghost predicate Steady(script: seq<Io>, size: nat, most: nat) {
    && 0 < most
    && forall i :: 0 <= i < |script| ==> SteadyCall(script[i], size, most)
  }

  predicate SteadyCall(io: Io, size: nat, most: nat) {
    io.Took? && io.socketSize == size && Min(io.limit, INT_MAX) == most
  }

  // ------------------------------------------------- one call on what is left of a chunk

  lemma ConsumeCons(x: Bytes, rest: seq<Bytes>, w: nat)
    requires w <= |Flatten([x] + rest)|
    ensures Flatten([x] + rest) == x + Flatten(rest)
    ensures Consume([x] + rest, w) ==
            if |x| <= w then Consume(rest, w - |x|) else Remainder([x[w..]] + rest, w)
  {
    assert ([x] + rest)[1..] == rest;
  }

  lemma MoveOne(c: Bytes, io: Io, size: nat, most: nat)
    requires c != [] && most > 0 && SteadyCall(io, size, most)
    ensures NextMove(Tls, [c], io) == if |c| <= most then Finish(|c|) else Advance(most, [c[most..]])
  {
    var w := Min(|c|, most);
    assert [c] == [c] + [];
    ConsumeCons(c, [], w);
    assert [c[w..]] + [] == [c[w..]];
  }

  function TakenOfTwo(p: nat, c: nat, size: nat, most: nat): nat {
    if p >= size then Min(p, most) else Min(Min(p + c, size), most)
  }

  lemma MoveTwo(p: Bytes, c: Bytes, io: Io, size: nat, most: nat)
    requires p != [] && c != [] && size > 0 && most > 0 && SteadyCall(io, size, most)
    ensures var w := TakenOfTwo(|p|, |c|, size, most);
            0 < w <= |p| + |c| &&
            NextMove(Tls, [p, c], io) ==
            if w < |p| then Advance(w, [p[w..], c])
            else if w == |p| || w == |p| + |c| then Finish(w)
            else Advance(w, [c[w - |p|..]])
  {
    var w := TakenOfTwo(|p|, |c|, size, most);
    assert [p, c] == [p] + [c] && [c] == [c] + [];
    FlattenTwo(p, c);
    assert Taken(Tls, [p, c], io) == w;
    ConsumeCons(p, [c], w);
    if w < |p| {
      assert [p[w..]] + [c] == [p[w..], c];
    } else {
      ConsumeCons(c, [], w - |p|);
      assert w < |p| + |c| ==> [c[w - |p|..]] + [] == [c[w - |p|..]];
    }
  }

  lemma MoveThree(h: Bytes, p: Bytes, c: Bytes, io: Io, size: nat, most: nat)
    requires 0 < |h| < size && p != [] && c != [] && most > 0 && SteadyCall(io, size, most)
    ensures var w := Min(Min(|h| + |p| + |c|, size), most);
            0 < w <= |h| + |p| + |c| &&
            NextMove(Tls, [h, p, c], io) ==
            if w < |h| then Advance(w, [h[w..], p, c])
            else if w == |h| || w == |h| + |p| || w == |h| + |p| + |c| then Finish(w)
            else if w < |h| + |p| then Advance(w, [p[w - |h|..], c])
            else Advance(w, [c[w - |h| - |p|..]])
  {
    var w := Min(Min(|h| + |p| + |c|, size), most);
    assert [h, p, c] == [h] + [p, c] && [p, c] == [p] + [c] && [c] == [c] + [];
    FlattenThree(h, p, c);
    assert Taken(Tls, [h, p, c], io) == w;
    ConsumeCons(h, [p, c], w);
    if w < |h| {
      assert [h[w..]] + [p, c] == [h[w..], p, c];
    } else {
      ConsumeCons(p, [c], w - |h|);
      if w < |h| + |p| {
        assert [p[w - |h|..]] + [c] == [p[w - |h|..], c];
      } else {
        ConsumeCons(c, [], w - |h| - |p|);
        assert w < |h| + |p| + |c| ==> [c[w - |h| - |p|..]] + [] == [c[w - |h| - |p|..]];
      }
    }
  }

  // ------------------------------------------------- residues

  lemma ModStep(x: nat, m: nat)
    requires 0 < m <= x
    ensures x % m == (x - m) % m
  {
    var q, r := (x - m) / m, (x - m) % m;
    assert x == m * (q + 1) + r;
    ModIs(x, m, q + 1, r);
  }

  lemma ModIs(x: int, m: nat, q: int, r: nat)
    requires m > 0 && x == m * q + r && r < m
    ensures x % m == r
  {
    var d := x / m - q;
    assert x == m * (x / m) + x % m;
    assert m * d == m * (x / m) - m * q;
  }

  // ------------------------------------------------- the rest of the write

  ghost predicate Ends(r: Run, written: nat) {
    r.status.Done? && r.written == written
  }

  lemma FinishEnds(buffers: seq<Bytes>, script: seq<Io>, w: nat)
    requires script != [] && NextMove(Tls, buffers, script[0]) == Finish(w)
    ensures Ends(WriteVector(Tls, buffers, script), w)
  {
  }

  lemma AdvanceEnds(buffers: seq<Bytes>, script: seq<Io>, w: nat, next: seq<Bytes>, end: nat)
    requires script != [] && NextMove(Tls, buffers, script[0]) == Advance(w, next)
    requires Ends(WriteVector(Tls, next, script[1..]), end)
    ensures Ends(WriteVector(Tls, buffers, script), w + end)
  {
  }

  lemma {:induction false} OneLeft(c: Bytes, script: seq<Io>, size: nat, most: nat)
    requires c != [] && Steady(script, size, most) && |script| >= |c|
    ensures Ends(WriteVector(Tls, [c], script), |c|)
    decreases |c|
  {
    MoveOne(c, script[0], size, most);
    if most < |c| {
      OneLeft(c[most..], script[1..], size, most);
    }
  }

  /** Where the write ends when p is left of the payload: behind it, or behind the trailer too. */
  function EndOfTwo(p: nat, c: nat, size: nat, most: nat): nat
    requires p > 0 && most > 0
  {
    if most < size then (if p % most == 0 then p else p + c)
    else if (p - 1) % most + 1 >= size then p else p + c
  }

  lemma EndOfTwoSteps(p: nat, c: nat, size: nat, most: nat)
    requires p > most > 0
    ensures EndOfTwo(p, c, size, most) == most + EndOfTwo(p - most, c, size, most)
  {
    ModStep(p, most);
    ModStep(p - 1, most);
  }

  lemma EndOfTwoSmall(p: nat, c: nat, size: nat, most: nat)
    requires 0 < p <= most
    ensures EndOfTwo(p, c, size, most) == if most < size then (if p == most then p else p + c) else if p >= size then p else p + c
  {
    if p < most {
      ModIs(p, most, 0, p);
    } else {
      ModIs(p, most, 1, 0);
    }
    ModIs(p - 1, most, 0, p - 1);
  }

  lemma {:induction false} TwoLeft(p: Bytes, c: Bytes, script: seq<Io>, size: nat, most: nat)
    requires p != [] && c != [] && size > 0 && Steady(script, size, most) && |script| >= |p| + |c|
    ensures Ends(WriteVector(Tls, [p, c], script), EndOfTwo(|p|, |c|, size, most))
    decreases |p|
  {
    var w := TakenOfTwo(|p|, |c|, size, most);
    MoveTwo(p, c, script[0], size, most);
    if |p| > most {
      EndOfTwoSteps(|p|, |c|, size, most);
      TwoLeft(p[most..], c, script[1..], size, most);
      AdvanceEnds([p, c], script, most, [p[most..], c], EndOfTwo(|p| - most, |c|, size, most));
    } else {
      EndOfTwoSmall(|p|, |c|, size, most);
      if |p| < w < |p| + |c| {
        OneLeft(c[w - |p|..], script[1..], size, most);
        AdvanceEnds([p, c], script, w, [c[w - |p|..]], |p| + |c| - w);
      } else {
        FinishEnds([p, c], script, w);
      }
    }
  }

  /** Where the write of a whole chunk ends: behind the header, behind the payload, or behind the trailer. */
  function EndOfThree(h: nat, p: nat, c: nat, size: nat, most: nat): nat
    requires 0 < h < size && p > 0 && most > 0
  {
    var n := h + p;
    if most < size then (if h % most == 0 then h else if n % most == 0 then n else n + c)
    else if n == size || (n > size && (n - size - 1) % most + 1 >= size) then n
    else n + c
  }

  lemma EndOfThreeSteps(h: nat, p: nat, c: nat, size: nat, most: nat)
    requires 0 < most < h < size && p > 0
    ensures EndOfThree(h, p, c, size, most) == most + EndOfThree(h - most, p, c, size, most)
  {
    ModStep(h, most);
    ModStep(h + p, most);
  }

  lemma EndOfThreeSmall(h: nat, p: nat, c: nat, size: nat, most: nat)
    requires 0 < h <= most < size && p > 0
    ensures EndOfThree(h, p, c, size, most) ==
            if h == most || h + p == most then most else if h + p < most then h + p + c else most + EndOfTwo(h + p - most, c, size, most)
  {
    ModIs(h, most, if h == most then 1 else 0, if h == most then 0 else h);
    if most < h + p {
      ModStep(h + p, most);
    } else {
      ModIs(h + p, most, if h + p == most then 1 else 0, if h + p == most then 0 else h + p);
    }
  }

  /** Calls that take less than the socket size: the cursor rests on every multiple of `most`. */
  lemma {:induction false} ThreeLeftByPieces(h: Bytes, p: Bytes, c: Bytes, script: seq<Io>, size: nat, most: nat)
    requires 0 < |h| < size && p != [] && c != [] && most < size
    requires Steady(script, size, most) && |script| >= |h| + |p| + |c|
    ensures Ends(WriteVector(Tls, [h, p, c], script), EndOfThree(|h|, |p|, |c|, size, most))
    decreases |h|
  {
    MoveThree(h, p, c, script[0], size, most);
    if most < |h| {
      EndOfThreeSteps(|h|, |p|, |c|, size, most);
      ThreeLeftByPieces(h[most..], p, c, script[1..], size, most);
      AdvanceEnds([h, p, c], script, most, [h[most..], p, c], EndOfThree(|h| - most, |p|, |c|, size, most));
    } else {
      EndOfThreeSmall(|h|, |p|, |c|, size, most);
      HeaderTaken(h, p, c, script, size, most, most);
    }
  }

  /** The call takes the header and more, up to w bytes. */
  lemma HeaderTaken(h: Bytes, p: Bytes, c: Bytes, script: seq<Io>, size: nat, most: nat, w: nat)
    requires 0 < |h| < size && p != [] && c != [] && Steady(script, size, most) && |script| >= |h| + |p| + |c|
    requires w == Min(size, most) >= |h|
    ensures var n := |h| + |p|;
            Ends(WriteVector(Tls, [h, p, c], script),
                 if |h| == w || n == w then w else if n < w then n + |c| else w + EndOfTwo(n - w, |c|, size, most))
  {
    var n := |h| + |p|;
    MoveThree(h, p, c, script[0], size, most);
    if |h| == w || n == w || n + |c| <= w {
      FinishEnds([h, p, c], script, Min(n + |c|, w));
    } else if n < w {
      OneLeft(c[w - n..], script[1..], size, most);
      AdvanceEnds([h, p, c], script, w, [c[w - n..]], n + |c| - w);
    } else {
      var rest := p[w - |h|..];
      TwoLeft(rest, c, script[1..], size, most);
      AdvanceEnds([h, p, c], script, w, [rest, c], EndOfTwo(n - w, |c|, size, most));
    }
  }

  /**
    Where the write of a chunk ends, for every socket size above the header's and every
    steady schedule long enough.
  */
  lemma TlsChunkEnds(payload: Bytes, script: seq<Io>, size: nat, most: nat)
    requires payload != [] && |ChunkHeader(|payload|)| < size
    requires Steady(script, size, most) && |script| >= |Chunk(payload)|
    ensures Ends(WriteVector(Tls, [ChunkHeader(|payload|), payload, CRLF], script),
                 EndOfThree(|ChunkHeader(|payload|)|, |payload|, |CRLF|, size, most))
  {
    if most < size {
      ThreeLeftByPieces(ChunkHeader(|payload|), payload, CRLF, script, size, most);
    } else {
      HeaderTaken(ChunkHeader(|payload|), payload, CRLF, script, size, most, size);
    }
  }

  /**
    With nothing to blame on the network: when every call takes all it is offered, a chunk
    loses its trailer if and only if header and payload together fill one socket size, or two
    or more.
  */
  lemma FullTakesLoseTrailerIff(payload: Bytes, script: seq<Io>, size: nat)
    requires 0 < |payload| <= INT_MAX && |ChunkHeader(|payload|)| < size <= INT_MAX
    requires Steady(script, size, INT_MAX) && |script| >= |Chunk(payload)|
    ensures var r := WriteVector(Tls, [ChunkHeader(|payload|), payload, CRLF], script);
            var n := |ChunkHeader(|payload|)| + |payload|;
            && r.status.Done?
            && r.written == if n == size || n >= 2 * size then |Chunk(payload)| - |CRLF| else |Chunk(payload)|
  {
    TlsChunkEnds(payload, script, size, INT_MAX);
    EndWhenFull(|ChunkHeader(|payload|)|, |payload|, |CRLF|, size);
  }

  lemma EndWhenFull(h: nat, p: nat, c: nat, size: nat)
    requires 0 < h < size <= INT_MAX && 0 < p <= INT_MAX
    ensures EndOfThree(h, p, c, size, INT_MAX) == if h + p == size || h + p >= 2 * size then h + p else h + p + c
  {
    var n := h + p;
    if n > size {
      ModIs(n - size - 1, INT_MAX, 0, n - size - 1);
    }
  }

  /** A socket size no larger than the header lets only the header out. */
  lemma SmallSocketSendsHeaderOnly(payload: Bytes, script: seq<Io>)
    requires payload != [] && script != [] && script[0].Took?
    requires script[0].socketSize <= |ChunkHeader(|payload|)| <= Min(script[0].limit, INT_MAX)
    ensures WriteVector(Tls, [ChunkHeader(|payload|), payload, CRLF], script)
            == Run(|ChunkHeader(|payload|)|, Done, script[1..])
  {
    var h := ChunkHeader(|payload|);
    assert [h, payload, CRLF] == [h] + [payload, CRLF] && [payload, CRLF] == [payload] + [CRLF];
    FlattenThree(h, payload, CRLF);
    ConsumeCons(h, [payload, CRLF], |h|);
    ConsumeCons(payload, [CRLF], 0);
    assert NextMove(Tls, [h, payload, CRLF], script[0]) == Finish(|h|);
  }

  /** The exact fit needs one call only, whatever the rest of the schedule holds. */
  lemma TlsExactFitLosesTheTrailer(payload: Bytes, script: seq<Io>)
    requires payload != [] && script != [] && script[0].Took?
    requires |ChunkHeader(|payload|)| + |payload| == script[0].socketSize <= Min(script[0].limit, INT_MAX)
    ensures WriteVector(Tls, [ChunkHeader(|payload|), payload, CRLF], script)
            == Run(|Chunk(payload)| - |CRLF|, Done, script[1..])
  {
    var io := script[0];
    MoveThree(ChunkHeader(|payload|), payload, CRLF, io, io.socketSize, Min(io.limit, INT_MAX));
  }

  /**
    When every call takes one record of `most` bytes and the socket size is larger, as partial
    writes make OpenSSL do, the chunk goes out whole if and only if neither the header nor
    header and payload together are a whole number of records.
  */
  lemma RecordsSendWholeIff(payload: Bytes, script: seq<Io>, size: nat, most: nat)
    requires payload != [] && |ChunkHeader(|payload|)| < size && most < size
    requires Steady(script, size, most) && |script| >= |Chunk(payload)|
    ensures var r := WriteVector(Tls, [ChunkHeader(|payload|), payload, CRLF], script);
            var h := |ChunkHeader(|payload|)|;
            && r.status.Done?
            && (r.written == |Chunk(payload)| <==> h % most != 0 && (h + |payload|) % most != 0)
  {
    TlsChunkEnds(payload, script, size, most);
  }
}
