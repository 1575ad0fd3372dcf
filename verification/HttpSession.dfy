/**
  BasicHttpSession as the object that writes: the two write overloads, over the plain and
  the TLS writeSome, with the wire and the environment's schedule as fields.
*/
module HttpSession {
  import opened Basics
  import opened ByteStrings
  import opened VectoredWrite

  class Session {
    const kind: Kind
    const onLoopThread: bool
    const sharedWriteBuffer: array<Byte>
    var wire: Bytes
    var script: seq<Io>
    var resume: int           // what the next yield will be resumed with
    var canWriteError: bool
    ghost var lossy: bool     // some write so far did not send everything it was given

    constructor (kind: Kind, script: seq<Io>, onLoopThread: bool, sharedSize: nat)
      ensures this.kind == kind && this.script == script && wire == [] && !lossy && !canWriteError
      ensures fresh(sharedWriteBuffer)
    {
      this.kind := kind;
      this.onLoopThread := onLoopThread;
      sharedWriteBuffer := new Byte[sharedSize](_ => 0);
      wire, this.script, resume, canWriteError, lossy := [], script, 0, false, false;
    }

    /** The system call (or SSL_write) itself: takes a prefix of what is offered. */
    method Send(offered: Bytes) returns (written: int, ec: int)
      requires script != []
      modifies this`wire, this`script, this`resume, this`canWriteError
      ensures script == old(script)[1..]
      ensures ec == (if old(script[0]).Broken? then old(script[0]).code else 0)
      ensures written == (if old(script[0]).Took? then Min(old(script[0]).limit, |offered|) else -1)
      ensures old(script[0]).Took? ==> resume == old(script[0]).resume
      ensures wire == old(wire) + offered[..Max(written, 0)]
      ensures var io := old(script[0]);  // withdrawn by a plain write unless EAGAIN, by SSL_write only if it took something
              canWriteError <==> old(canWriteError) && (io.Broken? || io.limit == 0 || (kind.Tls? && written == 0))
    {
      var io := script[0];
      script := script[1..];
      if io.Broken? {
        written, ec := -1, io.code;
      } else {
        written, ec, resume := Min(io.limit, |offered|), 0, io.resume;
        wire := wire + offered[..written];
        if (if kind.Plain? then io.limit > 0 else written > 0) {
          canWriteError := false;
        }
      }
    }

    method WriteSome(buffer: Bytes) returns (written: int, ec: int)
      requires script != []
      modifies this`wire, this`script, this`resume, this`canWriteError
      ensures script == old(script)[1..]
      ensures ec == (if old(script[0]).Broken? then old(script[0]).code else 0)
      ensures written == (if ec == 0 then TakenOne(kind, buffer, old(script[0])) else -1) <= |buffer|
      ensures old(script[0]).Took? ==> resume == old(script[0]).resume
      ensures wire == old(wire) + buffer[..Max(written, 0)]
      ensures var io := old(script[0]);  // withdrawn by a plain write unless EAGAIN, by SSL_write only if it took something
              canWriteError <==> old(canWriteError) && (io.Broken? || io.limit == 0 || (kind.Tls? && written == 0))
    {
      if kind.Plain? {
        written, ec := Send(buffer);
      } else {
        var n := Min(|buffer|, INT_MAX);
        written, ec := Send(buffer[..n]);
        assert buffer[..n][..Max(written, 0)] == buffer[..Max(written, 0)];
      }
    }

    /** What the kernel answers before the next call; a session whose call fails may see anything. */
    method SocketWriteSize() returns (size: nat)
      requires script != []
      ensures script[0].Took? ==> size == script[0].socketSize
    {
      size := if script[0].Took? then script[0].socketSize else 0;
    }

    /** SessionsEventLoop::sharedWriteBuffer. */
    method FlatBuffer(size: nat) returns (flat: array<Byte>)
      ensures flat.Length >= size
      ensures if onLoopThread && size <= sharedWriteBuffer.Length then flat == sharedWriteBuffer else fresh(flat)
    {
      if onLoopThread && size <= sharedWriteBuffer.Length {
        flat := sharedWriteBuffer;
      } else {
        flat := new Byte[size](_ => 0);
      }
    }

    /** The flattening loop of the TLS writeSome: fills exactly min(total, limit) bytes. */
    method CopyInto(flat: array<Byte>, buffers: seq<Bytes>, limit: nat) returns (pos: nat)
      modifies flat
      ensures pos == Min(|Flatten(buffers)|, Min(flat.Length, limit))
      ensures flat[..pos] == Flatten(buffers)[..pos]
      ensures forall j :: pos <= j < flat.Length ==> flat[j] == old(flat[j])
    {
      var end := Min(flat.Length, limit);
      pos := 0;
      var i := 0;
      assert buffers[..0] == [];
      while i < |buffers| && pos != end
        invariant 0 <= i <= |buffers| && pos <= end
        invariant pos == Min(|Flatten(buffers[..i])|, end)
        invariant pos <= |Flatten(buffers)|
        invariant flat[..pos] == Flatten(buffers)[..pos]
        invariant forall j :: pos <= j < flat.Length ==> flat[j] == old(flat[j])
      {
        var size := Min(|buffers[i]|, end - pos);
        FlattenSplit(buffers, i);
        ghost var done := flat[..pos];
        forall j | 0 <= j < size {
          flat[pos + j] := buffers[i][j];
        }
        assert flat[..pos + size] == done + buffers[i][..size];
        assert Flatten(buffers)[..pos + size] == Flatten(buffers)[..pos] + buffers[i][..size];
        pos := pos + size;
        i := i + 1;
      }
      if i == |buffers| {
        assert buffers[..i] == buffers;
      } else {
        FlattenPrefix(buffers, i);
      }
    }

    /** The vectored writeSome of both session types: takes a prefix of the concatenation. */
    method WriteSomeVector(buffers: seq<Bytes>) returns (written: int, ec: int)
      requires script != []
      modifies this`wire, this`script, this`resume, this`canWriteError, sharedWriteBuffer
      ensures script == old(script)[1..]
      ensures ec == (if old(script[0]).Broken? then old(script[0]).code else 0)
      ensures written == (if ec == 0 then Taken(kind, buffers, old(script[0])) else -1) <= |Flatten(buffers)|
      ensures old(script[0]).Took? ==> resume == old(script[0]).resume
      ensures wire == old(wire) + Flatten(buffers)[..Max(written, 0)]
      ensures var io := old(script[0]);  // withdrawn by a plain write unless EAGAIN, by SSL_write only if it took something
              canWriteError <==> old(canWriteError) && (io.Broken? || io.limit == 0 || (kind.Tls? && written == 0))
    {
      var socketSize := SocketWriteSize();
      OfferedIsPrefix(kind, buffers, socketSize);
      if kind.Plain? {
        written, ec := Send(Flatten(buffers));
      } else {
        if (|buffers| > 0 && |buffers[0]| >= socketSize) || |buffers| == 1 {
          FlattenContains(buffers);
          written, ec := WriteSome(buffers[0]);
          assert buffers[0][..Max(written, 0)] == Flatten(buffers)[..Max(written, 0)];
        } else {
          var flat := FlatBuffer(socketSize);
          var pos := CopyInto(flat, buffers, socketSize);
          written, ec := WriteSome(flat[..pos]);
          assert Flatten(buffers)[..pos][..Max(written, 0)] == Flatten(buffers)[..Max(written, 0)];
        }
      }
    }

    /** write(ConstBuffer). */
    method WriteBuffer(buffer: Bytes) returns (status: Status)
      modifies this
      ensures status == WriteOne(kind, buffer, old(script)).status
      ensures script == WriteOne(kind, buffer, old(script)).rest
      ensures wire == old(wire) + SentOne(kind, buffer, old(script))
      ensures lossy <==> old(lossy) || !status.Done?
      ensures canWriteError ==> old(canWriteError) && wire == old(wire)
    {
      ghost var scheduled, start := script, wire;
      var b := buffer;
      ghost var sent := 0;
      while b != []
        invariant OneUnderway(kind, buffer, scheduled, start, sent, b, script, wire)
        invariant lossy == old(lossy) && (canWriteError ==> old(canWriteError) && sent == 0)
        decreases |script|
      {
        ghost var before, line := script, wire;
        if script == [] {
          OneFinishes(kind, buffer, scheduled, start, sent, b, script, wire, Suspended, []);
          lossy := true;
          return Suspended;
        }
        var written, ec := WriteSome(b);
        if written == 0 {
          if resume != 0 {
            OneFinishes(kind, buffer, scheduled, start, sent, b, before, line, Threw(resume), script);
            lossy := true;
            return Threw(resume);
          }
          continue;
        }
        if ec != 0 {
          OneFinishes(kind, buffer, scheduled, start, sent, b, before, line, Threw(ec), script);
          lossy := true;
          return Threw(ec);
        }
        OneAdvances(kind, buffer, scheduled, start, sent, b, before, line, written);
        b := b[written..];
        sent := sent + written;
      }
      OneFinishes(kind, buffer, scheduled, start, sent, b, script, wire, Done, script);
      status := Done;
    }

    /** The loop over the buffers after a vectored writeSome of `written` bytes. */
    method SkipSent(buffers: seq<Bytes>, written: nat) returns (rest: seq<Bytes>, left: nat)
      requires written <= |Flatten(buffers)|
      ensures left == Consume(buffers, written).left
      ensures left != 0 ==> rest == Consume(buffers, written).buffers
    {
      rest, left := buffers, written;
      var i := 0;
      while i < |buffers|
        invariant 0 <= i <= |buffers| && rest == buffers
        invariant left <= |Flatten(buffers[i..])|
        invariant Consume(buffers, written) == Consume(buffers[i..], left)
      {
        assert buffers[i..][0] == buffers[i] && buffers[i..][1..] == buffers[i + 1..];
        if |buffers[i]| <= left {
          left := left - |buffers[i]|;
        } else {
          rest := [buffers[i][left..]] + buffers[i + 1..];
          break;
        }
        i := i + 1;
      }
    }

    /** One turn of the vectored write: a writeSome and its bookkeeping. */
    method Turn(buffers: seq<Bytes>) returns (m: Move)
      requires script != []
      modifies this`wire, this`script, this`resume, this`canWriteError, sharedWriteBuffer
      ensures m == NextMove(kind, buffers, old(script[0]))
      ensures script == old(script)[1..]
      ensures Moved(m) <= |Flatten(buffers)| && wire == old(wire) + Flatten(buffers)[..Moved(m)]
      ensures canWriteError ==> old(canWriteError) && Moved(m) == 0
    {
      var written, ec := WriteSomeVector(buffers);
      if ec != 0 {
        return Fail(ec);
      }
      if written == 0 {
        return if resume != 0 then Fail(resume) else Wait;
      }
      var rest, left := SkipSent(buffers, written);
      return if left == 0 then Finish(written) else Advance(written, rest);
    }

    /**
      write(std::vector<ConstBuffer>). What it sends and how it ends are those of
      WriteVector, whose exact conditions are proved in VectoredWrite.
    */
    method WriteBuffers(buffers: seq<Bytes>) returns (status: Status)
      modifies this, sharedWriteBuffer
      ensures status == WriteVector(kind, buffers, old(script)).status
      ensures script == WriteVector(kind, buffers, old(script)).rest
      ensures wire == old(wire) + SentVector(kind, buffers, old(script))
      ensures lossy <==> old(lossy) || !status.Done? || SentVector(kind, buffers, old(script)) != Flatten(buffers)
      ensures canWriteError ==> old(canWriteError) && wire == old(wire)
    {
      ghost var scheduled, start := script, wire;
      var bs := buffers;
      ghost var sent := 0;
      while true
        invariant Underway(kind, buffers, scheduled, start, sent, bs, script, wire)
        invariant lossy == old(lossy) && (canWriteError ==> old(canWriteError) && sent == 0)
        decreases |script|
      {
        if script == [] {
          lossy := true;
          return Suspended;
        }
        MoveSpec(kind, bs, script[0]);
        ghost var before, line := script, wire;
        var m := Turn(bs);
        match m
        case Fail(code) =>
          UnderwayFinishes(kind, buffers, scheduled, start, sent, bs, before, line, Threw(code), 0);
          lossy := true;
          return Threw(code);
        case Wait =>
        case Finish(w) =>
          UnderwayFinishes(kind, buffers, scheduled, start, sent, bs, before, line, Done, w);
          lossy := lossy || sent + w < |Flatten(buffers)|;
          return Done;
        case Advance(w, next) =>
          UnderwayAdvances(kind, buffers, scheduled, start, sent, bs, before, line, w, next);
          sent := sent + w;
          bs := next;
      }
    }
  }

  /** The loop invariant of the single-buffer write. */
  ghost predicate OneUnderway(kind: Kind, buffer: Bytes, scheduled: seq<Io>, start: Bytes,
                              sent: nat, b: Bytes, script: seq<Io>, wire: Bytes) {
    && sent <= |buffer| && b == buffer[sent..]
    && WriteOne(kind, buffer, scheduled) == AddWritten(sent, WriteOne(kind, b, script))
    && wire == start + buffer[..sent]
  }

  lemma OneFinishes(kind: Kind, buffer: Bytes, scheduled: seq<Io>, start: Bytes, sent: nat, b: Bytes,
                    script: seq<Io>, wire: Bytes, status: Status, rest: seq<Io>)
    requires OneUnderway(kind, buffer, scheduled, start, sent, b, script, wire)
    requires WriteOne(kind, b, script) == Run(0, status, rest)
    ensures WriteOne(kind, buffer, scheduled) == Run(sent, status, rest)
    ensures wire == start + SentOne(kind, buffer, scheduled)
  {
  }

  lemma OneAdvances(kind: Kind, buffer: Bytes, scheduled: seq<Io>, start: Bytes, sent: nat, b: Bytes,
                    script: seq<Io>, wire: Bytes, w: nat)
    requires OneUnderway(kind, buffer, scheduled, start, sent, b, script, wire) && script != []
    requires w <= |b| && WriteOne(kind, b, script) == AddWritten(w, WriteOne(kind, b[w..], script[1..]))
    ensures OneUnderway(kind, buffer, scheduled, start, sent + w, b[w..], script[1..], wire + b[..w])
  {
    PrefixesMeet(buffer, sent, w);
    Associates(start, buffer[..sent], b[..w]);
  }

  function Moved(m: Move): nat {
    match m
    case Fail(_) => 0
    case Wait => 0
    case Finish(w) => w
    case Advance(w, _) => w
  }

  /** The loop invariant of the vectored write. */
  ghost predicate Underway(kind: Kind, buffers: seq<Bytes>, scheduled: seq<Io>, start: Bytes,
                           sent: nat, bs: seq<Bytes>, script: seq<Io>, wire: Bytes) {
    && sent <= |Flatten(buffers)|
    && Flatten(bs) == Flatten(buffers)[sent..]
    && WriteVector(kind, buffers, scheduled) == AddWritten(sent, WriteVector(kind, bs, script))
    && wire == start + Flatten(buffers)[..sent]
  }

  ghost predicate Ended(kind: Kind, buffers: seq<Bytes>, scheduled: seq<Io>, start: Bytes,
                        status: Status, sent: nat, script: seq<Io>, wire: Bytes) {
    && WriteVector(kind, buffers, scheduled) == Run(sent, status, script)
    && wire == start + SentVector(kind, buffers, scheduled)
    && (sent == |Flatten(buffers)| <==> SentVector(kind, buffers, scheduled) == Flatten(buffers))
  }

  lemma UnderwayFinishes(kind: Kind, buffers: seq<Bytes>, scheduled: seq<Io>, start: Bytes,
                         sent: nat, bs: seq<Bytes>, script: seq<Io>, wire: Bytes, status: Status, w: nat)
    requires Underway(kind, buffers, scheduled, start, sent, bs, script, wire) && script != []
    requires w <= |Flatten(bs)| && WriteVector(kind, bs, script) == Run(w, status, script[1..])
    ensures Ended(kind, buffers, scheduled, start, status, sent + w, script[1..], wire + Flatten(bs)[..w])
  {
    PrefixesMeet(Flatten(buffers), sent, w);
    Associates(start, Flatten(buffers)[..sent], Flatten(bs)[..w]);
  }

  lemma UnderwayAdvances(kind: Kind, buffers: seq<Bytes>, scheduled: seq<Io>, start: Bytes,
                         sent: nat, bs: seq<Bytes>, script: seq<Io>, wire: Bytes, w: nat, next: seq<Bytes>)
    requires Underway(kind, buffers, scheduled, start, sent, bs, script, wire) && script != []
    requires w <= |Flatten(bs)| && Flatten(next) == Flatten(bs)[w..]
    requires WriteVector(kind, bs, script) == AddWritten(w, WriteVector(kind, next, script[1..]))
    ensures Underway(kind, buffers, scheduled, start, sent + w, next, script[1..], wire + Flatten(bs)[..w])
  {
    var all := Flatten(buffers);
    PrefixesMeet(all, sent, w);
    Associates(start, all[..sent], all[sent..][..w]);
    var r := WriteVector(kind, next, script[1..]);
    assert AddWritten(sent, AddWritten(w, r)) == AddWritten(sent + w, r);
  }

  lemma PrefixesMeet(all: Bytes, sent: nat, w: nat)
    requires sent + w <= |all|
    ensures all[..sent] + all[sent..][..w] == all[..sent + w]
    ensures all[sent..][w..] == all[sent + w..]
  {
  }
}
