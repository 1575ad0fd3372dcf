/**
  The reading half of BasicHttpSession: readHeaders and read hand what arrives to the parser,
  through the shared read buffer and the saved remainder.
*/
module SessionRead {
  import opened Basics
  import opened ByteStrings
  import opened WindowBuffer

  /** The request state after a parser call. */
  datatype Verdict = More | HeadersDone | MessageDone | ParseError

  datatype Reply = Reply(parsed: nat, verdict: Verdict)

  /** The HTTP parser as an arbitrary consumer: its reply depends on what it consumed and is shown. */
  class Parser {
    const reply: (Bytes, Bytes) -> Reply
    var consumed: Bytes
    var verdict: Verdict
    ghost var before: Bytes  // what had been consumed when the last call began
    ghost var was: Verdict   // and the verdict then

    constructor (reply: (Bytes, Bytes) -> Reply)
      ensures this.reply == reply && consumed == [] && verdict == More
    {
      this.reply, consumed, verdict := reply, [], More;
      before, was := [], More;
    }

    /** A call that reports no error consumes all it is given. */
    ghost predicate ConsumesAll() {
      forall seen: Bytes, data: Bytes :: reply(seen, data).verdict != ParseError ==> reply(seen, data).parsed >= |data|
    }

    method Init()
      modifies this
      ensures consumed == [] && verdict == More
    {
      consumed, verdict := [], More;
    }

    method Execute(data: Bytes) returns (parsed: nat)
      modifies this
      ensures parsed <= |data| && consumed == old(consumed) + data[..parsed]
      ensures ConsumesAll() && verdict != ParseError ==> parsed == |data|
      ensures before == old(consumed) && was == old(verdict)
      ensures var r := reply(old(consumed), data); verdict == r.verdict && parsed == Min(r.parsed, |data|)
    {
      before, was := consumed, verdict;
      var r := reply(consumed, data);
      parsed := Min(r.parsed, |data|);
      consumed := consumed + data[..parsed];
      verdict := r.verdict;
    }
  }

  /** One readSome: what is waiting on the socket (nothing: the coroutine yields), or an error. */
  datatype ReadIo = Got(data: Bytes, resume: int) | Broken(code: ErrorCode)

  type ErrorCode = c: int | c != 0 witness 1

  /** A call brings the error c: it fails with it, or finds nothing and the yield is resumed with it. */
  predicate Brings(io: ReadIo, c: int) {
    c != 0 && c == if io.Broken? then io.code else io.resume
  }

  /** Overrun, Garbled: the saved remainder is not handled as bytes, see PullBytes and ReadHeaders. */
  datatype Status = Done | Threw(code: int) | Suspended | Overrun | Garbled

  const BAD_MESSAGE: int := 74

  /** The first half of a turn of either loop: bytes arrived in the shared buffer, or why not. */
  datatype Pull = Arrived | Waiting | Failed(code: int) | Starved | TooBig

  predicate EndsLine(s: Bytes) {
    |s| >= 2 && s[|s| - 2] == CR && s[|s| - 1] == LF
  }

  predicate LineEndAt(s: Bytes, j: nat)
    requires j + 1 < |s|
  {
    s[j] == CR && s[j + 1] == LF
  }

  /** There is no line end in s but at its end. */
  predicate OneLine(s: Bytes) {
    forall j :: 0 <= j < |s| - 2 ==> !LineEndAt(s, j)
  }

  /** The length of the first line with its line end, or of everything when there is none. */
  method NextLine(s: Bytes) returns (next: nat)
    requires s != []
    ensures 0 < next <= |s| && OneLine(s[..next]) && (next < |s| ==> EndsLine(s[..next]))
  {
    next := 0;
    while next + 1 < |s| && !(s[next] == CR && s[next + 1] == LF)
      invariant next < |s|
      invariant forall j :: 0 <= j < next ==> !LineEndAt(s, j)
    {
      next := next + 1;
    }
    next := if next + 1 < |s| then next + 2 else |s|;
    forall j | 0 <= j < next - 2
      ensures !LineEndAt(s[..next], j)
    {
      assert !LineEndAt(s, j);
    }
  }

  class Reader {
    const shared: Buffer   // the loop's sharedReadBuffer
    const saved: Buffer    // m_httpParserBuffer
    const parser: Parser
    var script: seq<ReadIo>
    var canWriteError: bool
    ghost var received: Bytes

    ghost predicate Valid()
      reads this, shared, saved
    {
      shared != saved && shared.data != saved.data && shared.Valid() && saved.Valid()
    }

    /** Bytes the parser has consumed, then bytes saved for it. */
    ghost function Pipeline(): Bytes
      requires Valid()
      reads this, shared, saved, saved.data, parser
    {
      parser.consumed + saved.Window()
    }

    constructor (reply: (Bytes, Bytes) -> Reply, script: seq<ReadIo>, sharedSize: nat)
      ensures Valid() && fresh(shared) && fresh(saved) && fresh(parser) && fresh(shared.data) && fresh(saved.data)
      ensures parser.reply == reply && this.script == script && received == [] && Pipeline() == []
    {
      shared := new Buffer(sharedSize);
      saved := new Buffer(0);
      parser := new Parser(reply);
      this.script, canWriteError, received := script, false, [];
    }

    /** read(2) into the window of the shared buffer; resume is meaningful when nothing was read. */
    method ReadSome() returns (n: nat, code: int, resume: int)
      requires Valid() && script != []
      modifies this`script, this`received, shared.data
      ensures script == old(script)[1..] && Valid()
      ensures n <= shared.CurrentSize() && (code != 0 ==> n == 0)
      ensures received == old(received) + shared.data[shared.current..shared.current + n]
      ensures shared.data[..shared.current] == old(shared.data[..shared.current])
      ensures var io := old(script[0]);
              && (io.Broken? ==> n == 0 && code == io.code && received == old(received))
              && (io.Got? ==> n == Min(|io.data|, shared.CurrentSize()) && code == 0 && resume == io.resume
                              && received == old(received) + io.data[..n])
    {
      var io := script[0];
      script := script[1..];
      if io.Broken? {
        return 0, io.code, 0;
      }
      n := Min(|io.data|, shared.CurrentSize());
      forall i | 0 <= i < n {
        shared.data[shared.current + i] := io.data[i];
      }
      assert shared.data[shared.current..shared.current + n] == io.data[..n];
      received := received + io.data[..n];
      code, resume := 0, io.resume;
    }

    /** Empties the shared buffer and puts the saved remainder in front. */
    method Stage() returns (tempSize: nat)
      requires Valid() && (saved.Window() == [] || |saved.Window()| < shared.data.Length)
      modifies shared, shared.data
      ensures Valid() && shared.data == old(shared.data)
      ensures tempSize == |saved.Window()| == shared.current && shared.end == shared.data.Length
      ensures shared.data[..tempSize] == saved.Window()
    {
      shared.Reset();
      tempSize := saved.CurrentSize();
      if tempSize > 0 {
        shared.Prepend(saved.Window());
      }
    }

    /** Makes the staged remainder and the n bytes read behind it the window. */
    method Expose(tempSize: nat, n: nat)
      requires Valid() && tempSize + n <= shared.data.Length
      modifies shared`current, shared`end
      ensures Valid() && shared.Window() == shared.data[..tempSize] + shared.data[tempSize..tempSize + n]
    {
      shared.Reset();
      shared.SetCurrentSize(n + tempSize);
    }

    /**
      The first half of a turn. A remainder as large as the shared buffer would be
      overwritten by the read and the window would leave the array: that is TooBig, and
      nothing is claimed beyond it.
    */
    method PullBytes() returns (p: Pull)
      requires Valid()
      modifies this`script, this`received, shared, shared.data
      ensures Valid() && shared.data == old(shared.data)
      ensures if old(script) == [] then p.Starved? && script == [] else script == old(script)[1..]
      ensures old(received) <= received && (!p.Arrived? ==> received == old(received))
      ensures p.Arrived? ==> shared.Window() == saved.Window() + received[|old(received)|..] && shared.Window() != []
      ensures p.TooBig? <==> old(script) != [] && saved.Window() != [] && |saved.Window()| >= shared.data.Length
      ensures old(script) != [] && !p.TooBig? ==>
                var io, room := old(script[0]), shared.data.Length - |saved.Window()|;
                if io.Broken? then p == Failed(io.code)
                else if io.data == [] || room == 0 then p == if io.resume != 0 then Failed(io.resume) else Waiting
                else p.Arrived? && received == old(received) + io.data[..Min(|io.data|, room)]
    {
      if script == [] {
        return Starved;
      }
      if saved.CurrentSize() >= shared.data.Length && saved.CurrentSize() > 0 {
        script := script[1..];
        return TooBig;
      }
      var tempSize := Stage();
      var n, code, resume := ReadSome();
      if code != 0 {
        return Failed(code);
      }
      if n == 0 {
        return if resume != 0 then Failed(resume) else Waiting;
      }
      Expose(tempSize, n);
      p := Arrived;
    }

    /** Keeps what is left of the window for the next turn. */
    method SaveRest()
      requires Valid()
      modifies saved, saved.data
      ensures Valid() && saved.Window() == shared.Window()
      ensures saved.data == old(saved.data) || fresh(saved.data)
    {
      if shared.CurrentSize() > 0 {
        saved.Assign(shared.Window());
      } else {
        saved.Clear();
      }
    }

    // ------------------------------------------------- readHeaders

    predicate HeadersRead()
      reads parser
    {
      parser.verdict == HeadersDone || parser.verdict == MessageDone
    }

    /**
      The last call began while the headers were incomplete and was shown at most one line;
      when bytes are left behind it, it was shown exactly the rest of its line.
    */
    ghost predicate LastLine(rest: Bytes)
      reads parser
    {
      && parser.before <= parser.consumed && parser.was == More
      && var line := parser.consumed[|parser.before|..];
         OneLine(line) && (rest != [] ==> EndsLine(line))
    }

    /** Feeds the window line by line until the headers are complete or it is used up. */
    method FeedLines() returns (failed: bool)
      requires Valid() && parser.ConsumesAll() && parser.verdict == More && shared.Window() != []
      modifies shared`current, parser
      ensures Valid() && (failed <==> parser.verdict == ParseError)
      ensures parser.consumed <= old(parser.consumed) + old(shared.Window())
      ensures !failed ==> parser.consumed + shared.Window() == old(parser.consumed) + old(shared.Window())
      ensures !failed && !HeadersRead() ==> shared.Window() == []
      ensures !failed && shared.Window() != [] ==> EndsLine(parser.consumed)
      ensures !failed ==> LastLine(shared.Window())
    {
      ghost var all, fed := parser.consumed + shared.Window(), false;
      while !HeadersRead() && shared.CurrentSize() > 0
        invariant Valid() && parser.verdict != ParseError
        invariant parser.consumed + shared.Window() == all
        invariant fed || (parser.verdict == More && shared.Window() != [])
        invariant fed && shared.Window() != [] ==> EndsLine(parser.consumed)
        invariant fed ==> LastLine(shared.Window())
        decreases shared.CurrentSize()
      {
        var next := NextLine(shared.Window());
        ghost var before := parser.consumed;
        var w := shared.Window();
        var parsed := parser.Execute(w[..next]);
        LineFed(before, w, next, parsed);
        if parser.verdict == ParseError {
          return true;
        }
        shared.Advance(next);
        fed := true;
        if next != parsed {
          break;
        }
      }
      failed := false;
    }

    /** An error is bad_message when the parser rejected something, else that of the last call. */
    predicate Blames(code: int, last: ReadIo)
      reads parser
    {
      if parser.verdict == ParseError then code == BAD_MESSAGE else Brings(last, code)
    }

    /** One turn of the loop of readHeaders. */
    method HeaderTurn() returns (p: Pull)
      requires Valid() && parser.ConsumesAll() && parser.verdict == More && saved.Window() == []
      modifies this`script, this`received, this`canWriteError, shared, shared.data, saved, saved.data, parser
      ensures Valid() && !p.TooBig? && |script| <= |old(script)| && (!p.Starved? ==> |script| < |old(script)|)
      ensures shared.data == old(shared.data) && (saved.data == old(saved.data) || fresh(saved.data))
      ensures old(received) <= received && parser.consumed <= old(parser.consumed) + received[|old(received)|..]
      ensures p.Arrived? ==>
                && (HeadersRead() || parser.verdict == More)
                && Pipeline() == old(parser.consumed) + received[|old(received)|..]
                && (saved.Window() != [] ==> HeadersRead() && EndsLine(parser.consumed))
                && LastLine(saved.Window())
      ensures canWriteError <==> old(canWriteError) || received != old(received)
      ensures old(script) == [] <==> p.Starved?
      ensures old(script) != [] ==> script == old(script)[1..]
      ensures p.Failed? ==> Blames(p.code, old(script[0]))
      ensures p.Starved? || p.Waiting? ==>
                saved.Window() == [] && received == old(received)
                && parser.consumed == old(parser.consumed) && parser.verdict == More
    {
      p := PullBytes();
      if !p.Arrived? {
        return;
      }
      canWriteError := true;
      var failed := FeedAndSave();
      if failed {
        p := Failed(BAD_MESSAGE);
      }
    }

    /** Feeds what has arrived and saves what is left of it. */
    method FeedAndSave() returns (failed: bool)
      requires Valid() && parser.ConsumesAll() && parser.verdict == More && shared.Window() != []
      modifies shared`current, parser, saved, saved.data
      ensures Valid() && (failed <==> parser.verdict == ParseError)
      ensures saved.data == old(saved.data) || fresh(saved.data)
      ensures parser.consumed <= old(parser.consumed) + old(shared.Window())
      ensures !failed ==>
                && (HeadersRead() || parser.verdict == More)
                && Pipeline() == old(parser.consumed) + old(shared.Window())
                && (saved.Window() != [] ==> HeadersRead() && EndsLine(parser.consumed))
                && LastLine(saved.Window())
    {
      failed := FeedLines();
      if !failed {
        SaveRest();
      }
    }

    /**
      readHeaders. On a normal return the headers are complete, and what the parser was fed
      plus the saved remainder is exactly what was received since the call; the parser saw
      no byte behind the line that completed them. While it is suspended everything received
      has been fed. A remainder left from an earlier request is put in front as a C string, so
      its length is not its own: that is Garbled, and nothing is claimed beyond it.
    */
    method ReadHeaders() returns (status: Status)
      requires Valid() && parser.ConsumesAll()
      modifies this`script, this`received, this`canWriteError, shared, shared.data, saved, saved.data, parser
      ensures Valid() && old(received) <= received && !status.Overrun?
      ensures status.Garbled? <==> old(saved.Window()) != []
      ensures status.Garbled? ==> received == old(received) && saved.Window() == old(saved.Window()) && parser.consumed == []
      ensures status.Done? ==> LastLine(saved.Window())
      ensures |script| <= |old(script)| && script == old(script)[|old(script)| - |script|..]
      ensures status.Suspended? ==> script == []
      ensures status.Threw? ==> |script| < |old(script)| && Blames(status.code, old(script)[|old(script)| - |script| - 1])
      ensures canWriteError <==> old(canWriteError) || received != old(received)
      ensures status.Done? ==> HeadersRead() && Pipeline() == received[|old(received)|..]
      ensures status.Done? && saved.Window() != [] ==> EndsLine(parser.consumed)
      ensures status.Suspended? ==> parser.consumed == received[|old(received)|..] && saved.Window() == []
      ensures status.Threw? ==> parser.consumed <= received[|old(received)|..]
      ensures shared.data == old(shared.data) && (saved.data == old(saved.data) || fresh(saved.data))
    {
      parser.Init();
      if saved.CurrentSize() > 0 {
        return Garbled;
      }
      ghost var start := |received|;
      while !HeadersRead()
        invariant Valid() && old(received) <= received
        invariant HeadersRead() || (parser.verdict == More && saved.Window() == [])
        invariant HeadersRead() ==> LastLine(saved.Window())
        invariant parser.consumed + saved.Window() == received[start..]
        invariant |script| <= |old(script)| && script == old(script)[|old(script)| - |script|..]
        invariant canWriteError <==> old(canWriteError) || received != old(received)
        invariant saved.Window() != [] ==> EndsLine(parser.consumed)
        invariant shared.data == old(shared.data) && (saved.data == old(saved.data) || fresh(saved.data))
        decreases |script|
      {
        ghost var had := received;
        var p := HeaderTurn();
        Grows(had, received, start);
        if p.Starved? {
          return Suspended;
        }
        if p.Failed? {
          return Threw(p.code);
        }
      }
      status := Done;
    }

    // ------------------------------------------------- read

    /** One turn of the loop of read; `rest` is what the parser left of the window, saved unless the message is done. */
    method BodyTurn() returns (p: Pull, ghost rest: Bytes)
      requires Valid() && parser.verdict != MessageDone
      modifies this`script, this`received, shared, shared.data, saved, saved.data, parser
      ensures Valid() && |script| <= |old(script)| && (!p.Starved? ==> |script| < |old(script)|)
      ensures shared.data == old(shared.data) && (saved.data == old(saved.data) || fresh(saved.data))
      ensures old(received) <= received
      ensures p.Arrived? ==>
                && parser.consumed + rest == old(Pipeline()) + received[|old(received)|..]
                && (parser.ConsumesAll() ==> rest == [])
                && (parser.verdict != MessageDone ==> rest == saved.Window())
      ensures p.Starved? || p.Waiting? || p.TooBig? ==>
                rest == saved.Window() == old(saved.Window()) && received == old(received)
                && parser.consumed == old(parser.consumed) && parser.verdict == old(parser.verdict)
      ensures p.TooBig? ==> saved.Window() != [] && |saved.Window()| >= shared.data.Length
      ensures p.Failed? ==> parser.consumed <= old(Pipeline()) + received[|old(received)|..]
      ensures old(script) == [] <==> p.Starved?
      ensures old(script) != [] ==> script == old(script)[1..]
      ensures p.Failed? && old(parser.verdict) != ParseError ==> Blames(p.code, old(script[0]))
      ensures parser.verdict == ParseError ==> old(parser.verdict) == ParseError || p.Failed?
    {
      rest := saved.Window();
      p := PullBytes();
      if !p.Arrived? {
        return;
      }
      ghost var before, w := parser.consumed, shared.Window();
      var parsed := parser.Execute(shared.Window());
      PieceFed(before, saved.Window(), received[|old(received)|..], w, parsed);
      if parser.verdict == ParseError {
        p := Failed(BAD_MESSAGE);
        return;
      }
      rest := w[parsed..];
      if parser.verdict == MessageDone {
        return;
      }
      shared.Advance(parsed);
      SaveRest();
    }

    /**
      read. Whatever was saved and whatever arrives is fed to the parser in order, each byte
      once; only bytes a completed message leaves unread are dropped, and none is when the
      parser consumes all it is given. Overrun is possible only with a remainder as large as
      the shared buffer, so never with such a parser.
    */
    method Read() returns (status: Status, ghost lost: Bytes)
      requires Valid()
      modifies this`script, this`received, this`canWriteError, shared, shared.data, saved, saved.data, parser
      ensures Valid() && old(received) <= received
      ensures old(parser.verdict) == MessageDone ==>
                status.Done? && received == old(received) && Pipeline() == old(Pipeline())
      ensures old(parser.verdict) != MessageDone && status.Done? ==>
                parser.verdict == MessageDone && saved.Window() == []
                && parser.consumed + lost == old(Pipeline()) + received[|old(received)|..]
      ensures parser.ConsumesAll() ==> lost == [] && !status.Overrun?
      ensures status.Suspended? ==> Pipeline() == old(Pipeline()) + received[|old(received)|..]
      ensures status.Threw? ==> parser.consumed <= old(Pipeline()) + received[|old(received)|..]
      ensures status.Overrun? ==> saved.Window() != [] && |saved.Window()| >= shared.data.Length
      ensures |script| <= |old(script)| && script == old(script)[|old(script)| - |script|..]
      ensures status.Suspended? ==> script == []
      ensures status.Threw? && old(parser.verdict) != ParseError ==>
                if parser.verdict == ParseError then status.code == BAD_MESSAGE
                else |script| < |old(script)| && Brings(old(script)[|old(script)| - |script| - 1], status.code)
      ensures if old(parser.verdict) == MessageDone then canWriteError == old(canWriteError) else canWriteError
    {
      lost := [];
      if parser.verdict == MessageDone {
        return Done, [];
      }
      canWriteError := true;
      var ok := FeedSaved();
      if !ok {
        return Threw(BAD_MESSAGE), [];
      }
      status, lost := ReadRest();
    }

    /** The loop of read. */
    method ReadRest() returns (status: Status, ghost lost: Bytes)
      requires Valid()
      modifies this`script, this`received, shared, shared.data, saved, saved.data, parser
      ensures Valid() && old(received) <= received && !status.Garbled?
      ensures status.Done? ==> parser.verdict == MessageDone && saved.Window() == []
                               && parser.consumed + lost == old(Pipeline()) + received[|old(received)|..]
      ensures parser.ConsumesAll() && old(saved.Window()) == [] ==> lost == [] && !status.Overrun?
      ensures status.Suspended? ==> Pipeline() == old(Pipeline()) + received[|old(received)|..]
      ensures status.Threw? ==> parser.consumed <= old(Pipeline()) + received[|old(received)|..]
      ensures status.Overrun? ==> saved.Window() != [] && |saved.Window()| >= shared.data.Length
      ensures |script| <= |old(script)| && script == old(script)[|old(script)| - |script|..]
      ensures status.Suspended? ==> script == []
      ensures status.Threw? && old(parser.verdict) != ParseError ==>
                |script| < |old(script)| && Blames(status.code, old(script)[|old(script)| - |script| - 1])
    {
      ghost var all, start, clean := Pipeline(), |received|, parser.ConsumesAll() && saved.Window() == [];
      lost := saved.Window();
      while parser.verdict != MessageDone
        invariant Valid() && old(received) <= received
        invariant shared.data == old(shared.data) && (saved.data == old(saved.data) || fresh(saved.data))
        invariant parser.consumed + lost == all + received[start..] && (clean ==> lost == [])
        invariant parser.verdict != MessageDone ==> lost == saved.Window()
        invariant |script| <= |old(script)| && script == old(script)[|old(script)| - |script|..]
        invariant old(parser.verdict) != ParseError ==> parser.verdict != ParseError
        decreases |script|
      {
        ghost var had := received;
        var p;
        p, lost := BodyTurn();
        Grows(had, received, start);
        if p.Starved? {
          return Suspended, [];
        }
        if p.TooBig? {
          return Overrun, [];
        }
        if p.Failed? {
          return Threw(p.code), [];
        }
      }
      saved.Clear();
      status := Done;
    }

    /** Feeds the saved remainder before anything is read. */
    method FeedSaved() returns (ok: bool)
      requires Valid() && parser.verdict != MessageDone
      modifies saved`current, parser
      ensures Valid() && (!ok ==> parser.verdict == ParseError && parser.consumed <= old(Pipeline()))
      ensures ok ==> Pipeline() == old(Pipeline()) && (parser.ConsumesAll() ==> saved.Window() == [])
      ensures ok && old(parser.verdict) != ParseError ==> parser.verdict != ParseError
    {
      if saved.CurrentSize() > 0 {
        ghost var before, w := parser.consumed, saved.Window();
        var parsed := parser.Execute(saved.Window());
        assert (before + w[..parsed]) + w[parsed..] == before + w;
        if parser.verdict == ParseError {
          return false;
        }
        saved.Advance(parsed);
      }
      ok := true;
    }
  }

  lemma PieceFed(before: Bytes, saved: Bytes, news: Bytes, w: Bytes, parsed: nat)
    requires w == saved + news && parsed <= |w|
    ensures before + w[..parsed] <= (before + saved) + news
    ensures (before + w[..parsed]) + w[parsed..] == (before + saved) + news
  {
  }

  lemma Grows(had: Bytes, now: Bytes, start: nat)
    requires start <= |had| && had <= now
    ensures had[start..] + now[|had|..] == now[start..]
  {
  }

  lemma LineFed(before: Bytes, w: Bytes, next: nat, parsed: nat)
    requires parsed <= next <= |w|
    ensures before + w[..next][..parsed] <= before + w
    ensures parsed == next ==> (before + w[..next][..parsed]) + w[next..] == before + w
    ensures parsed == next ==> before <= before + w[..next][..parsed] && (before + w[..next][..parsed])[|before|..] == w[..next]
    ensures parsed == next && EndsLine(w[..next]) ==> EndsLine(before + w[..next][..parsed])
  {
  }
}
