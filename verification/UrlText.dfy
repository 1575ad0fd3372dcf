/** Splitting and percent-decoding of URL text (section 2.1 of RFC 3986, with '+' for a space). */
module UrlText {
  import opened Basics
  import opened ByteStrings

  const PERCENT: Byte := 37
  const PLUS: Byte := 43
  const SPACE: Byte := 32

  // ------------------------------------------------- split

  function IndexOf(s: Bytes, ch: Byte): (i: nat)
    ensures i <= |s| && (i < |s| ==> s[i] == ch)
    ensures forall j :: 0 <= j < i ==> s[j] != ch
  {
    if s == [] || s[0] == ch then 0
    else
      var i := IndexOf(s[1..], ch);
      assert forall j :: 0 < j <= i ==> s[j] == s[1..][j - 1];
      1 + i
  }

  function NonEmpty(part: Bytes): seq<Bytes> {
    if part == [] then [] else [part]
  }

  /** The non-empty pieces between occurrences of ch; at most `count` occurrences are cut at. */
  function PartsUpTo(s: Bytes, ch: Byte, count: nat): seq<Bytes>
    decreases |s|
  {
    var i := IndexOf(s, ch);
    if i == |s| || count == 0 then NonEmpty(s)
    else NonEmpty(s[..i]) + PartsUpTo(s[i + 1..], ch, count - 1)
  }

  /** All non-empty pieces. */
  function Parts(s: Bytes, ch: Byte): seq<Bytes>
    decreases |s|
  {
    var i := IndexOf(s, ch);
    if i == |s| then NonEmpty(s) else NonEmpty(s[..i]) + Parts(s[i + 1..], ch)
  }

  /** With a count no smaller than the text is long, the limit plays no role. */
  lemma {:induction false} UnlimitedParts(s: Bytes, ch: Byte, count: nat)
    requires |s| <= count
    ensures PartsUpTo(s, ch, count) == Parts(s, ch)
    decreases |s|
  {
    var i := IndexOf(s, ch);
    if i < |s| {
      UnlimitedParts(s[i + 1..], ch, count - 1);
    }
  }

  method Find(s: Bytes, ch: Byte, from: nat) returns (at: nat)
    requires from <= |s|
    ensures at == from + IndexOf(s[from..], ch)
  {
    at := from;
    while at < |s| && s[at] != ch
      invariant from <= at <= |s|
      invariant from + IndexOf(s[from..], ch) == at + IndexOf(s[at..], ch)
    {
      assert s[at..][1..] == s[at + 1..];
      at := at + 1;
    }
  }

  lemma IndexOfIs(s: Bytes, ch: Byte, i: nat)
    requires i <= |s| && (i < |s| ==> s[i] == ch)
    requires forall j :: 0 <= j < i ==> s[j] != ch
    ensures IndexOf(s, ch) == i
  {
  }

  lemma PartsUpToAt(s: Bytes, ch: Byte, head: Bytes, tail: Bytes, count: nat)
    requires s == head + [ch] + tail && ch !in head && count > 0
    ensures PartsUpTo(s, ch, count) == NonEmpty(head) + PartsUpTo(tail, ch, count - 1)
  {
    IndexOfIs(s, ch, |head|);
    assert s[..|head|] == head && s[|head| + 1..] == tail;
  }

  /** One cut of the splitting loop, at the separator found at `next`. */
  lemma CutOnce(s: Bytes, ch: Byte, left: nat, pos: nat, next: nat)
    requires pos <= next < |s| && next == pos + IndexOf(s[pos..], ch) && left > 0
    ensures PartsUpTo(s[pos..], ch, left) == NonEmpty(s[pos..next]) + PartsUpTo(s[next + 1..], ch, left - 1)
  {
    PartsUpToAt(s[pos..], ch, s[pos..next], s[next + 1..], left);
  }

  /** The loop has collected `parts` and has `text` still to cut. */
  ghost predicate Cutting(all: seq<Bytes>, parts: seq<Bytes>, text: Bytes, ch: Byte, left: nat) {
    all == parts + PartsUpTo(text, ch, left)
  }

  lemma CutGoesOn(all: seq<Bytes>, parts: seq<Bytes>, s: Bytes, ch: Byte, left: nat, pos: nat, next: nat)
    requires pos <= next < |s| && next == pos + IndexOf(s[pos..], ch) && left > 0
    requires Cutting(all, parts, s[pos..], ch, left)
    ensures Cutting(all, parts + NonEmpty(s[pos..next]), s[next + 1..], ch, left - 1)
  {
    CutOnce(s, ch, left, pos, next);
    Associates(parts, NonEmpty(s[pos..next]), PartsUpTo(s[next + 1..], ch, left - 1));
  }

  /** Collects a piece unless it is empty. */
  method Collect(parts: seq<Bytes>, piece: Bytes) returns (r: seq<Bytes>)
    ensures r == parts + NonEmpty(piece)
  {
    if piece == [] {
      r := parts;
    } else {
      r := parts + [piece];
    }
  }

  /** split. */
  method Split(s: Bytes, ch: Byte, count: nat) returns (parts: seq<Bytes>)
    ensures parts == PartsUpTo(s, ch, count)
  {
    if s == [] {
      return [];
    }
    ghost var all := PartsUpTo(s, ch, count);
    var pos, left;
    parts, pos, left := CutAll(s, ch, count, all);
    parts := Collect(parts, s[pos..]);
  }

  /** The loop of split. */
  method CutAll(s: Bytes, ch: Byte, count: nat, ghost all: seq<Bytes>)
    returns (parts: seq<Bytes>, pos: nat, left: nat)
    requires Cutting(all, [], s[0..], ch, count)
    ensures pos <= |s| && Cutting(all, parts, s[pos..], ch, left)
    ensures left == 0 || IndexOf(s[pos..], ch) == |s| - pos
  {
    parts, pos, left := [], 0, count;
    var next := Find(s, ch, pos);
    while next < |s| && left > 0
      invariant pos <= next <= |s| && next == pos + IndexOf(s[pos..], ch)
      invariant Cutting(all, parts, s[pos..], ch, left)
      decreases |s| - pos
    {
      parts, pos, left, next := CutNext(s, ch, all, parts, pos, left, next);
    }
  }

  /** One turn of that loop. */
  method CutNext(s: Bytes, ch: Byte, ghost all: seq<Bytes>, parts: seq<Bytes>, pos: nat, left: nat, next: nat)
    returns (parts': seq<Bytes>, pos': nat, left': nat, next': nat)
    requires pos <= next < |s| && next == pos + IndexOf(s[pos..], ch) && left > 0
    requires Cutting(all, parts, s[pos..], ch, left)
    ensures pos < pos' <= next' <= |s| && next' == pos' + IndexOf(s[pos'..], ch) && left' == left - 1
    ensures Cutting(all, parts', s[pos'..], ch, left')
  {
    parts' := CutPiece(s, ch, all, parts, pos, left, next);
    left', pos' := left - 1, next + 1;
    next' := Find(s, ch, pos');
  }

  /** The piece before the separator is collected. */
  method CutPiece(s: Bytes, ch: Byte, ghost all: seq<Bytes>, parts: seq<Bytes>, pos: nat, ghost left: nat, next: nat)
    returns (parts': seq<Bytes>)
    requires pos <= next < |s| && next == pos + IndexOf(s[pos..], ch) && left > 0
    requires Cutting(all, parts, s[pos..], ch, left)
    ensures Cutting(all, parts', s[next + 1..], ch, left - 1)
  {
    CutGoesOn(all, parts, s, ch, left, pos, next);
    parts' := Collect(parts, s[pos..next]);
  }

  lemma PartsAt(s: Bytes, ch: Byte, head: Bytes, tail: Bytes)
    requires s == head + [ch] + tail && ch !in head
    ensures Parts(s, ch) == NonEmpty(head) + Parts(tail, ch)
  {
    IndexOfIs(s, ch, |head|);
    assert s[..|head|] == head && s[|head| + 1..] == tail;
  }

  /** Splitting distributes over the separator. */
  lemma {:induction false} PartsJoin(s: Bytes, ch: Byte, t: Bytes)
    ensures Parts(s + [ch] + t, ch) == Parts(s, ch) + Parts(t, ch)
    decreases |s|
  {
    var i := IndexOf(s, ch);
    if i == |s| {
      PartsAt(s + [ch] + t, ch, s, t);
    } else {
      var head, tail := s[..i], s[i + 1..];
      var rest := tail + [ch] + t;
      assert s == head + [ch] + tail;
      PartsAt(s, ch, head, tail);
      PartsAt(s + [ch] + t, ch, head, rest);
      PartsJoin(tail, ch, t);
      Associates(NonEmpty(head), Parts(tail, ch), Parts(t, ch));
    }
  }

  ghost predicate Free(s: Bytes, ch: Byte) {
    ch !in s
  }

  lemma PartsOfFree(s: Bytes, ch: Byte)
    requires Free(s, ch)
    ensures Parts(s, ch) == NonEmpty(s)
  {
    IndexOfIs(s, ch, |s|);
  }

  /** Every piece is non-empty and free of the separator. */
  lemma {:induction false} PartsAreClean(s: Bytes, ch: Byte)
    ensures forall i :: 0 <= i < |Parts(s, ch)| ==> Parts(s, ch)[i] != [] && Free(Parts(s, ch)[i], ch)
    decreases |s|
  {
    var i := IndexOf(s, ch);
    if i < |s| {
      PartsAreClean(s[i + 1..], ch);
    }
  }

  /** The pieces, each followed by one separator. */
  function Terminated(parts: seq<Bytes>, ch: Byte): Bytes {
    if parts == [] then [] else parts[0] + [ch] + Terminated(parts[1..], ch)
  }

  /** The count limits the cuts, not the pieces: after that many separators the rest is one piece, whatever it holds. */
  lemma {:induction false} CountLimitsCuts(parts: seq<Bytes>, ch: Byte, rest: Bytes)
    requires forall i :: 0 <= i < |parts| ==> parts[i] != [] && Free(parts[i], ch)
    ensures PartsUpTo(Terminated(parts, ch) + rest, ch, |parts|) == parts + NonEmpty(rest)
  {
    if parts == [] {
      assert Terminated(parts, ch) + rest == rest;
    } else {
      var tail := Terminated(parts[1..], ch) + rest;
      assert Terminated(parts, ch) + rest == parts[0] + [ch] + tail;
      PartsUpToAt(parts[0] + [ch] + tail, ch, parts[0], tail, |parts|);
      CountLimitsCuts(parts[1..], ch, rest);
      assert [parts[0]] + parts[1..] == parts;
      Associates([parts[0]], parts[1..], NonEmpty(rest));
    }
  }

  // ------------------------------------------------- joining

  function Run(ch: Byte, n: nat): Bytes {
    seq(n, i => ch)
  }

  /** The parts written one after the other, with gaps[i] separators before part i, and the last gap at the end. */
  function Join(ch: Byte, parts: seq<Bytes>, gaps: seq<nat>): Bytes
    requires |gaps| == |parts| + 1
  {
    Run(ch, gaps[0]) + (if parts == [] then [] else parts[0] + Join(ch, parts[1..], gaps[1..]))
  }

  /** At least one separator between two parts. */
  ghost predicate Separated(parts: seq<Bytes>, gaps: seq<nat>) {
    |gaps| == |parts| + 1 && forall i :: 0 < i < |parts| ==> gaps[i] > 0
  }

  ghost predicate Clean(parts: seq<Bytes>, ch: Byte) {
    forall i :: 0 <= i < |parts| ==> parts[i] != [] && Free(parts[i], ch)
  }

  lemma {:induction false} PartsAfterRun(ch: Byte, n: nat, t: Bytes)
    ensures Parts(Run(ch, n) + t, ch) == Parts(t, ch)
  {
    if n == 0 {
      assert Run(ch, 0) + t == t;
    } else {
      PartsAfterRun(ch, n - 1, t);
      RunStep(ch, n, t);
      PartsAt(Run(ch, n) + t, ch, [], Run(ch, n - 1) + t);
    }
  }

  lemma RunStep(ch: Byte, n: nat, t: Bytes)
    requires n > 0
    ensures Run(ch, n) + t == [] + [ch] + (Run(ch, n - 1) + t)
  {
    assert Run(ch, n) == [ch] + Run(ch, n - 1);
  }

  /** A part, one separator or the end, and whatever follows. */
  lemma PartThenGap(p: Bytes, ch: Byte, n: nat, t: Bytes)
    requires p != [] && Free(p, ch) && (n == 0 ==> t == [])
    ensures Parts(p + (Run(ch, n) + t), ch) == [p] + Parts(Run(ch, n) + t, ch)
  {
    if n == 0 {
      assert p + (Run(ch, n) + t) == p && Run(ch, n) + t == [];
      PartsOfFree(p, ch);
      PartsOfFree([], ch);
    } else {
      var rest := Run(ch, n - 1) + t;
      assert Run(ch, n) + t == [ch] + rest;
      assert p + ([ch] + rest) == p + [ch] + rest;
      PartsAt(p + [ch] + rest, ch, p, rest);
      PartsAfterRun(ch, n, t);
      PartsAfterRun(ch, n - 1, t);
    }
  }

  /** Splitting undoes joining, whatever the number of separators. */
  lemma {:induction false} PartsOfJoin(ch: Byte, parts: seq<Bytes>, gaps: seq<nat>)
    requires Separated(parts, gaps) && Clean(parts, ch)
    ensures Parts(Join(ch, parts, gaps), ch) == parts
  {
    if parts == [] {
      PartsAfterRun(ch, gaps[0], []);
      PartsOfFree([], ch);
    } else {
      var tail, rest := parts[1..], gaps[1..];
      var t := if tail == [] then [] else tail[0] + Join(ch, tail[1..], rest[1..]);
      assert Join(ch, tail, rest) == Run(ch, rest[0]) + t;
      PartsOfJoin(ch, tail, rest);
      PartThenGap(parts[0], ch, rest[0], t);
      PartsAfterRun(ch, gaps[0], parts[0] + Join(ch, tail, rest));
      assert [parts[0]] + tail == parts;
    }
  }

  // ------------------------------------------------- unescapeUrl

  datatype Decoded = Ok(text: Bytes) | Malformed

  function Prefixed(b: Byte, d: Decoded): Decoded {
    match d
    case Ok(text) => Ok([b] + text)
    case Malformed => Malformed
  }

  /** The text starts with a complete character: anything but a '%' that lacks its two digits. */
  predicate HeadOk(s: Bytes) {
    s != [] && (s[0] == PERCENT ==> |s| > 2 && IsHex(s[1]) && IsHex(s[2]))
  }

  function HeadSize(s: Bytes): nat
    requires HeadOk(s)
  {
    if s[0] == PERCENT then 3 else 1
  }

  function HeadByte(s: Bytes): Byte
    requires HeadOk(s)
  {
    if s[0] == PERCENT then 16 * FromHex(s[1]) + FromHex(s[2]) else if s[0] == PLUS then SPACE else s[0]
  }

  /** unescapeUrl as a function; Malformed is the thrown invalid_argument. */
  function Unescape(s: Bytes): Decoded
    decreases |s|
  {
    if s == [] then Ok([])
    else if !HeadOk(s) then Malformed
    else Prefixed(HeadByte(s), Unescape(s[HeadSize(s)..]))
  }

  function Joined(out: Bytes, d: Decoded): Decoded {
    match d
    case Ok(text) => Ok(out + text)
    case Malformed => Malformed
  }

  /** unescapeUrl. */
  method UnescapeUrl(s: Bytes) returns (r: Decoded)
    ensures r == Unescape(s)
  {
    var out: Bytes := [];
    var i := 0;
    assert s[0..] == s;
    while i < |s|
      invariant 0 <= i <= |s|
      invariant Unescape(s) == Joined(out, Unescape(s[i..]))
    {
      ghost var rest := s[i..];
      if HeadOk(rest) {
        JoinedPrefixed(out, HeadByte(rest), Unescape(rest[HeadSize(rest)..]));
        assert rest[HeadSize(rest)..] == s[i + HeadSize(rest)..];
      }
      if s[i] == PERCENT {
        if i + 2 < |s| {
          if !IsHex(s[i + 1]) || !IsHex(s[i + 2]) {
            return Malformed;
          }
          out := out + [16 * FromHex(s[i + 1]) + FromHex(s[i + 2])];
          i := i + 2;
        } else {
          return Malformed;
        }
      } else if s[i] == PLUS {
        out := out + [SPACE];
      } else {
        out := out + [s[i]];
      }
      i := i + 1;
    }
    r := Ok(out);
  }

  lemma JoinedPrefixed(out: Bytes, b: Byte, d: Decoded)
    ensures Joined(out, Prefixed(b, d)) == Joined(out + [b], d)
  {
    if d.Ok? {
      assert out + ([b] + d.text) == (out + [b]) + d.text;
    }
  }

  // ------------------------------------------------- every encoder

  /** One byte as an encoder may write it: raw, as '+' for a space, or as %XX in either case. */
  ghost predicate Codes(code: Bytes, b: Byte) {
    || (code == [b] && b != PERCENT && b != PLUS)
    || (code == [PLUS] && b == SPACE)
    || (|code| == 3 && code[0] == PERCENT && IsHex(code[1]) && IsHex(code[2])
        && 16 * FromHex(code[1]) + FromHex(code[2]) == b)
  }

  ghost predicate Encodes(codes: seq<Bytes>, text: Bytes) {
    |codes| == |text| && forall i :: 0 <= i < |text| ==> Codes(codes[i], text[i])
  }

  /** Decoding distributes over concatenation after well-formed text. */
  lemma {:induction false} UnescapeAppend(a: Bytes, b: Bytes)
    requires Unescape(a).Ok?
    ensures Unescape(a + b) == Joined(Unescape(a).text, Unescape(b))
    decreases |a|
  {
    if a == [] {
      assert a + b == b;
    } else {
      var n := HeadSize(a);
      assert HeadOk(a + b) && HeadSize(a + b) == n && HeadByte(a + b) == HeadByte(a);
      assert (a + b)[n..] == a[n..] + b;
      UnescapeAppend(a[n..], b);
      PrefixedJoined(HeadByte(a), Unescape(a[n..]).text, Unescape(b));
    }
  }

  lemma PrefixedJoined(b: Byte, out: Bytes, d: Decoded)
    ensures Prefixed(b, Joined(out, d)) == Joined([b] + out, d)
  {
    if d.Ok? {
      assert [b] + (out + d.text) == ([b] + out) + d.text;
    }
  }

  /** unescapeUrl inverts every encoder. */
  lemma {:induction false} UnescapeInverts(codes: seq<Bytes>, text: Bytes)
    requires Encodes(codes, text)
    ensures Unescape(Flatten(codes)) == Ok(text)
  {
    if codes != [] {
      UnescapeInverts(codes[1..], text[1..]);
      UnescapeAppend(codes[0], Flatten(codes[1..]));
      assert [text[0]] + text[1..] == text;
    }
  }

  /** And it accepts nothing else: whatever decodes to text is some encoding of text. */
  lemma {:induction false} DecodableIsEncoded(s: Bytes, text: Bytes) returns (codes: seq<Bytes>)
    requires Unescape(s) == Ok(text)
    ensures Encodes(codes, text) && Flatten(codes) == s
    decreases |s|
  {
    if s == [] {
      codes := [];
    } else {
      var n := HeadSize(s);
      var rest := DecodableIsEncoded(s[n..], text[1..]);
      codes := [s[..n]] + rest;
      assert codes[1..] == rest;
      assert s[..n] + s[n..] == s;
      assert Codes(s[..n], text[0]);
    }
  }

  function HexLetter(d: nat, upper: bool): Byte
    requires d < 16
  {
    if d < 10 then 48 + d else if upper then 55 + d else 87 + d
  }

  /** Every byte can be written with a percent sign and two hexadecimal digits of either case. */
  lemma EveryByteEscapes(b: Byte, upper: bool)
    ensures Unescape([PERCENT, HexLetter(b as nat / 16, upper), HexLetter(b as nat % 16, upper)]) == Ok([b])
  {
    var code := [PERCENT, HexLetter(b as nat / 16, upper), HexLetter(b as nat % 16, upper)];
    assert Codes(code, b);
    assert Flatten([code]) == code + Flatten([code][1..]);
    UnescapeInverts([code], [b]);
  }
}
