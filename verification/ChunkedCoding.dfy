/**
  The chunked transfer coding: what ChunkedStream prints, and a decoder for the format of
  section 4.1 of RFC 7230 (without extensions and trailers, which are never printed).
*/
module ChunkedCoding {
  import opened ByteStrings

  const CRLF: Bytes := [CR, LF]
  const END_OF_CHUNKED_STREAM: Bytes := [48, CR, LF, CR, LF]

  // ---------------------------------------------------------------- hexadecimal sizes

  function HexDigit(d: nat): Byte
    requires d < 16
  {
    if d < 10 then 48 + d else 87 + d
  }

  /** What `std::hex << n` prints: lower case, no leading zeros. */
  function Hex(n: nat): Bytes {
    if n < 16 then [HexDigit(n)] else Hex(n / 16) + [HexDigit(n % 16)]
  }

  datatype ParsedSize = ParsedSize(size: nat, rest: Bytes)

  /** Reads the longest run of hexadecimal digits at the front of s. */
  function ParseHex(s: Bytes, acc: nat): (p: ParsedSize)
    ensures |p.rest| <= |s|
    ensures s != [] && IsHex(s[0]) ==> |p.rest| < |s|
  {
    if s == [] || !IsHex(s[0]) then ParsedSize(acc, s)
    else ParseHex(s[1..], 16 * acc + FromHex(s[0]))
  }

  /** The number whose hexadecimal digits are those of acc followed by those Hex(n) prints. */
  function AppendDigits(acc: nat, n: nat): nat {
    if n < 16 then 16 * acc + n else 16 * AppendDigits(acc, n / 16) + n % 16
  }

  lemma {:induction false} AppendToZero(n: nat)
    ensures AppendDigits(0, n) == n
  {
    if n >= 16 {
      AppendToZero(n / 16);
    }
  }

  lemma {:induction false} HexIsDigits(n: nat)
    ensures Hex(n) != [] && forall i :: 0 <= i < |Hex(n)| ==> IsHex(Hex(n)[i])
  {
    if n >= 16 {
      HexIsDigits(n / 16);
    }
  }

  lemma {:induction false} ParseHexThrough(n: nat, acc: nat, t: Bytes)
    ensures ParseHex(Hex(n) + t, acc) == ParseHex(t, AppendDigits(acc, n))
  {
    if n < 16 {
      assert Hex(n) + t == [HexDigit(n)] + t;
    } else {
      var d := [HexDigit(n % 16)];
      assert Hex(n) + t == Hex(n / 16) + (d + t);
      ParseHexThrough(n / 16, acc, d + t);
    }
  }

  /** Parsing inverts printing, for every size. */
  lemma ParseHexOfHex(n: nat, t: Bytes)
    requires t == [] || !IsHex(t[0])
    ensures ParseHex(Hex(n) + t, 0) == ParsedSize(n, t)
  {
    ParseHexThrough(n, 0, t);
    AppendToZero(n);
  }

  /** As std::hex prints: digits and lower-case letters only, and no leading zero. */
  lemma {:induction false} HexIsPlain(n: nat)
    ensures forall i :: 0 <= i < |Hex(n)| ==> 48 <= Hex(n)[i] <= 57 || 97 <= Hex(n)[i] <= 102
    ensures Hex(n) != [] && (n > 0 ==> Hex(n)[0] != 48) && (n == 0 ==> Hex(n) == [48])
  {
    if n >= 16 {
      HexIsPlain(n / 16);
    }
  }

  // ---------------------------------------------------------------- the coding

  function Chunk(payload: Bytes): Bytes {
    Hex(|payload|) + CRLF + payload + CRLF
  }

  /** The wire image of a list of chunk payloads, before the terminator. */
  function Chunks(payloads: seq<Bytes>): Bytes {
    if payloads == [] then [] else Chunk(payloads[0]) + Chunks(payloads[1..])
  }

  datatype Decoded = Malformed | Decoded(payload: Bytes, rest: Bytes)

  predicate StartsWithCrlf(s: Bytes) {
    |s| >= 2 && s[0] == CR && s[1] == LF
  }

  function Prefixed(payload: Bytes, d: Decoded): Decoded {
    match d
    case Malformed => Malformed
    case Decoded(more, rest) => Decoded(payload + more, rest)
  }

  /** Decodes one chunked body at the front of s; what follows the body is the rest. */
  function Decode(s: Bytes): Decoded
    decreases |s|
  {
    if s == [] || !IsHex(s[0]) then Malformed else
    var head := ParseHex(s, 0);
    if !StartsWithCrlf(head.rest) then Malformed else
    var body := head.rest[2..];
    if head.size == 0 then
      if StartsWithCrlf(body) then Decoded([], body[2..]) else Malformed
    else if |body| < head.size || !StartsWithCrlf(body[head.size..]) then Malformed
    else
      Prefixed(body[..head.size], Decode(body[head.size..][2..]))
  }

  lemma DecodeChunk(payload: Bytes, t: Bytes)
    requires payload != []
    ensures Decode(Chunk(payload) + t) == Prefixed(payload, Decode(t))
  {
    var s := Chunk(payload) + t;
    var afterSize := CRLF + (payload + (CRLF + t));
    HexIsDigits(|payload|);
    assert s == Hex(|payload|) + afterSize;
    assert s[0] == Hex(|payload|)[0];
    ParseHexOfHex(|payload|, afterSize);
  }

  lemma DecodeEnd(rest: Bytes)
    ensures Decode(END_OF_CHUNKED_STREAM + rest) == Decoded([], rest)
  {
    var s := END_OF_CHUNKED_STREAM + rest;
    var t := CRLF + CRLF + rest;
    assert Hex(0) == [48];
    assert s == Hex(0) + t;
    ParseHexOfHex(0, t);
    assert t[2..] == CRLF + rest && (CRLF + rest)[2..] == rest;
  }

  /**
    The coding is self-delimiting: whatever the payloads contain and whatever follows, the
    decoder recovers exactly the payload bytes and leaves exactly what follows.
  */
  lemma {:induction false} DecodeChunks(payloads: seq<Bytes>, rest: Bytes)
    requires forall i :: 0 <= i < |payloads| ==> payloads[i] != []
    ensures Decode(Chunks(payloads) + END_OF_CHUNKED_STREAM + rest) == Decoded(Flatten(payloads), rest)
  {
    if payloads == [] {
      assert Chunks(payloads) + END_OF_CHUNKED_STREAM + rest == END_OF_CHUNKED_STREAM + rest;
      DecodeEnd(rest);
    } else {
      var t := Chunks(payloads[1..]) + END_OF_CHUNKED_STREAM + rest;
      assert Chunks(payloads) + END_OF_CHUNKED_STREAM + rest == Chunk(payloads[0]) + t;
      DecodeChunk(payloads[0], t);
      DecodeChunks(payloads[1..], rest);
    }
  }

  lemma {:induction false} ChunksSnoc(payloads: seq<Bytes>, p: Bytes)
    ensures Chunks(payloads + [p]) == Chunks(payloads) + Chunk(p)
  {
    if payloads == [] {
      assert payloads + [p] == [p] && [p][1..] == [];
      assert Chunks([p]) == Chunk(p) + Chunks([]);
    } else {
      assert (payloads + [p])[1..] == payloads[1..] + [p];
      ChunksSnoc(payloads[1..], p);
    }
  }
}
