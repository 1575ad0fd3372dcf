/** The query part of a URL: how createHandler parses it, and that it inverts every printer. */
module QueryStrings {
  import opened ByteStrings
  import opened UrlText

  const AMPERSAND: Byte := 38
  const EQUALS: Byte := 61

  type Pairs = seq<(Bytes, Bytes)>

  /** BadQuery is the 400 response; BadEscape the invalid_argument of unescapeUrl. */
  datatype Result<T> = Good(value: T) | BadQuery | BadEscape

  function ParsePair(pair: Bytes): Result<(Bytes, Bytes)> {
    var kv := Parts(pair, EQUALS);
    if |kv| == 1 then
      if Unescape(kv[0]).Ok? then Good((Unescape(kv[0]).text, [])) else BadEscape
    else if |kv| == 2 then
      if Unescape(kv[0]).Ok? && Unescape(kv[1]).Ok? then Good((Unescape(kv[0]).text, Unescape(kv[1]).text))
      else BadEscape
    else BadQuery
  }

  /** The pairs in order; the first one that fails decides the error. */
  function ParsePairs(parts: seq<Bytes>): Result<Pairs> {
    if parts == [] then Good([])
    else
      match ParsePairs(parts[..|parts| - 1])
      case BadQuery => BadQuery
      case BadEscape => BadEscape
      case Good(pairs) =>
        match ParsePair(parts[|parts| - 1])
        case BadQuery => BadQuery
        case BadEscape => BadEscape
        case Good(pair) => Good(pairs + [pair])
  }

  function ParseQuery(query: Bytes): Result<Pairs> {
    ParsePairs(Parts(query, AMPERSAND))
  }

  method ParseOne(kvPair: Bytes) returns (r: Result<(Bytes, Bytes)>)
    ensures r == ParsePair(kvPair)
  {
    UnlimitedParts(kvPair, EQUALS, |kvPair|);
    var kv := Split(kvPair, EQUALS, |kvPair|);
    if |kv| == 1 {
      var key := UnescapeUrl(kv[0]);
      r := if key.Ok? then Good((key.text, [])) else BadEscape;
    } else if |kv| == 2 {
      var key := UnescapeUrl(kv[0]);
      var value := UnescapeUrl(kv[1]);
      r := if key.Ok? && value.Ok? then Good((key.text, value.text)) else BadEscape;
    } else {
      r := BadQuery;
    }
  }

  /** The loop over the key-value pairs of createHandler. */
  method Parse(query: Bytes) returns (r: Result<Pairs>)
    ensures r == ParseQuery(query)
  {
    UnlimitedParts(query, AMPERSAND, |query|);
    var parts := Split(query, AMPERSAND, |query|);
    var pairs: Pairs := [];
    for i := 0 to |parts|
      invariant ParsePairs(parts[..i]) == Good(pairs)
    {
      assert parts[..i + 1][..i] == parts[..i];
      var pair := ParseOne(parts[i]);
      if !pair.Good? {
        FailureStays(parts, i + 1);
        return if pair.BadQuery? then BadQuery else BadEscape;
      }
      pairs := pairs + [pair.value];
    }
    assert parts[..|parts|] == parts;
    r := Good(pairs);
  }

  lemma {:induction false} FailureStays(parts: seq<Bytes>, n: nat)
    requires n <= |parts| && !ParsePairs(parts[..n]).Good?
    ensures ParsePairs(parts) == ParsePairs(parts[..n])
  {
    if n < |parts| {
      var init := parts[..|parts| - 1];
      assert init[..n] == parts[..n];
      FailureStays(init, n);
    } else {
      assert parts[..n] == parts;
    }
  }

  // ------------------------------------------------- printing

  /** How a printer wrote one pair: its encodings, and whether an empty value still got its '='. */
  datatype Written = Written(key: seq<Bytes>, value: seq<Bytes>, equals: bool)

  function PrintPair(w: Written): Bytes {
    Flatten(w.key) + (if w.value == [] && !w.equals then [] else [EQUALS] + Flatten(w.value))
  }

  ghost predicate Escaped(codes: seq<Bytes>) {
    forall i :: 0 <= i < |codes| ==> Free(codes[i], AMPERSAND) && Free(codes[i], EQUALS)
  }

  /** w writes the pair with at least '%', '+', '&' and '=' escaped. */
  ghost predicate Writes(w: Written, pair: (Bytes, Bytes)) {
    && Encodes(w.key, pair.0) && Encodes(w.value, pair.1)
    && Escaped(w.key) && Escaped(w.value)
  }

  function PrintPairs(ws: seq<Written>): (texts: seq<Bytes>)
    ensures |texts| == |ws| && forall i :: 0 <= i < |ws| ==> texts[i] == PrintPair(ws[i])
  {
    seq(|ws|, i requires 0 <= i < |ws| => PrintPair(ws[i]))
  }

  /** A query string: the pairs, separated by any positive number of '&'. */
  function PrintQuery(ws: seq<Written>, gaps: seq<nat>): Bytes
    requires |gaps| == |ws| + 1
  {
    Join(AMPERSAND, PrintPairs(ws), gaps)
  }

  lemma {:induction false} FlattenFree(codes: seq<Bytes>)
    requires Escaped(codes)
    ensures Free(Flatten(codes), AMPERSAND) && Free(Flatten(codes), EQUALS)
  {
    if codes != [] {
      FlattenFree(codes[1..]);
    }
  }

  lemma {:induction false} EncodedLength(codes: seq<Bytes>, text: Bytes)
    requires Encodes(codes, text)
    ensures Flatten(codes) == [] <==> text == []
  {
    if codes != [] {
      assert Codes(codes[0], text[0]);
    }
  }

  lemma PrintPairSplits(w: Written, pair: (Bytes, Bytes))
    requires Writes(w, pair) && pair.0 != []
    ensures Parts(PrintPair(w), EQUALS) == [Flatten(w.key)] + NonEmpty(Flatten(w.value))
  {
    var k, v := Flatten(w.key), Flatten(w.value);
    FlattenFree(w.key);
    FlattenFree(w.value);
    EncodedLength(w.key, pair.0);
    PartsOfFree(k, EQUALS);
    PartsOfFree(v, EQUALS);
    if w.value == [] && !w.equals {
      assert PrintPair(w) == k;
    } else {
      assert PrintPair(w) == k + [EQUALS] + v;
      PartsJoin(k, EQUALS, v);
    }
  }

  lemma PairRoundTrip(w: Written, pair: (Bytes, Bytes))
    requires Writes(w, pair) && pair.0 != []
    ensures ParsePair(PrintPair(w)) == Good(pair)
    ensures PrintPair(w) != [] && Free(PrintPair(w), AMPERSAND)
  {
    PrintPairSplits(w, pair);
    FlattenFree(w.key);
    FlattenFree(w.value);
    EncodedLength(w.key, pair.0);
    EncodedLength(w.value, pair.1);
    UnescapeInverts(w.key, pair.0);
    UnescapeInverts(w.value, pair.1);
  }

  lemma {:induction false} PairsParse(texts: seq<Bytes>, pairs: Pairs)
    requires |texts| == |pairs| && forall i :: 0 <= i < |texts| ==> ParsePair(texts[i]) == Good(pairs[i])
    ensures ParsePairs(texts) == Good(pairs)
  {
    if texts != [] {
      var n := |texts| - 1;
      PairsParse(texts[..n], pairs[..n]);
      assert pairs[..n] + [pairs[n]] == pairs;
    }
  }

  /**
    Printing and then parsing gives the same pairs in the same order, for all pairs with a
    non-empty key, every encoder that escapes '%', '+', '&' and '=', and any extra '&'.
  */
  lemma QueryRoundTrip(ws: seq<Written>, pairs: Pairs, gaps: seq<nat>)
    requires |ws| == |pairs| && Separated(PrintPairs(ws), gaps)
    requires forall i :: 0 <= i < |ws| ==> Writes(ws[i], pairs[i]) && pairs[i].0 != []
    ensures ParseQuery(PrintQuery(ws, gaps)) == Good(pairs)
  {
    var texts := PrintPairs(ws);
    forall i | 0 <= i < |texts|
      ensures texts[i] != [] && Free(texts[i], AMPERSAND) && ParsePair(texts[i]) == Good(pairs[i])
    {
      PairRoundTrip(ws[i], pairs[i]);
    }
    PartsOfJoin(AMPERSAND, texts, gaps);
    PairsParse(texts, pairs);
  }

  lemma EmptyKeySplits(w: Written, pair: (Bytes, Bytes))
    requires Writes(w, pair) && pair.0 == []
    ensures Parts(PrintPair(w), EQUALS) == NonEmpty(Flatten(w.value))
  {
    var v := Flatten(w.value);
    FlattenFree(w.value);
    PartsOfFree([], EQUALS);
    PartsOfFree(v, EQUALS);
    if w.value == [] && !w.equals {
      assert PrintPair(w) == [];
    } else {
      assert PrintPair(w) == [] + [EQUALS] + v;
      PartsJoin([], EQUALS, v);
      assert [] + NonEmpty(v) == NonEmpty(v);
    }
  }

  /** The hypothesis is exact: a pair comes back if and only if its key is not empty. */
  lemma PairRoundTripIff(w: Written, pair: (Bytes, Bytes))
    requires Writes(w, pair)
    ensures ParsePair(PrintPair(w)) == Good(pair) <==> pair.0 != []
  {
    if pair.0 != [] {
      PairRoundTrip(w, pair);
    } else {
      EmptyKeySplits(w, pair);
      EncodedLength(w.value, pair.1);
      UnescapeInverts(w.value, pair.1);
    }
  }

  lemma ParsedKeyIsNotEmpty(piece: Bytes)
    requires ParsePair(piece).Good?
    ensures ParsePair(piece).value.0 != []
  {
    PartsAreClean(piece, EQUALS);
    assert Parts(piece, EQUALS)[0] != [];
  }

  lemma {:induction false} ParsedKeysAreNotEmpty(parts: seq<Bytes>, i: nat)
    requires ParsePairs(parts).Good? && i < |ParsePairs(parts).value|
    ensures ParsePairs(parts).value[i].0 != []
  {
    var n := |parts| - 1;
    ParsedKeyIsNotEmpty(parts[n]);
    if i < |ParsePairs(parts[..n]).value| {
      ParsedKeysAreNotEmpty(parts[..n], i);
    }
  }

  /** And so for whole queries: the pairs come back if and only if no key is empty. */
  lemma QueryRoundTripIff(ws: seq<Written>, pairs: Pairs, gaps: seq<nat>)
    requires |ws| == |pairs| && Separated(PrintPairs(ws), gaps)
    requires forall i :: 0 <= i < |ws| ==> Writes(ws[i], pairs[i])
    ensures ParseQuery(PrintQuery(ws, gaps)) == Good(pairs) <==> forall i :: 0 <= i < |pairs| ==> pairs[i].0 != []
  {
    if forall i :: 0 <= i < |pairs| ==> pairs[i].0 != [] {
      QueryRoundTrip(ws, pairs, gaps);
    }
    if ParseQuery(PrintQuery(ws, gaps)) == Good(pairs) {
      forall i | 0 <= i < |pairs|
        ensures pairs[i].0 != []
      {
        ParsedKeysAreNotEmpty(Parts(PrintQuery(ws, gaps), AMPERSAND), i);
      }
    }
  }

  // ------------------------------------------------- which queries fail, and how

  /** Neither a key alone nor a key and a value. */
  predicate WrongCount(pair: Bytes) {
    |Parts(pair, EQUALS)| == 0 || |Parts(pair, EQUALS)| > 2
  }

  ghost predicate Decodes(pair: Bytes) {
    !WrongCount(pair) && forall i :: 0 <= i < |Parts(pair, EQUALS)| ==> Unescape(Parts(pair, EQUALS)[i]).Ok?
  }

  lemma ParsePairIs(pair: Bytes)
    ensures ParsePair(pair).BadQuery? <==> WrongCount(pair)
    ensures ParsePair(pair).Good? <==> Decodes(pair)
  {
    var kv := Parts(pair, EQUALS);
    assert |kv| == 1 ==> (Unescape(kv[0]).Ok? <==> forall i :: 0 <= i < |kv| ==> Unescape(kv[i]).Ok?);
  }

  /** The first n parts decode and the next one does not. */
  ghost predicate FirstBad(parts: seq<Bytes>, n: nat) {
    n < |parts| && !Decodes(parts[n]) && forall i :: 0 <= i < n ==> Decodes(parts[i])
  }

  lemma {:induction false} PartsFailAt(parts: seq<Bytes>, n: nat)
    requires FirstBad(parts, n)
    ensures if WrongCount(parts[n]) then ParsePairs(parts).BadQuery? else ParsePairs(parts).BadEscape?
    decreases |parts|
  {
    var m := |parts| - 1;
    ParsePairIs(parts[m]);
    if n < m {
      PartsFailAt(parts[..m], n);
    } else {
      PartsGood(parts[..m]);
    }
  }

  lemma {:induction false} PartsGood(parts: seq<Bytes>)
    requires forall i :: 0 <= i < |parts| ==> Decodes(parts[i])
    ensures ParsePairs(parts).Good? && |ParsePairs(parts).value| == |parts|
  {
    if parts != [] {
      var m := |parts| - 1;
      PartsGood(parts[..m]);
      ParsePairIs(parts[m]);
    }
  }

  lemma {:induction false} FindBad(parts: seq<Bytes>) returns (n: nat)
    ensures n <= |parts| && forall i :: 0 <= i < n ==> Decodes(parts[i])
    ensures n < |parts| ==> FirstBad(parts, n)
  {
    if parts == [] {
      n := 0;
    } else {
      var m := |parts| - 1;
      n := FindBad(parts[..m]);
      if n == m && Decodes(parts[m]) {
        n := |parts|;
      }
    }
  }

  /** Some part does not decode, all before it do, and it is of the wrong count or not. */
  ghost predicate Fails(parts: seq<Bytes>, wrongCount: bool) {
    exists n: nat :: FirstBad(parts, n) && WrongCount(parts[n]) == wrongCount
  }

  lemma PartsFail(parts: seq<Bytes>, wrongCount: bool)
    requires Fails(parts, wrongCount)
    ensures if wrongCount then ParsePairs(parts).BadQuery? else ParsePairs(parts).BadEscape?
  {
    var n: nat :| FirstBad(parts, n) && WrongCount(parts[n]) == wrongCount;
    PartsFailAt(parts, n);
  }

  lemma PartsFailOrGood(parts: seq<Bytes>)
    ensures Fails(parts, true) || Fails(parts, false) || ParsePairs(parts).Good?
  {
    var n := FindBad(parts);
    if n < |parts| {
      assert FirstBad(parts, n);
    } else {
      PartsGood(parts);
    }
  }

  /** A query fails exactly with the error of its first pair that does not decode. */
  lemma QueryFailsIff(query: Bytes)
    ensures ParseQuery(query).BadQuery? <==> Fails(Parts(query, AMPERSAND), true)
    ensures ParseQuery(query).BadEscape? <==> Fails(Parts(query, AMPERSAND), false)
  {
    var parts := Parts(query, AMPERSAND);
    PartsFailOrGood(parts);
    if Fails(parts, true) {
      PartsFail(parts, true);
    }
    if Fails(parts, false) {
      PartsFail(parts, false);
    }
  }
}
