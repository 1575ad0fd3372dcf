/** Route patterns and first-match dispatch, as functions of values. */
module Routes {
  import opened Basics
  import opened ByteStrings
  import opened UrlText
  import Query = QueryStrings

  const SLASH: Byte := 47
  const QUESTION: Byte := 63
  const OPEN_BRACE: Byte := 123
  const CLOSE_BRACE: Byte := 125

  // ------------------------------------------------- patterns

  datatype Part = Capture(name: Bytes) | Literal(text: Bytes)

  type Pattern = seq<Part>

  /** None is the 400 response for a piece shorter than two characters. */
  function PartOf(piece: Bytes): Option<Part> {
    if |piece| < 2 then None
    else if piece[0] == OPEN_BRACE && piece[|piece| - 1] == CLOSE_BRACE
    then Some(Capture(piece[1..|piece| - 1]))
    else Some(Literal(piece))
  }

  function PartsOfPieces(pieces: seq<Bytes>): Option<Pattern> {
    if pieces == [] then Some([])
    else OneMore(PartsOfPieces(pieces[..|pieces| - 1]), PartOf(pieces[|pieces| - 1]))
  }

  function OneMore(init: Option<Pattern>, last: Option<Part>): Option<Pattern> {
    if init.Some? && last.Some? then Some(init.value + [last.value]) else None
  }

  function PatternOf(route: Bytes): Option<Pattern> {
    PartsOfPieces(Parts(route, SLASH))
  }

  // ------------------------------------------------- the text of a pattern

  function PrintPart(part: Part): Bytes {
    match part
    case Capture(name) => [OPEN_BRACE] + name + [CLOSE_BRACE]
    case Literal(text) => text
  }

  function PrintParts(pattern: Pattern): (pieces: seq<Bytes>)
    ensures |pieces| == |pattern| && forall i :: 0 <= i < |pattern| ==> pieces[i] == PrintPart(pattern[i])
  {
    seq(|pattern|, i requires 0 <= i < |pattern| => PrintPart(pattern[i]))
  }

  /** A literal has two characters at least and is not put in braces; a capture may have any name. */
  predicate Printable(part: Part) {
    part.Literal? ==>
      var t := part.text;
      |t| >= 2 && !(t[0] == OPEN_BRACE && t[|t| - 1] == CLOSE_BRACE)
  }

  ghost predicate AllPrintable(pattern: Pattern) {
    forall i :: 0 <= i < |pattern| ==> Printable(pattern[i])
  }

  lemma PartOfIff(piece: Bytes, part: Part)
    ensures PartOf(piece) == Some(part) <==> Printable(part) && PrintPart(part) == piece
  {
    if |piece| >= 2 && piece[0] == OPEN_BRACE && piece[|piece| - 1] == CLOSE_BRACE {
      assert piece == [OPEN_BRACE] + piece[1..|piece| - 1] + [CLOSE_BRACE];
    }
    if part.Capture? && PrintPart(part) == piece {
      assert piece[1..|piece| - 1] == part.name;
    }
  }

  lemma {:induction false} PartsOfPiecesIff(pieces: seq<Bytes>, pattern: Pattern)
    ensures PartsOfPieces(pieces) == Some(pattern) <==> AllPrintable(pattern) && PrintParts(pattern) == pieces
    decreases |pieces| + |pattern|
  {
    if pieces != [] && pattern != [] {
      var n, m := |pieces| - 1, |pattern| - 1;
      PartsOfPiecesIff(pieces[..n], pattern[..m]);
      PartOfIff(pieces[n], pattern[m]);
      TakeSnoc(pattern, m);
      TakeSnoc(pieces, n);
      assert pattern[..m + 1] == pattern && pieces[..n + 1] == pieces;
      SnocEquals(PrintParts(pattern[..m]), PrintPart(pattern[m]), pieces[..n], pieces[n]);
    }
  }

  /** A route text has exactly the pattern whose printed parts are its pieces. */
  lemma PatternOfIff(route: Bytes, pattern: Pattern)
    ensures PatternOf(route) == Some(pattern) <==> AllPrintable(pattern) && PrintParts(pattern) == Parts(route, SLASH)
  {
    PartsOfPiecesIff(Parts(route, SLASH), pattern);
  }

  ghost predicate HasShort(pieces: seq<Bytes>) {
    exists i :: 0 <= i < |pieces| && |pieces[i]| < 2
  }

  lemma {:induction false} PiecesRefusedIff(pieces: seq<Bytes>)
    ensures PartsOfPieces(pieces).None? <==> HasShort(pieces)
  {
    if pieces != [] {
      var n := |pieces| - 1;
      PiecesRefusedIff(pieces[..n]);
      assert forall i :: 0 <= i < n ==> pieces[..n][i] == pieces[i];
    }
  }

  /** And is refused exactly when one of its pieces is shorter than two characters. */
  lemma RefusedIff(route: Bytes)
    ensures PatternOf(route).None? <==> HasShort(Parts(route, SLASH))
  {
    PiecesRefusedIff(Parts(route, SLASH));
  }

  /** A printed pattern is read back, whatever the number of slashes. */
  lemma RouteRoundTrip(pattern: Pattern, gaps: seq<nat>)
    requires AllPrintable(pattern) && Separated(PrintParts(pattern), gaps)
    requires forall i :: 0 <= i < |pattern| ==> Free(PrintPart(pattern[i]), SLASH)
    ensures PatternOf(Join(SLASH, PrintParts(pattern), gaps)) == Some(pattern)
  {
    PartsOfJoin(SLASH, PrintParts(pattern), gaps);
    PatternOfIff(Join(SLASH, PrintParts(pattern), gaps), pattern);
  }

  predicate PartMatches(part: Part, piece: Bytes) {
    part.Literal? ==> part.text == piece
  }

  predicate Matches(pattern: Pattern, pieces: seq<Bytes>) {
    |pattern| == |pieces| && forall i :: 0 <= i < |pieces| ==> PartMatches(pattern[i], pieces[i])
  }

  type Captures = map<Bytes, Bytes>

  /** Later captures of the same name overwrite earlier ones. */
  function CapturesOf(pattern: Pattern, pieces: seq<Bytes>): Captures
    requires |pattern| == |pieces|
  {
    if pattern == [] then map[]
    else
      var n := |pattern| - 1;
      var earlier := CapturesOf(pattern[..n], pieces[..n]);
      if pattern[n].Capture? then earlier[pattern[n].name := pieces[n]] else earlier
  }

  // ------------------------------------------------- dispatch

  type Handler = nat

  datatype Route = Route(pattern: Pattern, methods: map<string, Handler>, allMethods: string)

  datatype Outcome =
    | NotFound
    | MethodNotAllowed(allow: string)
    | BadQuery
    | BadEscape
    | Handle(handler: Handler, captures: Captures, query: Query.Pairs, allMethods: string)

  /** The index of the first route whose pattern matches, or |routes|. */
  function FirstMatch(routes: seq<Route>, pieces: seq<Bytes>): (i: nat)
    ensures i <= |routes|
    ensures i < |routes| ==> Matches(routes[i].pattern, pieces)
    ensures forall j :: 0 <= j < i ==> !Matches(routes[j].pattern, pieces)
  {
    if routes == [] || Matches(routes[0].pattern, pieces) then 0
    else
      var i := FirstMatch(routes[1..], pieces);
      assert forall j :: 0 < j <= i ==> (j < |routes| ==> routes[j] == routes[1..][j - 1]);
      1 + i
  }

  /** What the first matching route answers; nothing else of the table is looked at. */
  function Answer(route: Route, pieces: seq<Bytes>, query: Option<Bytes>, verb: string): Outcome
    requires Matches(route.pattern, pieces)
  {
    if verb !in route.methods then MethodNotAllowed(route.allMethods)
    else
      var parsed := if query.Some? then Query.ParseQuery(query.value) else Query.Good([]);
      match parsed
      case BadQuery => BadQuery
      case BadEscape => BadEscape
      case Good(pairs) => Handle(route.methods[verb], CapturesOf(route.pattern, pieces), pairs, route.allMethods)
  }

  function DispatchPieces(routes: seq<Route>, pieces: seq<Bytes>, query: Option<Bytes>, verb: string): Outcome {
    var i := FirstMatch(routes, pieces);
    if i < |routes| then Answer(routes[i], pieces, query, verb) else NotFound
  }

  /** The path before the first '?', and the query after it. */
  function PathOf(url: Bytes): Bytes {
    url[..IndexOf(url, QUESTION)]
  }

  function QueryOf(url: Bytes): Option<Bytes> {
    var q := IndexOf(url, QUESTION);
    if q < |url| then Some(url[q + 1..]) else None
  }

  /** RestfulRouter::createHandler. */
  function Dispatch(base: seq<Bytes>, routes: seq<Route>, url: Bytes, verb: string): Outcome {
    var pieces := Parts(PathOf(url), SLASH);
    if |pieces| < |base| + 1 || pieces[..|base|] != base then NotFound
    else DispatchPieces(routes, pieces[|base|..], QueryOf(url), verb)
  }

  // ------------------------------------------------- first match wins

  lemma FirstMatchIs(routes: seq<Route>, pieces: seq<Bytes>, i: nat)
    requires i < |routes| && Matches(routes[i].pattern, pieces)
    requires forall j :: 0 <= j < i ==> !Matches(routes[j].pattern, pieces)
    ensures FirstMatch(routes, pieces) == i
  {
  }

  /** Registering more routes never changes what an already matched URL gets. */
  lemma AppendingKeepsOutcome(base: seq<Bytes>, routes: seq<Route>, more: seq<Route>, url: Bytes, verb: string)
    requires Dispatch(base, routes, url, verb) != NotFound
    ensures Dispatch(base, routes + more, url, verb) == Dispatch(base, routes, url, verb)
  {
    var pieces := Parts(PathOf(url), SLASH)[|base|..];
    FirstMatchIs(routes + more, pieces, FirstMatch(routes, pieces));
  }

  /** What a piece of a URL path can be. */
  predicate IsPiece(p: Bytes) {
    p != [] && SLASH !in p && QUESTION !in p
  }

  predicate ArePieces(pieces: seq<Bytes>) {
    forall i :: 0 <= i < |pieces| ==> IsPiece(pieces[i])
  }

  /** A pattern some URL can match. */
  predicate Reachable(pattern: Pattern) {
    forall i :: 0 <= i < |pattern| && pattern[i].Literal? ==> IsPiece(pattern[i].text)
  }

  /** Every URL path one pattern matches is matched by the other. */
  ghost predicate Subsumes(a: Pattern, b: Pattern) {
    forall pieces: seq<Bytes> :: ArePieces(pieces) && Matches(b, pieces) ==> Matches(a, pieces)
  }

  /** The same, read off the two patterns. */
  predicate Covers(a: Pattern, b: Pattern) {
    |a| == |b| && forall i :: 0 <= i < |a| ==> a[i].Capture? || a[i] == b[i]
  }

  /** Pieces that b matches and that differ from every literal of a where b leaves them open. */
  function Witness(a: Pattern, b: Pattern): (pieces: seq<Bytes>)
    requires Reachable(a) && Reachable(b)
    ensures ArePieces(pieces) && Matches(b, pieces)
    ensures forall i :: 0 <= i < |a| && i < |b| && a[i].Literal? && b[i].Capture? ==> pieces[i] != a[i].text
  {
    seq(|b|, i requires 0 <= i < |b| =>
      if b[i].Literal? then b[i].text
      else if i < |a| && a[i].Literal? then a[i].text + [65] else [65])
  }

  lemma SubsumesIffCovers(a: Pattern, b: Pattern)
    requires Reachable(a) && Reachable(b)
    ensures Subsumes(a, b) <==> Covers(a, b)
  {
    if Subsumes(a, b) {
      var pieces := Witness(a, b);
      assert Matches(a, pieces);
      forall i | 0 <= i < |a|
        ensures a[i].Capture? || a[i] == b[i]
      {
        assert PartMatches(a[i], pieces[i]) && PartMatches(b[i], pieces[i]);
      }
    }
  }

  /** A route covered by an earlier one is never chosen. */
  lemma CoveredIsNeverChosen(routes: seq<Route>, i: nat, j: nat, pieces: seq<Bytes>)
    requires i < j < |routes| && Covers(routes[i].pattern, routes[j].pattern)
    ensures FirstMatch(routes, pieces) != j
  {
    var a, b := routes[i].pattern, routes[j].pattern;
    if Matches(b, pieces) {
      forall k | 0 <= k < |pieces|
        ensures PartMatches(a[k], pieces[k])
      {
        assert PartMatches(b[k], pieces[k]);
      }
    }
  }

  ghost predicate Overlap(a: Pattern, b: Pattern) {
    exists pieces: seq<Bytes> :: ArePieces(pieces) && Matches(a, pieces) && Matches(b, pieces)
  }

  predicate Compatible(a: Pattern, b: Pattern) {
    |a| == |b| && forall i :: 0 <= i < |a| ==> a[i].Capture? || b[i].Capture? || a[i] == b[i]
  }

  lemma OverlapIffCompatible(a: Pattern, b: Pattern)
    requires Reachable(a) && Reachable(b)
    ensures Overlap(a, b) <==> Compatible(a, b)
  {
    if Overlap(a, b) {
      var pieces: seq<Bytes> :| ArePieces(pieces) && Matches(a, pieces) && Matches(b, pieces);
    }
    if Compatible(a, b) {
      var pieces := seq(|a|, i requires 0 <= i < |a| =>
        if a[i].Literal? then a[i].text else if b[i].Literal? then b[i].text else [65]);
      assert ArePieces(pieces) && Matches(a, pieces) && Matches(b, pieces);
    }
  }

  /** No two different entries of the table can match the same pieces. */
  ghost predicate Unambiguous(routes: seq<Route>) {
    forall i, j :: 0 <= i < |routes| && 0 <= j < |routes| && routes[i] != routes[j] ==>
      !Compatible(routes[i].pattern, routes[j].pattern)
  }

  lemma SameMembers(a: seq<Route>, b: seq<Route>, r: Route)
    requires multiset(a) == multiset(b) && r in a
    ensures r in b
  {
    assert r in multiset(a);
  }

  /** Where the patterns cannot overlap, the order of registration does not matter. */
  lemma OrderDoesNotMatter(base: seq<Bytes>, a: seq<Route>, b: seq<Route>, url: Bytes, verb: string)
    requires multiset(a) == multiset(b) && Unambiguous(a)
    ensures Dispatch(base, a, url, verb) == Dispatch(base, b, url, verb)
  {
    var all := Parts(PathOf(url), SLASH);
    if |all| >= |base| + 1 && all[..|base|] == base {
      var pieces := all[|base|..];
      var i, j := FirstMatch(a, pieces), FirstMatch(b, pieces);
      if i < |a| {
        SameMembers(a, b, a[i]);
      }
      if j < |b| {
        SameMembers(b, a, b[j]);
      }
      assert i < |a| <==> j < |b|;
      if i < |a| {
        var k :| 0 <= k < |a| && a[k] == b[j];
      }
    }
  }

  // ------------------------------------------------- printed URLs

  /** The pieces a URL needs to reach a pattern with the given values, one value per part. */
  function Filled(pattern: Pattern, values: seq<Bytes>): (pieces: seq<Bytes>)
    requires |values| == |pattern|
    ensures |pieces| == |pattern|
    ensures forall i :: 0 <= i < |pieces| ==> pieces[i] == if pattern[i].Capture? then values[i] else pattern[i].text
  {
    seq(|pattern|, i requires 0 <= i < |pattern| => if pattern[i].Capture? then values[i] else pattern[i].text)
  }

  ghost predicate DistinctNames(pattern: Pattern) {
    forall i, j :: 0 <= i < j < |pattern| && pattern[i].Capture? && pattern[j].Capture? ==>
      pattern[i].name != pattern[j].name
  }

  /** The captures are exactly the values under their names. */
  ghost predicate CapturesAre(captures: Captures, pattern: Pattern, values: seq<Bytes>)
    requires |values| == |pattern|
  {
    && (forall i :: 0 <= i < |pattern| && pattern[i].Capture? ==>
          pattern[i].name in captures && captures[pattern[i].name] == values[i])
    && (forall name :: name in captures ==> exists i :: 0 <= i < |pattern| && pattern[i] == Capture(name))
  }

  lemma {:induction false} CapturesOfFilled(pattern: Pattern, values: seq<Bytes>, pieces: seq<Bytes>)
    requires |values| == |pattern| && DistinctNames(pattern) && pieces == Filled(pattern, values)
    ensures CapturesAre(CapturesOf(pattern, pieces), pattern, values)
  {
    if pattern != [] {
      var n := |pattern| - 1;
      var init := pattern[..n];
      assert pieces[..n] == Filled(init, values[..n]);
      CapturesOfFilled(init, values[..n], pieces[..n]);
      var earlier, all := CapturesOf(init, pieces[..n]), CapturesOf(pattern, pieces);
      forall i | 0 <= i < |pattern| && pattern[i].Capture?
        ensures pattern[i].name in all && all[pattern[i].name] == values[i]
      {
        if i < n {
          assert init[i] == pattern[i];
        }
      }
      forall name | name in all
        ensures exists i :: 0 <= i < |pattern| && pattern[i] == Capture(name)
      {
        if name in earlier {
          var i :| 0 <= i < |init| && init[i] == Capture(name);
          assert pattern[i] == Capture(name);
        } else {
          assert pattern[n] == Capture(name);
        }
      }
    }
  }

  /** A URL as a client writes it: base and pieces with any slashes, then an optional query. */
  function PrintUrl(pieces: seq<Bytes>, gaps: seq<nat>, query: Option<Bytes>): Bytes
    requires |gaps| == |pieces| + 1
  {
    WithQuery(Join(SLASH, pieces, gaps), query)
  }

  lemma {:induction false} JoinFree(ch: Byte, pieces: seq<Bytes>, gaps: seq<nat>, other: Byte)
    requires |gaps| == |pieces| + 1 && ch != other
    requires forall i :: 0 <= i < |pieces| ==> Free(pieces[i], other)
    ensures Free(Join(ch, pieces, gaps), other)
  {
    if pieces != [] {
      JoinFree(ch, pieces[1..], gaps[1..], other);
    }
  }

  lemma UrlSplits(pieces: seq<Bytes>, gaps: seq<nat>, query: Option<Bytes>)
    requires Separated(pieces, gaps) && ArePieces(pieces)
    ensures var url := PrintUrl(pieces, gaps, query);
            PathOf(url) == Join(SLASH, pieces, gaps) && QueryOf(url) == query && Parts(PathOf(url), SLASH) == pieces
  {
    var path := Join(SLASH, pieces, gaps);
    JoinFree(SLASH, pieces, gaps, QUESTION);
    CutAtQuestion(path, query);
    PartsOfJoin(SLASH, pieces, gaps);
  }

  function WithQuery(path: Bytes, query: Option<Bytes>): Bytes {
    path + (if query.Some? then [QUESTION] + query.value else [])
  }

  lemma CutAtQuestion(path: Bytes, query: Option<Bytes>)
    requires Free(path, QUESTION)
    ensures PathOf(WithQuery(path, query)) == path && QueryOf(WithQuery(path, query)) == query
  {
    var url := WithQuery(path, query);
    assert forall j :: 0 <= j < |path| ==> url[j] == path[j];
    IndexOfIs(url, QUESTION, |path|);
    assert url[..|path|] == path;
    if query.Some? {
      assert url == path + [QUESTION] + query.value;
      assert url[|path| + 1..] == query.value;
    }
  }

  /**
    A URL printed from the base, the literals and any values reaches the route, with exactly
    those values captured and exactly the pairs of its query, unless an earlier route matches.
  */
  lemma PrintedUrlIsDispatched(base: seq<Bytes>, routes: seq<Route>, n: nat, values: seq<Bytes>, gaps: seq<nat>,
                               query: Option<Bytes>, pairs: Query.Pairs, verb: string)
    requires n < |routes| && verb in routes[n].methods
    requires var pattern := routes[n].pattern;
             && |values| == |pattern| > 0 && DistinctNames(pattern)
             && ArePieces(base + Filled(pattern, values)) && Separated(base + Filled(pattern, values), gaps)
             && (forall j :: 0 <= j < n ==> !Matches(routes[j].pattern, Filled(pattern, values)))
    requires (if query.Some? then Query.ParseQuery(query.value) else Query.Good([])) == Query.Good(pairs)
    ensures var pieces := Filled(routes[n].pattern, values);
            var outcome := Dispatch(base, routes, PrintUrl(base + pieces, gaps, query), verb);
            && outcome.Handle?
            && outcome.handler == routes[n].methods[verb] && outcome.allMethods == routes[n].allMethods
            && outcome.query == pairs
            && CapturesAre(outcome.captures, routes[n].pattern, values)
  {
    var pattern := routes[n].pattern;
    var pieces := Filled(pattern, values);
    UrlSplits(base + pieces, gaps, query);
    assert (base + pieces)[..|base|] == base && (base + pieces)[|base|..] == pieces;
    FirstMatchIs(routes, pieces, n);
    CapturesOfFilled(pattern, values, pieces);
  }

  /** Path and query together: what a client encodes is what the handler is given. */
  lemma UrlRoundTrip(base: seq<Bytes>, routes: seq<Route>, n: nat, values: seq<Bytes>, gaps: seq<nat>,
                     ws: seq<Query.Written>, pairs: Query.Pairs, queryGaps: seq<nat>, verb: string)
    requires n < |routes| && verb in routes[n].methods
    requires var pattern := routes[n].pattern;
             && |values| == |pattern| > 0 && DistinctNames(pattern)
             && ArePieces(base + Filled(pattern, values)) && Separated(base + Filled(pattern, values), gaps)
             && (forall j :: 0 <= j < n ==> !Matches(routes[j].pattern, Filled(pattern, values)))
    requires |ws| == |pairs| && Separated(Query.PrintPairs(ws), queryGaps)
    requires forall i :: 0 <= i < |ws| ==> Query.Writes(ws[i], pairs[i]) && pairs[i].0 != []
    ensures var url := PrintUrl(base + Filled(routes[n].pattern, values), gaps, Some(Query.PrintQuery(ws, queryGaps)));
            var outcome := Dispatch(base, routes, url, verb);
            && outcome.Handle? && outcome.handler == routes[n].methods[verb]
            && outcome.query == pairs && CapturesAre(outcome.captures, routes[n].pattern, values)
  {
    Query.QueryRoundTrip(ws, pairs, queryGaps);
    PrintedUrlIsDispatched(base, routes, n, values, gaps, Some(Query.PrintQuery(ws, queryGaps)), pairs, verb);
  }

  // ------------------------------------------------- every outcome of every URL

  /** A URL is its path, free of question marks, and after the first of them its query. */
  lemma UrlIsCut(url: Bytes)
    ensures QUESTION !in PathOf(url)
    ensures url == PathOf(url) + if QueryOf(url).Some? then [QUESTION] + QueryOf(url).value else []
  {
  }

  /** What the base leaves of the path: at least one piece, or the router is not meant. */
  predicate UnderBase(base: seq<Bytes>, url: Bytes) {
    base < Parts(PathOf(url), SLASH)
  }

  function PiecesOf(base: seq<Bytes>, url: Bytes): seq<Bytes>
    requires UnderBase(base, url)
  {
    Parts(PathOf(url), SLASH)[|base|..]
  }

  /** Nothing is found exactly when the URL is not under the base or no pattern matches the rest of it. */
  lemma NotFoundIff(base: seq<Bytes>, routes: seq<Route>, url: Bytes, verb: string)
    ensures Dispatch(base, routes, url, verb).NotFound? <==>
            UnderBase(base, url) ==> forall j :: 0 <= j < |routes| ==> !Matches(routes[j].pattern, PiecesOf(base, url))
  {
    var pieces := Parts(PathOf(url), SLASH);
    assert UnderBase(base, url) <==> |pieces| > |base| && pieces[..|base|] == base;
    if UnderBase(base, url) {
      var i := FirstMatch(routes, pieces[|base|..]);
    }
  }

  /**
    Otherwise the first matching route decides: 405 with its methods if the verb is not among
    them, whatever the query; then the error of a query that fails; else its handler, with the
    captures, the pairs and the methods.
  */
  lemma FirstMatchAnswers(base: seq<Bytes>, routes: seq<Route>, url: Bytes, verb: string, n: nat)
    requires UnderBase(base, url) && n < |routes| && Matches(routes[n].pattern, PiecesOf(base, url))
    requires forall j :: 0 <= j < n ==> !Matches(routes[j].pattern, PiecesOf(base, url))
    ensures var outcome, route, query := Dispatch(base, routes, url, verb), routes[n], QueryOf(url);
            && (outcome.MethodNotAllowed? <==> verb !in route.methods)
            && (outcome.MethodNotAllowed? ==> outcome.allow == route.allMethods)
            && (verb in route.methods ==>
                  && (outcome.BadQuery? <==> query.Some? && Query.ParseQuery(query.value).BadQuery?)
                  && (outcome.BadEscape? <==> query.Some? && Query.ParseQuery(query.value).BadEscape?))
            && (outcome.Handle? ==>
                  && outcome.handler == route.methods[verb] && outcome.allMethods == route.allMethods
                  && (if query.Some? then Query.ParseQuery(query.value) == Query.Good(outcome.query) else outcome.query == [])
                  && outcome.captures == CapturesOf(route.pattern, PiecesOf(base, url)))
            && !outcome.NotFound?
  {
    FirstMatchIs(routes, PiecesOf(base, url), n);
  }

  /** The captures are the names of the pattern, each with the piece at its last occurrence. */
  lemma {:induction false} CapturesExact(pattern: Pattern, pieces: seq<Bytes>, name: Bytes)
    requires |pattern| == |pieces|
    ensures name in CapturesOf(pattern, pieces) <==> exists i :: 0 <= i < |pattern| && pattern[i] == Capture(name)
    ensures forall i :: 0 <= i < |pattern| && IsLastCapture(pattern, i, name) ==>
              name in CapturesOf(pattern, pieces) && CapturesOf(pattern, pieces)[name] == pieces[i]
  {
    if pattern != [] {
      var n := |pattern| - 1;
      CapturesExact(pattern[..n], pieces[..n], name);
      forall i | 0 <= i < |pattern| && IsLastCapture(pattern, i, name)
        ensures name in CapturesOf(pattern, pieces) && CapturesOf(pattern, pieces)[name] == pieces[i]
      {
        if i < n {
          assert IsLastCapture(pattern[..n], i, name);
        }
      }
      if i :| 0 <= i < |pattern| && pattern[i] == Capture(name) {
        assert i < n ==> pattern[..n][i] == Capture(name);
      }
    }
  }

  ghost predicate IsLastCapture(pattern: Pattern, i: nat, name: Bytes)
    requires i < |pattern|
  {
    pattern[i] == Capture(name) && forall j :: i < j < |pattern| ==> pattern[j] != Capture(name)
  }

  /** A URL printed for a route whose methods lack the verb is refused with its Allow text, whatever the query. */
  lemma PrintedUrlIsRefused(base: seq<Bytes>, routes: seq<Route>, n: nat, values: seq<Bytes>, gaps: seq<nat>,
                            query: Option<Bytes>, verb: string)
    requires n < |routes| && verb !in routes[n].methods
    requires var pattern := routes[n].pattern;
             && |values| == |pattern| > 0
             && ArePieces(base + Filled(pattern, values)) && Separated(base + Filled(pattern, values), gaps)
             && (forall j :: 0 <= j < n ==> !Matches(routes[j].pattern, Filled(pattern, values)))
    ensures Dispatch(base, routes, PrintUrl(base + Filled(routes[n].pattern, values), gaps, query), verb)
            == MethodNotAllowed(routes[n].allMethods)
  {
    var pieces := Filled(routes[n].pattern, values);
    UrlSplits(base + pieces, gaps, query);
    assert (base + pieces)[..|base|] == base && (base + pieces)[|base|..] == pieces;
    FirstMatchAnswers(base, routes, PrintUrl(base + pieces, gaps, query), verb, n);
  }
}
