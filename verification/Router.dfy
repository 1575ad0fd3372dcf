/** RestfullRoute and RestfulRouter: the mutable route table whose lookups are those of Routes. */
module Router {
  import opened Basics
  import opened ByteStrings
  import opened UrlText
  import opened Routes
  import Query = QueryStrings

  /** "GET, POST": the names in order, separated by a comma and a space. */
  function CommaList(names: seq<string>): string {
    if names == [] then ""
    else if |names| == 1 then names[0]
    else CommaList(names[..|names| - 1]) + ", " + names[|names| - 1]
  }

  lemma AllowTextIs(first: string, second: string, third: string)
    ensures CommaList([]) == "" && CommaList([first]) == first
    ensures CommaList([first, second, third]) == first + ", " + second + ", " + third
  {
    assert [first, second, third][..2] == [first, second] && [first, second][..1] == [first];
  }

  lemma CommaListSnoc(names: seq<string>, verb: string)
    ensures CommaList(names + [verb]) == CommaList(names) + (if names == [] then verb else ", " + verb)
  {
    assert (names + [verb])[..|names|] == names;
    if names == [] {
      assert names + [verb] == [verb];
      assert "" + verb == verb;
    } else {
      assert CommaList(names) + ", " + verb == CommaList(names) + (", " + verb);
    }
  }

  method OnePart(piece: Bytes) returns (r: Option<Part>)
    ensures r == PartOf(piece)
  {
    if |piece| < 2 {
      return None;
    }
    if piece[0] == OPEN_BRACE && piece[|piece| - 1] == CLOSE_BRACE {
      r := Some(Capture(piece[1..|piece| - 1]));
    } else {
      r := Some(Literal(piece));
    }
  }

  /** routeParts; None is the 400 response. */
  method RouteParts(route: Bytes) returns (r: Option<Pattern>)
    ensures r == PatternOf(route)
  {
    UnlimitedParts(route, SLASH, |route|);
    var pieces := Split(route, SLASH, |route|);
    var parts: Pattern := [];
    for i := 0 to |pieces|
      invariant PartsOfPieces(pieces[..i]) == Some(parts)
    {
      assert pieces[..i + 1][..i] == pieces[..i];
      var part := OnePart(pieces[i]);
      if part.None? {
        BadPieceStays(pieces, i + 1);
        return None;
      }
      parts := parts + [part.value];
    }
    assert pieces[..|pieces|] == pieces;
    r := Some(parts);
  }

  lemma {:induction false} BadPieceStays(pieces: seq<Bytes>, n: nat)
    requires n <= |pieces| && PartsOfPieces(pieces[..n]).None?
    ensures PartsOfPieces(pieces).None?
  {
    if n < |pieces| {
      var init := pieces[..|pieces| - 1];
      assert init[..n] == pieces[..n];
      BadPieceStays(init, n);
    } else {
      assert pieces[..n] == pieces;
    }
  }

  method CutUrl(url: Bytes) returns (path: Bytes, query: Option<Bytes>)
    ensures path == PathOf(url) && query == QueryOf(url)
  {
    assert url[0..] == url;
    var qpos := Find(url, QUESTION, 0);
    path := url[..qpos];
    query := if qpos < |url| then Some(url[qpos + 1..]) else None;
  }

  /** What RestfullRoute::createHandler returns or throws. */
  datatype Attempt = NoMatch | Refused(allow: string) | Found(captures: Captures, handler: Handler)

  class RestfulRoute {
    const parts: Pattern
    var methods: map<string, Handler>
    var allMethods: string
    ghost var listed: seq<string>   // every method but OPTIONS, in order of first registration

    /** The Allow text names every registered method except OPTIONS exactly once. */
    ghost predicate Valid()
      reads this
    {
      && (forall i, j :: 0 <= i < j < |listed| ==> listed[i] != listed[j])
      && (forall verb :: verb in listed <==> verb in methods && verb != "OPTIONS")
      && ("" !in methods ==> allMethods == CommaList(listed))
    }

    constructor (parts: Pattern)
      ensures Valid() && this.parts == parts && methods == map[] && allMethods == "" && listed == []
    {
      this.parts := parts;
      methods, allMethods, listed := map[], "", [];
    }

    function View(): Route
      reads this
    {
      Route(parts, methods, allMethods)
    }

    method AddMethodHandler(verb: string, handler: Handler)
      requires Valid()
      modifies this
      ensures Valid() && methods == old(methods)[verb := handler]
      ensures listed == if verb in old(methods) || verb == "OPTIONS" then old(listed) else old(listed) + [verb]
      ensures verb in old(methods) || verb == "OPTIONS" ==> allMethods == old(allMethods)
    {
      if verb !in methods {
        if verb != "OPTIONS" {
          if "" !in methods {
            CommaListSnoc(listed, verb);
          }
          allMethods := allMethods + (if allMethods == "" then verb else ", " + verb);
          listed := listed + [verb];
        }
        methods := methods[verb := handler];
      } else {
        methods := methods[verb := handler];
      }
    }

    /** operator==: None is the 400 response for a malformed route text. */
    method EqualTo(route: Bytes) returns (equal: Option<bool>)
      ensures equal == if PatternOf(route).None? then None else Some(parts == PatternOf(route).value)
    {
      var other := RouteParts(route);
      if other.None? {
        return None;
      }
      if |other.value| != |parts| {
        return Some(false);
      }
      for i := 0 to |parts|
        invariant forall j :: 0 <= j < i ==> other.value[j] == parts[j]
      {
        if other.value[i] != parts[i] {
          return Some(false);
        }
      }
      assert parts == other.value;
      equal := Some(true);
    }

    /** createHandler of one route. */
    method Try(pieces: seq<Bytes>, verb: string) returns (a: Attempt)
      ensures a.NoMatch? <==> !Matches(parts, pieces)
      ensures a.Refused? <==> Matches(parts, pieces) && verb !in methods
      ensures a.Refused? ==> a.allow == allMethods
      ensures a.Found? ==> a.captures == CapturesOf(parts, pieces) && a.handler == methods[verb]
    {
      if |pieces| != |parts| {
        return NoMatch;
      }
      var captures: Captures := map[];
      for i := 0 to |pieces|
        invariant forall j :: 0 <= j < i ==> PartMatches(parts[j], pieces[j])
        invariant captures == CapturesOf(parts[..i], pieces[..i])
      {
        assert parts[..i + 1][..i] == parts[..i] && pieces[..i + 1][..i] == pieces[..i];
        if parts[i].Capture? {
          captures := captures[parts[i].name := pieces[i]];
        } else if parts[i].text != pieces[i] {
          assert !PartMatches(parts[i], pieces[i]);
          return NoMatch;
        }
      }
      assert parts[..|parts|] == parts && pieces[..|pieces|] == pieces;
      if verb !in methods {
        return Refused(allMethods);
      }
      a := Found(captures, methods[verb]);
    }

    /** The rest of createHandler once this route has matched. */
    method Respond(a: Attempt, ghost pieces: seq<Bytes>, query: Option<Bytes>, ghost verb: string) returns (outcome: Outcome)
      requires Matches(parts, pieces) && !a.NoMatch? && (a.Refused? <==> verb !in methods)
      requires a.Refused? ==> a.allow == allMethods
      requires a.Found? ==> a.captures == CapturesOf(parts, pieces) && a.handler == methods[verb]
      ensures outcome == Answer(View(), pieces, query, verb)
    {
      if a.Refused? {
        return MethodNotAllowed(a.allow);
      }
      var parsed: Query.Result<Query.Pairs> := Query.Good([]);
      if query.Some? {
        parsed := Query.Parse(query.value);
      }
      match parsed
      case BadQuery => return BadQuery;
      case BadEscape => return BadEscape;
      case Good(pairs) => return Handle(a.handler, a.captures, pairs, allMethods);
    }
  }

  class RestfulRouter {
    const base: seq<Bytes>
    var routes: seq<RestfulRoute>

    /** No two routes have the same pattern, and every Allow text is right. */
    ghost predicate Valid()
      reads this, routes
    {
      && (forall i :: 0 <= i < |routes| ==> routes[i].Valid())
      && (forall i, j :: 0 <= i < j < |routes| ==> routes[i].parts != routes[j].parts)
    }

    constructor (baseUrl: Bytes)
      ensures Valid() && routes == [] && base == Parts(baseUrl, SLASH)
    {
      UnlimitedParts(baseUrl, SLASH, |baseUrl|);
      var parts := Split(baseUrl, SLASH, |baseUrl|);
      base, routes := parts, [];
    }

    ghost function Views(): (views: seq<Route>)
      reads this, routes
      ensures |views| == |routes| && forall i :: 0 <= i < |routes| ==> views[i] == routes[i].View()
    {
      seq(|routes|, i requires 0 <= i < |routes| reads this, routes => routes[i].View())
    }

    /** createRoute: the route of that pattern, created if there is none yet; null is the 400 response. */
    method CreateRoute(route: Bytes) returns (r: RestfulRoute?)
      requires Valid()
      modifies this
      ensures Valid()
      ensures r == null <==> PatternOf(route).None?
      ensures r != null ==> r.parts == PatternOf(route).value && r in routes
      ensures r == null || r in old(routes) ==> routes == old(routes)
      ensures r != null && r !in old(routes) ==> fresh(r) && routes == old(routes) + [r] && r.methods == map[]
      ensures (exists i :: 0 <= i < |old(routes)| && PatternOf(route) == Some(old(routes)[i].parts)) <==>
              r != null && r in old(routes)
    {
      for i := 0 to |routes|
        invariant forall j :: 0 <= j < i ==> PatternOf(route) != Some(routes[j].parts)
        modifies {}
      {
        var equal := routes[i].EqualTo(route);
        if equal.None? {
          return null;
        }
        if equal.value {
          return routes[i];
        }
      }
      var parts := RouteParts(route);
      if parts.None? {
        return null;
      }
      r := new RestfulRoute(parts.value);
      routes := routes + [r];
    }

    /** createHandler of the router. */
    method CreateHandler(url: Bytes, verb: string) returns (outcome: Outcome)
      requires Valid()
      ensures outcome == Dispatch(base, Views(), url, verb)
    {
      var path, query := CutUrl(url);
      UnlimitedParts(path, SLASH, |path|);
      var pieces := Split(path, SLASH, |path|);
      if |pieces| < |base| + 1 {
        return NotFound;
      }
      var under := UnderBase(pieces);
      if !under {
        return NotFound;
      }
      outcome := FirstOf(pieces[|base|..], query, verb);
    }

    method UnderBase(pieces: seq<Bytes>) returns (under: bool)
      requires |pieces| > |base|
      ensures under <==> pieces[..|base|] == base
    {
      for i := 0 to |base|
        invariant forall j :: 0 <= j < i ==> pieces[j] == base[j]
      {
        if pieces[i] != base[i] {
          assert pieces[..|base|][i] != base[i];
          return false;
        }
      }
      under := true;
    }

    /** The loop over the routes. */
    method FirstOf(pieces: seq<Bytes>, query: Option<Bytes>, verb: string) returns (outcome: Outcome)
      requires Valid()
      ensures outcome == DispatchPieces(Views(), pieces, query, verb)
    {
      for i := 0 to |routes|
        invariant forall j :: 0 <= j < i ==> !Matches(Views()[j].pattern, pieces)
      {
        var a := routes[i].Try(pieces, verb);
        assert Views()[i] == routes[i].View();
        if !a.NoMatch? {
          FirstMatchIs(Views(), pieces, i);
          outcome := routes[i].Respond(a, pieces, query, verb);
          return;
        }
      }
      outcome := NotFound;
    }
  }
}
