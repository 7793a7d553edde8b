/** The earlier revision of the multiplexer (package `cmux`): middlewares are kept per
    path in a list, and a request runs the lists of every matching registered path one
    after the other, in the order the registry map happens to be iterated, then the
    endpoint handler. Identifier placeholders are "<ID_PLACEHOLDER>". */
module Cmux {
  import opened Panics
  import opened Text
  import opened Segments
  import opened Matching
  import opened Pipeline

  /** One call of `Use`, as remembered by the model. */
  datatype Registration = Registration(path: string, handler: Middleware)

  /** The handlers registered under `path`, in the order they were registered. */
  function Under(log: seq<Registration>, path: string): (r: seq<Middleware>)
    ensures |r| <= |log|
  {
    if |log| == 0 then []
    else
      var last := log[|log| - 1];
      Under(log[..|log| - 1], path) + (if last.path == path then [last.handler] else [])
  }

  /** One more registration extends the list of its own path only. */
  lemma UnderStep(log: seq<Registration>, r: Registration, path: string)
    ensures Under(log + [r], path) == Under(log, path) + (if r.path == path then [r.handler] else [])
  {
    assert (log + [r])[..|log|] == log;
  }

  /** Every registered path holds its handlers in registration order, and every
      registration is under a registered path. */
  ghost predicate Tracks(middlewares: map<string, seq<Middleware>>, log: seq<Registration>) {
    (forall p :: p in middlewares ==> middlewares[p] == Under(log, p)) &&
    (forall k :: 0 <= k < |log| ==> log[k].path in middlewares)
  }

  /** Appending a handler to the list of its path keeps the registry in step with
      the registrations. */
  lemma UseKeepsTracks(middlewares: map<string, seq<Middleware>>, log: seq<Registration>,
                       path: string, handler: Middleware)
    requires Tracks(middlewares, log)
    ensures Tracks(middlewares[path :=
        (if path in middlewares then middlewares[path] else []) + [handler]],
      log + [Registration(path, handler)])
  {
    var r := Registration(path, handler);
    var m' := middlewares[path :=
      (if path in middlewares then middlewares[path] else []) + [handler]];
    forall p | p in m'
      ensures m'[p] == Under(log + [r], p)
    {
      UnderStep(log, r, p);
      if p == path && path !in middlewares {
        UnderAbsent(log, p);
      }
    }
    forall k | 0 <= k < |log + [r]|
      ensures (log + [r])[k].path in m'
    {
      if k < |log| {
        assert (log + [r])[k] == log[k];
      }
    }
  }

  /** The handlers of the matched paths, each path's in the order they were registered
      under it, concatenated in the order the paths were matched. */
  function UnderAll(log: seq<Registration>, matched: seq<string>): seq<Middleware> {
    if |matched| == 0 then []
    else UnderAll(log, matched[..|matched| - 1]) + Under(log, matched[|matched| - 1])
  }

  /** A registry in step with the registrations gathers, for every matched path, all
      the handlers registered under it, in registration order; an unregistered path
      gathers nothing. */
  lemma {:induction false} GatheredUnder(middlewares: map<string, seq<Middleware>>, log: seq<Registration>,
                                        matched: seq<string>)
    requires Tracks(middlewares, log)
    ensures Gathered(middlewares, matched) == UnderAll(log, matched)
    decreases |matched|
  {
    if |matched| != 0 {
      var p := matched[|matched| - 1];
      GatheredUnder(middlewares, log, matched[..|matched| - 1]);
      if p !in middlewares {
        UnderAbsent(log, p);
      }
    }
  }

  class CustomMux {
    var middlewares: map<string, seq<Middleware>>
    ghost var log: seq<Registration>

    /** Every registered path holds its handlers in registration order, and every
        registration is under a registered path. */
    ghost predicate Valid()
      reads this
    {
      Tracks(middlewares, log)
    }

    /** `NewMyMux`: an empty registry. */
    constructor ()
      ensures Valid()
      ensures middlewares == map[] && log == []
    {
      middlewares := map[];
      log := [];
    }

    /** `Use`: the handler is appended to the list of its path, which is created when
        the path is new. */
    method Use(path: string, handler: Middleware)
      requires Valid()
      modifies this
      ensures Valid()
      ensures log == old(log) + [Registration(path, handler)]
      ensures middlewares == old(middlewares)[path :=
        (if path in old(middlewares) then old(middlewares)[path] else []) + [handler]]
    {
      if path in middlewares {
        var mws := middlewares[path];
        middlewares := middlewares[path := mws + [handler]];
      } else {
        middlewares := middlewares[path := [handler]];
      }
      UseKeepsTracks(old(middlewares), log, path, handler);
      log := log + [Registration(path, handler)];
    }

    /** `runMiddlewarePipeline`: the handler lists of the matching registered paths,
        wrapped around the endpoint; the result is what serving the request produces. */
    method RunMiddlewarePipeline(requestPath: string, order: seq<string>, endpoint: HandlerFunc)
      returns (trace: Result<seq<Event>>)
      requires Valid() && IsIterationOrder(order, middlewares)
      ensures var scan := ScanAll(Earlier, order, requestPath);
        trace == if scan.panicked then Panicked else Ok(Run(Gathered(middlewares, scan.matched), endpoint))
      ensures var scan := ScanAll(Earlier, order, requestPath);
        trace == if scan.panicked then Panicked else Ok(Run(UnderAll(log, scan.matched), endpoint))
    {
      var middlewareHandlers := GatherMiddlewares(requestPath, order);
      if middlewareHandlers.Panicked? {
        return Panicked;
      }
      GatheredUnder(middlewares, log, ScanAll(Earlier, order, requestPath).matched);
      var first := CreateMiddlewarePipeline(middlewareHandlers.value, endpoint);
      trace := Ok(first());
    }

    /** The loop of `runMiddlewarePipeline` over the registered paths in the order
        `order` (the map's iteration order, or any other order of registered paths): it appends the whole handler list of every registered path it finds
        matching. */
    method GatherMiddlewares(requestPath: string, order: seq<string>)
      returns (result: Result<seq<Middleware>>)
      requires InRegistry(order, middlewares)
      ensures var scan := ScanAll(Earlier, order, requestPath);
        result == if scan.panicked then Panicked else Ok(Gathered(middlewares, scan.matched))
    {
      var middlewareHandlers: seq<Middleware> := [];
      var currentRequest := requestPath;
      ghost var matched: seq<string> := [];
      var i := 0;
      while i < |order|
        invariant 0 <= i <= |order|
        invariant ScanAll(Earlier, order[..i], requestPath) == Scan(currentRequest, matched, false)
        invariant middlewareHandlers == Gathered(middlewares, matched)
      {
        var middlewarePath := order[i];
        var handlers := middlewares[middlewarePath];
        var probe := MatchNext(order, i, requestPath, currentRequest, matched);
        if probe.Panicked? {
          PanicIsFinal(Earlier, order, requestPath, i + 1);
          return Panicked;
        }
        currentRequest := probe.value.requestPath;
        if probe.value.isMatch {
          middlewareHandlers := middlewareHandlers + handlers;
          GatheredStep(middlewares, matched, middlewarePath);
          matched := matched + [middlewarePath];
        }
        i := i + 1;
      }
      assert order[..|order|] == order;
      result := Ok(middlewareHandlers);
    }
  }

  /** A path never used has no handlers. */
  lemma {:induction false} UnderAbsent(log: seq<Registration>, path: string)
    requires forall k :: 0 <= k < |log| ==> log[k].path != path
    ensures Under(log, path) == []
    decreases |log|
  {
    if log != [] {
      UnderAbsent(log[..|log| - 1], path);
    }
  }

  /** The body of the loop for the registered path at index `i` of the iteration
      order, on the request path the earlier iterations left behind. */
  method MatchNext(order: seq<string>, i: nat, requestPath: string, currentRequest: string,
                   ghost matched: seq<string>) returns (r: Result<Probe>)
    requires i < |order|
    requires ScanAll(Earlier, order[..i], requestPath) == Scan(currentRequest, matched, false)
    ensures r.Panicked? ==>
      ScanAll(Earlier, order[..i + 1], requestPath) == Scan(currentRequest, matched, true)
    ensures r.Ok? ==>
      ScanAll(Earlier, order[..i + 1], requestPath) ==
        Scan(r.value.requestPath, matched + (if r.value.isMatch then [order[i]] else []), false)
  {
    r := MatchOne(currentRequest, order[i]);
    ScanStep(Earlier, order, i, requestPath, Scan(currentRequest, matched, false), r);
  }

  /** The body of the loop for one registered path: identifier positions, rewriting of
      both paths when there are any, and the first prefix of the request path the
      pattern matches. */
  method MatchOne(requestPath: string, middlewarePath: string) returns (r: Result<Probe>)
    ensures r == Step(Earlier, requestPath, middlewarePath)
  {
    var idSpecifiers := GetIdSpecifiers(middlewarePath);
    if idSpecifiers.Panicked? {
      return Panicked;
    }
    var request := requestPath;
    var pattern := middlewarePath;
    if |idSpecifiers.value| > 0 {
      var rewritten := RemovePartsFromPath(request, idSpecifiers.value, Placeholder(Earlier));
      if rewritten.Panicked? {
        return Panicked;
      }
      request := rewritten.value;
      var rewrittenPattern := RemovePartsFromPath(pattern, idSpecifiers.value, Placeholder(Earlier));
      if rewrittenPattern.Panicked? {
        return Panicked;
      }
      pattern := rewrittenPattern.value;
    }
    var paths := GetPaths(request);
    var isMatch := FirstMatch(pattern, paths);
    r := Ok(Probe(request, isMatch));
  }

  /** `getIdSpecifiers` of this revision: the test reads the first character of every
      segment, so an empty segment other than the dropped trailing one panics. */
  method GetIdSpecifiers(path: string) returns (result: Result<seq<nat>>)
    ensures result == IdSpecifiers(Earlier, path)
  {
    var parts := Split(path)[1..];
    if |parts| == 0 {
      // parts[len(parts)-1] indexes an empty slice
      return Panicked;
    }
    if parts[|parts| - 1] == "" {
      parts := parts[..|parts| - 1];
    }
    ghost var trimmed := TrimLast(Parts(path));
    assert parts == trimmed;
    var ids: seq<nat> := [];
    for i := 0 to |parts|
      invariant ids == IdPositions(parts[..i])
      invariant !HasEmpty(parts[..i])
    {
      assert parts[..i + 1][..i] == parts[..i];
      var part := parts[i];
      if |part| == 0 {
        // part[0] indexes an empty string
        HasEmptyIff(parts);
        return Panicked;
      }
      BraceDelimitedIsId(part);
      if part[0] == '{' && part[|part| - 1] == '}' {
        ids := ids + [i];
      }
    }
    assert parts[..|parts|] == parts;
    result := Ok(ids);
  }

  // ------------------------------------------------ order follows the iteration

  /** The handler order of this revision is decided by the iteration order of the
      registry map: with "/a" and "/a/b" registered and the request "/a/b", both paths
      match, and their handler lists run in whichever order the map yields them. */
  lemma IterationOrderDecidesHandlerOrder(a: string, b: string)
    requires a != [] && b != [] && '/' !in a && '/' !in b
    requires !IsIdSegment(a) && !IsIdSegment(b)
    ensures var p, q := Slashed([a]), Slashed([a, b]);
      ScanAll(Earlier, [p, q], q) == Scan(q, [p, q], false) &&
      ScanAll(Earlier, [q, p], q) == Scan(q, [q, p], false)
  {
    var p, q := Slashed([a]), Slashed([a, b]);
    ParentAndChildMatch(a, b);
    BothMatch(p, q, q);
    BothMatch(q, p, q);
  }

  /** "/a" and "/a/b" both apply to the request "/a/b", and neither has identifiers. */
  lemma ParentAndChildMatch(a: string, b: string)
    requires a != [] && b != [] && '/' !in a && '/' !in b
    requires !IsIdSegment(a) && !IsIdSegment(b)
    ensures IdSpecifiers(Earlier, Slashed([a])) == Ok([])
    ensures IdSpecifiers(Earlier, Slashed([a, b])) == Ok([])
    ensures MatchesPattern(Earlier, Slashed([a, b]), Slashed([a])) == Ok(true)
    ensures MatchesPattern(Earlier, Slashed([a, b]), Slashed([a, b])) == Ok(true)
  {
    IdSpecifiersLiteral(Earlier, [a]);
    IdSpecifiersLiteral(Earlier, [a, b]);
    LiteralMatchesLonger(a, b);
    LiteralMatchesItself([a, b]);
  }

  lemma LiteralMatchesLonger(a: string, b: string)
    requires '/' !in a && '/' !in b
    requires IdSpecifiers(Earlier, Slashed([a])) == Ok([])
    ensures MatchesPattern(Earlier, Slashed([a, b]), Slashed([a])) == Ok(true)
  {
    MatchesLiteralIff(Earlier, [a], [a, b]);
    assert [a, b][..1] == [a];
  }

  lemma LiteralMatchesItself(ps: seq<string>)
    requires NoSlash(ps) && |ps| != 0
    requires IdSpecifiers(Earlier, Slashed(ps)) == Ok([])
    ensures MatchesPattern(Earlier, Slashed(ps), Slashed(ps)) == Ok(true)
  {
    MatchesLiteralIff(Earlier, ps, ps);
    assert ps[..|ps|] == ps;
  }

  /** Two registered paths without identifiers that both apply are both matched, in
      iteration order. */
  lemma BothMatch(p: string, q: string, requestPath: string)
    requires IdSpecifiers(Earlier, p) == Ok([]) && IdSpecifiers(Earlier, q) == Ok([])
    requires MatchesPattern(Earlier, requestPath, p) == Ok(true)
    requires MatchesPattern(Earlier, requestPath, q) == Ok(true)
    ensures ScanAll(Earlier, [p, q], requestPath) == Scan(requestPath, [p, q], false)
  {
    ScanPair(Earlier, p, q, requestPath);
    var s := Scan(requestPath, [], false);
    VisitWithoutIdentifiers(Earlier, s, p);
    assert [] + [p] == [p];
    VisitWithoutIdentifiers(Earlier, Scan(requestPath, [p], false), q);
  }

  /** Two middlewares that call `next`, one on "/a" and one on "/a/b": for the request
      "/a/b" they enter in the order the registry map yields their paths, whatever the
      order they were registered in. */
  lemma HandlersRunInIterationOrder(a: string, b: string, h1: Middleware, h2: Middleware, endpoint: HandlerFunc)
    requires a != [] && b != [] && '/' !in a && '/' !in b
    requires !IsIdSegment(a) && !IsIdSegment(b)
    requires h1.nextCalls == 1 && h2.nextCalls == 1
    ensures var p, q := Slashed([a]), Slashed([a, b]);
      var registry := map[p := [h1], q := [h2]];
      Run(Gathered(registry, ScanAll(Earlier, [p, q], q).matched), endpoint) ==
        [Entered(h1.id), Entered(h2.id)] + endpoint() &&
      Run(Gathered(registry, ScanAll(Earlier, [q, p], q).matched), endpoint) ==
        [Entered(h2.id), Entered(h1.id)] + endpoint()
  {
    var p, q := Slashed([a]), Slashed([a, b]);
    assert p != q by {
      SlashedOne(a);
      SlashedTwo(a, b);
      assert |p| < |q|;
    }
    var registry := map[p := [h1], q := [h2]];
    IterationOrderDecidesHandlerOrder(a, b);
    RunPair(registry, p, q, endpoint);
    RunPair(registry, q, p, endpoint);
  }

  /** Two matched paths with one middleware each that calls `next`. */
  lemma RunPair(registry: map<string, seq<Middleware>>, p: string, q: string, endpoint: HandlerFunc)
    requires p in registry && q in registry && |registry[p]| == 1 && |registry[q]| == 1
    requires registry[p][0].nextCalls == 1 && registry[q][0].nextCalls == 1
    ensures Run(Gathered(registry, [p, q]), endpoint) ==
      [Entered(registry[p][0].id), Entered(registry[q][0].id)] + endpoint()
  {
    GatheredPair(registry, p, q);
    var mws := registry[p] + registry[q];
    AllPass(mws, endpoint);
    assert Entries(mws) == [Entered(registry[p][0].id), Entered(registry[q][0].id)];
  }

  lemma GatheredPair<T>(registry: map<string, seq<T>>, p: string, q: string)
    requires p in registry && q in registry
    ensures Gathered(registry, [p, q]) == registry[p] + registry[q]
  {
    assert [p, q] == [p] + [q];
    GatheredAppend(registry, [p], [q]);
    GatheredOne(registry, p);
    GatheredOne(registry, q);
  }
}
