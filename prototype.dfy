/** The prototype of the multiplexer (package `main`): middlewares are plain handlers
    kept per path in a list; for a request, every matching registered path, in the
    order the registry map happens to be iterated, has its handlers called one after
    the other. There is no pipeline, no `next` and no endpoint handler, and a panic
    part-way leaves the handlers already called as called. */
module PrototypeMux {
  import opened Panics
  import opened Text
  import opened Segments
  import opened Matching
  import opened Pipeline

  /** One call of `Use`: a handler is known by the id it enters with. */
  datatype Registration = Registration(path: string, handler: nat)

  /** What serving a request does: the handlers entered, in order, and whether the
      loop ended in a panic. */
  datatype Served = Served(trace: seq<Event>, panicked: bool)

  /** The handlers with the given ids, each called once, in order. */
  function Calls(ids: seq<nat>): (r: seq<Event>)
    ensures |r| == |ids|
  {
    if |ids| == 0 then [] else Calls(ids[..|ids| - 1]) + [Entered(ids[|ids| - 1])]
  }

  /** Every handler is entered once, at its place in the list. */
  lemma {:induction false} CallsAt(ids: seq<nat>)
    ensures forall k :: 0 <= k < |ids| ==> Calls(ids)[k] == Entered(ids[k])
    decreases |ids|
  {
    if |ids| != 0 {
      var n := |ids| - 1;
      CallsAt(ids[..n]);
      assert Calls(ids) == Calls(ids[..n]) + [Entered(ids[n])];
    }
  }

  /** The handlers registered under `path`, in the order they were registered. */
  function Under(log: seq<Registration>, path: string): (r: seq<nat>)
    ensures |r| <= |log|
  {
    if |log| == 0 then []
    else
      var last := log[|log| - 1];
      Under(log[..|log| - 1], path) + (if last.path == path then [last.handler] else [])
  }

  lemma UnderStep(log: seq<Registration>, r: Registration, path: string)
    ensures Under(log + [r], path) == Under(log, path) + (if r.path == path then [r.handler] else [])
  {
    assert (log + [r])[..|log|] == log;
  }

  /** A path never used has no handlers. */
  lemma {:induction false} UnderAbsent(log: seq<Registration>, path: string)
    requires forall k :: 0 <= k < |log| ==> log[k].path != path
    ensures Under(log, path) == []
    decreases |log|
  {
    if log != [] {
      UnderAbsent(log[..|log| - 1], path);
    }
  }

  /** Every registered path holds its handlers in registration order, and every
      registration is under a registered path. */
  ghost predicate Tracks(middlewares: map<string, seq<nat>>, log: seq<Registration>) {
    (forall p :: p in middlewares ==> middlewares[p] == Under(log, p)) &&
    (forall k :: 0 <= k < |log| ==> log[k].path in middlewares)
  }

  /** Appending a handler to the list of its path keeps the registry in step with
      the registrations. */
  lemma UseKeepsTracks(middlewares: map<string, seq<nat>>, log: seq<Registration>,
                       path: string, handler: nat)
    requires Tracks(middlewares, log)
    ensures Tracks(middlewares[path :=
        (if path in middlewares then middlewares[path] else []) + [handler]],
      log + [Registration(path, handler)])
  {
    var r := Registration(path, handler);
    var m' := middlewares[path :=
      (if path in middlewares then middlewares[path] else []) + [handler]];
    forall p | p in m'
      ensures m'[p] == Under(log + [r], p)
    {
      UnderStep(log, r, p);
      if p == path && path !in middlewares {
        UnderAbsent(log, p);
      }
    }
    forall k | 0 <= k < |log + [r]|
      ensures (log + [r])[k].path in m'
    {
      if k < |log| {
        assert (log + [r])[k] == log[k];
      }
    }
  }

  /** The handlers of the matched paths, each path's in the order they were registered
      under it, concatenated in the order the paths were matched. */
  function UnderAll(log: seq<Registration>, matched: seq<string>): seq<nat> {
    if |matched| == 0 then []
    else UnderAll(log, matched[..|matched| - 1]) + Under(log, matched[|matched| - 1])
  }

  /** A registry in step with the registrations gathers, for every matched path, all
      the handlers registered under it, in registration order; an unregistered path
      gathers nothing. */
  lemma {:induction false} GatheredUnder(middlewares: map<string, seq<nat>>, log: seq<Registration>,
                                        matched: seq<string>)
    requires Tracks(middlewares, log)
    ensures Gathered(middlewares, matched) == UnderAll(log, matched)
    decreases |matched|
  {
    if |matched| != 0 {
      var p := matched[|matched| - 1];
      GatheredUnder(middlewares, log, matched[..|matched| - 1]);
      if p !in middlewares {
        UnderAbsent(log, p);
      }
    }
  }

  class CustomMux {
    var middlewares: map<string, seq<nat>>
    ghost var log: seq<Registration>

    /** Every registered path holds its handlers in registration order, and every
        registration is under a registered path. */
    ghost predicate Valid()
      reads this
    {
      Tracks(middlewares, log)
    }

    /** `NewMyMux`: an empty registry. */
    constructor ()
      ensures Valid()
      ensures middlewares == map[] && log == []
    {
      middlewares := map[];
      log := [];
    }

    /** `Use`: the handler is appended to the list of its path; a new path first gets
        an empty list. */
    method Use(path: string, handler: nat)
      requires Valid()
      modifies this
      ensures Valid()
      ensures log == old(log) + [Registration(path, handler)]
      ensures middlewares == old(middlewares)[path :=
        (if path in old(middlewares) then old(middlewares)[path] else []) + [handler]]
    {
      if path in middlewares {
        var mws := middlewares[path];
        mws := mws + [handler];
        middlewares := middlewares[path := mws];
      } else {
        middlewares := middlewares[path := []];
        var mws := middlewares[path];
        mws := mws + [handler];
        middlewares := middlewares[path := mws];
      }
      UseKeepsTracks(old(middlewares), log, path, handler);
      log := log + [Registration(path, handler)];
    }

    /** `MyHandler.ServeHTTP`: the loop over the registered paths in the order `order`
        (the map's iteration order, or any other order of registered paths) calls the
        handlers of every registered path it finds matching, as soon as it finds it; a
        panic stops the loop after the handlers already called. */
    method ServeHTTP(requestPath: string, order: seq<string>) returns (served: Served)
      requires Valid() && IsIterationOrder(order, middlewares)
      ensures var scan := ScanAll(Prototype, order, requestPath);
        served == Served(Calls(Gathered(middlewares, scan.matched)), scan.panicked)
      ensures var scan := ScanAll(Prototype, order, requestPath);
        served == Served(Calls(UnderAll(log, scan.matched)), scan.panicked)
    {
      GatheredUnder(middlewares, log, ScanAll(Prototype, order, requestPath).matched);
      var trace: seq<Event> := [];
      var currentRequest := requestPath;
      ghost var matched: seq<string> := [];
      var i := 0;
      while i < |order|
        invariant 0 <= i <= |order|
        invariant ScanAll(Prototype, order[..i], requestPath) == Scan(currentRequest, matched, false)
        invariant trace == Calls(Gathered(middlewares, matched))
      {
        var middlewarePath := order[i];
        var handlers := middlewares[middlewarePath];
        var probe := MatchNext(order, i, requestPath, currentRequest, matched);
        if probe.Panicked? {
          PanicIsFinal(Prototype, order, requestPath, i + 1);
          return Served(trace, true);
        }
        currentRequest := probe.value.requestPath;
        if probe.value.isMatch {
          CalledStep(middlewares, matched, middlewarePath);
          trace := CallHandlers(trace, handlers);
          matched := matched + [middlewarePath];
        }
        i := i + 1;
      }
      assert order[..|order|] == order;
      served := Served(trace, false);
    }
  }

  /** The inner loop: every handler of a matched path is called, in list order. */
  method CallHandlers(trace: seq<Event>, handlers: seq<nat>) returns (trace': seq<Event>)
    ensures trace' == trace + Calls(handlers)
  {
    trace' := trace;
    for j := 0 to |handlers|
      invariant trace' == trace + Calls(handlers[..j])
    {
      var entered := Entered(handlers[j]);
      CallsStep(handlers[..j], handlers[j]);
      assert handlers[..j + 1] == handlers[..j] + [handlers[j]];
      assert trace + (Calls(handlers[..j]) + [entered]) == trace' + [entered];
      trace' := trace' + [entered];
    }
    assert handlers[..|handlers|] == handlers;
  }

  lemma {:induction false} CallsAppend(a: seq<nat>, b: seq<nat>)
    ensures Calls(a + b) == Calls(a) + Calls(b)
    decreases |b|
  {
    if |b| == 0 {
      assert a + b == a;
    } else {
      var b' := b[..|b| - 1];
      CallsAppend(a, b');
      CallsAppendLast(a, b', b[|b| - 1]);
      assert b' + [b[|b| - 1]] == b;
    }
  }

  /** One more handler on the right. */
  lemma CallsAppendLast(a: seq<nat>, b': seq<nat>, id: nat)
    requires Calls(a + b') == Calls(a) + Calls(b')
    ensures Calls(a + (b' + [id])) == Calls(a) + Calls(b' + [id])
  {
    assert a + (b' + [id]) == (a + b') + [id];
    CallsStep(a + b', id);
    CallsStep(b', id);
    assert (Calls(a) + Calls(b')) + [Entered(id)] == Calls(a) + (Calls(b') + [Entered(id)]);
  }

  /** Calling the handlers of one more matched path. */
  lemma CalledStep(registry: map<string, seq<nat>>, matched: seq<string>, p: string)
    requires p in registry
    ensures Calls(Gathered(registry, matched + [p])) ==
      Calls(Gathered(registry, matched)) + Calls(registry[p])
  {
    GatheredStep(registry, matched, p);
    CallsAppend(Gathered(registry, matched), registry[p]);
  }

  lemma CallsStep(ids: seq<nat>, id: nat)
    ensures Calls(ids + [id]) == Calls(ids) + [Entered(id)]
  {
    assert (ids + [id])[..|ids|] == ids;
  }

  /** The body of the loop for the registered path at index `i` of the iteration
      order, on the request path the earlier iterations left behind. */
  method MatchNext(order: seq<string>, i: nat, requestPath: string, currentRequest: string,
                   ghost matched: seq<string>) returns (r: Result<Probe>)
    requires i < |order|
    requires ScanAll(Prototype, order[..i], requestPath) == Scan(currentRequest, matched, false)
    ensures r.Panicked? ==>
      ScanAll(Prototype, order[..i + 1], requestPath) == Scan(currentRequest, matched, true)
    ensures r.Ok? ==>
      ScanAll(Prototype, order[..i + 1], requestPath) ==
        Scan(r.value.requestPath, matched + (if r.value.isMatch then [order[i]] else []), false)
  {
    r := MatchOne(currentRequest, order[i]);
    ScanStep(Prototype, order, i, requestPath, Scan(currentRequest, matched, false), r);
  }

  /** The body of the loop for one registered path: identifier positions, rewriting of
      both paths when there are any, and the first prefix of the request path the
      pattern matches. */
  method MatchOne(requestPath: string, middlewarePath: string) returns (r: Result<Probe>)
    ensures r == Step(Prototype, requestPath, middlewarePath)
  {
    var idSpecifiers := GetIdSpecifiers(middlewarePath);
    if idSpecifiers.Panicked? {
      return Panicked;
    }
    var request := requestPath;
    var pattern := middlewarePath;
    if |idSpecifiers.value| > 0 {
      var rewritten := RemovePartsFromPath(request, idSpecifiers.value, Placeholder(Prototype));
      if rewritten.Panicked? {
        return Panicked;
      }
      request := rewritten.value;
      var rewrittenPattern := RemovePartsFromPath(pattern, idSpecifiers.value, Placeholder(Prototype));
      if rewrittenPattern.Panicked? {
        return Panicked;
      }
      pattern := rewrittenPattern.value;
    }
    var paths := GetPaths(request);
    var isMatch := FirstMatch(pattern, paths);
    r := Ok(Probe(request, isMatch));
  }

  /** `getIdSpecifiers` of the prototype: no trailing empty segment is dropped, and the
      first character of every segment is read, so any empty segment panics. */
  method GetIdSpecifiers(path: string) returns (result: Result<seq<nat>>)
    ensures result == IdSpecifiers(Prototype, path)
  {
    var parts := Split(path)[1..];
    assert parts == Parts(path);
    var ids: seq<nat> := [];
    for i := 0 to |parts|
      invariant ids == IdPositions(parts[..i])
      invariant !HasEmpty(parts[..i])
    {
      assert parts[..i + 1][..i] == parts[..i];
      var part := parts[i];
      if |part| == 0 {
        // part[0] indexes an empty string
        HasEmptyIff(parts);
        return Panicked;
      }
      BraceDelimitedIsId(part);
      if part[0] == '{' && part[|part| - 1] == '}' {
        ids := ids + [i];
      }
    }
    assert parts[..|parts|] == parts;
    result := Ok(ids);
  }
}
