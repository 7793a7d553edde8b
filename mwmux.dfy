/** The current revision of the multiplexer: middlewares are registered per path under
    a running registration number, and a request runs the middlewares of every
    matching registered path in registration order, then the endpoint handler. */
module MwMux {
  import opened Panics
  import opened Text
  import opened Segments
  import opened Matching
  import opened Pipeline
  import opened KeyOrder

  /** One call of `Use`, as remembered by the model. */
  datatype Registration = Registration(path: string, handler: Middleware)

  /** The registry holds exactly the registrations of the log, each under its path and
      its position in the log as registration number. */
  ghost predicate Consistent(middlewares: map<string, map<nat, Middleware>>, log: seq<Registration>) {
    (forall p :: p in middlewares ==> forall k :: k in middlewares[p] ==>
       k < |log| && log[k] == Registration(p, middlewares[p][k])) &&
    (forall k :: 0 <= k < |log| ==> log[k].path in middlewares && k in middlewares[log[k].path])
  }

  /** The handlers registered under `path`, none when it was never registered. */
  function Handlers(middlewares: map<string, map<nat, Middleware>>, path: string): map<nat, Middleware> {
    if path in middlewares then middlewares[path] else map[]
  }

  class MWMux {
    var middlewareCount: nat
    var middlewares: map<string, map<nat, Middleware>>
    ghost var log: seq<Registration>

    ghost predicate Valid()
      reads this
    {
      middlewareCount == |log| && Consistent(middlewares, log)
    }

    /** `NewMWMux`: an empty registry. */
    constructor ()
      ensures Valid()
      ensures middlewareCount == 0 && middlewares == map[] && log == []
    {
      middlewareCount := 0;
      middlewares := map[];
      log := [];
    }

    /** `Use`: the handler is stored under the path with the next registration number;
        both branches of the source (path seen before or not) end in the same map. */
    method Use(path: string, handler: Middleware)
      requires Valid()
      modifies this
      ensures Valid()
      ensures log == old(log) + [Registration(path, handler)]
      ensures middlewareCount == old(middlewareCount) + 1
      ensures middlewares == old(middlewares)[path :=
        Handlers(old(middlewares), path)[old(middlewareCount) := handler]]
    {
      if path in middlewares {
        var mws := middlewares[path];
        middlewares := middlewares[path := mws[middlewareCount := handler]];
      } else {
        var mws: map<nat, Middleware> := map[];
        middlewares := middlewares[path := mws[middlewareCount := handler]];
      }
      ConsistentAfterUse(old(middlewares), log, path, handler);
      log := log + [Registration(path, handler)];
      middlewareCount := middlewareCount + 1;
    }

    /** `getMiddlewaresForPath`: the loop over the registered paths in the order `order`
        (the map's iteration order, or any other order of registered paths), merging the handlers of every registered path the loop finds matching. */
    method GetMiddlewaresForPath(requestPath: string, order: seq<string>)
      returns (result: Result<map<nat, Middleware>>)
      requires InRegistry(order, middlewares)
      ensures var scan := ScanAll(Current, order, requestPath);
        result == if scan.panicked then Panicked else Ok(Collect(middlewares, scan.matched))
    {
      var handlersFound: map<nat, Middleware> := map[];
      var currentRequest := requestPath;
      ghost var matched: seq<string> := [];
      var i := 0;
      while i < |order|
        invariant 0 <= i <= |order|
        invariant ScanAll(Current, order[..i], requestPath) == Scan(currentRequest, matched, false)
        invariant handlersFound == Collect(middlewares, matched)
      {
        var middlewarePath := order[i];
        var handlers := middlewares[middlewarePath];
        var probe := MatchNext(order, i, requestPath, currentRequest, matched);
        if probe.Panicked? {
          PanicIsFinal(Current, order, requestPath, i + 1);
          return Panicked;
        }
        currentRequest := probe.value.requestPath;
        if probe.value.isMatch {
          handlersFound := handlersFound + handlers;
          CollectStep(middlewares, matched, middlewarePath);
          matched := matched + [middlewarePath];
        }
        i := i + 1;
      }
      assert order[..|order|] == order;
      result := Ok(handlersFound);
    }

    /** `runMiddlewarePipeline`: the matched handlers by increasing registration
        number, wrapped around the endpoint; the result is what serving the request
        produces. The handlers run in the order they were registered. */
    method RunMiddlewarePipeline(requestPath: string, order: seq<string>, endpoint: HandlerFunc)
      returns (trace: Result<seq<Event>>)
      requires Valid() && IsIterationOrder(order, middlewares)
      ensures var scan := ScanAll(Current, order, requestPath);
        trace == if scan.panicked then Panicked else Ok(Run(Registered(log, scan.matched), endpoint))
    {
      var found := GetMiddlewaresForPath(requestPath, order);
      if found.Panicked? {
        return Panicked;
      }
      ghost var matched := ScanAll(Current, order, requestPath).matched;
      CollectSelected(middlewares, log, matched);
      SelectedInKeyOrder(log, matched, |log|);
      assert log[..|log|] == log;
      var sorted := SortMiddlewares(found.value);
      var first := CreateMiddlewarePipeline(sorted, endpoint);
      trace := Ok(first());
    }
  }

  /** The body of the loop for the registered path at index `i` of the iteration
      order, on the request path the earlier iterations left behind. */
  method MatchNext(order: seq<string>, i: nat, requestPath: string, currentRequest: string,
                   ghost matched: seq<string>) returns (r: Result<Probe>)
    requires i < |order|
    requires ScanAll(Current, order[..i], requestPath) == Scan(currentRequest, matched, false)
    ensures r.Panicked? ==>
      ScanAll(Current, order[..i + 1], requestPath) == Scan(currentRequest, matched, true)
    ensures r.Ok? ==>
      ScanAll(Current, order[..i + 1], requestPath) ==
        Scan(r.value.requestPath, matched + (if r.value.isMatch then [order[i]] else []), false)
  {
    r := MatchOne(currentRequest, order[i]);
    ScanStep(Current, order, i, requestPath, Scan(currentRequest, matched, false), r);
  }

  /** The body of the loop in `getMiddlewaresForPath` for one registered path: the
      identifier positions of the registered path, the rewriting of both paths when
      there are any, and the first prefix of the request path the pattern matches. */
  method MatchOne(requestPath: string, middlewarePath: string) returns (r: Result<Probe>)
    ensures r == Step(Current, requestPath, middlewarePath)
  {
    var idSpecifiers := GetIdSpecifiers(middlewarePath);
    if idSpecifiers.Panicked? {
      return Panicked;
    }
    var request := requestPath;
    var pattern := middlewarePath;
    if |idSpecifiers.value| > 0 {
      var rewritten := RemovePartsFromPath(request, idSpecifiers.value, Placeholder(Current));
      if rewritten.Panicked? {
        return Panicked;
      }
      request := rewritten.value;
      var rewrittenPattern := RemovePartsFromPath(pattern, idSpecifiers.value, Placeholder(Current));
      if rewrittenPattern.Panicked? {
        return Panicked;
      }
      pattern := rewrittenPattern.value;
    }
    var paths := GetPaths(request);
    var isMatch := FirstMatch(pattern, paths);
    r := Ok(Probe(request, isMatch));
  }

  /** `getIdSpecifiers` of the current revision. */
  method GetIdSpecifiers(path: string) returns (result: Result<seq<nat>>)
    ensures result == IdSpecifiers(Current, path)
  {
    var parts := Split(path)[1..];
    if |parts| == 0 {
      // parts[len(parts)-1] indexes an empty slice
      return Panicked;
    }
    if parts[|parts| - 1] == "" {
      parts := parts[..|parts| - 1];
    }
    ghost var trimmed := TrimLast(Parts(path));
    assert parts == trimmed;
    var ids: seq<nat> := [];
    for i := 0 to |parts|
      invariant ids == IdPositions(parts[..i])
    {
      assert parts[..i + 1][..i] == parts[..i];
      var part := parts[i];
      if |part| > 1 && part[0] == '{' && part[|part| - 1] == '}' {
        ids := ids + [i];
      }
    }
    assert parts[..|parts|] == parts;
    result := Ok(ids);
  }

  /** The handlers of the matched paths merged into one map, in the order the paths
      were matched (later entries win, as the assignment in the loop does). */
  function Collect(middlewares: map<string, map<nat, Middleware>>, matched: seq<string>)
    : map<nat, Middleware>
  {
    if |matched| == 0 then map[]
    else Collect(middlewares, matched[..|matched| - 1]) + Handlers(middlewares, matched[|matched| - 1])
  }

  lemma CollectStep(middlewares: map<string, map<nat, Middleware>>, matched: seq<string>, path: string)
    ensures Collect(middlewares, matched + [path]) == Collect(middlewares, matched) + Handlers(middlewares, path)
  {
    assert (matched + [path])[..|matched|] == matched;
  }

  /** A registration number identifies one registration: it is below the number of
      registrations so far and is stored under one path only. */
  lemma KeysIdentifyRegistrations(
    middlewares: map<string, map<nat, Middleware>>, log: seq<Registration>,
    p: string, q: string, k: nat)
    requires Consistent(middlewares, log)
    requires p in middlewares && k in middlewares[p]
    requires q in middlewares && k in middlewares[q]
    ensures k < |log| && p == q
    ensures middlewares[p][k] == log[k].handler
  {
    assert log[k] == Registration(p, middlewares[p][k]);
    assert log[k] == Registration(q, middlewares[q][k]);
  }

  /** `Use` keeps the registry and the log in step. */
  lemma ConsistentAfterUse(
    middlewares: map<string, map<nat, Middleware>>, log: seq<Registration>,
    path: string, handler: Middleware)
    requires Consistent(middlewares, log)
    ensures Consistent(middlewares[path := Handlers(middlewares, path)[|log| := handler]],
                       log + [Registration(path, handler)])
  {
    var m' := middlewares[path := Handlers(middlewares, path)[|log| := handler]];
    var log' := log + [Registration(path, handler)];
    forall p, k | p in m' && k in m'[p]
      ensures k < |log'| && log'[k] == Registration(p, m'[p][k])
    {
      if p == path && k == |log| {
        assert m'[p][k] == handler;
      } else {
        assert p in middlewares && k in middlewares[p] && m'[p][k] == middlewares[p][k];
        assert k < |log| && log[k] == Registration(p, middlewares[p][k]);
        assert log'[k] == log[k];
      }
    }
    forall k | 0 <= k < |log'|
      ensures log'[k].path in m' && k in m'[log'[k].path]
    {
      if k < |log| {
        assert log'[k] == log[k];
      }
    }
  }

  // ------------------------------------------------ handlers in registration order

  /** The registrations of the log made under one of `paths`, keyed by number. */
  function Selected(log: seq<Registration>, paths: seq<string>): map<nat, Middleware> {
    map k: nat | k < |log| && log[k].path in paths :: log[k].handler
  }

  /** The handlers of the registrations made under one of `paths`, in the order they
      were registered. */
  function Registered(log: seq<Registration>, paths: seq<string>): (r: seq<Middleware>)
    ensures |r| <= |log|
  {
    if |log| == 0 then []
    else
      var last := log[|log| - 1];
      Registered(log[..|log| - 1], paths) + (if last.path in paths then [last.handler] else [])
  }

  /** What the loop collects is exactly the registrations under the matched paths. */
  lemma {:induction false} CollectSelected(
    middlewares: map<string, map<nat, Middleware>>, log: seq<Registration>, matched: seq<string>)
    requires Consistent(middlewares, log)
    ensures Collect(middlewares, matched) == Selected(log, matched)
    decreases |matched|
  {
    if |matched| != 0 {
      var init := matched[..|matched| - 1];
      var p := matched[|matched| - 1];
      CollectSelected(middlewares, log, init);
      SelectedStep(middlewares, log, init, p);
      assert init + [p] == matched;
    }
  }

  /** The handlers of one more matched path are the registrations made under it. */
  lemma SelectedStep(
    middlewares: map<string, map<nat, Middleware>>, log: seq<Registration>, init: seq<string>, p: string)
    requires Consistent(middlewares, log)
    ensures Selected(log, init) + Handlers(middlewares, p) == Selected(log, init + [p])
  {
    var lhs := Selected(log, init) + Handlers(middlewares, p);
    var rhs := Selected(log, init + [p]);
    assert forall q :: q in init + [p] <==> q in init || q == p;
    forall k | k in Handlers(middlewares, p)
      ensures k < |log| && log[k] == Registration(p, Handlers(middlewares, p)[k])
    {
    }
    forall k: nat | k < |log| && log[k].path == p
      ensures k in Handlers(middlewares, p)
    {
    }
    assert lhs.Keys == rhs.Keys;
    assert forall k :: k in lhs ==> lhs[k] == rhs[k];
  }

  /** Listing the selected handlers by increasing number below `n` lists the
      registrations among the first `n` in order. */
  lemma {:induction false} SelectedInKeyOrder(log: seq<Registration>, paths: seq<string>, n: nat)
    requires n <= |log|
    ensures InKeyOrder(Selected(log, paths), n) == Registered(log[..n], paths)
  {
    if n > 0 {
      SelectedInKeyOrder(log, paths, n - 1);
      InKeyOrderStep(Selected(log, paths), n - 1);
      assert log[..n][..n - 1] == log[..n - 1];
    }
  }

  /** When every registration is under a matched path, all of them are kept, in the
      order they were registered. */
  lemma {:induction false} RegisteredAllMatched(log: seq<Registration>, paths: seq<string>)
    requires forall k :: 0 <= k < |log| ==> log[k].path in paths
    ensures |Registered(log, paths)| == |log|
    ensures forall k :: 0 <= k < |log| ==> Registered(log, paths)[k] == log[k].handler
    decreases |log|
  {
    if log != [] {
      RegisteredAllMatched(log[..|log| - 1], paths);
    }
  }

  /** Every registration matched, every handler calling `next` once: each handler is
      entered once, in registration order whatever paths they were registered under,
      and then the endpoint runs. */
  lemma AllMatchedRunInOrder(log: seq<Registration>, paths: seq<string>, endpoint: HandlerFunc)
    requires forall k :: 0 <= k < |log| ==> log[k].path in paths && log[k].handler.nextCalls == 1
    ensures var trace := Run(Registered(log, paths), endpoint);
      |trace| == |log| + |endpoint()| &&
      (forall k :: 0 <= k < |log| ==> trace[k] == Entered(log[k].handler.id)) &&
      trace[|log|..] == endpoint()
  {
    RegisteredAllMatched(log, paths);
    var mws := Registered(log, paths);
    AllPass(mws, endpoint);
    assert (Entries(mws) + endpoint())[|log|..] == endpoint();
  }
}
