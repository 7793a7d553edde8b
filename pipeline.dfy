/** The middleware pipeline: every middleware receives the handler built from the ones
    after it as `next`, and the endpoint handler comes last.

    A handler is modelled by the trace of events it produces when it is called: which
    middlewares were entered, in order, and each time the endpoint was reached. The
    body of a middleware is not part of the multiplexer; it is modelled by how many
    times it calls `next` after it is entered (0 when it answers the request itself). */
module Pipeline {

  datatype Event = Entered(id: nat) | Terminal

  /** A registered middleware: its registration number and how often it calls `next`. */
  datatype Middleware = Middleware(id: nat, nextCalls: nat)

  /** `http.HandlerFunc`: calling it produces a trace. */
  type HandlerFunc = () -> seq<Event>

  /** `n` runs of a handler, one after the other. */
  function Repeat(trace: seq<Event>, n: nat): seq<Event> {
    if n == 0 then [] else Repeat(trace, n - 1) + trace
  }

  /** Calling `next` once runs it once. */
  lemma RepeatOnce(trace: seq<Event>)
    ensures Repeat(trace, 1) == trace
  {
    assert Repeat(trace, 0) == [];
    assert [] + trace == trace;
  }

  /** The trace of a middleware called with a `next` whose own trace is `nextTrace`. */
  function Serve(mw: Middleware, nextTrace: seq<Event>): seq<Event> {
    [Entered(mw.id)] + Repeat(nextTrace, mw.nextCalls)
  }

  /** `createFunc`: the handler that calls the middleware with `next`. */
  function CreateFunc(mw: Middleware, next: HandlerFunc): HandlerFunc
  {
    () => Serve(mw, next())
  }

  /** What the pipeline over `mws` in front of `endpoint` does when called. */
  function Run(mws: seq<Middleware>, endpoint: HandlerFunc): seq<Event>
    decreases |mws|
  {
    if |mws| == 0 then endpoint() else Serve(mws[0], Run(mws[1..], endpoint))
  }

  /** `createMiddlewarePipeline`: wraps the handlers from the last to the first; the
      result is the endpoint itself when there are no middlewares. */
  method CreateMiddlewarePipeline(mws: seq<Middleware>, endpoint: HandlerFunc)
    returns (first: HandlerFunc)
    ensures first() == Run(mws, endpoint)
    ensures mws == [] ==> first == endpoint
  {
    var next := endpoint;
    var i := |mws|;
    while i > 0
      invariant 0 <= i <= |mws|
      invariant next() == Run(mws[i..], endpoint)
      invariant i == |mws| ==> next == endpoint
    {
      i := i - 1;
      assert mws[i..][1..] == mws[i + 1..];
      next := CreateFunc(mws[i], next);
    }
    first := next;
  }

  /** The entry events of the middlewares, in order. */
  function Entries(mws: seq<Middleware>): (r: seq<Event>)
    ensures |r| == |mws|
    ensures forall k :: 0 <= k < |mws| ==> r[k] == Entered(mws[k].id)
  {
    if |mws| == 0 then [] else [Entered(mws[0].id)] + Entries(mws[1..])
  }

  /** When every middleware calls `next` once, the middlewares run in slice order and
      then the endpoint runs once. */
  lemma {:induction false} AllPass(mws: seq<Middleware>, endpoint: HandlerFunc)
    requires forall k :: 0 <= k < |mws| ==> mws[k].nextCalls == 1
    ensures Run(mws, endpoint) == Entries(mws) + endpoint()
    decreases |mws|
  {
    if mws != [] {
      AllPass(mws[1..], endpoint);
      var rest := Run(mws[1..], endpoint);
      RepeatOnce(rest);
      assert Run(mws, endpoint) == [Entered(mws[0].id)] + rest;
      assert Entries(mws) == [Entered(mws[0].id)] + Entries(mws[1..]);
    }
  }

  /** A middleware that does not call `next` ends the pipeline: when the ones before it
      call `next` once, exactly the middlewares up to it run, and the endpoint does not. */
  lemma {:induction false} ShortCircuit(mws: seq<Middleware>, endpoint: HandlerFunc, k: nat)
    requires k < |mws| && mws[k].nextCalls == 0
    requires forall j :: 0 <= j < k ==> mws[j].nextCalls == 1
    ensures Run(mws, endpoint) == Entries(mws[..k + 1])
    decreases k
  {
    if k == 0 {
      assert mws[..1] == [mws[0]];
    } else {
      ShortCircuit(mws[1..], endpoint, k - 1);
      var rest := Run(mws[1..], endpoint);
      RepeatOnce(rest);
      assert mws[..k + 1][1..] == mws[1..][..k];
    }
  }

  /** Every event of a pipeline's trace comes from one of its middlewares or from the
      endpoint. */
  lemma {:induction false} RunEvents(mws: seq<Middleware>, endpoint: HandlerFunc, e: Event)
    requires e in Run(mws, endpoint)
    ensures e in endpoint() || exists k :: 0 <= k < |mws| && e == Entered(mws[k].id)
    decreases |mws|
  {
    if mws != [] {
      var rest := Run(mws[1..], endpoint);
      if e != Entered(mws[0].id) {
        RepeatEvents(rest, mws[0].nextCalls, e);
        RunEvents(mws[1..], endpoint, e);
        if e !in endpoint() {
          var k :| 0 <= k < |mws[1..]| && e == Entered(mws[1..][k].id);
          assert mws[k + 1] == mws[1..][k];
        }
      }
    }
  }

  lemma {:induction false} RepeatEvents(trace: seq<Event>, n: nat, e: Event)
    requires e in Repeat(trace, n)
    ensures e in trace
  {
    if n > 0 && e !in trace {
      RepeatEvents(trace, n - 1, e);
    }
  }
}
