/**
 * middleware/chain.go: an ordered list of middleware constructors that wraps an
 * endpoint so that the first constructor of the list is the outermost layer.
 */
module Chains {
  import opened Http

  /** A chain is a value: once built it holds the same constructors in the same
      order, whatever later happens to the list it was built from. */
  datatype Chain = Chain(middleware: seq<Middleware>)
  {
    /** Then: wraps `endpoint` (nil stands for DefaultServeMux) from the last
        constructor to the first, giving m1(m2(...mn(endpoint))). The chain itself
        is a value and stays as it was. */
    method Then(endpoint: Handler) returns (h: Handler)
      ensures h == Compose(middleware, if endpoint == Nil then DefaultServeMux else endpoint)
    {
      var e := endpoint;
      if e == Nil {
        e := DefaultServeMux;
      }
      ghost var start := e;
      var n := |middleware|;
      for i := 0 to n
        invariant e == Compose(middleware[n - i..], start)
      {
        assert middleware[n - (i + 1)..][1..] == middleware[n - i..];
        e := Apply(middleware[n - 1 - i], e);
      }
      assert middleware[n - n..] == middleware;
      h := e;
    }

    /** ThenFunc: Then for a function endpoint, with a nil function treated as
        Then(nil) rather than as a non-nil handler around nothing. */
    method ThenFunc(endpointFunc: HandlerFunc) returns (h: Handler)
      ensures endpointFunc == NilFunc ==> h == Compose(middleware, DefaultServeMux)
      ensures endpointFunc.Fn? ==> h == Compose(middleware, Func(endpointFunc.id))
    {
      if endpointFunc == NilFunc {
        h := Then(Nil);
      } else {
        h := Then(endpointFunc.AsHandler());
      }
    }
  }

  /** Stack(m...): the chain holding exactly the given constructors, in order. */
  function Stack(middleware: seq<Middleware>): (c: Chain)
    ensures |c.middleware| == |middleware|
    ensures forall i :: 0 <= i < |middleware| ==> c.middleware[i] == middleware[i]
  {
    Chain(middleware)
  }

  /** The handler m1(m2(...mn(h))) for ms = [m1, ..., mn]. */
  function Compose(ms: seq<Middleware>, h: Handler): Handler
  {
    if ms == [] then h else Apply(ms[0], Compose(ms[1..], h))
  }

  /** Splitting a chain: composing a + b around h is composing a around the
      composition of b around h. */
  lemma {:induction false} ComposeSplit(a: seq<Middleware>, b: seq<Middleware>, h: Handler)
    ensures Compose(a + b, h) == Compose(a, Compose(b, h))
    decreases |a|
  {
    if a == [] {
      assert a + b == b;
    } else {
      assert (a + b)[0] == a[0] && (a + b)[1..] == a[1..] + b;
      ComposeSplit(a[1..], b, h);
    }
  }

  /** The last constructor of the list is the one applied directly to the endpoint. */
  lemma InnermostIsLast(ms: seq<Middleware>, h: Handler)
    requires |ms| > 0
    ensures Compose(ms, h) == Compose(ms[..|ms| - 1], Apply(ms[|ms| - 1], h))
  {
    ComposeSplit(ms[..|ms| - 1], [ms[|ms| - 1]], h);
    assert ms[..|ms| - 1] + [ms[|ms| - 1]] == ms;
  }

  /** An empty chain hands back its endpoint. */
  lemma EmptyChainIsIdentity(h: Handler)
    ensures Compose(Stack([]).middleware, h) == h
  {
  }
}
