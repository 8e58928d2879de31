/**
 * route.go: a route is a table from request method to handler, plus the pattern
 * it was registered under. Both are updated in place by the setters, which hand
 * back the route itself so that calls can be chained.
 */
module Routes {
  import opened Http

  /** Method is Go's int8; the seven standard methods are the constants 0..6. */
  newtype Method = x: int | -128 <= x < 128

  const MethodGet: Method := 0
  const MethodPost: Method := 1
  const MethodPut: Method := 2
  const MethodDelete: Method := 3
  const MethodOptions: Method := 4
  const MethodPatch: Method := 5
  const MethodHead: Method := 6

  class Route {
    var handlers: map<Method, Handler>
    var pattern: string

    /** NewRoute: an empty handler table and the empty pattern. */
    constructor ()
      ensures forall m :: !HasHandler(m)
      ensures handlers == map[]
      ensures pattern == ""
    {
      handlers := map[];
      pattern := "";
    }

    /** Registers `h` for `m`, replacing what `m` had; the other methods and the
        pattern are untouched, and the route itself is returned. */
    method AddHandler(m: Method, h: Handler) returns (self: Route)
      modifies this
      ensures self == this
      ensures HasHandler(m) && GetHandler(m) == h
      ensures forall other :: other != m ==>
                (HasHandler(other) == old(HasHandler(other)) && GetHandler(other) == old(GetHandler(other)))
      ensures handlers == old(handlers)[m := h]
      ensures pattern == old(pattern)
    {
      handlers := handlers[m := h];
      self := this;
    }

    /** The handler for `m`; the zero value nil when `m` has none. */
    function GetHandler(m: Method): (h: Handler)
      reads this
      ensures !HasHandler(m) ==> h == Nil
      ensures HasHandler(m) ==> h == handlers[m]
    {
      if m in handlers then handlers[m] else Nil
    }

    predicate HasHandler(m: Method)
      reads this
    {
      m in handlers
    }

    /** Replaces the pattern; the handler table is untouched. */
    method SetPattern(p: string) returns (self: Route)
      modifies this
      ensures self == this
      ensures GetPattern() == p
      ensures handlers == old(handlers)
    {
      pattern := p;
      self := this;
    }

    function GetPattern(): string
      reads this
    {
      pattern
    }
  }

  /** Repeating an identical AddHandler call leaves the same table. */
  lemma AddHandlerIdempotent(hs: map<Method, Handler>, m: Method, h: Handler)
    ensures hs[m := h][m := h] == hs[m := h]
  {
  }
}
