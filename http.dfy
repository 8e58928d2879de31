/**
 * The parts of net/http that the router passes around without looking inside.
 * Handlers and middleware are symbolic: a handler value records where it came
 * from, so that compositions of middleware can be compared for equality.
 */
module Http {

  /** A middleware constructor, func(http.Handler) http.Handler, named by an identity. */
  datatype Middleware = Middleware(id: nat)

  /** An http.Handler value. */
  datatype Handler =
    | Nil                                     // the nil interface value
    | Func(id: nat)                           // http.HandlerFunc(f) for an application function f
    | DefaultServeMux                         // http.DefaultServeMux
    | NotFoundHandler                         // http.NotFoundHandler(), the generic 404 reply
    | Wrapped(mw: Middleware, inner: Handler) // what middleware `mw` returned when given `inner`

  /** An http.HandlerFunc value, which may be a nil function. */
  datatype HandlerFunc = NilFunc | Fn(id: nat)
  {
    /** The conversion http.Handler(f) for a non-nil function. */
    function AsHandler(): (h: Handler)
      requires Fn?
      ensures h != Nil
    {
      Func(id)
    }
  }

  /** Applying a middleware constructor to a handler. */
  function Apply(m: Middleware, h: Handler): Handler
  {
    Wrapped(m, h)
  }
}
