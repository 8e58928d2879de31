/**
 * router.go: the router object. It registers routes in its trie, and for each
 * request it decides, in this order: reject an unknown method, redirect to the
 * canonical form of a path that is not clean, look the (optionally lower-cased)
 * path up in the trie, and reply with the not-found handler or the matched
 * route's handler for the method.
 *
 * Writing to the network is not modelled: serving a request yields the outcome
 * the router chose, in the order the source produces them.
 */
module Routers {
  import opened Options
  import opened Strings
  import opened Paths
  import opened Http
  import opened Routes
  import opened Trees

  /** The method number of a name that is not in the table. */
  const MethodNotFound: Method := -1

  /** methodsMap: the seven standard method names and their numbers. */
  const MethodsMap: map<string, Method> :=
    map["GET" := MethodGet, "POST" := MethodPost, "PUT" := MethodPut, "DELETE" := MethodDelete,
        "PATCH" := MethodPatch, "OPTIONS" := MethodOptions, "HEAD" := MethodHead]

  /** The method table consulted for every request. */
  class Methods {
    var ms: map<string, Method>

    /** newMethods: the table starts as the standard one. */
    constructor ()
      ensures ms == MethodsMap
    {
      ms := MethodsMap;
    }

    /** lookupMethod: the number registered for `name`, or MethodNotFound. */
    function LookupMethod(name: string): (m: Method)
      reads this
      ensures name in ms ==> m == ms[name]
      ensures name !in ms ==> m == MethodNotFound
    {
      if name in ms then ms[name] else MethodNotFound
    }

    /** Set: registers (or renumbers) the method `name`; every other name keeps
        its number. */
    method Set(name: string, m: Method)
      modifies this
      ensures ms == old(ms)[name := m]
      ensures LookupMethod(name) == m
      ensures forall other :: other != name ==> LookupMethod(other) == old(LookupMethod(other))
    {
      ms := ms[name := m];
    }
  }

  /** With the standard table, exactly the seven standard names are known, each
      to its own constant, and no two names share a number. */
  lemma StandardMethods(t: Methods, name: string)
    requires t.ms == MethodsMap
    ensures t.LookupMethod(name) != MethodNotFound <==>
              name in {"GET", "POST", "PUT", "DELETE", "PATCH", "OPTIONS", "HEAD"}
    ensures t.LookupMethod("GET") == MethodGet && t.LookupMethod("POST") == MethodPost
    ensures t.LookupMethod("PUT") == MethodPut && t.LookupMethod("DELETE") == MethodDelete
    ensures t.LookupMethod("PATCH") == MethodPatch && t.LookupMethod("OPTIONS") == MethodOptions
    ensures t.LookupMethod("HEAD") == MethodHead
    ensures forall a, b :: a in MethodsMap && b in MethodsMap && a != b ==> MethodsMap[a] != MethodsMap[b]
  {
  }

  /** The method numbers: methodsMap gives the seven constants 0..6 of route.go,
      in the order GET, POST, PUT, DELETE, OPTIONS, PATCH, HEAD, and
      methodNotFound (-1) is none of them. */
  lemma MethodNumbers()
    ensures MethodsMap.Values == {0, 1, 2, 3, 4, 5, 6}
    ensures MethodGet == 0 && MethodPost == 1 && MethodPut == 2 && MethodDelete == 3
    ensures MethodOptions == 4 && MethodPatch == 5 && MethodHead == 6
    ensures MethodNotFound !in MethodsMap.Values
  {
    assert MethodsMap["GET"] == 0 && MethodsMap["POST"] == 1 && MethodsMap["PUT"] == 2;
    assert MethodsMap["DELETE"] == 3 && MethodsMap["OPTIONS"] == 4 && MethodsMap["PATCH"] == 5;
    assert MethodsMap["HEAD"] == 6;
  }

  /** cleanPath: the canonical form of a request path. The empty path becomes
      "/", a missing leading slash is added, the path is cleaned, and a trailing
      slash of the original is kept. */
  function CleanPath(p: string): (r: string)
    ensures |r| > 0 && r[0] == '/'
    ensures r != "/" ==> p != "" && (r[|r| - 1] == '/' <==> p[|p| - 1] == '/')
  {
    if p == "" then "/"
    else
      var q := if p[0] != '/' then "/" + p else p;
      assert q[|q| - 1] == p[|p| - 1];
      var np := Clean(q);
      if q[|q| - 1] == '/' && np != "/" then np + "/" else np
  }

  /** A path that cleanPath gives back is clean already: redirecting to it
      never asks for another redirect. */
  lemma CleanPathIdempotent(p: string)
    ensures CleanPath(CleanPath(p)) == CleanPath(p)
  {
    if p != "" {
      var q := if p[0] != '/' then "/" + p else p;
      var np := Clean(q);
      CleanIdempotent(q);
      if q[|q| - 1] == '/' && np != "/" {
        CleanTrailingSlash(np);
      }
    } else {
      CleanIdempotent("/");
    }
  }

  /** The part of an incoming request that the router looks at: the method name (`verb`),
      the decoded URL path and its escaped form. */
  datatype Request = Request(verb: string, path: string, escapedPath: string)

  /** What the router does with a request. A reply carries the request path that
      the handler sees (lower-cased unless the router is case sensitive). */
  datatype Outcome =
    | Redirect(location: string)                            // 301 with this Location
    | NotFoundReply(handler: Handler, path: string)         // the router's not-found handler
    | Dispatch(route: Route, handler: Handler, path: string) // the matched route's handler
    | Panic                                                 // a call through a nil value

  /** The redirect a request asks for: none when cleaning is switched off or the
      path (escaped, if so configured) is clean; otherwise its clean form, which
      is itself clean and differs from the request's path. */
  function RedirectTarget(req: Request, skipClean: bool, useEncodedPath: bool): (r: Option<string>)
    ensures var p := if useEncodedPath then req.escapedPath else req.path;
            r.None? <==> (skipClean || CleanPath(p) == p)
    ensures r.Some? ==> r.value == CleanPath(if useEncodedPath then req.escapedPath else req.path)
    ensures r.Some? ==> r.value != (if useEncodedPath then req.escapedPath else req.path)
    ensures r.Some? ==> CleanPath(r.value) == r.value && r.value[0] == '/'
  {
    var p := if useEncodedPath then req.escapedPath else req.path;
    CleanPathIdempotent(p);
    if skipClean || CleanPath(p) == p then None else Some(CleanPath(p))
  }

  /** The path handed to the trie: lower-cased unless the router is case sensitive. */
  function FindPath(req: Request, caseSensitiveURL: bool): (p: string)
    ensures |p| == |req.path|
    ensures caseSensitiveURL ==> p == req.path
    ensures !caseSensitiveURL ==> forall i :: 0 <= i < |p| ==> p[i] == LowerChar(req.path[i]) && !('A' <= p[i] <= 'Z')
  {
    if caseSensitiveURL then req.path else ToLower(req.path)
  }

  class Router {
    var notFoundHandler: Handler
    var strictSlash: bool
    var skipClean: bool
    var useEncodedPath: bool
    var caseSensitiveURL: bool
    /** Whether a tree constructor was supplied (UseTree); the trie it builds is Trees.Tree. */
    var hasTreeConstructor: bool
    var tree: Tree?

    ghost predicate Valid()
      reads this, tree
    {
      tree != null ==> tree.Valid()
    }

    /** NewRouter: every setting is off, with no not-found handler, no tree
        constructor and no tree. */
    constructor ()
      ensures Valid()
      ensures notFoundHandler == Nil && !strictSlash && !skipClean && !useEncodedPath && !caseSensitiveURL
      ensures !hasTreeConstructor && tree == null
    {
      notFoundHandler := Nil;
      strictSlash, skipClean, useEncodedPath, caseSensitiveURL := false, false, false, false;
      hasTreeConstructor := false;
      tree := null;
    }

    /** UseTree: supplies the tree constructor; nothing else changes. */
    method UseTree()
      modifies this
      ensures hasTreeConstructor
      ensures tree == old(tree) && notFoundHandler == old(notFoundHandler)
      ensures skipClean == old(skipClean) && useEncodedPath == old(useEncodedPath)
      ensures caseSensitiveURL == old(caseSensitiveURL) && strictSlash == old(strictSlash)
    {
      hasTreeConstructor := true;
    }

    /** notFoundHandler: the configured handler, or http.NotFoundHandler() when
        none is configured; never nil. */
    function NotFound(): (h: Handler)
      reads this
      ensures h != Nil
      ensures notFoundHandler != Nil ==> h == notFoundHandler
      ensures notFoundHandler == Nil ==> h == NotFoundHandler
    {
      if notFoundHandler == Nil then NotFoundHandler else notFoundHandler
    }

    /** The trie registration starts from: the tree's, or the root-only trie a
        fresh tree holds. */
    ghost function Arena(): (a: seq<TrieNode>)
      reads this, tree
      requires Valid()
      ensures WellFormed(a)
      ensures tree == null ==> a == EmptyTrie
    {
      EmptyTrieWellFormed();
      if tree == null then EmptyTrie else tree.arena
    }

    /** The route the pattern `pattern` leads to in the current tree, if any. */
    ghost function RouteAt(pattern: string): set<Route?>
      reads this, tree
      requires Valid()
    {
      if tree == null then {} else MergeTarget(tree.arena, PathSegments(pattern))
    }

    /** The tree RegisterRoute inserts into: the existing one, or else a fresh one
        from the tree constructor. With neither, the source calls the nil
        constructor and panics: `ok` is false and nothing changes. Only the tree
        field changes. */
    method EnsureTree() returns (ok: bool)
      requires Valid()
      modifies this
      ensures Valid()
      ensures ok <==> (old(tree) != null || hasTreeConstructor)
      ensures old(tree) != null ==> tree == old(tree)
      ensures old(tree) == null && ok ==> fresh(tree) && tree.arena == EmptyTrie
      ensures !ok ==> tree == null
      ensures notFoundHandler == old(notFoundHandler) && hasTreeConstructor == old(hasTreeConstructor)
      ensures skipClean == old(skipClean) && useEncodedPath == old(useEncodedPath)
      ensures caseSensitiveURL == old(caseSensitiveURL) && strictSlash == old(strictSlash)
    {
      if tree == null {
        if !hasTreeConstructor {
          return false;
        }
        tree := new Tree();
      }
      return true;
    }

    /** RegisterRoute: builds the tree on first use, then inserts a fresh route for
        `pattern` holding `handler` for `m`. Afterwards the pattern leads to a route
        whose handler for `m` is `handler`; a route already there keeps its other
        methods. The fresh route is returned. With neither a tree nor a tree
        constructor the source panics: the result is null and nothing changes. */
    method RegisterRoute(m: Method, pattern: string, handler: Handler) returns (r: Route?)
      requires Valid()
      requires InteriorNonEmpty(PathSegments(pattern))
      modifies this, tree, RouteAt(pattern)
      ensures Valid()
      ensures old(tree) != null ==> tree == old(tree)
      ensures r == null <==> (old(tree) == null && !old(hasTreeConstructor))
      ensures r == null ==> tree == null && hasTreeConstructor == old(hasTreeConstructor)
      ensures r != null ==>
                && tree != null
                && fresh(r) && r.pattern == pattern && r.handlers == map[m := handler]
                && Extends(old(Arena()), tree.arena)
                && tree.arena == Inserted(old(Arena()), PathSegments(pattern), r)
                && (old(RouteFor(Arena(), PathSegments(pattern))) == null ==> RouteFor(tree.arena, PathSegments(pattern)) == r)
                && var rt := RouteFor(tree.arena, PathSegments(pattern)); rt != null && rt.GetHandler(m) == handler
      ensures forall t :: t in old(RouteAt(pattern)) ==>
                t != null && t.handlers == old(t.handlers)[m := handler] && t.pattern == old(t.pattern)
      ensures notFoundHandler == old(notFoundHandler) && hasTreeConstructor == old(hasTreeConstructor)
      ensures skipClean == old(skipClean) && useEncodedPath == old(useEncodedPath)
      ensures caseSensitiveURL == old(caseSensitiveURL) && strictSlash == old(strictSlash)
    {
      ghost var before := RouteAt(pattern);
      var ok := EnsureTree();
      if !ok {
        return null;
      }
      if old(tree) == null {
        FreshTreeHasNoTarget(PathSegments(pattern));
      }
      assert RouteAt(pattern) == before;
      r := AddRoute(m, pattern, handler);
    }

    /** RegisterRoute once the tree exists. */
    method AddRoute(m: Method, pattern: string, handler: Handler) returns (r: Route)
      requires Valid() && tree != null
      requires InteriorNonEmpty(PathSegments(pattern))
      modifies tree, RouteAt(pattern)
      ensures Valid()
      ensures fresh(r) && r.pattern == pattern && r.handlers == map[m := handler]
      ensures Extends(old(tree.arena), tree.arena)
      ensures tree.arena == Inserted(old(tree.arena), PathSegments(pattern), r)
      ensures old(RouteFor(tree.arena, PathSegments(pattern))) == null ==> RouteFor(tree.arena, PathSegments(pattern)) == r
      ensures var rt := RouteFor(tree.arena, PathSegments(pattern)); rt != null && rt.GetHandler(m) == handler
      ensures var prev := old(RouteFor(tree.arena, PathSegments(pattern)));
              prev != null ==> prev.handlers == old(prev.handlers)[m := handler] && prev.pattern == old(prev.pattern)
    {
      var route := NewRouteFor(m, pattern, handler);
      r := tree.Insert(route);
    }

    /** The outcome for a request whose method number is `m`, once the method check
        is behind: the redirect if the path is not clean, otherwise the trie
        lookup on the (lower-cased) path, which gives the not-found reply when
        nothing or a node without a route is found, and the route's handler for
        `m` otherwise; with no tree, or no handler for `m`, the source calls
        through nil. */
    ghost function Decision(m: Method, req: Request, re: RegexEngine): (o: Outcome)
      reads this, tree, if tree == null then {} else Leaves(tree.arena)
      requires Valid()
      ensures o.Redirect? <==> RedirectTarget(req, skipClean, useEncodedPath).Some?
      ensures o.Redirect? ==> o.location == RedirectTarget(req, skipClean, useEncodedPath).value
      ensures o.NotFoundReply? ==> o.handler == NotFound() && o.path == FindPath(req, caseSensitiveURL)
      ensures o.Dispatch? ==>
                (&& tree != null && o.handler != Nil && o.handler == o.route.GetHandler(m)
                 && o.path == FindPath(req, caseSensitiveURL)
                 && FindSpec(tree.arena, o.path, re) == Hit(o.route, SegParams(PathSegments(o.path))))
      ensures RedirectTarget(req, skipClean, useEncodedPath).None? && tree != null ==>
                var p := FindPath(req, caseSensitiveURL);
                var l := FindSpec(tree.arena, p, re);
                && (l.Miss? || l.leaf == null ==> o == NotFoundReply(NotFound(), p))
                && (l.Hit? && l.leaf != null && l.leaf.GetHandler(m) != Nil ==>
                      o == Dispatch(l.leaf, l.leaf.GetHandler(m), p))
      ensures o == Panic <==>
                (&& RedirectTarget(req, skipClean, useEncodedPath).None?
                 && (|| tree == null
                     || (var l := FindSpec(tree.arena, FindPath(req, caseSensitiveURL), re);
                         l.Hit? && l.leaf != null && l.leaf.GetHandler(m) == Nil)))
    {
      match RedirectTarget(req, skipClean, useEncodedPath)
      case Some(loc) => Redirect(loc)
      case None =>
        var p := FindPath(req, caseSensitiveURL);
        if tree == null then Panic
        else
          var l := FindSpec(tree.arena, p, re);
          if l.Miss? || l.leaf == null then NotFoundReply(NotFound(), p)
          else
            var h := l.leaf.GetHandler(m);
            if h == Nil then Panic else Dispatch(l.leaf, h, p)
    }

    /** Everything ServeHTTP does after the method check. */
    method Respond(m: Method, req: Request, re: RegexEngine) returns (o: Outcome)
      requires Valid()
      ensures o == Decision(m, req, re)
    {
      var loc := RedirectTarget(req, skipClean, useEncodedPath);
      if loc.Some? {
        return Redirect(loc.value);
      }
      var p := FindPath(req, caseSensitiveURL);
      if tree == null {
        return Panic;
      }
      var root := tree.GetRoot();
      var l := tree.Find(root, m, p, re);
      if l.Miss? || l.leaf == null {
        return NotFoundReply(NotFound(), p);
      }
      assert l.leaf in Leaves(tree.arena);
      var h := l.leaf.GetHandler(m);
      if h == Nil {
        return Panic;
      }
      return Dispatch(l.leaf, h, p);
    }

    /** The decision the router evidently intends: where the source calls through
        nil (no tree yet, or a matched route without a handler for the method), the
        request gets the not-found reply like any other failed lookup. */
    ghost function IntendedDecision(m: Method, req: Request, re: RegexEngine): (o: Outcome)
      reads this, tree, if tree == null then {} else Leaves(tree.arena)
      requires Valid()
      ensures o != Panic
      ensures Decision(m, req, re) != Panic ==> o == Decision(m, req, re)
      ensures Decision(m, req, re) == Panic ==> o == NotFoundReply(NotFound(), FindPath(req, caseSensitiveURL))
    {
      var d := Decision(m, req, re);
      if d.Panic? then NotFoundReply(NotFound(), FindPath(req, caseSensitiveURL)) else d
    }

    /** ServeHTTP as evidently intended: a request with an unknown method gets the
        not-found reply and nothing else, and no request ends in a call through nil. */
    method ServeHTTP(methods: Methods, req: Request, re: RegexEngine) returns (o: Outcome)
      requires Valid()
      ensures o != Panic
      ensures methods.LookupMethod(req.verb) == MethodNotFound ==> o == NotFoundReply(NotFound(), req.path)
      ensures methods.LookupMethod(req.verb) != MethodNotFound ==> o == IntendedDecision(methods.LookupMethod(req.verb), req, re)
    {
      var m := methods.LookupMethod(req.verb);
      if m == MethodNotFound {
        return NotFoundReply(NotFound(), req.path);
      }
      o := Respond(m, req, re);
      if o == Panic {
        o := NotFoundReply(NotFound(), FindPath(req, caseSensitiveURL));
      }
    }

    /** ServeHTTP as the source writes it: the not-found reply for an unknown
        method is not followed by a return, so the request then goes on through
        the redirect check and the lookup with method number -1 and gets a second
        outcome. */
    method ServeHTTPAsWritten(methods: Methods, req: Request, re: RegexEngine) returns (out: seq<Outcome>)
      requires Valid()
      ensures methods.LookupMethod(req.verb) == MethodNotFound ==>
                out == [NotFoundReply(NotFound(), req.path), Decision(MethodNotFound, req, re)]
      ensures methods.LookupMethod(req.verb) != MethodNotFound ==>
                out == [Decision(methods.LookupMethod(req.verb), req, re)]
    {
      var m := methods.LookupMethod(req.verb);
      out := [];
      if m == MethodNotFound {
        out := [NotFoundReply(NotFound(), req.path)];
      }
      var o := Respond(m, req, re);
      out := out + [o];
    }
  }

  /** The route RegisterRoute builds: NewRoute, AddHandler(m, h), SetPattern(pattern). */
  method NewRouteFor(m: Method, pattern: string, h: Handler) returns (r: Route)
    ensures fresh(r) && r.pattern == pattern && r.handlers == map[m := h]
  {
    r := new Route();
    r := r.AddHandler(m, h);
    r := r.SetPattern(pattern);
  }

  /** A tree holding only its root has no route for any pattern yet. */
  lemma FreshTreeHasNoTarget(segs: seq<string>)
    requires |segs| >= 1
    ensures WellFormed(EmptyTrie)
    ensures MergeTarget(EmptyTrie, segs) == {}
  {
    var a := EmptyTrie;
    assert NodeOk(a, 0);
    assert Kids(a, 0, CheckNodeType(segs[0])) == [];
  }

  /** Following a redirect the router issued does not lead to another redirect:
      the same request at the new location is not redirected. The follow-up
      request carries the location as both its path and its escaped path, that
      is, the cleaned location is taken to need no further escaping. */
  lemma RedirectSettles(req: Request, skipClean: bool, useEncodedPath: bool)
    requires RedirectTarget(req, skipClean, useEncodedPath).Some?
    ensures var loc := RedirectTarget(req, skipClean, useEncodedPath).value;
            RedirectTarget(Request(req.verb, loc, loc), skipClean, useEncodedPath).None?
  {
  }

  /** For a method the table does not know, the source's ServeHTTP produces two
      outcomes where one is meant: the not-found reply, then whatever the lookup
      with method -1 decides (here: a redirect for "//a"). */
  lemma UnknownMethodAnsweredTwice(rt: Router, methods: Methods, re: RegexEngine)
    requires rt.Valid() && methods.ms == MethodsMap && !rt.skipClean && !rt.useEncodedPath
    ensures methods.LookupMethod("BREW") == MethodNotFound
    ensures rt.Decision(MethodNotFound, Request("BREW", "//a", "//a"), re) == Redirect("/a")
  {
    assert "BREW" !in MethodsMap;
    CleanDoubleSlash();
  }

  /** Not-found determinism: with no redirect due, a router without a tree, a
      lookup miss, a node without a route and a route without a handler for the
      method all give the not-found reply, never a call through nil. */
  lemma NotFoundDeterminism(rt: Router, m: Method, req: Request, re: RegexEngine)
    requires rt.Valid()
    requires RedirectTarget(req, rt.skipClean, rt.useEncodedPath).None?
    requires rt.tree == null ||
             var l := FindSpec(rt.tree.arena, FindPath(req, rt.caseSensitiveURL), re);
             l.Miss? || l.leaf == null || !l.leaf.HasHandler(m)
    ensures rt.IntendedDecision(m, req, re) == NotFoundReply(rt.NotFound(), FindPath(req, rt.caseSensitiveURL))
  {
  }

  /** The trie holding "/a", whose route `r` has a handler for GET only. */
  function GetOnlyTree(r: Route): seq<TrieNode>
  {
    [TrieNode("", Children([1], [], []), null, true), TrieNode("a", NoChildren, r, false)]
  }

  lemma GetOnlyTreeFinds(r: Route, re: RegexEngine)
    ensures WellFormed(GetOnlyTree(r))
    ensures FindSpec(GetOnlyTree(r), "/a", re).Hit? && FindSpec(GetOnlyTree(r), "/a", re).leaf == r
  {
    var a := GetOnlyTree(r);
    assert NodeOk(a, 0) by {
      forall t, j | 0 <= j < |a[0].nodes.Of(t)|
        ensures ChildOk(a, a[0].nodes.Of(t)[j], t)
      {
        assert t == Static && j == 0;
      }
    }
    assert NodeOk(a, 1);
    assert PathSegments("/a") == ["a"] by {
      assert Trim("/a") == "a";
      assert Split("a") == ["a"] by {
        assert "a"[1..] == "";
      }
    }
    assert MatchChild(a, 0, "a", re) == Some(1) by {
      assert Priority[1..] == [Static, Param];
      assert Kids(a, 0, Regex) == [] && Kids(a, 0, Static) == [1];
    }
  }

  lemma CleanSingle()
    ensures CleanPath("/a") == "/a"
  {
    assert Split("a") == ["a"] by {
      assert "a"[1..] == "";
    }
    SplitSlash("a");
    assert Resolve(["", "a"], []) == ["a"];
  }

  /** As written, a POST for "/a" where "/a" has a GET handler only makes the
      source call through the nil handler; the intended decision is the
      not-found reply. */
  lemma MissingMethodPanics(rt: Router, r: Route, re: RegexEngine)
    requires rt.tree != null && rt.tree.arena == GetOnlyTree(r) && rt.caseSensitiveURL
    requires r.handlers == map[MethodGet := Func(0)]
    ensures rt.Valid()
    ensures rt.Decision(MethodPost, Request("POST", "/a", "/a"), re) == Panic
    ensures rt.IntendedDecision(MethodPost, Request("POST", "/a", "/a"), re) == NotFoundReply(rt.NotFound(), "/a")
  {
    GetOnlyTreeFinds(r, re);
    CleanSingle();
    assert !r.HasHandler(MethodPost);
  }

  /** The path "//a" cleans to "/a". */
  lemma CleanDoubleSlash()
    ensures CleanPath("//a") == "/a"
  {
    assert Split("a") == ["a"] by {
      assert "a"[1..] == "";
    }
    SplitSlash("a");
    SplitSlash("/a");
    assert "//a" == "/" + "/a" && "/a" == "/" + "a";
    assert Split("//a") == ["", "", "a"];
    assert Resolve(["", "", "a"], []) == ["a"];
  }
}
