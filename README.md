# tmux routing core, modelled in Dafny

This project models the in-memory routing logic of the Go HTTP router `tmux`
(repository donutloop/trixie) and proves properties of that model:

- **Segment trie** (`tree.dfy`, tree.go). A registered pattern is trimmed of its
  slashes and split into segments. Each trie node stands for one segment and keeps
  three child lists, one per kind of segment: static text, a `:string` or `:number`
  parameter, or a `#` regular expression. `Insert` follows existing children while
  the segments are found, then appends fresh nodes for the rest and sets the last
  one's leaf route. When the whole pattern is already registered, the new route's
  handlers are merged into the existing leaf. `Find` walks the trie level by level
  and tries regex children first, then static, then parameter children; it returns
  the matched leaf with a `seg<i>` parameter map. The nodes live in an arena
  (`Tree.arena`): a node is its position, the root is position 0. Appending to an
  arena node's child list is the source's in-place `append`, and leaf routes stay
  shared objects.
- **Byte-labelled edge node** (`node.dfy`, node.go). A class with a leaf, a prefix
  and an edge list kept sorted by label. `AddEdge` inserts and sorts. `GetEdge` and
  `ReplaceEdge` binary-search.
- **Route handler table** (`route.dfy`, route.go). A class holding a per-method
  handler map and a pattern.
- **Registration validation** (`validator.dfy`, `errors.dfy`). The path validator
  and the `BadPathError` message.
- **Router** (`router.dfy`, router.go). This covers:
  - the method table;
  - `cleanPath` and the redirect it triggers;
  - not-found handler selection;
  - lazy tree construction in `RegisterRoute`;
  - the decision `ServeHTTP` takes for a request.

  The decision is a value (`Outcome`): redirect, not-found reply, dispatch to a
  route's handler, or a panic from calling through nil.
- **Middleware chain** (`chain.dfy`, middleware/chain.go). `Stack`, `Then` and
  `ThenFunc` over symbolic handlers (`http.dfy`), so that compositions can be
  compared for equality.

Supporting modules:
- `strings.dfy` holds the Go standard-library string operations the router uses:
  Trim and Split on "/", ASCII lower-casing and `%d` formatting.
- `paths.dfy` holds `path.Clean` for rooted paths, after its documented lexical
  rules.
- `options.dfy` holds the optional value.

Registration and lookup meet only in part. A pattern made of static segments,
with no regex child anywhere along its path, is found again by lookup. In general
this fails: a regex child that accepts a segment is committed to, and the search
never backs out of it (Trees.ShadowedRouteMissed).

Registering "/" creates a static child of the root whose segment is empty; the
root itself never gets a leaf.

## Model

| member | source | states |
|---|---|---|
| Trees.CheckNodeType | tree.go:136-147 | parameter exactly for ":string" and ":number"; regex exactly for a segment starting with '#'; static for everything else, including the empty segment |
| Trees.PathSegments | tree.go:43-45 | at least one segment; joining with '/' gives back the path with the slashes at both ends stripped; no segment holds '/'; only a lone segment can be empty at either end |
| Trees.RootPathSegments | tree.go:43-45 | "/" has the single empty segment |
| Trees.Children.Append | tree.go:117 | the list for the kind gains the node at its end; the other two lists are unchanged |
| Trees.SegIndex | tree.go:95-96 | the first position in a child list whose node has the segment textually; none before it has it; None when no node has it |
| Trees.Walk | tree.go:88-112 | the descent stays in the arena and consumes segments in order; when it stops early, the list for the next segment's kind has no node with that segment |
| Trees.AddChild | tree.go:114-117 | a fresh node for the segment is appended to the arena and to the end of the parent's list for its kind; the trie stays well formed and no node is removed or moved |
| Trees.Graft | tree.go:114-128 | the grafted chain adds one node per remaining segment and keeps the trie well formed |
| Trees.Inserted | tree.go:49-134 | the trie after an insert is well formed |
| Trees.GraftExtends | tree.go:114-128 | grafting keeps every existing node, segment, leaf and child at its place |
| Trees.GraftWalk | tree.go:114-129 | the descent follows a grafted chain to its end, at the node whose leaf is the new route |
| Trees.InsertedReaches | tree.go:49-134 | after inserting, the walk consumes every segment of the pattern; the node reached holds the previously registered route, or else the new one; nothing is removed or moved |
| Trees.MergeRoutes | tree.go:217-224 | the existing route gains the new route's handlers, and the new one wins on a shared method; its pattern is kept; the existing route is returned |
| Trees.FirstMatch | tree.go:171-190 | the first child in list order that accepts the segment; no child before it accepts; None when none accepts |
| Trees.SegMatches | tree.go:173-190 | a regex child accepts when its pattern after '#' compiles and is found in the segment; ":string" when the segment has an ASCII letter; ":number" when it has an ASCII digit; a static child when the text is equal |
| Trees.MatchChild | tree.go:170-211 | the child Find descends into is a non-root node of the arena |
| Trees.MatchOrder | tree.go:170-211 | regex children are tried before static and static before parameter; within a kind the first accepting child in insertion order wins; with no accepting child there is no match |
| Trees.FindFrom | tree.go:163-212 | the node Find ends at for the remaining segments: none at a node without children or at a level where no child accepts; otherwise the last segment's match, a non-root node |
| Trees.SegKey | tree.go:196 | the key "seg" followed by the position in decimal |
| Trees.SegParams | tree.go:193-197 | the parameter map built from the request segments, one entry per position |
| Trees.SegKeyInjective | tree.go:196 | different positions get different "seg<i>" keys |
| Trees.SegParamsExact | tree.go:194-197 | the parameter map has exactly one entry per request segment, "seg<i>" mapping to the i-th segment, literal segments included |
| Trees.FindSpec | tree.go:151-215 | Find's answer for a path: a hit returns the leaf of a non-root node of the trie, which is one of the trie's leaf routes when non-nil |
| Trees.FindStepAsWritten | tree.go:163-212 | one pass of Find's loop as written; a pass that goes round again stays inside the arena and the segments |
| Trees.FindLoopsForever | tree.go:163-212 | looking up "/b" in the trie for "/a": the loop as written comes back to its starting state, whereas the modelled Find answers not-found |
| Trees.FirstMatchStatic | tree.go:186-189 | among static children, the first accepting child is the first with the segment as text |
| Trees.FindFollowsWalk | tree.go:163-212 | along a path of static segments with no regex child on the way, Find descends exactly where Insert's walk descends |
| Trees.StaticPatternFound | tree.go:151-215 | when the walk for a path consumes every segment along such a static path, Find hits the route registered there with one parameter per segment |
| Trees.InsertedStaticFound | tree.go:49-215 | registration then lookup: after inserting a route under a static pattern with no regex child on the way, looking up the pattern finds the route registered there (the earlier one, or else the new one) |
| Trees.ShadowTreeRegistered | tree.go:49-134 | registering "/#a/x" and then "/abc/y" into a fresh tree builds the trie used below |
| Trees.ShadowedRouteMissed | tree.go:170-211 | the round trip fails without the restriction: with "/#a/x" and "/abc/y" registered and "a" found in "abc", "/abc/y" is registered yet Find answers not-found, because the regex child is committed to and never left; as written, the loop stops changing at node "#a" |
| Trees.Tree.constructor | tree.go:23-31 | a new tree holds only its root node, flagged as root, with no segment, children or leaf |
| Trees.Tree.GetRoot | tree.go:39-41 | the root node, which is the only node flagged as root |
| Trees.Tree.ChildWithSeg | tree.go:95-96 | Insert's scan of one child list finds the first node with the segment |
| Trees.Tree.Locate | tree.go:88-112 | Insert's descent ends where the walk over the existing children ends |
| Trees.Tree.Insert | tree.go:49-134 | the trie becomes the inserted trie and stays well formed; nothing is removed or moved; the pattern's whole path exists; its node holds the previously registered route, which gains the new handlers, or else the new route; the new route is returned |
| Trees.Tree.GraftPath | tree.go:114-129 | appends one fresh node per remaining segment, each below the previous one, and makes the route the leaf of the last |
| Trees.Tree.MatchChildAt | tree.go:170-211 | Find's scan of one level: kinds in the order regex, static, parameter, each list in insertion order, first accepting child |
| Trees.Tree.BuildParams | tree.go:193-197 | the map "seg<i>" to the i-th request segment |
| Trees.Tree.Find | tree.go:151-215 | reads the trie only; a hit gives the matched node's leaf, possibly nil, with one "seg<i>" entry per request segment; a node without children, or a level where no child accepts, gives not-found |
| Nodes.Node.constructor | node.go:16-18 | no leaf, empty prefix, no edges |
| Nodes.Node.IsLeaf | node.go:33-35 | whether the node holds a leaf |
| Nodes.Node.GetLeaf | node.go:51-53 | the stored leaf |
| Nodes.Node.GetPrefixPath | node.go:42-44 | the stored prefix |
| Nodes.Node.SetPrefixPath | node.go:37-40 | the prefix becomes the argument; leaf and edges are unchanged; the node itself is returned |
| Nodes.Node.SetLeaf | node.go:46-49 | GetLeaf returns the argument, and IsLeaf holds exactly when it is non-nil; prefix and edges are unchanged; the node itself is returned |
| Nodes.Node.AddEdge | node.go:55-58 | afterwards the edges are sorted by label and are exactly the old edges plus the new one; leaf and prefix are unchanged |
| Nodes.Node.Search | node.go:61-64 | the first position whose label is not below the target, in sorted edges |
| Nodes.Node.GetEdge | node.go:60-69 | the node of the lowest-placed edge with the label when one exists, nil otherwise |
| Nodes.Node.ReplaceEdge | node.go:71-81 | with the label present, only the lowest-placed such edge gets the new node, and every label and the order stay; with the label absent it fails and nothing changes |
| Routes.Route.constructor | route.go:28-32 | a new route has no handler for any method and the empty pattern |
| Routes.Route.AddHandler | route.go:39-42 | the method now has the handler, replacing an earlier one; every other method and the pattern are untouched; the route itself is returned |
| Routes.Route.GetHandler | route.go:44-46 | the handler registered for the method, or nil when it has none |
| Routes.Route.HasHandler | route.go:57-62 | whether the method has an entry in the table |
| Routes.Route.SetPattern | route.go:48-51 | GetPattern returns the new pattern; handlers are untouched; the route itself is returned |
| Routes.Route.GetPattern | route.go:53-55 | the stored pattern |
| Routes.AddHandlerIdempotent | route.go:39-42 | repeating an identical AddHandler leaves the same table |
| Validators.Validator.Validate | validator.go:15-26 | no error exactly for a pattern starting with '/'; "Path is empty" for the empty pattern, checked first; "Path starts not with a /" for any other; the route is only read |
| Validators.ValidatorenAcceptRooted | validator.go:28-30 | the list holds the path validator alone, so running all of it accepts exactly the patterns starting with '/' |
| Errors.BadPathError.Error | errors.go:10 | the message is the prefix "Path is invaild (" (spelled as in the source), the text and ")"; its length is the text's plus 18 |
| Errors.NewBadPathError | errors.go:13-15 | keeps the text verbatim |
| Errors.MessageRoundTrip | errors.go:10-15 | stripping the prefix and the closing parenthesis from the message gives back the text |
| Routers.Methods.constructor | router.go:180-184 | the table starts as the standard one |
| Routers.Methods.LookupMethod | router.go:187-194 | the number registered for a known name; methodNotFound (-1) for any other |
| Routers.Methods.Set | router.go:196-198 | the name now looks up to the new number; every other name looks up as before |
| Routers.StandardMethods | router.go:201-211 | exactly the seven standard names are known, case-sensitively, each to its own constant, and no two share a number, so none looks up to -1 |
| Routers.MethodNumbers | router.go:200-211 | methodsMap's numbers are exactly the constants 0..6 (GET, POST, PUT, DELETE, OPTIONS, PATCH, HEAD in that order), and methodNotFound (-1) is none of them |
| Routers.CleanPath | router.go:107-122 | the result is rooted ("/" for the empty path); unless it is "/", it ends with '/' exactly when the input did |
| Routers.CleanPathIdempotent | router.go:107-122 | a cleaned path is clean: cleaning it again changes nothing |
| Routers.CleanDoubleSlash | router.go:107-122 | "//a" cleans to "/a" |
| Routers.RedirectTarget | router.go:63-77 | no redirect when cleaning is off or the (escaped, if so configured) path is clean; otherwise a redirect to cleanPath of that path, which differs from the path, is rooted and is itself clean |
| Routers.FindPath | router.go:79-81 | the path looked up: the request path itself when case-sensitive, otherwise the same length with every ASCII upper-case letter lowered |
| Routers.RedirectSettles | router.go:63-77 | requesting the location of a redirect does not redirect again |
| Routers.Router.constructor | router.go:10-12 | every setting off, no not-found handler, no tree constructor, no tree |
| Routers.Router.UseTree | router.go:44-46 | the tree constructor is supplied; nothing else changes |
| Routers.Router.NotFound | router.go:96-102 | the configured not-found handler when non-nil, http.NotFoundHandler() otherwise; never nil |
| Routers.Router.EnsureTree | router.go:127-129 | a tree that exists is kept; otherwise a fresh tree holding only its root is built from the tree constructor; with no constructor the source panics, modelled as failure with nothing changed |
| Routers.Router.RegisterRoute | router.go:125-132 | the tree is built on first use and reused afterwards; a fresh route with the pattern and the handler for the method is returned, and the new trie is the old one (or the root-only trie) with that route inserted under the pattern, so the pattern leads to it when no route was there before; afterwards the pattern leads to a route whose handler for the method is the one given; a route already registered there only gains that handler and keeps its pattern; the trie only grows; with neither tree nor constructor the source panics, modelled as a null result with nothing changed; the router's settings never change |
| Routers.Router.AddRoute | router.go:131 | the insert into an existing tree: the fresh route returned is the one inserted under the pattern, and the pattern leads to it when no route was there before; the pattern's route then has the given handler for the method, and a route already there gains only that handler and keeps its pattern |
| Routers.NewRouteFor | route.go:28-51 | the route a registration builds: fresh, with the pattern and exactly the one handler for the method |
| Routers.Router.Decision | router.go:63-93 | as written: a redirect, to the cleaned path, exactly when the path needs cleaning; otherwise, with a tree, a lookup miss or a node without a route gives the not-found reply, and a route with a handler for the method is dispatched to with the lower-cased (unless case-sensitive) path; a call through nil (no tree, or no handler for the method) exactly in the remaining cases |
| Routers.Router.Respond | router.go:63-93 | the steps ServeHTTP takes after the method check (redirect check, lower-casing, lookup, handler choice) reach the decision above, case by case |
| Routers.Router.IntendedDecision | router.go:83-93 | never a call through nil: where the source would call through nil the not-found reply is given; every other outcome is the source's |
| Routers.NotFoundDeterminism | router.go:83-93 | with no redirect due, no tree, a lookup miss, a node without a route or a route without a handler for the method all give the not-found reply |
| Routers.MissingMethodPanics | router.go:83-93 | with "/a" registered for GET only, a POST for "/a" calls through the nil handler as written, and gets the not-found reply as intended |
| Routers.Router.ServeHTTP | router.go:55-94 | as intended: an unknown method gets the not-found reply and nothing else; a known method gets the intended decision for its number; no request ends in a call through nil |
| Routers.Router.ServeHTTPAsWritten | router.go:55-94 | as written, an unknown method gets the not-found reply and then the decision for method -1 as well |
| Routers.UnknownMethodAnsweredTwice | router.go:57-77 | "BREW" is unknown, and the decision for method -1 on "//a" is a redirect to "/a", a second answer after the not-found reply |
| Chains.Stack | middleware/chain.go:21-23 | the chain holds exactly the given middleware, in order, as a value of its own |
| Chains.Chain.Then | middleware/chain.go:43-54 | the handler m1(m2(...mn(endpoint))), with nil replaced by DefaultServeMux; the chain is unchanged, so repeated calls agree |
| Chains.Chain.ThenFunc | middleware/chain.go:64-71 | a nil function behaves as Then(nil); any other as Then of that function as a handler |
| Chains.ComposeSplit | middleware/chain.go:43-54 | composing a + b around h is composing a around the composition of b around h |
| Chains.InnermostIsLast | middleware/chain.go:49-51 | the last middleware is the one applied directly to the endpoint |
| Chains.EmptyChainIsIdentity | middleware/chain.go:43-54 | an empty chain hands back its endpoint |
| Http.HandlerFunc.AsHandler | middleware/chain.go:70 | a non-nil handler function converts to a non-nil handler |
| Strings.Trim | tree.go:44 | strings.Trim(p, "/"): a slice of the input that neither starts nor ends with '/', with only slashes around it |
| Strings.Split | tree.go:44 | strings.Split on "/": at least one piece; no piece holds '/'; joining the pieces restores the input |
| Strings.SplitJoin | tree.go:44 | splitting undoes joining for pieces without '/' |
| Strings.ToLower | router.go:80 | same length; each upper-case ASCII letter becomes lower case and every other character is kept; no upper-case letter remains |
| Strings.Decimal | tree.go:196 | fmt's %d: a non-empty string of decimal digits |
| Strings.DecimalInjective | tree.go:196 | different numbers are formatted differently |
| Paths.Clean | router.go:114 | path.Clean of a rooted path: rooted again, with no trailing slash unless it is "/" |
| Paths.CleanIdempotent | router.go:114 | cleaning a clean path changes nothing |
| Paths.CleanTrailingSlash | router.go:114-119 | a trailing slash does not change the cleaned path |

## Left out

- context.go is not part of this model. It wraps `context.WithValue`, a foreign library. `AddCurrentRoute` and `AddQueries` (router.go:90-91) therefore have no counterpart in Routers.Router.Decision.
- The registration shorthands `Handle`, `Get`, `Put`, `Post`, `Delete`, `Patch`, `Options` and `Head` (router.go:134-172) are left out. Each is a single call to RegisterRoute with the function wrapped as a handler (`http.HandlerFunc`); all but `Handle`, which passes its method through, fix the method.
- classic.go is not part of this model. It is wiring that refers to constructors which are not shown.
- HTTP I/O is left out: the response writer, headers, status codes, and the call through the chosen handler. The router's choice is returned as an `Outcome` instead.
- Go's regular-expression engine is a parameter (`RegexEngine`). A compile error counts as no match. The `:string` and `:number` expressions are modelled as "contains an ASCII letter" and "contains an ASCII digit".
- Strings.ToLower: lower-cases ASCII only. Go's strings.ToLower also folds non-ASCII letters.
- Paths.Clean: covers rooted paths only. cleanPath never hands path.Clean anything else.
- Routers.Methods: the table is its own map. In the source, the package-level table aliases `methodsMap`, so Set also changes that global map.
- Trees.Tree.Insert: requires that no segment after the first is empty (no "//" inside the trimmed pattern). Its condition `nextSeg != ""` (tree.go:83) does not advance past an empty segment, so it then compares the wrong segment. That behaviour is not modelled.
- Routers.Router.RegisterRoute: carries the same requirement as Trees.Tree.Insert.
- Routers.Router.RegisterRoute: router.go calls a three-argument `Insert` that tree.go does not have. It is modelled as a fresh route holding the handler and the pattern (Routers.NewRouteFor), passed to Trees.Tree.Insert.
- Routers.Router.Respond: router.go calls a single-result `Find`. The route is taken to be Find's leaf, and its parameter map is not used.
- Trees.MergeRoutes: takes two routes. The source's variadic form is only ever called with two. It calls `AddHandlers`/`GetHandlers`, which route.go lacks, and is modelled as a per-method overwrite in which the new route wins.
- The tree's pluggable node constructor (`UseNode`, tree.go:33-37) is left out. Trie nodes are always fresh values.
- The tree constructor is modelled as a flag: UseTree supplies Trees.Tree's constructor. Registering with neither a tree nor a constructor panics in the source; in the model it is a null result that changes nothing.
- Trees.Tree.Find: where the source loops forever, the model answers not-found. That case is a node with children none of which accepts the segment (see Findings).
- Trees.Tree.GraftPath: builds the new chain in a local copy of the arena and stores it once at the end. The source writes each append into the tree as it goes, and no other code sees the tree in between.
- Nodes.Node.AddEdge: inserts the new edge after equal labels. Go's sort.Sort is not stable, so the contract states only "sorted, and the old edges plus the new one". It does not fix the order among equal labels.
- The `StrictSlash` setting is left out: no code in the router reads it.
- `Validatoren` is defined but not run by RegisterRoute, and neither does the source run it.
- The `root` and `method` arguments of Find are accepted and ignored, as in the source.

## Findings

| source | as written | input that shows it | evidently intended | confidence | as-written member | corrected member |
|---|---|---|---|---|---|---|
| tree.go:163-212 | when the current node has children but none accepts the current segment, the loop goes round again without any state change | tree with only "/a" registered, lookup of "/b" | return not-found (nil, nil) | not executed | Trees.FindLoopsForever (with Trees.FindStepAsWritten) | Trees.Tree.Find |
| router.go:83-93 | with no tree yet, or when the matched route has no handler for the request's method, the handler called is nil and the call panics | "/a" registered for GET only, request POST "/a" | reply with the not-found handler, like any other failed lookup | not executed | Routers.Router.Decision (with Routers.MissingMethodPanics) | Routers.Router.IntendedDecision (with Routers.NotFoundDeterminism) |
| router.go:59-61 | after answering an unknown method with the not-found handler there is no `return`, so the request goes on to the redirect check and the lookup with method -1 | method "BREW", path "//a": not-found reply, then a 301 to "/a" | return after the not-found reply | not executed | Routers.Router.ServeHTTPAsWritten (with Routers.UnknownMethodAnsweredTwice) | Routers.Router.ServeHTTP |
