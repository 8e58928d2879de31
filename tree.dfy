/**
 * tree.go: the segment trie that holds the registered routes. A pattern is cut
 * into its '/'-separated segments; each trie node stands for one whole segment
 * and keeps its children in three lists, one per kind of segment (static text,
 * a `:string`/`:number` parameter, or a `#`-regular expression), in insertion
 * order. A node that ends a registered pattern holds that pattern's route as its
 * leaf.
 *
 * The nodes live in the tree's `arena`; a node is known by its position there,
 * the root is position 0, and a child list holds positions. Appending to an
 * arena node's child list is the in-place append of the source.
 */
module Trees {
  import opened Options
  import opened Strings
  import opened Http
  import opened Routes

  /** nodeType: which of a node's three child lists a segment belongs to. */
  datatype NodeType = Static | Param | Regex

  /** checkNodeType: the two parameter placeholders, a regular expression after
      '#', and static text for everything else (the empty segment included). */
  function CheckNodeType(seg: string): (t: NodeType)
    ensures t == Param <==> (seg == ":string" || seg == ":number")
    ensures t == Regex <==> (|seg| > 0 && seg[0] == '#')
    ensures t == Static <==> (seg != ":string" && seg != ":number" && (seg == "" || seg[0] != '#'))
  {
    if seg == ":string" || seg == ":number" then Param
    else if |seg| > 0 && seg[0] == '#' then Regex
    else Static
  }

  /** pathSegments: strips the slashes at both ends, then splits on '/'. There is
      always at least one segment, joining them with '/' gives back the trimmed
      path, and only a lone segment can be empty at either end. */
  function PathSegments(p: string): (segs: seq<string>)
    ensures |segs| >= 1
    ensures Join(segs) == Trim(p)
    ensures forall i :: 0 <= i < |segs| ==> '/' !in segs[i]
    ensures |segs| > 1 ==> segs[0] != "" && segs[|segs| - 1] != ""
  {
    var segs := Split(Trim(p));
    assert |segs| > 1 ==> segs[0] != "" && segs[|segs| - 1] != "" by {
      if |segs| > 1 {
        JoinEmptyEnds(segs);
      }
    }
    segs
  }

  /** The root path has the single empty segment. */
  lemma RootPathSegments()
    ensures PathSegments("/") == [""]
  {
    assert Trim("/") == "";
  }

  /** No segment after the first is empty (no "//" inside the trimmed pattern). */
  predicate InteriorNonEmpty(segs: seq<string>)
  {
    forall i :: 1 <= i < |segs| ==> segs[i] != ""
  }

  /** The three child lists of a node, indexed by kind. */
  datatype Children = Children(statics: seq<nat>, params: seq<nat>, regexes: seq<nat>)
  {
    function Of(t: NodeType): seq<nat>
    {
      match t
      case Static => statics
      case Param => params
      case Regex => regexes
    }

    /** Appends `n` to the list for kind `t`; the other two lists stay. */
    function Append(t: NodeType, n: nat): (c: Children)
      ensures c.Of(t) == Of(t) + [n]
      ensures forall u :: u != t ==> c.Of(u) == Of(u)
    {
      match t
      case Static => this.(statics := statics + [n])
      case Param => this.(params := params + [n])
      case Regex => this.(regexes := regexes + [n])
    }

    predicate Empty()
    {
      |statics| == 0 && |params| == 0 && |regexes| == 0
    }
  }

  const NoChildren := Children([], [], [])

  /** A trie node: its segment, its children by kind, its optional leaf route and
      whether it is the root. */
  datatype TrieNode = TrieNode(seg: string, nodes: Children, leaf: Route?, root: bool)

  /** A fresh node (NewNode) for segment `seg`. */
  function NewTrieNode(seg: string): TrieNode
  {
    TrieNode(seg, NoChildren, null, false)
  }

  /** Child `c` of a list of kind `t` is a non-root node of the arena whose segment
      is of kind `t`. */
  ghost predicate ChildOk(a: seq<TrieNode>, c: nat, t: NodeType)
  {
    0 < c < |a| && CheckNodeType(a[c].seg) == t
  }

  ghost predicate NodeOk(a: seq<TrieNode>, i: nat)
    requires i < |a|
  {
    forall t, j :: 0 <= j < |a[i].nodes.Of(t)| ==> ChildOk(a, a[i].nodes.Of(t)[j], t)
  }

  /** The arena invariant: the root is first and is the only root, and every
      child sits in its parent's list for its own kind. */
  ghost predicate WellFormed(a: seq<TrieNode>)
  {
    && |a| >= 1 && a[0].root
    && (forall i :: 1 <= i < |a| ==> !a[i].root)
    && (forall i :: 0 <= i < |a| ==> NodeOk(a, i))
  }

  lemma KidsWithin(a: seq<TrieNode>, i: nat, t: NodeType)
    requires WellFormed(a) && i < |a|
    ensures forall j :: 0 <= j < |a[i].nodes.Of(t)| ==> ChildOk(a, a[i].nodes.Of(t)[j], t)
  {
    assert NodeOk(a, i);
  }

  predicate Within(a: seq<TrieNode>, list: seq<nat>)
  {
    forall j :: 0 <= j < |list| ==> list[j] < |a|
  }

  /** The children of node `i` of kind `t`, known to lie in the arena. */
  function Kids(a: seq<TrieNode>, i: nat, t: NodeType): (list: seq<nat>)
    requires WellFormed(a) && i < |a|
    ensures list == a[i].nodes.Of(t) && Within(a, list)
    ensures forall j :: 0 <= j < |list| ==> ChildOk(a, list[j], t)
  {
    KidsWithin(a, i, t);
    a[i].nodes.Of(t)
  }

  // ---------------------------------------------------------------------------
  // Insert

  /** The first position at or after `k` in `list` whose node has segment `s`
      textually: the lookup Insert performs at each level. */
  function SegIndex(a: seq<TrieNode>, list: seq<nat>, s: string, k: nat): (r: Option<nat>)
    requires Within(a, list) && k <= |list|
    ensures r.Some? ==> k <= r.value < |list| && a[list[r.value]].seg == s
    ensures r.Some? ==> forall j :: k <= j < r.value ==> a[list[j]].seg != s
    ensures r.None? ==> forall j :: k <= j < |list| ==> a[list[j]].seg != s
    decreases |list| - k
  {
    if k == |list| then None
    else if a[list[k]].seg == s then Some(k)
    else SegIndex(a, list, s, k + 1)
  }

  /** Follows existing children from node `cur`, consuming `segs[i..]` one segment
      at a time, as long as the list for the segment's kind holds a node with that
      very segment. Gives the node reached and how many segments are consumed. */
  ghost function Walk(a: seq<TrieNode>, cur: nat, segs: seq<string>, i: nat): (w: (nat, nat))
    requires WellFormed(a) && cur < |a| && i <= |segs|
    ensures w.0 < |a| && i <= w.1 <= |segs|
    ensures w.1 < |segs| ==> SegIndex(a, Kids(a, w.0, CheckNodeType(segs[w.1])), segs[w.1], 0) == None
    decreases |segs| - i
  {
    if i == |segs| then (cur, i)
    else
      var list := Kids(a, cur, CheckNodeType(segs[i]));
      match SegIndex(a, list, segs[i], 0)
      case None => (cur, i)
      case Some(p) => Walk(a, list[p], segs, i + 1)
  }

  /** Appends a fresh node for `seg` at the end of the arena and at the end of
      node `cur`'s list for the kind of `seg`. */
  function AddChild(a: seq<TrieNode>, cur: nat, seg: string): (b: seq<TrieNode>)
    requires WellFormed(a) && cur < |a|
    ensures WellFormed(b) && |b| == |a| + 1 && b[|a|] == NewTrieNode(seg)
    ensures b[cur].nodes.Of(CheckNodeType(seg)) == a[cur].nodes.Of(CheckNodeType(seg)) + [|a|]
    ensures Extends(a, b)
  {
    var b := a[cur := a[cur].(nodes := a[cur].nodes.Append(CheckNodeType(seg), |a|))] + [NewTrieNode(seg)];
    AddChildWellFormed(a, cur, seg, b);
    b
  }

  lemma AddChildWellFormed(a: seq<TrieNode>, cur: nat, seg: string, b: seq<TrieNode>)
    requires WellFormed(a) && cur < |a|
    requires b == a[cur := a[cur].(nodes := a[cur].nodes.Append(CheckNodeType(seg), |a|))] + [NewTrieNode(seg)]
    ensures WellFormed(b) && Extends(a, b)
  {
    var t := CheckNodeType(seg);
    assert forall k :: 0 <= k < |a| ==> b[k].seg == a[k].seg && b[k].root == a[k].root;
    forall i | 0 <= i < |b|
      ensures NodeOk(b, i)
    {
      if i < |a| {
        assert NodeOk(a, i);
        forall u, j | 0 <= j < |b[i].nodes.Of(u)|
          ensures ChildOk(b, b[i].nodes.Of(u)[j], u)
        {
          var c := b[i].nodes.Of(u)[j];
          if i == cur && u == t && j == |a[i].nodes.Of(u)| {
            assert c == |a|;
          } else {
            assert c == a[i].nodes.Of(u)[j];
            assert ChildOk(a, c, u);
          }
        }
      }
    }
    forall i | 0 <= i < |a|
      ensures NodeExtends(a[i], b[i])
    {
      if i == cur {
        assert forall u :: a[i].nodes.Of(u) <= b[i].nodes.Of(u);
      }
    }
  }

  /** Hangs a chain of fresh nodes for `segs[i..]` below node `cur`, one below the
      other, and makes `r` the leaf of the last node of the chain (of `cur` itself
      when no segment is left). */
  ghost function Graft(a: seq<TrieNode>, cur: nat, segs: seq<string>, i: nat, r: Route): (b: seq<TrieNode>)
    requires WellFormed(a) && cur < |a| && i <= |segs|
    requires i == |segs| ==> a[cur].leaf == null
    ensures WellFormed(b) && |b| == |a| + (|segs| - i)
    decreases |segs| - i
  {
    if i == |segs| then
      var b := a[cur := a[cur].(leaf := r)];
      assert forall k :: 0 <= k < |b| ==> NodeOk(b, k) by {
        forall k | 0 <= k < |b|
          ensures NodeOk(b, k)
        {
          assert NodeOk(a, k);
        }
      }
      b
    else Graft(AddChild(a, cur, segs[i]), |a|, segs, i + 1, r)
  }

  /** The arena after inserting route `r` with segments `segs`: when the whole
      pattern already leads to a node with a leaf, the arena stays (the leaf route
      is merged into instead); otherwise the missing part of the path is grafted. */
  ghost function Inserted(a: seq<TrieNode>, segs: seq<string>, r: Route): (b: seq<TrieNode>)
    requires WellFormed(a)
    ensures WellFormed(b)
  {
    var (cur, i) := Walk(a, 0, segs, 0);
    if i == |segs| && a[cur].leaf != null then a else Graft(a, cur, segs, i, r)
  }

  /** The route registered under `segs`: the leaf of the node the walk reaches
      when it consumes every segment; null when the walk stops early or the node
      it reaches has no leaf. */
  ghost function RouteFor(a: seq<TrieNode>, segs: seq<string>): Route?
    requires WellFormed(a)
  {
    var (cur, i) := Walk(a, 0, segs, 0);
    if i == |segs| then a[cur].leaf else null
  }

  /** The route that Insert merges into, as a frame: the route already registered
      under `segs`, if any. */
  ghost function MergeTarget(a: seq<TrieNode>, segs: seq<string>): set<Route?>
    requires WellFormed(a)
  {
    if RouteFor(a, segs) != null then {RouteFor(a, segs)} else {}
  }

  /** Node `y` is node `x` with possibly more children appended to its lists: same
      segment, same root flag, a leaf it had is kept, and no child is removed or
      moved. */
  ghost predicate NodeExtends(x: TrieNode, y: TrieNode)
  {
    && y.seg == x.seg && y.root == x.root
    && (x.leaf != null ==> y.leaf == x.leaf)
    && forall t :: x.nodes.Of(t) <= y.nodes.Of(t)
  }

  /** Arena `b` keeps every node of `a` at its place, extended at most. */
  ghost predicate Extends(a: seq<TrieNode>, b: seq<TrieNode>)
  {
    |a| <= |b| && forall i :: 0 <= i < |a| ==> NodeExtends(a[i], b[i])
  }

  lemma ExtendsTransitive(a: seq<TrieNode>, b: seq<TrieNode>, c: seq<TrieNode>)
    requires Extends(a, b) && Extends(b, c)
    ensures Extends(a, c)
  {
    forall i | 0 <= i < |a|
      ensures NodeExtends(a[i], c[i])
    {
      assert NodeExtends(a[i], b[i]) && NodeExtends(b[i], c[i]);
      forall t
        ensures a[i].nodes.Of(t) <= c[i].nodes.Of(t)
      {
        var x, y, z := a[i].nodes.Of(t), b[i].nodes.Of(t), c[i].nodes.Of(t);
        assert x <= y && y <= z;
        assert x == y[..|x|] && y == z[..|y|];
      }
    }
  }

  /** One step of grafting: a fresh node for `segs[i]` below `cur`, then the
      rest below it. */
  lemma GraftStep(a: seq<TrieNode>, cur: nat, segs: seq<string>, i: nat, r: Route)
    requires WellFormed(a) && cur < |a| && i < |segs|
    ensures var a1 := AddChild(a, cur, segs[i]);
            && (i + 1 == |segs| ==> a1[|a|].leaf == null)
            && Graft(a1, |a|, segs, i + 1, r) == Graft(a, cur, segs, i, r)
  {
  }

  /** Grafting removes and moves nothing. */
  lemma {:induction false} GraftExtends(a: seq<TrieNode>, cur: nat, segs: seq<string>, i: nat, r: Route)
    requires WellFormed(a) && cur < |a| && i <= |segs|
    requires i == |segs| ==> a[cur].leaf == null
    ensures Extends(a, Graft(a, cur, segs, i, r))
    decreases |segs| - i
  {
    if i == |segs| {
      var b := Graft(a, cur, segs, i, r);
      assert forall k :: 0 <= k < |a| ==> NodeExtends(a[k], b[k]);
    } else {
      var a1 := AddChild(a, cur, segs[i]);
      GraftExtends(a1, |a|, segs, i + 1, r);
      ExtendsTransitive(a, a1, Graft(a, cur, segs, i, r));
    }
  }

  /** In an extended arena, a list extended at its end still finds the same
      position for a segment it found before. */
  lemma SegIndexExtends(a: seq<TrieNode>, b: seq<TrieNode>, la: seq<nat>, lb: seq<nat>, s: string)
    requires Extends(a, b) && Within(a, la) && Within(b, lb) && la <= lb
    requires SegIndex(a, la, s, 0).Some?
    ensures SegIndex(b, lb, s, 0) == SegIndex(a, la, s, 0)
  {
    var p := SegIndex(a, la, s, 0).value;
    assert lb[p] == la[p] && NodeExtends(a[la[p]], b[la[p]]);
    forall j | 0 <= j < p
      ensures b[lb[j]].seg != s
    {
      assert lb[j] == la[j] && NodeExtends(a[la[j]], b[la[j]]);
    }
  }

  /** A walk through `a` that ends at (`c`, `k`) is retraced through an extension
      `b` of `a`, and continues from there as a walk in `b` would. */
  lemma {:induction false} WalkExtends(a: seq<TrieNode>, b: seq<TrieNode>, x: nat, segs: seq<string>, j: nat)
    requires WellFormed(a) && WellFormed(b) && Extends(a, b) && x < |a| && j <= |segs|
    ensures var w := Walk(a, x, segs, j); Walk(b, x, segs, j) == Walk(b, w.0, segs, w.1)
    decreases |segs| - j
  {
    if j < |segs| {
      var t := CheckNodeType(segs[j]);
      var la, lb := Kids(a, x, t), Kids(b, x, t);
      assert NodeExtends(a[x], b[x]);
      if SegIndex(a, la, segs[j], 0).Some? {
        SegIndexExtends(a, b, la, lb, segs[j]);
        var p := SegIndex(a, la, segs[j], 0).value;
        assert lb[p] == la[p];
        WalkExtends(a, b, la[p], segs, j + 1);
      }
    }
  }

  /** A node appended after a list in which no node has segment `s`, and which
      itself has segment `s`, is the one found. */
  lemma SegIndexAppended(a: seq<TrieNode>, a1: seq<TrieNode>, la: seq<nat>, n: nat, s: string)
    requires Within(a, la) && |a| <= |a1| && n < |a1| && a1[n].seg == s
    requires forall k :: 0 <= k < |a| ==> a1[k].seg == a[k].seg
    requires SegIndex(a, la, s, 0) == None
    ensures SegIndex(a1, la + [n], s, 0) == Some(|la|)
  {
    var la1 := la + [n];
    assert la1[|la|] == n;
    forall j | 0 <= j < |la|
      ensures a1[la1[j]].seg != s
    {
      assert la1[j] == la[j];
    }
  }

  /** A grafted chain is walked to its end: the walk from `cur` consumes every
      remaining segment and stops at the node whose leaf is `r`. */
  lemma {:induction false} GraftWalk(a: seq<TrieNode>, cur: nat, segs: seq<string>, i: nat, r: Route)
    requires WellFormed(a) && cur < |a| && i <= |segs|
    requires i == |segs| ==> a[cur].leaf == null
    requires i < |segs| ==> SegIndex(a, Kids(a, cur, CheckNodeType(segs[i])), segs[i], 0) == None
    ensures var b := Graft(a, cur, segs, i, r); var w := Walk(b, cur, segs, i);
            w.1 == |segs| && b[w.0].leaf == r
    decreases |segs| - i
  {
    if i < |segs| {
      var t := CheckNodeType(segs[i]);
      var n := |a|;
      var a1 := AddChild(a, cur, segs[i]);
      var b := Graft(a1, n, segs, i + 1, r);
      assert b == Graft(a, cur, segs, i, r);
      assert a1[n].nodes == NoChildren;
      assert i + 1 < |segs| ==> Kids(a1, n, CheckNodeType(segs[i + 1])) == [];
      GraftWalk(a1, n, segs, i + 1, r);
      GraftExtends(a1, n, segs, i + 1, r);
      var la, la1, lb := Kids(a, cur, t), Kids(a1, cur, t), Kids(b, cur, t);
      assert la1 == la + [n];
      assert forall k :: 0 <= k < |a| ==> a1[k].seg == a[k].seg by {
        assert Extends(a, a1);
      }
      SegIndexAppended(a, a1, la, n, segs[i]);
      assert NodeExtends(a1[cur], b[cur]);
      SegIndexExtends(a1, b, la1, lb, segs[i]);
      assert lb[|la|] == n;
      assert Walk(b, cur, segs, i) == Walk(b, n, segs, i + 1);
    }
  }

  /** After inserting, the pattern's whole path exists: the walk consumes every
      segment, each step through the child list for that segment's kind, and ends
      at a node whose leaf is the route that was registered there before, or else
      the new route. Nothing is removed or moved. */
  lemma InsertedReaches(a: seq<TrieNode>, segs: seq<string>, r: Route)
    requires WellFormed(a)
    ensures var b := Inserted(a, segs, r);
            && Extends(a, b)
            && Walk(b, 0, segs, 0).1 == |segs|
            && RouteFor(b, segs) == (if RouteFor(a, segs) != null then RouteFor(a, segs) else r)
  {
    var (cur, i) := Walk(a, 0, segs, 0);
    if !(i == |segs| && a[cur].leaf != null) {
      var b := Graft(a, cur, segs, i, r);
      GraftWalk(a, cur, segs, i, r);
      GraftExtends(a, cur, segs, i, r);
      WalkExtends(a, b, 0, segs, 0);
    } else {
      assert forall k :: 0 <= k < |a| ==> NodeExtends(a[k], a[k]);
    }
  }

  /** mergeRoutes(dst, src) at its one call site: src's handlers are added to dst,
      a method both have keeps src's handler, and dst is returned. */
  method MergeRoutes(dst: Route, src: Route) returns (r: Route)
    modifies dst
    ensures r == dst
    ensures dst.handlers == old(dst.handlers) + old(src.handlers)
    ensures dst.pattern == old(dst.pattern)
  {
    dst.handlers := dst.handlers + src.handlers;
    r := dst;
  }

  // ---------------------------------------------------------------------------
  // Find

  /** What the regular-expression engine says of a pattern and a text:
      regexp.MatchString's (true, nil), (false, nil) or a compile error. */
  datatype RegexResult = Matched | NoMatch | CompileError

  /** The regular-expression engine, which is not part of this model. */
  type RegexEngine = (string, string) -> RegexResult

  /** Whether a child of kind `t` with segment `childSeg` accepts request segment
      `s`: a regex child when its pattern (after '#') compiles and is found in `s`,
      `:string` when `s` has an ASCII letter, `:number` when it has an ASCII digit,
      and a static child when the text is equal. */
  predicate SegMatches(t: NodeType, childSeg: string, s: string, re: RegexEngine)
  {
    match t
    case Regex => |childSeg| > 0 && re(childSeg[1..], s) == Matched
    case Param => (childSeg == ":string" && HasLetter(s)) || (childSeg == ":number" && HasDigit(s))
    case Static => childSeg == s
  }

  /** The first position at or after `k` in `list` whose child accepts `s`. */
  function FirstMatch(a: seq<TrieNode>, list: seq<nat>, t: NodeType, s: string, re: RegexEngine, k: nat): (r: Option<nat>)
    requires Within(a, list) && k <= |list|
    ensures r.Some? ==> k <= r.value < |list| && SegMatches(t, a[list[r.value]].seg, s, re)
    ensures r.Some? ==> forall j :: k <= j < r.value ==> !SegMatches(t, a[list[j]].seg, s, re)
    ensures r.None? ==> forall j :: k <= j < |list| ==> !SegMatches(t, a[list[j]].seg, s, re)
    decreases |list| - k
  {
    if k == |list| then None
    else if SegMatches(t, a[list[k]].seg, s, re) then Some(k)
    else FirstMatch(a, list, t, s, re, k + 1)
  }

  /** The order in which Find tries the kinds at each level. */
  const Priority: seq<NodeType> := [Regex, Static, Param]

  /** The first child accepting `s` in the lists of `kinds`, tried in order. */
  function MatchAmong(a: seq<TrieNode>, cur: nat, kinds: seq<NodeType>, s: string, re: RegexEngine): (r: Option<nat>)
    requires WellFormed(a) && cur < |a|
    ensures r.Some? ==> 0 < r.value < |a|
    decreases |kinds|
  {
    if kinds == [] then None
    else
      var list := Kids(a, cur, kinds[0]);
      match FirstMatch(a, list, kinds[0], s, re, 0)
      case Some(p) => Some(list[p])
      case None => MatchAmong(a, cur, kinds[1..], s, re)
  }

  /** The child of `cur` that Find descends into for request segment `s`. */
  function MatchChild(a: seq<TrieNode>, cur: nat, s: string, re: RegexEngine): (r: Option<nat>)
    requires WellFormed(a) && cur < |a|
    ensures r.Some? ==> 0 < r.value < |a|
  {
    MatchAmong(a, cur, Priority, s, re)
  }

  ghost predicate AnyMatch(a: seq<TrieNode>, list: seq<nat>, t: NodeType, s: string, re: RegexEngine)
    requires Within(a, list)
  {
    exists j :: 0 <= j < |list| && SegMatches(t, a[list[j]].seg, s, re)
  }

  /** The first accepting child wins within a kind, and kinds are tried regex
      first, then static, then parameter; with no accepting child there is none. */
  lemma MatchOrder(a: seq<TrieNode>, cur: nat, s: string, re: RegexEngine)
    requires WellFormed(a) && cur < |a|
    ensures var m := MatchChild(a, cur, s, re);
            var rx, st, pm := Kids(a, cur, Regex), Kids(a, cur, Static), Kids(a, cur, Param);
            && (AnyMatch(a, rx, Regex, s, re) ==>
                  m == Some(rx[FirstMatch(a, rx, Regex, s, re, 0).value]))
            && (!AnyMatch(a, rx, Regex, s, re) && AnyMatch(a, st, Static, s, re) ==>
                  m == Some(st[FirstMatch(a, st, Static, s, re, 0).value]))
            && (!AnyMatch(a, rx, Regex, s, re) && !AnyMatch(a, st, Static, s, re) && AnyMatch(a, pm, Param, s, re) ==>
                  m == Some(pm[FirstMatch(a, pm, Param, s, re, 0).value]))
            && (!AnyMatch(a, rx, Regex, s, re) && !AnyMatch(a, st, Static, s, re) && !AnyMatch(a, pm, Param, s, re) ==>
                  m == None)
  {
    assert Priority[1..] == [Static, Param] && Priority[1..][1..] == [Param] && Priority[1..][1..][1..] == [];
  }

  /** The node at which Find succeeds for `segs[i..]` starting below `cur`, or None.
      At each level a node without children ends the search, and so does a level
      where no child accepts the segment (where the source instead loops forever);
      the last segment's match is the answer. */
  ghost function FindFrom(a: seq<TrieNode>, cur: nat, segs: seq<string>, i: nat, re: RegexEngine): (r: Option<nat>)
    requires WellFormed(a) && cur < |a| && i < |segs|
    ensures r.Some? ==> 0 < r.value < |a|
    decreases |segs| - i
  {
    if a[cur].nodes.Empty() then None
    else
      match MatchChild(a, cur, segs[i], re)
      case None => None
      case Some(c) => if i + 1 == |segs| then Some(c) else FindFrom(a, c, segs, i + 1, re)
  }

  /** The map key "seg<i>" of the i-th request segment. */
  function SegKey(i: nat): string
  {
    "seg" + Decimal(i)
  }

  lemma SegKeyInjective(i: nat, j: nat)
    requires SegKey(i) == SegKey(j)
    ensures i == j
  {
    assert Decimal(i) == SegKey(i)[3..] == SegKey(j)[3..] == Decimal(j);
    DecimalInjective(i, j);
  }

  /** The parameter map built from the request segments, one entry per segment. */
  function SegParams(segs: seq<string>): map<string, string>
  {
    if segs == [] then map[]
    else SegParams(segs[..|segs| - 1])[SegKey(|segs| - 1) := segs[|segs| - 1]]
  }

  /** The keys of the parameter map are the positions' keys. */
  lemma {:induction false} SegParamsKeys(segs: seq<string>)
    ensures forall k :: k in SegParams(segs) ==> exists i :: 0 <= i < |segs| && k == SegKey(i)
    decreases |segs|
  {
    if segs != [] {
      SegParamsKeys(segs[..|segs| - 1]);
    }
  }

  /** The parameter map has an entry for every position, holding that segment. */
  lemma {:induction false} SegParamsValues(segs: seq<string>)
    ensures forall i :: 0 <= i < |segs| ==> SegKey(i) in SegParams(segs) && SegParams(segs)[SegKey(i)] == segs[i]
    decreases |segs|
  {
    if segs != [] {
      var n := |segs| - 1;
      SegParamsValues(segs[..n]);
      forall i | 0 <= i < n
        ensures SegKey(i) != SegKey(n)
      {
        if SegKey(i) == SegKey(n) {
          SegKeyInjective(i, n);
        }
      }
    }
  }

  /** The parameter map has exactly one entry per request segment, "seg<i>" for
      the i-th segment, holding that segment's text. */
  lemma {:induction false} SegParamsExact(segs: seq<string>)
    ensures |SegParams(segs)| == |segs|
    ensures forall i :: 0 <= i < |segs| ==> SegKey(i) in SegParams(segs) && SegParams(segs)[SegKey(i)] == segs[i]
    ensures forall k :: k in SegParams(segs) ==> exists i :: 0 <= i < |segs| && k == SegKey(i)
    decreases |segs|
  {
    SegParamsValues(segs);
    SegParamsKeys(segs);
    if segs != [] {
      var n := |segs| - 1;
      var front := segs[..n];
      SegParamsExact(front);
      assert SegKey(n) !in SegParams(front) by {
        if SegKey(n) in SegParams(front) {
          var i :| 0 <= i < |front| && SegKey(n) == SegKey(i);
          SegKeyInjective(n, i);
        }
      }
    }
  }

  /** The routes held as leaves in the arena. */
  ghost function Leaves(a: seq<TrieNode>): set<Route>
  {
    set i | 0 <= i < |a| && a[i].leaf != null :: a[i].leaf
  }

  /** What Find returns: (nil, nil) when nothing is found, otherwise the matched
      node's leaf (possibly nil) and the positional parameter map. */
  datatype Lookup = Miss | Hit(leaf: Route?, params: map<string, string>)

  /** Find's answer for `path`. */
  ghost function FindSpec(a: seq<TrieNode>, path: string, re: RegexEngine): (r: Lookup)
    requires WellFormed(a)
    ensures r.Hit? ==> exists n :: 0 < n < |a| && a[n].leaf == r.leaf
    ensures r.Hit? && r.leaf != null ==> r.leaf in Leaves(a)
  {
    var segs := PathSegments(path);
    match FindFrom(a, 0, segs, 0, re)
    case None => Miss
    case Some(n) => Hit(a[n].leaf, SegParams(segs))
  }

  /** Where Find's loop stands: the current node and the position of the current
      request segment. */
  datatype Cursor = Cursor(node: nat, pos: nat)

  /** The outcome of one pass of Find's loop: it returns, or goes round again. */
  datatype Step = Done(result: Lookup) | Again(next: Cursor)

  /** One pass of Find's loop as the source writes it. When the node has children
      but none accepts the segment, nothing changes and the loop goes round again
      from the very same state. */
  function FindStepAsWritten(a: seq<TrieNode>, c: Cursor, segs: seq<string>, re: RegexEngine): (s: Step)
    requires WellFormed(a) && c.node < |a| && c.pos < |segs|
    ensures s.Again? ==> s.next.node < |a| && s.next.pos < |segs|
  {
    if a[c.node].nodes.Empty() then Done(Miss)
    else
      match MatchChild(a, c.node, segs[c.pos], re)
      case None => Again(c)
      case Some(n) =>
        if c.pos + 1 == |segs| then Done(Hit(a[n].leaf, SegParams(segs)))
        else Again(Cursor(n, c.pos + 1))
  }

  /** The root with one static child "a", as after registering "/a". */
  const LoopTree: seq<TrieNode> := [TrieNode("", Children([1], [], []), null, true), NewTrieNode("a")]

  lemma LoopTreeWellFormed()
    ensures WellFormed(LoopTree)
  {
    assert NodeOk(LoopTree, 0) by {
      forall t, j | 0 <= j < |LoopTree[0].nodes.Of(t)|
        ensures ChildOk(LoopTree, LoopTree[0].nodes.Of(t)[j], t)
      {
        assert t == Static && j == 0;
      }
    }
    assert NodeOk(LoopTree, 1);
    assert forall i :: 0 <= i < |LoopTree| ==> NodeOk(LoopTree, i);
  }

  lemma SegmentsOfB()
    ensures PathSegments("/b") == ["b"]
  {
    assert Trim("/b") == "b";
    assert Split("b") == ["b"] by {
      assert "b"[1..] == "";
    }
  }

  /** Looking up "/b" in that tree: the source's loop comes back to the state it
      started from and so never ends, whereas FindFrom answers Miss. */
  lemma FindLoopsForever(re: RegexEngine)
    ensures WellFormed(LoopTree)
    ensures FindStepAsWritten(LoopTree, Cursor(0, 0), PathSegments("/b"), re) == Again(Cursor(0, 0))
    ensures FindSpec(LoopTree, "/b", re) == Miss
  {
    LoopTreeWellFormed();
    SegmentsOfB();
    assert MatchChild(LoopTree, 0, "b", re) == None by {
      assert Priority[1..] == [Static, Param] && Priority[1..][1..] == [Param] && Priority[1..][1..][1..] == [];
      assert Kids(LoopTree, 0, Static) == [1];
    }
  }

  // ---------------------------------------------------------------------------
  // Registration and lookup

  /** The trie of a fresh tree: the root alone. */
  const EmptyTrie: seq<TrieNode> := [TrieNode("", NoChildren, null, true)]

  /** The walk from `cur` over `segs[i..]` meets static segments only, and every
      node it passes through has no regex children. */
  ghost predicate StaticPath(a: seq<TrieNode>, cur: nat, segs: seq<string>, i: nat)
    requires WellFormed(a) && cur < |a| && i <= |segs|
    decreases |segs| - i
  {
    i == |segs| ||
    (&& CheckNodeType(segs[i]) == Static
     && a[cur].nodes.regexes == []
     && match SegIndex(a, Kids(a, cur, Static), segs[i], 0)
        case None => true
        case Some(p) => StaticPath(a, Kids(a, cur, Static)[p], segs, i + 1))
  }

  /** Among static children, accepting a segment is having it as text. */
  lemma {:induction false} FirstMatchStatic(a: seq<TrieNode>, list: seq<nat>, s: string, re: RegexEngine, k: nat)
    requires Within(a, list) && k <= |list|
    ensures FirstMatch(a, list, Static, s, re, k) == SegIndex(a, list, s, k)
    decreases |list| - k
  {
    if k < |list| {
      FirstMatchStatic(a, list, s, re, k + 1);
    }
  }

  /** Along a static path, each level of Find takes the child Insert's walk takes. */
  lemma {:induction false} FindFollowsWalk(a: seq<TrieNode>, cur: nat, segs: seq<string>, i: nat, re: RegexEngine)
    requires WellFormed(a) && cur < |a| && i < |segs|
    requires StaticPath(a, cur, segs, i) && Walk(a, cur, segs, i).1 == |segs|
    ensures FindFrom(a, cur, segs, i, re) == Some(Walk(a, cur, segs, i).0)
    decreases |segs| - i
  {
    var list := Kids(a, cur, Static);
    assert SegIndex(a, list, segs[i], 0).Some?;
    var p := SegIndex(a, list, segs[i], 0).value;
    FirstMatchStatic(a, list, segs[i], re, 0);
    assert !a[cur].nodes.Empty();
    assert MatchChild(a, cur, segs[i], re) == Some(list[p]) by {
      assert Kids(a, cur, Regex) == [];
      assert Priority[1..] == [Static, Param];
    }
    if i + 1 < |segs| {
      FindFollowsWalk(a, list[p], segs, i + 1, re);
    }
  }

  /** Lookup of a registered pattern: when the walk for the path consumes every
      segment along a static path, Find hits the route registered there, with
      one parameter per segment. */
  lemma StaticPatternFound(a: seq<TrieNode>, path: string, re: RegexEngine)
    requires WellFormed(a)
    requires StaticPath(a, 0, PathSegments(path), 0)
    requires Walk(a, 0, PathSegments(path), 0).1 == |PathSegments(path)|
    ensures FindSpec(a, path, re) == Hit(RouteFor(a, PathSegments(path)), SegParams(PathSegments(path)))
  {
    FindFollowsWalk(a, 0, PathSegments(path), 0, re);
  }

  /** Registration followed by lookup: after inserting route `r` under `pattern`,
      looking up the pattern's own text finds the route registered there (the
      earlier one, or else `r`), provided its segments are static and no node on
      the way has a regex child. */
  lemma InsertedStaticFound(a: seq<TrieNode>, pattern: string, r: Route, re: RegexEngine)
    requires WellFormed(a)
    requires StaticPath(Inserted(a, PathSegments(pattern), r), 0, PathSegments(pattern), 0)
    ensures var segs := PathSegments(pattern);
            var prev := RouteFor(a, segs);
            FindSpec(Inserted(a, segs, r), pattern, re) == Hit(if prev != null then prev else r, SegParams(segs))
  {
    InsertedReaches(a, PathSegments(pattern), r);
    StaticPatternFound(Inserted(a, PathSegments(pattern), r), pattern, re);
  }

  lemma SegmentsOfRegexX()
    ensures PathSegments("/#a/x") == ["#a", "x"]
  {
    assert SkipSlashes("/#a/x", 1) == 1 && BackSlashes("/#a/x", 1, 5) == 5;
    assert Trim("/#a/x") == "/#a/x"[1..5] == "#a/x";
    assert Join(["#a", "x"]) == "#a/x" by {
      assert ["#a", "x"][1..] == ["x"];
    }
    SplitJoin(["#a", "x"]);
  }

  /** The trie after registering "/#a/x" (route r1) and then "/abc/y" (route r2). */
  function ShadowTree(r1: Route, r2: Route): seq<TrieNode>
  {
    [ TrieNode("", Children([3], [], [1]), null, true)
    , TrieNode("#a", Children([2], [], []), null, false)
    , TrieNode("x", NoChildren, r1, false)
    , TrieNode("abc", Children([4], [], []), null, false)
    , TrieNode("y", NoChildren, r2, false) ]
  }

  lemma SegmentsOfAbcY()
    ensures PathSegments("/abc/y") == ["abc", "y"]
  {
    assert SkipSlashes("/abc/y", 1) == 1 && BackSlashes("/abc/y", 1, 6) == 6;
    assert Trim("/abc/y") == "/abc/y"[1..6] == "abc/y";
    assert Join(["abc", "y"]) == "abc/y" by {
      assert ["abc", "y"][1..] == ["y"];
    }
    SplitJoin(["abc", "y"]);
  }

  lemma ShadowTreeWellFormed(r1: Route, r2: Route)
    ensures WellFormed(ShadowTree(r1, r2))
  {
    var a := ShadowTree(r1, r2);
    forall i | 0 <= i < |a|
      ensures NodeOk(a, i)
    {
      forall t, j | 0 <= j < |a[i].nodes.Of(t)|
        ensures ChildOk(a, a[i].nodes.Of(t)[j], t)
      {
      }
    }
  }

  /** The unrestricted round trip fails: "/abc/y" is registered, yet because the
      root's regex child "#a" accepts "abc" and is tried first, and the search
      never goes back, looking "/abc/y" up answers not-found. In the source the
      loop reaches node "#a" and then goes round with no change. */
  lemma ShadowedRouteMissed(r1: Route, r2: Route, re: RegexEngine)
    requires re("a", "abc") == Matched
    ensures WellFormed(EmptyTrie)
    ensures Inserted(Inserted(EmptyTrie, PathSegments("/#a/x"), r1), PathSegments("/abc/y"), r2) == ShadowTree(r1, r2)
    ensures WellFormed(ShadowTree(r1, r2))
    ensures PathSegments("/abc/y") == ["abc", "y"]
    ensures RouteFor(ShadowTree(r1, r2), ["abc", "y"]) == r2
    ensures FindSpec(ShadowTree(r1, r2), "/abc/y", re) == Miss
    ensures FindStepAsWritten(ShadowTree(r1, r2), Cursor(0, 0), ["abc", "y"], re) == Again(Cursor(1, 1))
    ensures FindStepAsWritten(ShadowTree(r1, r2), Cursor(1, 1), ["abc", "y"], re) == Again(Cursor(1, 1))
  {
    ShadowTreeWellFormed(r1, r2);
    SegmentsOfAbcY();
    SegmentsOfRegexX();
    ShadowTreeRegistered(r1, r2);
    ShadowWalk(r1, r2);
    ShadowMatches(r1, r2, re);
  }

  lemma EmptyTrieWellFormed()
    ensures WellFormed(EmptyTrie)
  {
    assert NodeOk(EmptyTrie, 0);
  }

  /** ShadowTree is what registering "/#a/x" (r1) and then "/abc/y" (r2) into a
      fresh tree builds. */
  lemma ShadowTreeRegistered(r1: Route, r2: Route)
    ensures WellFormed(EmptyTrie)
    ensures Inserted(Inserted(EmptyTrie, ["#a", "x"], r1), ["abc", "y"], r2) == ShadowTree(r1, r2)
  {
    EmptyTrieWellFormed();
    var s1, s2 := ["#a", "x"], ["abc", "y"];
    var a0 := EmptyTrie;
    assert Kids(a0, 0, Regex) == [];
    assert Walk(a0, 0, s1, 0) == (0, 0);
    assert CheckNodeType("#a") == Regex && CheckNodeType("x") == Static;
    assert CheckNodeType("abc") == Static && CheckNodeType("y") == Static;
    var a1 := AddChild(a0, 0, "#a");
    assert a0[0].nodes.Append(Regex, 1) == Children([], [], [1]);
    assert a1 == [TrieNode("", Children([], [], [1]), null, true), NewTrieNode("#a")];
    var a2 := AddChild(a1, 1, "x");
    assert a1[1].nodes.Append(Static, 2) == Children([2], [], []);
    assert a2 == [TrieNode("", Children([], [], [1]), null, true), TrieNode("#a", Children([2], [], []), null, false), NewTrieNode("x")];
    GraftStep(a0, 0, s1, 0, r1);
    GraftStep(a1, 1, s1, 1, r1);
    var b1 := Inserted(a0, s1, r1);
    assert b1 == a2[2 := a2[2].(leaf := r1)];
    assert Kids(b1, 0, Static) == [];
    assert Walk(b1, 0, s2, 0) == (0, 0);
    var a3 := AddChild(b1, 0, "abc");
    assert b1[0].nodes.Append(Static, 3) == Children([3], [], [1]);
    assert a3 == b1[0 := TrieNode("", Children([3], [], [1]), null, true)] + [NewTrieNode("abc")];
    var a4 := AddChild(a3, 3, "y");
    assert a3[3].nodes.Append(Static, 4) == Children([4], [], []);
    assert a4 == a3[3 := TrieNode("abc", Children([4], [], []), null, false)] + [NewTrieNode("y")];
    GraftStep(b1, 0, s2, 0, r2);
    GraftStep(a3, 3, s2, 1, r2);
    assert a4[4 := a4[4].(leaf := r2)] == ShadowTree(r1, r2);
  }

  /** Insert's walk for "/abc/y" in that trie goes through "abc" to "y", whose leaf is r2. */
  lemma ShadowWalk(r1: Route, r2: Route)
    ensures WellFormed(ShadowTree(r1, r2))
    ensures RouteFor(ShadowTree(r1, r2), ["abc", "y"]) == r2
  {
    var a := ShadowTree(r1, r2);
    ShadowTreeWellFormed(r1, r2);
    var segs := ["abc", "y"];
    assert Kids(a, 0, Static) == [3] && Kids(a, 3, Static) == [4];
    assert Walk(a, 4, segs, 2) == (4, 2);
    assert Walk(a, 3, segs, 1) == (4, 2);
    assert Walk(a, 0, segs, 0) == (4, 2);
  }

  /** Find's choices in that trie: the regex child "#a" for "abc", then nothing
      under it for "y". */
  lemma ShadowMatches(r1: Route, r2: Route, re: RegexEngine)
    requires re("a", "abc") == Matched
    ensures WellFormed(ShadowTree(r1, r2))
    ensures MatchChild(ShadowTree(r1, r2), 0, "abc", re) == Some(1)
    ensures MatchChild(ShadowTree(r1, r2), 1, "y", re) == None
  {
    var a := ShadowTree(r1, r2);
    ShadowTreeWellFormed(r1, r2);
    assert Priority[1..] == [Static, Param] && Priority[1..][1..] == [Param] && Priority[1..][1..][1..] == [];
    assert Kids(a, 0, Regex) == [1];
    assert SegMatches(Regex, a[1].seg, "abc", re);
    assert Kids(a, 1, Regex) == [] && Kids(a, 1, Static) == [2] && Kids(a, 1, Param) == [];
    assert !SegMatches(Static, a[2].seg, "y", re);
  }

  // ---------------------------------------------------------------------------
  // The tree object

  class Tree {
    var arena: seq<TrieNode>

    ghost predicate Valid()
      reads this
    {
      WellFormed(arena)
    }

    /** NewTree: a tree holding only its root, which is flagged as the root and has
        no segment, no children and no leaf. */
    constructor ()
      ensures Valid()
      ensures arena == EmptyTrie
    {
      arena := EmptyTrie;
    }

    /** GetRoot: the root node. */
    function GetRoot(): (n: nat)
      reads this
      requires Valid()
      ensures n < |arena| && arena[n].root
      ensures forall i :: 0 <= i < |arena| && arena[i].root ==> i == n
    {
      0
    }

    /** Insert's scan of one child list for a node with segment `seg`. */
    method ChildWithSeg(list: seq<nat>, seg: string) returns (pos: Option<nat>)
      requires Within(arena, list)
      ensures pos == SegIndex(arena, list, seg, 0)
    {
      var k := 0;
      while k < |list|
        invariant k <= |list|
        invariant SegIndex(arena, list, seg, k) == SegIndex(arena, list, seg, 0)
      {
        if arena[list[k]].seg == seg {
          return Some(k);
        }
        k := k + 1;
      }
      return None;
    }

    /** The descent part of Insert: follows existing children for as long as the
        pattern's segments are found. */
    method Locate(segs: seq<string>) returns (cur: nat, i: nat)
      requires Valid()
      ensures (cur, i) == Walk(arena, 0, segs, 0)
    {
      cur, i := 0, 0;
      while i < |segs|
        invariant i <= |segs| && cur < |arena|
        invariant Walk(arena, 0, segs, 0) == Walk(arena, cur, segs, i)
        decreases |segs| - i
      {
        var kids := Kids(arena, cur, CheckNodeType(segs[i]));
        var pos := ChildWithSeg(kids, segs[i]);
        if pos.None? {
          return;
        }
        cur := kids[pos.value];
        i := i + 1;
      }
    }

    /** Insert: registers `newRoute` under its pattern. When the pattern's node
        already has a leaf route, `newRoute`'s handlers are merged into that route
        and the trie is unchanged; otherwise the missing nodes are appended and the
        last one gets `newRoute` as its leaf. Returns `newRoute` in every case. */
    method Insert(newRoute: Route) returns (r: Route)
      requires Valid()
      requires InteriorNonEmpty(PathSegments(newRoute.pattern))
      modifies this, MergeTarget(arena, PathSegments(newRoute.pattern))
      ensures Valid()
      ensures r == newRoute
      ensures arena == Inserted(old(arena), PathSegments(old(newRoute.pattern)), newRoute)
      ensures Extends(old(arena), arena)
      ensures Walk(arena, 0, PathSegments(old(newRoute.pattern)), 0).1 == |PathSegments(old(newRoute.pattern))|
      ensures var prev := RouteFor(old(arena), PathSegments(old(newRoute.pattern)));
              RouteFor(arena, PathSegments(old(newRoute.pattern))) == (if prev != null then prev else newRoute)
      ensures var prev := RouteFor(old(arena), PathSegments(old(newRoute.pattern)));
              prev != null ==> prev.handlers == old(prev.handlers) + old(newRoute.handlers) && prev.pattern == old(prev.pattern)
    {
      var segs := PathSegments(newRoute.GetPattern());
      InsertedReaches(arena, segs, newRoute);
      var currentNode, i := Locate(segs);
      if i == |segs| && arena[currentNode].leaf != null {
        var merged := MergeRoutes(arena[currentNode].leaf, newRoute);
      } else {
        GraftPath(currentNode, segs, i, newRoute);
      }
      return newRoute;
    }

    /** The building part of Insert: appends a fresh node for each of `segs[i..]`,
        each below the one before, starting below `cur`, and makes `r` the leaf of
        the last one. */
    method GraftPath(cur: nat, segs: seq<string>, i: nat, r: Route)
      requires Valid() && cur < |arena| && i <= |segs|
      requires i == |segs| ==> arena[cur].leaf == null
      modifies this
      ensures arena == Graft(old(arena), cur, segs, i, r)
    {
      var nodes, currentNode: nat, k: nat := arena, cur, i;
      while k < |segs|
        invariant WellFormed(nodes) && currentNode < |nodes| && k <= |segs|
        invariant k == |segs| ==> nodes[currentNode].leaf == null
        invariant Graft(nodes, currentNode, segs, k, r) == Graft(old(arena), cur, segs, i, r)
        decreases |segs| - k
      {
        GraftStep(nodes, currentNode, segs, k, r);
        nodes := AddChild(nodes, currentNode, segs[k]);
        currentNode := |nodes| - 1;
        k := k + 1;
      }
      arena := nodes[currentNode := nodes[currentNode].(leaf := r)];
    }

    /** Find's scan of the children of `cur`, kind by kind in priority order and
        each list in insertion order, for the first that accepts `s`. */
    method MatchChildAt(cur: nat, s: string, re: RegexEngine) returns (c: Option<nat>)
      requires Valid() && cur < |arena|
      ensures c == MatchChild(arena, cur, s, re)
    {
      var k := 0;
      while k < |Priority|
        invariant k <= |Priority|
        invariant MatchAmong(arena, cur, Priority[k..], s, re) == MatchChild(arena, cur, s, re)
      {
        var t := Priority[k];
        var list := Kids(arena, cur, t);
        var j := 0;
        while j < |list|
          invariant j <= |list|
          invariant FirstMatch(arena, list, t, s, re, j) == FirstMatch(arena, list, t, s, re, 0)
        {
          if SegMatches(t, arena[list[j]].seg, s, re) {
            return Some(list[j]);
          }
          j := j + 1;
        }
        assert Priority[k..][1..] == Priority[k + 1..];
        k := k + 1;
      }
      return None;
    }

    /** Find's parameter map: "seg<i>" for the i-th request segment. */
    static method BuildParams(segs: seq<string>) returns (params: map<string, string>)
      ensures params == SegParams(segs)
    {
      params := map[];
      for k := 0 to |segs|
        invariant params == SegParams(segs[..k])
      {
        assert segs[..k + 1][..k] == segs[..k];
        params := params[SegKey(k) := segs[k]];
      }
      assert segs[..|segs|] == segs;
    }

    /** Find: walks the trie level by level with the request's segments. Reads the
        tree only; the `root` and `m` arguments play no part. On success it returns
        the leaf of the node matched by the last segment, with "seg<i>" mapped to
        the i-th segment for every segment; otherwise Miss. */
    method Find(root: nat, m: Method, path: string, re: RegexEngine) returns (res: Lookup)
      requires Valid()
      ensures res == FindSpec(arena, path, re)
      ensures res.Hit? ==> var segs := PathSegments(path);
                           |res.params| == |segs|
                           && forall i :: 0 <= i < |segs| ==> SegKey(i) in res.params && res.params[SegKey(i)] == segs[i]
    {
      var segs := PathSegments(path);
      SegParamsExact(segs);
      var currentNode: nat, i: nat := 0, 0;
      while true
        invariant i < |segs| && currentNode < |arena|
        invariant FindFrom(arena, 0, segs, 0, re) == FindFrom(arena, currentNode, segs, i, re)
        decreases |segs| - i
      {
        if arena[currentNode].nodes.Empty() {
          return Miss;
        }
        var c := MatchChildAt(currentNode, segs[i], re);
        if c.None? {
          return Miss;
        }
        if i + 1 == |segs| {
          var params := BuildParams(segs);
          return Hit(arena[c.value].leaf, params);
        }
        currentNode, i := c.value, i + 1;
      }
    }
  }
}
