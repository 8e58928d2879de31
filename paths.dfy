/**
 * Go's path.Clean, for the rooted paths that the router hands it. Its documented
 * lexical rules, applied to the elements between slashes from left to right:
 * repeated slashes collapse (empty elements vanish), "." elements vanish, ".."
 * removes the element before it, and a ".." with nothing before it in a rooted
 * path vanishes too. The result is "/" followed by the surviving elements joined
 * with "/".
 */
module Paths {
  import opened Strings

  /** An element that cleaning keeps. */
  predicate Proper(e: string)
  {
    e != "" && e != "." && e != ".." && '/' !in e
  }

  predicate AllProper(elems: seq<string>)
  {
    forall i :: 0 <= i < |elems| ==> Proper(elems[i])
  }

  predicate NoSlashIn(elems: seq<string>)
  {
    forall i :: 0 <= i < |elems| ==> '/' !in elems[i]
  }

  /** Applies the elements `elems` to the stack of surviving elements. */
  function Resolve(elems: seq<string>, stack: seq<string>): (r: seq<string>)
    ensures NoSlashIn(elems) && AllProper(stack) ==> AllProper(r)
    decreases |elems|
  {
    if elems == [] then stack
    else
      var e := elems[0];
      if e == "" || e == "." then Resolve(elems[1..], stack)
      else if e == ".." then Resolve(elems[1..], if stack == [] then [] else stack[..|stack| - 1])
      else Resolve(elems[1..], stack + [e])
  }

  /** path.Clean(p) for a rooted `p`: rooted again, with no trailing slash unless it is "/". */
  function Clean(p: string): (r: string)
    requires |p| > 0 && p[0] == '/'
    ensures |r| > 0 && r[0] == '/'
    ensures r == "/" || r[|r| - 1] != '/'
  {
    var st := Resolve(Split(p), []);
    assert AllProper(st);
    assert st == [] || Join(st)[|Join(st)| - 1] != '/' by {
      if st != [] {
        JoinEndsLikeLast(st);
      }
    }
    "/" + Join(st)
  }

  /** The joined text ends with the last character of the last element. */
  lemma {:induction false} JoinEndsLikeLast(segs: seq<string>)
    requires |segs| >= 1 && segs[|segs| - 1] != ""
    ensures var j := Join(segs); |j| > 0 && j[|j| - 1] == segs[|segs| - 1][|segs[|segs| - 1]| - 1]
    decreases |segs|
  {
    if |segs| > 1 {
      JoinEndsLikeLast(segs[1..]);
    }
  }

  /** Reading `a` then `b` is reading `a + b`. */
  lemma {:induction false} ResolveConcat(a: seq<string>, b: seq<string>, stack: seq<string>)
    ensures Resolve(a + b, stack) == Resolve(b, Resolve(a, stack))
    decreases |a|
  {
    if a != [] {
      assert (a + b)[0] == a[0] && (a + b)[1..] == a[1..] + b;
      var e := a[0];
      var next := if e == "" || e == "." then stack
                  else if e == ".." then (if stack == [] then [] else stack[..|stack| - 1])
                  else stack + [e];
      ResolveConcat(a[1..], b, next);
    } else {
      assert a + b == b;
    }
  }

  /** Elements that already survive cleaning are all kept, in order. */
  lemma {:induction false} ResolveProper(elems: seq<string>, stack: seq<string>)
    requires AllProper(elems)
    ensures Resolve(elems, stack) == stack + elems
    decreases |elems|
  {
    if elems != [] {
      ResolveProper(elems[1..], stack + [elems[0]]);
      assert stack + [elems[0]] + elems[1..] == stack + elems;
    }
  }

  /** Cleaning a clean path changes nothing. */
  lemma CleanIdempotent(p: string)
    requires |p| > 0 && p[0] == '/'
    ensures Clean(Clean(p)) == Clean(p)
  {
    var st := Resolve(Split(p), []);
    var q := Clean(p);
    assert q == "/" + Join(st);
    assert q[0] == '/' && q[1..] == Join(st);
    assert Split(q) == [""] + Split(Join(st));
    if st == [] {
      assert Split(q) == ["", ""];
      assert ["", ""][1..] == [""];
      assert Resolve(["", ""], []) == Resolve([""], []) == [];
    } else {
      SplitJoin(st);
      ResolveConcat([""], st, []);
      ResolveProper(st, []);
      assert Resolve(Split(q), []) == st;
    }
  }

  /** A trailing slash does not change the cleaned path. */
  lemma CleanTrailingSlash(p: string)
    requires |p| > 0 && p[0] == '/'
    ensures Clean(p + "/") == Clean(p)
  {
    SplitTrailingSlash(p);
    ResolveConcat(Split(p), [""], []);
  }
}
