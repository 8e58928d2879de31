/**
 * node.go: a node of a byte-labelled radix tree. It holds an optional leaf route,
 * the prefix it stands for, and its outgoing edges, which are kept sorted by label
 * so that an edge can be found by binary search.
 */
module Nodes {
  import opened Routes

  newtype Byte = x: int | 0 <= x < 256

  /** An outgoing edge: its label byte (`label` in node.go, a reserved word in Dafny) and the node it leads to. */
  datatype Edge = Edge(edgeLabel: Byte, node: Node?)

  /** Labels never decrease along the edge list. */
  ghost predicate Sorted(edges: seq<Edge>)
  {
    forall i, j :: 0 <= i < j < |edges| ==> edges[i].edgeLabel <= edges[j].edgeLabel
  }

  ghost predicate HasLabel(edges: seq<Edge>, l: Byte)
  {
    exists i :: 0 <= i < |edges| && edges[i].edgeLabel == l
  }

  /** `i` is the lowest position of an edge labelled `l`. */
  ghost predicate FirstLabelled(edges: seq<Edge>, i: int, l: Byte)
  {
    0 <= i < |edges| && edges[i].edgeLabel == l && forall k :: 0 <= k < i ==> edges[k].edgeLabel != l
  }

  /** Sorted once position `j` is left out. */
  ghost predicate SortedExcept(s: seq<Edge>, j: int)
  {
    forall a, b :: 0 <= a < b < |s| && a != j && b != j ==> s[a].edgeLabel <= s[b].edgeLabel
  }

  /** The edge at `j` is below every edge after it. */
  ghost predicate BelowLater(s: seq<Edge>, j: int)
  {
    0 <= j < |s| && forall b :: j < b < |s| ==> s[j].edgeLabel < s[b].edgeLabel
  }

  /** Exchanges the edges at `j - 1` and `j`. */
  function Swapped(s: seq<Edge>, j: int): seq<Edge>
    requires 0 < j < |s|
  {
    s[j - 1 := s[j]][j := s[j - 1]]
  }

  lemma SwapPermutes(s: seq<Edge>, j: int)
    requires 0 < j < |s|
    ensures multiset(Swapped(s, j)) == multiset(s)
  {
    var t := s[j - 1 := s[j]];
    assert multiset(t) == multiset(s) - multiset{s[j - 1]} + multiset{s[j]};
  }

  /** One step of moving the appended edge down keeps the insertion invariants. */
  lemma SwapKeepsOrder(s: seq<Edge>, j: int)
    requires 0 < j < |s| && s[j - 1].edgeLabel > s[j].edgeLabel
    requires SortedExcept(s, j) && BelowLater(s, j)
    ensures SortedExcept(Swapped(s, j), j - 1) && BelowLater(Swapped(s, j), j - 1)
  {
  }

  /** Where the appended edge stops, the whole list is sorted. */
  lemma StopSorted(s: seq<Edge>, j: int)
    requires SortedExcept(s, j) && BelowLater(s, j)
    requires j == 0 || s[j - 1].edgeLabel <= s[j].edgeLabel
    ensures Sorted(s)
  {
  }

  class Node {
    var leaf: Route?
    var prefix: string
    var edges: seq<Edge>

    /** The edge list is kept sorted by label. */
    ghost predicate Valid()
      reads this
    {
      Sorted(edges)
    }

    /** NewNode: no leaf, the empty prefix, no edges. */
    constructor ()
      ensures Valid()
      ensures !IsLeaf() && GetPrefixPath() == "" && edges == []
    {
      leaf := null;
      prefix := "";
      edges := [];
    }

    predicate IsLeaf()
      reads this
    {
      leaf != null
    }

    /** Replaces the prefix and nothing else; returns the node itself. */
    method SetPrefixPath(p: string) returns (self: Node)
      modifies this
      ensures self == this
      ensures GetPrefixPath() == p
      ensures leaf == old(leaf) && edges == old(edges)
    {
      prefix := p;
      self := this;
    }

    function GetPrefixPath(): string
      reads this
    {
      prefix
    }

    /** Replaces the leaf and nothing else; returns the node itself. */
    method SetLeaf(l: Route?) returns (self: Node)
      modifies this
      ensures self == this
      ensures GetLeaf() == l && IsLeaf() == (l != null)
      ensures prefix == old(prefix) && edges == old(edges)
    {
      leaf := l;
      self := this;
    }

    function GetLeaf(): Route?
      reads this
    {
      leaf
    }

    /** AddEdge: appends `e` and sorts; the edges afterwards are the old ones plus
        `e`, sorted by label. */
    method AddEdge(e: Edge)
      requires Valid()
      modifies this
      ensures Valid()
      ensures multiset(edges) == multiset(old(edges)) + multiset{e}
      ensures leaf == old(leaf) && prefix == old(prefix)
    {
      var s := edges + [e];
      var j := |s| - 1;
      while j > 0 && s[j - 1].edgeLabel > s[j].edgeLabel
        invariant 0 <= j < |s|
        invariant edges == old(edges) && leaf == old(leaf) && prefix == old(prefix)
        invariant multiset(s) == multiset(edges) + multiset{e}
        invariant SortedExcept(s, j) && BelowLater(s, j)
      {
        SwapKeepsOrder(s, j);
        SwapPermutes(s, j);
        s := Swapped(s, j);
        j := j - 1;
      }
      StopSorted(s, j);
      edges := s;
    }

    /** sort.Search over the edges for the first label not below `l`. */
    method Search(l: Byte) returns (idx: nat)
      requires Valid()
      ensures idx <= |edges|
      ensures forall i :: 0 <= i < idx ==> edges[i].edgeLabel < l
      ensures forall i :: idx <= i < |edges| ==> edges[i].edgeLabel >= l
    {
      var lo, hi := 0, |edges|;
      while lo < hi
        invariant 0 <= lo <= hi <= |edges|
        invariant forall i :: 0 <= i < lo ==> edges[i].edgeLabel < l
        invariant forall i :: hi <= i < |edges| ==> edges[i].edgeLabel >= l
      {
        var mid := (lo + hi) / 2;
        if edges[mid].edgeLabel < l {
          lo := mid + 1;
        } else {
          hi := mid;
        }
      }
      idx := lo;
    }

    /** GetEdge: the node of the lowest-placed edge labelled `l`, or nil when no
        edge carries that label. */
    method GetEdge(l: Byte) returns (n: Node?)
      requires Valid()
      ensures HasLabel(edges, l) ==> exists i :: FirstLabelled(edges, i, l) && n == edges[i].node
      ensures !HasLabel(edges, l) ==> n == null
    {
      var idx := Search(l);
      if idx < |edges| && edges[idx].edgeLabel == l {
        assert FirstLabelled(edges, idx, l);
        n := edges[idx].node;
      } else {
        n := null;
      }
    }

    /** ReplaceEdge: points the lowest-placed edge labelled `e.edgeLabel` at `e.node`;
        every other edge, every label and the order stay. With no such edge the
        source panics ("replacing missing edge"): here `ok` is false and nothing
        changes. */
    method ReplaceEdge(e: Edge) returns (ok: bool)
      requires Valid()
      modifies this
      ensures Valid()
      ensures ok == HasLabel(old(edges), e.edgeLabel)
      ensures ok ==> exists i :: FirstLabelled(old(edges), i, e.edgeLabel)
                                && edges == old(edges)[i := Edge(old(edges)[i].edgeLabel, e.node)]
      ensures !ok ==> edges == old(edges)
      ensures leaf == old(leaf) && prefix == old(prefix)
    {
      var idx := Search(e.edgeLabel);
      if idx < |edges| && edges[idx].edgeLabel == e.edgeLabel {
        assert FirstLabelled(edges, idx, e.edgeLabel);
        edges := edges[idx := Edge(edges[idx].edgeLabel, e.node)];
        ok := true;
      } else {
        ok := false;
      }
    }
  }
}
