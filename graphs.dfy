/** The road network: an undirected weighted graph as networkx's `Graph`
    holds it, with the node order and edge orientation its views report. */
module Graphs {
  import opened Seqs

  type Node = int

  /** An edge (or candidate road) as an ordered node pair. */
  type Edge = (Node, Node)

  /** `nodes` lists the nodes in insertion order (the order `G.nodes()`
      reports). `weight` holds each undirected edge once, keyed in the
      orientation `G.edges()` lists it: the endpoint inserted first comes
      first. Traffic tables built from `G.edges()` inherit that orientation. */
  datatype Graph = Graph(nodes: seq<Node>, weight: map<Edge, real>)

  /** Well-formed network: unique nodes, edges between known nodes with no
      self-loops and no pair stored in both orientations, non-negative
      traversal costs. */
  ghost predicate Valid(g: Graph) {
    && NoRepeats(g.nodes)
    && forall e | e in g.weight :: StoredWell(g, e)
  }

  /** A stored edge joins two distinct known nodes, is not also stored
      reversed, and costs something non-negative. */
  ghost predicate StoredWell(g: Graph, e: Edge)
    requires e in g.weight
  {
    && e.0 in g.nodes && e.1 in g.nodes
    && e.0 != e.1 && (e.1, e.0) !in g.weight
    && g.weight[e] >= 0.0
  }

  /** Every edge is keyed with its earlier-inserted endpoint first. Kept
      apart from `Valid`: only the orientation lemmas need it. */
  ghost predicate EarlierFirst(g: Graph)
    requires Valid(g)
  {
    forall e | e in g.weight :: Position(g.nodes, e.0) < Position(g.nodes, e.1)
  }

  /** Position of `x` in the node order (its first occurrence). */
  function Position(ns: seq<Node>, x: Node): nat
    requires x in ns
  {
    if ns[0] == x then 0 else 1 + Position(ns[1..], x)
  }

  /** `Position` finds the first occurrence of `x`. (Kept out of the
      function's contract: as an `ensures` it is instantiated wherever a
      well-formed network is in scope.) */
  lemma {:induction false} PositionFirst(ns: seq<Node>, x: Node)
    requires x in ns
    ensures Position(ns, x) < |ns| && ns[Position(ns, x)] == x
    ensures x !in ns[..Position(ns, x)]
  {
    if ns[0] != x {
      PositionFirst(ns[1..], x);
      assert ns[..Position(ns, x)] == [ns[0]] + ns[1..][..Position(ns[1..], x)];
    }
  }

  predicate Adjacent(g: Graph, u: Node, v: Node) {
    (u, v) in g.weight || (v, u) in g.weight
  }

  /** The `weight` attribute of the edge between `u` and `v`, whichever
      orientation stores it. */
  function Weight(g: Graph, u: Node, v: Node): real
    requires Adjacent(g, u, v)
  {
    if (u, v) in g.weight then g.weight[(u, v)] else g.weight[(v, u)]
  }

  /** `G.neighbors(x)`, as the duplicate-free list of adjacent nodes. */
  function Neighbors(g: Graph, x: Node): (r: seq<Node>)
    ensures forall n :: n in r <==> n in g.nodes && Adjacent(g, x, n)
  {
    NeighborsIn(g, x, g.nodes)
  }

  function NeighborsIn(g: Graph, x: Node, ns: seq<Node>): (r: seq<Node>)
    ensures forall n :: n in r <==> n in ns && Adjacent(g, x, n)
    decreases |ns|
  {
    if ns == [] then []
    else if Adjacent(g, x, ns[0]) then [ns[0]] + NeighborsIn(g, x, ns[1..])
    else NeighborsIn(g, x, ns[1..])
  }

  /** Over a duplicate-free node order, `G.neighbors(x)` has no repeats. */
  lemma NeighborsDistinct(g: Graph, x: Node)
    requires Distinct(g.nodes)
    ensures Distinct(Neighbors(g, x))
  {
    NeighborsInDistinct(g, x, g.nodes);
  }

  lemma {:induction false} NeighborsInDistinct(g: Graph, x: Node, ns: seq<Node>)
    requires Distinct(ns)
    ensures Distinct(NeighborsIn(g, x, ns))
    decreases |ns|
  {
    if ns != [] {
      DistinctTail(ns);
      NeighborsInDistinct(g, x, ns[1..]);
      if Adjacent(g, x, ns[0]) {
        DistinctConcat([ns[0]], NeighborsIn(g, x, ns[1..]));
      }
    }
  }

  /** `G.add_edge(x, y, weight=w)`: an existing edge between `x` and `y`
      (in either orientation) gets the new weight; otherwise missing
      endpoints are appended to the node order and the edge is stored
      earlier-endpoint-first. */
  function AddEdge(g: Graph, x: Node, y: Node, w: real): (h: Graph)
    requires x != y
    ensures Adjacent(h, x, y) && Weight(h, x, y) == w
    ensures g.weight.Keys <= h.weight.Keys
    ensures x in g.nodes && y in g.nodes ==> h.nodes == g.nodes
  {
    if (x, y) in g.weight then g.(weight := g.weight[(x, y) := w])
    else if (y, x) in g.weight then g.(weight := g.weight[(y, x) := w])
    else
      var ns := g.nodes + NewNodes(g.nodes, x, y);
      Graph(ns, g.weight[Oriented(ns, x, y) := w])
  }

  /** The endpoints `add_edge` has to append to the node order. */
  function NewNodes(nodes: seq<Node>, x: Node, y: Node): seq<Node> {
    (if x in nodes then [] else [x]) + (if y in nodes then [] else [y])
  }

  /** The orientation `G.edges()` reports for the pair: earlier node first. */
  function Oriented(ns: seq<Node>, x: Node, y: Node): Edge
    requires x in ns && y in ns
  {
    if Position(ns, x) < Position(ns, y) then (x, y) else (y, x)
  }

  /** `add_edge` changes no other road's weight and adds no other road. */
  lemma AddEdgeOthers(g: Graph, x: Node, y: Node, w: real)
    requires x != y
    ensures forall e | e in g.weight && e != (x, y) && e != (y, x) :: AddEdge(g, x, y, w).weight[e] == g.weight[e]
    ensures forall e | e in AddEdge(g, x, y, w).weight && e !in g.weight :: e == (x, y) || e == (y, x)
  {
  }

  /** Adding a road with a non-negative weight keeps the network well-formed,
      and every road that was there stays. */
  lemma AddEdgeValid(g: Graph, x: Node, y: Node, w: real)
    requires Valid(g) && x != y && w >= 0.0
    ensures Valid(AddEdge(g, x, y, w))
    ensures forall u, v | Adjacent(g, u, v) :: Adjacent(AddEdge(g, x, y, w), u, v)
  {
    if (x, y) !in g.weight && (y, x) !in g.weight {
      AddNewEdgeValid(g, x, y, w);
    }
  }

  lemma AddNewEdgeValid(g: Graph, x: Node, y: Node, w: real)
    requires Valid(g) && x != y && w >= 0.0
    requires (x, y) !in g.weight && (y, x) !in g.weight
    ensures Valid(AddEdge(g, x, y, w))
  {
    var ns := g.nodes + NewNodes(g.nodes, x, y);
    NoRepeatsIffDistinct(g.nodes);
    DistinctConcat(g.nodes, NewNodes(g.nodes, x, y));
    NoRepeatsIffDistinct(ns);
    var o := Oriented(ns, x, y);
    var h := Graph(ns, g.weight[o := w]);
    assert AddEdge(g, x, y, w) == h;
    forall e | e in h.weight
      ensures StoredWell(h, e)
    {
      if e != o {
        assert StoredWell(g, e);
        assert e.0 in ns && e.1 in ns;
      }
    }
  }

  /** `add_edge` keys a new road earlier-endpoint-first, so the orientation
      `G.edges()` reports is kept. */
  lemma AddEdgeEarlierFirst(g: Graph, x: Node, y: Node, w: real)
    requires Valid(g) && EarlierFirst(g) && x != y && w >= 0.0
    ensures Valid(AddEdge(g, x, y, w)) && EarlierFirst(AddEdge(g, x, y, w))
  {
    AddEdgeValid(g, x, y, w);
    var h := AddEdge(g, x, y, w);
    if (x, y) in g.weight || (y, x) in g.weight {
      assert h.nodes == g.nodes && h.weight.Keys == g.weight.Keys;
    } else {
      var ns := g.nodes + NewNodes(g.nodes, x, y);
      var o := Oriented(ns, x, y);
      assert h == Graph(ns, g.weight[o := w]);
      forall f | f in h.weight
        ensures Position(ns, f.0) < Position(ns, f.1)
      {
        if f != o {
          KeptOrder(g, ns, f);
        } else {
          OrientedEarlierFirst(ns, x, y);
        }
      }
    }
  }

  /** The orientation chosen for a pair of distinct nodes puts the earlier
      one first. */
  lemma OrientedEarlierFirst(ns: seq<Node>, x: Node, y: Node)
    requires x in ns && y in ns && x != y
    ensures var o := Oriented(ns, x, y);
      (o == (x, y) || o == (y, x)) && Position(ns, o.0) < Position(ns, o.1)
  {
    PositionFirst(ns, x);
    PositionFirst(ns, y);
  }

  /** Nodes appended after the known ones leave every stored road
      earlier-endpoint-first. */
  lemma KeptOrder(g: Graph, ns: seq<Node>, f: Edge)
    requires Valid(g) && EarlierFirst(g) && f in g.weight
    requires |g.nodes| <= |ns| && ns[..|g.nodes|] == g.nodes
    ensures f.0 in ns && f.1 in ns && Position(ns, f.0) < Position(ns, f.1)
  {
    assert StoredWell(g, f);
    PositionPrefix(g.nodes, ns, f.0);
    PositionPrefix(g.nodes, ns, f.1);
  }

  /** Appending to a sequence does not move its existing elements. */
  lemma PositionPrefix(s: seq<Node>, t: seq<Node>, n: Node)
    requires n in s && |s| <= |t| && t[..|s|] == s
    ensures n in t && Position(t, n) == Position(s, n)
  {
    var i := Position(s, n);
    PositionFirst(s, n);
    assert t[i] == n;
    assert t[..i] == s[..i];
    FirstPositionUnique(t, n, i);
  }

  /** A position holding `x` with no `x` before it is `x`'s first index. */
  lemma FirstPositionUnique(t: seq<Node>, x: Node, i: nat)
    requires i < |t| && t[i] == x && x !in t[..i]
    ensures Position(t, x) == i
    decreases i
  {
    if i > 0 {
      assert t[0] == t[..i][0];
      assert t[1..][..i - 1] == t[..i][1..];
      FirstPositionUnique(t[1..], x, i - 1);
    }
  }

  // ---------------------------------------------------------------------
  // Walks: node sequences whose consecutive nodes are adjacent.

  ghost predicate IsWalk(g: Graph, p: seq<Node>) {
    |p| >= 1 && forall i | 0 <= i < |p| - 1 :: Adjacent(g, p[i], p[i + 1])
  }

  /** `p` is a walk from `s` to `t`. */
  ghost predicate Joins(g: Graph, p: seq<Node>, s: Node, t: Node) {
    IsWalk(g, p) && p[0] == s && p[|p| - 1] == t
  }

  /** Sum of the weights of a walk's hops. */
  ghost function WalkLength(g: Graph, p: seq<Node>): real
    requires IsWalk(g, p)
    decreases |p|
  {
    if |p| == 1 then 0.0
    else
      WalkSlice(g, p, 0, |p| - 1);
      WalkLength(g, p[..|p| - 1]) + Weight(g, p[|p| - 2], p[|p| - 1])
  }

  /** A contiguous piece of a walk is a walk. */
  lemma WalkSlice(g: Graph, p: seq<Node>, lo: nat, hi: nat)
    requires IsWalk(g, p) && lo < hi <= |p|
    ensures IsWalk(g, p[lo..hi])
  {
    forall i | 0 <= i < hi - lo - 1
      ensures Adjacent(g, p[lo..hi][i], p[lo..hi][i + 1])
    {
      assert p[lo..hi][i] == p[lo + i] && p[lo..hi][i + 1] == p[lo + i + 1];
    }
  }

  /** With non-negative weights no walk has negative length. */
  lemma {:induction false} WalkLengthNonNeg(g: Graph, p: seq<Node>)
    requires Valid(g) && IsWalk(g, p)
    ensures WalkLength(g, p) >= 0.0
    decreases |p|
  {
    if |p| > 1 {
      WalkSlice(g, p, 0, |p| - 1);
      WalkLengthNonNeg(g, p[..|p| - 1]);
    }
  }

  /** Every node a walk of two or more nodes visits is a node of the network. */
  lemma WalkInNodes(g: Graph, p: seq<Node>)
    requires Valid(g) && IsWalk(g, p) && |p| >= 2
    ensures forall i | 0 <= i < |p| :: p[i] in g.nodes
  {
    forall i | 0 <= i < |p|
      ensures p[i] in g.nodes
    {
      if i < |p| - 1 {
        assert Adjacent(g, p[i], p[i + 1]);
      } else {
        assert Adjacent(g, p[i - 1], p[i]);
      }
    }
  }

  /** Gluing two walks that meet: lengths add up. */
  lemma {:induction false} WalkAppend(g: Graph, a: seq<Node>, b: seq<Node>)
    requires IsWalk(g, a) && IsWalk(g, b) && a[|a| - 1] == b[0]
    ensures IsWalk(g, a + b[1..])
    ensures WalkLength(g, a + b[1..]) == WalkLength(g, a) + WalkLength(g, b)
    decreases |b|
  {
    var ab := a + b[1..];
    forall i | 0 <= i < |ab| - 1
      ensures Adjacent(g, ab[i], ab[i + 1])
    {
      if i < |a| - 1 {
        assert ab[i] == a[i] && ab[i + 1] == a[i + 1];
      } else {
        assert ab[i] == b[i - |a| + 1] && ab[i + 1] == b[i - |a| + 2];
      }
    }
    if |b| == 1 {
      assert ab == a;
    } else {
      var b' := b[..|b| - 1];
      WalkSlice(g, b, 0, |b| - 1);
      WalkAppend(g, a, b');
      assert ab[..|ab| - 1] == a + b'[1..];
      assert ab[|ab| - 2] == b[|b| - 2] && ab[|ab| - 1] == b[|b| - 1];
    }
  }

  /** Walking a road backwards is a walk too (roads are undirected). */
  lemma WalkReverse(g: Graph, p: seq<Node>) returns (q: seq<Node>)
    requires IsWalk(g, p)
    ensures Joins(g, q, p[|p| - 1], p[0]) && |q| == |p|
  {
    q := seq(|p|, i requires 0 <= i < |p| => p[|p| - 1 - i]);
    forall i | 0 <= i < |q| - 1
      ensures Adjacent(g, q[i], q[i + 1])
    {
      assert Adjacent(g, p[|p| - 2 - i], p[|p| - 1 - i]);
    }
  }
}
